/** What `add_title_to_frontmatter` guarantees: the block it writes parses back, the new fields
    come first, whatever followed the old block is kept verbatim, and a second run stacks a
    second copy of the fields on top of the first. */
module FrontMatterProperties {
  import opened Options
  import opened Chars
  import opened Extractor
  import opened FrontMatter

  // ---------------------------------------------------------------------------------------
  // Parsing

  /** A text without a closer, followed by a line break, holds no closer that starts inside it */
  lemma NoCloserBefore(s: string, a: nat, x: string)
    requires a + |x| < |s| && s[a..a + |x|] == x && s[a + |x|] == '\n'
    requires !Contains(x, Closing)
    ensures forall q | a <= q < a + |x| :: !MatchesAt(s, q, Closing)
  {
    forall q | a <= q < a + |x|
      ensures !MatchesAt(s, q, Closing)
    {
      if q + 4 <= a + |x| {
        forall k | q <= k < q + 4
          ensures s[k] == x[k - a]
        {
          assert s[a..a + |x|][k - a] == s[k];
        }
        assert s[q..q + 4] == x[q - a..q - a + 4];
        assert !MatchesAt(x, q - a, Closing);
      } else if q + 4 <= |s| {
        assert s[q..q + 4][a + |x| - q] == '\n';
      }
    }
  }

  /** The inverse of parsing: a block without a closer inside is read back as written */
  lemma ParseComposed(yaml: string, rest: string)
    requires !Contains(yaml, Closing)
    ensures ParseFrontMatter(Opening + yaml + Closing + rest) == Some(Block(yaml, |yaml| + 8))
  {
    var s := Opening + yaml + Closing + rest;
    assert s[..4] == Opening;
    assert s[4..4 + |yaml|] == yaml;
    assert s[4 + |yaml|..8 + |yaml|] == Closing;
    NoCloserBefore(s, 4, yaml);
    var r := ParseFrontMatter(s);
    assert MatchesAt(s, 4 + |yaml|, Closing);
    assert r.Some?;
    assert !(|r.value.yaml| < |yaml|);
    assert |r.value.yaml| == |yaml|;
  }

  /** The parsed block never holds a closer: the lazy group stops at the first one */
  lemma BlockHasNoCloser(content: string)
    requires ParseFrontMatter(content).Some?
    ensures !Contains(ParseFrontMatter(content).value.yaml, Closing)
  {
    var y := ParseFrontMatter(content).value.yaml;
    forall q | 0 <= q <= |y|
      ensures !MatchesAt(y, q, Closing)
    {
      if q + 4 <= |y| {
        assert content[4..4 + |y|] == y;
        assert content[4 + q..8 + q] == content[4..4 + |y|][q..q + 4];
        assert !MatchesAt(content, 4 + q, Closing);
      }
    }
  }

  lemma SliceHasNoCloser(y: string, i: nat, j: nat)
    requires i <= j <= |y| && !Contains(y, Closing)
    ensures !Contains(y[i..j], Closing)
  {
    if Contains(y[i..j], Closing) {
      assert MatchesAt(y, i, y[i..j]);
      ContainsTransitive(y, y[i..j], Closing);
    }
  }

  // ---------------------------------------------------------------------------------------
  // The new fields hold no closer

  /** No line of `x` after the first starts with `c` */
  predicate NoLineStarts(x: string, c: char) {
    forall i | 0 <= i < |x| - 1 :: !(x[i] == '\n' && x[i + 1] == c)
  }

  lemma NoLineStartsConcat(a: string, b: string, c: char)
    requires NoLineStarts(a, c) && NoLineStarts(b, c)
    requires a == [] || b == [] || a[|a| - 1] != '\n' || b[0] != c
    ensures NoLineStarts(a + b, c)
  {
    var s := a + b;
    forall i | 0 <= i < |s| - 1
      ensures !(s[i] == '\n' && s[i + 1] == c)
    {
      if i + 1 < |a| {
        assert s[i] == a[i] && s[i + 1] == a[i + 1];
      } else if i + 1 == |a| {
        assert s[i] == a[|a| - 1] && s[i + 1] == b[0];
      } else {
        assert s[i] == b[i - |a|] && s[i + 1] == b[i + 1 - |a|];
      }
    }
  }

  lemma DashFreeCloser(x: string)
    requires NoLineStarts(x, '-')
    ensures !Contains(x, Closing)
  {
    forall q | 0 <= q <= |x|
      ensures !MatchesAt(x, q, Closing)
    {
      if q + 4 <= |x| {
        assert x[q..q + 4][0] == x[q] && x[q..q + 4][1] == x[q + 1];
      }
    }
  }

  /** Metadata whose every field is a single line */
  predicate LineFields(md: MarkdownMetadata) {
    && '\n' !in md.title && '\n' !in md.book && '\n' !in md.publicationDate
    && forall k | 0 <= k < |md.authors| :: '\n' !in md.authors[k]
  }

  /** The characters no line of the new fields but the first and the date line starts with */
  predicate FreeStart(c: char) {
    c != 'A' && c != ' ' && c != 'B' && c != '\n'
  }

  lemma {:induction false} AuthorsYamlLines(authors: seq<string>, c: char)
    requires forall k | 0 <= k < |authors| :: '\n' !in authors[k]
    requires FreeStart(c)
    ensures NoLineStarts(AuthorsYaml(authors), c)
    ensures AuthorsYaml(authors) == [] || AuthorsYaml(authors)[0] == ' '
  {
    if authors != [] {
      var line := AuthorLine(authors[0]);
      assert '\n' !in line;
      if |authors| > 1 {
        AuthorsYamlLines(authors[1..], c);
        NoLineStartsConcat(line, "\n", c);
        NoLineStartsConcat(line + "\n", AuthorsYaml(authors[1..]), c);
        assert AuthorsYaml(authors)[0] == line[0];
      }
    }
  }

  lemma FieldsBeforeDateLines(md: MarkdownMetadata, c: char)
    requires LineFields(md) && FreeStart(c)
    ensures NoLineStarts(FieldsBeforeDate(md), c)
  {
    var ay := AuthorsYaml(md.authors);
    AuthorsYamlLines(md.authors, c);
    var s1 := "Title: \"" + md.title;
    assert '\n' !in s1;
    var s2 := s1 + "\"\nAuthors:\n";
    NoLineStartsConcat(s1, "\"\nAuthors:\n", c);
    NoLineStartsConcat(s2, ay, c);
    var s3 := s2 + ay;
    NoLineStartsConcat(s3, "\n", c);
    var book := BookLine(md.book);
    assert '\n' !in book;
    NoLineStartsConcat(s3 + "\n", book, c);
    NoLineStartsConcat(s3 + "\n" + book, "\n", c);
  }

  lemma NewFieldsDashFree(md: MarkdownMetadata)
    requires LineFields(md)
    ensures NoLineStarts(NewFields(md), '-')
    ensures NewFields(md)[0] == 'T' && NewFields(md)[|NewFields(md)| - 1] == '"'
  {
    var f := FieldsBeforeDate(md);
    FieldsBeforeDateLines(md, '-');
    var tail := "Date: \"" + md.publicationDate + "\"";
    assert '\n' !in tail;
    NoLineStartsConcat(f, tail, '-');
    assert NewFields(md) == f + tail;
  }

  // ---------------------------------------------------------------------------------------
  // Injection

  /** The fields, a line break, then a text that does not open with `---`: still no closer */
  lemma JoinNoCloser(x: string, t: string)
    requires NoLineStarts(x, '-') && x != [] && x[|x| - 1] != '\n'
    requires !Contains(t, Closing) && !(|t| >= 3 && t[..3] == "---")
    ensures !Contains(x + "\n" + t, Closing)
  {
    var s := x + "\n" + t;
    forall q | 0 <= q <= |s|
      ensures !MatchesAt(s, q, Closing)
    {
      if q + 4 <= |s| {
        var w := s[q..q + 4];
        if q + 1 < |x| {
          assert w[0] == x[q] && w[1] == x[q + 1];
        } else if q + 1 == |x| {
          assert w[0] == x[|x| - 1];
        } else if q == |x| {
          assert w[1..] == t[..3];
          assert Closing[1..] == "---";
        } else {
          forall k | q <= k < q + 4
            ensures s[k] == t[k - |x| - 1]
          {
          }
          assert w == t[q - |x| - 1..q - |x| + 3];
          assert !MatchesAt(t, q - |x| - 1, Closing);
        }
      }
    }
  }

  lemma InjectFreshText(content: string, md: MarkdownMetadata)
    requires ParseFrontMatter(content).None?
    ensures Inject(content, md) == Opening + NewFields(md) + Closing + ("\n" + content)
  {
  }

  lemma InjectExistingText(content: string, md: MarkdownMetadata)
    requires ParseFrontMatter(content).Some?
    ensures var b := ParseFrontMatter(content).value;
      Inject(content, md) == Opening + (NewFields(md) + "\n" + Strip(b.yaml)) + Closing + content[b.end..]
  {
  }

  /** The block read back from `Opening + yaml + Closing + rest`, and what follows it */
  lemma ParseRest(yaml: string, rest: string)
    requires !Contains(yaml, Closing)
    ensures var s := Opening + yaml + Closing + rest;
      ParseFrontMatter(s) == Some(Block(yaml, |yaml| + 8)) && s[|yaml| + 8..] == rest
  {
    ParseComposed(yaml, rest);
    var s := Opening + yaml + Closing + rest;
    assert s[|yaml| + 8..] == rest;
  }

  /** Without front matter, the injected block is exactly the new fields, and the old content
      follows its closing line */
  lemma InjectFresh(content: string, md: MarkdownMetadata)
    requires ParseFrontMatter(content).None? && LineFields(md)
    ensures var out := Inject(content, md);
      && ParseFrontMatter(out) == Some(Block(NewFields(md), |NewFields(md)| + 8))
      && out[|NewFields(md)| + 8..] == "\n" + content
  {
    NewFieldsDashFree(md);
    DashFreeCloser(NewFields(md));
    InjectFreshText(content, md);
    ParseRest(NewFields(md), "\n" + content);
  }

  /** The stripped old block holds no closer */
  lemma KeptHasNoCloser(content: string)
    requires ParseFrontMatter(content).Some?
    ensures !Contains(Strip(ParseFrontMatter(content).value.yaml), Closing)
  {
    var y := ParseFrontMatter(content).value.yaml;
    BlockHasNoCloser(content);
    StripSpec(y);
    var i, j :| 0 <= i <= j <= |y| && Strip(y) == y[i..j];
    SliceHasNoCloser(y, i, j);
  }

  /** With front matter, the new fields come first, then the stripped old block; whatever followed
      the old block follows the new one unchanged */
  lemma InjectExisting(content: string, md: MarkdownMetadata)
    requires ParseFrontMatter(content).Some? && LineFields(md)
    requires var kept := Strip(ParseFrontMatter(content).value.yaml); !(|kept| >= 3 && kept[..3] == "---")
    ensures var b := ParseFrontMatter(content).value;
      var yaml := NewFields(md) + "\n" + Strip(b.yaml);
      var out := Inject(content, md);
      && ParseFrontMatter(out) == Some(Block(yaml, |yaml| + 8))
      && out[|yaml| + 8..] == content[b.end..]
  {
    var b := ParseFrontMatter(content).value;
    NewFieldsDashFree(md);
    KeptHasNoCloser(content);
    JoinNoCloser(NewFields(md), Strip(b.yaml));
    InjectExistingText(content, md);
    ParseRest(NewFields(md) + "\n" + Strip(b.yaml), content[b.end..]);
  }

  /** An old block that opens with `---` after stripping closes the new block right after the
      fields */
  lemma InjectDashedBlock(content: string, md: MarkdownMetadata)
    requires ParseFrontMatter(content).Some? && LineFields(md)
    requires var kept := Strip(ParseFrontMatter(content).value.yaml); |kept| >= 3 && kept[..3] == "---"
    ensures ParseFrontMatter(Inject(content, md)).Some?
    ensures ParseFrontMatter(Inject(content, md)).value.yaml == NewFields(md)
  {
    var b := ParseFrontMatter(content).value;
    var kept := Strip(b.yaml);
    var f := NewFields(md);
    NewFieldsDashFree(md);
    DashFreeCloser(f);
    InjectExistingText(content, md);
    DashedRegroup(f, kept, content[b.end..]);
    ParseComposed(f, kept[3..] + Closing + content[b.end..]);
  }

  lemma DashedRegroup(f: string, kept: string, tail: string)
    requires |kept| >= 3 && kept[..3] == "---"
    ensures Opening + (f + "\n" + kept) + Closing + tail == Opening + f + Closing + (kept[3..] + Closing + tail)
  {
    assert "\n" + kept == Closing + kept[3..];
  }

  /** The opening block's text starts with `f` */
  predicate BlockStartsWith(out: string, f: string) {
    var r := ParseFrontMatter(out);
    r.Some? && |r.value.yaml| >= |f| && r.value.yaml[..|f|] == f
  }

  lemma ExistingFieldsFirst(content: string, md: MarkdownMetadata)
    requires ParseFrontMatter(content).Some? && LineFields(md)
    requires var kept := Strip(ParseFrontMatter(content).value.yaml); !(|kept| >= 3 && kept[..3] == "---")
    ensures BlockStartsWith(Inject(content, md), NewFields(md))
  {
    var f := NewFields(md);
    var kept := Strip(ParseFrontMatter(content).value.yaml);
    InjectExisting(content, md);
    assert (f + "\n" + kept)[..|f|] == f;
  }

  /** In every case the injected output opens with a block whose text starts with the new fields */
  lemma InjectFieldsFirst(content: string, md: MarkdownMetadata)
    requires LineFields(md)
    ensures var r := ParseFrontMatter(Inject(content, md));
      && r.Some? && |r.value.yaml| >= |NewFields(md)| && r.value.yaml[..|NewFields(md)|] == NewFields(md)
  {
    var f := NewFields(md);
    if ParseFrontMatter(content).None? {
      InjectFresh(content, md);
      assert f[..|f|] == f;
    } else {
      var kept := Strip(ParseFrontMatter(content).value.yaml);
      if |kept| >= 3 && kept[..3] == "---" {
        InjectDashedBlock(content, md);
        assert f[..|f|] == f;
      } else {
        ExistingFieldsFirst(content, md);
      }
    }
    assert BlockStartsWith(Inject(content, md), f);
  }

  /** Injecting twice into a note without front matter stacks two copies of the fields */
  lemma InjectTwice(content: string, md: MarkdownMetadata)
    requires ParseFrontMatter(content).None? && LineFields(md)
    ensures Inject(Inject(content, md), md)
         == Opening + (NewFields(md) + "\n" + NewFields(md)) + Closing + ("\n" + content)
  {
    var f := NewFields(md);
    var once := Inject(content, md);
    InjectFresh(content, md);
    NewFieldsDashFree(md);
    StripSpec(f);
    assert Strip(f) == f;
    InjectExistingText(once, md);
  }
}
