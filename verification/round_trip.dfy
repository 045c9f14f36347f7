/** The validator accepts what the injector writes: `validate_frontmatter(add_title_to_frontmatter(c, m), m)`
    is valid for single-line metadata with a title and a date, and it rejects the injected text
    when it is asked about another title or when the date written was empty. */
module RoundTrip {
  import opened Options
  import opened Chars
  import opened Scan
  import opened Extractor
  import opened FrontMatter
  import opened FrontMatterProperties
  import opened Validator

  // ---------------------------------------------------------------------------------------
  // Quoted values

  /** A quoted single-line value without `"` is read back exactly */
  lemma {:induction false} QuoteExact(f: string, g: nat, x: nat, v: string)
    requires g < x <= g + |v| && g + |v| < |f|
    requires f[g..g + |v|] == v && f[g + |v|] == '"'
    requires '"' !in v && '\n' !in v
    ensures forall k | g <= k < x :: f[k] != '\n'
    ensures forall k | g < k < x :: f[k] != '"'
    ensures QuoteFrom(f, g, x) == Some(v)
    decreases g + |v| - x
  {
    forall k | g <= k < g + |v|
      ensures f[k] == v[k - g]
    {
      assert f[g..g + |v|][k - g] == f[k];
    }
    if x < g + |v| {
      QuoteExact(f, g, x + 1, v);
    }
  }

  /** A `"` later on the same line ends the group somewhere */
  lemma {:induction false} QuoteSome(f: string, g: nat, x: nat, y: nat)
    requires g < x <= y < |f| && f[y] == '"'
    requires forall k | g <= k < y :: f[k] != '\n'
    requires forall k | g < k < x :: f[k] != '"'
    ensures QuoteFrom(f, g, x).Some?
    decreases y - x
  {
    if f[x] != '"' {
      QuoteSome(f, g, x + 1, y);
    }
  }

  lemma QuotedNonEmpty(f: string, p: nat, key: string)
    ensures QuotedAt(f, p, key).Some? ==> QuotedAt(f, p, key).value != []
  {
  }

  // ---------------------------------------------------------------------------------------
  // The new fields

  /** `f` begins with the new fields of `md` */
  predicate FieldsFirst(f: string, md: MarkdownMetadata) {
    IsPrefix(NewFields(md), f)
  }

  predicate IsPrefix(a: string, b: string) {
    |a| <= |b| && b[..|a|] == a
  }

  lemma PrefixConcat(a: string, b: string)
    ensures IsPrefix(a, a + b)
  {
    assert (a + b)[..|a|] == a;
  }

  lemma PrefixTrans(a: string, b: string, c: string)
    requires IsPrefix(a, b) && IsPrefix(b, c)
    ensures IsPrefix(a, c)
  {
    assert c[..|b|][..|a|] == c[..|a|];
  }

  lemma PrefixContains(f: string, pre: string, sub: string)
    requires IsPrefix(pre, f) && Contains(pre, sub)
    ensures Contains(f, sub)
  {
    assert MatchesAt(f, 0, pre);
    ContainsTransitive(f, pre, sub);
  }

  /** A slice inside the prefix is the prefix's slice */
  lemma PrefixSlice(f: string, pre: string, i: nat, j: nat)
    requires IsPrefix(pre, f) && i <= j <= |pre|
    ensures f[i..j] == pre[i..j]
  {
    assert f[..|pre|][i..j] == f[i..j];
  }

  lemma PrefixAt(f: string, pre: string, k: nat)
    requires IsPrefix(pre, f) && k < |pre|
    ensures f[k] == pre[k]
  {
    assert f[..|pre|][k] == f[k];
  }

  /** The new fields up to the `Authors:` line */
  function TitleAndKey(md: MarkdownMetadata): string {
    "Title: \"" + md.title + "\"\nAuthors:\n"
  }

  /** The new fields up to the book line */
  function UpToBook(md: MarkdownMetadata): string {
    TitleAndKey(md) + AuthorsYaml(md.authors) + "\n" + BookLine(md.book)
  }

  lemma NewFieldsPrefixes(md: MarkdownMetadata)
    ensures IsPrefix(TitleAndKey(md), NewFields(md))
    ensures IsPrefix(TitleAndKey(md) + AuthorsYaml(md.authors), NewFields(md))
    ensures IsPrefix(UpToBook(md), NewFields(md))
    ensures IsPrefix(FieldsBeforeDate(md), NewFields(md))
  {
    var a2 := TitleAndKey(md);
    var a3 := a2 + AuthorsYaml(md.authors);
    var a4 := a3 + "\n";
    var a5 := a4 + BookLine(md.book);
    var fb := FieldsBeforeDate(md);
    var nf := NewFields(md);
    assert fb == a5 + "\n";
    assert nf == fb + "Date: \"" + md.publicationDate + "\"";
    PrefixConcat(fb + "Date: \"" + md.publicationDate, "\"");
    PrefixConcat(fb + "Date: \"", md.publicationDate);
    PrefixConcat(fb, "Date: \"");
    PrefixTrans(fb, fb + "Date: \"", fb + "Date: \"" + md.publicationDate);
    PrefixTrans(fb, fb + "Date: \"" + md.publicationDate, nf);
    PrefixConcat(a5, "\n");
    PrefixTrans(a5, fb, nf);
    PrefixConcat(a4, BookLine(md.book));
    PrefixTrans(a4, a5, nf);
    PrefixConcat(a3, "\n");
    PrefixTrans(a3, a4, nf);
    PrefixConcat(a2, AuthorsYaml(md.authors));
    PrefixTrans(a2, a3, nf);
  }

  lemma TitleParts(md: MarkdownMetadata)
    ensures var a := TitleAndKey(md); var t := md.title;
      && |a| == 19 + |t|
      && a[..8] == "Title: \""
      && a[8..8 + |t|] == t && a[8 + |t|] == '"'
  {
  }

  lemma DateParts(md: MarkdownMetadata)
    ensures var f := NewFields(md); var p := |FieldsBeforeDate(md)|; var d := md.publicationDate;
      && p > 0 && f[p - 1] == '\n'
      && f[p..p + 7] == "Date: \""
      && f[p + 7..p + 7 + |d|] == d && f[p + 7 + |d|] == '"' && |f| == p + 8 + |d|
  {
    var fb := FieldsBeforeDate(md);
    var d := md.publicationDate;
    var y := "Date: \"" + d + "\"";
    assert NewFields(md) == fb + y;
    DatePartsOf(fb, y, d);
    assert fb == UpToBook(md) + "\n";
  }

  lemma DatePartsOf(fb: string, y: string, d: string)
    requires y == "Date: \"" + d + "\""
    ensures var f := fb + y; var p := |fb|;
      && (p > 0 ==> f[p - 1] == fb[p - 1])
      && f[p..p + 7] == "Date: \""
      && f[p + 7..p + 7 + |d|] == d && f[p + 7 + |d|] == '"' && |f| == p + 8 + |d|
  {
    var f := fb + y;
    var p := |fb|;
    assert f[p..] == y;
    assert f[p..p + 7] == y[..7];
    assert f[p + 7..p + 7 + |d|] == y[7..7 + |d|];
  }

  lemma {:induction false} AuthorsYamlContains(authors: seq<string>, k: nat)
    requires k < |authors|
    ensures Contains(AuthorsYaml(authors), ExpectedAuthor(authors[k]))
  {
    var line := AuthorLine(authors[0]);
    var rest := AuthorsYaml(authors[1..]);
    assert line == "  - " + ExpectedAuthor(authors[0]) + "";
    if |authors| == 1 {
      ContainsConcat("  - ", ExpectedAuthor(authors[0]), "");
    } else if k == 0 {
      ContainsConcat("  - ", ExpectedAuthor(authors[0]), "");
      ContainsConcat("", line, "\n" + rest);
      assert AuthorsYaml(authors) == "" + line + ("\n" + rest);
      ContainsTransitive(AuthorsYaml(authors), line, ExpectedAuthor(authors[0]));
    } else {
      AuthorsYamlContains(authors[1..], k - 1);
      assert authors[1..][k - 1] == authors[k];
      ContainsConcat(line + "\n", rest, "");
      assert AuthorsYaml(authors) == line + "\n" + rest + "";
      ContainsTransitive(AuthorsYaml(authors), rest, ExpectedAuthor(authors[k]));
    }
  }

  /** The new fields hold the `Authors:` key, every author as a quoted wiki-link, and the book line */
  lemma NewFieldsContain(md: MarkdownMetadata)
    ensures Contains(NewFields(md), "Authors:")
    ensures Contains(NewFields(md), BookLine(md.book))
    ensures forall k | 0 <= k < |md.authors| :: Contains(NewFields(md), ExpectedAuthor(md.authors[k]))
  {
    var nf := NewFields(md);
    var a2 := TitleAndKey(md);
    var ay := AuthorsYaml(md.authors);
    NewFieldsPrefixes(md);
    assert a2 == "Title: \"" + md.title + "\"\n" + "Authors:" + "\n";
    ContainsConcat("Title: \"" + md.title + "\"\n", "Authors:", "\n");
    PrefixContains(nf, a2, "Authors:");
    ContainsConcat(a2 + ay + "\n", BookLine(md.book), "");
    assert UpToBook(md) == a2 + ay + "\n" + BookLine(md.book) + "";
    PrefixContains(nf, UpToBook(md), BookLine(md.book));
    ContainsConcat(a2, ay, "");
    assert a2 + ay == a2 + ay + "";
    forall k | 0 <= k < |md.authors|
      ensures Contains(nf, ExpectedAuthor(md.authors[k]))
    {
      AuthorsYamlContains(md.authors, k);
      ContainsTransitive(a2 + ay, ay, ExpectedAuthor(md.authors[k]));
      PrefixContains(nf, a2 + ay, ExpectedAuthor(md.authors[k]));
    }
  }

  // ---------------------------------------------------------------------------------------
  // Each check passes on a block that starts with the new fields

  lemma TitleFound(f: string, md: MarkdownMetadata)
    requires FieldsFirst(f, md) && md.title != [] && '"' !in md.title && '\n' !in md.title
    ensures Search(f, 0, Validator.TitleAt) == Some(md.title)
  {
    var a := TitleAndKey(md);
    var t := md.title;
    NewFieldsPrefixes(md);
    PrefixTrans(a, NewFields(md), f);
    TitleParts(md);
    PrefixSlice(f, a, 0, 8);
    PrefixSlice(f, a, 8, 8 + |t|);
    PrefixAt(f, a, 8 + |t|);
    assert f[..6] == f[..8][..6];
    assert MatchesAt(f, 0, "Title:");
    assert f[6] == f[..8][6] && f[7] == f[..8][7];
    SkipSpaceTo(f, 6, 7);
    QuoteExact(f, 8, 9, t);
    SearchFinds(f, 0, Validator.TitleAt, 0);
  }

  lemma DateFound(f: string, md: MarkdownMetadata)
    requires FieldsFirst(f, md) && md.publicationDate != [] && '\n' !in md.publicationDate
    ensures Search(f, 0, Validator.DateAt).Some?
  {
    var nf := NewFields(md);
    var d := md.publicationDate;
    var p := |FieldsBeforeDate(md)|;
    DateParts(md);
    PrefixAt(f, nf, p - 1);
    PrefixSlice(f, nf, p, p + 7);
    PrefixSlice(f, nf, p + 7, p + 7 + |d|);
    PrefixAt(f, nf, p + 7 + |d|);
    DateQuoted(f, p, d);
  }

  lemma DateQuoted(f: string, p: nat, d: string)
    requires p > 0 && p + 7 + |d| < |f| && f[p - 1] == '\n'
    requires f[p..p + 7] == "Date: \""
    requires f[p + 7..p + 7 + |d|] == d && f[p + 7 + |d|] == '"'
    requires d != [] && '\n' !in d
    ensures Search(f, 0, Validator.DateAt).Some?
  {
    assert f[p..p + 5] == f[p..p + 7][..5];
    assert f[p + 5] == f[p..p + 7][5] && f[p + 6] == f[p..p + 7][6];
    SkipSpaceTo(f, p + 5, p + 6);
    forall k | p + 7 <= k < p + 7 + |d|
      ensures f[k] != '\n'
    {
      assert f[p + 7..p + 7 + |d|][k - p - 7] == f[k];
    }
    QuoteSome(f, p + 7, p + 8, p + 7 + |d|);
    assert Validator.DateAt(f, p).Some?;
  }

  lemma {:induction false} NoMissingAuthors(f: string, authors: seq<string>)
    requires forall k | 0 <= k < |authors| :: Contains(f, ExpectedAuthor(authors[k]))
    ensures MissingAuthors(f, authors) == []
  {
    if authors != [] {
      assert forall k | 0 <= k < |authors[1..]| :: authors[1..][k] == authors[k + 1];
      NoMissingAuthors(f, authors[1..]);
    }
  }

  lemma ChecksPass(f: string, md: MarkdownMetadata)
    requires FieldsFirst(f, md)
    requires md.title != [] && '"' !in md.title && '\n' !in md.title
    requires md.publicationDate != [] && '\n' !in md.publicationDate
    ensures TitleErrors(f, md.title) == []
    ensures AuthorErrors(f, md.authors) == []
    ensures BookErrors(f, md.book) == []
    ensures DateErrors(f) == []
  {
    var nf := NewFields(md);
    TitleFound(f, md);
    DateFound(f, md);
    NewFieldsContain(md);
    PrefixContains(f, nf, "Authors:");
    PrefixContains(f, nf, BookLine(md.book));
    forall k | 0 <= k < |md.authors|
      ensures Contains(f, ExpectedAuthor(md.authors[k]))
    {
      PrefixContains(f, nf, ExpectedAuthor(md.authors[k]));
    }
    NoMissingAuthors(f, md.authors);
  }

  // ---------------------------------------------------------------------------------------
  // Round trip

  /** Injected metadata validates: single-line fields, a non-empty title without `"`, and a
      non-empty date */
  lemma InjectThenValidate(content: string, md: MarkdownMetadata)
    requires LineFields(md)
    requires md.title != [] && '"' !in md.title
    requires md.publicationDate != []
    ensures Validate(Inject(content, md), md).isValid
    ensures Validate(Inject(content, md), md).errors == []
  {
    var out := Inject(content, md);
    InjectFieldsFirst(content, md);
    var b := ParseFrontMatter(out).value;
    ChecksPass(b.yaml, md);
  }

  /** The validator notices a different title */
  lemma OtherTitleInvalid(content: string, md: MarkdownMetadata, expected: MarkdownMetadata)
    requires LineFields(md)
    requires md.title != [] && '"' !in md.title
    requires expected.title != md.title
    ensures !Validate(Inject(content, md), expected).isValid
  {
    var out := Inject(content, md);
    InjectFieldsFirst(content, md);
    var b := ParseFrontMatter(out).value;
    TitleFound(b.yaml, md);
  }

  /** An empty expected title can never validate: the title group holds at least one character */
  lemma EmptyTitleInvalid(content: string, md: MarkdownMetadata)
    requires md.title == ""
    ensures !Validate(content, md).isValid
  {
    match ParseFrontMatter(content)
    case None =>
    case Some(b) =>
      var r := Search(b.yaml, 0, Validator.TitleAt);
      if r.Some? {
        var p :| 0 <= p <= |b.yaml| && Validator.TitleAt(b.yaml, p) == r;
        QuotedNonEmpty(b.yaml, p, "Title:");
      }
      assert TitleErrors(b.yaml, md.title) != [];
  }

  /** The expected date never changes the errors, only the warnings */
  lemma DateOnlyWarns(content: string, md: MarkdownMetadata, date: string)
    ensures Validate(content, md).errors == Validate(content, md.(publicationDate := date)).errors
    ensures Validate(content, md).isValid == Validate(content, md.(publicationDate := date)).isValid
  {
  }

  /** An empty date written into a note without front matter is an error, not a warning: `""`
      gives the lazy group nothing to hold */
  lemma EmptyDateInvalid(content: string, md: MarkdownMetadata)
    requires ParseFrontMatter(content).None? && LineFields(md)
    requires md.publicationDate == ""
    ensures !Validate(Inject(content, md), md).isValid
    ensures NoDate in Validate(Inject(content, md), md).errors
  {
    var nf := NewFields(md);
    InjectFresh(content, md);
    NoDateLine(md);
    assert DateErrors(nf) == [NoDate];
  }

  lemma NoDateLine(md: MarkdownMetadata)
    requires LineFields(md) && md.publicationDate == ""
    ensures Search(NewFields(md), 0, Validator.DateAt).None?
  {
    var nf := NewFields(md);
    var pre := FieldsBeforeDate(md);
    FieldsBeforeDateLines(md, 'D');
    assert nf == pre + "Date: \"\"";
    assert pre[0] == 'T';
    forall q | 0 <= q <= |nf|
      ensures Validator.DateAt(nf, q).None?
    {
      NoDateAt(nf, pre, q);
    }
    SearchFails(nf, 0, Validator.DateAt);
  }

  /** Before the date line no line starts with `D`; the date line itself holds `""`, which the
      lazy group cannot match */
  lemma NoDateAt(f: string, pre: string, q: nat)
    requires f == pre + "Date: \"\"" && pre != [] && pre[0] != 'D'
    requires NoLineStarts(pre, 'D')
    requires q <= |f|
    ensures Validator.DateAt(f, q).None?
  {
    var p := |pre|;
    if q < p {
      if q > 0 {
        assert f[q - 1] == pre[q - 1] && f[q] == pre[q];
      }
      assert f[0] == pre[0];
      if q + 5 <= |f| {
        assert f[q..q + 5][0] == f[q];
      }
    } else if q == p {
      assert f[p + 5] == ' ' && f[p + 6] == '"' && f[p + 7] == '"' && |f| == p + 8;
      SkipSpaceTo(f, p + 5, p + 6);
    } else {
      assert f[q - 1] != '\n';
    }
  }
}
