/** A metadata document in the layout `extract_metadata_from_markdown` reads (a `#` heading, a
    blank line, then one labelled line each for the authors, the publication and the date)
    extracts back to the metadata it was rendered from. */
module DocumentRoundTrip {
  import opened Options
  import opened Chars
  import opened Scan
  import opened DateNormalizer
  import opened Extractor
  import opened Authors

  /** A value that survives a labelled line: one stripped, non-empty line without `*` */
  predicate IsFieldValue(v: string) {
    v != [] && Trimmed(v) && '\n' !in v && '*' !in v
  }

  predicate IsDocumentAuthor(a: string) {
    IsAuthorName(a) && '\n' !in a && '*' !in a
  }

  function Heading(title: string): string {
    "# " + title + "\n\n"
  }

  function LabelLine(lit: string, value: string): string {
    lit + " " + value + "\n"
  }

  function RenderDocument(md: MarkdownMetadata): string {
    Heading(md.title)
      + LabelLine(AuthorsLabel, JoinAuthors(md.authors))
      + LabelLine(PublicationLabel, md.book)
      + LabelLine(DateLabel, md.publicationDate)
  }

  // ---------------------------------------------------------------------------------------
  // One capture

  /** The lazy group ends right after a stripped single-line value followed by a line break or
      the end of the text */
  lemma LazyEndValue(s: string, p: nat, v: string)
    requires p + |v| <= |s| && s[p..p + |v|] == v
    requires v != [] && Trimmed(v) && '\n' !in v
    requires p + |v| == |s| || s[p + |v|] == '\n'
    ensures LazyEnd(s, p + 1) == p + |v|
  {
    NewlineTails(s);
    forall z | p + 1 <= z < p + |v|
      ensures !TailOK(s, z)
    {
      NoTailInside(s, p, v, z);
    }
  }

  lemma NoTailInside(s: string, p: nat, v: string, z: nat)
    requires p + |v| <= |s| && s[p..p + |v|] == v
    requires v != [] && Trimmed(v) && '\n' !in v
    requires p <= z < p + |v|
    ensures !TailOK(s, z)
  {
    var e := SkipSpace(s, z);
    assert s[p + |v| - 1] == v[|v| - 1];
    assert e < p + |v|;
    forall t | 0 <= t < e - z
      ensures s[z..e][t] != '\n'
    {
      assert s[z..e][t] == s[z + t] == v[z + t - p];
    }
  }

  /** Whitespace, then a stripped single-line value ending the line: the group is the value */
  lemma CaptureValue(s: string, k: nat, min: nat, p: nat, v: string)
    requires k + min <= p && p + |v| <= |s|
    requires forall w | k <= w < p :: IsSpace(s[w])
    requires s[p..p + |v|] == v
    requires v != [] && Trimmed(v) && '\n' !in v
    requires p + |v| == |s| || s[p + |v|] == '\n'
    ensures CaptureAt(s, k, min) == Some(v)
  {
    assert s[p] == v[0];
    SkipSpaceTo(s, k, p);
    assert LastDotChar(s, k + min, p) == Some(p);
    LazyEndValue(s, p, v);
  }

  // ---------------------------------------------------------------------------------------
  // One line

  lemma HeadingField(s: string, title: string, post: string)
    requires s == Heading(title) + post
    requires IsFieldValue(title)
    ensures Field(s, TitleAt) == title
  {
    assert s[2..2 + |title|] == title;
    assert s[2 + |title|] == '\n';
    CaptureValue(s, 1, 1, 2, title);
    SearchFinds(s, 0, TitleAt, 0);
    StripSpec(title);
  }

  /** Where the pieces of a labelled line sit in the text */
  lemma LabelLineAt(s: string, pre: string, lit: string, value: string, post: string)
    requires s == pre + LabelLine(lit, value) + post
    ensures |pre| + |lit| + 1 + |value| < |s|
    ensures MatchesAt(s, |pre|, lit)
    ensures s[|pre| + |lit|] == ' '
    ensures s[|pre| + |lit| + 1..|pre| + |lit| + 1 + |value|] == value
    ensures s[|pre| + |lit| + 1 + |value|] == '\n'
  {
    var line := LabelLine(lit, value);
    assert s[|pre|..|pre| + |line|] == line;
    assert line[..|lit|] == lit;
    assert line[|lit| + 1..|lit| + 1 + |value|] == value;
    assert s[|pre|..|pre| + |lit|] == line[..|lit|];
    assert s[|pre| + |lit| + 1..|pre| + |lit| + 1 + |value|] == line[|lit| + 1..|lit| + 1 + |value|];
  }

  lemma LabelField(s: string, pre: string, lit: string, value: string, post: string, m: Matcher<string>)
    requires s == pre + LabelLine(lit, value) + post
    requires IsFieldValue(value)
    requires forall i | 0 <= i <= |s| :: m(s, i) == LabelAt(s, i, lit)
    requires forall r | 0 <= r < |pre| :: !MatchesAt(s, r, lit)
    ensures Field(s, m) == value
  {
    LabelLineAt(s, pre, lit, value, post);
    LabelFound(s, |pre|, lit, value);
    SearchFinds(s, 0, m, |pre|);
    StripSpec(value);
  }

  lemma LabelFound(s: string, q: nat, lit: string, value: string)
    requires q + |lit| + 1 + |value| < |s|
    requires MatchesAt(s, q, lit) && s[q + |lit|] == ' '
    requires s[q + |lit| + 1..q + |lit| + 1 + |value|] == value
    requires s[q + |lit| + 1 + |value|] == '\n'
    requires IsFieldValue(value)
    ensures LabelAt(s, q, lit) == Some(value)
  {
    CaptureValue(s, q + |lit|, 0, q + |lit| + 1, value);
  }

  // ---------------------------------------------------------------------------------------
  // No earlier label

  /** A label starts with `*`, so it starts at no position holding another character */
  lemma StarFree(s: string, hi: nat, lit: string)
    requires hi <= |s| && lit != [] && lit[0] == '*'
    requires forall r | 0 <= r < hi :: s[r] != '*'
    ensures forall r | 0 <= r < hi :: !MatchesAt(s, r, lit)
  {
    forall r | 0 <= r < hi
      ensures !MatchesAt(s, r, lit)
    {
      if r + |lit| <= |s| {
        assert s[r..r + |lit|][0] == s[r];
      }
    }
  }

  /** A label holds no line break, so it starts inside a line only if the line contains it */
  lemma LineFree(s: string, a: nat, x: string, lit: string)
    requires a + |x| < |s| && s[a..a + |x|] == x && s[a + |x|] == '\n'
    requires lit != [] && '\n' !in lit && !Contains(x, lit)
    ensures forall r | a <= r <= a + |x| :: !MatchesAt(s, r, lit)
  {
    forall r | a <= r <= a + |x|
      ensures !MatchesAt(s, r, lit)
    {
      if r + |lit| <= a + |x| {
        forall k | r <= k < r + |lit|
          ensures s[k] == x[k - a]
        {
          assert s[a..a + |x|][k - a] == s[k];
        }
        assert s[r..r + |lit|] == x[r - a..r - a + |lit|];
        assert !MatchesAt(x, r - a, lit);
      } else if r + |lit| <= |s| {
        assert s[r..r + |lit|][a + |x| - r] == '\n';
      }
    }
  }

  /** No `**` followed by `c` in `y` */
  predicate NoStarPair(y: string, c: char) {
    forall i | 0 <= i && i + 2 < |y| :: !(y[i] == '*' && y[i + 1] == '*' && y[i + 2] == c)
  }

  /** A labelled line holds no label whose third character never follows `**` in its own label */
  lemma LabelLineFree(lit: string, value: string, other: string)
    requires |other| >= 3 && other[0] == '*' && other[1] == '*'
    requires lit != [] && NoStarPair(lit + " ", other[2]) && '*' !in value
    ensures !Contains(lit + " " + value, other)
  {
    var y := lit + " ";
    var x := lit + " " + value;
    forall i | 0 <= i <= |x|
      ensures !MatchesAt(x, i, other)
    {
      if i + |other| <= |x| {
        var w := x[i..i + |other|];
        assert w[0] == x[i] && w[1] == x[i + 1] && w[2] == x[i + 2];
        if i + 2 < |y| {
          assert x[i] == y[i] && x[i + 1] == y[i + 1] && x[i + 2] == y[i + 2];
        } else if i + 1 == |y| {
          assert x[i + 1] == value[0];
        } else if i > |lit| {
          assert x[i] == value[i - |y|];
        }
      }
    }
  }

  lemma LabelPairs()
    ensures NoStarPair(AuthorsLabel + " ", PublicationLabel[2])
    ensures NoStarPair(AuthorsLabel + " ", DateLabel[2])
    ensures NoStarPair(PublicationLabel + " ", DateLabel[2])
  {
  }

  // ---------------------------------------------------------------------------------------
  // The whole document

  lemma HeadingStarFree(s: string, title: string, post: string)
    requires s == Heading(title) + post && '*' !in title
    ensures forall r | 0 <= r < |Heading(title)| :: s[r] != '*'
  {
    var h := Heading(title);
    forall r | 0 <= r < |h|
      ensures s[r] != '*'
    {
      assert s[r] == h[r];
      if 2 <= r < 2 + |title| {
        assert h[r] == title[r - 2];
      }
    }
  }

  lemma LineAt(s: string, pre: string, x: string, post: string)
    requires s == pre + (x + "\n") + post
    ensures |pre| + |x| < |s| && s[|pre|..|pre| + |x|] == x && s[|pre| + |x|] == '\n'
  {
    assert s[|pre|..|pre| + |x|] == (x + "\n")[..|x|];
  }

  /** The ", " join of document authors is itself a field value */
  lemma {:induction false} JoinIsFieldValue(names: seq<string>)
    requires names != [] && forall k | 0 <= k < |names| :: IsDocumentAuthor(names[k])
    ensures IsFieldValue(JoinAuthors(names))
  {
    if |names| > 1 {
      JoinIsFieldValue(names[1..]);
      var rest := JoinAuthors(names[1..]);
      var j := names[0] + ", " + rest;
      assert j[0] == names[0][0];
      assert j[|j| - 1] == rest[|rest| - 1];
    }
  }

  /** The text of a document, field by field */
  predicate Rendered(s: string, title: string, joined: string, book: string, date: string) {
    && IsFieldValue(title) && IsFieldValue(joined) && IsFieldValue(book) && IsFieldValue(date)
    && s == Heading(title) + LabelLine(AuthorsLabel, joined) + LabelLine(PublicationLabel, book)
            + LabelLine(DateLabel, date)
  }

  lemma RenderedTitle(s: string, title: string, joined: string, book: string, date: string)
    requires Rendered(s, title, joined, book, date)
    ensures Field(s, TitleAt) == title
  {
    var l1 := LabelLine(AuthorsLabel, joined);
    var l2 := LabelLine(PublicationLabel, book);
    var l3 := LabelLine(DateLabel, date);
    assert s == Heading(title) + (l1 + l2 + l3);
    HeadingField(s, title, l1 + l2 + l3);
  }

  lemma RenderedAuthors(s: string, title: string, joined: string, book: string, date: string)
    requires Rendered(s, title, joined, book, date)
    ensures Field(s, AuthorsAt) == joined
  {
    var h := Heading(title);
    var l2 := LabelLine(PublicationLabel, book);
    var l3 := LabelLine(DateLabel, date);
    assert s == h + LabelLine(AuthorsLabel, joined) + (l2 + l3);
    HeadingStarFree(s, title, LabelLine(AuthorsLabel, joined) + l2 + l3);
    StarFree(s, |h|, AuthorsLabel);
    LabelField(s, h, AuthorsLabel, joined, l2 + l3, AuthorsAt);
  }

  lemma RenderedBook(s: string, title: string, joined: string, book: string, date: string)
    requires Rendered(s, title, joined, book, date)
    ensures Field(s, PublicationAt) == book
  {
    var h := Heading(title);
    var x1 := AuthorsLabel + " " + joined;
    var l1 := LabelLine(AuthorsLabel, joined);
    var l2 := LabelLine(PublicationLabel, book);
    var l3 := LabelLine(DateLabel, date);
    assert s == h + (x1 + "\n") + (l2 + l3);
    HeadingStarFree(s, title, l1 + l2 + l3);
    StarFree(s, |h|, PublicationLabel);
    LabelPairs();
    LabelLineFree(AuthorsLabel, joined, PublicationLabel);
    LineAt(s, h, x1, l2 + l3);
    LineFree(s, |h|, x1, PublicationLabel);
    LabelField(s, h + l1, PublicationLabel, book, l3, PublicationAt);
  }

  lemma RenderedDate(s: string, title: string, joined: string, book: string, date: string)
    requires Rendered(s, title, joined, book, date)
    ensures Field(s, DateAt) == date
  {
    var h := Heading(title);
    var x1 := AuthorsLabel + " " + joined;
    var x2 := PublicationLabel + " " + book;
    var l1 := LabelLine(AuthorsLabel, joined);
    var l2 := LabelLine(PublicationLabel, book);
    var l3 := LabelLine(DateLabel, date);
    assert s == h + (x1 + "\n") + (l2 + l3);
    assert s == (h + l1) + (x2 + "\n") + l3;
    HeadingStarFree(s, title, l1 + l2 + l3);
    StarFree(s, |h|, DateLabel);
    LabelPairs();
    LabelLineFree(AuthorsLabel, joined, DateLabel);
    LineAt(s, h, x1, l2 + l3);
    LineFree(s, |h|, x1, DateLabel);
    LabelLineFree(PublicationLabel, book, DateLabel);
    LineAt(s, h + l1, x2, l3);
    LineFree(s, |h + l1|, x2, DateLabel);
    LabelField(s, h + l1 + l2, DateLabel, date, [], DateAt);
  }

  /** Extracting a rendered document gives back its title, authors and book, and the date in
      normal form */
  lemma ExtractRendered(md: MarkdownMetadata)
    requires IsFieldValue(md.title) && IsFieldValue(md.book) && IsFieldValue(md.publicationDate)
    requires md.authors != [] && forall k | 0 <= k < |md.authors| :: IsDocumentAuthor(md.authors[k])
    ensures Extract(RenderDocument(md)) == MarkdownMetadata(md.title, md.authors, md.book, NormalizeDate(md.publicationDate))
  {
    var joined := JoinAuthors(md.authors);
    JoinIsFieldValue(md.authors);
    assert SplitAuthors(joined) == md.authors by {
      AuthorsRoundTrip(md.authors);
    }
    ExtractText(RenderDocument(md), md.title, joined, md.book, md.publicationDate);
  }

  lemma ExtractText(s: string, title: string, joined: string, book: string, date: string)
    requires Rendered(s, title, joined, book, date)
    ensures Extract(s) == MarkdownMetadata(title, SplitAuthors(joined), book, NormalizeDate(date))
  {
    RenderedTitle(s, title, joined, book, date);
    RenderedAuthors(s, title, joined, book, date);
    RenderedBook(s, title, joined, book, date);
    RenderedDate(s, title, joined, book, date);
  }

  /** The whitespace after a label may cross a line break: a label with nothing after it on its
      line captures the whole next line */
  lemma EmptyLabelTakesNextLine(s: string, pre: string, lit: string, next: string, post: string, m: Matcher<string>)
    requires s == pre + lit + "\n" + next + "\n" + post
    requires next != [] && Trimmed(next) && '\n' !in next
    requires forall i | 0 <= i <= |s| :: m(s, i) == LabelAt(s, i, lit)
    requires forall r | 0 <= r < |pre| :: !MatchesAt(s, r, lit)
    ensures Field(s, m) == next
  {
    EmptyLabelAt(s, pre, lit, next, post);
    EmptyLabelFound(s, |pre|, lit, next);
    SearchFinds(s, 0, m, |pre|);
    StripSpec(next);
  }

  lemma EmptyLabelAt(s: string, pre: string, lit: string, next: string, post: string)
    requires s == pre + lit + "\n" + next + "\n" + post
    ensures |pre| + |lit| + 1 + |next| < |s|
    ensures MatchesAt(s, |pre|, lit) && s[|pre| + |lit|] == '\n'
    ensures s[|pre| + |lit| + 1..|pre| + |lit| + 1 + |next|] == next
    ensures s[|pre| + |lit| + 1 + |next|] == '\n'
  {
    var q := |pre|;
    var p := q + |lit| + 1;
    assert s[q..q + |lit|] == lit;
    assert s[p..p + |next|] == next;
  }

  lemma EmptyLabelFound(s: string, q: nat, lit: string, next: string)
    requires q + |lit| + 1 + |next| < |s|
    requires MatchesAt(s, q, lit) && s[q + |lit|] == '\n'
    requires s[q + |lit| + 1..q + |lit| + 1 + |next|] == next
    requires s[q + |lit| + 1 + |next|] == '\n'
    requires next != [] && Trimmed(next) && '\n' !in next
    ensures LabelAt(s, q, lit) == Some(next)
  {
    CaptureValue(s, q + |lit|, 0, q + |lit| + 1, next);
  }
}
