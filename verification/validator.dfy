/** `validate_frontmatter`: re-reads the front matter block and checks each field the injection
    writes, collecting error and warning messages. */
module Validator {
  import opened Options
  import opened Chars
  import opened Scan
  import opened Extractor
  import opened FrontMatter

  datatype ValidationResult = ValidationResult(isValid: bool, errors: seq<string>, warnings: seq<string>)

  const NoDelimiters: string := "Front matter delimiters (---) not found at start of file"
  const NoTitle: string := "Title field not found in front matter"
  const NoAuthors: string := "Authors field not found in front matter"
  const NoBook: string := "Book field not found in front matter"
  const NoDate: string := "Date field not found in front matter"
  const EmptyTitle: string := "Title is empty - could not extract from markdown"
  const EmptyAuthors: string := "No authors found - could not extract from markdown"
  const EmptyBook: string := "Book/Publication is empty - could not extract from markdown"
  const EmptyDate: string := "Date is empty - could not extract from markdown"

  // ---------------------------------------------------------------------------------------
  // Quoted fields: `^KEY:\s*"(.+?)"` (MULTILINE)

  /** The lazy `(.+?)"`: `f[g..x]` is a group `.+?` can hold (one line, no `"` after its first
      character); the group grows until a `"` follows it, and fails at the line end */
  function QuoteFrom(f: string, g: nat, x: nat): (r: Option<string>)
    requires g < x <= |f|
    requires forall k | g <= k < x :: f[k] != '\n'
    requires forall k | g < k < x :: f[k] != '"'
    ensures r.Some? ==>
      var n := g + |r.value|;
      && x <= n < |f| && f[n] == '"' && f[g..n] == r.value
      && '\n' !in r.value && r.value != []
    ensures r.None? ==> exists n | x <= n <= |f| :: LineEndsFirst(f, x, n)
    decreases |f| - x
  {
    if x < |f| && f[x] == '"' then
      GroupOneLine(f, g, x);
      Some(f[g..x])
    else if x < |f| && f[x] != '\n' then
      var r := QuoteFrom(f, g, x + 1);
      if r.None? then LineEndsBack(f, x, x + 1); r else r
    else
      LineEndsAt(f, x);
      None
  }

  /** The line ends at `n` and no `"` comes before it from `x` on */
  predicate LineEndsFirst(f: string, x: nat, n: nat)
    requires x <= n <= |f|
  {
    (n == |f| || f[n] == '\n') && forall k | x <= k < n :: f[k] != '"'
  }

  lemma LineEndsAt(f: string, x: nat)
    requires x <= |f| && (x == |f| || f[x] == '\n')
    ensures exists n | x <= n <= |f| :: LineEndsFirst(f, x, n)
  {
    assert LineEndsFirst(f, x, x);
  }

  lemma LineEndsBack(f: string, x: nat, y: nat)
    requires x < |f| && f[x] != '"' && y == x + 1
    requires exists n | y <= n <= |f| :: LineEndsFirst(f, y, n)
    ensures exists n | x <= n <= |f| :: LineEndsFirst(f, x, n)
  {
    var n :| y <= n <= |f| && LineEndsFirst(f, y, n);
    assert LineEndsFirst(f, x, n);
  }

  lemma GroupOneLine(f: string, g: nat, x: nat)
    requires g < x <= |f|
    requires forall k | g <= k < x :: f[k] != '\n'
    ensures '\n' !in f[g..x]
  {
    forall t | 0 <= t < x - g
      ensures f[g..x][t] != '\n'
    {
      assert f[g..x][t] == f[g + t];
    }
  }

  /** The whitespace after the key cannot give back a `"`, so the opening quote must follow it */
  function QuotedAt(f: string, i: nat, key: string): Option<string> {
    if AtLineStart(f, i) && MatchesAt(f, i, key) then
      var e := SkipSpace(f, i + |key|);
      if e + 1 < |f| && f[e] == '"' && f[e + 1] != '\n' then QuoteFrom(f, e + 1, e + 2) else None
    else None
  }

  function TitleAt(f: string, i: nat): Option<string> {
    QuotedAt(f, i, "Title:")
  }

  function DateAt(f: string, i: nat): Option<string> {
    QuotedAt(f, i, "Date:")
  }

  /** `^Book:\s*(.+?)$` (MULTILINE): some character other than a line break can start the group
      once the whitespace has given back what it must; the lazy group then runs to the line end */
  function BookAt(f: string, i: nat): Option<nat> {
    if AtLineStart(f, i) && MatchesAt(f, i, "Book:") then
      LastDotChar(f, i + 5, SkipSpace(f, i + 5))
    else None
  }

  // ---------------------------------------------------------------------------------------
  // Checks

  function TitleErrors(f: string, title: string): seq<string> {
    match Search(f, 0, TitleAt)
    case None => [NoTitle]
    case Some(g) =>
      if g != title then ["Title mismatch: expected '" + title + "', found '" + g + "'"] else []
  }

  function ExpectedAuthor(author: string): string {
    "\"[[" + author + "]]\""
  }

  function MissingAuthors(f: string, authors: seq<string>): (r: seq<string>)
    ensures |r| <= |authors|
  {
    if authors == [] then []
    else
      var rest := MissingAuthors(f, authors[1..]);
      if Contains(f, ExpectedAuthor(authors[0])) then rest
      else ["Author '" + authors[0] + "' not found in expected format " + ExpectedAuthor(authors[0])] + rest
  }

  function AuthorErrors(f: string, authors: seq<string>): seq<string> {
    if !Contains(f, "Authors:") then [NoAuthors] else MissingAuthors(f, authors)
  }

  function BookErrors(f: string, book: string): seq<string> {
    if Contains(f, BookLine(book)) then []
    else if Search(f, 0, BookAt).None? then [NoBook]
    else ["Book field format incorrect: expected '" + BookLine(book) + "'"]
  }

  function DateErrors(f: string): seq<string> {
    if Search(f, 0, DateAt).None? then [NoDate] else []
  }

  function DateWarnings(f: string, date: string): seq<string> {
    match Search(f, 0, DateAt)
    case Some(g) =>
      if g != date then ["Date value: '" + g + "' (normalized from original)"] else []
    case None => []
  }

  function EmptyWarnings(md: MarkdownMetadata): seq<string> {
    (if md.title == "" then [EmptyTitle] else [])
    + (if md.authors == [] then [EmptyAuthors] else [])
    + (if md.book == "" then [EmptyBook] else [])
    + (if md.publicationDate == "" then [EmptyDate] else [])
  }

  function Validate(content: string, md: MarkdownMetadata): (r: ValidationResult)
    ensures r.isValid <==> r.errors == []
    ensures ParseFrontMatter(content).None? ==> r.errors == [NoDelimiters] && r.warnings == []
  {
    match ParseFrontMatter(content)
    case None => ValidationResult(false, [NoDelimiters], [])
    case Some(b) =>
      var f := b.yaml;
      var errors := TitleErrors(f, md.title) + AuthorErrors(f, md.authors) + BookErrors(f, md.book) + DateErrors(f);
      var warnings := DateWarnings(f, md.publicationDate) + EmptyWarnings(md);
      ValidationResult(errors == [], errors, warnings)
  }
}
