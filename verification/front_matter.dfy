/** The YAML front matter block at the start of a note, and `add_title_to_frontmatter`, which
    writes the extracted metadata into it. */
module FrontMatter {
  import opened Options
  import opened Chars
  import opened Scan
  import opened Extractor

  const Opening: string := "---\n"
  const Closing: string := "\n---"

  /** `^---\n(.*?)\n---` (DOTALL) matched at the start: the block's text and where the match ends */
  datatype Block = Block(yaml: string, end: nat)

  function CloserAt(s: string, i: nat): Option<nat> {
    if MatchesAt(s, i, Closing) then Some(i) else None
  }

  /** The lazy `(.*?)` stops at the first `\n---` that starts after the opening line */
  lemma CloserFound(s: string, j: nat)
    requires Search(s, 4, CloserAt) == Some(j)
    ensures 4 <= j && MatchesAt(s, j, Closing)
    ensures forall q | 4 <= q < j :: !MatchesAt(s, q, Closing)
  {
    var p :| 4 <= p <= |s| && CloserAt(s, p) == Some(j) && forall q | 4 <= q < p :: CloserAt(s, q).None?;
    assert p == j;
    forall q | 4 <= q < j
      ensures !MatchesAt(s, q, Closing)
    {
      assert CloserAt(s, q).None?;
    }
  }

  lemma NoCloser(s: string)
    requires Search(s, 4, CloserAt).None?
    ensures forall j | 4 <= j :: !MatchesAt(s, j, Closing)
  {
    forall j | 4 <= j
      ensures !MatchesAt(s, j, Closing)
    {
      if j <= |s| {
        assert CloserAt(s, j).None?;
      }
    }
  }

  function ParseFrontMatter(content: string): (r: Option<Block>)
    ensures r.Some? <==> MatchesAt(content, 0, Opening) && exists j | 4 <= j :: MatchesAt(content, j, Closing)
    ensures r.Some? ==>
      var j := 4 + |r.value.yaml|;
      && r.value.end == j + 4
      && MatchesAt(content, j, Closing)
      && content[4..j] == r.value.yaml
      && forall q | 4 <= q < j :: !MatchesAt(content, q, Closing)
  {
    if !MatchesAt(content, 0, Opening) then None
    else
      match Search(content, 4, CloserAt)
      case None =>
        NoCloser(content);
        None
      case Some(j) =>
        CloserFound(content, j);
        Some(Block(content[4..j], j + 4))
  }

  // ---------------------------------------------------------------------------------------
  // The new fields

  /** `  - "[[author]]"`: an author as an indented YAML list item holding a wiki-link */
  function AuthorLine(author: string): string {
    "  - \"[[" + author + "]]\""
  }

  /** The author lines joined by line breaks */
  function AuthorsYaml(authors: seq<string>): string {
    if authors == [] then ""
    else if |authors| == 1 then AuthorLine(authors[0])
    else AuthorLine(authors[0]) + "\n" + AuthorsYaml(authors[1..])
  }

  function BookLine(book: string): string {
    "Book: \"[[" + book + "]]\""
  }

  /** Everything before the date line, which the fields end with */
  function FieldsBeforeDate(md: MarkdownMetadata): string {
    "Title: \"" + md.title + "\"\nAuthors:\n" + AuthorsYaml(md.authors) + "\n" + BookLine(md.book) + "\n"
  }

  function NewFields(md: MarkdownMetadata): string {
    FieldsBeforeDate(md) + "Date: \"" + md.publicationDate + "\""
  }

  function Inject(content: string, md: MarkdownMetadata): string {
    match ParseFrontMatter(content)
    case Some(b) => Opening + NewFields(md) + "\n" + Strip(b.yaml) + Closing + content[b.end..]
    case None => Opening + NewFields(md) + Closing + "\n" + content
  }
}
