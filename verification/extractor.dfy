/** `extract_metadata_from_markdown`: the title of the first `# ` heading and the values of the
    `**Author(s):**`, `**Publication:**` and `**Date:**` lines.

    Each capture is the pattern `PREFIX\s*(.+?)(?:\s*$|\s*\n)` under `re.MULTILINE` (with `^#\s+`
    for the title). Its backtracking is worked out by hand in `CaptureAt`. */
module Extractor {
  import opened Options
  import opened Chars
  import opened Scan
  import DateNormalizer

  /** The record the extraction produces */
  datatype MarkdownMetadata = MarkdownMetadata(
    title: string,
    authors: seq<string>,
    book: string,
    publicationDate: string)

  const AuthorsLabel: string := "**Author(s):**"
  const PublicationLabel: string := "**Publication:**"
  const DateLabel: string := "**Date:**"

  // ---------------------------------------------------------------------------------------
  // One capture

  /** The tail `(?:\s*$|\s*\n)` matches at `x`: the whitespace after `x` reaches the end of the
      text or contains a line break */
  predicate TailOK(s: string, x: nat)
    requires x <= |s|
  {
    var e := SkipSpace(s, x);
    e == |s| || '\n' in s[x..e]
  }

  /** The first `x` from `from` on where the tail matches: where the lazy `(.+?)` stops */
  function LazyEnd(s: string, from: nat): (x: nat)
    requires from <= |s|
    ensures from <= x <= |s| && TailOK(s, x)
    ensures forall z | from <= z < x :: !TailOK(s, z)
    decreases |s| - from
  {
    if TailOK(s, from) then from else LazyEnd(s, from + 1)
  }

  /** The last position in `lo..hi` holding a character `.` matches (anything but a line break):
      where the group starts once the greedy whitespace before it has given back enough */
  function LastDotChar(s: string, lo: nat, hi: nat): (r: Option<nat>)
    ensures r.Some? ==> lo <= r.value <= hi && r.value < |s| && s[r.value] != '\n'
    ensures r.Some? ==> forall w | r.value < w <= hi && w < |s| :: s[w] == '\n'
    ensures r.None? ==> forall w | lo <= w <= hi && w < |s| :: s[w] == '\n'
    decreases hi
  {
    if hi < lo then None
    else if hi < |s| && s[hi] != '\n' then Some(hi)
    else if hi == lo then None
    else LastDotChar(s, lo, hi - 1)
  }

  /** `\s{min,}(.+?)(?:\s*$|\s*\n)` at `k`, yielding the group (still to be stripped) */
  function CaptureAt(s: string, k: nat, min: nat): (r: Option<string>)
    ensures r.Some? ==> r.value != [] && '\n' !in r.value
  {
    if k > |s| then None
    else
      match LastDotChar(s, k + min, SkipSpace(s, k))
      case None => None
      case Some(g) =>
        var x := LazyEnd(s, g + 1);
        GroupHasNoNewline(s, g, x);
        Some(s[g..x])
  }

  /** The lazy group stops at the first line break at the latest */
  lemma GroupHasNoNewline(s: string, g: nat, x: nat)
    requires g < |s| && s[g] != '\n' && g + 1 <= x <= |s|
    requires forall z | g + 1 <= z < x :: !TailOK(s, z)
    ensures '\n' !in s[g..x]
  {
    NewlineTails(s);
  }

  /** The tail matches right before every line break */
  lemma NewlineTails(s: string)
    ensures forall z | 0 <= z < |s| && s[z] == '\n' :: TailOK(s, z)
  {
    forall z | 0 <= z < |s| && s[z] == '\n'
      ensures TailOK(s, z)
    {
      assert s[z..SkipSpace(s, z)][0] == '\n';
    }
  }

  /** `^#\s+(.+?)(?:\s*$|\s*\n)` at `i` */
  function TitleAt(s: string, i: nat): Option<string> {
    if i < |s| && s[i] == '#' && AtLineStart(s, i) then CaptureAt(s, i + 1, 1) else None
  }

  /** `LABEL\s*(.+?)(?:\s*$|\s*\n)` at `i` */
  function LabelAt(s: string, i: nat, lit: string): Option<string> {
    if MatchesAt(s, i, lit) then CaptureAt(s, i + |lit|, 0) else None
  }

  function AuthorsAt(s: string, i: nat): Option<string> {
    LabelAt(s, i, AuthorsLabel)
  }

  function PublicationAt(s: string, i: nat): Option<string> {
    LabelAt(s, i, PublicationLabel)
  }

  function DateAt(s: string, i: nat): Option<string> {
    LabelAt(s, i, DateLabel)
  }

  /** `m.group(1).strip() if m else ""` */
  function Field(s: string, m: Matcher<string>): string {
    match Search(s, 0, m)
    case None => ""
    case Some(g) => Strip(g)
  }

  // ---------------------------------------------------------------------------------------
  // Splitting the author line

  predicate IsSeparatorChar(c: char) {
    c == ',' || c == ';' || c == '&'
  }

  /** `[,;&]|\s+and\s+` at `p`, yielding where the separator ends */
  function SeparatorAt(s: string, p: nat): (r: Option<nat>)
    ensures r.Some? ==> p < r.value <= |s|
  {
    if p < |s| && IsSeparatorChar(s[p]) then Some(p + 1)
    else if p < |s| && IsSpace(s[p]) then
      var e := SkipSpace(s, p);
      if MatchesAt(s, e, "and") && e + 3 < |s| && IsSpace(s[e + 3]) then Some(SkipSpace(s, e + 3))
      else None
    else None
  }

  /** `re.split` from `p` on, the current piece having started at `start` */
  function SplitFrom(s: string, start: nat, p: nat): (r: seq<string>)
    requires start <= p <= |s|
    ensures |r| >= 1
    decreases |s| - p
  {
    if p == |s| then [s[start..]]
    else
      match SeparatorAt(s, p)
      case Some(e) => [s[start..p]] + SplitFrom(s, e, e)
      case None => SplitFrom(s, start, p + 1)
  }

  /** `re.split(r'[,;&]|\s+and\s+', s)` */
  function SplitPieces(s: string): seq<string> {
    SplitFrom(s, 0, 0)
  }

  /** `[a.strip() for a in pieces if a.strip()]` */
  function KeepNames(pieces: seq<string>): (r: seq<string>)
    ensures |r| <= |pieces|
  {
    if pieces == [] then []
    else if Strip(pieces[0]) != "" then [Strip(pieces[0])] + KeepNames(pieces[1..])
    else KeepNames(pieces[1..])
  }

  function SplitAuthors(line: string): seq<string> {
    KeepNames(SplitPieces(line))
  }

  // ---------------------------------------------------------------------------------------
  // The extraction

  /** `extract_metadata_from_markdown` */
  function Extract(content: string): MarkdownMetadata {
    MarkdownMetadata(
      Field(content, TitleAt),
      SplitAuthors(Field(content, AuthorsAt)),
      Field(content, PublicationAt),
      DateNormalizer.NormalizeDate(Field(content, DateAt)))
  }
}
