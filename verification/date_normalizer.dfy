/** `normalize_date`: clean the text, then try a prioritised list of rules; the first rule
    that produces a value wins and the cleaned text is the fallback.

    Every regular expression of `normalize_date` is hand-coded as a matcher at one start position
    (its backtracking worked out by hand) and driven by `Scan.Search`, which keeps Python's
    leftmost-match behaviour: a rule looks at the first match only and never retries a later one. */
module DateNormalizer {
  import opened Options
  import opened Chars
  import opened Scan
  import Ascii

  // ---------------------------------------------------------------------------------------
  // Tables

  /** The values that mean "no date" (compared after lower-casing) */
  const NonDateMarkers: seq<string> := ["not specified", "unknown", "n/a", "none", "tbd", "undated"]

  /** Month names and abbreviations, lower-case, to the full month name */
  const MonthTable: map<string, string> := map[
    "jan" := "January", "january" := "January",
    "feb" := "February", "february" := "February",
    "mar" := "March", "march" := "March",
    "apr" := "April", "april" := "April",
    "may" := "May",
    "jun" := "June", "june" := "June",
    "jul" := "July", "july" := "July",
    "aug" := "August", "august" := "August",
    "sep" := "September", "sept" := "September", "september" := "September",
    "oct" := "October", "october" := "October",
    "nov" := "November", "november" := "November",
    "dec" := "December", "december" := "December"]

  /** Season and quarter keywords in the order they are checked, with their canonical names */
  const SeasonTable: seq<(string, string)> := [
    ("spring", "Spring"), ("summer", "Summer"), ("fall", "Fall"), ("autumn", "Fall"),
    ("winter", "Winter"), ("q1", "Q1"), ("q2", "Q2"), ("q3", "Q3"), ("q4", "Q4")]

  /** `calendar.month_name`: index 0 is the empty string */
  const MonthNames: seq<string> := ["", "January", "February", "March", "April", "May", "June",
    "July", "August", "September", "October", "November", "December"]

  predicate IsMonthName(m: string) {
    m in MonthNames && m != ""
  }

  predicate IsSeasonName(n: string) {
    n in ["Spring", "Summer", "Fall", "Winter", "Q1", "Q2", "Q3", "Q4"]
  }

  /** `(19|20)\d{2}` as a whole string */
  predicate IsYearText(y: string) {
    |y| == 4 && (y[..2] == "19" || y[..2] == "20") && IsDigit(y[2]) && IsDigit(y[3])
  }

  // ---------------------------------------------------------------------------------------
  // Cleaning

  /** `re.sub(r'\s+', ' ', s)`: every maximal whitespace run becomes a single space */
  function CollapseSpaces(s: string): string
    decreases |s|
  {
    if s == [] then []
    else if IsSpace(s[0]) then " " + CollapseSpaces(s[SkipSpace(s, 0)..])
    else [s[0]] + CollapseSpaces(s[1..])
  }

  /** The text every rule works on: ASCII-cleaned, stripped, whitespace runs collapsed */
  function Cleaned(s: string): string {
    CollapseSpaces(Strip(Ascii.CleanToAscii(s)))
  }

  predicate IsNonDateMarker(c: string) {
    Lower(c) in NonDateMarkers
  }

  // ---------------------------------------------------------------------------------------
  // Matchers, one per pattern

  /** `\b(19|20)\d{2}\b` at `i` */
  function YearAt(s: string, i: nat): (r: Option<string>)
    ensures r.Some? ==> IsYearText(r.value) && i + 4 <= |s| && r.value == s[i..i + 4]
  {
    if i + 4 <= |s| && IsYearText(s[i..i + 4])
       && (i == 0 || !IsWordChar(s[i - 1])) && (i + 4 == |s| || !IsWordChar(s[i + 4]))
    then Some(s[i..i + 4])
    else None
  }

  function FindYear(c: string): Option<string> {
    Search(c, 0, YearAt)
  }

  /** `([A-Za-z]+)\s*[-/]\s*([A-Za-z]+)\s*(\d{4})?` at `i`, yielding both letter groups.
      Each letter group is the maximal run: giving back a letter can never let what follows match. */
  function RangeAt(s: string, i: nat): Option<(string, string)> {
    if i < |s| && IsLetter(s[i]) then
      var j := SkipLetters(s, i);
      var k := SkipSpace(s, j);
      if k < |s| && (s[k] == '-' || s[k] == '/') then
        var l := SkipSpace(s, k + 1);
        if l < |s| && IsLetter(s[l]) then Some((s[i..j], s[l..SkipLetters(s, l)])) else None
      else None
    else None
  }

  /** `,?\s*(\d{4})` at `p`, yielding the four digits */
  function CommaYearAt(s: string, p: nat): Option<string> {
    if p > |s| then None
    else
      var q := if p < |s| && s[p] == ',' then p + 1 else p;
      var l := SkipSpace(s, q);
      if DigitsAt(s, l, 4) then Some(s[l..l + 4]) else None
  }

  /** `([A-Za-z]+)\s*,?\s*(\d{4})` at `i`, yielding the letter group */
  function MonthYearAt(s: string, i: nat): Option<string> {
    if i < |s| && IsLetter(s[i]) then
      var j := SkipLetters(s, i);
      if CommaYearAt(s, SkipSpace(s, j)).Some? then Some(s[i..j]) else None
    else None
  }

  /** `([A-Za-z]+)\s+(\d{1,2}),?\s*(\d{4})` at `i`, yielding its three groups.
      The day takes two digits when the rest then matches, otherwise one. */
  function MonthDayYearAt(s: string, i: nat): Option<seq<string>> {
    if i < |s| && IsLetter(s[i]) then
      var j := SkipLetters(s, i);
      if j < |s| && IsSpace(s[j]) then
        var k := SkipSpace(s, j);
        if DigitsAt(s, k, 2) && CommaYearAt(s, k + 2).Some? then
          Some([s[i..j], s[k..k + 2], CommaYearAt(s, k + 2).value])
        else if DigitsAt(s, k, 1) && CommaYearAt(s, k + 1).Some? then
          Some([s[i..j], s[k..k + 1], CommaYearAt(s, k + 1).value])
        else None
      else None
    else None
  }

  /** `(\d{1,2})\s+([A-Za-z]+)\s*,?\s*(\d{4})` at `i`, yielding its three groups.
      A two-digit day cannot give back a digit, since `\s+` must follow it. */
  function DayMonthYearAt(s: string, i: nat): Option<seq<string>> {
    if DigitsAt(s, i, 1) then
      var p := if DigitsAt(s, i, 2) then i + 2 else i + 1;
      if p < |s| && IsSpace(s[p]) then
        var a := SkipSpace(s, p);
        if a < |s| && IsLetter(s[a]) then
          var b := SkipLetters(s, a);
          var t := CommaYearAt(s, SkipSpace(s, b));
          if t.Some? then Some([s[i..p], s[a..b], t.value]) else None
        else None
      else None
    else None
  }

  /** `(\d{1,2})[/-](\d{4})` at `i`, yielding the month digits */
  function MonthSlashYearAt(s: string, i: nat): Option<string> {
    if DigitsAt(s, i, 1) then
      var p := if DigitsAt(s, i, 2) then i + 2 else i + 1;
      if p < |s| && (s[p] == '/' || s[p] == '-') && DigitsAt(s, p + 1, 4) then Some(s[i..p]) else None
    else None
  }

  /** `(\d{4})[/-](\d{1,2})` at `i`, yielding the month digits */
  function YearSlashMonthAt(s: string, i: nat): Option<string> {
    if DigitsAt(s, i, 4) && i + 4 < |s| && (s[i + 4] == '/' || s[i + 4] == '-') && DigitsAt(s, i + 5, 1) then
      var e := if DigitsAt(s, i + 5, 2) then i + 7 else i + 6;
      Some(s[i + 5..e])
    else None
  }

  /** `int()` of a string of ASCII digits */
  function DigitValue(s: string): nat {
    if s == [] then 0 else DigitValue(s[..|s| - 1]) * 10 + (if IsDigit(s[|s| - 1]) then s[|s| - 1] as int - '0' as int else 0)
  }

  /** The first of `groups` that names a month, as its full name */
  function FirstMonthIn(groups: seq<string>): (r: Option<string>)
    ensures r.Some? ==> IsMonthName(r.value)
  {
    if groups == [] then None
    else if Lower(groups[0]) in MonthTable then Some(MonthTable[Lower(groups[0])])
    else FirstMonthIn(groups[1..])
  }

  /** The first season keyword of `table` that occurs in `low`, as "<Season> <year>" */
  function FirstSeason(table: seq<(string, string)>, low: string, y: string): Option<string> {
    if table == [] then None
    else if Contains(low, table[0].0) then Some(table[0].1 + " " + y)
    else FirstSeason(table[1..], low, y)
  }

  // ---------------------------------------------------------------------------------------
  // The rules, given the cleaned text and its first year

  type Rule = (string, string) -> Option<string>

  /** Month range: both words of the first `word-word` match must be months */
  function RangeRule(c: string, y: string): Option<string> {
    var m: Option<(string, string)> := Search(c, 0, RangeAt);
    if m.Some? && Lower(m.value.0) in MonthTable && Lower(m.value.1) in MonthTable
    then Some(MonthTable[Lower(m.value.0)] + "-" + MonthTable[Lower(m.value.1)] + " " + y)
    else None
  }

  /** Season or quarter: a plain substring test on the whole lower-cased text */
  function SeasonRule(c: string, y: string): Option<string> {
    FirstSeason(SeasonTable, Lower(c), y)
  }

  /** Month and year: the word of the first `word[,] dddd` match must be a month */
  function MonthYearRule(c: string, y: string): Option<string> {
    match Search(c, 0, MonthYearAt)
    case None => None
    case Some(w) => if Lower(w) in MonthTable then Some(MonthTable[Lower(w)] + " " + y) else None
  }

  /** Full date: "Month Day, Year" first, then "Day Month Year"; the day is dropped */
  function FullDateRule(c: string, y: string): Option<string> {
    var first := Search(c, 0, MonthDayYearAt);
    if first.Some? && FirstMonthIn(first.value).Some? then Some(FirstMonthIn(first.value).value + " " + y)
    else
      var second := Search(c, 0, DayMonthYearAt);
      if second.Some? && FirstMonthIn(second.value).Some? then Some(FirstMonthIn(second.value).value + " " + y)
      else None
  }

  /** Numeric month: `MM/YYYY` first, then `YYYY/MM`; a month outside 1..12 moves on */
  function NumericRule(c: string, y: string): Option<string> {
    var first := Search(c, 0, MonthSlashYearAt);
    if first.Some? && 1 <= DigitValue(first.value) <= 12 then Some(MonthNames[DigitValue(first.value)] + " " + y)
    else
      var second := Search(c, 0, YearSlashMonthAt);
      if second.Some? && 1 <= DigitValue(second.value) <= 12 then Some(MonthNames[DigitValue(second.value)] + " " + y)
      else None
  }

  /** Bare year: `re.fullmatch(r'\s*(19|20)\d{2}\s*', c)` */
  function BareYearRule(c: string, y: string): Option<string> {
    var a := SkipSpace(c, 0);
    if a + 4 <= |c| && IsYearText(c[a..a + 4]) && SkipSpace(c, a + 4) == |c| then Some(y) else None
  }

  /** The rules in the order `normalize_date` tries them */
  const Rules: seq<Rule> := [RangeRule, SeasonRule, MonthYearRule, FullDateRule, NumericRule, BareYearRule]

  /** The value of the first rule that produces one */
  function FirstHit(rules: seq<Rule>, c: string, y: string): (r: Option<string>)
    ensures r.Some? ==> exists k | 0 <= k < |rules| :: rules[k](c, y) == r && forall j | 0 <= j < k :: rules[j](c, y).None?
    ensures r.None? <==> forall k | 0 <= k < |rules| :: rules[k](c, y).None?
  {
    if rules == [] then None
    else if rules[0](c, y).Some? then rules[0](c, y)
    else
      var rest := FirstHit(rules[1..], c, y);
      assert forall k | 1 <= k < |rules| :: rules[k] == rules[1..][k - 1];
      rest
  }

  /** `normalize_date` */
  function NormalizeDate(s: string): (r: string)
    ensures s == "" ==> r == ""
    ensures s != "" && (IsNonDateMarker(Cleaned(s)) || FindYear(Cleaned(s)).None?) ==> r == Cleaned(s)
  {
    if s == "" then ""
    else
      var c := Cleaned(s);
      if IsNonDateMarker(c) || c == "" then c
      else
        match FindYear(c)
        case None => c
        case Some(y) => FirstHit(Rules, c, y).GetOr(c)
  }
}
