/** The documented examples of `normalize_date`, each derived from the general lemmas */
module DateExamples {
  import opened Options
  import opened Chars
  import opened Scan
  import opened DateNormalizer
  import opened DateProperties
  import opened DateFixpoints

  // ---------------------------------------------------------------------------------------
  // Canonical inputs come back unchanged

  lemma MonthExample()
    ensures NormalizeDate("May 2015") == "May 2015"
  {
    var s := "May 2015";
    var m, y := "May", "2015";
    assert IsMonthName(m) && IsYearText(y);
    assert s == m + " " + y;
    MonthFixpoint(m, y);
  }

  lemma SeasonExample()
    ensures NormalizeDate("Spring 2023") == "Spring 2023"
  {
    var s := "Spring 2023";
    var n, y := "Spring", "2023";
    assert IsSeasonName(n) && IsYearText(y);
    assert s == n + " " + y;
    SeasonFixpoint(n, y);
  }

  lemma YearExample()
    ensures NormalizeDate("2023") == "2023"
  {
    var s := "2023";
    assert IsYearText(s);
    YearFixpoint(s);
  }

  lemma RangeExample()
    ensures NormalizeDate("March-April 2023") == "March-April 2023"
  {
    var s := "March-April 2023";
    var m1, m2, y := "March", "April", "2023";
    assert IsMonthName(m1) && IsMonthName(m2) && IsYearText(y);
    assert s == m1 + "-" + m2 + " " + y;
    RangeFixpoint(m1, m2, y);
  }

  lemma MarkerCleaned(s: string)
    requires s == "not specified"
    ensures IsCleaned(s)
  {
  }

  lemma MarkerIsMarker(s: string)
    requires s == "not specified"
    ensures IsNonDateMarker(s)
  {
    assert Lower(s) == "not specified";
  }

  /** A "no date" marker is returned as cleaned */
  lemma MarkerExample()
    ensures NormalizeDate("not specified") == "not specified"
  {
    var s := "not specified";
    MarkerCleaned(s);
    CleanedFixpoint(s);
    MarkerIsMarker(s);
  }

  // ---------------------------------------------------------------------------------------
  // Abbreviated range, with a dash or a slash

  predicate RangeSeparator(d: char) {
    d == '-' || d == '/'
  }

  lemma SlashRangeText(s: string, d: char, p: string, y: string)
    requires RangeSeparator(d) && s == "Jan" + [d] + "Feb 2020" && p == "Jan" + [d] + "Feb " && y == "2020"
    ensures s == p + y && IsCleaned(s) && YearPrefix(p) && IsYearText(y)
  {
  }

  lemma SlashRangeMatch(s: string, d: char)
    requires RangeSeparator(d) && s == "Jan" + [d] + "Feb 2020"
    ensures Search(s, 0, RangeAt) == Some(("Jan", "Feb"))
  {
    SkipLettersTo(s, 0, 3);
    SkipSpaceTo(s, 3, 3);
    SkipSpaceTo(s, 4, 4);
    SkipLettersTo(s, 4, 7);
    assert s[0..3] == "Jan" && s[4..7] == "Feb";
    assert RangeAt(s, 0) == Some((s[0..3], s[4..7]));
    SearchFinds(s, 0, RangeAt, 0);
  }

  lemma AbbreviationLower(a: string, b: string)
    requires a == "Jan" && b == "Feb"
    ensures Lower(a) == "jan" && Lower(b) == "feb"
  {
  }

  lemma AbbreviationTable(a: string, b: string)
    requires a == "jan" && b == "feb"
    ensures a in MonthTable && MonthTable[a] == "January" && b in MonthTable && MonthTable[b] == "February"
  {
  }

  /** The expected answer, assembled from its parts */
  lemma SlashRangeAnswer(u: string, v: string, y: string, t: string)
    requires u == "January" && v == "February" && y == "2020" && t == "January-February 2020"
    ensures t == u + "-" + v + " " + y
  {
  }

  lemma SlashRangeRule(s: string, d: char, y: string, t: string)
    requires RangeSeparator(d) && s == "Jan" + [d] + "Feb 2020" && y == "2020" && t == "January-February 2020"
    ensures RangeRule(s, y) == Some(t)
  {
    var a, b := "Jan", "Feb";
    SlashRangeMatch(s, d);
    AbbreviationLower(a, b);
    AbbreviationTable(Lower(a), Lower(b));
    RangeRuleFrom(s, y, a, b);
    SlashRangeAnswer(MonthTable[Lower(a)], MonthTable[Lower(b)], y, t);
  }

  /** "Jan-Feb 2020" and "Jan/Feb 2020": abbreviations are expanded and the separator becomes a dash */
  lemma SlashRangeExample(d: char)
    requires RangeSeparator(d)
    ensures NormalizeDate("Jan" + [d] + "Feb 2020") == "January-February 2020"
  {
    var s, t := "Jan" + [d] + "Feb 2020", "January-February 2020";
    var p, y := "Jan" + [d] + "Feb ", "2020";
    SlashRangeText(s, d, p, y);
    Prelude(s, p, y);
    SlashRangeRule(s, d, y, t);
    Cascade(s, y);
  }


  // ---------------------------------------------------------------------------------------
  // Numeric months

  /** `int("05")` */
  lemma DigitValueFive(g: string)
    requires g == "05"
    ensures DigitValue(g) == 5
  {
    var z := g[..1];
    assert z == "0" && z[..0] == [];
    assert DigitValue(z) == DigitValue(z[..0]) * 10 + 0 == 0;
    assert g[1] == '5' && g[..|g| - 1] == z;
  }

  lemma MonthFiveAnswer(u: string, y: string, t: string)
    requires u == MonthNames[5] && y == "2015" && t == "May 2015"
    ensures t == u + " " + y
  {
  }

  lemma MonthSlashText(s: string, p: string, y: string)
    requires s == "05/2015" && p == "05/" && y == "2015"
    ensures s == p + y && IsCleaned(s) && YearPrefix(p) && IsYearText(y)
    ensures forall i | 0 <= i < |s| :: !IsLetter(s[i])
  {
  }

  lemma MonthSlashRule(s: string, y: string, t: string)
    requires s == "05/2015" && y == "2015" && t == "May 2015"
    ensures NumericRule(s, y) == Some(t)
  {
    assert DigitsAt(s, 3, 4) && s[0..2] == "05";
    assert MonthSlashYearAt(s, 0) == Some("05");
    SearchFinds(s, 0, MonthSlashYearAt, 0);
    DigitValueFive("05");
    NumericRuleFrom(s, y, "05");
    MonthFiveAnswer(MonthNames[5], y, t);
  }

  /** `MM/YYYY` names the month */
  lemma MonthSlashExample()
    ensures NormalizeDate("05/2015") == "May 2015"
  {
    MonthSlashCase("05/2015", "May 2015");
  }

  /** `MonthSlashExample` on its input held as a variable, which keeps the literal out of the proof */
  lemma MonthSlashCase(s: string, t: string)
    requires s == "05/2015" && t == "May 2015"
    ensures NormalizeDate(s) == t
  {
    var p, y := "05/", "2015";
    MonthSlashText(s, p, y);
    Prelude(s, p, y);
    NoLetterRange(s, y);
    NoLetterSeason(s, y);
    NoLetterMonths(s, y);
    MonthSlashRule(s, y, t);
    Cascade(s, y);
  }

  lemma YearDashText(s: string, y: string)
    requires s == "2015-05" && y == "2015"
    ensures IsCleaned(s) && s != [] && IsDigit(s[|s| - 1]) && FindYear(s) == Some(y)
    ensures forall i | 0 <= i < |s| :: !IsLetter(s[i])
  {
    assert s[0..4] == y;
    assert YearAt(s, 0) == Some(y);
    SearchFinds(s, 0, YearAt, 0);
  }

  lemma YearDashRule(s: string, y: string, t: string)
    requires s == "2015-05" && y == "2015" && t == "May 2015"
    ensures NumericRule(s, y) == Some(t)
  {
    forall i | 0 <= i <= |s|
      ensures MonthSlashYearAt(s, i).None?
    {
    }
    SearchFails(s, 0, MonthSlashYearAt);
    assert DigitsAt(s, 0, 4) && DigitsAt(s, 5, 2) && s[5..7] == "05";
    assert YearSlashMonthAt(s, 0) == Some("05");
    SearchFinds(s, 0, YearSlashMonthAt, 0);
    DigitValueFive("05");
    NumericRuleSecond(s, y, "05");
    MonthFiveAnswer(MonthNames[5], y, t);
  }

  /** `YYYY-MM` names the month when no `MM/YYYY` is present */
  lemma YearDashExample()
    ensures NormalizeDate("2015-05") == "May 2015"
  {
    YearDashCase("2015-05", "May 2015");
  }

  /** `YearDashExample` on its input held as a variable, which keeps the literal out of the proof */
  lemma YearDashCase(s: string, t: string)
    requires s == "2015-05" && t == "May 2015"
    ensures NormalizeDate(s) == t
  {
    var y := "2015";
    YearDashText(s, y);
    NotMarker(s);
    PreludeFound(s, y);
    NoLetterRange(s, y);
    NoLetterSeason(s, y);
    NoLetterMonths(s, y);
    YearDashRule(s, y, t);
    Cascade(s, y);
  }

  // ---------------------------------------------------------------------------------------
  // The season test looks for a substring

  lemma FalloutText(s: string, p: string, y: string)
    requires s == "Fallout 2020" && p == "Fallout " && y == "2020"
    ensures s == p + y && IsCleaned(s) && YearPrefix(p) && IsYearText(y)
    ensures '-' !in s && '/' !in s
  {
  }

  lemma FalloutSeason(s: string, y: string)
    requires s == "Fallout 2020" && y == "2020"
    ensures SeasonRule(s, y) == Some("Fall" + " " + y)
  {
    var low := Lower(s);
    assert low == "fallout 2020";
    forall j | 0 <= j < 2
      ensures !Contains(low, SeasonTable[j].0)
    {
      if j == 0 {
        NotContainsChar(low, SeasonTable[j].0, 1);
      } else {
        NotContainsChar(low, SeasonTable[j].0, 0);
      }
    }
    ContainsPrefix(low, "fall");
    FirstSeasonAt(SeasonTable, low, y, 2);
  }

  lemma FalloutAnswer(y: string, t: string)
    requires y == "2020" && t == "Fall 2020"
    ensures t == "Fall" + " " + y
  {
  }

  /** "Fallout" contains "fall", so the season rule answers */
  lemma FalloutExample()
    ensures NormalizeDate("Fallout 2020") == "Fall 2020"
  {
    FalloutCase("Fallout 2020", "Fall 2020");
  }

  /** `FalloutExample` on its input held as a variable, which keeps the literal out of the proof */
  lemma FalloutCase(s: string, t: string)
    requires s == "Fallout 2020" && t == "Fall 2020"
    ensures NormalizeDate(s) == t
  {
    var p, y := "Fallout ", "2020";
    FalloutText(s, p, y);
    Prelude(s, p, y);
    RangeNeedsSeparator(s, y);
    FalloutSeason(s, y);
    FalloutAnswer(y, t);
    Cascade(s, y);
  }

  // ---------------------------------------------------------------------------------------
  // A year with no month is returned as cleaned

  lemma CircaCleaned(s: string)
    requires s == "circa 2015 sometime"
    ensures IsCleaned(s) && '-' !in s && '/' !in s
  {
  }

  lemma CircaNotMarker(s: string)
    requires s == "circa 2015 sometime"
    ensures !IsNonDateMarker(s)
  {
    assert Lower(s) == s;
  }

  lemma CircaYear(s: string, y: string)
    requires s == "circa 2015 sometime" && y == "2015"
    ensures FindYear(s) == Some(y)
  {
    assert s[6..10] == y;
    forall q | 0 <= q < 6
      ensures YearAt(s, q).None?
    {
      if q + 4 <= |s| {
        assert s[q..q + 4][..2][0] == s[q];
      }
    }
    assert YearAt(s, 6) == Some(y);
    SearchFinds(s, 0, YearAt, 6);
  }

  lemma CircaSeason(s: string, y: string)
    requires s == "circa 2015 sometime" && y == "2015"
    ensures SeasonRule(s, y).None?
  {
    var low := Lower(s);
    assert low == s;
    forall j | 0 <= j < |SeasonTable|
      ensures !Contains(low, SeasonTable[j].0)
    {
      if j == 0 || j == 1 || j == 3 {
        NotContainsChar(low, SeasonTable[j].0, 1);
      } else {
        NotContainsChar(low, SeasonTable[j].0, 0);
      }
    }
    FirstSeasonNone(SeasonTable, low, y);
  }

  lemma CircaNotMonth(w: string)
    requires w == "circa"
    ensures Lower(w) !in MonthTable
  {
    assert Lower(w) == "circa";
  }

  lemma CircaMonthYear(s: string, y: string)
    requires s == "circa 2015 sometime" && y == "2015"
    ensures MonthYearRule(s, y).None?
  {
    SkipLettersTo(s, 0, 5);
    SkipSpaceTo(s, 5, 6);
    SkipSpaceTo(s, 6, 6);
    assert DigitsAt(s, 6, 4) && s[0..5] == "circa";
    assert MonthYearAt(s, 0) == Some("circa");
    SearchFinds(s, 0, MonthYearAt, 0);
    CircaNotMonth("circa");
    MonthYearRuleMiss(s, y, "circa");
  }

  lemma CircaDigits(s: string)
    requires s == "circa 2015 sometime"
    ensures forall k | 0 <= k < |s| && IsDigit(s[k]) :: 6 <= k <= 9
  {
  }

  lemma CircaMonthDayYear(s: string)
    requires s == "circa 2015 sometime"
    ensures Search(s, 0, MonthDayYearAt).None?
  {
    CircaDigits(s);
    forall i | 0 <= i <= |s|
      ensures MonthDayYearAt(s, i).None?
    {
      if MonthDayYearAt(s, i).Some? {
        MonthDayYearDigits(s, i);
      }
    }
    SearchFails(s, 0, MonthDayYearAt);
  }

  lemma CircaDayMonthYear(s: string)
    requires s == "circa 2015 sometime"
    ensures Search(s, 0, DayMonthYearAt).None?
  {
    CircaDigits(s);
    forall i | 0 <= i <= |s|
      ensures DayMonthYearAt(s, i).None?
    {
      if DayMonthYearAt(s, i).Some? {
        DayMonthYearDigits(s, i);
      }
    }
    SearchFails(s, 0, DayMonthYearAt);
  }

  lemma CircaFullDate(s: string, y: string)
    requires s == "circa 2015 sometime" && y == "2015"
    ensures FullDateRule(s, y).None?
  {
    CircaMonthDayYear(s);
    CircaDayMonthYear(s);
  }

  lemma CircaBareYear(s: string, y: string)
    requires s == "circa 2015 sometime" && y == "2015"
    ensures BareYearRule(s, y).None?
  {
    assert s[0..4] == "circ";
  }

  /** Every rule stays silent, so the cleaned text comes back whole, not just its year */
  lemma CircaExample()
    ensures NormalizeDate("circa 2015 sometime") == "circa 2015 sometime"
  {
    var s := "circa 2015 sometime";
    var y := "2015";
    CircaCleaned(s);
    CircaNotMarker(s);
    CircaYear(s, y);
    PreludeFound(s, y);
    RangeNeedsSeparator(s, y);
    CircaSeason(s, y);
    CircaMonthYear(s, y);
    CircaFullDate(s, y);
    NoSeparatorNumeric(s, y);
    CircaBareYear(s, y);
    Cascade(s, y);
  }
}
