/** Every canonical answer of `normalize_date` is its own normalisation, so normalising twice
    changes nothing. The proofs apply each rule to the four canonical shapes. */
module DateFixpoints {
  import opened Options
  import opened Chars
  import opened Scan
  import opened DateNormalizer
  import opened DateProperties

  // ---------------------------------------------------------------------------------------
  // Text facts

  predicate AllDigits(y: string) {
    forall i | 0 <= i < |y| :: IsDigit(y[i])
  }

  predicate AllLetters(w: string) {
    forall i | 0 <= i < |w| :: IsLetter(w[i])
  }

  lemma LowerAppend(a: string, b: string)
    ensures Lower(a + b) == Lower(a) + Lower(b)
  {
  }

  lemma LowerDigits(y: string)
    requires AllDigits(y)
    ensures Lower(y) == y
  {
  }

  /** A character that does not occur in `s` rules out every word containing it */
  lemma NotContainsChar(s: string, sub: string, k: nat)
    requires k < |sub| && sub[k] !in s
    ensures !Contains(s, sub)
  {
    forall i | 0 <= i <= |s|
      ensures !MatchesAt(s, i, sub)
    {
      if i + |sub| <= |s| {
        assert s[i..i + |sub|][k] == s[i + k];
      }
    }
  }

  /** A two-letter word whose letters never occur side by side in `s` is not in `s` */
  lemma NotContainsPair(s: string, sub: string)
    requires |sub| == 2
    requires forall i | 0 <= i < |s| - 1 :: !(s[i] == sub[0] && s[i + 1] == sub[1])
    ensures !Contains(s, sub)
  {
    forall i | 0 <= i <= |s|
      ensures !MatchesAt(s, i, sub)
    {
      if i + 2 <= |s| {
        assert s[i..i + 2][0] == s[i] && s[i..i + 2][1] == s[i + 1];
      }
    }
  }

  lemma ContainsPrefix(s: string, sub: string)
    requires |sub| <= |s| && s[..|sub|] == sub
    ensures Contains(s, sub)
  {
    assert MatchesAt(s, 0, sub);
  }

  lemma YearIsDigits(y: string)
    requires IsYearText(y)
    ensures AllDigits(y)
  {
    assert y[0] == y[..2][0] && y[1] == y[..2][1];
  }

  // ---------------------------------------------------------------------------------------
  // Finding the year and cleaning

  /** Text before a year: it ends in a non-word character and nowhere in it does a `1` or `2`
      precede a digit, so no year can start inside it */
  predicate YearPrefix(p: string) {
    p != [] && !IsWordChar(p[|p| - 1])
    && forall i | 0 <= i < |p| - 1 :: !((p[i] == '1' || p[i] == '2') && IsDigit(p[i + 1]))
  }

  lemma FindYearAfter(p: string, y: string)
    requires IsYearText(y) && (p == [] || YearPrefix(p))
    ensures FindYear(p + y) == Some(y)
  {
    var s := p + y;
    forall q | 0 <= q < |p|
      ensures YearAt(s, q).None?
    {
      if q + 4 <= |s| {
        var t := s[q..q + 4];
        assert t[..2][0] == s[q] && t[..2][1] == s[q + 1];
      }
    }
    assert s[|p|..|p| + 4] == y;
    SearchFinds(s, 0, YearAt, |p|);
  }

  /** A name made of letters, dashes and digits, a space, and a year is already cleaned */
  lemma CanonicalIsCleaned(x: string, y: string)
    requires x != [] && IsYearText(y)
    requires forall i | 0 <= i < |x| :: IsLetter(x[i]) || x[i] == '-' || IsDigit(x[i])
    ensures IsCleaned(x + " " + y)
  {
    YearIsDigits(y);
    var r := x + " " + y;
    forall i | 0 <= i < |r|
      ensures IsAscii(r[i]) && (IsSpace(r[i]) ==> i == |x|)
    {
      if i < |x| {
        assert r[i] == x[i];
      } else if i > |x| {
        assert r[i] == y[i - |x| - 1];
      }
    }
  }

  lemma YearIsCleaned(y: string)
    requires IsYearText(y)
    ensures IsCleaned(y)
  {
    YearIsDigits(y);
  }

  /** A text ending in a digit is none of the "no date" markers */
  lemma NotMarker(r: string)
    requires r != [] && IsDigit(r[|r| - 1])
    ensures !IsNonDateMarker(r)
  {
    var low := Lower(r);
    assert IsDigit(low[|low| - 1]);
    forall k | 0 <= k < |NonDateMarkers|
      ensures low != NonDateMarkers[k]
    {
      var m := NonDateMarkers[k];
      assert !IsDigit(m[|m| - 1]);
    }
  }

  /** The cascade in terms of the named rules: the first one that answers decides */
  lemma Cascade(c: string, y: string)
    ensures RangeRule(c, y).Some? ==> FirstHit(Rules, c, y) == RangeRule(c, y)
    ensures RangeRule(c, y).None? && SeasonRule(c, y).Some? ==> FirstHit(Rules, c, y) == SeasonRule(c, y)
    ensures RangeRule(c, y).None? && SeasonRule(c, y).None? && MonthYearRule(c, y).Some?
      ==> FirstHit(Rules, c, y) == MonthYearRule(c, y)
    ensures RangeRule(c, y).None? && SeasonRule(c, y).None? && MonthYearRule(c, y).None?
      && FullDateRule(c, y).None? && NumericRule(c, y).Some?
      ==> FirstHit(Rules, c, y) == NumericRule(c, y)
    ensures RangeRule(c, y).None? && SeasonRule(c, y).None? && MonthYearRule(c, y).None?
      && FullDateRule(c, y).None? && NumericRule(c, y).None?
      ==> FirstHit(Rules, c, y) == BareYearRule(c, y)
  {
    assert Rules[0] == RangeRule && Rules[1] == SeasonRule && Rules[2] == MonthYearRule;
    assert Rules[3] == FullDateRule && Rules[4] == NumericRule && Rules[5] == BareYearRule;
  }

  // ---------------------------------------------------------------------------------------
  // Rules that cannot fire

  lemma RangeNeedsSeparator(c: string, y: string)
    requires '-' !in c && '/' !in c
    ensures RangeRule(c, y).None?
  {
    forall i | 0 <= i <= |c|
      ensures RangeAt(c, i).None?
    {
    }
    SearchFails(c, 0, RangeAt);
  }

  lemma {:induction false} FirstSeasonNone(table: seq<(string, string)>, low: string, y: string)
    requires forall j | 0 <= j < |table| :: !Contains(low, table[j].0)
    ensures FirstSeason(table, low, y).None?
  {
    if table != [] {
      FirstSeasonNone(table[1..], low, y);
    }
  }

  lemma {:induction false} FirstSeasonAt(table: seq<(string, string)>, low: string, y: string, k: nat)
    requires k < |table| && Contains(low, table[k].0)
    requires forall j | 0 <= j < k :: !Contains(low, table[j].0)
    ensures FirstSeason(table, low, y) == Some(table[k].1 + " " + y)
  {
    if k > 0 {
      FirstSeasonAt(table[1..], low, y, k - 1);
    }
  }

  /** The range rule on a first match whose two words are both months */
  lemma RangeRuleFrom(c: string, y: string, a: string, b: string)
    requires Search(c, 0, RangeAt) == Some((a, b))
    requires Lower(a) in MonthTable && Lower(b) in MonthTable
    ensures RangeRule(c, y) == Some(MonthTable[Lower(a)] + "-" + MonthTable[Lower(b)] + " " + y)
  {
  }

  /** The numeric rule on a first `MM/YYYY` match naming a month */
  lemma NumericRuleFrom(c: string, y: string, g: string)
    requires Search(c, 0, MonthSlashYearAt) == Some(g) && 1 <= DigitValue(g) <= 12
    ensures NumericRule(c, y) == Some(MonthNames[DigitValue(g)] + " " + y)
  {
  }

  /** The numeric rule falling back to `YYYY/MM` when there is no `MM/YYYY` match */
  lemma NumericRuleSecond(c: string, y: string, g: string)
    requires Search(c, 0, MonthSlashYearAt).None?
    requires Search(c, 0, YearSlashMonthAt) == Some(g) && 1 <= DigitValue(g) <= 12
    ensures NumericRule(c, y) == Some(MonthNames[DigitValue(g)] + " " + y)
  {
  }

  /** The month-year rule on a first match whose word is no month */
  lemma MonthYearRuleMiss(c: string, y: string, w: string)
    requires Search(c, 0, MonthYearAt) == Some(w) && Lower(w) !in MonthTable
    ensures MonthYearRule(c, y).None?
  {
  }

  /** A "Month Day Year" match needs a digit and, after it, four digits in a row */
  lemma MonthDayYearDigits(s: string, i: nat)
    requires MonthDayYearAt(s, i).Some?
    ensures exists k, l | i < k < l && l + 3 < |s| :: IsDigit(s[k]) && IsDigit(s[l]) && IsDigit(s[l + 3])
  {
    var j := SkipLetters(s, i);
    var k := SkipSpace(s, j);
    var d := if DigitsAt(s, k, 2) && CommaYearAt(s, k + 2).Some? then 2 else 1;
    var q := if k + d < |s| && s[k + d] == ',' then k + d + 1 else k + d;
    var l := SkipSpace(s, q);
    assert IsDigit(s[k]) && IsDigit(s[l]) && IsDigit(s[l + 3]);
  }

  /** A "Day Month Year" match starts with a digit and has four digits in a row further on */
  lemma DayMonthYearDigits(s: string, i: nat)
    requires DayMonthYearAt(s, i).Some?
    ensures i < |s| && IsDigit(s[i])
    ensures exists e | i + 5 < e < |s| :: IsDigit(s[e])
  {
    var p := if DigitsAt(s, i, 2) then i + 2 else i + 1;
    var a := SkipSpace(s, p);
    var b := SkipLetters(s, a);
    var m := SkipSpace(s, b);
    var q := if m < |s| && s[m] == ',' then m + 1 else m;
    var l := SkipSpace(s, q);
    assert IsDigit(s[l + 3]);
  }

  /** Text without letters: the range rule stays silent */
  lemma NoLetterRange(c: string, y: string)
    requires forall i | 0 <= i < |c| :: !IsLetter(c[i])
    ensures RangeRule(c, y).None?
  {
    forall i | 0 <= i <= |c|
      ensures RangeAt(c, i).None?
    {
    }
    SearchFails(c, 0, RangeAt);
  }

  /** Text without letters: no season keyword occurs in it */
  lemma NoLetterSeason(c: string, y: string)
    requires forall i | 0 <= i < |c| :: !IsLetter(c[i])
    ensures SeasonRule(c, y).None?
  {
    var low := Lower(c);
    forall j | 0 <= j < |SeasonTable|
      ensures !Contains(low, SeasonTable[j].0)
    {
      NotContainsChar(low, SeasonTable[j].0, 0);
    }
    FirstSeasonNone(SeasonTable, low, y);
  }

  /** Text without letters: none of the month-name rules fires */
  lemma NoLetterMonths(c: string, y: string)
    requires forall i | 0 <= i < |c| :: !IsLetter(c[i])
    ensures MonthYearRule(c, y).None?
    ensures Search(c, 0, MonthDayYearAt).None? && Search(c, 0, DayMonthYearAt).None?
  {
    forall i | 0 <= i <= |c|
      ensures MonthYearAt(c, i).None?
    {
    }
    forall i | 0 <= i <= |c|
      ensures MonthDayYearAt(c, i).None?
    {
    }
    forall i | 0 <= i <= |c|
      ensures DayMonthYearAt(c, i).None?
    {
    }
    SearchFails(c, 0, MonthYearAt);
    SearchFails(c, 0, MonthDayYearAt);
    SearchFails(c, 0, DayMonthYearAt);
  }

  lemma NoSeparatorNumeric(c: string, y: string)
    requires '-' !in c && '/' !in c
    ensures NumericRule(c, y).None?
  {
    forall i | 0 <= i <= |c|
      ensures MonthSlashYearAt(c, i).None? && YearSlashMonthAt(c, i).None?
    {
    }
    SearchFails(c, 0, MonthSlashYearAt);
    SearchFails(c, 0, YearSlashMonthAt);
  }

  /** Text that misses one letter of every season keyword contains none of them */
  lemma NoSeasonKeyword(low: string)
    requires 'q' !in low && 'w' !in low
    requires 'g' !in low || 'p' !in low
    requires 's' !in low || 'm' !in low || 'u' !in low
    requires 'f' !in low || 'l' !in low
    requires 't' !in low || 'm' !in low || 'a' !in low
    ensures forall j | 0 <= j < |SeasonTable| :: !Contains(low, SeasonTable[j].0)
  {
    forall j | 0 <= j < |SeasonTable|
      ensures !Contains(low, SeasonTable[j].0)
    {
      var key := SeasonTable[j].0;
      if j == 0 {
        if 'g' !in low { NotContainsChar(low, key, 5); } else { NotContainsChar(low, key, 1); }
      } else if j == 1 {
        if 's' !in low { NotContainsChar(low, key, 0); }
        else if 'm' !in low { NotContainsChar(low, key, 2); }
        else { NotContainsChar(low, key, 1); }
      } else if j == 2 {
        if 'f' !in low { NotContainsChar(low, key, 0); } else { NotContainsChar(low, key, 2); }
      } else if j == 3 {
        if 't' !in low { NotContainsChar(low, key, 2); }
        else if 'm' !in low { NotContainsChar(low, key, 4); }
        else { NotContainsChar(low, key, 0); }
      } else if j == 4 {
        NotContainsChar(low, key, 0);
      } else {
        NotContainsChar(low, key, 0);
      }
    }
  }
  // ---------------------------------------------------------------------------------------
  // Facts about the canonical names

  /** Month names are non-empty words of letters */
  lemma MonthLetters(m: string)
    requires IsMonthName(m)
    ensures m != [] && forall ch | ch in m :: IsLetter(ch)
  {
  }

  /** The facts the fixpoint proof needs about one month name; one lemma per month below keeps
      each lower-casing of a literal in a proof of its own */
  predicate MonthNameFacts(m: string) {
    var low := Lower(m);
    && low in MonthTable && MonthTable[low] == m
    && 'q' !in low && 'w' !in low
    && ('g' !in low || 'p' !in low)
    && ('s' !in low || 'm' !in low || 'u' !in low)
    && ('f' !in low || 'l' !in low)
    && ('t' !in low || 'm' !in low || 'a' !in low)
  }

  lemma JanuaryFacts()
    ensures MonthNameFacts("January")
  {
    assert Lower("January") == "january";
  }

  lemma FebruaryFacts()
    ensures MonthNameFacts("February")
  {
    assert Lower("February") == "february";
  }

  lemma MarchFacts()
    ensures MonthNameFacts("March")
  {
    assert Lower("March") == "march";
  }

  lemma AprilFacts()
    ensures MonthNameFacts("April")
  {
    assert Lower("April") == "april";
  }

  lemma MayFacts()
    ensures MonthNameFacts("May")
  {
    assert Lower("May") == "may";
  }

  lemma JuneFacts()
    ensures MonthNameFacts("June")
  {
    assert Lower("June") == "june";
  }

  lemma JulyFacts()
    ensures MonthNameFacts("July")
  {
    assert Lower("July") == "july";
  }

  lemma AugustFacts()
    ensures MonthNameFacts("August")
  {
    assert Lower("August") == "august";
  }

  lemma SeptemberFacts()
    ensures MonthNameFacts("September")
  {
    assert Lower("September") == "september";
  }

  lemma OctoberFacts()
    ensures MonthNameFacts("October")
  {
    assert Lower("October") == "october";
  }

  lemma NovemberFacts()
    ensures MonthNameFacts("November")
  {
    assert Lower("November") == "november";
  }

  lemma DecemberFacts()
    ensures MonthNameFacts("December")
  {
    assert Lower("December") == "december";
  }

  /** Every month name maps back to itself and misses a letter of every season keyword */
  lemma MonthFacts(m: string)
    requires IsMonthName(m)
    ensures MonthNameFacts(m)
  {
    if m == "January" {
      JanuaryFacts();
    } else if m == "February" {
      FebruaryFacts();
    } else if m == "March" {
      MarchFacts();
    } else if m == "April" {
      AprilFacts();
    } else if m == "May" {
      MayFacts();
    } else if m == "June" {
      JuneFacts();
    } else if m == "July" {
      JulyFacts();
    } else if m == "August" {
      AugustFacts();
    } else if m == "September" {
      SeptemberFacts();
    } else if m == "October" {
      OctoberFacts();
    } else if m == "November" {
      NovemberFacts();
    } else if m == "December" {
      DecemberFacts();
    }
  }

  // ---------------------------------------------------------------------------------------
  // Each canonical shape normalises to itself

  /** The steps before the rules, for a cleaned text that is no marker and whose first year is `y` */
  lemma PreludeFound(r: string, y: string)
    requires IsCleaned(r) && r != [] && !IsNonDateMarker(r) && FindYear(r) == Some(y)
    ensures Cleaned(r) == r
    ensures NormalizeDate(r) == FirstHit(Rules, r, y).GetOr(r)
  {
    CleanedFixpoint(r);
  }

  /** The steps before the rules: cleaning keeps `r`, it is no marker, and its year is `y` */
  lemma Prelude(r: string, p: string, y: string)
    requires r == p + y && IsYearText(y) && (p == [] || YearPrefix(p)) && IsCleaned(r)
    ensures Cleaned(r) == r && !IsNonDateMarker(r) && FindYear(r) == Some(y)
    ensures NormalizeDate(r) == FirstHit(Rules, r, y).GetOr(r)
  {
    YearIsDigits(y);
    assert r[|r| - 1] == y[3];
    FindYearAfter(p, y);
    NotMarker(r);
    PreludeFound(r, y);
  }

  /** On a bare year only the last rule fires */
  lemma YearWordRules(y: string)
    requires IsYearText(y)
    ensures RangeRule(y, y).None? && SeasonRule(y, y).None?
    ensures MonthYearRule(y, y).None? && FullDateRule(y, y).None?
  {
    YearIsDigits(y);
    assert '-' !in y && '/' !in y;
    RangeNeedsSeparator(y, y);
    NoLetterSeason(y, y);
    NoLetterMonths(y, y);
  }

  lemma YearDigitRules(y: string)
    requires IsYearText(y)
    ensures NumericRule(y, y).None? && BareYearRule(y, y) == Some(y)
  {
    YearIsDigits(y);
    assert '-' !in y && '/' !in y;
    NoSeparatorNumeric(y, y);
    assert y[0..4] == y;
  }

  lemma YearFixpoint(y: string)
    requires IsYearText(y)
    ensures NormalizeDate(y) == y
  {
    YearIsCleaned(y);
    Prelude(y, [], y);
    YearWordRules(y);
    YearDigitRules(y);
    Cascade(y, y);
  }

  /** On "<Month> <year>" the range and season rules stay silent and the month rule answers */
  lemma MonthRules(m: string, y: string)
    requires IsMonthName(m) && IsYearText(y)
    ensures var r := m + " " + y;
      RangeRule(r, y).None? && SeasonRule(r, y).None? && MonthYearRule(r, y) == Some(r)
  {
    var r := m + " " + y;
    MonthLetters(m);
    YearIsDigits(y);
    assert '-' !in r && '/' !in r;
    RangeNeedsSeparator(r, y);
    MonthSeasonNone(m, y);
    MonthWord(m, y);
  }

  lemma MonthSeasonNone(m: string, y: string)
    requires IsMonthName(m) && IsYearText(y)
    ensures SeasonRule(m + " " + y, y).None?
  {
    var r := m + " " + y;
    MonthFacts(m);
    YearIsDigits(y);
    var low := Lower(r);
    LowerAppend(m + " ", y);
    LowerAppend(m, " ");
    LowerDigits(y);
    assert low == Lower(m) + " " + y;
    NoSeasonKeyword(low);
    FirstSeasonNone(SeasonTable, low, y);
  }

  lemma MonthWord(m: string, y: string)
    requires IsMonthName(m) && IsYearText(y)
    ensures MonthYearRule(m + " " + y, y) == Some(m + " " + y)
  {
    var r := m + " " + y;
    MonthLetters(m);
    MonthFacts(m);
    YearIsDigits(y);
    SkipLettersTo(r, 0, |m|);
    SkipSpaceTo(r, |m|, |m| + 1);
    SkipSpaceTo(r, |m| + 1, |m| + 1);
    assert DigitsAt(r, |m| + 1, 4);
    assert r[|m| + 1] == y[0];
    assert CommaYearAt(r, |m| + 1).Some?;
    assert r[0] == m[0] && r[0..|m|] == m;
    assert MonthYearAt(r, 0) == Some(m);
    SearchFinds(r, 0, MonthYearAt, 0);
  }

  lemma MonthFixpoint(m: string, y: string)
    requires IsMonthName(m) && IsYearText(y)
    ensures NormalizeDate(m + " " + y) == m + " " + y
  {
    var r := m + " " + y;
    MonthLetters(m);
    CanonicalIsCleaned(m, y);
    assert r == (m + " ") + y;
    Prelude(r, m + " ", y);
    MonthRules(m, y);
    Cascade(r, y);
  }

  /** Lower-casing "<name> <year>" lower-cases the name only */
  lemma LowerNameYear(n: string, y: string)
    requires IsYearText(y)
    ensures Lower(n + " " + y) == Lower(n) + " " + y
  {
    YearIsDigits(y);
    LowerAppend(n + " ", y);
    LowerAppend(n, " ");
    LowerDigits(y);
  }

  lemma SpringHit(y: string)
    requires IsYearText(y)
    ensures SeasonRule("Spring" + " " + y, y) == Some("Spring" + " " + y)
  {
    var low := Lower("Spring" + " " + y);
    LowerNameYear("Spring", y);
    assert Lower("Spring") == "spring";
    YearIsDigits(y);
    ContainsPrefix(low, "spring");
    FirstSeasonAt(SeasonTable, low, y, 0);
  }

  lemma SummerHit(y: string)
    requires IsYearText(y)
    ensures SeasonRule("Summer" + " " + y, y) == Some("Summer" + " " + y)
  {
    var low := Lower("Summer" + " " + y);
    LowerNameYear("Summer", y);
    assert Lower("Summer") == "summer";
    YearIsDigits(y);
    forall j | 0 <= j < 1
      ensures !Contains(low, SeasonTable[j].0)
    {
      NotContainsChar(low, SeasonTable[j].0, 1);
    }
    ContainsPrefix(low, "summer");
    FirstSeasonAt(SeasonTable, low, y, 1);
  }

  lemma FallHit(y: string)
    requires IsYearText(y)
    ensures SeasonRule("Fall" + " " + y, y) == Some("Fall" + " " + y)
  {
    var low := Lower("Fall" + " " + y);
    LowerNameYear("Fall", y);
    assert Lower("Fall") == "fall";
    YearIsDigits(y);
    forall j | 0 <= j < 2
      ensures !Contains(low, SeasonTable[j].0)
    {
      if j == 0 {
        NotContainsChar(low, SeasonTable[j].0, 1);
      } else {
        NotContainsChar(low, SeasonTable[j].0, 1);
      }
    }
    ContainsPrefix(low, "fall");
    FirstSeasonAt(SeasonTable, low, y, 2);
  }

  lemma WinterHit(y: string)
    requires IsYearText(y)
    ensures SeasonRule("Winter" + " " + y, y) == Some("Winter" + " " + y)
  {
    var low := Lower("Winter" + " " + y);
    LowerNameYear("Winter", y);
    assert Lower("Winter") == "winter";
    YearIsDigits(y);
    forall j | 0 <= j < 4
      ensures !Contains(low, SeasonTable[j].0)
    {
      if j == 0 {
        NotContainsChar(low, SeasonTable[j].0, 1);
      } else if j == 1 {
        NotContainsChar(low, SeasonTable[j].0, 1);
      } else if j == 2 {
        NotContainsChar(low, SeasonTable[j].0, 0);
      } else {
        NotContainsChar(low, SeasonTable[j].0, 0);
      }
    }
    ContainsPrefix(low, "winter");
    FirstSeasonAt(SeasonTable, low, y, 4);
  }

  lemma Q1Hit(y: string)
    requires IsYearText(y)
    ensures SeasonRule("Q1" + " " + y, y) == Some("Q1" + " " + y)
  {
    var low := Lower("Q1" + " " + y);
    LowerNameYear("Q1", y);
    assert Lower("Q1") == "q1";
    YearIsDigits(y);
    forall i | 1 <= i < |low|
      ensures low[i] != 'q'
    {
      if i >= 3 {
        assert low[i] == y[i - 3];
      }
    }
    forall j | 0 <= j < 5
      ensures !Contains(low, SeasonTable[j].0)
    {
      if j == 0 {
        NotContainsChar(low, SeasonTable[j].0, 1);
      } else if j == 1 {
        NotContainsChar(low, SeasonTable[j].0, 1);
      } else if j == 2 {
        NotContainsChar(low, SeasonTable[j].0, 0);
      } else if j == 3 {
        NotContainsChar(low, SeasonTable[j].0, 0);
      } else {
        NotContainsChar(low, SeasonTable[j].0, 0);
      }
    }
    ContainsPrefix(low, "q1");
    FirstSeasonAt(SeasonTable, low, y, 5);
  }

  lemma Q2Hit(y: string)
    requires IsYearText(y)
    ensures SeasonRule("Q2" + " " + y, y) == Some("Q2" + " " + y)
  {
    var low := Lower("Q2" + " " + y);
    LowerNameYear("Q2", y);
    assert Lower("Q2") == "q2";
    YearIsDigits(y);
    forall i | 1 <= i < |low|
      ensures low[i] != 'q'
    {
      if i >= 3 {
        assert low[i] == y[i - 3];
      }
    }
    forall j | 0 <= j < 6
      ensures !Contains(low, SeasonTable[j].0)
    {
      if j == 0 {
        NotContainsChar(low, SeasonTable[j].0, 1);
      } else if j == 1 {
        NotContainsChar(low, SeasonTable[j].0, 1);
      } else if j == 2 {
        NotContainsChar(low, SeasonTable[j].0, 0);
      } else if j == 3 {
        NotContainsChar(low, SeasonTable[j].0, 0);
      } else if j == 4 {
        NotContainsChar(low, SeasonTable[j].0, 0);
      } else {
        NotContainsPair(low, SeasonTable[j].0);
      }
    }
    ContainsPrefix(low, "q2");
    FirstSeasonAt(SeasonTable, low, y, 6);
  }

  lemma Q3Hit(y: string)
    requires IsYearText(y)
    ensures SeasonRule("Q3" + " " + y, y) == Some("Q3" + " " + y)
  {
    var low := Lower("Q3" + " " + y);
    LowerNameYear("Q3", y);
    assert Lower("Q3") == "q3";
    YearIsDigits(y);
    forall i | 1 <= i < |low|
      ensures low[i] != 'q'
    {
      if i >= 3 {
        assert low[i] == y[i - 3];
      }
    }
    forall j | 0 <= j < 7
      ensures !Contains(low, SeasonTable[j].0)
    {
      if j == 0 {
        NotContainsChar(low, SeasonTable[j].0, 1);
      } else if j == 1 {
        NotContainsChar(low, SeasonTable[j].0, 1);
      } else if j == 2 {
        NotContainsChar(low, SeasonTable[j].0, 0);
      } else if j == 3 {
        NotContainsChar(low, SeasonTable[j].0, 0);
      } else if j == 4 {
        NotContainsChar(low, SeasonTable[j].0, 0);
      } else if j == 5 {
        NotContainsPair(low, SeasonTable[j].0);
      } else {
        NotContainsPair(low, SeasonTable[j].0);
      }
    }
    ContainsPrefix(low, "q3");
    FirstSeasonAt(SeasonTable, low, y, 7);
  }

  lemma Q4Hit(y: string)
    requires IsYearText(y)
    ensures SeasonRule("Q4" + " " + y, y) == Some("Q4" + " " + y)
  {
    var low := Lower("Q4" + " " + y);
    LowerNameYear("Q4", y);
    assert Lower("Q4") == "q4";
    YearIsDigits(y);
    forall i | 1 <= i < |low|
      ensures low[i] != 'q'
    {
      if i >= 3 {
        assert low[i] == y[i - 3];
      }
    }
    forall j | 0 <= j < 8
      ensures !Contains(low, SeasonTable[j].0)
    {
      if j == 0 {
        NotContainsChar(low, SeasonTable[j].0, 1);
      } else if j == 1 {
        NotContainsChar(low, SeasonTable[j].0, 1);
      } else if j == 2 {
        NotContainsChar(low, SeasonTable[j].0, 0);
      } else if j == 3 {
        NotContainsChar(low, SeasonTable[j].0, 0);
      } else if j == 4 {
        NotContainsChar(low, SeasonTable[j].0, 0);
      } else if j == 5 {
        NotContainsPair(low, SeasonTable[j].0);
      } else if j == 6 {
        NotContainsPair(low, SeasonTable[j].0);
      } else {
        NotContainsPair(low, SeasonTable[j].0);
      }
    }
    ContainsPrefix(low, "q4");
    FirstSeasonAt(SeasonTable, low, y, 8);
  }

  lemma SeasonHit(n: string, y: string)
    requires IsSeasonName(n) && IsYearText(y)
    ensures SeasonRule(n + " " + y, y) == Some(n + " " + y)
  {
    if n == "Spring" {
      SpringHit(y);
    } else if n == "Summer" {
      SummerHit(y);
    } else if n == "Fall" {
      FallHit(y);
    } else if n == "Winter" {
      WinterHit(y);
    } else if n == "Q1" {
      Q1Hit(y);
    } else if n == "Q2" {
      Q2Hit(y);
    } else if n == "Q3" {
      Q3Hit(y);
    } else if n == "Q4" {
      Q4Hit(y);
    }
  }

  /** Season names are words of letters, or a quarter "Q<digit>" */
  lemma SeasonNameChars(n: string)
    requires IsSeasonName(n)
    ensures n != []
    ensures (forall ch | ch in n :: IsLetter(ch)) || (|n| == 2 && n[0] == 'Q' && IsDigit(n[1]))
  {
  }

  /** The text facts about "<Season> <year>" the prelude needs */
  lemma SeasonText(n: string, y: string)
    requires IsSeasonName(n) && IsYearText(y)
    ensures IsCleaned(n + " " + y) && YearPrefix(n + " ")
    ensures '-' !in n + " " + y && '/' !in n + " " + y
  {
    SeasonNameChars(n);
    YearIsDigits(y);
    CanonicalIsCleaned(n, y);
  }

  lemma SeasonFixpoint(n: string, y: string)
    requires IsSeasonName(n) && IsYearText(y)
    ensures NormalizeDate(n + " " + y) == n + " " + y
  {
    var r := n + " " + y;
    SeasonText(n, y);
    assert r == (n + " ") + y;
    Prelude(r, n + " ", y);
    RangeNeedsSeparator(r, y);
    SeasonHit(n, y);
    Cascade(r, y);
  }

  /** The range pattern at the start of "<Month>-<Month> <year>" yields both month names */
  lemma RangeAtWords(m1: string, m2: string, y: string)
    requires IsMonthName(m1) && IsMonthName(m2) && IsYearText(y)
    ensures RangeAt(m1 + "-" + m2 + " " + y, 0) == Some((m1, m2))
  {
    var r := m1 + "-" + m2 + " " + y;
    MonthLetters(m1);
    MonthLetters(m2);
    var a := |m1| + 1;
    var b := a + |m2|;
    assert r[|m1|] == '-' && r[b] == ' ';
    assert r[0] == m1[0] && r[a] == m2[0];
    assert r[0..|m1|] == m1 && r[a..b] == m2;
    SkipLettersTo(r, 0, |m1|);
    SkipSpaceTo(r, |m1|, |m1|);
    SkipSpaceTo(r, a, a);
    SkipLettersTo(r, a, b);
  }

  /** The text facts about "<Month>-<Month> <year>" the prelude needs */
  lemma RangeText(m1: string, m2: string, y: string)
    requires IsMonthName(m1) && IsMonthName(m2) && IsYearText(y)
    ensures IsCleaned(m1 + "-" + m2 + " " + y) && YearPrefix(m1 + "-" + m2 + " ")
  {
    var x := m1 + "-" + m2;
    MonthLetters(m1);
    MonthLetters(m2);
    forall i | 0 <= i < |x|
      ensures IsLetter(x[i]) || x[i] == '-'
    {
      if i < |m1| {
        assert x[i] == m1[i];
      } else if i > |m1| {
        assert x[i] == m2[i - |m1| - 1];
      }
    }
    CanonicalIsCleaned(x, y);
    assert YearPrefix(x + " ");
  }

  /** On "<Month>-<Month> <year>" the range rule answers with the text itself */
  lemma RangeHit(m1: string, m2: string, y: string)
    requires IsMonthName(m1) && IsMonthName(m2) && IsYearText(y)
    ensures var r := m1 + "-" + m2 + " " + y; RangeRule(r, y) == Some(r)
  {
    var r := m1 + "-" + m2 + " " + y;
    RangeAtWords(m1, m2, y);
    SearchFinds(r, 0, RangeAt, 0);
    MonthFacts(m1);
    MonthFacts(m2);
  }

  lemma RangeFixpoint(m1: string, m2: string, y: string)
    requires IsMonthName(m1) && IsMonthName(m2) && IsYearText(y)
    ensures NormalizeDate(m1 + "-" + m2 + " " + y) == m1 + "-" + m2 + " " + y
  {
    var x := m1 + "-" + m2 + " ";
    var r := m1 + "-" + m2 + " " + y;
    RangeText(m1, m2, y);
    assert r == x + y;
    Prelude(r, x, y);
    RangeHit(m1, m2, y);
    Cascade(r, y);
  }

  /** Every canonical answer normalises to itself */
  lemma CanonicalFixpoint(r: string, y: string)
    requires IsYearText(y) && CanonicalDate(r, y)
    ensures NormalizeDate(r) == r
  {
    if r == y {
      YearFixpoint(y);
    } else if exists m | IsMonthName(m) :: r == m + " " + y {
      var m :| IsMonthName(m) && r == m + " " + y;
      MonthFixpoint(m, y);
    } else if exists m1, m2 | IsMonthName(m1) && IsMonthName(m2) :: r == m1 + "-" + m2 + " " + y {
      var m1, m2 :| IsMonthName(m1) && IsMonthName(m2) && r == m1 + "-" + m2 + " " + y;
      RangeFixpoint(m1, m2, y);
    } else {
      var n :| IsSeasonName(n) && r == n + " " + y;
      SeasonFixpoint(n, y);
    }
  }

  /** `normalize_date` is idempotent: its answers are already normal */
  lemma NormalizeIdempotent(s: string)
    ensures NormalizeDate(NormalizeDate(s)) == NormalizeDate(s)
  {
    var r := NormalizeDate(s);
    var c := Cleaned(s);
    NormalizeShape(s);
    if r == c {
      CleanedIsCleaned(s);
      CleanedFixpoint(c);
    } else {
      var y := FindYear(c).value;
      var p :| 0 <= p <= |c| && YearAt(c, p) == Some(y);
      CanonicalFixpoint(r, y);
    }
  }
}
