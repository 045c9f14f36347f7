/** Properties of `normalize_date`: what the cleaning step guarantees, the shapes a rule can
    produce, which rule may return a bare year, and that normalising twice changes nothing. */
module DateProperties {
  import opened Options
  import opened Chars
  import opened Scan
  import Ascii
  import opened DateNormalizer

  // ---------------------------------------------------------------------------------------
  // Cleaning

  /** Every whitespace character is a plain space and no two of them are adjacent */
  predicate SingleSpaced(s: string) {
    forall i | 0 <= i < |s| && IsSpace(s[i]) :: s[i] == ' ' && (i + 1 < |s| ==> !IsSpace(s[i + 1]))
  }

  /** The normal form `Cleaned` produces */
  predicate IsCleaned(c: string) {
    AllAscii(c) && Trimmed(c) && SingleSpaced(c)
  }

  lemma {:induction false} CollapseEnds(s: string)
    requires s != []
    ensures CollapseSpaces(s) != []
    ensures !IsSpace(s[0]) ==> CollapseSpaces(s)[0] == s[0]
    ensures IsSpace(s[0]) ==> CollapseSpaces(s)[0] == ' '
    ensures !IsSpace(s[|s| - 1]) ==> CollapseSpaces(s)[|CollapseSpaces(s)| - 1] == s[|s| - 1]
    decreases |s|
  {
    if IsSpace(s[0]) {
      var j := SkipSpace(s, 0);
      if j < |s| {
        CollapseEnds(s[j..]);
      }
    } else if |s| > 1 {
      CollapseEnds(s[1..]);
    }
  }

  lemma {:induction false} CollapseSingleSpaced(s: string)
    ensures SingleSpaced(CollapseSpaces(s))
    ensures AllAscii(s) ==> AllAscii(CollapseSpaces(s))
    decreases |s|
  {
    if s != [] {
      if IsSpace(s[0]) {
        var j := SkipSpace(s, 0);
        CollapseSingleSpaced(s[j..]);
        if j < |s| {
          CollapseEnds(s[j..]);
        }
      } else {
        CollapseSingleSpaced(s[1..]);
      }
    }
  }

  lemma {:induction false} CollapseIdentity(s: string)
    requires SingleSpaced(s)
    ensures CollapseSpaces(s) == s
    decreases |s|
  {
    if s != [] {
      if IsSpace(s[0]) {
        assert SkipSpace(s, 0) == 1 by {
          assert |s| > 1 ==> !IsSpace(s[1]);
        }
      }
      assert SingleSpaced(s[1..]) by {
        forall i | 0 <= i < |s[1..]| && IsSpace(s[1..][i])
          ensures s[1..][i] == ' ' && (i + 1 < |s[1..]| ==> !IsSpace(s[1..][i + 1]))
        {
          assert s[1..][i] == s[i + 1];
        }
      }
      CollapseIdentity(s[1..]);
    }
  }

  lemma StripKeepsAscii(a: string)
    requires AllAscii(a)
    ensures AllAscii(Strip(a)) && Trimmed(Strip(a))
  {
    StripSpec(a);
    var t := Strip(a);
    var i, j :| 0 <= i <= j <= |a| && t == a[i..j];
    forall k | 0 <= k < |t|
      ensures IsAscii(t[k])
    {
      assert t[k] == a[i + k];
    }
  }

  lemma CollapseKeepsCleaned(t: string)
    requires AllAscii(t) && Trimmed(t)
    ensures IsCleaned(CollapseSpaces(t))
  {
    CollapseSingleSpaced(t);
    if t != [] {
      CollapseEnds(t);
    }
  }

  /** `Cleaned` lands in its normal form ... */
  lemma CleanedIsCleaned(s: string)
    ensures IsCleaned(Cleaned(s))
  {
    var a := Ascii.CleanToAscii(s);
    StripKeepsAscii(a);
    CollapseKeepsCleaned(Strip(a));
  }

  /** ... and leaves text already in normal form unchanged */
  lemma CleanedFixpoint(c: string)
    requires IsCleaned(c)
    ensures Cleaned(c) == c
  {
    StripSpec(c);
    CollapseIdentity(c);
  }

  // ---------------------------------------------------------------------------------------
  // Shapes

  /** The non-fallback results: `<Month> Y`, `<Month>-<Month> Y`, `<Season> Y` or `Y` */
  ghost predicate CanonicalDate(r: string, y: string) {
    || r == y
    || (exists m | IsMonthName(m) :: r == m + " " + y)
    || (exists m1, m2 | IsMonthName(m1) && IsMonthName(m2) :: r == m1 + "-" + m2 + " " + y)
    || (exists n | IsSeasonName(n) :: r == n + " " + y)
  }

  lemma MonthNameAt(n: int)
    requires 1 <= n <= 12
    ensures IsMonthName(MonthNames[n])
  {
  }

  lemma {:induction false} FirstSeasonShape(table: seq<(string, string)>, low: string, y: string)
    requires forall k | 0 <= k < |table| :: IsSeasonName(table[k].1)
    ensures FirstSeason(table, low, y).Some? ==> exists n | IsSeasonName(n) :: FirstSeason(table, low, y).value == n + " " + y
  {
    if table != [] && !Contains(low, table[0].0) {
      FirstSeasonShape(table[1..], low, y);
    }
  }

  lemma MonthTableValue(k: string)
    requires k in MonthTable
    ensures IsMonthName(MonthTable[k])
  {
  }

  lemma RangeShape(c: string, y: string)
    requires RangeRule(c, y).Some?
    ensures CanonicalDate(RangeRule(c, y).value, y)
  {
    var m: Option<(string, string)> := Search(c, 0, RangeAt);
    var a, b := Lower(m.value.0), Lower(m.value.1);
    MonthTableValue(a);
    MonthTableValue(b);
    var m1, m2 := MonthTable[a], MonthTable[b];
    assert RangeRule(c, y).value == m1 + "-" + m2 + " " + y;
  }

  lemma MonthYearShape(c: string, y: string)
    requires MonthYearRule(c, y).Some?
    ensures CanonicalDate(MonthYearRule(c, y).value, y)
  {
    var w := Search(c, 0, MonthYearAt).value;
    assert IsMonthName(MonthTable[Lower(w)]);
  }

  lemma FullDateShape(c: string, y: string)
    requires FullDateRule(c, y).Some?
    ensures CanonicalDate(FullDateRule(c, y).value, y)
  {
    var first := Search(c, 0, MonthDayYearAt);
    if first.Some? && FirstMonthIn(first.value).Some? {
      assert IsMonthName(FirstMonthIn(first.value).value);
    } else {
      assert IsMonthName(FirstMonthIn(Search(c, 0, DayMonthYearAt).value).value);
    }
  }

  lemma NumericShape(c: string, y: string)
    requires NumericRule(c, y).Some?
    ensures CanonicalDate(NumericRule(c, y).value, y)
  {
    var first := Search(c, 0, MonthSlashYearAt);
    if first.Some? && 1 <= DigitValue(first.value) <= 12 {
      MonthNameAt(DigitValue(first.value));
    } else {
      MonthNameAt(DigitValue(Search(c, 0, YearSlashMonthAt).value));
    }
  }

  /** Whatever a rule returns has one of the canonical shapes around the year it was given */
  lemma RuleShape(k: nat, c: string, y: string)
    requires k < |Rules| && Rules[k](c, y).Some?
    ensures CanonicalDate(Rules[k](c, y).value, y)
  {
    if k == 0 {
      RangeShape(c, y);
    } else if k == 1 {
      FirstSeasonShape(SeasonTable, Lower(c), y);
    } else if k == 2 {
      MonthYearShape(c, y);
    } else if k == 3 {
      FullDateShape(c, y);
    } else if k == 4 {
      NumericShape(c, y);
    }
  }

  /** Every result of `normalize_date` is the cleaned input or a canonical shape around the
      first whole-token year of the cleaned input */
  lemma NormalizeShape(s: string)
    ensures var r := NormalizeDate(s);
      || r == Cleaned(s)
      || (FindYear(Cleaned(s)).Some? && CanonicalDate(r, FindYear(Cleaned(s)).value))
  {
    var c := Cleaned(s);
    if s != "" && !IsNonDateMarker(c) && c != "" && FindYear(c).Some? {
      var y := FindYear(c).value;
      var hit := FirstHit(Rules, c, y);
      if hit.Some? {
        var k :| 0 <= k < |Rules| && Rules[k](c, y) == hit;
        RuleShape(k, c, y);
      }
    }
  }

  // ---------------------------------------------------------------------------------------
  // Numeric months

  /** The numeric rule only ever produces the name of a month numbered 1 to 12 ... */
  lemma NumericMonthName(c: string, y: string)
    requires NumericRule(c, y).Some?
    ensures exists n | 1 <= n <= 12 :: NumericRule(c, y).value == MonthNames[n] + " " + y
  {
    var first := Search(c, 0, MonthSlashYearAt);
    if first.Some? && 1 <= DigitValue(first.value) <= 12 {
      var n := DigitValue(first.value);
      assert NumericRule(c, y).value == MonthNames[n] + " " + y;
    } else {
      var n := DigitValue(Search(c, 0, YearSlashMonthAt).value);
      assert NumericRule(c, y).value == MonthNames[n] + " " + y;
    }
  }

  /** ... and when the first `MM/YYYY` match and the first `YYYY/MM` match both carry a month
      number outside 1..12 (or are absent), it produces nothing */
  lemma NumericMonthOutOfRange(c: string, y: string)
    requires var a := Search(c, 0, MonthSlashYearAt); a.None? || !(1 <= DigitValue(a.value) <= 12)
    requires var b := Search(c, 0, YearSlashMonthAt); b.None? || !(1 <= DigitValue(b.value) <= 12)
    ensures NumericRule(c, y).None?
  {
  }

  // ---------------------------------------------------------------------------------------
  // The bare year

  lemma {:induction false} FirstSeasonLength(table: seq<(string, string)>, low: string, y: string)
    ensures FirstSeason(table, low, y).Some? ==> |FirstSeason(table, low, y).value| > |y|
  {
    if table != [] && !Contains(low, table[0].0) {
      FirstSeasonLength(table[1..], low, y);
    }
  }

  /** Only the last rule can answer with the year alone: the others append it to a name */
  lemma RuleLonger(k: nat, c: string, y: string)
    requires k < |Rules| - 1 && Rules[k](c, y).Some?
    ensures |Rules[k](c, y).value| > |y|
  {
    if k == 1 {
      FirstSeasonLength(SeasonTable, Lower(c), y);
    }
  }

  /** On cleaned text, the bare-year rule fires only when the whole text is its first year */
  lemma BareYearRuleWhole(c: string, y: string)
    requires IsCleaned(c) && FindYear(c) == Some(y) && BareYearRule(c, y).Some?
    ensures c == y
  {
    assert c != [];
    assert SkipSpace(c, 0) == 0;
    assert c == c[0..4];
    SearchFinds(c, 0, YearAt, 0);
  }

  /** `normalize_date` answers with a bare year only when the whole cleaned input is that year;
      a year inside other unrecognised text gives back the cleaned text, not the year */
  lemma BareYearOnlyWhole(s: string)
    requires IsYearText(NormalizeDate(s))
    ensures NormalizeDate(s) == Cleaned(s)
  {
    var c := Cleaned(s);
    if s != "" && !IsNonDateMarker(c) && c != "" && FindYear(c).Some? {
      var y := FindYear(c).value;
      if FirstHit(Rules, c, y).Some? {
        CleanedIsCleaned(s);
        BareYearHit(c, y);
      }
    }
  }

  /** On cleaned text, a rule that answers with a bare year answers with the whole text */
  lemma BareYearHit(c: string, y: string)
    requires IsCleaned(c) && FindYear(c) == Some(y)
    requires FirstHit(Rules, c, y).Some? && IsYearText(FirstHit(Rules, c, y).value)
    ensures FirstHit(Rules, c, y).value == c
  {
    var hit := FirstHit(Rules, c, y);
    var k :| 0 <= k < |Rules| && Rules[k](c, y) == hit && forall j | 0 <= j < k :: Rules[j](c, y).None?;
    if k < |Rules| - 1 {
      RuleLonger(k, c, y);
      assert false;
    }
    BareYearRuleWhole(c, y);
  }
}
