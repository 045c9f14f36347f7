/** Properties of the author split: every kept name is trimmed, non-empty and free of
    separators, and joining clean names with ", " then splitting gives the names back. */
module Authors {
  import opened Options
  import opened Chars
  import opened Extractor

  /** No separator match starts anywhere in `t` */
  predicate NoSeparator(t: string) {
    forall q | 0 <= q < |t| :: SeparatorAt(t, q).None?
  }

  /** A name the ", " join keeps apart: non-empty, trimmed, and no separator even after the
      space the join puts in front of it (so it cannot begin with "and ") */
  predicate IsAuthorName(a: string) {
    a != [] && Trimmed(a) && NoSeparator(" " + a)
  }

  /** The reference rendering: names joined by ", " */
  function JoinAuthors(names: seq<string>): string {
    if names == [] then ""
    else if |names| == 1 then names[0]
    else names[0] + ", " + JoinAuthors(names[1..])
  }

  // ---------------------------------------------------------------------------------------
  // Shifting a search to a suffix

  lemma {:induction false} SkipSpaceShift(s: string, d: nat, q: nat)
    requires d + q <= |s|
    ensures SkipSpace(s, d + q) == d + SkipSpace(s[d..], q)
    decreases |s| - q
  {
    if d + q < |s| && IsSpace(s[d + q]) {
      assert s[d..][q] == s[d + q];
      SkipSpaceShift(s, d, q + 1);
    }
  }

  lemma SeparatorShift(s: string, d: nat, q: nat)
    requires d + q <= |s|
    ensures SeparatorAt(s, d + q).None? <==> SeparatorAt(s[d..], q).None?
    ensures SeparatorAt(s, d + q).Some? ==> SeparatorAt(s, d + q).value == d + SeparatorAt(s[d..], q).value
  {
    if d + q < |s| {
      assert s[d..][q] == s[d + q];
      if !IsSeparatorChar(s[d + q]) && IsSpace(s[d + q]) {
        SeparatorShiftSpace(s, d, q);
      }
    }
  }

  /** `SeparatorShift` where a whitespace run starts: the `\s+and\s+` alternative */
  lemma SeparatorShiftSpace(s: string, d: nat, q: nat)
    requires d + q < |s| && !IsSeparatorChar(s[d + q]) && IsSpace(s[d + q])
    ensures SeparatorAt(s, d + q).None? <==> SeparatorAt(s[d..], q).None?
    ensures SeparatorAt(s, d + q).Some? ==> SeparatorAt(s, d + q).value == d + SeparatorAt(s[d..], q).value
  {
    var t := s[d..];
    assert t[q] == s[d + q];
    SkipSpaceShift(s, d, q);
    var e := SkipSpace(t, q);
    assert MatchesAt(s, d + e, "and") <==> MatchesAt(t, e, "and") by {
      if e + 3 <= |t| {
        assert s[d + e..d + e + 3] == t[e..e + 3];
      }
    }
    if e + 3 < |t| {
      assert t[e + 3] == s[d + e + 3];
      SkipSpaceShift(s, d, e + 3);
    }
  }

  lemma {:induction false} SplitShift(s: string, d: nat, a: nat, b: nat)
    requires a <= b && d + b <= |s|
    ensures SplitFrom(s, d + a, d + b) == SplitFrom(s[d..], a, b)
    decreases |s| - b
  {
    if d + b == |s| {
      SplitShiftEnd(s, d, a, b);
    } else {
      var m := SeparatorAt(s[d..], b);
      if m.Some? {
        var e := m.value;
        SplitShift(s, d, e, e);
        SplitShiftCut(s, d, a, b, e);
      } else {
        SplitShift(s, d, a, b + 1);
        SplitShiftPass(s, d, a, b);
      }
    }
  }

  lemma SplitShiftEnd(s: string, d: nat, a: nat, b: nat)
    requires a <= b && d + b == |s|
    ensures SplitFrom(s, d + a, d + b) == SplitFrom(s[d..], a, b)
  {
    assert s[d + a..] == s[d..][a..];
  }

  /** One shifted step of `SplitShift` at a separator ending at `e` */
  lemma SplitShiftCut(s: string, d: nat, a: nat, b: nat, e: nat)
    requires a <= b && d + b < |s|
    requires SeparatorAt(s[d..], b) == Some(e)
    requires SplitFrom(s, d + e, d + e) == SplitFrom(s[d..], e, e)
    ensures SplitFrom(s, d + a, d + b) == SplitFrom(s[d..], a, b)
  {
    var t := s[d..];
    assert SeparatorAt(s, d + b) == Some(d + e) by {
      SeparatorShift(s, d, b);
    }
    SplitCut(t, a, b, e);
    SplitCut(s, d + a, d + b, d + e);
    assert s[d + a..d + b] == t[a..b];
  }

  lemma SplitCut(s: string, start: nat, p: nat, e: nat)
    requires start <= p < |s| && SeparatorAt(s, p) == Some(e)
    ensures SplitFrom(s, start, p) == [s[start..p]] + SplitFrom(s, e, e)
  {
  }

  /** One shifted step of `SplitShift` where no separator starts */
  lemma SplitShiftPass(s: string, d: nat, a: nat, b: nat)
    requires a <= b && d + b < |s|
    requires SeparatorAt(s[d..], b).None?
    requires SplitFrom(s, d + a, d + b + 1) == SplitFrom(s[d..], a, b + 1)
    ensures SplitFrom(s, d + a, d + b) == SplitFrom(s[d..], a, b)
  {
    SeparatorShift(s, d, b);
  }

  lemma {:induction false} SplitSkip(s: string, start: nat, p: nat, q: nat)
    requires start <= p <= q <= |s|
    requires forall r | p <= r < q :: SeparatorAt(s, r).None?
    ensures SplitFrom(s, start, p) == SplitFrom(s, start, q)
    decreases q - p
  {
    if p < q {
      SplitSkip(s, start, p + 1, q);
    }
  }

  lemma NoSeparatorSuffix(t: string, d: nat)
    requires NoSeparator(t) && d <= |t|
    ensures NoSeparator(t[d..])
  {
    forall q | 0 <= q < |t[d..]|
      ensures SeparatorAt(t[d..], q).None?
    {
      SeparatorShift(t, d, q);
    }
  }

  // ---------------------------------------------------------------------------------------
  // Splitting joined names

  /** A separator match inside `x` that is followed by a comma lies wholly inside `x` */
  lemma SeparatorBeforeComma(x: string, r: string, q: nat)
    requires x != [] && !IsSpace(x[|x| - 1]) && q < |x|
    ensures SeparatorAt(x + "," + r, q).Some? ==> SeparatorAt(x, q).Some?
  {
    var s := x + "," + r;
    assert s[q] == x[q];
    if !IsSeparatorChar(x[q]) && IsSpace(x[q]) {
      var e := SkipSpace(s, q);
      assert e < |x| by {
        assert forall k | q <= k < e :: IsSpace(s[k]);
        assert !IsSpace(s[|x| - 1]);
      }
      forall k | q <= k < e
        ensures IsSpace(x[k])
      {
        assert x[k] == s[k];
      }
      SkipSpaceTo(x, q, e);
      if MatchesAt(s, e, "and") && e + 3 < |s| && IsSpace(s[e + 3]) {
        assert s[e..e + 3] == "and";
        assert s[|x|] == ',';
        assert e + 3 < |x| by {
          assert e + 3 != |x| - 1 && e + 3 != |x|;
        }
        assert x[e..e + 3] == s[e..e + 3];
        assert x[e + 3] == s[e + 3];
      }
    }
  }

  /** A separator-free piece followed by a comma splits off as one piece */
  lemma SplitLead(x: string, r: string)
    requires x != [] && !IsSpace(x[|x| - 1]) && NoSeparator(x)
    ensures SplitPieces(x + "," + r) == [x] + SplitPieces(r)
  {
    var s := x + "," + r;
    forall q | 0 <= q < |x|
      ensures SeparatorAt(s, q).None?
    {
      SeparatorBeforeComma(x, r, q);
    }
    SplitSkip(s, 0, 0, |x|);
    assert SeparatorAt(s, |x|) == Some(|x| + 1);
    assert s[0..|x|] == x;
    assert s[|x| + 1..] == r;
    SplitShift(s, |x| + 1, 0, 0);
  }

  /** A separator-free text is a single piece */
  lemma SplitWhole(x: string)
    requires NoSeparator(x)
    ensures SplitPieces(x) == [x]
  {
    SplitSkip(x, 0, 0, |x|);
  }

  /** The pieces after the first: each name with the space the join put before it */
  function Spaced(names: seq<string>): seq<string> {
    if names == [] then [] else [" " + names[0]] + Spaced(names[1..])
  }

  lemma {:induction false} SplitSpacedJoin(names: seq<string>)
    requires names != [] && forall k | 0 <= k < |names| :: IsAuthorName(names[k])
    ensures SplitPieces(" " + JoinAuthors(names)) == Spaced(names)
    decreases |names|
  {
    var n := names[0];
    if |names| == 1 {
      SplitWhole(" " + n);
    } else {
      var j := JoinAuthors(names[1..]);
      assert " " + JoinAuthors(names) == (" " + n) + "," + (" " + j);
      assert (" " + n)[|n|] == n[|n| - 1];
      SplitLead(" " + n, " " + j);
      SplitSpacedJoin(names[1..]);
    }
  }

  lemma SplitJoinOne(n: string)
    requires IsAuthorName(n)
    ensures SplitPieces(n) == [n] && NoSeparator(n)
  {
    assert (" " + n)[1..] == n;
    NoSeparatorSuffix(" " + n, 1);
    SplitWhole(n);
  }

  lemma JoinCons(names: seq<string>)
    requires |names| > 1
    ensures JoinAuthors(names) == names[0] + "," + (" " + JoinAuthors(names[1..]))
  {
  }

  lemma SplitJoin(names: seq<string>)
    requires names != [] && forall k | 0 <= k < |names| :: IsAuthorName(names[k])
    ensures SplitPieces(JoinAuthors(names)) == [names[0]] + Spaced(names[1..])
  {
    var n := names[0];
    SplitJoinOne(n);
    if |names| > 1 {
      var j := JoinAuthors(names[1..]);
      JoinCons(names);
      SplitLead(n, " " + j);
      SplitSpacedJoin(names[1..]);
    }
  }

  lemma StripTrimmed(n: string)
    requires n != [] && Trimmed(n)
    ensures Strip(n) == n && Strip(" " + n) == n
  {
    assert TrimStart(" " + n) == TrimStart(n) by {
      assert (" " + n)[1..] == n;
    }
  }

  lemma {:induction false} KeepSpaced(names: seq<string>)
    requires forall k | 0 <= k < |names| :: IsAuthorName(names[k])
    ensures KeepNames(Spaced(names)) == names
    decreases |names|
  {
    if names != [] {
      StripTrimmed(names[0]);
      KeepSpaced(names[1..]);
      assert Spaced(names) == [" " + names[0]] + Spaced(names[1..]);
      KeepCons(" " + names[0], Spaced(names[1..]));
      assert names == [names[0]] + names[1..];
    }
  }

  lemma KeepCons(p: string, rest: seq<string>)
    requires Strip(p) != ""
    ensures KeepNames([p] + rest) == [Strip(p)] + KeepNames(rest)
  {
    assert ([p] + rest)[1..] == rest;
  }

  lemma KeepJoined(names: seq<string>)
    requires names != [] && forall k | 0 <= k < |names| :: IsAuthorName(names[k])
    ensures KeepNames([names[0]] + Spaced(names[1..])) == names
  {
    StripTrimmed(names[0]);
    KeepCons(names[0], Spaced(names[1..]));
    KeepSpaced(names[1..]);
    assert names == [names[0]] + names[1..];
  }

  /** Joining clean names with ", " and splitting the result gives the names back, in order */
  lemma AuthorsRoundTrip(names: seq<string>)
    requires forall k | 0 <= k < |names| :: IsAuthorName(names[k])
    ensures SplitAuthors(JoinAuthors(names)) == names
  {
    if names != [] {
      SplitJoin(names);
      KeepJoined(names);
    }
  }

  // ---------------------------------------------------------------------------------------
  // What every split yields

  /** A separator match inside a slice is one in the whole text */
  lemma SeparatorInPrefix(t: string, b: nat, q: nat)
    requires q < b <= |t|
    ensures SeparatorAt(t[..b], q).Some? ==> SeparatorAt(t, q).Some?
  {
    var u := t[..b];
    assert u[q] == t[q];
    if !IsSeparatorChar(t[q]) && IsSpace(t[q]) {
      var e := SkipSpace(u, q);
      if MatchesAt(u, e, "and") && e + 3 < |u| && IsSpace(u[e + 3]) {
        forall k | q <= k < e
          ensures IsSpace(t[k])
        {
          assert t[k] == u[k];
        }
        assert u[e] == u[e..e + 3][0] == 'a';
        assert t[e] == u[e];
        SkipSpaceTo(t, q, e);
        assert t[e..e + 3] == u[e..e + 3];
        assert t[e + 3] == u[e + 3];
      }
    }
  }

  lemma NoSeparatorSlice(t: string, a: nat, b: nat)
    requires a <= b <= |t|
    requires forall q | a <= q < b :: SeparatorAt(t, q).None?
    ensures NoSeparator(t[a..b])
  {
    var u := t[..b];
    forall q | 0 <= q < b - a
      ensures SeparatorAt(t[a..b], q).None?
    {
      SeparatorInPrefix(t, b, a + q);
      SeparatorShift(u, a, q);
      assert u[a..] == t[a..b];
    }
  }

  lemma {:induction false} SplitFromClean(s: string, start: nat, p: nat)
    requires start <= p <= |s|
    requires forall r | start <= r < p :: SeparatorAt(s, r).None?
    ensures forall k | 0 <= k < |SplitFrom(s, start, p)| :: NoSeparator(SplitFrom(s, start, p)[k])
    decreases |s| - p
  {
    if p == |s| {
      NoSeparatorSlice(s, start, |s|);
      assert s[start..|s|] == s[start..];
    } else {
      match SeparatorAt(s, p)
      case Some(e) =>
        NoSeparatorSlice(s, start, p);
        SplitFromClean(s, e, e);
      case None =>
        SplitFromClean(s, start, p + 1);
    }
  }

  lemma StripClean(p: string)
    requires NoSeparator(p)
    ensures Trimmed(Strip(p)) && NoSeparator(Strip(p))
  {
    StripSpec(p);
    var i, j :| 0 <= i <= j <= |p| && Strip(p) == p[i..j];
    NoSeparatorSlice(p, i, j);
  }

  lemma {:induction false} KeepNamesClean(pieces: seq<string>)
    requires forall k | 0 <= k < |pieces| :: NoSeparator(pieces[k])
    ensures forall k | 0 <= k < |KeepNames(pieces)| ::
      var a := KeepNames(pieces)[k]; a != "" && Trimmed(a) && NoSeparator(a)
  {
    if pieces != [] {
      KeepNamesClean(pieces[1..]);
      StripClean(pieces[0]);
    }
  }

  /** A separator-free text contains none of the separator characters */
  lemma NoSeparatorChars(a: string)
    requires NoSeparator(a)
    ensures ',' !in a && ';' !in a && '&' !in a
  {
    forall q | 0 <= q < |a|
      ensures !IsSeparatorChar(a[q])
    {
      assert SeparatorAt(a, q).None?;
    }
  }

  /** Every name the split keeps is non-empty, trimmed, and holds no separator */
  lemma SplitAuthorsClean(line: string)
    ensures forall k | 0 <= k < |SplitAuthors(line)| ::
      var a := SplitAuthors(line)[k];
      && a != "" && Trimmed(a) && NoSeparator(a)
      && ',' !in a && ';' !in a && '&' !in a
  {
    SplitFromClean(line, 0, 0);
    KeepNamesClean(SplitPieces(line));
    forall k | 0 <= k < |SplitAuthors(line)|
      ensures ',' !in SplitAuthors(line)[k] && ';' !in SplitAuthors(line)[k] && '&' !in SplitAuthors(line)[k]
    {
      NoSeparatorChars(SplitAuthors(line)[k]);
    }
  }
}
