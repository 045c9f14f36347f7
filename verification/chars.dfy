/** Character classes and small scanners over `string` shared by the front-matter pipeline.
    The classes are those of Python 3 `str` patterns: `\s` and `str.strip()` use `str.isspace()`. */
module Chars {

  /** Python's `str.isspace()`: bidirectional class WS, B or S, or general category Zs.
      This is also the set that `\s` matches in a `str` pattern. */
  predicate IsSpace(c: char) {
    var n := c as int;
    || n == 0x20 || 0x09 <= n <= 0x0D || 0x1C <= n <= 0x1F
    || n == 0x85 || n == 0xA0 || n == 0x1680 || 0x2000 <= n <= 0x200A
    || n == 0x2028 || n == 0x2029 || n == 0x202F || n == 0x205F || n == 0x3000
  }

  predicate IsAscii(c: char) {
    (c as int) < 128
  }

  predicate AllAscii(s: string) {
    forall i | 0 <= i < |s| :: IsAscii(s[i])
  }

  /** `\d` restricted to ASCII (the date patterns only ever see ASCII text) */
  predicate IsDigit(c: char) {
    '0' <= c <= '9'
  }

  /** `[A-Za-z]` */
  predicate IsLetter(c: char) {
    'A' <= c <= 'Z' || 'a' <= c <= 'z'
  }

  /** `\w` restricted to ASCII */
  predicate IsWordChar(c: char) {
    IsLetter(c) || IsDigit(c) || c == '_'
  }

  /** `str.lower()` on ASCII text */
  function ToLower(c: char): char {
    if 'A' <= c <= 'Z' then (c as int + 32) as char else c
  }

  function Lower(s: string): (r: string)
    ensures |r| == |s|
  {
    seq(|s|, i requires 0 <= i < |s| => ToLower(s[i]))
  }

  predicate NoChar(s: string, c: char) {
    forall i | 0 <= i < |s| :: s[i] != c
  }

  /** `lit` occurs in `s` starting at position `i` */
  predicate MatchesAt(s: string, i: nat, lit: string) {
    i + |lit| <= |s| && s[i..i + |lit|] == lit
  }

  /** Python's `sub in s` */
  predicate Contains(s: string, sub: string) {
    exists i | 0 <= i <= |s| :: MatchesAt(s, i, sub)
  }

  /** `n` ASCII digits start at position `i` */
  predicate DigitsAt(s: string, i: nat, n: nat) {
    i + n <= |s| && forall k | i <= k < i + n :: IsDigit(s[k])
  }

  /** Position `i` is where `^` matches in multi-line mode */
  predicate AtLineStart(s: string, i: nat) {
    i == 0 || (i <= |s| && s[i - 1] == '\n')
  }

  /** End of the (possibly empty) run of whitespace starting at `i`: the greedy `\s*` */
  function SkipSpace(s: string, i: nat): (j: nat)
    requires i <= |s|
    ensures i <= j <= |s|
    ensures forall k | i <= k < j :: IsSpace(s[k])
    ensures j < |s| ==> !IsSpace(s[j])
    decreases |s| - i
  {
    if i < |s| && IsSpace(s[i]) then SkipSpace(s, i + 1) else i
  }

  /** End of the (possibly empty) run of ASCII letters starting at `i`: the greedy `[A-Za-z]*` */
  function SkipLetters(s: string, i: nat): (j: nat)
    requires i <= |s|
    ensures i <= j <= |s|
    ensures forall k | i <= k < j :: IsLetter(s[k])
    ensures j < |s| ==> !IsLetter(s[j])
    decreases |s| - i
  {
    if i < |s| && IsLetter(s[i]) then SkipLetters(s, i + 1) else i
  }

  /** The whitespace run from `i` ends at `j` */
  lemma SkipSpaceTo(s: string, i: nat, j: nat)
    requires i <= j <= |s|
    requires forall k | i <= k < j :: IsSpace(s[k])
    requires j < |s| ==> !IsSpace(s[j])
    ensures SkipSpace(s, i) == j
  {
  }

  /** The letter run from `i` ends at `j` */
  lemma SkipLettersTo(s: string, i: nat, j: nat)
    requires i <= j <= |s|
    requires forall k | i <= k < j :: IsLetter(s[k])
    requires j < |s| ==> !IsLetter(s[j])
    ensures SkipLetters(s, i) == j
  {
  }

  /** `str.lstrip()` */
  function TrimStart(s: string): (r: string)
    ensures |r| <= |s| && r == s[|s| - |r|..]
    ensures r == [] || !IsSpace(r[0])
    ensures forall k | 0 <= k < |s| - |r| :: IsSpace(s[k])
  {
    if |s| > 0 && IsSpace(s[0]) then TrimStart(s[1..]) else s
  }

  /** `str.rstrip()` */
  function TrimEnd(s: string): (r: string)
    ensures |r| <= |s| && r == s[..|r|]
    ensures r == [] || !IsSpace(r[|r| - 1])
    ensures forall k | |r| <= k < |s| :: IsSpace(s[k])
  {
    if |s| > 0 && IsSpace(s[|s| - 1]) then TrimEnd(s[..|s| - 1]) else s
  }

  /** `str.strip()` */
  function Strip(s: string): string {
    TrimEnd(TrimStart(s))
  }

  /** Neither end of `s` is whitespace: what `str.strip()` guarantees */
  predicate Trimmed(s: string) {
    s == [] || (!IsSpace(s[0]) && !IsSpace(s[|s| - 1]))
  }

  /** `Strip` removes exactly a whitespace prefix and a whitespace suffix, and is then the identity */
  lemma StripSpec(s: string)
    ensures Trimmed(Strip(s))
    ensures exists i, j | 0 <= i <= j <= |s| ::
              && Strip(s) == s[i..j]
              && (forall k | 0 <= k < i :: IsSpace(s[k]))
              && (forall k | j <= k < |s| :: IsSpace(s[k]))
    ensures Trimmed(s) ==> Strip(s) == s
  {
    var t := TrimStart(s);
    var r := TrimEnd(t);
    var i := |s| - |t|;
    assert r == s[i..i + |r|];
    if r != [] {
      assert r[0] == t[0];
    }
    if Trimmed(s) && s != [] {
      assert t == s;
      assert r == t;
    }
  }

  lemma ContainsConcat(a: string, sub: string, b: string)
    ensures Contains(a + sub + b, sub)
  {
    assert MatchesAt(a + sub + b, |a|, sub) by {
      assert (a + sub + b)[|a|..|a| + |sub|] == sub;
    }
  }

  lemma ContainsTransitive(s: string, t: string, u: string)
    requires Contains(s, t) && Contains(t, u)
    ensures Contains(s, u)
  {
    var i :| 0 <= i <= |s| && MatchesAt(s, i, t);
    var j :| 0 <= j <= |t| && MatchesAt(t, j, u);
    forall k | 0 <= k < |u|
      ensures s[i + j + k] == u[k]
    {
      assert s[i + j + k] == s[i..i + |t|][j + k];
    }
    assert s[i + j..i + j + |u|] == u;
    assert MatchesAt(s, i + j, u);
  }
}
