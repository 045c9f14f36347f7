/** The leftmost-match driver that stands for Python's `re.search`, `re.match` and `str.find`.
    A pattern is a matcher: given a string and a start position it either fails or returns
    what the match captures. */
module Scan {
  import opened Options

  type Matcher<T> = (string, nat) -> Option<T>

  /** Tries every start position from `i` to the end of the string (inclusive), in order,
      and returns the first attempt that succeeds. Later occurrences are never retried. */
  function Search<T>(s: string, i: nat, m: Matcher<T>): (r: Option<T>)
    ensures r.Some? ==> exists p | i <= p <= |s| :: m(s, p) == r && forall q | i <= q < p :: m(s, q).None?
    ensures r.None? <==> forall q | i <= q <= |s| :: m(s, q).None?
    decreases |s| + 1 - i
  {
    if i > |s| then None
    else if m(s, i).Some? then m(s, i)
    else Search(s, i + 1, m)
  }

  /** A match at `p` with no match before it is the one `Search` reports */
  lemma SearchFinds<T>(s: string, i: nat, m: Matcher<T>, p: nat)
    requires i <= p <= |s| && m(s, p).Some?
    requires forall q | i <= q < p :: m(s, q).None?
    ensures Search(s, i, m) == m(s, p)
  {
  }

  /** With no match at any position, `Search` fails */
  lemma SearchFails<T>(s: string, i: nat, m: Matcher<T>)
    requires forall q | i <= q <= |s| :: m(s, q).None?
    ensures Search(s, i, m).None?
  {
  }
}
