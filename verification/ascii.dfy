/** `clean_to_ascii`: map the known non-ASCII punctuation to ASCII, then drop every other
    character whose code point is 128 or above. */
module Ascii {
  import opened Chars

  /** Dash variants: en dash, em dash, hyphen, non-breaking hyphen, figure dash, horizontal bar */
  predicate IsDashVariant(c: char) {
    (c as int) in {0x2013, 0x2014, 0x2010, 0x2011, 0x2012, 0x2015}
  }

  /** Soft hyphen and zero-width space */
  predicate IsInvisible(c: char) {
    (c as int) in {0x00AD, 0x200B}
  }

  /** No-break, en, em, thin, hair, narrow no-break, medium mathematical and ideographic spaces */
  predicate IsSpaceVariant(c: char) {
    (c as int) in {0x00A0, 0x2002, 0x2003, 0x2009, 0x200A, 0x202F, 0x205F, 0x3000}
  }

  /** The replacement table; every character outside it maps to itself.
      Each key is a single non-ASCII character and each value is ASCII, so `clean_to_ascii`'s
      sequence of `str.replace` calls is the same as mapping every character once. */
  function Replacement(c: char): string {
    if IsDashVariant(c) then "-"
    else if IsInvisible(c) then ""
    else if IsSpaceVariant(c) then " "
    else [c]
  }

  function ReplacePunctuation(s: string): (r: string)
    ensures AllAscii(s) ==> r == s
  {
    if s == [] then [] else Replacement(s[0]) + ReplacePunctuation(s[1..])
  }

  /** The final filter `ord(char) < 128` */
  function DropNonAscii(s: string): (r: string)
    ensures AllAscii(r)
    ensures |r| <= |s|
    ensures AllAscii(s) ==> r == s
  {
    if s == [] then []
    else if IsAscii(s[0]) then [s[0]] + DropNonAscii(s[1..])
    else DropNonAscii(s[1..])
  }

  /** `clean_to_ascii`: only code points below 128 survive, and ASCII text is left alone */
  function CleanToAscii(s: string): (r: string)
    ensures AllAscii(r)
    ensures AllAscii(s) ==> r == s
  {
    DropNonAscii(ReplacePunctuation(s))
  }

  lemma {:induction false} ReplaceConcat(a: string, b: string)
    ensures ReplacePunctuation(a + b) == ReplacePunctuation(a) + ReplacePunctuation(b)
  {
    if a != [] {
      assert (a + b)[1..] == a[1..] + b;
      ReplaceConcat(a[1..], b);
    } else {
      assert a + b == b;
    }
  }

  lemma {:induction false} DropConcat(a: string, b: string)
    ensures DropNonAscii(a + b) == DropNonAscii(a) + DropNonAscii(b)
  {
    if a != [] {
      assert (a + b)[1..] == a[1..] + b;
      DropConcat(a[1..], b);
    } else {
      assert a + b == b;
    }
  }

  /** Cleaning works character by character: it distributes over concatenation ... */
  lemma CleanConcat(a: string, b: string)
    ensures CleanToAscii(a + b) == CleanToAscii(a) + CleanToAscii(b)
  {
    ReplaceConcat(a, b);
    DropConcat(ReplacePunctuation(a), ReplacePunctuation(b));
  }

  /** ... and on one character it is this table: ASCII is kept, the dash and space variants
      become '-' and ' ', everything else disappears */
  lemma CleanChar(c: char)
    ensures CleanToAscii([c]) ==
      if IsAscii(c) then [c]
      else if IsDashVariant(c) then "-"
      else if IsSpaceVariant(c) then " "
      else ""
  {
    assert ReplacePunctuation([c]) == Replacement(c) + ReplacePunctuation([]);
    if !IsAscii(c) && !IsDashVariant(c) && !IsSpaceVariant(c) && !IsInvisible(c) {
      assert DropNonAscii([c]) == DropNonAscii([]);
    }
  }

  /** Cleaning twice is cleaning once */
  lemma CleanIdempotent(s: string)
    ensures CleanToAscii(CleanToAscii(s)) == CleanToAscii(s)
  {
  }
}
