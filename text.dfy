/**
 * Strings as UTF-16 code units: ASCII literals, and the ordinal
 * case-insensitive comparison the proxy applies to user names, with case
 * folded over the ASCII letters.
 */
module Text {
  import opened Wire

  /** An ASCII literal as UTF-16 code units. */
  function Ascii(s: string): (r: Utf16)
    requires forall i :: 0 <= i < |s| ==> s[i] as int < 0x80
    ensures |r| == |s|
  {
    seq(|s|, i requires 0 <= i < |s| => s[i] as int)
  }

  /** The upper-case form of a code unit: the ASCII letters a-z map to A-Z. */
  function Upper(c: u16): u16
  {
    if 'a' as int <= c <= 'z' as int then c - 0x20 else c
  }

  /**
   * string.Equals(a, b, StringComparison.OrdinalIgnoreCase): same length,
   * same code units after folding. Only the ASCII letters are folded, so
   * this agrees with the ordinal comparison only when one side is ASCII,
   * as the literals "sa" and "baduser" it is used with are; a non-ASCII
   * letter and its other case compare unequal here.
   */
  predicate EqualsIgnoreCase(a: Utf16, b: Utf16)
  {
    |a| == |b| && forall i :: 0 <= i < |a| ==> Upper(a[i]) == Upper(b[i])
  }

  /**
   * Folding only ever merges a letter with its other case: two code units
   * compare equal exactly when they are equal or are the two cases of one
   * ASCII letter.
   */
  lemma UpperMerges(a: u16, b: u16)
    ensures Upper(a) == Upper(b) <==>
      a == b || ('a' as int <= a <= 'z' as int && b == a - 0x20) || ('a' as int <= b <= 'z' as int && a == b - 0x20)
  {
  }

  /** The comparison is an equivalence. */
  lemma EqualsIgnoreCaseEquivalence(a: Utf16, b: Utf16, c: Utf16)
    ensures EqualsIgnoreCase(a, a)
    ensures EqualsIgnoreCase(a, b) ==> EqualsIgnoreCase(b, a)
    ensures EqualsIgnoreCase(a, b) && EqualsIgnoreCase(b, c) ==> EqualsIgnoreCase(a, c)
  {
  }
}
