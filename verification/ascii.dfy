/** ASCII case folding as Rust's `eq_ignore_ascii_case` performs it on the
    UTF-8 bytes of two strings: only the letters 'A'..'Z' and 'a'..'z' fold
    onto each other, and every other byte (digits, punctuation, every byte of
    a multi-byte UTF-8 sequence) has to match exactly.
 */
module Ascii {
  import opened Model

  /** 'A' (0x41) .. 'Z' (0x5A) */
  predicate IsAsciiUpper(b: byte) {
    0x41 <= b <= 0x5A
  }

  /** 'a' (0x61) .. 'z' (0x7A) */
  predicate IsAsciiLower(b: byte) {
    0x61 <= b <= 0x7A
  }

  predicate IsAsciiAlphabetic(b: byte) {
    IsAsciiUpper(b) || IsAsciiLower(b)
  }

  /** `u8::to_ascii_lowercase`. */
  function ToAsciiLowercase(b: byte): (r: byte)
    ensures !IsAsciiUpper(r)
    ensures IsAsciiUpper(b) ==> r as int == b as int + 0x20
    ensures IsAsciiAlphabetic(r) <==> IsAsciiAlphabetic(b)
    ensures !IsAsciiAlphabetic(b) ==> r == b
    ensures IsAsciiLower(b) ==> r == b
  {
    if IsAsciiUpper(b) then b + 0x20 else b
  }

  /** Two equal-length byte strings agree position by position after folding. */
  function FoldedEqual(a: Bytes, b: Bytes): (r: bool)
    requires |a| == |b|
    ensures r <==> forall i :: 0 <= i < |a| ==> ToAsciiLowercase(a[i]) == ToAsciiLowercase(b[i])
    decreases |a|
  {
    |a| == 0 || (ToAsciiLowercase(a[0]) == ToAsciiLowercase(b[0]) && FoldedEqual(a[1..], b[1..]))
  }

  /** `str::eq_ignore_ascii_case`: equal lengths, then byte-wise equality
      after folding. */
  function EqIgnoreAsciiCase(a: Bytes, b: Bytes): (r: bool)
    ensures r <==> |a| == |b| && forall i :: 0 <= i < |a| ==> ToAsciiLowercase(a[i]) == ToAsciiLowercase(b[i])
  {
    |a| == |b| && FoldedEqual(a, b)
  }

  /** The lower-case form of a whole byte string (reference definition). */
  function FoldCase(s: Bytes): (r: Bytes)
    ensures |r| == |s|
  {
    seq(|s|, i requires 0 <= i < |s| => ToAsciiLowercase(s[i]))
  }

  /** Case-insensitive equality is exactly equality of the folded forms. */
  lemma EqIgnoreAsciiCaseIffFoldCase(a: Bytes, b: Bytes)
    ensures EqIgnoreAsciiCase(a, b) <==> FoldCase(a) == FoldCase(b)
  {
    if FoldCase(a) == FoldCase(b) {
      forall i | 0 <= i < |a|
        ensures ToAsciiLowercase(a[i]) == ToAsciiLowercase(b[i])
      {
        assert FoldCase(a)[i] == FoldCase(b)[i];
      }
    }
  }

  /** The matching relation is an equivalence, so "the entries matching a
      name" is a well-defined class of names. */
  lemma EqIgnoreAsciiCaseIsEquivalence(a: Bytes, b: Bytes, c: Bytes)
    ensures EqIgnoreAsciiCase(a, a)
    ensures EqIgnoreAsciiCase(a, b) ==> EqIgnoreAsciiCase(b, a)
    ensures EqIgnoreAsciiCase(a, b) && EqIgnoreAsciiCase(b, c) ==> EqIgnoreAsciiCase(a, c)
  {
  }

  /** A byte that is not an ASCII letter only matches itself. */
  lemma NonLettersMatchExactly(a: Bytes, b: Bytes, i: int)
    requires EqIgnoreAsciiCase(a, b)
    requires 0 <= i < |a|
    requires !IsAsciiAlphabetic(a[i])
    ensures b[i] == a[i]
  {
  }

  /** An ASCII letter matches exactly its own upper- and lower-case forms. */
  lemma LettersMatchUpToCase(a: Bytes, b: Bytes, i: int)
    requires EqIgnoreAsciiCase(a, b)
    requires 0 <= i < |a|
    requires IsAsciiAlphabetic(a[i])
    ensures IsAsciiUpper(a[i]) ==> b[i] == a[i] || b[i] as int == a[i] as int + 0x20
    ensures IsAsciiLower(a[i]) ==> b[i] == a[i] || b[i] as int == a[i] as int - 0x20
  {
  }

  /** A query "GitHub" finds an entry stored as "github"; "GitHub!" does not. */
  lemma GitHubMatchesLowercase()
    ensures EqIgnoreAsciiCase(AsciiBytes("GitHub"), AsciiBytes("github"))
    ensures !EqIgnoreAsciiCase(AsciiBytes("GitHub"), AsciiBytes("GitHub!"))
  {
  }
}
