/**
 Well-formed UTF-8 as defined by the byte-sequence table of section 4 of
 RFC 3629, which is what Go's `utf8.Valid` accepts: no overlong forms, no
 surrogates (U+D800..U+DFFF), nothing above U+10FFFF.
 */
module Utf8 {
  import opened Bytes

  predicate IsTail(b: byte) {
    0x80 <= b <= 0xBF
  }

  /** Whether `s` is a concatenation of well-formed UTF-8 sequences. */
  predicate Valid(s: Str)
    ensures Valid(s) && |s| > 0 ==> s[0] < 0x80 || 0xC2 <= s[0] <= 0xF4
    decreases |s|
  {
    if |s| == 0 then true
    else
      var b := s[0];
      if b < 0x80 then Valid(s[1..])
      else if 0xC2 <= b <= 0xDF then
        |s| >= 2 && IsTail(s[1]) && Valid(s[2..])
      else if b == 0xE0 then
        |s| >= 3 && 0xA0 <= s[1] <= 0xBF && IsTail(s[2]) && Valid(s[3..])
      else if 0xE1 <= b <= 0xEC || 0xEE <= b <= 0xEF then
        |s| >= 3 && IsTail(s[1]) && IsTail(s[2]) && Valid(s[3..])
      else if b == 0xED then
        |s| >= 3 && 0x80 <= s[1] <= 0x9F && IsTail(s[2]) && Valid(s[3..])
      else if b == 0xF0 then
        |s| >= 4 && 0x90 <= s[1] <= 0xBF && IsTail(s[2]) && IsTail(s[3]) && Valid(s[4..])
      else if 0xF1 <= b <= 0xF3 then
        |s| >= 4 && IsTail(s[1]) && IsTail(s[2]) && IsTail(s[3]) && Valid(s[4..])
      else if b == 0xF4 then
        |s| >= 4 && 0x80 <= s[1] <= 0x8F && IsTail(s[2]) && IsTail(s[3]) && Valid(s[4..])
      else false
  }

  /** Pure ASCII is well-formed UTF-8. */
  lemma {:induction false} AsciiIsValid(s: Str)
    requires forall i | 0 <= i < |s| :: s[i] < 0x80
    ensures Valid(s)
    decreases |s|
  {
    if |s| > 0 {
      AsciiIsValid(s[1..]);
    }
  }

  /** Well-formed sequences concatenate to a well-formed sequence. */
  lemma {:induction false} ValidAppend(a: Str, b: Str)
    requires Valid(a) && Valid(b)
    ensures Valid(a + b)
    decreases |a|
  {
    if |a| > 0 {
      var n := LeadLength(a[0]);
      assert (a + b)[n..] == a[n..] + b;
      ValidAppend(a[n..], b);
    } else {
      assert a + b == b;
    }
  }

  /** The length of the sequence a valid lead byte starts. */
  function LeadLength(b: byte): (n: nat)
    ensures 1 <= n <= 4
  {
    if b < 0x80 then 1 else if b <= 0xDF then 2 else if b <= 0xEF then 3 else 4
  }

  /** A lone continuation byte, or a lead byte with its tail cut off, is not. */
  lemma BrokenSequencesInvalid(b: byte)
    ensures IsTail(b) ==> !Valid([b])
    ensures 0xC2 <= b <= 0xF4 ==> !Valid([b])
  {
  }
}
