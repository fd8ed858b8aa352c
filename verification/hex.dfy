/**
 Base16 as Go's `encoding/hex` implements it (section 8 of RFC 4648):
 encoding emits lower-case digits, decoding accepts either case and fails
 on an odd length or on any byte that is not a hexadecimal digit.
 */
module Hex {
  import opened Wrappers
  import opened Bytes

  /** The lower-case digit for a nibble. */
  function LowerDigit(v: nat): (c: byte)
    requires v < 16
    ensures IsLowerDigit(c)
  {
    if v < 10 then 48 + v else 87 + v
  }

  predicate IsLowerDigit(c: byte) {
    48 <= c <= 57 || 97 <= c <= 102
  }

  /** The nibble a digit of either case stands for. */
  function DigitValue(c: byte): (r: Option<nat>)
    ensures r.Some? ==> r.value < 16
  {
    if 48 <= c <= 57 then Some(c - 48)        // '0'..'9'
    else if 97 <= c <= 102 then Some(c - 87)  // 'a'..'f'
    else if 65 <= c <= 70 then Some(c - 55)   // 'A'..'F'
    else None
  }

  predicate IsDigit(c: byte) {
    DigitValue(c).Some?
  }

  /** `hex.EncodeToString`: two lower-case digits per byte, high nibble first. */
  function Encode(k: seq<byte>): (r: Str)
    ensures |r| == 2 * |k|
    ensures forall i | 0 <= i < |r| :: IsLowerDigit(r[i])
    decreases |k|
  {
    if |k| == 0 then [] else [LowerDigit(k[0] / 16), LowerDigit(k[0] % 16)] + Encode(k[1..])
  }

  /** `hex.DecodeString`, with every error collapsed to None. */
  function Decode(s: Str): (r: Option<seq<byte>>)
    ensures r.Some? <==> |s| % 2 == 0 && forall i | 0 <= i < |s| :: IsDigit(s[i])
    ensures r.Some? ==> 2 * |r.value| == |s|
    decreases |s|
  {
    if |s| == 0 then Some([])
    else if |s| == 1 then None
    else
      var rest := Decode(s[2..]);
      assert forall i | 2 <= i < |s| :: s[2..][i - 2] == s[i];
      match (DigitValue(s[0]), DigitValue(s[1]), rest)
      case (Some(hi), Some(lo), Some(tail)) => Some([hi * 16 + lo] + tail)
      case _ => None
  }

  /** Encoded keys decode back to the same bytes. */
  lemma {:induction false} DecodeEncode(k: seq<byte>)
    ensures Decode(Encode(k)) == Some(k)
    decreases |k|
  {
    if |k| > 0 {
      var e := Encode(k);
      assert e[2..] == Encode(k[1..]);
      DecodeEncode(k[1..]);
      assert [k[0] / 16 * 16 + k[0] % 16] + k[1..] == k;
    }
  }

  /** Upper-cases the letters of an ASCII string. */
  function ToUpper(s: Str): (r: Str)
    ensures |r| == |s|
    ensures forall i | 0 <= i < |s| :: r[i] == (if 97 <= s[i] <= 122 then s[i] - 32 else s[i])
  {
    seq(|s|, i requires 0 <= i < |s| => if 97 <= s[i] <= 122 then s[i] - 32 else s[i])
  }

  /** Decoding does not depend on the case of the digits. */
  lemma {:induction false} DecodeIgnoresCase(s: Str)
    ensures Decode(ToUpper(s)) == Decode(s)
    decreases |s|
  {
    var u := ToUpper(s);
    if |s| >= 2 {
      assert u[2..] == ToUpper(s[2..]);
      DecodeIgnoresCase(s[2..]);
      assert DigitValue(u[0]) == DigitValue(s[0]);
      assert DigitValue(u[1]) == DigitValue(s[1]);
    }
  }

  /** Hence a key written with upper-case digits decodes to the same key. */
  lemma UpperCaseKeyDecodes(k: seq<byte>)
    ensures Decode(ToUpper(Encode(k))) == Some(k)
  {
    DecodeIgnoresCase(Encode(k));
    DecodeEncode(k);
  }
}
