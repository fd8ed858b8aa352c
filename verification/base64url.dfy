/**
 The inline-content encoding: Go's `base64.RawURLEncoding`, i.e. the
 URL- and filename-safe alphabet of section 5 of RFC 4648 with the padding
 omitted as section 3.2 of RFC 4648 permits. Go's decoder is not strict:
 it skips carriage returns and line feeds anywhere in the input and ignores
 the unused low bits of a final partial quantum; it rejects `=` and any
 other byte outside the alphabet, and a final quantum of one character.
 */
module Base64Url {
  import opened Wrappers
  import opened Bytes

  const CR: byte := 13
  const LF: byte := 10

  /** The alphabet character for a 6-bit value: A-Z a-z 0-9 - _ */
  function Char(v: nat): (c: byte)
    requires v < 64
    ensures SextetValue(c) == Some(v)
  {
    if v < 26 then 65 + v
    else if v < 52 then 97 + (v - 26)
    else if v < 62 then 48 + (v - 52)
    else if v == 62 then 45
    else 95
  }

  /** The 6-bit value an alphabet character stands for. */
  function SextetValue(c: byte): (r: Option<nat>)
    ensures r.Some? ==> r.value < 64
  {
    if 65 <= c <= 90 then Some(c - 65)
    else if 97 <= c <= 122 then Some(c - 97 + 26)
    else if 48 <= c <= 57 then Some(c - 48 + 52)
    else if c == 45 then Some(62)
    else if c == 95 then Some(63)
    else None
  }

  predicate InAlphabet(c: byte) {
    SextetValue(c).Some?
  }

  /** The padding character, which unpadded decoding refuses. */
  const Pad: byte := 61  // '='

  /** `RawURLEncoding.EncodedLen`, as Go computes it for unpadded encodings. */
  function EncodedLen(n: nat): nat {
    n / 3 * 4 + (n % 3 * 8 + 5) / 6
  }

  /** The unpadded length is the number of 6-bit groups needed for 8n bits. */
  lemma EncodedLenClosedForm(n: nat)
    ensures EncodedLen(n) == (8 * n + 5) / 6
  {
    var q, r := n / 3, n % 3;
    assert n == 3 * q + r;
    assert 8 * n + 5 == 6 * (4 * q) + (8 * r + 5);
  }

  /**
   `RawURLEncoding.EncodeToString`: three bytes to four characters, then a
   2- or 3-character tail (see `EncodePadBitsZero` for its low bits).
   */
  function Encode(b: seq<byte>): (r: Str)
    ensures |r| == EncodedLen(|b|)
    ensures forall i | 0 <= i < |r| :: InAlphabet(r[i])
    decreases |b|
  {
    if |b| >= 3 then
      [Char(b[0] / 4), Char(b[0] % 4 * 16 + b[1] / 16), Char(b[1] % 16 * 4 + b[2] / 64), Char(b[2] % 64)]
        + Encode(b[3..])
    else if |b| == 2 then
      [Char(b[0] / 4), Char(b[0] % 4 * 16 + b[1] / 16), Char(b[1] % 16 * 4)]
    else if |b| == 1 then
      [Char(b[0] / 4), Char(b[0] % 4 * 16)]
    else []
  }

  /**
   The unused low bits of the last character of a partial quantum are zero,
   as section 3.5 of RFC 4648 requires of an encoder. With `DecodeEncode`
   this fixes every character of the encoding.
   */
  lemma {:induction false} EncodePadBitsZero(b: seq<byte>)
    ensures var r := Encode(b);
      && (|b| % 3 == 1 ==> |r| > 0 && SextetValue(r[|r| - 1]).Some? && SextetValue(r[|r| - 1]).value % 16 == 0)
      && (|b| % 3 == 2 ==> |r| > 0 && SextetValue(r[|r| - 1]).Some? && SextetValue(r[|r| - 1]).value % 4 == 0)
    decreases |b|
  {
    if |b| >= 3 {
      var rest := b[3..];
      assert |rest| % 3 == |b| % 3;
      EncodePadBitsZero(rest);
      if |b| % 3 != 0 {
        EncodeLastOfTail(b);
      }
    } else if |b| == 2 {
      assert b == [b[0], b[1]];
      EncodeTwoByteLast(b[0], b[1]);
    } else if |b| == 1 {
      assert b == [b[0]];
      EncodeOneByteLast(b[0]);
    }
  }

  /** Past the first quantum, the last character is the one the rest ends in. */
  lemma EncodeLastOfTail(b: seq<byte>)
    requires |b| > 3
    ensures var r, t := Encode(b), Encode(b[3..]);
      |t| > 0 && |r| > 0 && r[|r| - 1] == t[|t| - 1]
  {
    var head := [Char(b[0] / 4), Char(b[0] % 4 * 16 + b[1] / 16), Char(b[1] % 16 * 4 + b[2] / 64), Char(b[2] % 64)];
    var t := Encode(b[3..]);
    assert Encode(b) == head + t;
  }

  lemma EncodeTwoByteLast(b0: byte, b1: byte)
    ensures var r := Encode([b0, b1]);
      |r| == 3 && SextetValue(r[2]).Some? && SextetValue(r[2]).value % 4 == 0
  {
    var v := b1 % 16 * 4;
    assert Encode([b0, b1])[2] == Char(v);
    assert v % 4 == 0;
  }

  lemma EncodeOneByteLast(b0: byte)
    ensures var r := Encode([b0]);
      |r| == 2 && SextetValue(r[1]).Some? && SextetValue(r[1]).value % 16 == 0
  {
    var v := b0 % 4 * 16;
    assert Encode([b0])[1] == Char(v);
    assert v % 16 == 0;
  }

  /** The input with every CR and LF removed, which Go's decoder skips. */
  function RemoveNewlines(s: Str): (r: Str)
    ensures CR !in r && LF !in r
    ensures (forall i | 0 <= i < |s| :: s[i] != CR && s[i] != LF) ==> r == s
    decreases |s|
  {
    if |s| == 0 then []
    else if s[0] == CR || s[0] == LF then RemoveNewlines(s[1..])
    else [s[0]] + RemoveNewlines(s[1..])
  }

  /** Newline removal works piece by piece: it commutes with concatenation. */
  lemma {:induction false} RemoveNewlinesAppend(a: Str, b: Str)
    ensures RemoveNewlines(a + b) == RemoveNewlines(a) + RemoveNewlines(b)
    decreases |a|
  {
    if |a| == 0 {
      assert a + b == b;
    } else {
      assert (a + b)[1..] == a[1..] + b;
      RemoveNewlinesAppend(a[1..], b);
    }
  }

  /**
   On one byte, newline removal drops exactly CR and LF and keeps every
   other byte; with `RemoveNewlinesAppend` this fixes the result on every
   input: the other bytes survive, in order.
   */
  lemma RemoveNewlinesSingle(c: byte)
    ensures RemoveNewlines([c]) == if c == CR || c == LF then [] else [c]
  {
    assert [c][1..] == [];
  }

  /** Decodes newline-free text: four characters to three bytes, a 2- or 3-character tail to 1 or 2 bytes. */
  function DecodeQuanta(t: Str): (r: Option<seq<byte>>)
    ensures r.Some? <==> |t| % 4 != 1 && forall i | 0 <= i < |t| :: InAlphabet(t[i])
    ensures r.Some? ==> |r.value| == |t| * 6 / 8
    decreases |t|
  {
    if |t| == 0 then Some([])
    else if |t| == 1 then None
    else
      var v0, v1 := SextetValue(t[0]), SextetValue(t[1]);
      var v2 := if |t| >= 3 then SextetValue(t[2]) else Some(0);
      var v3 := if |t| >= 4 then SextetValue(t[3]) else Some(0);
      if v0.None? || v1.None? || v2.None? || v3.None? then
        assert !InAlphabet(t[0]) || !InAlphabet(t[1]) || !InAlphabet(t[2]) || !InAlphabet(t[3]);
        None
      else
        var b0: byte := v0.value * 4 + v1.value / 16;
        var b1: byte := v1.value % 16 * 16 + v2.value / 4;
        var b2: byte := v2.value % 4 * 64 + v3.value;
        if |t| == 2 then Some([b0])
        else if |t| == 3 then Some([b0, b1])
        else
          var rest := DecodeQuanta(t[4..]);
          assert forall i | 4 <= i < |t| :: t[4..][i - 4] == t[i];
          if rest.None? then None else Some([b0, b1, b2] + rest.value)
  }

  /** `RawURLEncoding.DecodeString`, with every error collapsed to None. */
  function DecodeString(s: Str): (r: Option<seq<byte>>)
    ensures var t := RemoveNewlines(s);
      && (r.Some? <==> |t| % 4 != 1 && forall i | 0 <= i < |t| :: InAlphabet(t[i]))
      && (r.Some? ==> |r.value| == |t| * 6 / 8)
  {
    DecodeQuanta(RemoveNewlines(s))
  }

  lemma QuantumRoundTrip(b0: byte, b1: byte, b2: byte)
    ensures (b0 / 4) * 4 + (b0 % 4 * 16 + b1 / 16) / 16 == b0
    ensures (b0 % 4 * 16 + b1 / 16) % 16 * 16 + (b1 % 16 * 4 + b2 / 64) / 4 == b1
    ensures (b1 % 16 * 4 + b2 / 64) % 4 * 64 + b2 % 64 == b2
  {
  }

  lemma {:induction false} DecodeQuantaEncode(b: seq<byte>)
    ensures DecodeQuanta(Encode(b)) == Some(b)
    decreases |b|
  {
    var e := Encode(b);
    if |b| >= 3 {
      DecodeQuantaEncode(b[3..]);
      DecodeFullQuantum(b[0], b[1], b[2], Encode(b[3..]));
      assert [b[0], b[1], b[2]] + b[3..] == b;
    } else if |b| == 2 {
      DecodeTwoByteTail(b[0], b[1]);
      assert [b[0], b[1]] == b;
    } else if |b| == 1 {
      DecodeOneByteTail(b[0]);
      assert [b[0]] == b;
    }
  }

  /** Four characters in front of decodable text decode to the three bytes they encode. */
  lemma DecodeFullQuantum(b0: byte, b1: byte, b2: byte, t: Str)
    requires DecodeQuanta(t).Some?
    ensures DecodeQuanta([Char(b0 / 4), Char(b0 % 4 * 16 + b1 / 16), Char(b1 % 16 * 4 + b2 / 64), Char(b2 % 64)] + t)
      == Some([b0, b1, b2] + DecodeQuanta(t).value)
  {
    QuantumRoundTrip(b0, b1, b2);
    var q := [Char(b0 / 4), Char(b0 % 4 * 16 + b1 / 16), Char(b1 % 16 * 4 + b2 / 64), Char(b2 % 64)] + t;
    assert q[4..] == t;
  }

  lemma DecodeTwoByteTail(b0: byte, b1: byte)
    ensures DecodeQuanta([Char(b0 / 4), Char(b0 % 4 * 16 + b1 / 16), Char(b1 % 16 * 4)]) == Some([b0, b1])
  {
    QuantumRoundTrip(b0, b1, 0);
  }

  lemma DecodeOneByteTail(b0: byte)
    ensures DecodeQuanta([Char(b0 / 4), Char(b0 % 4 * 16)]) == Some([b0])
  {
    QuantumRoundTrip(b0, 0, 0);
  }

  /** Decoding undoes encoding for every byte sequence. */
  lemma DecodeEncode(b: seq<byte>)
    ensures DecodeString(Encode(b)) == Some(b)
  {
    var e := Encode(b);
    assert RemoveNewlines(e) == e;
    DecodeQuantaEncode(b);
  }

  /** A padding character anywhere makes decoding fail. */
  lemma PaddingRejected(s: Str)
    requires Pad in s
    ensures DecodeString(s).None?
  {
    var t := RemoveNewlines(s);
    PadSurvivesNewlineRemoval(s);
    var i :| 0 <= i < |t| && t[i] == Pad;
    assert !InAlphabet(t[i]);
  }

  lemma {:induction false} PadSurvivesNewlineRemoval(s: Str)
    requires Pad in s
    ensures Pad in RemoveNewlines(s)
    decreases |s|
  {
    if s[0] != Pad {
      assert Pad in s[1..];
      PadSurvivesNewlineRemoval(s[1..]);
    }
  }
}
