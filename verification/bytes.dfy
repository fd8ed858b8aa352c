/**
 Go strings are immutable byte sequences and the identifier parser indexes
 them byte by byte, so every string of the codec is a sequence of bytes here.
 This module also fixes the machine integer ranges the codec uses and the
 byte search primitives of Go's `strings` package.
 */
module Bytes {

  type byte = b: int | 0 <= b < 256

  /** A Go string. */
  type Str = seq<byte>

  type Int32 = x: int | -0x8000_0000 <= x < 0x8000_0000
  type Int64 = x: int | -0x8000_0000_0000_0000 <= x < 0x8000_0000_0000_0000

  const Plus: byte := 43   // '+'
  const Comma: byte := 44  // ','
  const Minus: byte := 45  // '-'
  const Dot: byte := 46    // '.'

  /** `strings.Index` / `strings.IndexByte` for a one-byte needle: the first position of `c`, or -1. */
  function IndexOf(s: Str, c: byte): (r: int)
    ensures r == -1 <==> c !in s
    ensures r != -1 ==> 0 <= r < |s| && s[r] == c && c !in s[..r]
    decreases |s|
  {
    if |s| == 0 then -1
    else if s[0] == c then 0
    else
      var k := IndexOf(s[1..], c);
      assert s == [s[0]] + s[1..];
      assert k != -1 ==> s[..k + 1] == [s[0]] + s[1..][..k];
      if k == -1 then -1 else k + 1
  }

  /** `strings.LastIndex` for a one-byte needle: the last position of `c`, or -1. */
  function LastIndexOf(s: Str, c: byte): (r: int)
    ensures r == -1 <==> c !in s
    ensures r != -1 ==> 0 <= r < |s| && s[r] == c && c !in s[r + 1..]
    decreases |s|
  {
    if |s| == 0 then -1
    else if s[|s| - 1] == c then |s| - 1
    else
      var k := LastIndexOf(s[..|s| - 1], c);
      assert s == s[..|s| - 1] + [s[|s| - 1]];
      assert k != -1 ==> s[k + 1..] == s[..|s| - 1][k + 1..] + [s[|s| - 1]];
      k
  }
}
