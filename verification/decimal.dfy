/**
 Decimal integers as the codec reads and writes them: `fmt`'s `%v` of an
 int32/int64 when rendering, and `strconv.ParseInt(s, 10, 64)` /
 `strconv.Atoi` when parsing (on a 64-bit platform `Atoi` accepts exactly
 what `ParseInt(s, 10, 64)` accepts), plus Go's truncating `int32(i)`
 conversion.
 */
module Decimal {
  import opened Wrappers
  import opened Bytes

  const Zero: byte := 48  // '0'

  predicate IsDigit(b: byte) {
    Zero <= b <= Zero + 9
  }

  predicate AllDigits(s: Str) {
    forall i | 0 <= i < |s| :: IsDigit(s[i])
  }

  /** The value of a digit string, most significant digit first. */
  function DigitsValue(ds: Str): nat
    requires AllDigits(ds)
    decreases |ds|
  {
    if |ds| == 0 then 0 else DigitsValue(ds[..|ds| - 1]) * 10 + (ds[|ds| - 1] - Zero)
  }

  /** Shortest decimal rendering of a natural number. */
  function FormatNat(n: nat): (r: Str)
    ensures 0 < |r| && AllDigits(r)
    ensures r[0] == Zero <==> n == 0
    decreases n
  {
    if n < 10 then [Zero + n] else FormatNat(n / 10) + [Zero + n % 10]
  }

  /** Decimal rendering of an integer, `-` for negatives, as `%v` prints it. */
  function Format(n: int): (r: Str)
    ensures 0 < |r|
    ensures r[0] == Minus <==> n < 0
    ensures n < 0 ==> r[1..] == FormatNat(-n)
    ensures n >= 0 ==> r == FormatNat(n)
    ensures Comma !in r && Dot !in r
  {
    if n < 0 then [Minus] + FormatNat(-n) else FormatNat(n)
  }

  /**
   `strconv.ParseInt(s, 10, 64)`: an optional `+` or `-`, then one or more
   decimal digits (leading zeros allowed), whose signed value must fit in
   int64; anything else is an error.
   */
  function ParseInt64(s: Str): (r: Option<Int64>)
    ensures r.Some? ==> 0 < |s| && AllDigits(s[1..])
    ensures r.Some? ==> IsDigit(s[|s| - 1])
    ensures r.Some? ==> IsDigit(s[0]) || s[0] == Plus || s[0] == Minus
    ensures r.Some? && r.value < 0 ==> s[0] == Minus
    ensures r.Some? && r.value > 0 ==> s[0] != Minus
  {
    if |s| == 0 then None
    else
      var digits := if s[0] == Plus || s[0] == Minus then s[1..] else s;
      if |digits| == 0 || !AllDigits(digits) then None
      else
        var u: int := DigitsValue(digits);
        var v := if s[0] == Minus then -u else u;
        if -0x8000_0000_0000_0000 <= v < 0x8000_0000_0000_0000 then Some(v) else None
  }

  /** Go's `int32(i)`: keep the low 32 bits, read them as two's complement. */
  function TruncateToInt32(i: int): (r: Int32)
    ensures (r - i) % 0x1_0000_0000 == 0
    ensures -0x8000_0000 <= i < 0x8000_0000 ==> r == i
  {
    (i + 0x8000_0000) % 0x1_0000_0000 - 0x8000_0000
  }

  lemma {:induction false} DigitsValueOfFormatNat(n: nat)
    ensures DigitsValue(FormatNat(n)) == n
    decreases n
  {
    if n >= 10 {
      var p := FormatNat(n / 10);
      var r := p + [Zero + n % 10];
      assert r[..|r| - 1] == p;
      DigitsValueOfFormatNat(n / 10);
    }
  }

  /** Parsing undoes rendering for every int64. */
  lemma ParseFormat(n: Int64)
    ensures ParseInt64(Format(n)) == Some(n)
  {
    var r := Format(n);
    if n < 0 {
      var m: nat := -(n as int);
      assert r[1..] == FormatNat(m);
      DigitsValueOfFormatNat(m);
    } else {
      DigitsValueOfFormatNat(n);
    }
  }

  lemma {:induction false} LeadingZeroIgnored(ds: Str)
    requires AllDigits(ds)
    ensures AllDigits([Zero] + ds)
    ensures DigitsValue([Zero] + ds) == DigitsValue(ds)
    decreases |ds|
  {
    var z := [Zero] + ds;
    if |ds| > 0 {
      assert z[..|z| - 1] == [Zero] + ds[..|ds| - 1];
      LeadingZeroIgnored(ds[..|ds| - 1]);
    }
  }

  /** `k` zero digits. */
  function Zeros(k: nat): (r: Str)
    ensures |r| == k && forall i | 0 <= i < k :: r[i] == Zero
  {
    seq(k, _ => Zero)
  }

  lemma {:induction false} ZerosIgnored(k: nat, ds: Str)
    requires AllDigits(ds)
    ensures AllDigits(Zeros(k) + ds)
    ensures DigitsValue(Zeros(k) + ds) == DigitsValue(ds)
    decreases k
  {
    if k > 0 {
      ZerosIgnored(k - 1, ds);
      assert Zeros(k) + ds == [Zero] + (Zeros(k - 1) + ds);
      LeadingZeroIgnored(Zeros(k - 1) + ds);
    } else {
      assert Zeros(k) + ds == ds;
    }
  }

  /**
   Every numeral `ParseInt64` can see: an optional sign, k leading zeros
   and the shortest digits of n. It is accepted exactly when its signed
   value fits in int64, and then that value is the result.
   */
  lemma ParseNumeral(sign: Str, k: nat, n: nat)
    requires sign == [] || sign == [Plus] || sign == [Minus]
    ensures var v := if sign == [Minus] then -(n as int) else n as int;
      ParseInt64(sign + Zeros(k) + FormatNat(n)) ==
        if -0x8000_0000_0000_0000 <= v < 0x8000_0000_0000_0000 then Some(v) else None
  {
    var ds := Zeros(k) + FormatNat(n);
    ZerosIgnored(k, FormatNat(n));
    DigitsValueOfFormatNat(n);
    assert sign + Zeros(k) + FormatNat(n) == sign + ds;
    SignedDigits(sign, ds);
  }

  /** A sign followed by digits is read as the signed value of the digits. */
  lemma SignedDigits(sign: Str, ds: Str)
    requires sign == [] || sign == [Plus] || sign == [Minus]
    requires AllDigits(ds) && |ds| > 0
    ensures var v := if sign == [Minus] then -(DigitsValue(ds) as int) else DigitsValue(ds) as int;
      ParseInt64(sign + ds) ==
        if -0x8000_0000_0000_0000 <= v < 0x8000_0000_0000_0000 then Some(v) else None
  {
    var s := sign + ds;
    if sign == [] {
      assert s == ds;
      assert IsDigit(s[0]);
      assert s[0] != Plus && s[0] != Minus;
    } else {
      assert s[0] == sign[0];
      assert s[1..] == ds;
    }
  }

  lemma ZerosCons(k: nat)
    ensures Zeros(k + 1) == [Zero] + Zeros(k)
  {
  }

  /** The number of leading zeros of a digit string, keeping its last digit. */
  function LeadingZeroCount(ds: Str): (k: nat)
    ensures k <= |ds|
    decreases |ds|
  {
    if |ds| > 1 && ds[0] == Zero then 1 + LeadingZeroCount(ds[1..]) else 0
  }

  /** A digit string without leading zeros is the shortest rendering of its value. */
  lemma {:induction false} FormatNatOfDigits(ds: Str)
    requires AllDigits(ds) && |ds| > 0 && (|ds| == 1 || ds[0] != Zero)
    ensures FormatNat(DigitsValue(ds)) == ds
    decreases |ds|
  {
    if |ds| > 1 {
      var p := ds[..|ds| - 1];
      FormatNatOfDigits(p);
      assert DigitsValue(p) != 0;
      assert ds == p + [ds[|ds| - 1]];
    }
  }

  /**
   Every non-empty digit string is some leading zeros followed by the
   shortest rendering of its value, so `ParseNumeral` covers every input.
   */
  lemma {:induction false} NumeralForm(ds: Str)
    requires AllDigits(ds) && |ds| > 0
    ensures ds == Zeros(LeadingZeroCount(ds)) + FormatNat(DigitsValue(ds))
    decreases |ds|
  {
    if |ds| > 1 && ds[0] == Zero {
      var rest := ds[1..];
      NumeralForm(rest);
      assert ds == [Zero] + rest;
      LeadingZeroIgnored(rest);
      ZerosCons(LeadingZeroCount(rest));
    } else {
      FormatNatOfDigits(ds);
    }
  }

  /** A `+` sign and leading zeros are accepted: `+0<n>` parses to n. */
  lemma PlusAndLeadingZeroAccepted(n: nat)
    requires n < 0x8000_0000_0000_0000
    ensures ParseInt64([Plus, Zero] + FormatNat(n)) == Some(n)
  {
    var s := [Plus, Zero] + FormatNat(n);
    assert s[1..] == [Zero] + FormatNat(n);
    LeadingZeroIgnored(FormatNat(n));
    DigitsValueOfFormatNat(n);
  }
}
