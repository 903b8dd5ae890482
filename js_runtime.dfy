/**
 The pieces of JavaScript semantics the MIDI header parser relies on: powers
 of an integer, the 32-bit conversion and left shift of Numbers holding
 integers, `Uint8Array.prototype.slice`, and the decimal rendering of an
 integral Number when it is concatenated to a string.
 */
module JsRuntime {

  /** `base` raised to `exp`. */
  function Pow(base: nat, exp: nat): (r: nat)
    ensures base > 0 ==> r > 0
  {
    if exp == 0 then 1 else base * Pow(base, exp - 1)
  }

  lemma {:induction false} PowAdd(base: nat, a: nat, b: nat)
    ensures Pow(base, a + b) == Pow(base, a) * Pow(base, b)
    decreases a
  {
    if a > 0 {
      PowAdd(base, a - 1, b);
      MulAssoc(base, Pow(base, a - 1), Pow(base, b));
    }
  }

  lemma MulAssoc(x: int, y: int, z: int)
    ensures x * (y * z) == (x * y) * z
  {
  }

  lemma {:induction false} PowMul(base: nat, a: nat, b: nat)
    ensures Pow(base, a * b) == Pow(Pow(base, a), b)
    decreases b
  {
    if b > 0 {
      PowMul(base, a, b - 1);
      assert a * b == a + a * (b - 1);
      PowAdd(base, a, a * (b - 1));
    }
  }

  const TWO_31: int := 0x8000_0000
  const TWO_32: int := 0x1_0000_0000

  /** ECMAScript ToInt32 on an integral Number: the unique value in
      [-2^31, 2^31) congruent to `m` modulo 2^32. */
  function ToInt32(m: int): (r: int)
    ensures -TWO_31 <= r < TWO_31
    ensures (m - r) % TWO_32 == 0
    ensures -TWO_31 <= m < TWO_31 ==> r == m
  {
    var low := m % TWO_32;
    if low >= TWO_31 then low - TWO_32 else low
  }

  /** The `<<` operator on Numbers holding integers: the left operand is
      converted by ToInt32, the shift count is taken modulo 32, and the
      32-bit result is read back as signed. */
  function ShiftLeft(x: int, k: nat): (r: int)
    ensures -TWO_31 <= r < TWO_31
    ensures 0 <= x && k < 32 && x * Pow(2, k) < TWO_31 ==> r == x * Pow(2, k)
  {
    NoWrapOperand(x, Pow(2, k), TWO_31);
    ToInt32(ToInt32(x) * Pow(2, k % 32))
  }

  /** A non-negative operand whose product with a power stays below `bound` is itself below it. */
  lemma NoWrapOperand(x: int, p: nat, bound: int)
    requires p > 0
    ensures 0 <= x && x * p < bound ==> x < bound
  {
    if 0 <= x {
      assert x * p == x + x * (p - 1);
    }
  }

  /** Shifting zero gives zero, whatever the count. */
  lemma ShiftLeftZero(k: nat)
    ensures ShiftLeft(0, k) == 0
  {
    assert ToInt32(0) == 0;
  }

  function Min(a: int, b: int): int
  {
    if a <= b then a else b
  }

  /** `Uint8Array.prototype.slice(start, end)` for non-negative arguments:
      both ends are clamped to the length, and an empty array results when
      the clamped start is not before the clamped end. */
  function Slice<T>(s: seq<T>, start: nat, end: nat): (r: seq<T>)
    ensures |r| == if Min(start, |s|) <= Min(end, |s|) then Min(end, |s|) - Min(start, |s|) else 0
    ensures forall i :: 0 <= i < |r| ==> start + i < |s| && r[i] == s[start + i]
  {
    var from := Min(start, |s|);
    var to := Min(end, |s|);
    if from <= to then s[from..to] else []
  }

  /** A slice that ends within the first `n` elements sees only those. */
  lemma SliceOfPrefix<T>(s: seq<T>, n: nat, start: nat, end: nat)
    requires end <= n
    ensures Slice(s, start, end) == Slice(s[..Min(n, |s|)], start, end)
  {
  }

  function DigitChar(d: nat): (c: char)
    requires d < 10
    ensures '0' <= c <= '9'
    ensures c as int - '0' as int == d
  {
    ('0' as int + d) as char
  }

  /** Shortest decimal spelling of a natural number. */
  function NatToDecimal(n: nat): (s: string)
    ensures |s| >= 1
    ensures forall i :: 0 <= i < |s| ==> '0' <= s[i] <= '9'
    ensures n > 0 ==> s[0] != '0'
  {
    if n < 10 then [DigitChar(n)] else NatToDecimal(n / 10) + [DigitChar(n % 10)]
  }

  /** `'' + n` for an integral Number `n` of magnitude below 10^21. */
  function NumberToString(n: int): (s: string)
  {
    if n < 0 then "-" + NatToDecimal(-n) else NatToDecimal(n)
  }

  /** Value of a string of decimal digits (the reading of `Number(s)` on them). */
  function DecimalValue(s: string): int
  {
    if s == [] then 0 else DecimalValue(s[..|s| - 1]) * 10 + (s[|s| - 1] as int - '0' as int)
  }

  /** `Number(s)` on an optionally signed string of decimal digits. */
  function StringToNumber(s: string): int
  {
    if |s| > 0 && s[0] == '-' then -DecimalValue(s[1..]) else DecimalValue(s)
  }

  lemma {:induction false} NatToDecimalRoundTrip(n: nat)
    ensures DecimalValue(NatToDecimal(n)) == n
    decreases n
  {
    if n >= 10 {
      NatToDecimalRoundTrip(n / 10);
      var s := NatToDecimal(n / 10) + [DigitChar(n % 10)];
      assert s[..|s| - 1] == NatToDecimal(n / 10);
    }
  }

  /** The decimal rendering loses nothing: reading it back gives the number. */
  lemma NumberToStringRoundTrip(n: int)
    ensures StringToNumber(NumberToString(n)) == n
  {
    if n < 0 {
      NatToDecimalRoundTrip(-n);
      assert ("-" + NatToDecimal(-n))[1..] == NatToDecimal(-n);
    } else {
      NatToDecimalRoundTrip(n);
    }
  }

  /** Hence distinct numbers render to distinct strings. */
  lemma NumberToStringInjective(m: int, n: int)
    ensures NumberToString(m) == NumberToString(n) ==> m == n
  {
    NumberToStringRoundTrip(m);
    NumberToStringRoundTrip(n);
  }
}
