/**
 The bytes of a `Uint8Array`, and the masking of bit 7 that the variable-length
 mode of the byte decoder applies to each of them. JavaScript's `&` converts
 both operands to 32-bit integers; on operands in [0, 2^31) that is the
 bitwise AND of their binary expansions, written out here digit by digit.
 */
module ByteBits {
  import opened JsRuntime

  /** An element of a `Uint8Array`. */
  type byte = b: int | 0 <= b < 256

  /** Bitwise AND of two non-negative integers, one binary digit at a time. */
  function BitAnd(a: nat, b: nat): (r: nat)
    ensures r <= a && r <= b
  {
    if a == 0 || b == 0 then 0
    else 2 * BitAnd(a / 2, b / 2) + (if a % 2 == 1 && b % 2 == 1 then 1 else 0)
  }

  /** The bits of `a` from position `k` up. */
  function High(a: nat, k: nat): nat
  {
    if k == 0 then a else High(a / 2, k - 1)
  }

  /** Masking with k one-bits keeps the low k bits: what is left is below 2^k, and
      together with the bits above position k it makes up `a`. */
  lemma {:induction false} LowMask(a: nat, k: nat)
    ensures BitAnd(a, Pow(2, k) - 1) < Pow(2, k)
    ensures a == Pow(2, k) * High(a, k) + BitAnd(a, Pow(2, k) - 1)
    decreases k
  {
    if k > 0 {
      var p := Pow(2, k - 1);
      var m := Pow(2, k) - 1;
      assert m == 2 * p - 1;
      assert m / 2 == p - 1 && m % 2 == 1;
      LowMask(a / 2, k - 1);
      var h := High(a / 2, k - 1);
      var low := BitAnd(a / 2, p - 1);
      assert a / 2 == p * h + low;
      if a > 0 {
        assert BitAnd(a, m) == 2 * low + a % 2;
      }
      MulAssoc(2, p, h);
      assert a == 2 * (p * h) + (2 * low + a % 2);
    }
  }

  /** A decomposition into whole multiples of 128 and a rest below 128 gives the remainder. */
  lemma RemainderOf(b: int, h: int, l: int)
    requires b == 128 * h + l && 0 <= l < 128
    ensures b % 128 == l
  {
  }

  const HIGHBIT_MASK: nat := 0x7f

  /** `oneByte & HIGHBIT_MASK`. */
  function MaskHighBit(oneByte: byte): (r: byte)
  {
    BitAnd(oneByte, HIGHBIT_MASK)
  }

  /** Masking keeps the low seven bits: the remainder modulo 128. */
  lemma MaskIsLowSevenBits(b: byte)
    ensures MaskHighBit(b) == b % 128
  {
    assert Pow(2, 7) == 128;
    LowMask(b, 7);
    RemainderOf(b, High(b, 7), MaskHighBit(b));
  }
}
