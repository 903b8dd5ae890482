/**
 Byte decoding helpers of the MIDI parser: turning raw bytes into a string of
 character codes, and folding a byte slice into a number, either big-endian
 (8 bits per byte) or as the value step of a variable-length quantity
 (7 bits per byte, bit 7 masked off).
 */
module ParserUtils {
  import opened JsRuntime
  import opened ByteBits

  // ---------------------------------------------------------------------------
  // parseStringFromRawChars

  /** `String.fromCharCode(...charArray)`: one character per byte, whose code is that byte. */
  function ParseStringFromRawChars(charArray: seq<byte>): (r: string)
    ensures |r| == |charArray|
    ensures forall i :: 0 <= i < |r| ==> r[i] as int == charArray[i]
  {
    seq(|charArray|, i requires 0 <= i < |charArray| => charArray[i] as char)
  }

  /** The character codes of a string. */
  function CharCodes(s: string): (codes: seq<int>)
  {
    seq(|s|, i requires 0 <= i < |s| => s[i] as int)
  }

  /** Reading the codes back gives the bytes, so no two byte arrays yield the same string. */
  lemma RawCharsRoundTrip(a: seq<byte>, b: seq<byte>)
    ensures CharCodes(ParseStringFromRawChars(a)) == a
    ensures ParseStringFromRawChars(a) == ParseStringFromRawChars(b) ==> a == b
  {
    assert CharCodes(ParseStringFromRawChars(a)) == a;
    assert CharCodes(ParseStringFromRawChars(b)) == b;
  }

  // ---------------------------------------------------------------------------
  // parseByteArrayToNumber

  /** Bits contributed by one byte: the byte in big-endian mode, its low seven bits otherwise. */
  function RawByteValue(oneByte: byte, isVariableLength: bool): (r: byte)
    ensures isVariableLength ==> r == oneByte % 128
    ensures !isVariableLength ==> r == oneByte
  {
    MaskIsLowSevenBits(oneByte);
    if isVariableLength then MaskHighBit(oneByte) else oneByte
  }

  /** Bits per byte in each mode. */
  function Width(isVariableLength: bool): nat
  {
    if isVariableLength then 7 else 8
  }

  /** Weight of one digit position in each mode. */
  function Radix(isVariableLength: bool): nat
  {
    if isVariableLength then 128 else 256
  }

  /** The reducer given to `byteArray.reduce`: the byte's bits, shifted by its
      distance from the end of the array, are added to the running number. */
  function Reducer(number: int, oneByte: byte, i: nat, length: nat, isVariableLength: bool): int
    requires i < length
  {
    var rawByteValue := RawByteValue(oneByte, isVariableLength);
    var bitshiftedValue := ShiftLeft(rawByteValue, (length - i - 1) * Width(isVariableLength));
    number + bitshiftedValue
  }

  /** `reduce` from index `i` on, with `number` accumulated so far. */
  function Reduce(byteArray: seq<byte>, isVariableLength: bool, i: nat, number: int): int
    requires i <= |byteArray|
    decreases |byteArray| - i
  {
    if i == |byteArray| then number
    else Reduce(byteArray, isVariableLength, i + 1, Reducer(number, byteArray[i], i, |byteArray|, isVariableLength))
  }

  /** The lengths for which no shift leaves the 31 value bits of a 32-bit signed integer. */
  predicate ValidLength(byteArray: seq<byte>, isVariableLength: bool)
  {
    |byteArray| <= 4 && (!isVariableLength && |byteArray| == 4 ==> byteArray[0] < 0x80)
  }

  /** `parseByteArrayToNumber(byteArray, isVariableLength)`: the fold starting from 0,
      wrap-around of `<<` included. The additions are exact integer additions, which is
      what JavaScript's double addition gives while the running sum stays below 2^53
      (every array of fewer than 2^22 bytes, so every slice the header parser reads).
      On the lengths where no shift wraps it is the Horner value of the digits. */
  function ParseByteArrayToNumber(byteArray: seq<byte>, isVariableLength: bool): (r: int)
    ensures ValidLength(byteArray, isVariableLength) ==> r == Horner(byteArray, isVariableLength)
  {
    FoldIsHorner(byteArray, isVariableLength);
    Reduce(byteArray, isVariableLength, 0, 0)
  }

  // ---------------------------------------------------------------------------
  // Reference forms of the value

  /** Horner form: the digits read most significant first. */
  function Horner(s: seq<byte>, isVariableLength: bool): int
  {
    if s == [] then 0
    else Horner(s[..|s| - 1], isVariableLength) * Radix(isVariableLength) + RawByteValue(s[|s| - 1], isVariableLength)
  }

  /** Positional form: the sum over j >= i of digit j times Radix^(|s| - 1 - j). */
  function PositionalSum(s: seq<byte>, isVariableLength: bool, i: nat): int
    requires i <= |s|
    decreases |s| - i
  {
    if i == |s| then 0
    else RawByteValue(s[i], isVariableLength) * Pow(Radix(isVariableLength), |s| - 1 - i)
         + PositionalSum(s, isVariableLength, i + 1)
  }

  /** Big-endian value of a byte slice. */
  function BigEndian(s: seq<byte>): int
  {
    Horner(s, false)
  }

  // ---------------------------------------------------------------------------
  // The fold equals the positional sum equals the Horner form

  /** 2^Width is the Radix of each mode. */
  lemma WidthIsRadix(isVariableLength: bool)
    ensures Pow(2, Width(isVariableLength)) == Radix(isVariableLength)
  {
    if isVariableLength {
      assert Pow(2, 7) == 128;
    } else {
      assert Pow(2, 8) == 256;
    }
  }

  lemma {:induction false} PowMonotone(base: nat, j: nat, k: nat)
    requires base >= 1 && j <= k
    ensures Pow(base, j) <= Pow(base, k)
    decreases k
  {
    if j < k {
      PowMonotone(base, j, k - 1);
      assert Pow(base, k) == base * Pow(base, k - 1);
    }
  }

  lemma ProductBelow(a: nat, b: nat, maxA: nat, maxB: nat)
    requires a <= maxA && b <= maxB
    ensures a * b <= maxA * maxB
  {
    assert a * b <= maxA * b;
  }

  /** On a valid length, the shift of step i does not wrap. */
  lemma StepFits(s: seq<byte>, isVariableLength: bool, i: nat)
    requires ValidLength(s, isVariableLength) && i < |s|
    ensures (|s| - i - 1) * Width(isVariableLength) < 32
    ensures RawByteValue(s[i], isVariableLength) * Pow(2, (|s| - i - 1) * Width(isVariableLength)) < TWO_31
    ensures Pow(2, (|s| - i - 1) * Width(isVariableLength)) == Pow(Radix(isVariableLength), |s| - i - 1)
  {
    var j := |s| - i - 1;
    var w := Width(isVariableLength);
    PowMul(2, w, j);
    WidthIsRadix(isVariableLength);
    var raw := RawByteValue(s[i], isVariableLength);
    if isVariableLength {
      PowMonotone(128, j, 3);
      assert Pow(128, 3) == 0x20_0000;
      ProductBelow(raw, Pow(128, j), 127, 0x20_0000);
    } else if j == 3 {
      assert Pow(256, 3) == 0x100_0000;
      ProductBelow(raw, Pow(256, 3), 127, 0x100_0000);
    } else {
      PowMonotone(256, j, 2);
      assert Pow(256, 2) == 0x1_0000;
      ProductBelow(raw, Pow(256, j), 255, 0x1_0000);
    }
  }

  lemma {:induction false} ReduceIsPositionalSum(s: seq<byte>, isVariableLength: bool, i: nat, number: int)
    requires ValidLength(s, isVariableLength) && i <= |s|
    ensures Reduce(s, isVariableLength, i, number) == number + PositionalSum(s, isVariableLength, i)
    decreases |s| - i
  {
    if i < |s| {
      StepFits(s, isVariableLength, i);
      var next := Reducer(number, s[i], i, |s|, isVariableLength);
      assert next == number + RawByteValue(s[i], isVariableLength) * Pow(Radix(isVariableLength), |s| - 1 - i);
      ReduceIsPositionalSum(s, isVariableLength, i + 1, next);
    }
  }

  /** Appending a byte multiplies every earlier weight by the radix. */
  lemma {:induction false} PositionalSumSnoc(s: seq<byte>, b: byte, isVariableLength: bool, i: nat)
    requires i <= |s|
    ensures PositionalSum(s + [b], isVariableLength, i)
            == PositionalSum(s, isVariableLength, i) * Radix(isVariableLength) + RawByteValue(b, isVariableLength)
    decreases |s| - i
  {
    var t := s + [b];
    var R := Radix(isVariableLength);
    if i == |s| {
      assert t[i] == b;
      assert PositionalSum(t, isVariableLength, i + 1) == 0;
    } else {
      PositionalSumSnoc(s, b, isVariableLength, i + 1);
      assert t[i] == s[i];
      var d := RawByteValue(s[i], isVariableLength);
      var P := Pow(R, |s| - 1 - i);
      var rest := PositionalSum(s, isVariableLength, i + 1);
      var last := RawByteValue(b, isVariableLength);
      assert Pow(R, |t| - 1 - i) == R * P;
      assert PositionalSum(t, isVariableLength, i) == d * (R * P) + (rest * R + last);
      Distribute(d, P, rest, R);
    }
  }

  /** (d * P + rest) * R, multiplied out. */
  lemma Distribute(d: int, P: int, rest: int, R: int)
    ensures d * (R * P) + rest * R == (d * P + rest) * R
  {
  }

  lemma {:induction false} PositionalSumIsHorner(s: seq<byte>, isVariableLength: bool)
    ensures PositionalSum(s, isVariableLength, 0) == Horner(s, isVariableLength)
    decreases |s|
  {
    if s != [] {
      var p := s[..|s| - 1];
      assert s == p + [s[|s| - 1]];
      PositionalSumIsHorner(p, isVariableLength);
      PositionalSumSnoc(p, s[|s| - 1], isVariableLength, 0);
    }
  }

  /** The fold of the source is the Horner form whenever no shift wraps. */
  lemma FoldIsHorner(s: seq<byte>, isVariableLength: bool)
    ensures ValidLength(s, isVariableLength) ==> Reduce(s, isVariableLength, 0, 0) == Horner(s, isVariableLength)
  {
    if ValidLength(s, isVariableLength) {
      ReduceIsPositionalSum(s, isVariableLength, 0, 0);
      PositionalSumIsHorner(s, isVariableLength);
    }
  }

  /** Big-endian mode is the positional formula: the sum of b[i] * 256^(n-1-i),
      and variable-length mode the sum of (b[i] & 0x7f) * 128^(n-1-i). */
  lemma ParseIsPositional(s: seq<byte>, isVariableLength: bool)
    requires ValidLength(s, isVariableLength)
    ensures ParseByteArrayToNumber(s, isVariableLength) == PositionalSum(s, isVariableLength, 0)
  {
    PositionalSumIsHorner(s, isVariableLength);
  }

  // ---------------------------------------------------------------------------
  // Properties of the decoded value

  /** The fold seed is 0, so an empty array decodes to 0 in both modes. */
  lemma EmptyIsZero(isVariableLength: bool)
    ensures ParseByteArrayToNumber([], isVariableLength) == 0
  {
  }

  /** Appending a byte: one more digit in the radix of the mode. */
  lemma AppendStep(s: seq<byte>, b: byte, isVariableLength: bool)
    requires ValidLength(s + [b], isVariableLength)
    ensures !isVariableLength ==> ParseByteArrayToNumber(s + [b], false) == ParseByteArrayToNumber(s, false) * 256 + b
    ensures isVariableLength ==> ParseByteArrayToNumber(s + [b], true) == ParseByteArrayToNumber(s, true) * 128 + b % 128
  {
    assert (s + [b])[..|s|] == s;
    if |s + [b]| == 4 { assert (s + [b])[0] == s[0]; }
  }

  lemma {:induction false} HornerBounds(s: seq<byte>, isVariableLength: bool)
    ensures 0 <= Horner(s, isVariableLength) < Pow(Radix(isVariableLength), |s|)
    decreases |s|
  {
    if s != [] {
      var p := s[..|s| - 1];
      var R := Radix(isVariableLength);
      HornerBounds(p, isVariableLength);
      var h := Horner(p, isVariableLength);
      var d := RawByteValue(s[|s| - 1], isVariableLength);
      assert d < R;
      assert h <= Pow(R, |p|) - 1;
      assert h * R <= (Pow(R, |p|) - 1) * R;
      assert Pow(R, |s|) == R * Pow(R, |p|);
    }
  }

  /** A big-endian result is below 256^n and a variable-length one below 128^n. */
  lemma ParseBounds(s: seq<byte>, isVariableLength: bool)
    requires ValidLength(s, isVariableLength)
    ensures 0 <= ParseByteArrayToNumber(s, isVariableLength) < Pow(Radix(isVariableLength), |s|)
  {
    HornerBounds(s, isVariableLength);
  }

  /** The fold reads each byte only through its masked bits. */
  lemma {:induction false} ReduceDependsOnRawBits(s: seq<byte>, t: seq<byte>, isVariableLength: bool, i: nat, number: int)
    requires |s| == |t| && i <= |s|
    requires forall j :: i <= j < |s| ==> RawByteValue(s[j], isVariableLength) == RawByteValue(t[j], isVariableLength)
    ensures Reduce(s, isVariableLength, i, number) == Reduce(t, isVariableLength, i, number)
    decreases |s| - i
  {
    if i < |s| {
      ReduceDependsOnRawBits(s, t, isVariableLength, i + 1, Reducer(number, s[i], i, |s|, isVariableLength));
    }
  }

  /** The byte with bit 7 inverted. */
  function FlipHighBit(b: byte): (r: byte)
    ensures r % 128 == b % 128 && (r < 128 <==> b >= 128)
  {
    if b >= 0x80 then b - 0x80 else b + 0x80
  }

  /** Variable-length mode ignores bit 7 of every byte, at any length. */
  lemma VlqIgnoresHighBit(s: seq<byte>, k: nat)
    requires k < |s|
    ensures ParseByteArrayToNumber(s[k := FlipHighBit(s[k])], true) == ParseByteArrayToNumber(s, true)
  {
    ReduceDependsOnRawBits(s[k := FlipHighBit(s[k])], s, true, 0, 0);
  }

  /** The fold past a leading zero byte is the fold of the rest: every later byte keeps its shift. */
  lemma {:induction false} ReduceSkipsLeadingZero(s: seq<byte>, isVariableLength: bool, i: nat, number: int)
    requires i <= |s|
    ensures Reduce([0] + s, isVariableLength, i + 1, number) == Reduce(s, isVariableLength, i, number)
    decreases |s| - i
  {
    if i < |s| {
      assert ([0] + s)[i + 1] == s[i];
      ReduceSkipsLeadingZero(s, isVariableLength, i + 1, Reducer(number, s[i], i, |s|, isVariableLength));
    }
  }

  /** A leading zero byte does not change the result (also where shifts wrap). */
  lemma LeadingZeroIgnored(s: seq<byte>, isVariableLength: bool)
    ensures ParseByteArrayToNumber([0] + s, isVariableLength) == ParseByteArrayToNumber(s, isVariableLength)
  {
    ShiftLeftZero(|s| * Width(isVariableLength));
    assert Reducer(0, ([0] + s)[0], 0, |s| + 1, isVariableLength) == 0;
    ReduceSkipsLeadingZero(s, isVariableLength, 0, 0);
  }

  // Worked values: the big-endian header fields of the Standard MIDI Files
  // header, and the variable-length quantities of its table of examples.

  lemma BigEndianExample6()
    ensures ParseByteArrayToNumber([0x00, 0x06], false) == 6
  {
    assert [0x00, 0x06][..1] == [0x00] && [0x00][..0] == [];
    assert Horner([0x00, 0x06], false) == 6;
  }

  lemma BigEndianExample1()
    ensures ParseByteArrayToNumber([0x00, 0x01], false) == 1
  {
    assert [0x00, 0x01][..1] == [0x00] && [0x00][..0] == [];
    assert Horner([0x00, 0x01], false) == 1;
  }

  lemma VlqExample0()
    ensures ParseByteArrayToNumber([0x00], true) == 0
  {
    assert [0x00][..0] == [];
  }

  lemma VlqExample64()
    ensures ParseByteArrayToNumber([0x40], true) == 64
  {
    assert [0x40][..0] == [];
  }

  lemma VlqExample128()
    ensures ParseByteArrayToNumber([0x81, 0x00], true) == 128
  {
    assert [0x81, 0x00][..1] == [0x81] && [0x81][..0] == [];
    assert Horner([0x81, 0x00], true) == 128;
  }

  lemma VlqExample8192()
    ensures ParseByteArrayToNumber([0xC0, 0x00], true) == 8192
  {
    assert [0xC0, 0x00][..1] == [0xC0] && [0xC0][..0] == [];
    assert Horner([0xC0, 0x00], true) == 8192;
  }

  lemma VlqExample16383()
    ensures ParseByteArrayToNumber([0xFF, 0x7F], true) == 16383
  {
    assert [0xFF, 0x7F][..1] == [0xFF] && [0xFF][..0] == [];
    assert Horner([0xFF, 0x7F], true) == 16383;
  }

  /** Zero bytes add nothing to the fold, whatever their shift. */
  lemma {:induction false} ReduceOverZeros(s: seq<byte>, isVariableLength: bool, i: nat, number: int)
    requires i <= |s|
    requires forall j :: i <= j < |s| ==> s[j] == 0
    ensures Reduce(s, isVariableLength, i, number) == number
    decreases |s| - i
  {
    if i < |s| {
      ShiftLeftZero((|s| - i - 1) * Width(isVariableLength));
      assert Reducer(number, s[i], i, |s|, isVariableLength) == number;
      ReduceOverZeros(s, isVariableLength, i + 1, number);
    }
  }

  lemma PowTwo24()
    ensures Pow(2, 24) == 0x100_0000
  {
    assert Pow(2, 8) == 256;
    PowMul(2, 8, 3);
    assert Pow(256, 3) == 0x100_0000;
  }

  /** Shifting a byte with bit 7 set into the top byte sets bit 31, which reads back as negative. */
  lemma ShiftIntoSignBit(x: byte)
    requires x >= 0x80
    ensures ShiftLeft(x, 24) == x as int * 0x100_0000 - TWO_32
  {
    PowTwo24();
    var m := x as int * 0x100_0000;
    assert TWO_31 <= m < TWO_32;
    assert ToInt32(m) == m - TWO_32;
  }

  /** Outside the valid lengths the 32-bit shift wraps: a 4-byte big-endian value
      with bit 31 set comes out as its value less 2^32, so negative. */
  lemma WrapAroundNegative(s: seq<byte>)
    requires |s| == 4 && s[0] >= 0x80 && s[1] == 0 && s[2] == 0 && s[3] == 0
    ensures ParseByteArrayToNumber(s, false) == s[0] as int * 0x100_0000 - 0x1_0000_0000
    ensures ParseByteArrayToNumber(s, false) < 0
  {
    assert (|s| - 0 - 1) * Width(false) == 24;
    ShiftIntoSignBit(s[0]);
    var first := s[0] as int * 0x100_0000 - TWO_32;
    assert Reducer(0, s[0], 0, |s|, false) == first;
    ReduceOverZeros(s, false, 1, first);
  }

  /** A fifth byte from the end is shifted by 32, which JavaScript takes modulo 32:
      by 0, so it adds its own value. */
  lemma WrapAroundFifthByte(s: seq<byte>)
    requires |s| == 5 && s[1] == 0 && s[2] == 0 && s[3] == 0 && s[4] == 0
    ensures ParseByteArrayToNumber(s, false) == s[0] as int
  {
    var k := (|s| - 0 - 1) * Width(false);
    assert k == 32 && k % 32 == 0;
    assert Pow(2, k % 32) == 1;
    assert ShiftLeft(s[0], k) == s[0];
    assert Reducer(0, s[0], 0, |s|, false) == s[0];
    ReduceOverZeros(s, false, 1, s[0]);
  }
}
