/** A model of the `Price` struct of Spreads.DataTypes: a signed decimal
    `mantissa * 10^-exponent` packed into one 64-bit word.

    Word layout (bit 0 is the least significant bit):
      bits 60..63  reserved, zero in every word the constructor builds
      bits 56..59  exponent, 0..15
      bit  55      sign of the mantissa (1 = negative)
      bits 0..54   magnitude of the mantissa

    C# integers are modelled by their bit patterns: a `long` or `ulong` is a
    `bv64`, an `int` a `bv32`. Arithmetic on these patterns wraps exactly as
    C#'s unchecked arithmetic does; `Signed` and `Signed32` read a pattern as
    the two's-complement number it stands for.

    Facts about bit patterns are proved one case at a time in small lemmas
    (`...Negative`/`...NonNegative`), and combined by calling them. */
module DataTypes {

  const TWO32: int := 0x1_0000_0000
  const TWO55: int := 0x80_0000_0000_0000
  const TWO64: int := 0x1_0000_0000_0000_0000

  // ---------------------------------------------------------------------
  // C# integers as bit patterns

  /** The number a C# `long` with these bits stands for. */
  function Signed(b: bv64): int {
    if b < 0x8000_0000_0000_0000 then b as int else b as int - TWO64
  }

  /** The number a C# `int` with these bits stands for. */
  function Signed32(b: bv32): int {
    if b < 0x8000_0000 then b as int else b as int - TWO32
  }

  /** A long is negative exactly when its top bit is set. */
  predicate IsNegative(b: bv64) {
    b >= 0x8000_0000_0000_0000
  }

  lemma SignedNegative(b: bv64)
    ensures Signed(b) < 0 <==> IsNegative(b)
  {
  }

  lemma SignedInjective(x: bv64, y: bv64)
    ensures Signed(x) == Signed(y) <==> x == y
  {
    if Signed(x) == Signed(y) {
      SignedNegative(x);
      SignedNegative(y);
      assert x as int == y as int;
      assert (x as int) as bv64 == x;
      assert (y as int) as bv64 == y;
    }
  }

  /** `(long)i` and `(ulong)i` for a C# `int` i: sign extension to 64 bits. */
  function SignExtend(i: bv32): bv64 {
    if i < 0x8000_0000 then i as bv64 else (i as bv64) | 0xFFFF_FFFF_0000_0000
  }

  /** `(ulong)exponent > 15` holds exactly when the `int`'s bits, read
      unsigned, exceed 15: a negative exponent extends to a huge ulong. */
  lemma SignExtendAbove15(e: bv32)
    ensures SignExtend(e) > 15 <==> e > 15
  {
  }

  /** `x >> 63` on a C# `long`, an arithmetic shift: all ones when x is
      negative, zero otherwise; computed without a branch. */
  function SignMask(x: bv64): bv64 {
    0 - (x >> 63)
  }

  /** Unary minus on a C# `long`, unchecked: it wraps, so long.MinValue is
      its own negation. */
  function LongNeg(m: bv64): bv64 {
    0 - m
  }

  /** `+`, `-` and `*` on C# `long`s, unchecked: they wrap modulo 2^64. */
  function LongAdd(a: bv64, b: bv64): bv64 {
    a + b
  }

  function LongSub(a: bv64, b: bv64): bv64 {
    a - b
  }

  function LongMul(a: bv64, b: bv64): bv64 {
    a * b
  }

  lemma LongNegInvolution(m: bv64)
    ensures LongNeg(LongNeg(m)) == m
  {
  }

  /** `long.CompareTo`: -1, 0 or 1 as x is below, equal to or above y. */
  function CompareLong(x: bv64, y: bv64): (r: int)
    ensures r == 0 <==> x == y
    ensures r == -1 <==> Signed(x) < Signed(y)
    ensures r == 1 <==> Signed(y) < Signed(x)
  {
    SignedInjective(x, y);
    if Signed(x) < Signed(y) then -1 else if Signed(x) == Signed(y) then 0 else 1
  }

  // ---------------------------------------------------------------------
  // The word and its fields

  const ExponentMask: bv64 := 0x0F00_0000_0000_0000      // 15UL << 56
  const MantissaValueMask: bv64 := 0x007F_FFFF_FFFF_FFFF // (1L << 55) - 1L
  const SignBit: bv64 := 0x0080_0000_0000_0000           // 1L << 55
  const ReservedMask: bv64 := 0xF000_0000_0000_0000

  /** A price is its word: `_value`, the only field of the struct. */
  type Price = bv64

  /** `Price.Zero`, the default struct: every bit zero. */
  const Zero: Price := 0

  /** The constructor throws `ArgumentOutOfRangeException`, naming the
      parameter it rejects. */
  datatype PriceError = ExponentOutOfRange | MantissaOutOfRange

  datatype Result<T> = Ok(value: T) | Err(error: PriceError)

  /** The test the constructor applies to a mantissa, as bits: its
      magnitude fits in 55 bits. */
  predicate MantissaFits(m: bv64) {
    m < 0x0080_0000_0000_0000 || 0xFF80_0000_0000_0000 < m
  }

  /** What `MantissaFits` means for the long: -2^55 < m < 2^55. */
  lemma MantissaFitsMeans(m: bv64)
    ensures MantissaFits(m) <==> -TWO55 < Signed(m) < TWO55
  {
    if IsNegative(m) { MantissaFitsNegative(m); } else { MantissaFitsNonNegative(m); }
  }

  lemma MantissaFitsNegative(m: bv64)
    requires IsNegative(m)
    ensures MantissaFits(m) <==> -TWO55 < Signed(m)
  {
    assert m as int > TWO64 - TWO55 <==> m > 0xFF80_0000_0000_0000;
  }

  lemma MantissaFitsNonNegative(m: bv64)
    requires !IsNegative(m)
    ensures MantissaFits(m) <==> Signed(m) < TWO55
  {
    assert m as int < TWO55 <==> m < 0x0080_0000_0000_0000;
  }

  /** The magnitude of a long in two's complement (`Math.Abs` without its
      overflow check): -m when m is negative, m otherwise. */
  function Magnitude(m: bv64): bv64 {
    if IsNegative(m) then LongNeg(m) else m
  }

  /** Words the constructor can build: reserved bits clear and no
      "negative zero" (sign bit set over a zero magnitude). */
  predicate Valid(p: Price) {
    && p & ReservedMask == 0
    && (p & SignBit != 0 ==> p & MantissaValueMask != 0)
  }

  /** `new Price(int exponent, long mantissaValue)`. The exponent is checked
      as `(ulong)exponent > 15`, so negative exponents are rejected too. */
  function New(exponent: bv32, mantissaValue: bv64): Result<Price> {
    if SignExtend(exponent) > 15 then Err(ExponentOutOfRange)
    else
      var signMask := SignMask(mantissaValue);
      var sign := signMask & 1;
      var absValue := (mantissaValue ^ signMask) + sign;
      if absValue & !MantissaValueMask != 0 then Err(MantissaOutOfRange)
      else
        var mantissaPart := absValue | (sign << 55);
        var exponentPart := (SignExtend(exponent) << 56) & ExponentMask;
        Ok(mantissaPart | exponentPart)
  }

  /** The `Exponent` property, as the C# `int` it returns. */
  function Exponent(p: Price): (e: bv32)
    ensures e <= 15
  {
    ((p & ExponentMask) >> 56) as bv32
  }

  /** The `Mantissa` property: `(abs - sign) ^ -sign`, without a branch. */
  function Mantissa(p: Price): bv64 {
    var sign := (p >> 55) & 1;
    var signMask := 0 - sign;
    var absValue := p & MantissaValueMask;
    (absValue - sign) ^ signMask
  }

  // ---------------------------------------------------------------------
  // The branch-free sign handling

  lemma AbsValueNegative(m: bv64)
    requires IsNegative(m)
    ensures (m ^ SignMask(m)) + (SignMask(m) & 1) == LongNeg(m)
  {
  }

  lemma AbsValueNonNegative(m: bv64)
    requires !IsNegative(m)
    ensures (m ^ SignMask(m)) + (SignMask(m) & 1) == m
  {
  }

  /** Encoding: `(m ^ s) + (s & 1)` with `s = m >> 63` is the magnitude. */
  lemma AbsValueIsMagnitude(m: bv64)
    ensures (m ^ SignMask(m)) + (SignMask(m) & 1) == Magnitude(m)
  {
    if IsNegative(m) { AbsValueNegative(m); } else { AbsValueNonNegative(m); }
  }

  lemma MagnitudeFitsNegative(m: bv64)
    requires IsNegative(m)
    ensures LongNeg(m) & !MantissaValueMask == 0 <==> MantissaFits(m)
  {
  }

  lemma MagnitudeFitsNonNegative(m: bv64)
    requires !IsNegative(m)
    ensures m & !MantissaValueMask == 0 <==> MantissaFits(m)
  {
  }

  /** The constructor's test `abs & ~MantissaValueMask != 0` rejects exactly
      the longs whose magnitude needs more than 55 bits. long.MinValue is
      among them: its magnitude wraps to 2^63. */
  lemma MagnitudeFits(m: bv64)
    ensures Magnitude(m) & !MantissaValueMask == 0 <==> MantissaFits(m)
    ensures Magnitude(0x8000_0000_0000_0000) == 0x8000_0000_0000_0000
  {
    if IsNegative(m) { MagnitudeFitsNegative(m); } else { MagnitudeFitsNonNegative(m); }
  }

  lemma NewExponentCheck(exponent: bv32, mantissaValue: bv64)
    ensures New(exponent, mantissaValue) == Err(ExponentOutOfRange) <==> exponent > 15
  {
    SignExtendAbove15(exponent);
  }

  lemma NewMantissaCheck(exponent: bv32, mantissaValue: bv64)
    ensures New(exponent, mantissaValue) == Err(MantissaOutOfRange) <==>
              exponent <= 15 && !MantissaFits(mantissaValue)
  {
    SignExtendAbove15(exponent);
    AbsValueIsMagnitude(mantissaValue);
    MagnitudeFits(mantissaValue);
  }

  // ---------------------------------------------------------------------
  // The word the constructor builds

  lemma NewWordNegative(exponent: bv32, mantissaValue: bv64)
    requires exponent <= 15 && MantissaFits(mantissaValue) && IsNegative(mantissaValue)
    ensures New(exponent, mantissaValue) ==
              Ok(LongNeg(mantissaValue) | SignBit | ((exponent as bv64) << 56))
  {
    SignExtendAbove15(exponent);
    AbsValueNegative(mantissaValue);
    MagnitudeFitsNegative(mantissaValue);
  }

  lemma NewWordNonNegative(exponent: bv32, mantissaValue: bv64)
    requires exponent <= 15 && MantissaFits(mantissaValue) && !IsNegative(mantissaValue)
    ensures New(exponent, mantissaValue) == Ok(mantissaValue | ((exponent as bv64) << 56))
  {
    SignExtendAbove15(exponent);
    AbsValueNonNegative(mantissaValue);
    MagnitudeFitsNonNegative(mantissaValue);
  }

  lemma LayoutNegative(e: bv32, m: bv64)
    requires e <= 15 && MantissaFits(m) && IsNegative(m)
    ensures var w := LongNeg(m) | SignBit | ((e as bv64) << 56);
      && w & ReservedMask == 0
      && (w & ExponentMask) >> 56 == e as bv64
      && w & SignBit != 0
      && w & MantissaValueMask == LongNeg(m)
      && LongNeg(m) != 0
  {
  }

  lemma LayoutNonNegative(e: bv32, m: bv64)
    requires e <= 15 && MantissaFits(m) && !IsNegative(m)
    ensures var w := m | ((e as bv64) << 56);
      && w & ReservedMask == 0
      && (w & ExponentMask) >> 56 == e as bv64
      && w & SignBit == 0
      && w & MantissaValueMask == m
  {
  }

  /** The bit layout of a constructed word: reserved bits 60..63 clear, the
      exponent in bits 56..59, the sign of the mantissa in bit 55 and its
      magnitude in bits 0..54. */
  lemma NewLayout(exponent: bv32, mantissaValue: bv64, p: Price)
    requires New(exponent, mantissaValue) == Ok(p)
    ensures p >> 60 == 0
    ensures (p >> 56) & 15 == exponent as bv64
    ensures (p >> 55) & 1 == 1 <==> Signed(mantissaValue) < 0
    ensures p & MantissaValueMask == Magnitude(mantissaValue)
    ensures Valid(p)
  {
    NewExponentCheck(exponent, mantissaValue);
    NewMantissaCheck(exponent, mantissaValue);
    SignedNegative(mantissaValue);
    if IsNegative(mantissaValue) {
      NewWordNegative(exponent, mantissaValue);
      LayoutNegative(exponent, mantissaValue);
    } else {
      NewWordNonNegative(exponent, mantissaValue);
      LayoutNonNegative(exponent, mantissaValue);
    }
    FieldsOfWord(p);
  }

  /** The masks and the shifts name the same bits. */
  lemma FieldsOfWord(w: bv64)
    ensures w >> 60 == 0 <==> w & ReservedMask == 0
    ensures (w >> 56) & 15 == (w & ExponentMask) >> 56
    ensures (w >> 55) & 1 == 1 <==> w & SignBit != 0
  {
  }

  // ---------------------------------------------------------------------
  // Decoding

  lemma DecodeNegative(w: bv64)
    requires w & SignBit != 0
    ensures Mantissa(w) == LongNeg(w & MantissaValueMask)
  {
  }

  lemma DecodeNonNegative(w: bv64)
    requires w & SignBit == 0
    ensures Mantissa(w) == w & MantissaValueMask
  {
  }

  /** Decoding: `(abs - sign) ^ -sign` is the magnitude field, negated when
      the sign bit is set; its result always passes the constructor's test. */
  lemma MantissaDecodes(p: Price)
    ensures Mantissa(p) == if p & SignBit != 0 then LongNeg(p & MantissaValueMask)
                           else p & MantissaValueMask
    ensures MantissaFits(Mantissa(p))
  {
    if p & SignBit != 0 { DecodeNegative(p); } else { DecodeNonNegative(p); }
    MagnitudeBound(p & MantissaValueMask);
  }

  lemma MagnitudeBound(a: bv64)
    requires a <= MantissaValueMask
    ensures MantissaFits(a) && MantissaFits(LongNeg(a))
    ensures a != 0 ==> IsNegative(LongNeg(a)) && Magnitude(LongNeg(a)) == a
    ensures !IsNegative(a) && Magnitude(a) == a
  {
  }

  lemma RoundTripNegative(e: bv32, m: bv64)
    requires e <= 15 && MantissaFits(m) && IsNegative(m)
    ensures var p := LongNeg(m) | SignBit | ((e as bv64) << 56);
      Exponent(p) == e && Mantissa(p) == m
  {
    var w := LongNeg(m) | SignBit | ((e as bv64) << 56);
    LayoutNegative(e, m);
    DecodeNegative(w);
  }

  lemma RoundTripNonNegative(e: bv32, m: bv64)
    requires e <= 15 && MantissaFits(m) && !IsNegative(m)
    ensures var p := m | ((e as bv64) << 56);
      Exponent(p) == e && Mantissa(p) == m
  {
    var w := m | ((e as bv64) << 56);
    LayoutNonNegative(e, m);
    DecodeNonNegative(w);
  }

  /** Decode after encode: a constructed price gives back the exponent and
      the mantissa it was built from. */
  lemma RoundTrip(exponent: bv32, mantissaValue: bv64, p: Price)
    requires New(exponent, mantissaValue) == Ok(p)
    ensures Exponent(p) == exponent && Mantissa(p) == mantissaValue
  {
    NewExponentCheck(exponent, mantissaValue);
    NewMantissaCheck(exponent, mantissaValue);
    if IsNegative(mantissaValue) {
      NewWordNegative(exponent, mantissaValue);
      RoundTripNegative(exponent, mantissaValue);
    } else {
      NewWordNonNegative(exponent, mantissaValue);
      RoundTripNonNegative(exponent, mantissaValue);
    }
  }

  lemma ValidWordNegative(w: bv64)
    requires Valid(w) && w & SignBit != 0
    ensures w == (w & MantissaValueMask) | SignBit | ((Exponent(w) as bv64) << 56)
  {
  }

  lemma ValidWordNonNegative(w: bv64)
    requires Valid(w) && w & SignBit == 0
    ensures w == (w & MantissaValueMask) | ((Exponent(w) as bv64) << 56)
  {
  }

  /** Encode after decode: a valid word is rebuilt exactly by the
      constructor from its own exponent and mantissa. So the valid words are
      precisely the words the constructor can produce. */
  lemma EncodeDecode(p: Price)
    requires Valid(p)
    ensures New(Exponent(p), Mantissa(p)) == Ok(p)
  {
    if p & SignBit != 0 { EncodeDecodeNegative(p); } else { EncodeDecodeNonNegative(p); }
  }

  lemma EncodeDecodeNegative(p: Price)
    requires Valid(p) && p & SignBit != 0
    ensures New(Exponent(p), Mantissa(p)) == Ok(p)
  {
    var a := p & MantissaValueMask;
    var e := Exponent(p);
    var m := Mantissa(p);
    DecodeNegative(p);
    MagnitudeBound(a);
    LongNegInvolution(a);
    ValidWordNegative(p);
    NewWordNegative(e, m);
  }

  lemma EncodeDecodeNonNegative(p: Price)
    requires Valid(p) && p & SignBit == 0
    ensures New(Exponent(p), Mantissa(p)) == Ok(p)
  {
    var a := p & MantissaValueMask;
    var e := Exponent(p);
    DecodeNonNegative(p);
    FieldFits(a);
    ValidWordNonNegative(p);
    NewWordNonNegative(e, a);
  }

  lemma FieldFits(a: bv64)
    requires a <= MantissaValueMask
    ensures MantissaFits(a) && !IsNegative(a)
  {
  }

  /** A valid price is determined by its exponent and mantissa. */
  lemma ValidFieldsDetermine(a: Price, b: Price)
    requires Valid(a) && Valid(b)
    requires Exponent(a) == Exponent(b) && Mantissa(a) == Mantissa(b)
    ensures a == b
  {
    EncodeDecode(a);
    EncodeDecode(b);
  }

  /** `Price.Zero` is the word the constructor builds for (0, 0). */
  lemma ZeroIsNewZero()
    ensures New(0, 0) == Ok(Zero)
    ensures Exponent(Zero) == 0 && Mantissa(Zero) == 0
  {
    NewWordNonNegative(0, 0);
  }

  // ---------------------------------------------------------------------
  // Powers of ten

  /** 10^k. */
  function Pow10(k: nat): (r: nat)
    ensures r >= 1
  {
    if k == 0 then 1 else 10 * Pow10(k - 1)
  }

  /** The `Powers10` table of longs, 10^0 .. 10^15. */
  const Powers10: seq<bv64> := [
    1, 10, 100, 1000, 10000, 100000, 1000000, 10000000, 100000000,
    1000000000, 10000000000, 100000000000, 1000000000000, 10000000000000,
    100000000000000, 1000000000000000]

  /** Every entry of the table is the power of ten at its index, and is
      small enough to be positive as a long. */
  lemma Powers10Table(k: nat)
    requires k < 16
    ensures Powers10[k] as int == Pow10(k)
    ensures !IsNegative(Powers10[k]) && Powers10[k] != 0
  {
    Pow10Values();
    // one branch per index, so that each entry is compared with its own
    // literal power rather than with `Powers10[k]` for an unknown k
    if k == 0 { } else if k == 1 { } else if k == 2 { } else if k == 3 { } else if k == 4 { } else if k == 5 { } else if k == 6 { } else if k == 7 { } else if k == 8 { } else if k == 9 { } else if k == 10 { } else if k == 11 { } else if k == 12 { } else if k == 13 { } else if k == 14 { } else { }
  }

  lemma Pow10Values()
    ensures Pow10(0) == 1 && Pow10(1) == 10 && Pow10(2) == 100 && Pow10(3) == 1000
    ensures Pow10(4) == 10000 && Pow10(5) == 100000 && Pow10(6) == 1000000
    ensures Pow10(7) == 10000000 && Pow10(8) == 100000000 && Pow10(9) == 1000000000
    ensures Pow10(10) == 10000000000 && Pow10(11) == 100000000000
    ensures Pow10(12) == 1000000000000 && Pow10(13) == 10000000000000
    ensures Pow10(14) == 100000000000000 && Pow10(15) == 1000000000000000
  {
    assert Pow10(1) == 10;
    assert Pow10(2) == 100;
    assert Pow10(3) == 1000;
    assert Pow10(4) == 10000;
    assert Pow10(5) == 100000;
    assert Pow10(6) == 1000000;
    assert Pow10(7) == 10000000;
    assert Pow10(8) == 100000000;
    assert Pow10(9) == 1000000000;
    assert Pow10(10) == 10000000000;
    assert Pow10(11) == 100000000000;
    assert Pow10(12) == 1000000000000;
    assert Pow10(13) == 10000000000000;
    assert Pow10(14) == 100000000000000;
  }

  lemma {:induction false} Pow10Add(i: nat, j: nat)
    ensures Pow10(i + j) == Pow10(i) * Pow10(j)
  {
    if j > 0 {
      Pow10Add(i, j - 1);
      calc {
        Pow10(i + j);
        10 * Pow10(i + (j - 1));
        10 * (Pow10(i) * Pow10(j - 1));
        Pow10(i) * (10 * Pow10(j - 1));
      }
    }
  }

  // ---------------------------------------------------------------------
  // Comparison, as written

  /** `c = (int)this.Exponent - (int)other.Exponent`; both exponents are
      0..15, so the `int` subtraction cannot overflow. */
  function ExponentGap(a: Price, b: Price): (c: int)
    ensures -15 <= c <= 15
  {
    Exponent(a) as int - Exponent(b) as int
  }

  lemma ExponentGapZero(a: Price, b: Price)
    ensures ExponentGap(a, b) == 0 <==> Exponent(a) == Exponent(b)
  {
  }

  lemma ExponentGapAntisymmetric(a: Price, b: Price)
    ensures ExponentGap(b, a) == -ExponentGap(a, b)
  {
  }

  /** The body of `CompareTo` once the exponent gap `c` is known. With equal
      exponents the mantissas are compared; otherwise the mantissa of the
      side with the larger exponent is multiplied by `Powers10[|c|]`, an
      unchecked long product, and compared with the other mantissa. */
  function CompareAtGap(ma: bv64, mb: bv64, c: int): (r: int)
    requires -15 <= c <= 15
    ensures -1 <= r <= 1
  {
    if c == 0 then CompareLong(ma, mb)
    else if c > 0 then CompareLong(LongMul(ma, Powers10[c]), mb)
    else CompareLong(ma, LongMul(mb, Powers10[-c]))
  }

  /** `CompareTo`. */
  function CompareTo(a: Price, b: Price): (r: int)
    ensures -1 <= r <= 1
  {
    CompareAtGap(Mantissa(a), Mantissa(b), ExponentGap(a, b))
  }

  /** The body of `Equals(Price)` past its first test, once the exponent gap
      `c` is known: distinct words with the same exponent are unequal,
      otherwise the rescaled test of `CompareTo`. */
  function EqualsAtGap(ma: bv64, mb: bv64, c: int): bool
    requires -15 <= c <= 15
  {
    if c == 0 then false
    else if c > 0 then LongMul(ma, Powers10[c]) == mb
    else ma == LongMul(mb, Powers10[-c])
  }

  /** `Equals(Price)`: identical words are equal, otherwise `EqualsAtGap`. */
  function Equals(a: Price, b: Price): bool {
    a == b || EqualsAtGap(Mantissa(a), Mantissa(b), ExponentGap(a, b))
  }

  /** `Equals` is symmetric (and, by its first test, reflexive). */
  lemma EqualsSymmetric(a: Price, b: Price)
    ensures Equals(a, b) == Equals(b, a)
  {
    var ma, mb, c := Mantissa(a), Mantissa(b), ExponentGap(a, b);
    ExponentGapAntisymmetric(a, b);
    EqualsAtGapSymmetric(ma, mb, c);
    assert Equals(a, b) == (a == b || EqualsAtGap(ma, mb, c));
    assert Equals(b, a) == (b == a || EqualsAtGap(mb, ma, -c));
  }

  lemma EqualsAtGapSymmetric(ma: bv64, mb: bv64, c: int)
    requires -15 <= c <= 15
    ensures EqualsAtGap(ma, mb, c) == EqualsAtGap(mb, ma, -c)
  {
  }

  /** Swapping the operands negates `CompareTo`. */
  lemma CompareToAntisymmetric(a: Price, b: Price)
    ensures CompareTo(a, b) == -CompareTo(b, a)
  {
    ExponentGapAntisymmetric(a, b);
    CompareAtGapAntisymmetric(Mantissa(a), Mantissa(b), ExponentGap(a, b));
  }

  lemma CompareAtGapAntisymmetric(ma: bv64, mb: bv64, c: int)
    requires -15 <= c <= 15
    ensures CompareAtGap(ma, mb, c) == -CompareAtGap(mb, ma, -c)
  {
    if c == 0 {
      CompareLongAntisymmetric(ma, mb);
    } else if c > 0 {
      CompareLongAntisymmetric(LongMul(ma, Powers10[c]), mb);
    } else {
      CompareLongAntisymmetric(ma, LongMul(mb, Powers10[-c]));
    }
  }

  lemma CompareLongAntisymmetric(x: bv64, y: bv64)
    ensures CompareLong(x, y) == -CompareLong(y, x)
  {
  }

  /** On words the constructor builds, `Equals` holds exactly when
      `CompareTo` reports 0. */
  lemma EqualsIffCompareToZero(a: Price, b: Price)
    requires Valid(a) && Valid(b)
    ensures Equals(a, b) <==> CompareTo(a, b) == 0
  {
    if a == b {
      SameWordEqualsAndCompares(a);
    } else if Exponent(a) == Exponent(b) {
      SameExponentDistinctWords(a, b);
    } else {
      MixedExponentsEqualsIffCompare(a, b);
    }
  }

  lemma SameWordEqualsAndCompares(a: Price)
    ensures Equals(a, a) && CompareTo(a, a) == 0
  {
    CompareToUnfold(a, a);
    EqualsAtGapIffCompare(Mantissa(a), Mantissa(a), 0);
  }

  lemma SameExponentDistinctWords(a: Price, b: Price)
    requires Valid(a) && Valid(b) && a != b && Exponent(a) == Exponent(b)
    ensures !Equals(a, b) && CompareTo(a, b) != 0
  {
    ExponentGapZero(a, b);
    ValidFieldsDiffer(a, b);
    EqualsUnfold(a, b);
    CompareToUnfold(a, b);
    EqualsAtGapIffCompare(Mantissa(a), Mantissa(b), 0);
  }

  lemma MixedExponentsEqualsIffCompare(a: Price, b: Price)
    requires Exponent(a) != Exponent(b)
    ensures Equals(a, b) <==> CompareTo(a, b) == 0
  {
    ExponentGapZero(a, b);
    EqualsUnfold(a, b);
    CompareToUnfold(a, b);
    EqualsAtGapIffCompare(Mantissa(a), Mantissa(b), ExponentGap(a, b));
  }

  lemma EqualsUnfold(a: Price, b: Price)
    ensures Equals(a, b) == (a == b || EqualsAtGap(Mantissa(a), Mantissa(b), ExponentGap(a, b)))
  {
  }

  lemma CompareToUnfold(a: Price, b: Price)
    ensures CompareTo(a, b) == CompareAtGap(Mantissa(a), Mantissa(b), ExponentGap(a, b))
  {
  }

  lemma EqualsAtGapIffCompare(ma: bv64, mb: bv64, c: int)
    requires -15 <= c <= 15
    ensures c != 0 ==> (EqualsAtGap(ma, mb, c) <==> CompareAtGap(ma, mb, c) == 0)
    ensures c == 0 ==> (CompareAtGap(ma, mb, c) == 0 <==> ma == mb)
  {
  }

  /** Two distinct valid words with the same exponent differ in mantissa. */
  lemma ValidFieldsDiffer(a: Price, b: Price)
    requires Valid(a) && Valid(b) && a != b
    requires Exponent(a) == Exponent(b)
    ensures Mantissa(a) != Mantissa(b)
  {
    EncodeDecode(a);
    EncodeDecode(b);
  }

  /** The validity requirement above cannot be dropped: the "negative zero"
      word (sign bit over a zero magnitude) compares equal to `Zero` but is
      not `Equals` to it. */
  lemma NegativeZeroCompare()
    ensures !Valid(SignBit)
    ensures CompareTo(SignBit, Zero) == 0
    ensures !Equals(SignBit, Zero)
  {
    DecodeNegative(SignBit);
    DecodeNonNegative(0);
  }

  /** `operator >`. */
  function Greater(x: Price, y: Price): bool {
    CompareTo(x, y) > 0
  }

  /** `operator <`. */
  function Less(x: Price, y: Price): bool {
    CompareTo(x, y) < 0
  }

  /** `operator >=`. */
  function GreaterOrEqual(x: Price, y: Price): bool {
    CompareTo(x, y) >= 0
  }

  /** `operator <=`. */
  function LessOrEqual(x: Price, y: Price): bool {
    CompareTo(x, y) <= 0
  }

  /** The four ordering operators are mirror images of each other, and on
      valid words `>=` is `>` or `==`. */
  lemma OrderingOperators(x: Price, y: Price)
    ensures Greater(x, y) <==> Less(y, x)
    ensures GreaterOrEqual(x, y) <==> LessOrEqual(y, x)
    ensures LessOrEqual(x, y) <==> !Greater(x, y)
    ensures GreaterOrEqual(x, y) <==> !Less(x, y)
    ensures Valid(x) && Valid(y) ==> (GreaterOrEqual(x, y) <==> Greater(x, y) || Equals(x, y))
  {
    CompareToAntisymmetric(x, y);
    if Valid(x) && Valid(y) {
      EqualsIffCompareToZero(x, y);
    }
  }

  // ---------------------------------------------------------------------
  // Arithmetic

  /** A mantissa the constructor accepts can be negated and still be
      accepted: the valid range is symmetric. */
  lemma NegateFits(m: bv64)
    requires MantissaFits(m)
    ensures MantissaFits(LongNeg(m))
  {
  }

  /** The constructor succeeds on every exponent 0..15 and every mantissa
      that passes its test. */
  lemma NewOk(exponent: bv32, mantissaValue: bv64)
    requires exponent <= 15 && MantissaFits(mantissaValue)
    ensures New(exponent, mantissaValue).Ok?
  {
    NewExponentCheck(exponent, mantissaValue);
    NewMantissaCheck(exponent, mantissaValue);
  }

  /** A successful construction decodes to its inputs. */
  lemma NewDecodes(exponent: bv32, mantissaValue: bv64)
    requires exponent <= 15 && MantissaFits(mantissaValue)
    ensures New(exponent, mantissaValue).Ok?
    ensures Exponent(New(exponent, mantissaValue).value) == exponent
    ensures Mantissa(New(exponent, mantissaValue).value) == mantissaValue
  {
    NewOk(exponent, mantissaValue);
    RoundTrip(exponent, mantissaValue, New(exponent, mantissaValue).value);
  }

  /** Every decoded mantissa passes the constructor's test. */
  lemma DecodedMantissaFits(p: Price)
    ensures MantissaFits(Mantissa(p))
  {
    MantissaDecodes(p);
  }

  /** What the constructor does when the exponent is in range: it fails on
      the mantissa exactly when the mantissa does not fit, and otherwise
      builds a word that decodes to its inputs. */
  lemma NewOutcome(exponent: bv32, mantissaValue: bv64)
    requires exponent <= 15
    ensures New(exponent, mantissaValue).Ok? <==> MantissaFits(mantissaValue)
    ensures New(exponent, mantissaValue) == Err(MantissaOutOfRange) <==> !MantissaFits(mantissaValue)
    ensures New(exponent, mantissaValue).Ok? ==>
      Exponent(New(exponent, mantissaValue).value) == exponent &&
      Mantissa(New(exponent, mantissaValue).value) == mantissaValue
  {
    NewExponentCheck(exponent, mantissaValue);
    NewMantissaCheck(exponent, mantissaValue);
    if MantissaFits(mantissaValue) {
      NewDecodes(exponent, mantissaValue);
    }
  }

  /** Unary `operator -`: a new price with the same exponent and the
      mantissa negated as a long. */
  function Negate(x: Price): Result<Price> {
    New(Exponent(x), LongNeg(Mantissa(x)))
  }

  lemma NegateUnfold(x: Price)
    ensures Negate(x) == New(Exponent(x), LongNeg(Mantissa(x)))
  {
  }

  lemma NegatedFields(x: Price)
    ensures New(Exponent(x), LongNeg(Mantissa(x))).Ok?
    ensures Exponent(New(Exponent(x), LongNeg(Mantissa(x))).value) == Exponent(x)
    ensures Mantissa(New(Exponent(x), LongNeg(Mantissa(x))).value) == LongNeg(Mantissa(x))
  {
    DecodedMantissaFits(x);
    NegateFits(Mantissa(x));
    NewDecodes(Exponent(x), LongNeg(Mantissa(x)));
  }

  /** Negation never throws, whatever the word: every decoded mantissa
      fits, and so does its negation. It keeps the exponent and negates the
      mantissa. */
  lemma NegateNeverThrows(x: Price)
    ensures Negate(x).Ok?
    ensures Exponent(Negate(x).value) == Exponent(x)
    ensures Mantissa(Negate(x).value) == LongNeg(Mantissa(x))
  {
    NegateUnfold(x);
    NegatedFields(x);
  }

  /** On a valid word, unary minus flips the sign bit, except on a zero
      magnitude, which has no negative form and is left as it is. */
  lemma NegateWord(x: Price)
    requires Valid(x)
    ensures Negate(x) == Ok(if x & MantissaValueMask == 0 then x else x ^ SignBit)
  {
    NegateUnfold(x);
    if x & SignBit != 0 {
      NegateWordNegative(x);
    } else if x & MantissaValueMask == 0 {
      NegateWordZero(x);
    } else {
      NegateWordPositive(x);
    }
  }

  lemma NegateWordNegative(x: Price)
    requires Valid(x) && x & SignBit != 0
    ensures New(Exponent(x), LongNeg(Mantissa(x))) == Ok(x ^ SignBit)
    ensures x & MantissaValueMask != 0
  {
    DecodeNegative(x);
    LongNegInvolution(x & MantissaValueMask);
    FlipNegativeWord(x);
    NewOfMagnitude(Exponent(x), x & MantissaValueMask);
  }

  lemma FlipNegativeWord(x: Price)
    requires Valid(x) && x & SignBit != 0
    ensures x ^ SignBit == (x & MantissaValueMask) | ((Exponent(x) as bv64) << 56)
    ensures x & MantissaValueMask != 0
  {
    ValidWordNegative(x);
  }

  /** The constructor on a non-negative mantissa that fits in the field. */
  lemma NewOfMagnitude(e: bv32, a: bv64)
    requires e <= 15 && a <= MantissaValueMask
    ensures New(e, a) == Ok(a | ((e as bv64) << 56))
  {
    FieldFits(a);
    NewWordNonNegative(e, a);
  }

  lemma NegateWordZero(x: Price)
    requires Valid(x) && x & SignBit == 0 && x & MantissaValueMask == 0
    ensures New(Exponent(x), LongNeg(Mantissa(x))) == Ok(x)
  {
    DecodeNonNegative(x);
    ValidWordNonNegative(x);
    NewWordNonNegative(Exponent(x), 0);
  }

  lemma NegateWordPositive(x: Price)
    requires Valid(x) && x & SignBit == 0 && x & MantissaValueMask != 0
    ensures New(Exponent(x), LongNeg(Mantissa(x))) == Ok(x ^ SignBit)
  {
    DecodeNonNegative(x);
    FlipPositiveWord(x);
    NewOfNegatedMagnitude(Exponent(x), x & MantissaValueMask);
  }

  lemma FlipPositiveWord(x: Price)
    requires Valid(x) && x & SignBit == 0
    ensures x ^ SignBit == (x & MantissaValueMask) | SignBit | ((Exponent(x) as bv64) << 56)
  {
    ValidWordNonNegative(x);
  }

  /** The constructor on the negation of a nonzero magnitude that fits in
      the field. */
  lemma NewOfNegatedMagnitude(e: bv32, a: bv64)
    requires e <= 15 && a <= MantissaValueMask && a != 0
    ensures New(e, LongNeg(a)) == Ok(a | SignBit | ((e as bv64) << 56))
  {
    MagnitudeBound(a);
    LongNegInvolution(a);
    NewWordNegative(e, LongNeg(a));
  }

  /** Negating a valid price twice gives back the identical word. */
  lemma NegateNegate(x: Price)
    requires Valid(x)
    ensures Negate(x).Ok? && Negate(Negate(x).value) == Ok(x)
  {
    NegateNeverThrows(x);
    NegateUnfold(Negate(x).value);
    LongNegInvolution(Mantissa(x));
    EncodeDecode(x);
  }

  /** Outcome of binary `+` and `-`: with equal exponents the constructor's
      result; otherwise the decimal path, which is not modelled, is taken
      with the larger exponent as its precision. */
  datatype Sum = Computed(result: Result<Price>) | ViaDecimal(precision: bv32)

  function MaxExponent(x: Price, y: Price): bv32 {
    if Exponent(x) < Exponent(y) then Exponent(y) else Exponent(x)
  }

  /** Binary `operator +`. */
  function Add(x: Price, y: Price): Sum {
    if Exponent(x) == Exponent(y) then Computed(New(Exponent(x), LongAdd(Mantissa(x), Mantissa(y))))
    else ViaDecimal(MaxExponent(x, y))
  }

  /** Binary `operator -`. */
  function Sub(x: Price, y: Price): Sum {
    if Exponent(x) == Exponent(y) then Computed(New(Exponent(x), LongSub(Mantissa(x), Mantissa(y))))
    else ViaDecimal(MaxExponent(x, y))
  }

  lemma AddUnfold(x: Price, y: Price)
    requires Exponent(x) == Exponent(y)
    ensures Add(x, y) == Computed(New(Exponent(x), LongAdd(Mantissa(x), Mantissa(y))))
  {
  }

  lemma SubUnfold(x: Price, y: Price)
    requires Exponent(x) == Exponent(y)
    ensures Sub(x, y) == Computed(New(Exponent(x), LongSub(Mantissa(x), Mantissa(y))))
  {
  }

  /** `+` is commutative, also in the precision it hands to the decimal
      path. */
  lemma AddCommutative(x: Price, y: Price)
    ensures Add(x, y) == Add(y, x)
  {
  }

  /** With equal exponents, `+` keeps the exponent and adds the mantissas;
      it throws exactly when the sum does not pass the constructor's
      mantissa test. With different exponents it takes the decimal path at
      the larger exponent. */
  lemma AddSameExponent(x: Price, y: Price)
    requires Exponent(x) == Exponent(y)
    ensures Add(x, y).Computed?
    ensures Add(x, y).result == Err(MantissaOutOfRange) <==> !MantissaFits(LongAdd(Mantissa(x), Mantissa(y)))
    ensures Add(x, y).result.Ok? ==>
      Exponent(Add(x, y).result.value) == Exponent(x) &&
      Mantissa(Add(x, y).result.value) == LongAdd(Mantissa(x), Mantissa(y))
    ensures IsNegative(Mantissa(x)) == IsNegative(Mantissa(y)) ==>
      IsNegative(LongAdd(Mantissa(x), Mantissa(y))) == IsNegative(Mantissa(x))
    ensures SmallLong(LongAdd(Mantissa(x), Mantissa(y)))
  {
    AddUnfold(x, y);
    NewOutcome(Exponent(x), LongAdd(Mantissa(x), Mantissa(y)));
    DecodedAddNoWrap(x, y);
  }

  /** -2^56 < m < 2^56 read as a long: far inside the long range. */
  predicate SmallLong(m: bv64) {
    m < 0x0100_0000_0000_0000 || 0xFF00_0000_0000_0000 < m
  }

  lemma DecodedAddNoWrap(x: Price, y: Price)
    ensures IsNegative(Mantissa(x)) == IsNegative(Mantissa(y)) ==>
      IsNegative(LongAdd(Mantissa(x), Mantissa(y))) == IsNegative(Mantissa(x))
    ensures SmallLong(LongAdd(Mantissa(x), Mantissa(y)))
  {
    DecodedMantissaFits(x);
    DecodedMantissaFits(y);
    LongAddNoWrap(Mantissa(x), Mantissa(y));
  }

  lemma DecodedSubNoWrap(x: Price, y: Price)
    ensures IsNegative(Mantissa(x)) != IsNegative(Mantissa(y)) ==>
      IsNegative(LongSub(Mantissa(x), Mantissa(y))) == IsNegative(Mantissa(x))
    ensures SmallLong(LongSub(Mantissa(x), Mantissa(y)))
  {
    DecodedMantissaFits(x);
    DecodedMantissaFits(y);
    LongSubNoWrap(Mantissa(x), Mantissa(y));
  }

  /** The long `+` never wraps on mantissas that pass the constructor's
      test. A two's-complement sum overflows exactly when both operands
      have one sign and the result has the other; with both magnitudes
      below 2^55 the result keeps the operands' sign and its magnitude
      stays below 2^56. So the test the constructor applies to the long sum
      is the test of the sum of the two numbers. */
  lemma LongAddNoWrap(a: bv64, b: bv64)
    requires MantissaFits(a) && MantissaFits(b)
    ensures IsNegative(a) == IsNegative(b) ==> IsNegative(LongAdd(a, b)) == IsNegative(a)
    ensures SmallLong(LongAdd(a, b))
  {
  }

  /** The long `-` never wraps on mantissas that pass the constructor's
      test: it overflows exactly when the operands differ in sign and the
      result takes the sign of the subtrahend. */
  lemma LongSubNoWrap(a: bv64, b: bv64)
    requires MantissaFits(a) && MantissaFits(b)
    ensures IsNegative(a) != IsNegative(b) ==> IsNegative(LongSub(a, b)) == IsNegative(a)
    ensures SmallLong(LongSub(a, b))
  {
  }

  /** With different exponents, `+` and `-` leave the word and go through
      decimals at the larger of the two exponents. */
  lemma MixedExponentsUseDecimal(x: Price, y: Price)
    requires Exponent(x) != Exponent(y)
    ensures Add(x, y) == Sub(x, y) == ViaDecimal(MaxExponent(x, y))
    ensures MaxExponent(x, y) >= Exponent(x) && MaxExponent(x, y) >= Exponent(y)
  {
  }

  /** With equal exponents, `-` keeps the exponent and subtracts the
      mantissas; it throws exactly when the difference does not pass the
      constructor's mantissa test. */
  lemma SubSameExponent(x: Price, y: Price)
    requires Exponent(x) == Exponent(y)
    ensures Sub(x, y).Computed?
    ensures Sub(x, y).result == Err(MantissaOutOfRange) <==> !MantissaFits(LongSub(Mantissa(x), Mantissa(y)))
    ensures Sub(x, y).result.Ok? ==>
      Exponent(Sub(x, y).result.value) == Exponent(x) &&
      Mantissa(Sub(x, y).result.value) == LongSub(Mantissa(x), Mantissa(y))
    ensures IsNegative(Mantissa(x)) != IsNegative(Mantissa(y)) ==>
      IsNegative(LongSub(Mantissa(x), Mantissa(y))) == IsNegative(Mantissa(x))
    ensures SmallLong(LongSub(Mantissa(x), Mantissa(y)))
  {
    SubUnfold(x, y);
    NewOutcome(Exponent(x), LongSub(Mantissa(x), Mantissa(y)));
    DecodedSubNoWrap(x, y);
  }

  /** A valid price minus itself is zero at its own exponent. */
  lemma SubSelf(x: Price)
    ensures Sub(x, x).Computed? && Sub(x, x).result.Ok?
    ensures Exponent(Sub(x, x).result.value) == Exponent(x)
    ensures Mantissa(Sub(x, x).result.value) == 0
  {
    SubSameExponent(x, x);
    assert Mantissa(x) - Mantissa(x) == 0;
  }

  /** `operator *(Price, int)`: the mantissa times the sign-extended int, as
      an unchecked long product, then the constructor's checks. */
  function MulInt(x: Price, y: bv32): Result<Price> {
    New(Exponent(x), LongMul(Mantissa(x), SignExtend(y)))
  }

  lemma MulIntUnfold(x: Price, y: bv32)
    ensures MulInt(x, y) == New(Exponent(x), LongMul(Mantissa(x), SignExtend(y)))
  {
  }

  /** `* int` keeps the exponent and carries the long product of the
      mantissa and the int; it throws exactly when that product fails the
      constructor's mantissa test. */
  lemma MulIntResult(x: Price, y: bv32)
    ensures MulInt(x, y) == Err(MantissaOutOfRange) <==> !MantissaFits(LongMul(Mantissa(x), SignExtend(y)))
    ensures MulInt(x, y).Ok? ==>
      Exponent(MulInt(x, y).value) == Exponent(x) &&
      Mantissa(MulInt(x, y).value) == LongMul(Mantissa(x), SignExtend(y))
  {
    MulIntUnfold(x, y);
    NewOutcome(Exponent(x), LongMul(Mantissa(x), SignExtend(y)));
  }

  /** Multiplying a valid price by 1 gives it back; by -1 negates it. */
  lemma MulIntByUnits(x: Price)
    requires Valid(x)
    ensures MulInt(x, 1) == Ok(x)
    ensures MulInt(x, 0xFFFF_FFFF) == Negate(x)
  {
    MulIntUnfold(x, 1);
    MulIntUnfold(x, 0xFFFF_FFFF);
    NegateUnfold(x);
    LongTimesOne(Mantissa(x));
    LongTimesMinusOne(Mantissa(x));
    EncodeDecode(x);
  }

  lemma LongTimesOne(m: bv64)
    ensures LongMul(m, SignExtend(1)) == m
  {
    SignExtendOne();
    LongMulOne(m);
  }

  lemma LongTimesMinusOne(m: bv64)
    ensures LongMul(m, SignExtend(0xFFFF_FFFF)) == LongNeg(m)
  {
    SignExtendMinusOne();
    LongMulAllOnes(m);
  }

  lemma SignExtendOne()
    ensures SignExtend(1) == 1
  {
  }

  lemma SignExtendMinusOne()
    ensures SignExtend(0xFFFF_FFFF) == 0xFFFF_FFFF_FFFF_FFFF
  {
  }

  lemma LongMulOne(m: bv64)
    ensures LongMul(m, 1) == m
  {
  }

  lemma LongMulAllOnes(m: bv64)
    ensures LongMul(m, 0xFFFF_FFFF_FFFF_FFFF) == LongNeg(m)
  {
  }

  /** The range check sees the wrapped product: 2^54 * 1024 = 2^64 is far
      outside the mantissa range, yet wraps to 0 and yields `Zero`. */
  lemma MulIntWrapsPastRangeCheck(x: Price)
    requires New(0, 0x0040_0000_0000_0000) == Ok(x)
    ensures MulInt(x, 1024) == Ok(Zero)
  {
    RoundTrip(0, 0x0040_0000_0000_0000, x);
    MulIntUnfold(x, 1024);
    assert LongMul(Mantissa(x), SignExtend(1024)) == 0;
    ZeroIsNewZero();
  }

  /** `implicit operator Price(int)`: exponent 0, the int as mantissa. */
  function FromInt(v: bv32): Result<Price> {
    New(0, SignExtend(v))
  }

  lemma SignExtendFits(v: bv32)
    ensures MantissaFits(SignExtend(v))
  {
  }

  /** Converting an int never throws: every int passes the mantissa test,
      and the result decodes to exponent 0 and the sign-extended int. */
  lemma FromIntOk(v: bv32)
    ensures FromInt(v).Ok?
    ensures Exponent(FromInt(v).value) == 0
    ensures Mantissa(FromInt(v).value) == SignExtend(v)
  {
    SignExtendFits(v);
    NewDecodes(0, SignExtend(v));
  }

  // ---------------------------------------------------------------------
  // Hashing

  /** `GetHashCode`: the low 31 bits of the word, so never negative. */
  function GetHashCode(p: Price): (h: bv32)
    ensures Signed32(h) >= 0
  {
    (p & 0x7FFF_FFFF) as bv32
  }

  /** Among valid words with the same exponent, `Equals` implies equal hash
      codes. */
  lemma HashAgreesAtSameExponent(a: Price, b: Price)
    requires Valid(a) && Valid(b) && Exponent(a) == Exponent(b)
    requires Equals(a, b)
    ensures GetHashCode(a) == GetHashCode(b)
  {
    ExponentGapZero(a, b);
  }
}
