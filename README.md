# Spreads `Price` and `BinarySerializer` in Dafny

This project models two parts of the Spreads data library and proves properties of them.

- **`Price`** (`price.dfy`, module `DataTypes`) is a blittable struct. It stores a signed decimal
  `mantissa * 10^-exponent` in one 64-bit word:
  - the magnitude of the mantissa in bits 0..54;
  - its sign in bit 55;
  - the exponent (0..15) in bits 56..59;
  - bits 60..63 clear.

  The constructor takes the sign apart without a branch, and the `Mantissa` property puts it back
  without one. The struct's comparison, equality, ordering operators, unary minus, same-exponent
  `+` and `-`, `* int` and the implicit conversion from `int` work on the exponent and the
  mantissa. `GetHashCode` masks the raw word instead.
  - A price is its word (`type Price = bv64`). A deserialized struct can hold any word, so
    `Valid` names the words the constructor can build.
  - C# `long` and `int` values are their bit patterns (`bv64`, `bv32`). Unchecked arithmetic on
    them wraps as in C#, through `LongNeg`, `LongAdd`, `LongSub` and `LongMul`.
- **`PriceComparison`** (`price_comparison.dfy`) compares prices by value. It holds a corrected
  `CompareTo`/`Equals`, and it shows how the ones in the source depart from value order (see
  Findings).
- **`BinarySerializer`** (`binary_serializer.dfy`, module `Serialization`) is modelled in two parts:
  - `SizeOf`, the size a value takes in binary form;
  - `Write`, which puts that form into a destination buffer at an offset, on four paths.

  `TypeHelper<T>` and the BSON encoder are outside this model and come in as values:
  - a `Report` holds the size `TypeHelper<T>.SizeOf` returns, the temporary stream it hands back,
    and the bytes `TypeHelper<T>.Write` stores;
  - the BSON bytes are a byte sequence.

  The destination is an `array` of bytes, changed in place by the method `Write`. `Write` is
  proved equal to the function `WriteSpec` on the array's contents, and the serializer's
  properties are lemmas about `WriteSpec`.

The struct's doc comment draws the sign at the top bit of the word and a 56-bit mantissa. The
code puts the sign in bit 55 and keeps 55 bits of magnitude, and the model follows the code.
`Equals` and `CompareTo` bring both mantissas to a common exponent before comparing them, which
evidently means to compare the prices as numbers. The code rescales the wrong side, so it does
not compare numbers. The model follows the code here too, and `PriceComparison` holds the
value-preserving version (see Findings).

## Model

| member | source | states |
|---|---|---|
| `DataTypes.CompareLong` | src/Spreads.Core/DataTypes/Price.cs:211 | `long.CompareTo`: 0 exactly on equal longs, -1 or 1 exactly as the first is below or above the second in signed order |
| `DataTypes.Exponent` | src/Spreads.Core/DataTypes/Price.cs:109 | the exponent read from bits 56..59 is at most 15, for every word |
| `DataTypes.MantissaFitsMeans` | src/Spreads.Core/DataTypes/Price.cs:136 | the constructor's mantissa test accepts exactly the longs with -2^55 < m < 2^55 |
| `DataTypes.AbsValueIsMagnitude` | src/Spreads.Core/DataTypes/Price.cs:131-133 | the branch-free `(m ^ s) + (s & 1)` with `s = m >> 63` is the two's-complement magnitude of m |
| `DataTypes.MagnitudeFits` | src/Spreads.Core/DataTypes/Price.cs:133-136 | the test `abs & ~MantissaValueMask != 0` rejects exactly the mantissas that do not fit; the magnitude of long.MinValue wraps to 2^63, so it is rejected |
| `DataTypes.NewExponentCheck` | src/Spreads.Core/DataTypes/Price.cs:129 | the constructor throws on the exponent exactly when the int is above 15 read unsigned, so negative exponents are rejected |
| `DataTypes.NewMantissaCheck` | src/Spreads.Core/DataTypes/Price.cs:129-136 | with the exponent in range, the constructor throws on the mantissa exactly when the magnitude of m is 2^55 or more |
| `DataTypes.NewLayout` | src/Spreads.Core/DataTypes/Price.cs:138-143 | a constructed word has bits 60..63 clear, the exponent in bits 56..59, bit 55 set iff the mantissa is negative, the magnitude of m in bits 0..54, and is `Valid` |
| `DataTypes.FieldsOfWord` | src/Spreads.Core/DataTypes/Price.cs:46-48 | the masks for the reserved bits, the exponent and the sign select the same bits as the shifts `w >> 60`, `(w >> 56) & 15` and `(w >> 55) & 1` |
| `DataTypes.MantissaDecodes` | src/Spreads.Core/DataTypes/Price.cs:111-122 | the branch-free `(abs - sign) ^ -sign` is the magnitude field, negated when bit 55 is set, and always passes the constructor's test |
| `DataTypes.New` | src/Spreads.Core/DataTypes/Price.cs:127-144 | the constructor; its contract is stated by `NewExponentCheck`, `NewMantissaCheck`, `NewLayout`, `NewOutcome` and `RoundTrip` |
| `DataTypes.Mantissa` | src/Spreads.Core/DataTypes/Price.cs:111-122 | the `Mantissa` property; its contract is stated by `MantissaDecodes`, `RoundTrip` and `EncodeDecode` |
| `DataTypes.RoundTrip` | src/Spreads.Core/DataTypes/Price.cs:127-144 | decode after encode: `Exponent` and `Mantissa` of a constructed price give back the constructor's arguments |
| `DataTypes.EncodeDecode` | src/Spreads.Core/DataTypes/Price.cs:109-143 | encode after decode: the constructor rebuilds every valid word from its own exponent and mantissa |
| `DataTypes.ValidFieldsDetermine` | src/Spreads.Core/DataTypes/Price.cs:109-122 | two valid words with the same exponent and mantissa are the same word |
| `DataTypes.ZeroIsNewZero` | src/Spreads.Core/DataTypes/Price.cs:41 | the constant `Zero`, the all-zero word, is what the constructor builds for (0, 0), and decodes to exponent 0, mantissa 0 |
| `DataTypes.NewOutcome` | src/Spreads.Core/DataTypes/Price.cs:127-144 | for an exponent in range, the constructor fails on the mantissa iff it does not fit, and otherwise decodes to its inputs |
| `DataTypes.Powers10Table` | src/Spreads.Core/DataTypes/Price.cs:90-107 | entry k of the constant table `Powers10` is 10^k, positive as a long |
| `DataTypes.ExponentGap` | src/Spreads.Core/DataTypes/Price.cs:208 | the exponent difference lies in -15..15, so the int subtraction does not overflow |
| `DataTypes.CompareTo` | src/Spreads.Core/DataTypes/Price.cs:206-221 | `CompareTo` returns -1, 0 or 1 |
| `DataTypes.CompareToAntisymmetric` | src/Spreads.Core/DataTypes/Price.cs:206-221 | swapping the operands negates `CompareTo`, including when the rescaled product wraps |
| `DataTypes.Equals` | src/Spreads.Core/DataTypes/Price.cs:223-244 | `Equals(Price)` as written; its contract is stated by `EqualsSymmetric`, `EqualsIffCompareToZero` and `PriceComparison.EqualsScalesWrongSide` |
| `DataTypes.EqualsSymmetric` | src/Spreads.Core/DataTypes/Price.cs:223-244 | `Equals` is symmetric |
| `DataTypes.EqualsIffCompareToZero` | src/Spreads.Core/DataTypes/Price.cs:206-244 | on valid words, `Equals` holds exactly when `CompareTo` returns 0 |
| `DataTypes.NegativeZeroCompare` | src/Spreads.Core/DataTypes/Price.cs:223-234 | the validity requirement is needed: the negative-zero word compares 0 against `Zero` but is not `Equals` to it |
| `DataTypes.Greater` | src/Spreads.Core/DataTypes/Price.cs:262-265 | `operator >`, `CompareTo` above 0; its laws are stated by `OrderingOperators` |
| `DataTypes.Less` | src/Spreads.Core/DataTypes/Price.cs:267-270 | `operator <`, `CompareTo` below 0; its laws are stated by `OrderingOperators` |
| `DataTypes.GreaterOrEqual` | src/Spreads.Core/DataTypes/Price.cs:272-275 | `operator >=`, `CompareTo` at least 0; its laws are stated by `OrderingOperators` |
| `DataTypes.LessOrEqual` | src/Spreads.Core/DataTypes/Price.cs:277-280 | `operator <=`, `CompareTo` at most 0; its laws are stated by `OrderingOperators` |
| `DataTypes.OrderingOperators` | src/Spreads.Core/DataTypes/Price.cs:262-280 | `>`/`<` and `>=`/`<=` mirror each other, `<=` is not `>`, `>=` is not `<`, and on valid words `>=` is `>` or `Equals` |
| `DataTypes.Negate` | src/Spreads.Core/DataTypes/Price.cs:282-286 | unary minus; its contract is stated by `NegateNeverThrows`, `NegateWord` and `NegateNegate` |
| `DataTypes.NegateFits` | src/Spreads.Core/DataTypes/Price.cs:282-286 | the accepted mantissa range is symmetric: negating an accepted mantissa gives an accepted one |
| `DataTypes.NegateNeverThrows` | src/Spreads.Core/DataTypes/Price.cs:282-286 | unary minus never throws, for any word; it keeps the exponent and negates the mantissa |
| `DataTypes.NegateWord` | src/Spreads.Core/DataTypes/Price.cs:282-286 | on a valid word unary minus flips bit 55, except for a zero magnitude, which it leaves as it is |
| `DataTypes.NegateNegate` | src/Spreads.Core/DataTypes/Price.cs:282-286 | negating a valid price twice gives back the identical word |
| `DataTypes.Add` | src/Spreads.Core/DataTypes/Price.cs:288-295 | binary `+`; its contract is stated by `AddSameExponent`, `AddCommutative` and `MixedExponentsUseDecimal` |
| `DataTypes.AddSameExponent` | src/Spreads.Core/DataTypes/Price.cs:288-293 | with equal exponents `+` keeps the exponent and adds the mantissas as longs, throwing exactly when the sum fails the mantissa test; the long sum of two decoded mantissas never wraps, so the test sees the sum of the numbers |
| `DataTypes.LongAddNoWrap` | src/Spreads.Core/DataTypes/Price.cs:292 | two mantissas that pass the constructor's test add as longs without overflow: same-sign operands give a result of that sign, and the result's magnitude is below 2^56 |
| `DataTypes.AddCommutative` | src/Spreads.Core/DataTypes/Price.cs:288-295 | `+` is commutative, on both branches |
| `DataTypes.MixedExponentsUseDecimal` | src/Spreads.Core/DataTypes/Price.cs:294-303 | with different exponents `+` and `-` take the decimal path at the larger exponent |
| `DataTypes.Sub` | src/Spreads.Core/DataTypes/Price.cs:297-304 | binary `-`; its contract is stated by `SubSameExponent`, `SubSelf` and `MixedExponentsUseDecimal` |
| `DataTypes.SubSameExponent` | src/Spreads.Core/DataTypes/Price.cs:297-302 | with equal exponents `-` keeps the exponent and subtracts the mantissas, throwing exactly when the difference fails the mantissa test; the long difference of two decoded mantissas never wraps |
| `DataTypes.LongSubNoWrap` | src/Spreads.Core/DataTypes/Price.cs:301 | two mantissas that pass the constructor's test subtract as longs without overflow: operands of different signs give a result with the sign of the first, and the result's magnitude is below 2^56 |
| `DataTypes.SubSelf` | src/Spreads.Core/DataTypes/Price.cs:297-302 | x - x never throws and is zero at x's exponent |
| `DataTypes.MulInt` | src/Spreads.Core/DataTypes/Price.cs:306-309 | `operator *(Price, int)`; its contract is stated by `MulIntResult`, `MulIntByUnits` and `MulIntWrapsPastRangeCheck` |
| `DataTypes.MulIntResult` | src/Spreads.Core/DataTypes/Price.cs:306-309 | `* int` keeps the exponent and carries the wrapped long product, throwing exactly when that product fails the mantissa test |
| `DataTypes.MulIntByUnits` | src/Spreads.Core/DataTypes/Price.cs:306-309 | multiplying a valid price by 1 gives it back, and by -1 is unary minus |
| `DataTypes.MulIntWrapsPastRangeCheck` | src/Spreads.Core/DataTypes/Price.cs:306-309 | the range check sees the wrapped product: 2^54 * 1024 wraps to 0 and yields `Zero` instead of throwing |
| `DataTypes.FromInt` | src/Spreads.Core/DataTypes/Price.cs:200-203 | the implicit conversion from `int`; its contract is stated by `FromIntOk` |
| `DataTypes.FromIntOk` | src/Spreads.Core/DataTypes/Price.cs:200-203 | the implicit conversion from `int` never throws and gives exponent 0 with the int as mantissa |
| `DataTypes.GetHashCode` | src/Spreads.Core/DataTypes/Price.cs:317-320 | the hash code is never negative |
| `DataTypes.HashAgreesAtSameExponent` | src/Spreads.Core/DataTypes/Price.cs:317-320 | at the same exponent, valid prices that are `Equals` have equal hash codes |
| `PriceComparison.CompareToRescaledIsValueOrder` | src/Spreads.Core/DataTypes/Price.cs:206-221 | the corrected comparison is the order of the values `m / 10^e` |
| `PriceComparison.CompareToRescaledAntisymmetric` | src/Spreads.Core/DataTypes/Price.cs:206-221 | the corrected comparison is antisymmetric |
| `PriceComparison.EqualsRescaledIsValueEquality` | src/Spreads.Core/DataTypes/Price.cs:223-244 | on valid words the corrected `Equals` is equality of values |
| `PriceComparison.NormalizeSound` | src/Spreads.Core/DataTypes/Price.cs:317-320 | dropping trailing zeros of the mantissa while the exponent is positive gives a normal form of the same number, with no larger exponent |
| `PriceComparison.NormalUnique` | src/Spreads.Core/DataTypes/Price.cs:317-320 | two normal forms of the same number are the same |
| `PriceComparison.SameNumberIffSameNormalForm` | src/Spreads.Core/DataTypes/Price.cs:317-320 | two mantissa and exponent pairs stand for the same number exactly when their normal forms are the same |
| `PriceComparison.ValueEqualIffSameNormalForm` | src/Spreads.Core/DataTypes/Price.cs:317-320 | two prices are equal in value exactly when their normal forms are the same |
| `PriceComparison.HashRescaled` | src/Spreads.Core/DataTypes/Price.cs:317-320 | the corrected hash code, a function of the normal form, is never negative |
| `PriceComparison.EqualsRescaledHashAgrees` | src/Spreads.Core/DataTypes/Price.cs:317-320 | valid prices that the corrected `Equals` calls equal, or that are equal in value, get the same corrected hash code |
| `PriceComparison.HashSplitsEqualValues` | src/Spreads.Core/DataTypes/Price.cs:317-320 | 1.50 and 1.500 are equal in value, yet `GetHashCode` differs for them; the corrected hash code agrees |
| `PriceComparison.EqualsScalesWrongSide` | src/Spreads.Core/DataTypes/Price.cs:236-243 | 1.50 and 1.500 are equal in value, yet `Equals` is false and `CompareTo` says -1 |
| `PriceComparison.TenthEqualsTen` | src/Spreads.Core/DataTypes/Price.cs:213-220 | 0.1 and 10 differ in value, yet `Equals` is true and `CompareTo` says 0, and their hash codes differ |
| `Serialization.Int32RoundTrip` | src/Spreads.Core/Serialization/BinarySerializer.cs:66 | the four little-endian bytes stored for an int read back as that int |
| `Serialization.FramedSizeValue` | src/Spreads.Core/Serialization/BinarySerializer.cs:63 | `8 + checked((int)length)` is 8 plus the length, except within 8 of int.MaxValue, where the unchecked addition wraps to a negative size |
| `Serialization.FramedSize` | src/Spreads.Core/Serialization/BinarySerializer.cs:63 | `8 + checked((int)length)` overflows exactly on lengths above int.MaxValue; `FramedSizeValue` states its value |
| `Serialization.Int32LE` | src/Spreads.Core/Serialization/BinarySerializer.cs:66 | the four bytes `WriteInt32` stores; `Int32RoundTrip` states that they read back as the int |
| `Serialization.CheckedLength` | src/Spreads.Core/Serialization/BinarySerializer.cs:85 | `checked((int)length)` succeeds exactly on lengths up to int.MaxValue, and then gives the length |
| `Serialization.Splice` | src/Spreads.Core/Serialization/BinarySerializer.cs:69 | a copy into the buffer keeps its length, puts the bytes at the target, and changes nothing else |
| `Serialization.HeaderAt` | src/Spreads.Core/Serialization/BinarySerializer.cs:66-67 | the header stores the size as an int at its first four bytes and 0 at its sixth byte, changing nothing else |
| `Serialization.CheckedCopy` | src/Spreads.Core/Serialization/BinarySerializer.cs:85-87 | the raw stream copy of the size-0 and BSON paths; its contract is stated by `CheckedCopyOutcome` |
| `Serialization.WriteSpec` | src/Spreads.Core/Serialization/BinarySerializer.cs:55-98 | the result and new contents of `Write` on its four paths; its contract is stated by the five `Write...Path` lemmas and `WriteChecksBeforeStoring` |
| `Serialization.CopyInto` | src/Spreads.Core/Serialization/BinarySerializer.cs:69 | copying into the array in place leaves it equal to the spliced contents |
| `Serialization.CopyChecked` | src/Spreads.Core/Serialization/BinarySerializer.cs:85-87 | a raw stream copy casts the length, bounds-checks, and only then copies |
| `Serialization.Write` | src/Spreads.Core/Serialization/BinarySerializer.cs:55-98 | `Write` on the array returns and stores exactly what `WriteSpec` says of its old contents, on all four paths |
| `Serialization.CheckedCopyOutcome` | src/Spreads.Core/Serialization/BinarySerializer.cs:85-96 | a checked copy throws on an oversized length or a short buffer, leaving it untouched, and otherwise copies the bytes and nothing else |
| `Serialization.WritePayloadPath` | src/Spreads.Core/Serialization/BinarySerializer.cs:63-71 | with a payload stream, `Write` throws before any store iff the buffer is shorter than offset + 8 + length; otherwise it returns 8 + length, puts the size at bytes 0..3 and 0 at byte 5 whatever the offset, the payload at offset + 8, and changes nothing else |
| `Serialization.WritePayloadOverflow` | src/Spreads.Core/Serialization/BinarySerializer.cs:63 | a payload stream longer than int.MaxValue makes `checked((int)length)` throw before any store: `Write` fails with an overflow and the buffer is unchanged |
| `Serialization.WriteFixedPath` | src/Spreads.Core/Serialization/BinarySerializer.cs:74-80 | fixed size: bounds-checked first, then the helper's bytes at the offset with no header, and the reported size is returned |
| `Serialization.WriteTempStreamPath` | src/Spreads.Core/Serialization/BinarySerializer.cs:82-90 | size 0 with a temporary stream: that stream is copied raw at the offset, bounds-checked first, and its length is returned |
| `Serialization.WriteUncheckedPath` | src/Spreads.Core/Serialization/BinarySerializer.cs:84 | size 0 with no stream: `TypeHelper<T>.Write` stores its bytes with no bounds check, and its count is returned |
| `Serialization.WriteBsonPath` | src/Spreads.Core/Serialization/BinarySerializer.cs:93-97 | no binary layout: the BSON bytes are copied raw at the offset, bounds-checked first, and their length is returned |
| `Serialization.WriteChecksBeforeStoring` | src/Spreads.Core/Serialization/BinarySerializer.cs:65-96 | a failed `Write` leaves the buffer unchanged; without a payload stream a successful one changes only offset .. offset + size |
| `Serialization.PayloadHeaderIgnoresOffset` | src/Spreads.Core/Serialization/BinarySerializer.cs:66-69 | an empty payload written at offset 8 overwrites byte 0, before the reported window, and the four bytes at the offset do not read as the size |
| `Serialization.FramedSizeWrapPassesCheck` | src/Spreads.Core/Serialization/BinarySerializer.cs:63-69 | for a payload within 8 bytes of int.MaxValue the framed size is negative, so the bounds check at offset 0 passes for every buffer of up to int.MaxValue bytes although the copy needs more; the checked sum reports an overflow |
| `Serialization.WriteAtOffsetSpec` | src/Spreads.Core/Serialization/BinarySerializer.cs:55-98 | `Write` with the payload path's size computed by a checked addition and its header at the offset; its contract is stated by `WriteAtOffsetStaysInWindow` |
| `Serialization.WriteAtOffsetStaysInWindow` | src/Spreads.Core/Serialization/BinarySerializer.cs:63-69 | corrected, every path writes only inside offset .. offset + size for every payload length, an oversized frame is an overflow, and a framed payload reads back from the offset |
| `Serialization.BsonSizeOf` | src/Spreads.Core/Serialization/BinarySerializer.cs:120-127 | the BSON size is 8 plus the BSON length, with the BSON bytes as the stream; the length cast overflows past int.MaxValue |
| `Serialization.SizeOf` | src/Spreads.Core/Serialization/BinarySerializer.cs:49-52 | `SizeOf<T>`; its contract is stated by `SizeOfDispatch`, `BsonSizeOf`, `SizeOfThenWriteBson`, `SizeOfCountsHeaderWriteDoesNot` and `SizeOfMatchesFixedWrite` |
| `Serialization.SizeOfDispatch` | src/Spreads.Core/Serialization/BinarySerializer.cs:49-52 | `SizeOf` reports `TypeHelper<T>`'s size and stream when it is not negative, otherwise the BSON size and bytes |
| `Serialization.SizeOfThenWriteBson` | src/Spreads.Core/Serialization/BinarySerializer.cs:49-71 | for a value with no binary layout, `Write` given the stream `SizeOf` handed back needs and returns exactly the size `SizeOf` reported |
| `Serialization.SizeOfCountsHeaderWriteDoesNot` | src/Spreads.Core/Serialization/BinarySerializer.cs:93-97 | without that stream, `Write` returns 8 less than `SizeOf` reported for the same value: one counts the header and the other does not |
| `Serialization.SizeOfMatchesFixedWrite` | src/Spreads.Core/Serialization/BinarySerializer.cs:74-80 | for a fixed-size value, `SizeOf` and a successful `Write` agree on the size, and exactly that many bytes are stored |
| `Serialization.SerializeToArray` | src/Spreads.Core/Serialization/BinarySerializer.cs:100-103 | always throws `NotImplementedException` and leaves the array alone |
| `Serialization.SerializeToStream` | src/Spreads.Core/Serialization/BinarySerializer.cs:105-108 | always throws `NotImplementedException` and writes nothing |

## Left out

- `Price(decimal, precision)`, `Price(double, precision)`, the conversions to `double`, `float` and `decimal`, and `ToString` are not modelled. They rest on .NET floating-point and 96-bit decimal arithmetic.
- The mixed-exponent branches of `+` and `-` go through decimals. The model records only the precision they use (`ViaDecimal`).
- `Equals(object)` tests that its argument is a `Price` and then calls `Equals(Price)`. `operator ==` is `Equals(Price)` and `operator !=` its negation. None of them is modelled separately from `Equals`.
- The `IConvertible` members are not modelled. `ToSingle`, `ToDouble`, `ToDecimal` and `ToString(IFormatProvider)` are the conversions and the formatting left out above. `GetTypeCode` returns `TypeCode.Decimal`, and every other member throws `InvalidCastException`. `InvalidPriceException` has no logic.
- The static constructor's little-endian check is not modelled. The model works on word values, and byte order only shows in `Int32LE`, which is little-endian.
- `Size<T>()` is not modelled: it returns `TypeHelper<T>.Size` unchanged, and `TypeHelper<T>` is not part of this model.
- `TypeHelper<T>`, the BSON writer (JSON.NET), `RecyclableMemoryManager`, `ArrayPool` and `JsonNetArrayPoolImpl` are replaced by the values they produce: a `Report` and a byte sequence. `BsonSerializer.Deserialize` is not modelled.
- The `#if DEBUG` self-check and the `Debug.Assert`s of `Write` are not modelled. The assertion that a fixed-size writer stores exactly the reported size is the requirement `FixedWriterKeepsSize`.
- Disposing the temporary stream is resource management, not behaviour, and is not modelled.
- Serialization.Write: requires `StreamOffsetFits`. On the paths that copy a stream, offsets of 2^31 or more are excluded: there `(int)offset` is negative and the copy lands before the buffer, which an array cannot express.
- Serialization.Write: requires `PayloadFrameFits`. Payload streams within 8 bytes of int.MaxValue are excluded: there `8 + length` wraps to a negative size, the bounds check passes, and the copy runs past the buffer, which an array cannot express. `FramedSizeValue` and `FramedSizeWrapPassesCheck` state the wrap (see Findings); the corrected `WriteAtOffsetSpec` needs no such requirement.
- DataTypes.AddSameExponent, DataTypes.SubSameExponent: that the long `+` and `-` do not wrap is stated on bits, as the two's-complement overflow rule (the result keeps the sign the operands share) and a bound of 2^56 on the result's magnitude. It is not stated as the equation `Signed(result) == M(x) ± M(y)` on integers.
- Serialization.Write: requires `UncheckedWriteFits`. On the size-0 path without a stream, the source calls `TypeHelper<T>.Write` with no bounds check, and the model requires that writer's bytes to fit.
- `DataTypes.Price` values are words, not byte images. Laying a price out in memory as 8 bytes is not modelled.

## Findings

| source | as written | input that shows it | evidently intended | confidence | as-written member | corrected member |
|---|---|---|---|---|---|---|
| src/Spreads.Core/DataTypes/Price.cs:236-243 | `Equals` multiplies the mantissa of the side with the larger exponent by 10 to the power of the exponent gap | (exponent 2, mantissa 150) and (exponent 3, mantissa 1500), both 1.5: `Equals` is false | scale the side with the smaller exponent, so that `Equals` is equality of values | high, not executed | `PriceComparison.EqualsScalesWrongSide` | `PriceComparison.EqualsRescaledIsValueEquality` |
| src/Spreads.Core/DataTypes/Price.cs:213-220 | `CompareTo` rescales the same wrong side | (exponent 1, mantissa 1) = 0.1 and (exponent 0, mantissa 10) = 10: `CompareTo` returns 0 | `CompareTo` orders by value | high, not executed | `PriceComparison.TenthEqualsTen` | `PriceComparison.CompareToRescaledIsValueOrder` |
| src/Spreads.Core/DataTypes/Price.cs:317-320 | `GetHashCode` is the low 31 bits of the word, so it depends on how a number is written rather than on the number | 1.50 as (exponent 2, mantissa 150) and as (exponent 3, mantissa 1500): hash codes 150 and 1500; and 0.1 and 10 from the second row, which `Equals` calls equal, hash differently too | prices that are equal get equal hash codes, as .NET requires of `GetHashCode` and `Equals` | high, not executed | `PriceComparison.HashSplitsEqualValues` | `PriceComparison.EqualsRescaledHashAgrees` |
| src/Spreads.Core/Serialization/BinarySerializer.cs:63-65 | the payload path computes `8 + checked((int)length)` with an unchecked addition, which wraps for lengths within 8 of int.MaxValue; the negative size passes the bounds check | a payload of int.MaxValue bytes at offset 0 into a buffer of int.MaxValue bytes or fewer: no exception, and the copy to offset 8 runs past the buffer | a checked addition, so that such a frame is an overflow | medium, not executed | `Serialization.FramedSizeWrapPassesCheck` | `Serialization.WriteAtOffsetStaysInWindow` |
| src/Spreads.Core/Serialization/BinarySerializer.cs:66-67 | the payload path writes the size at bytes 0..3 and the marker at byte 5 of the buffer, whatever the offset, while the payload goes to offset + 8 | a 16-byte buffer, offset 8, an empty payload: byte 0 is overwritten and bytes 8..11 do not hold the size | the header at offset .. offset + 7, in front of its payload | medium, not executed | `Serialization.PayloadHeaderIgnoresOffset` | `Serialization.WriteAtOffsetStaysInWindow` |

The corrected comparison lives in `PriceComparison`: `CompareToRescaled` and `EqualsRescaled` work on
exact integers, so no product wraps; `HashRescaled` hashes the normal form that value equality
preserves. The corrected write is `WriteAtOffsetSpec`, which fixes both the header's position and
the framed size. The method `Write`
keeps the behaviour as written.
