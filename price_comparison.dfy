/** Comparison of prices by value, and how `CompareTo` and `Equals` as
    written depart from it.

    A price with exponent e and mantissa m stands for m / 10^e. Two prices
    a and b are compared by value by cross-multiplying,
    `M(a) * 10^E(b)` against `M(b) * 10^E(a)`, which stays in the integers.

    `CompareTo` and `Equals` (modelled in `DataTypes`) bring the two
    mantissas to a common exponent by multiplying the mantissa of the side
    with the LARGER exponent, the side that already has more decimals. The
    value-preserving rescaling multiplies the side with the SMALLER exponent.
    `CompareToRescaled` and `EqualsRescaled` do that, on exact integers so
    that no product wraps, and are proved to be the value order and value
    equality. `GetHashCode` hashes the word, so it tells apart prices of
    equal value; `HashRescaled` hashes the normal form of the number
    instead, which prices of equal value share. */
module PriceComparison {
  import opened DataTypes

  /** -1, 0 or 1 as x is below, equal to or above y. */
  function Cmp(x: int, y: int): (r: int)
    ensures r == 0 <==> x == y
    ensures r == -1 <==> x < y
    ensures r == 1 <==> y < x
  {
    if x < y then -1 else if x == y then 0 else 1
  }

  /** The mantissa as the number the long stands for. */
  function M(p: Price): int {
    Signed(Mantissa(p))
  }

  /** The exponent as a number, 0..15. */
  function E(p: Price): nat {
    Exponent(p) as nat
  }

  /** a < b as numbers: M(a) / 10^E(a) < M(b) / 10^E(b). */
  predicate ValueLess(a: Price, b: Price) {
    M(a) * Pow10(E(b)) < M(b) * Pow10(E(a))
  }

  /** a and b stand for the same number. */
  predicate ValueEqual(a: Price, b: Price) {
    M(a) * Pow10(E(b)) == M(b) * Pow10(E(a))
  }

  // ---------------------------------------------------------------------
  // Corrected comparison

  /** The body of the corrected `CompareTo` once the exponent gap `c` is
      known: the mantissa of the side with the smaller exponent is scaled up
      by 10^|c|, in exact arithmetic. */
  function RescaledAtGap(ma: int, mb: int, c: int): (r: int)
    ensures -1 <= r <= 1
  {
    if c == 0 then Cmp(ma, mb)
    else if c > 0 then Cmp(ma, mb * Pow10(c))
    else Cmp(ma * Pow10(-c), mb)
  }

  /** `CompareTo`, corrected. */
  function CompareToRescaled(a: Price, b: Price): (r: int)
    ensures -1 <= r <= 1
  {
    RescaledAtGap(M(a), M(b), ExponentGap(a, b))
  }

  /** `Equals` with the same correction: identical words are equal,
      distinct words at the same exponent are not, otherwise the corrected
      comparison decides. */
  function EqualsRescaled(a: Price, b: Price): bool {
    a == b || (ExponentGap(a, b) != 0 && CompareToRescaled(a, b) == 0)
  }

  /** The corrected comparison is the order of the values: negative, zero
      or positive exactly when a is below, equal to or above b. */
  lemma CompareToRescaledIsValueOrder(a: Price, b: Price)
    ensures CompareToRescaled(a, b) == -1 <==> ValueLess(a, b)
    ensures CompareToRescaled(a, b) == 0 <==> ValueEqual(a, b)
    ensures CompareToRescaled(a, b) == 1 <==> ValueLess(b, a)
  {
    CompareToRescaledCrossMultiplied(a, b);
  }

  lemma CompareToRescaledCrossMultiplied(a: Price, b: Price)
    ensures CompareToRescaled(a, b) == Cmp(M(a) * Pow10(E(b)), M(b) * Pow10(E(a)))
  {
    assert ExponentGap(a, b) == E(a) - E(b);
    RescaledIsCrossMultiplied(M(a), M(b), E(a), E(b));
  }

  /** Comparing at the gap is comparing the cross-multiplied mantissas. */
  lemma RescaledIsCrossMultiplied(ma: int, mb: int, ea: nat, eb: nat)
    ensures RescaledAtGap(ma, mb, ea - eb) == Cmp(ma * Pow10(eb), mb * Pow10(ea))
  {
    if ea == eb {
      ScaleBoth(ma, mb, Pow10(ea));
    } else if ea > eb {
      RescaledPositiveGap(ma, mb, ea, eb);
    } else {
      RescaledNegativeGap(ma, mb, ea, eb);
    }
  }

  lemma RescaledPositiveGap(ma: int, mb: int, ea: nat, eb: nat)
    requires ea > eb
    ensures Cmp(ma, mb * Pow10(ea - eb)) == Cmp(ma * Pow10(eb), mb * Pow10(ea))
  {
    var k := Pow10(ea - eb);
    Pow10Add(eb, ea - eb);
    assert mb * Pow10(ea) == (mb * k) * Pow10(eb);
    ScaleBoth(ma, mb * k, Pow10(eb));
  }

  lemma RescaledNegativeGap(ma: int, mb: int, ea: nat, eb: nat)
    requires ea < eb
    ensures Cmp(ma * Pow10(eb - ea), mb) == Cmp(ma * Pow10(eb), mb * Pow10(ea))
  {
    var k := Pow10(eb - ea);
    Pow10Add(ea, eb - ea);
    assert ma * Pow10(eb) == (ma * k) * Pow10(ea);
    ScaleBoth(ma * k, mb, Pow10(ea));
  }

  /** Multiplying both sides by the same positive number keeps their order. */
  lemma ScaleBoth(x: int, y: int, k: int)
    requires k > 0
    ensures x * k < y * k <==> x < y
    ensures x * k == y * k <==> x == y
  {
    assert y * k - x * k == (y - x) * k;
    if x < y {
      assert (y - x) * k > 0;
    } else if y < x {
      assert (x - y) * k > 0;
    }
  }

  /** On words the constructor builds, the corrected `Equals` is equality
      of values. */
  lemma EqualsRescaledIsValueEquality(a: Price, b: Price)
    requires Valid(a) && Valid(b)
    ensures EqualsRescaled(a, b) <==> ValueEqual(a, b)
  {
    CompareToRescaledIsValueOrder(a, b);
    if a != b && ExponentGap(a, b) == 0 {
      ExponentGapZero(a, b);
      ValidFieldsDiffer(a, b);
      SignedInjective(Mantissa(a), Mantissa(b));
      ScaleBoth(M(a), M(b), Pow10(E(a)));
    }
  }

  /** The corrected comparison is antisymmetric, as `CompareTo` is. */
  lemma CompareToRescaledAntisymmetric(a: Price, b: Price)
    ensures CompareToRescaled(a, b) == -CompareToRescaled(b, a)
  {
    CompareToRescaledIsValueOrder(a, b);
    CompareToRescaledIsValueOrder(b, a);
  }

  // ---------------------------------------------------------------------
  // A hash code that agrees with value equality

  /** The normal form of m / 10^e: trailing zeros of the mantissa are
      dropped while the exponent is positive, so zero becomes 0 / 10^0. */
  function Normalize(m: int, e: nat): (int, nat)
    decreases e
  {
    if e > 0 && m % 10 == 0 then Normalize(m / 10, e - 1) else (m, e)
  }

  /** No trailing zero can be dropped any more. */
  predicate IsNormal(m: int, e: nat) {
    e == 0 || m % 10 != 0
  }

  /** The normal form is normal, has at most the exponent it started from,
      and stands for the same number. */
  lemma {:induction false} NormalizeSound(m: int, e: nat)
    decreases e
    ensures var (n, f) := Normalize(m, e);
      IsNormal(n, f) && f <= e && m == n * Pow10(e - f)
  {
    if e > 0 && m % 10 == 0 {
      NormalizeSound(m / 10, e - 1);
      var (n, f) := Normalize(m / 10, e - 1);
      var k := Pow10(e - 1 - f);
      assert Pow10(e - f) == 10 * k;
      MulAssoc(10, n, k);
      MulAssoc(n, 10, k);
    }
  }

  /** Two normal forms that stand for the same number are the same. */
  lemma NormalUnique(m1: int, e1: nat, m2: int, e2: nat)
    requires IsNormal(m1, e1) && IsNormal(m2, e2)
    requires m1 * Pow10(e2) == m2 * Pow10(e1)
    ensures m1 == m2 && e1 == e2
  {
    if e1 < e2 {
      ZerosAppended(m1, e1, m2, e2);
    } else if e2 < e1 {
      ZerosAppended(m2, e2, m1, e1);
    } else {
      ScaleBoth(m1, m2, Pow10(e1));
    }
  }

  /** With e1 < e2, the second form is the first with e2 - e1 zeros
      appended, so a trailing zero could still be dropped from it. */
  lemma ZerosAppended(m1: int, e1: nat, m2: int, e2: nat)
    requires e1 < e2
    requires m1 * Pow10(e2) == m2 * Pow10(e1)
    ensures !IsNormal(m2, e2)
  {
    var d := e2 - e1;
    var p, k := Pow10(e1), Pow10(d - 1);
    Pow10Add(d, e1);
    assert Pow10(e2) == Pow10(d) * p;
    assert Pow10(d) == 10 * k;
    MulAssoc(m1, Pow10(d), p);
    ScaleBoth(m1 * Pow10(d), m2, p);
    MulAssoc(m1, 10, k);
    MulAssoc(10, m1, k);
    assert m2 == 10 * (m1 * k);
  }

  lemma MulAssoc(x: int, y: int, z: int)
    ensures (x * y) * z == x * (y * z)
    ensures x * y == y * x
  {
  }

  /** m = n * 10^d, cross-multiplied by 10^(f + d2), is n * 10^f times the
      common factor 10^(d + d2). */
  lemma Regroup(m: int, n: int, d: nat, f: nat, d2: nat)
    requires m == n * Pow10(d)
    ensures m * Pow10(f + d2) == (n * Pow10(f)) * Pow10(d + d2)
  {
    Pow10Add(d, f + d2);
    Pow10Add(f, d + d2);
    assert d + (f + d2) == f + (d + d2);
    MulAssoc(n, Pow10(d), Pow10(f + d2));
    MulAssoc(n, Pow10(f), Pow10(d + d2));
  }

  /** m1 / 10^e1 and m2 / 10^e2 are one number exactly when their normal
      forms are the same. */
  lemma SameNumberIffSameNormalForm(m1: int, e1: nat, m2: int, e2: nat)
    ensures m1 * Pow10(e2) == m2 * Pow10(e1) <==> Normalize(m1, e1) == Normalize(m2, e2)
  {
    NormalizeSound(m1, e1);
    NormalizeSound(m2, e2);
    var (n1, f1) := Normalize(m1, e1);
    var (n2, f2) := Normalize(m2, e2);
    var d1, d2 := e1 - f1, e2 - f2;
    Regroup(m1, n1, d1, f2, d2);
    Regroup(m2, n2, d2, f1, d1);
    assert d1 + d2 == d2 + d1;
    ScaleBoth(n1 * Pow10(f2), n2 * Pow10(f1), Pow10(d1 + d2));
    if m1 * Pow10(e2) == m2 * Pow10(e1) {
      NormalUnique(n1, f1, n2, f2);
    }
  }

  /** Two prices are equal in value exactly when their normal forms are
      the same. */
  lemma ValueEqualIffSameNormalForm(a: Price, b: Price)
    ensures ValueEqual(a, b) <==> Normalize(M(a), E(a)) == Normalize(M(b), E(b))
  {
    SameNumberIffSameNormalForm(M(a), E(a), M(b), E(b));
  }

  /** A hash code computed from the normal form: the low 31 bits of its
      mantissa, read as two's complement, with the exponent in bits 27..30
      mixed in. Any function of the normal form would do. */
  function HashRescaled(a: Price): (h: int)
    ensures 0 <= h < 0x8000_0000
  {
    var (n, f) := Normalize(M(a), E(a));
    (n + f * 0x800_0000) % 0x8000_0000
  }

  /** Prices of equal value, and so prices the corrected `Equals` calls
      equal, get the same corrected hash code. */
  lemma EqualsRescaledHashAgrees(a: Price, b: Price)
    requires Valid(a) && Valid(b)
    ensures EqualsRescaled(a, b) ==> HashRescaled(a) == HashRescaled(b)
    ensures ValueEqual(a, b) ==> HashRescaled(a) == HashRescaled(b)
  {
    EqualsRescaledIsValueEquality(a, b);
    ValueEqualIffSameNormalForm(a, b);
  }

  // ---------------------------------------------------------------------
  // Counterexamples to the comparison as written

  /** 1.50 (exponent 2, mantissa 150) and 1.500 (exponent 3, mantissa 1500)
      are the same number, yet `Equals` says they differ and `CompareTo`
      puts the first below the second; the corrected versions agree with
      the values. */
  lemma EqualsScalesWrongSide()
    ensures New(2, 150).Ok? && New(3, 1500).Ok?
    ensures var a, b := New(2, 150).value, New(3, 1500).value;
      && ValueEqual(a, b)
      && !Equals(a, b) && CompareTo(a, b) == -1
      && EqualsRescaled(a, b) && CompareToRescaled(a, b) == 0
  {
    NewDecodes(2, 150);
    NewDecodes(3, 1500);
    var a, b := New(2, 150).value, New(3, 1500).value;
    SmallMantissa(150);
    SmallMantissa(1500);
    Pow10Values();
    assert ExponentGap(a, b) == -1;
    EqualsUnfold(a, b);
    CompareToUnfold(a, b);
    assert LongMul(1500, Powers10[1]) == 15000;
  }

  /** 0.1 (exponent 1, mantissa 1) and 10 (exponent 0, mantissa 10) are
      different numbers, yet `Equals` says they are equal and `CompareTo`
      reports 0; their hash codes differ. The corrected versions tell them
      apart. */
  lemma TenthEqualsTen()
    ensures New(1, 1).Ok? && New(0, 10).Ok?
    ensures var a, b := New(1, 1).value, New(0, 10).value;
      && !ValueEqual(a, b) && ValueLess(a, b)
      && Equals(a, b) && CompareTo(a, b) == 0
      && GetHashCode(a) != GetHashCode(b)
      && !EqualsRescaled(a, b) && CompareToRescaled(a, b) == -1
  {
    NewWordNonNegative(1, 1);
    NewWordNonNegative(0, 10);
    NewDecodes(1, 1);
    NewDecodes(0, 10);
    var a, b := New(1, 1).value, New(0, 10).value;
    SmallMantissa(1);
    SmallMantissa(10);
    Pow10Values();
    assert ExponentGap(a, b) == 1;
    EqualsUnfold(a, b);
    CompareToUnfold(a, b);
    assert LongMul(1, Powers10[1]) == 10;
  }

  /** 1.50 and 1.500 are one number, yet `GetHashCode` gives them 150 and
      1500; the hash of the normal form, 15 / 10^1, is the same for both. */
  lemma HashSplitsEqualValues()
    ensures New(2, 150).Ok? && New(3, 1500).Ok?
    ensures var a, b := New(2, 150).value, New(3, 1500).value;
      && ValueEqual(a, b) && EqualsRescaled(a, b)
      && GetHashCode(a) != GetHashCode(b)
      && HashRescaled(a) == HashRescaled(b)
  {
    NewWordNonNegative(2, 150);
    NewWordNonNegative(3, 1500);
    EqualsScalesWrongSide();
    var a, b := New(2, 150).value, New(3, 1500).value;
    EqualsRescaledHashAgrees(a, b);
  }

  /** A small non-negative long reads as itself and fits the constructor. */
  lemma SmallMantissa(m: bv64)
    requires m < 0x1_0000
    ensures Signed(m) == m as int && MantissaFits(m) && !IsNegative(m)
  {
  }
}
