/** What the rational helpers promise, stated against the real number a pair
    stands for: exact arithmetic, unique canonical forms, scalar shortcuts that
    agree with the general rational paths, and a total order from `compare`. */
module RationalProperties {
  import opened Gcds
  import opened RationalValues

  // ---------------------------------------------------------------------
  // Canonical form

  /** Two canonical pairs that stand for the same number are the same pair, so
      canonical values can be compared field by field or by their strings. */
  lemma CanonicalUnique(p: Fraction, q: Fraction)
    requires Canonical(p) && Canonical(q)
    requires p.n * q.d == q.n * p.d
    ensures p == q
  {
    assert p.n * q.d == p.d * q.n;
    DividesMultiple(p.d, q.n);
    Euclid(p.d, p.n, q.d);
    assert q.n * p.d == q.d * p.n;
    DividesMultiple(q.d, p.n);
    Euclid(q.d, q.n, p.d);
    DividesAntisym(p.d, q.d);
    CancelRight(p.n, q.n, p.d);
  }

  lemma CancelRight(x: int, y: int, c: int)
    requires c > 0 && x * c == y * c
    ensures x == y
  {
    if x < y {
      assert y * c - x * c == c * (y - x);
      MulAtLeast(c, y - x);
    } else if y < x {
      assert x * c - y * c == c * (x - y);
      MulAtLeast(c, x - y);
    }
  }

  /** A canonical zero is 0/1. */
  lemma CanonicalZero(f: Fraction)
    requires Canonical(f) && f.n == 0
    ensures f.d == 1
  {
  }

  /** Cross products agree exactly when the real values do (both directions). */
  lemma SameValue(p: Fraction, q: Fraction)
    requires p.d != 0 && q.d != 0
    ensures p.n * q.d == q.n * p.d <==> RealValue(p) == RealValue(q)
  {
    SameRatio(p.n, p.d, q.n, q.d);
  }

  /** Canonical pairs are equal exactly when their values are. */
  lemma CanonicalEqualIffSameValue(p: Fraction, q: Fraction)
    requires Canonical(p) && Canonical(q)
    ensures p == q <==> RealValue(p) == RealValue(q)
  {
    SameValue(p, q);
    if RealValue(p) == RealValue(q) {
      CanonicalUnique(p, q);
    }
  }

  // ---------------------------------------------------------------------
  // Exact arithmetic

  /** A pair whose cross products match num/den stands for num / den. */
  lemma ValueOfRatio(r: Fraction, num: int, den: int)
    requires r.d != 0 && den != 0 && r.n * den == num * r.d
    ensures RealValue(r) == num as real / den as real
  {
    SameRatio(r.n, r.d, num, den);
  }

  /** A reduced pair has a zero denominator only when the original one was zero. */
  lemma ReducedDenominatorNonZero(r: Fraction, num: int, den: int)
    requires Gcd(r.n, r.d) == 1 && den != 0 && r.n * den == num * r.d
    ensures r.d != 0
  {
    if r.d == 0 {
      assert r.n * den == 0;
      if r.n != 0 {
        ProductNonZero(r.n, den);
      }
    }
  }

  // Real algebra on the integer parts, each step kept apart from the rest.

  lemma CommonDenominator(x: real, y: real, z: real)
    requires y != 0.0 && z != 0.0
    ensures x / y == (x * z) / (y * z)
  {
  }

  lemma SameDenominator(p: real, q: real, z: real)
    requires z != 0.0
    ensures p / z + q / z == (p + q) / z
    ensures p / z - q / z == (p - q) / z
  {
  }

  lemma SumOfQuotients(an: int, ad: int, bn: int, bd: int)
    requires ad != 0 && bd != 0
    ensures (an * bd + ad * bn) as real / (ad * bd) as real == RealValue(Fraction(an, ad)) + RealValue(Fraction(bn, bd))
    ensures (an * bd - ad * bn) as real / (ad * bd) as real == RealValue(Fraction(an, ad)) - RealValue(Fraction(bn, bd))
  {
    var x1, y1, x2, y2 := an as real, ad as real, bn as real, bd as real;
    var p, q, z := (an * bd) as real, (ad * bn) as real, (ad * bd) as real;
    assert p == x1 * y2 && q == y1 * x2 && z == y1 * y2;
    CommonDenominator(x1, y1, y2);
    CommonDenominator(x2, y2, y1);
    assert y2 * y1 == z && x2 * y1 == q;
    SameDenominator(p, q, z);
    assert (an * bd + ad * bn) as real == p + q;
    assert (an * bd - ad * bn) as real == p - q;
  }

  lemma ProductOfQuotients(an: int, ad: int, bn: int, bd: int)
    requires ad != 0 && bd != 0
    ensures (an * bn) as real / (ad * bd) as real == RealValue(Fraction(an, ad)) * RealValue(Fraction(bn, bd))
  {
    var x1, y1, x2, y2 := an as real, ad as real, bn as real, bd as real;
    assert (an * bn) as real == x1 * x2;
    assert (ad * bd) as real == y1 * y2;
  }

  lemma QuotientOfQuotients(an: int, ad: int, bn: int, bd: int)
    requires ad != 0 && bd != 0 && bn != 0
    ensures (an * bd) as real / (ad * bn) as real == RealValue(Fraction(an, ad)) / RealValue(Fraction(bn, bd))
  {
    var x1, y1, x2, y2 := an as real, ad as real, bn as real, bd as real;
    assert (an * bd) as real == x1 * y2;
    assert (ad * bn) as real == y1 * x2;
  }

  /** Sum and difference are exact. */
  lemma AddSubtractValue(a: Fraction, b: Fraction, isAdd: bool)
    requires a.d != 0 && b.d != 0
    ensures var r := AddSubtract(a, b, isAdd);
      r.d != 0 &&
      RealValue(r) == if isAdd then RealValue(a) + RealValue(b) else RealValue(a) - RealValue(b)
  {
    var r := AddSubtract(a, b, isAdd);
    ProductNonZero(a.d, b.d);
    var num := if isAdd then a.n * b.d + a.d * b.n else a.n * b.d - a.d * b.n;
    ReducedDenominatorNonZero(r, num, a.d * b.d);
    ValueOfRatio(r, num, a.d * b.d);
    SumOfQuotients(a.n, a.d, b.n, b.d);
  }

  /** The in-place scalar sum and difference are exact: n'/d' == (n +/- d * val) / d. */
  lemma AddSubtractScalarValue(a: Fraction, val: int, isAdd: bool)
    requires a.d != 0
    ensures var r := AddSubtractScalarInPlace(a, val, isAdd);
      r.d != 0 &&
      RealValue(r) == if isAdd then RealValue(a) + val as real else RealValue(a) - val as real
  {
    var r := AddSubtractScalarInPlace(a, val, isAdd);
    var num := if isAdd then a.n + a.d * val else a.n - a.d * val;
    ReducedDenominatorNonZero(r, num, a.d);
    ValueOfRatio(r, num, a.d);
    SumOfQuotients(a.n, a.d, val, 1);
    assert a.n * 1 == a.n && a.d * 1 == a.d;
  }

  lemma MultiplyValue(a: Fraction, b: Fraction)
    requires a.d != 0 && b.d != 0
    ensures var r := MultiplyDivide(a, b, true);
      r.Ok? && RealValue(r.value) == RealValue(a) * RealValue(b)
  {
    var r := MultiplyDivide(a, b, true).value;
    ProductNonZero(a.d, b.d);
    ValueOfRatio(r, a.n * b.n, a.d * b.d);
    ProductOfQuotients(a.n, a.d, b.n, b.d);
  }

  lemma DivideValue(a: Fraction, b: Fraction)
    requires a.d != 0 && b.d != 0 && b.n != 0
    ensures var r := MultiplyDivide(a, b, false);
      r.Ok? && RealValue(r.value) == RealValue(a) / RealValue(b)
  {
    var r := MultiplyDivide(a, b, false).value;
    ProductNonZero(a.d, b.n);
    ValueOfRatio(r, a.n * b.d, a.d * b.n);
    QuotientOfQuotients(a.n, a.d, b.n, b.d);
  }

  /** Product and quotient are exact; the quotient fails only for a zero divisor. */
  lemma MultiplyDivideValue(a: Fraction, b: Fraction, isMult: bool)
    requires a.d != 0 && b.d != 0
    ensures var r := MultiplyDivide(a, b, isMult);
      r.Ok? ==> RealValue(r.value) == if isMult then RealValue(a) * RealValue(b) else RealValue(a) / RealValue(b)
  {
    if isMult {
      MultiplyValue(a, b);
    } else if b.n != 0 {
      DivideValue(a, b);
    }
  }

  /** Scalar multiplication is exact: the value is old * o. */
  lemma MultiplyScalarValue(a: Fraction, o: int)
    requires a.d != 0
    ensures var r := MultiplyScalar(a, o);
      r.d != 0 && RealValue(r) == RealValue(a) * o as real
  {
    var r := MultiplyScalar(a, o);
    ReducedDenominatorNonZero(r, a.n * o, a.d);
    ValueOfRatio(r, a.n * o, a.d);
    ProductOfQuotients(a.n, a.d, o, 1);
    assert a.d * 1 == a.d;
  }

  /** Scalar division is exact: the value is old / o. */
  lemma DivideScalarValue(a: Fraction, o: int)
    requires a.d != 0 && o != 0
    ensures var r := DivideScalar(a, o);
      r.Ok? && RealValue(r.value) == RealValue(a) / o as real
  {
    ProductNonZero(a.d, o);
    var r := DivideScalar(a, o).value;
    ValueOfRatio(r, a.n, a.d * o);
    QuotientOfQuotients(a.n, a.d, o, 1);
    assert a.n * 1 == a.n;
  }

  /** Negation keeps the canonical form and negates the value. */
  lemma NegateValue(f: Fraction)
    requires f.d != 0
    ensures RealValue(Fraction(-f.n, f.d)) == -RealValue(f)
    ensures Canonical(f) ==> Canonical(Fraction(-f.n, f.d))
  {
    GcdNegate(f.n, f.d);
    ProductOfQuotients(-1, 1, f.n, f.d);
    assert (-1 * f.n) == -f.n && 1 * f.d == f.d;
  }

  /** The shift-and-reduce assignment stands for exactly m * 2^e. */
  lemma FromFloatPartsValue(m: int, e: int)
    ensures e >= 0 ==> RealValue(FromFloatParts(m, e)) == (m * Pow2(e)) as real
    ensures e < 0 ==> RealValue(FromFloatParts(m, e)) == m as real / Pow2(-e) as real
  {
    var r := FromFloatParts(m, e);
    if e < 0 {
      ValueOfRatio(r, m, Pow2(-e));
    }
  }

  // ---------------------------------------------------------------------
  // Scalar shortcuts agree with the general rational paths

  /** Adding an integer in place gives the same pair as adding it as val/1. */
  lemma AddSubtractScalarAgrees(a: Fraction, val: int, isAdd: bool)
    requires a.d != 0
    ensures AddSubtractScalarInPlace(a, val, isAdd) == AddSubtract(a, Fraction(val, 1), isAdd)
  {
    assert a.n * 1 == a.n && a.d * 1 == a.d;
  }

  /** Multiplying by an integer gives the same pair as multiplying by o/1. */
  lemma MultiplyScalarAgrees(a: Fraction, o: int)
    requires a.d > 0
    ensures MultiplyDivide(a, Fraction(o, 1), true) == Ok(MultiplyScalar(a, o))
  {
    var s := MultiplyScalar(a, o);
    var r := MultiplyDivide(a, Fraction(o, 1), true);
    MultiplyScalarValue(a, o);
    MultiplyDivideValue(a, Fraction(o, 1), true);
    assert RealValue(Fraction(o, 1)) == o as real;
    CanonicalEqualIffSameValue(s, r.value);
  }

  /** Dividing by a nonzero integer gives the same pair as dividing by o/1;
      both fail for zero. */
  lemma DivideScalarAgrees(a: Fraction, o: int)
    requires a.d != 0
    ensures DivideScalar(a, o) == MultiplyDivide(a, Fraction(o, 1), false)
  {
    if o != 0 {
      var s := DivideScalar(a, o);
      var r := MultiplyDivide(a, Fraction(o, 1), false);
      DivideScalarValue(a, o);
      MultiplyDivideValue(a, Fraction(o, 1), false);
      assert RealValue(Fraction(o, 1)) == o as real;
      CanonicalEqualIffSameValue(s.value, r.value);
    } else {
      assert a.d * o == 0;
    }
  }

  // ---------------------------------------------------------------------
  // Multiply and divide undo each other

  /** (a * b) / b == a, field for field, for canonical a and nonzero b. */
  lemma MultiplyThenDivide(a: Fraction, b: Fraction)
    requires Canonical(a) && b.d != 0 && b.n != 0
    ensures var p := MultiplyDivide(a, b, true).value;
      MultiplyDivide(p, b, false) == Ok(a)
  {
    var p := MultiplyDivide(a, b, true).value;
    var q := MultiplyDivide(p, b, false);
    MultiplyDivideValue(a, b, true);
    MultiplyDivideValue(p, b, false);
    SignOfValue(b);
    var va, vb := RealValue(a), RealValue(b);
    assert vb != 0.0;
    assert (va * vb) / vb == va;
    CanonicalEqualIffSameValue(q.value, a);
  }

  /** p / 1 == p for canonical p. */
  lemma DivideByOne(p: Fraction)
    requires Canonical(p)
    ensures MultiplyDivide(p, Fraction(1, 1), false) == Ok(p)
  {
    var q := MultiplyDivide(p, Fraction(1, 1), false);
    MultiplyDivideValue(p, Fraction(1, 1), false);
    CanonicalEqualIffSameValue(q.value, p);
  }

  // ---------------------------------------------------------------------
  // Comparison

  lemma CompareAntisymmetric(a: Fraction, b: Fraction)
    ensures Compare(a, b) == -Compare(b, a)
  {
  }

  lemma CompareTransitive(a: Fraction, b: Fraction, c: Fraction)
    requires a.d > 0 && b.d > 0 && c.d > 0
    requires Compare(a, b) <= 0 && Compare(b, c) <= 0
    ensures Compare(a, c) <= 0
  {
  }

  /** On canonical values `compare` returns 0 exactly for identical pairs. */
  lemma CompareZeroIffEqual(a: Fraction, b: Fraction)
    requires Canonical(a) && Canonical(b)
    ensures Compare(a, b) == 0 <==> a == b
  {
    CanonicalEqualIffSameValue(a, b);
  }

  /** The integer overload agrees with comparing against i/1. */
  lemma CompareIntegerAgrees(a: Fraction, i: int)
    ensures CompareInteger(a, i) == Compare(a, Fraction(i, 1))
  {
  }

  /** For a canonical value the sign is the comparison with zero. */
  lemma GetSignIsCompareWithZero(a: Fraction)
    requires a.d > 0
    ensures GetSign(a) == Compare(a, Fraction(0, 1))
  {
  }

  // ---------------------------------------------------------------------
  // Worked examples: a = 7/3, b = 5/6

  /** 7/3 + 5/6 == 57/18 == 19/6. */
  lemma ExampleSum()
    ensures AddSubtract(Fraction(7, 3), Fraction(5, 6), true) == Fraction(19, 6)
  {
    assert Gcd(57, 18) == 3;
  }

  /** 7/3 - 5/6 == 27/18 == 3/2. */
  lemma ExampleDifference()
    ensures AddSubtract(Fraction(7, 3), Fraction(5, 6), false) == Fraction(3, 2)
  {
    assert NatGcd(27, 18) == 9;
    assert Gcd(27, 18) == 9;
  }

  /** 7/3 * 5/6 == 35/18, already reduced; 7/3 / 5/6 == 42/15 == 14/5. */
  lemma ExampleProductQuotient()
    ensures MultiplyDivide(Fraction(7, 3), Fraction(5, 6), true) == Ok(Fraction(35, 18))
    ensures MultiplyDivide(Fraction(7, 3), Fraction(5, 6), false) == Ok(Fraction(14, 5))
  {
    assert Gcd(35, 18) == 1;
    assert Gcd(42, 15) == 3;
  }

  /** Dividing by a zero rational or a zero integer is reported. */
  lemma ExampleDivisionByZero()
    ensures MultiplyDivide(Fraction(1, 1), Fraction(0, 1), false) == Err(DivisionByZero)
    ensures DivideScalar(Fraction(1, 1), 0) == Err(DivisionByZero)
  {
  }

  /** Conversion to an integer truncates toward zero, unlike Euclidean division. */
  lemma ExampleTruncation()
    ensures ConvertToInteger(Fraction(-7, 2)) == -3 && -7 / 2 == -4
  {
  }
}
