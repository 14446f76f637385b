/** The value-level behaviour of `rational_adaptor<IntBackend>`: the numerator and
    denominator pair, the gcd reduction every mutating operation ends with, what
    each `detail::rational_*` helper computes, and the read-only operations
    (compare, integer conversion, zero test, sign). The integer backend is
    Dafny's unbounded `int`. The meaning of a pair is the real number n / d;
    `RealValue` is the independent reference the arithmetic is proved against. */
module RationalValues {
  import opened Gcds

  /** The failures the rational layer reports or lets through from the backend. */
  datatype Error =
    | DivisionByZero      // std::overflow_error("Division by zero"), or a backend divide by a zero gcd
    | InvalidInteger      // the backend rejected a numerator or denominator string
    | TrailingCharacters  // std::runtime_error("Could not parse the string ...")

  datatype Result<T> = Ok(value: T) | Err(error: Error)

  /** The two backend integers `m_n`, `m_d` of a rational_adaptor. */
  datatype Fraction = Fraction(n: int, d: int)

  /** Canonical form: positive denominator, no common factor. */
  predicate Canonical(f: Fraction) {
    f.d > 0 && Gcd(f.n, f.d) == 1
  }

  /** The number a pair stands for. */
  function RealValue(f: Fraction): real
    requires f.d != 0
  {
    f.n as real / f.d as real
  }

  /** Three-way comparison as the backend's `compare` reports it. */
  function Cmp(x: int, y: int): int {
    if x < y then -1 else if x > y then 1 else 0
  }

  // ---------------------------------------------------------------------
  // Reduction

  /** Divide both parts by their gcd unless it is 1 (the step that closes every
      mutating operation). A gcd of 0 (both parts zero) would divide by zero. */
  function Reduced(num: int, den: int): (r: Fraction)
    requires num != 0 || den != 0
    ensures r.n * den == num * r.d
    ensures Gcd(r.n, r.d) == 1
    ensures r.n * Gcd(num, den) == num && r.d * Gcd(num, den) == den
    ensures (r.d > 0 <==> den > 0) && (r.d < 0 <==> den < 0)
  {
    var g := Gcd(num, den);
    if g != 1 then
      DivideByGcd(num, den);
      Fraction(num / g, den / g)
    else
      Fraction(num, den)
  }

  lemma DivideByGcd(num: int, den: int)
    requires num != 0 || den != 0
    ensures var g := Gcd(num, den);
      && (num / g) * g == num && (den / g) * g == den
      && (num / g) * den == num * (den / g)
      && Gcd(num / g, den / g) == 1
      && (den / g > 0 <==> den > 0) && (den / g < 0 <==> den < 0)
  {
    var g := Gcd(num, den);
    DividesExact(g, num);
    DividesExact(g, den);
    ReducedCoprime(num, den);
    var a, b := num / g, den / g;
    assert a * den == g * a * b == num * b;
    SignOfMultiple(g, b);
  }

  lemma SignOfMultiple(g: int, b: int)
    requires g > 0
    ensures (g * b > 0 <==> b > 0) && (g * b < 0 <==> b < 0)
  {
    if b > 0 {
      MulAtLeast(g, b);
    } else if b < 0 {
      MulAtLeast(g, -b);
    }
  }

  /** The sign fix-up after multiply and divide: negate both parts when the
      denominator is negative. */
  function SignFixed(q: Fraction): (r: Fraction)
    requires q.d != 0
    ensures r.d > 0 && r.n * q.d == q.n * r.d
    ensures Gcd(r.n, r.d) == Gcd(q.n, q.d)
  {
    GcdNegate(q.n, q.d);
    GcdNegate(q.n, -q.d);
    if q.d < 0 then Fraction(-q.n, -q.d) else q
  }

  /** Reducing a canonical pair changes nothing, and reduction is idempotent. */
  lemma ReduceIdempotent(num: int, den: int)
    requires num != 0 || den != 0
    ensures var r := Reduced(num, den); Reduced(r.n, r.d) == r
  {
  }

  // ---------------------------------------------------------------------
  // Arithmetic helpers (namespace detail)

  /** detail::rational_add_subtract: cross-multiply, then reduce. */
  function AddSubtract(a: Fraction, b: Fraction, isAdd: bool): (r: Fraction)
    requires a.d != 0 && b.d != 0
    ensures r.n * (a.d * b.d) == (if isAdd then a.n * b.d + a.d * b.n else a.n * b.d - a.d * b.n) * r.d
    ensures Gcd(r.n, r.d) == 1
    ensures a.d > 0 && b.d > 0 ==> r.d > 0
  {
    ProductNonZero(a.d, b.d);
    var t1 := a.n * b.d;
    var t2 := a.d * b.n;
    Reduced(if isAdd then t1 + t2 else t1 - t2, a.d * b.d)
  }

  lemma ProductNonZero(x: int, y: int)
    requires x != 0 && y != 0
    ensures x * y != 0 && (x * y > 0 <==> (x > 0) == (y > 0))
  {
    if x > 0 {
      SignOfMultiple(x, y);
    } else {
      SignOfMultiple(-x, y);
      assert x * y == -((-x) * y);
    }
  }

  /** The in-place scalar form of detail::rational_add_subtract_scalar:
      n := n +/- d * val, then reduce against the unchanged denominator. */
  function AddSubtractScalarInPlace(a: Fraction, val: int, isAdd: bool): (r: Fraction)
    requires a.d != 0
    ensures r.n * a.d == (if isAdd then a.n + a.d * val else a.n - a.d * val) * r.d
    ensures Divides(Abs(r.d), a.d)
    ensures Gcd(r.n, r.d) == 1
    ensures a.d > 0 ==> r.d > 0
  {
    var t := a.d * val;
    var num := if isAdd then a.n + t else a.n - t;
    var r := Reduced(num, a.d);
    DenominatorDivides(r.d, Gcd(num, a.d), a.d);
    r
  }

  lemma DenominatorDivides(rd: int, g: nat, den: int)
    requires rd * g == den
    ensures Divides(Abs(rd), den)
  {
    var k: int := if rd < 0 then -(g as int) else g;
    assert den == Abs(rd) * k;
    DividesMultiple(Abs(rd), k);
  }

  /** The three-argument form of detail::rational_add_subtract_scalar:
      result.n := a.d * b, then add a.n, or subtract a.n and negate. */
  function AddSubtractScalar(a: Fraction, b: int, isAdd: bool): (r: Fraction)
    requires a.d != 0
    ensures r == AddSubtractScalarInPlace(a, b, isAdd)
  {
    var t := a.d * b;
    var num := if isAdd then t + a.n else -(t - a.n);
    Reduced(num, a.d)
  }

  /** detail::rational_multiply_divide: form the two cross products, reduce by
      their gcd, make the denominator positive. Dividing by a zero numerator fails. */
  function MultiplyDivide(a: Fraction, b: Fraction, isMult: bool): (r: Result<Fraction>)
    requires a.d != 0 && b.d != 0
    ensures r.Err? <==> !isMult && b.n == 0
    ensures r.Err? ==> r.error == DivisionByZero
    ensures r.Ok? ==> Canonical(r.value)
    ensures r.Ok? && isMult ==> r.value.n * (a.d * b.d) == (a.n * b.n) * r.value.d
    ensures r.Ok? && !isMult ==> r.value.n * (a.d * b.n) == (a.n * b.d) * r.value.d
  {
    if !isMult && b.n == 0 then
      Err(DivisionByZero)
    else
      ProductNonZero(a.d, if isMult then b.d else b.n);
      var t1 := if isMult then a.n * b.n else a.n * b.d;
      var t2 := if isMult then a.d * b.d else a.d * b.n;
      var q := Reduced(t1, t2);
      SignFixedRatio(q, t1, t2);
      Ok(SignFixed(q))
  }

  lemma SignFixedRatio(q: Fraction, num: int, den: int)
    requires q.d != 0 && q.n * den == num * q.d
    ensures SignFixed(q).n * den == num * SignFixed(q).d
  {
    if q.d < 0 {
      assert (-q.n) * den == -(q.n * den) == -(num * q.d) == num * (-q.d);
    }
  }

  /** detail::rational_multiply_scalar: multiply the numerator, reduce against the
      denominator. The denominator is only ever divided. */
  function MultiplyScalar(a: Fraction, o: int): (r: Fraction)
    requires a.d != 0
    ensures r.n * a.d == (a.n * o) * r.d
    ensures Gcd(r.n, r.d) == 1
    ensures Divides(Abs(r.d), a.d)
    ensures Gcd(a.n * o, a.d) == 1 ==> r.d == a.d
    ensures a.d > 0 ==> r.d > 0
    ensures o == 0 && a.d > 0 ==> r == Fraction(0, 1)
  {
    var t1 := a.n * o;
    var r := Reduced(t1, a.d);
    DenominatorDivides(r.d, Gcd(t1, a.d), a.d);
    r
  }

  /** detail::rational_divide_scalar: fails when d * o is zero; otherwise reduces
      d * o against the old numerator and makes the denominator positive. */
  function DivideScalar(a: Fraction, o: int): (r: Result<Fraction>)
    ensures r.Err? <==> a.d * o == 0
    ensures r.Err? ==> r.error == DivisionByZero
    ensures r.Ok? ==> Canonical(r.value)
    ensures r.Ok? ==> r.value.n * (a.d * o) == a.n * r.value.d
    ensures r.Ok? ==> Divides(Abs(r.value.n), a.n)
  {
    var t1 := a.d * o;
    if t1 == 0 then
      Err(DivisionByZero)
    else
      var g := Gcd(t1, a.n);
      var q := if g != 1 then Fraction(a.n / g, t1 / g) else Fraction(a.n, t1);
      GcdSymmetric(t1, a.n);
      assert q == Reduced(a.n, t1);
      DenominatorDivides(q.n, g, a.n);
      SignFixedRatio(q, a.n, t1);
      assert Abs(SignFixed(q).n) == Abs(q.n);
      Ok(SignFixed(q))
  }

  // ---------------------------------------------------------------------
  // Assignment from a floating-point mantissa and exponent

  function Pow2(k: nat): (p: nat)
    ensures p >= 1
  {
    if k == 0 then 1 else 2 * Pow2(k - 1)
  }

  /** The shift-and-reduce step of assignment from a float m * 2^e: shift the
      numerator left for e > 0, the denominator for e < 0, then reduce. */
  function FromFloatParts(m: int, e: int): (r: Fraction)
    ensures Canonical(r)
    ensures e >= 0 ==> r == Fraction(m * Pow2(e), 1)
    ensures e < 0 ==> r.n * Pow2(-e) == m * r.d
  {
    var num := if e > 0 then m * Pow2(e) else m;
    var den := if e < 0 then Pow2(-e) else 1;
    GcdOne(num);
    Reduced(num, den)
  }

  // ---------------------------------------------------------------------
  // Read-only operations

  /** rational_adaptor::compare against another rational: sign of n * o.d - d * o.n. */
  function Compare(a: Fraction, b: Fraction): (r: int)
    ensures r == 0 <==> a.n * b.d == a.d * b.n
    ensures a.d > 0 && b.d > 0 ==>
      && (r < 0 <==> RealValue(a) < RealValue(b))
      && (r == 0 <==> RealValue(a) == RealValue(b))
      && (r > 0 <==> RealValue(a) > RealValue(b))
  {
    CrossOrder(a.n, a.d, b.n, b.d);
    Cmp(a.n * b.d, a.d * b.n)
  }

  /** rational_adaptor::compare against an integer: sign of n - d * i. */
  function CompareInteger(a: Fraction, i: int): (r: int)
    ensures r == 0 <==> a.n == a.d * i
    ensures a.d > 0 ==>
      && (r < 0 <==> RealValue(a) < i as real)
      && (r == 0 <==> RealValue(a) == i as real)
      && (r > 0 <==> RealValue(a) > i as real)
  {
    CrossOrder(a.n, a.d, i, 1);
    Cmp(a.n, a.d * i)
  }

  /** For positive denominators the cross products order the fractions. */
  lemma CrossOrder(n1: int, d1: int, n2: int, d2: int)
    ensures d1 > 0 && d2 > 0 ==>
      && (n1 * d2 < d1 * n2 <==> n1 as real / d1 as real < n2 as real / d2 as real)
      && (n1 * d2 == d1 * n2 <==> n1 as real / d1 as real == n2 as real / d2 as real)
  {
    if d1 > 0 && d2 > 0 {
      CrossOrderPositive(n1, d1, n2, d2);
    }
  }

  lemma CrossOrderPositive(n1: int, d1: int, n2: int, d2: int)
    requires d1 > 0 && d2 > 0
    ensures (n1 * d2 < d1 * n2 <==> n1 as real / d1 as real < n2 as real / d2 as real)
    ensures (n1 * d2 == d1 * n2 <==> n1 as real / d1 as real == n2 as real / d2 as real)
  {
    var x1, y1, x2, y2 := n1 as real, d1 as real, n2 as real, d2 as real;
    assert (n1 * d2) as real == x1 * y2;
    assert (d1 * n2) as real == y1 * x2;
    var p := y1 * y2;
    assert p > 0.0;
    assert x1 / y1 == (x1 * y2) / p;
    assert x2 / y2 == (y1 * x2) / p;
  }

  /** Two pairs with nonzero denominators have equal cross products exactly when
      they stand for the same number. */
  lemma SameRatio(n1: int, d1: int, n2: int, d2: int)
    requires d1 != 0 && d2 != 0
    ensures n1 * d2 == n2 * d1 <==> n1 as real / d1 as real == n2 as real / d2 as real
  {
    var x1, y1, x2, y2 := n1 as real, d1 as real, n2 as real, d2 as real;
    assert (n1 * d2) as real == x1 * y2;
    assert (n2 * d1) as real == x2 * y1;
    var p := y1 * y2;
    assert p != 0.0;
    assert x1 / y1 == (x1 * y2) / p;
    assert x2 / y2 == (x2 * y1) / p;
  }

  /** Truncating integer division, as the backend's eval_divide does it (toward
      zero; Dafny's own `/` is Euclidean). */
  function TruncDiv(x: int, y: int): (q: int)
    requires y != 0
    ensures Abs(q) * Abs(y) <= Abs(x) < (Abs(q) + 1) * Abs(y)
    ensures q != 0 ==> ((q > 0) <==> ((x > 0) == (y > 0)))
  {
    var m := Abs(x) / Abs(y);
    QuotientBounds(Abs(x), Abs(y));
    var q := if (x < 0) == (y < 0) then m else -m;
    assert Abs(q) == m;
    q
  }

  lemma QuotientBounds(x: nat, y: nat)
    requires y > 0
    ensures x / y >= 0
    ensures (x / y) * y <= x < (x / y + 1) * y
  {
    var m, r := x / y, x % y;
    assert x == m * y + r;
    assert (m + 1) * y == m * y + y;
  }

  /** eval_convert_to for an integer target: n / d truncated toward zero. */
  function ConvertToInteger(a: Fraction): (r: int)
    requires a.d != 0
    ensures Abs(r) * Abs(a.d) <= Abs(a.n) < (Abs(r) + 1) * Abs(a.d)
    ensures r != 0 ==> ((r > 0) <==> RealValue(a) > 0.0)
  {
    SignOfValue(a);
    TruncDiv(a.n, a.d)
  }

  lemma SignOfValue(a: Fraction)
    ensures a.d != 0 ==>
      && (RealValue(a) > 0.0 <==> (a.n > 0) == (a.d > 0) && a.n != 0)
      && (RealValue(a) == 0.0 <==> a.n == 0)
      && (RealValue(a) < 0.0 <==> (a.n > 0) != (a.d > 0) && a.n != 0)
  {
    if a.d == 0 {
      return;
    }
    var x, y := a.n as real, a.d as real;
    if y > 0.0 {
      assert x / y > 0.0 <==> x > 0.0;
      assert x / y < 0.0 <==> x < 0.0;
    } else {
      assert x / y == (-x) / (-y);
      assert (-x) / (-y) > 0.0 <==> -x > 0.0;
      assert (-x) / (-y) < 0.0 <==> -x < 0.0;
    }
  }

  /** eval_is_zero: the numerator is zero. */
  function IsZero(a: Fraction): (r: bool)
    ensures a.d != 0 ==> (r <==> RealValue(a) == 0.0)
  {
    SignOfValue(a);
    a.n == 0
  }

  /** eval_get_sign: the sign of the numerator alone. */
  function GetSign(a: Fraction): (r: int)
    ensures -1 <= r <= 1
    ensures a.d > 0 ==>
      && (r < 0 <==> RealValue(a) < 0.0)
      && (r == 0 <==> RealValue(a) == 0.0)
      && (r > 0 <==> RealValue(a) > 0.0)
  {
    SignOfValue(a);
    Cmp(a.n, 0)
  }
}
