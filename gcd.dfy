/** The greatest common divisor the integer backend provides, over Dafny's
    unbounded `int`, with the facts the rational reductions rely on. */
module Gcds {

  function Abs(x: int): nat {
    if x < 0 then -x else x
  }

  /** `k` divides `x`; zero divides only zero. */
  ghost predicate Divides(k: nat, x: int) {
    if k == 0 then x == 0 else x % k == 0
  }

  /** Euclid's algorithm on natural numbers. */
  function NatGcd(a: nat, b: nat): nat
    decreases b
  {
    if b == 0 then a else NatGcd(b, a % b)
  }

  /** The backend's gcd: nonnegative, zero only for (0, 0), and `Gcd(0, x) == |x|`. */
  function Gcd(a: int, b: int): (g: nat)
    ensures g == 0 <==> a == 0 && b == 0
    ensures Divides(g, a) && Divides(g, b)
    ensures a == 0 ==> g == Abs(b)
  {
    NatGcdDivides(Abs(a), Abs(b));
    NatGcdZeroLeft(Abs(b));
    DividesAbs(NatGcd(Abs(a), Abs(b)), a);
    DividesAbs(NatGcd(Abs(a), Abs(b)), b);
    NatGcd(Abs(a), Abs(b))
  }

  lemma NatGcdZeroLeft(b: nat)
    ensures NatGcd(0, b) == b
  {
    if b != 0 {
      assert 0 % b == 0;
      assert NatGcd(0, b) == NatGcd(b, 0);
    }
  }

  // ---------------------------------------------------------------------
  // Division with remainder

  lemma DivModUnique(x: int, k: int, q: int, r: int)
    requires k > 0 && 0 <= r < k && x == k * q + r
    ensures x / k == q && x % k == r
  {
    var q', r' := x / k, x % k;
    assert x == k * q' + r';
    assert k * (q - q') == r' - r;
    if q - q' >= 1 {
      MulAtLeast(k, q - q');
      assert false;
    } else if q' - q >= 1 {
      MulAtLeast(k, q' - q);
      assert false;
    }
  }

  lemma MulAtLeast(k: int, m: int)
    requires k > 0 && m >= 1
    ensures k * m >= k
  {
    assert k * m == k + k * (m - 1);
  }

  lemma DividesMultiple(k: nat, q: int)
    ensures Divides(k, k * q)
  {
    if k > 0 {
      DivModUnique(k * q, k, q, 0);
    }
  }

  /** The quotient of an exact division; zero divides only zero. */
  function Quotient(x: int, k: nat): int {
    if k == 0 then 0 else x / k
  }

  /** A divisor divides exactly: the truncating and the Euclidean quotient agree. */
  lemma DividesExact(k: nat, x: int)
    requires Divides(k, x)
    ensures x == k * Quotient(x, k)
  {
  }

  lemma DividesAbs(k: nat, x: int)
    ensures Divides(k, x) <==> Divides(k, Abs(x))
  {
    if k > 0 && x < 0 {
      if Divides(k, x) {
        DividesNegate(k, x);
      }
      if Divides(k, -x) {
        DividesNegate(k, -x);
      }
    }
  }

  lemma DividesNegate(k: nat, x: int)
    requires Divides(k, x)
    ensures Divides(k, -x)
  {
    DividesExact(k, x);
    var q := Quotient(x, k);
    assert -x == k * -q;
    DividesMultiple(k, -q);
  }

  lemma DividesLinear(k: nat, x: int, y: int, p: int, q: int)
    requires Divides(k, x) && Divides(k, y)
    ensures Divides(k, p * x + q * y)
  {
    DividesExact(k, x);
    DividesExact(k, y);
    var a, b := Quotient(x, k), Quotient(y, k);
    assert p * x + q * y == k * (p * a + q * b) by {
      assert p * x == k * (p * a);
      assert q * y == k * (q * b);
    }
    DividesMultiple(k, p * a + q * b);
  }

  lemma DividesTrans(j: nat, k: nat, x: int)
    requires Divides(j, k) && Divides(k, x)
    ensures Divides(j, x)
  {
    DividesExact(j, k);
    DividesExact(k, x);
    var a, b := Quotient(k, j), Quotient(x, k);
    assert x == j * (a * b);
    DividesMultiple(j, a * b);
  }

  /** A positive multiple of `k` is at least `k`. */
  lemma DividesLe(k: nat, x: nat)
    requires Divides(k, x) && x > 0
    ensures k <= x
  {
    DividesExact(k, x);
    if k > 0 {
      MulAtLeast(k, Quotient(x, k));
    }
  }

  // ---------------------------------------------------------------------
  // Euclid's algorithm computes a greatest common divisor

  lemma {:induction false} NatGcdDivides(a: nat, b: nat)
    ensures Divides(NatGcd(a, b), a) && Divides(NatGcd(a, b), b)
    decreases b
  {
    var g := NatGcd(a, b);
    if b == 0 {
      DividesMultiple(a, 1);
      DividesMultiple(a, 0);
    } else {
      NatGcdDivides(b, a % b);
      assert a == (a / b) * b + 1 * (a % b);
      DividesLinear(g, b, a % b, a / b, 1);
    }
  }

  lemma {:induction false} NatGcdGreatest(a: nat, b: nat, k: nat)
    requires Divides(k, a) && Divides(k, b)
    ensures Divides(k, NatGcd(a, b))
    decreases b
  {
    if b != 0 {
      assert a % b == 1 * a + (-(a / b)) * b;
      DividesLinear(k, a, b, 1, -(a / b));
      NatGcdGreatest(b, a % b, k);
    }
  }

  /** Every common divisor of `a` and `b` divides `Gcd(a, b)`. */
  lemma GcdGreatest(a: int, b: int, k: nat)
    requires Divides(k, a) && Divides(k, b)
    ensures Divides(k, Gcd(a, b))
  {
    DividesAbs(k, a);
    DividesAbs(k, b);
    NatGcdGreatest(Abs(a), Abs(b), k);
  }

  lemma DividesAntisym(j: nat, k: nat)
    requires Divides(j, k) && Divides(k, j)
    ensures j == k
  {
    if j > 0 && k > 0 {
      DividesLe(j, k);
      DividesLe(k, j);
    }
  }

  lemma GcdSymmetric(a: int, b: int)
    ensures Gcd(a, b) == Gcd(b, a)
  {
    GcdGreatest(a, b, Gcd(b, a));
    GcdGreatest(b, a, Gcd(a, b));
    DividesAntisym(Gcd(a, b), Gcd(b, a));
  }

  lemma GcdOne(x: int)
    ensures Gcd(x, 1) == 1
  {
    assert Abs(x) % 1 == 0;
  }

  lemma GcdNegate(a: int, b: int)
    ensures Gcd(-a, b) == Gcd(a, b) && Gcd(a, -b) == Gcd(a, b)
  {
  }

  /** Dividing both parts by their gcd leaves no common factor. */
  lemma ReducedCoprime(a: int, b: int)
    requires a != 0 || b != 0
    ensures Gcd(a / Gcd(a, b), b / Gcd(a, b)) == 1
  {
    var g := Gcd(a, b);
    DividesExact(g, a);
    DividesExact(g, b);
    var a', b' := a / g, b / g;
    var h := Gcd(a', b');
    assert h > 0 by {
      if a' == 0 && b' == 0 {
        assert a == g * a' && b == g * b';
      }
    }
    ScaledCommonDivisor(a, g, a', h);
    ScaledCommonDivisor(b, g, b', h);
    GcdGreatest(a, b, g * h);
    DividesLe(g * h, g);
    UnitFactor(g, h);
  }

  lemma UnitFactor(g: nat, h: nat)
    requires g > 0 && h > 0 && g * h <= g
    ensures h == 1
  {
    if h > 1 {
      assert g * h == g + g * (h - 1);
      MulAtLeast(g, h - 1);
    }
  }

  lemma ScaledCommonDivisor(x: int, g: nat, x': int, h: nat)
    requires x == g * x' && Divides(h, x')
    ensures Divides(g * h, x)
  {
    DividesExact(h, x');
    var q := Quotient(x', h);
    assert x == (g * h) * q by {
      assert x' == h * q;
    }
    DividesMultiple(g * h, q);
  }

  // ---------------------------------------------------------------------
  // Euclid's lemma, for the uniqueness of canonical fractions

  lemma {:induction false} NatGcdScale(a: nat, b: nat, c: nat)
    requires c > 0
    ensures NatGcd(a * c, b * c) == NatGcd(a, b) * c
    decreases b
  {
    if b != 0 {
      assert a * c == (b * c) * (a / b) + (a % b) * c;
      assert (a % b) * c < b * c;
      DivModUnique(a * c, b * c, a / b, (a % b) * c);
      NatGcdScale(b, a % b, c);
    }
  }

  /** If `k` divides `x * y` and has no factor in common with `x`, it divides `y`. */
  lemma Euclid(k: nat, x: int, y: int)
    requires Divides(k, x * y) && Gcd(x, k) == 1
    ensures Divides(k, y)
  {
    if y == 0 {
      DividesMultiple(k, 0);
    } else {
      var ay := Abs(y);
      assert Abs(x * y) == Abs(x) * ay;
      DividesAbs(k, x * y);
      DividesMultiple(k, ay);
      assert k * ay == ay * k;
      NatGcdScale(Abs(x), k, ay);
      NatGcdGreatest(Abs(x) * ay, k * ay, k);
      assert NatGcd(Abs(x), k) == 1;
      DividesAbs(k, y);
    }
  }
}
