/** `rational_adaptor<IntBackend>` as an object: the two backend integers
    `m_n`, `m_d` are the fields of `Rational`, the assignments, `swap` and
    `negate` update them in place, and the `detail::rational_*` helpers and
    `eval_*` wrappers are methods that write their `result` step by step as the
    source does. Each method is proved against the value-level function of the
    same operation in RationalValues or RationalText. */
module RationalAdaptor {
  import opened Gcds
  import V = RationalValues
  import T = RationalText

  class Rational {
    var n: int
    var d: int

    /** The pair the object holds. */
    function Value(): V.Fraction
      reads this
    {
      V.Fraction(n, d)
    }

    /** The form every arithmetic result on valid operands has. */
    predicate Valid()
      reads this
    {
      V.Canonical(Value())
    }

    /** The default constructor leaves both backend integers default-constructed;
        nothing is promised about them. */
    constructor Default()
    {
    }

    /** Copy construction. */
    constructor Copy(o: Rational)
      ensures Value() == o.Value()
    {
      n := o.n;
      d := o.d;
    }

    /** Construction from an integer: v/1. */
    constructor FromInteger(v: int)
      ensures Value() == V.Fraction(v, 1) && Valid()
    {
      n := v;
      d := 1;
      GcdOne(v);
    }

    /** Copy assignment (the object may be assigned to itself). */
    method AssignCopy(o: Rational)
      modifies this
      ensures Value() == old(o.Value())
    {
      n := o.n;
      d := o.d;
    }

    /** Assignment from an integer: i/1, already canonical. */
    method AssignInteger(i: int)
      modifies this
      ensures Value() == V.Fraction(i, 1) && Valid()
    {
      n := i;
      d := 1;
      GcdOne(i);
    }

    /** The shift-and-reduce part of assignment from a float whose mantissa
        and exponent are m and e: the value becomes m * 2^e in lowest terms. */
    method AssignFloatParts(m: int, e: int)
      modifies this
      ensures Value() == V.FromFloatParts(m, e) && Valid()
    {
      n := m;
      d := 1;
      if e > 0 {
        n := n * V.Pow2(e);
      } else if e < 0 {
        d := d * V.Pow2(-e);
      }
      GcdOne(n);
      var t1 := Gcd(n, d);
      if t1 != 1 {
        V.DivideByGcd(n, d);
        var t2 := n / t1;
        n := t2;
        t2 := d / t1;
        d := t2;
      }
    }

    /** Assignment from a C string. The result is the value-level parse; on
        success it is what the object holds. */
    method AssignString(s: seq<char>, conv: seq<char> -> T.Option<int>) returns (r: V.Result<V.Fraction>)
      modifies this
      ensures r == T.Parse(s, conv)
      ensures r.Ok? ==> Value() == r.value
    {
      var i, hex, s1 := ScanRun(s, 0, false);
      var num := conv(s1);
      if num.None? {
        return V.Err(V.InvalidInteger);
      }
      n := num.value;
      if T.CharAt(s, i) == '/' {
        var j, hex2, s2 := ScanRun(s, i + 1, hex);
        var den := conv(s2);
        if den.None? {
          return V.Err(V.InvalidInteger);
        }
        d := den.value;
        i := j;
      } else {
        d := 1;
      }
      if T.CharAt(s, i) != '\0' {
        return V.Err(V.TrailingCharacters);
      }
      var t1 := Gcd(n, d);
      if t1 != 1 {
        if t1 == 0 {
          // The backend's divide by a zero gcd.
          return V.Err(V.DivisionByZero);
        }
        V.DivideByGcd(n, d);
        var t2 := n / t1;
        n := t2;
        t2 := d / t1;
        d := t2;
      }
      r := V.Ok(Value());
    }

    /** Exchanges the two objects' numerators and denominators. */
    method Swap(o: Rational)
      modifies this, o
      ensures Value() == old(o.Value()) && o.Value() == old(Value())
    {
      n, o.n := o.n, n;
      d, o.d := o.d, d;
    }

    /** Negation flips the numerator only, so a canonical value stays canonical. */
    method Negate()
      modifies this
      ensures Value() == V.Fraction(-old(n), old(d))
      ensures old(Valid()) ==> Valid()
    {
      n := -n;
      GcdNegate(-n, d);
    }
  }

  /** One scanning loop of the string assignment: from position `start`, take
      characters while they are accepted and append them to a fresh string,
      switching hex letters on at an `x` or `X`. */
  method ScanRun(s: seq<char>, start: nat, hex0: bool) returns (i: nat, hex: bool, s1: seq<char>)
    requires start <= |s|
    ensures T.Scanned(i, hex) == T.Scan(s, start, hex0)
    ensures start <= i <= |s| && s1 == s[start..i]
  {
    i, hex, s1 := start, hex0, [];
    while i < |s| && s[i] != '\0' && T.Accepted(s[i], hex)
      invariant start <= i <= |s|
      invariant T.Scan(s, i, hex) == T.Scan(s, start, hex0)
      invariant s1 == s[start..i]
      decreases |s| - i
    {
      T.ScanStep(s, i, hex);
      if T.IsHexMarker(s[i]) {
        hex := true;
      }
      s1 := s1 + [s[i]];
      i := i + 1;
    }
    T.ScanStop(s, i, hex);
  }

  // ---------------------------------------------------------------------
  // The detail:: arithmetic helpers

  /** detail::rational_add_subtract_scalar(result, val, is_add). */
  method AddSubtractScalarInPlace(result: Rational, val: int, isAdd: bool)
    requires result.d != 0
    modifies result
    ensures result.Value() == V.AddSubtractScalarInPlace(old(result.Value()), val, isAdd)
  {
    var t := result.d * val;
    if isAdd {
      result.n := result.n + t;
    } else {
      result.n := result.n - t;
    }
    t := Gcd(result.n, result.d);
    if t != 1 {
      V.DivideByGcd(result.n, result.d);
      var t2 := result.n / t;
      result.n := t2;
      t2 := result.d / t;
      result.d := t2;
    }
  }

  /** detail::rational_add_subtract_scalar(result, a, b, is_add). The helper
      writes result.n before it reads a.n, so result and a are distinct. */
  method AddSubtractScalar(result: Rational, a: Rational, b: int, isAdd: bool)
    requires result != a && a.d != 0
    modifies result
    ensures result.Value() == V.AddSubtractScalar(a.Value(), b, isAdd)
  {
    var t: int;
    result.n := a.d * b;
    if isAdd {
      result.n := result.n + a.n;
    } else {
      result.n := result.n - a.n;
      result.n := -result.n;
    }
    t := Gcd(result.n, a.d);
    if t != 1 {
      V.DivideByGcd(result.n, a.d);
      result.d := result.n / t;
      result.n := result.d;
      result.d := a.d / t;
    } else {
      result.d := a.d;
    }
  }

  /** detail::rational_add_subtract(result, a, b, is_add); result may be a or b. */
  method AddSubtract(result: Rational, a: Rational, b: Rational, isAdd: bool)
    requires a.d != 0 && b.d != 0
    modifies result
    ensures result.Value() == V.AddSubtract(old(a.Value()), old(b.Value()), isAdd)
  {
    V.ProductNonZero(a.d, b.d);
    var t1 := a.n * b.d;
    var t2 := a.d * b.n;
    ghost var ad, bd := a.d, b.d;
    if isAdd {
      result.n := t1 + t2;
    } else {
      result.n := t1 - t2;
    }
    result.d := a.d * b.d;
    assert result.d == ad * bd;
    t1 := Gcd(result.n, result.d);
    if t1 != 1 {
      V.DivideByGcd(result.n, result.d);
      t2 := result.n / t1;
      result.n := t2;
      t2 := result.d / t1;
      result.d := t2;
    }
  }

  /** detail::rational_multiply_divide(result, a, b, is_mult); result may be a
      or b. Dividing by a zero numerator fails before anything is written. */
  method MultiplyDivide(result: Rational, a: Rational, b: Rational, isMult: bool) returns (r: V.Result<V.Fraction>)
    requires a.d != 0 && b.d != 0
    modifies result
    ensures r == V.MultiplyDivide(old(a.Value()), old(b.Value()), isMult)
    ensures r.Ok? ==> result.Value() == r.value
    ensures r.Err? ==> result.Value() == old(result.Value())
  {
    var t1, t2;
    if isMult {
      t1 := a.n * b.n;
      t2 := a.d * b.d;
    } else {
      if b.n == 0 {
        return V.Err(V.DivisionByZero);
      }
      t1 := a.n * b.d;
      t2 := a.d * b.n;
    }
    V.ProductNonZero(a.d, if isMult then b.d else b.n);
    ghost var q := V.Reduced(t1, t2);
    result.d := Gcd(t1, t2);
    if result.d != 1 {
      V.DivideByGcd(t1, t2);
      result.n := t1 / result.d;
      t1 := t2 / result.d;
      result.d := t1;
    } else {
      result.n := t1;
      result.d := t2;
    }
    assert result.Value() == q;
    if result.d < 0 {
      result.n := -result.n;
      result.d := -result.d;
    }
    r := V.Ok(result.Value());
  }

  /** detail::rational_multiply_scalar(result, o). */
  method MultiplyScalar(result: Rational, o: int)
    requires result.d != 0
    modifies result
    ensures result.Value() == V.MultiplyScalar(old(result.Value()), o)
  {
    var t1 := result.n * o;
    var t2 := Gcd(t1, result.d);
    if t2 != 1 {
      V.DivideByGcd(t1, result.d);
      result.n := t1 / t2;
      t1 := result.d / t2;
      result.d := t1;
    } else {
      result.n := t1;
    }
  }

  /** detail::rational_divide_scalar(result, o); fails, leaving result as it
      was, when d * o is zero. */
  method DivideScalar(result: Rational, o: int) returns (r: V.Result<V.Fraction>)
    modifies result
    ensures r == V.DivideScalar(old(result.Value()), o)
    ensures r.Ok? ==> result.Value() == r.value
    ensures r.Err? ==> result.Value() == old(result.Value())
  {
    var t1 := result.d * o;
    if t1 == 0 {
      return V.Err(V.DivisionByZero);
    }
    ghost var was := result.Value();
    var t2 := Gcd(t1, result.n);
    if t2 != 1 {
      GcdSymmetric(t1, result.n);
      V.DivideByGcd(result.n, t1);
      result.d := t1 / t2;
      t1 := result.n / t2;
      result.n := t1;
    } else {
      result.d := t1;
    }
    if result.d < 0 {
      result.n := -result.n;
      result.d := -result.d;
    }
    r := V.Ok(result.Value());
    assert r == V.DivideScalar(was, o);
  }

  // ---------------------------------------------------------------------
  // The in-place eval_* wrappers: compute into a temporary, then move it in

  method EvalAdd(result: Rational, o: Rational)
    requires result.d != 0 && o.d != 0
    modifies result
    ensures result.Value() == V.AddSubtract(old(result.Value()), old(o.Value()), true)
  {
    var t := new Rational.Default();
    AddSubtract(t, result, o, true);
    result.AssignCopy(t);
  }

  method EvalSubtract(result: Rational, o: Rational)
    requires result.d != 0 && o.d != 0
    modifies result
    ensures result.Value() == V.AddSubtract(old(result.Value()), old(o.Value()), false)
  {
    var t := new Rational.Default();
    AddSubtract(t, result, o, false);
    result.AssignCopy(t);
  }

  method EvalMultiply(result: Rational, o: Rational)
    requires result.d != 0 && o.d != 0
    modifies result
    ensures result.Value() == V.MultiplyDivide(old(result.Value()), old(o.Value()), true).value
  {
    var t := new Rational.Default();
    var r := MultiplyDivide(t, result, o, true);
    result.AssignCopy(t);
  }

  /** The division throws before the temporary is moved in, so a failed
      division leaves result as it was. */
  method EvalDivide(result: Rational, o: Rational) returns (r: V.Result<V.Fraction>)
    requires result.d != 0 && o.d != 0
    modifies result
    ensures r == V.MultiplyDivide(old(result.Value()), old(o.Value()), false)
    ensures r.Ok? ==> result.Value() == r.value
    ensures r.Err? ==> result.Value() == old(result.Value())
  {
    var t := new Rational.Default();
    r := MultiplyDivide(t, result, o, false);
    if r.Ok? {
      result.AssignCopy(t);
    }
  }

  /** assign_components: stores the two parts as given, without reduction. */
  method AssignComponents(result: Rational, v1: int, v2: int)
    modifies result
    ensures result.Value() == V.Fraction(v1, v2)
  {
    result.n := v1;
    result.d := v2;
  }
}
