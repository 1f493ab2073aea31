/** The exact fraction type of rational.h: a numerator over a denominator,
    always kept in lowest terms with a positive denominator.

    The source stores both components in `int64_t`; here they are unbounded
    integers, so overflow is not modelled. */
module Rationals {
  import opened Divisibility

  /** The fraction `a/b`. */
  datatype Rational = Rational(a: int, b: int)

  function Abs(n: int): nat {
    if n < 0 then -n else n
  }

  /** The canonical form every constructor call establishes: positive
      denominator, numerator and denominator coprime.  Zero is then 0/1,
      since gcd(0, b) == b. */
  predicate Valid(x: Rational) {
    x.b > 0 && Gcd(Abs(x.a), x.b) == 1
  }

  /** The number a fraction with a nonzero denominator stands for. */
  function ToReal(x: Rational): real
    requires x.b != 0
  {
    x.a as real / x.b as real
  }

  // ---------------------------------------------------------------------
  // Arithmetic facts used below

  lemma MulCancel(x: int, y: int, b: int)
    requires b > 0 && x * b == y * b
    ensures x == y
  {
    var m := x - y;
    assert m * b == x * b - y * b == 0;
    if m >= 1 {
      MulAtLeast(m, b);
      assert false;
    } else if m <= -1 {
      MulAtMost(m, b);
      assert false;
    }
  }

  lemma MulRegroup(p: int, q: int, g: int)
    ensures p * (g * q) == (g * p) * q
  {
  }

  lemma AbsMul(x: int, y: int)
    ensures Abs(x * y) == Abs(x) * Abs(y)
  {
    if x < 0 && y < 0 {
      assert x * y == (-x) * (-y);
      MulNonnegative(-x, -y);
    } else if x < 0 {
      assert x * y == -((-x) * y);
      MulNonnegative(-x, y);
    } else if y < 0 {
      assert x * y == -(x * (-y));
      MulNonnegative(x, -y);
    } else {
      MulNonnegative(x, y);
    }
  }

  lemma AbsQuotient(a: int, g: int)
    requires Divides(g, a)
    ensures Abs(a / g) == Abs(a) / g
  {
    Quotient(g, a);
    var q := a / g;
    if a < 0 {
      assert Abs(a) == g * (-q);
      DividesProduct(g, -q);
      if q >= 0 {
        MulNonnegative(g, q);
        assert false;
      }
    } else {
      DividesProduct(g, q);
      if q < 0 {
        MulNonpositive(g, q);
        MulAtMost(q, g);
        assert false;
      }
    }
  }

  /** Equal cross products of integers mean equal real quotients. */
  lemma CrossToReal(a: int, b: int, c: int, d: int)
    requires b != 0 && d != 0 && a * d == c * b
    ensures a as real / b as real == c as real / d as real
  {
    var u := a as real / b as real;
    var v := c as real / d as real;
    assert u * b as real == a as real;
    assert v * d as real == c as real;
    assert (a * d) as real == a as real * d as real;
    assert (c * b) as real == c as real * b as real;
    assert (u - v) * (b as real * d as real) == 0.0;
  }

  lemma RealToCross(a: int, b: int, c: int, d: int)
    requires b != 0 && d != 0 && a as real / b as real == c as real / d as real
    ensures a * d == c * b
  {
    var u := a as real / b as real;
    assert u * b as real == a as real;
    assert u * d as real == c as real;
    assert a as real * d as real == c as real * b as real;
    assert (a * d) as real == a as real * d as real;
    assert (c * b) as real == c as real * b as real;
  }

  lemma CastMul(a: int, b: int)
    ensures (a * b) as real == a as real * b as real
  {
  }

  lemma CastAdd(a: int, b: int)
    ensures (a + b) as real == a as real + b as real
  {
  }

  lemma FractionSum(a: real, b: real, c: real, d: real)
    requires b != 0.0 && d != 0.0
    ensures (a * d + c * b) / (b * d) == a / b + c / d
  {
  }

  lemma FractionProduct(a: real, b: real, c: real, d: real)
    requires b != 0.0 && d != 0.0
    ensures (a * c) / (b * d) == (a / b) * (c / d)
  {
  }

  /** The value of the unreduced sum `(xa*yb + ya*xb) / (xb*yb)`. */
  lemma SumValue(x: Rational, y: Rational)
    requires x.b != 0 && y.b != 0
    ensures (x.b * y.b) != 0
    ensures (x.a * y.b + y.a * x.b) as real / (x.b * y.b) as real == ToReal(x) + ToReal(y)
  {
    CastMul(x.a, y.b);
    CastMul(y.a, x.b);
    CastMul(x.b, y.b);
    CastAdd(x.a * y.b, y.a * x.b);
    FractionSum(x.a as real, x.b as real, y.a as real, y.b as real);
  }

  /** The value of the unreduced product `(xa*ya) / (xb*yb)`. */
  lemma ProductValue(x: Rational, y: Rational)
    requires x.b != 0 && y.b != 0
    ensures (x.b * y.b) != 0
    ensures (x.a * y.a) as real / (x.b * y.b) as real == ToReal(x) * ToReal(y)
  {
    CastMul(x.a, y.a);
    CastMul(x.b, y.b);
    FractionProduct(x.a as real, x.b as real, y.a as real, y.b as real);
  }

  /** Adding `n` whole units to `a/b` gives `(a + n*b)/b`. */
  lemma ShiftValue(a: int, b: int, n: int)
    requires b != 0
    ensures (a + n * b) as real / b as real == a as real / b as real + n as real
  {
    CastMul(n, b);
    CastAdd(a, n * b);
  }

  // ---------------------------------------------------------------------
  // Construction

  /** The private `reduce`: divide both components by gcd(|a|, |b|). */
  function Reduce(a: int, b: int): (r: Rational)
    requires a != 0
    ensures r.a * b == a * r.b
    ensures b > 0 ==> Valid(r)
    ensures b == 0 ==> r == Rational(if a > 0 then 1 else -1, 0)
  {
    var g := Gcd(Abs(a), Abs(b));
    GcdOfQuotients(Abs(a), Abs(b));
    DividesAbs(g, a);
    DividesAbs(g, b);
    Quotient(g, a);
    Quotient(g, b);
    AbsQuotient(a, g);
    AbsQuotient(b, g);
    var r := Rational(a / g, b / g);
    assert r.a * b == a * r.b by {
      MulRegroup(r.a, r.b, g);
    }
    assert b > 0 ==> r.b > 0 by {
      if b > 0 && r.b <= 0 {
        MulNonpositive(g, r.b);
        assert false;
      }
    }
    assert b == 0 ==> r == Rational(if a > 0 then 1 else -1, 0) by {
      if b == 0 {
        assert g == Abs(a);
        DividesProduct(g, 1);
        DividesProduct(g, -1);
        assert a == g * 1 || a == g * -1;
      }
    }
    r
  }

  /** The constructor `Rational(numer, denom)`: moves the sign to the
      numerator and reduces; a zero numerator always gives 0/1.  A zero
      denominator with a nonzero numerator gives ±1/0, outside the canonical
      form. */
  function Make(numer: int, denom: int): (r: Rational)
    ensures denom != 0 ==> Valid(r) && r.a * denom == numer * r.b
    ensures numer == 0 ==> r == Rational(0, 1)
    ensures numer != 0 && denom == 0 ==> r == Rational(if numer > 0 then 1 else -1, 0)
  {
    if numer != 0 then
      if denom < 0 then
        var r := Reduce(-numer, -denom);
        assert r.a * denom == numer * r.b by {
          assert r.a * (-denom) == (-numer) * r.b;
        }
        r
      else
        Reduce(numer, denom)
    else
      Rational(0, 1)
  }

  /** Integer-to-fraction conversion, `Rational(n)` with the default denominator 1. */
  function FromInt(n: int): (r: Rational)
    ensures r == Rational(n, 1) && Valid(r)
  {
    assert Gcd(Abs(n), 1) == 1 by {
      assert Gcd(Abs(n), 1) == Gcd(1, Abs(n) % 1);
    }
    Make(n, 1)
  }

  lemma IntValue(n: int)
    ensures ToReal(FromInt(n)) == n as real
  {
  }

  lemma NegValue(a: int, b: int)
    requires b != 0
    ensures (-a) as real / b as real == -(a as real / b as real)
  {
  }

  /** A canonical fraction is determined by its value: the component-wise
      `==` of the source coincides with equality of cross products. */
  lemma {:induction false} CanonicalUnique(x: Rational, y: Rational)
    requires Valid(x) && Valid(y) && x.a * y.b == y.a * x.b
    ensures x == y
  {
    // x.b divides |x.a| * y.b == |y.a| * x.b and is coprime to |x.a|
    AbsMul(x.a, y.b);
    AbsMul(y.a, x.b);
    assert Abs(x.a) * y.b == Abs(y.a) * x.b;
    DividesProduct(x.b, Abs(y.a));
    assert Divides(x.b, Abs(x.a) * y.b);
    Euclid(Abs(x.a), x.b, y.b);
    DividesProduct(y.b, Abs(x.a));
    assert Divides(y.b, Abs(y.a) * x.b);
    Euclid(Abs(y.a), y.b, x.b);
    DividesBound(x.b, y.b);
    DividesBound(y.b, x.b);
    MulCancel(x.a, y.a, y.b);
  }

  lemma ValidNegation(a: int, b: int)
    requires Valid(Rational(a, b))
    ensures Valid(Rational(-a, b))
  {
    assert Abs(-a) == Abs(a);
  }

  /** Building from a pair already in canonical form changes nothing. */
  lemma MakeCanonical(a: int, b: int)
    requires Valid(Rational(a, b))
    ensures Make(a, b) == Rational(a, b)
  {
    hide Reduce, Make;
    if a != 0 {
      CanonicalUnique(Make(a, b), Rational(a, b));
    } else {
      assert Gcd(0, b) == Gcd(b, 0) == b;
    }
  }

  lemma ValueOfMake(numer: int, denom: int)
    requires denom != 0
    ensures ToReal(Make(numer, denom)) == numer as real / denom as real
  {
    var r := Make(numer, denom);
    CrossToReal(r.a, r.b, numer, denom);
  }

  /** Canonical fractions with the same value are identical. */
  lemma ToRealInjective(x: Rational, y: Rational)
    requires Valid(x) && Valid(y) && ToReal(x) == ToReal(y)
    ensures x == y
  {
    RealToCross(x.a, x.b, y.a, y.b);
    CanonicalUnique(x, y);
  }

  // ---------------------------------------------------------------------
  // The values the operators can produce

  /** Canonical fractions together with the two denominator-0 values a
      division by zero leaves behind.  Every result of `Make` is one of these. */
  predicate Extended(x: Rational) {
    Valid(x) || x == Rational(1, 0) || x == Rational(-1, 0)
  }

  lemma MakeExtended(numer: int, denom: int)
    ensures Extended(Make(numer, denom))
  {
    hide Reduce, Gcd;
    if numer == 0 {
      assert Gcd(0, 1) == Gcd(1, 0) == 1;
    }
  }

  // ---------------------------------------------------------------------
  // Arithmetic operators.  Like the source they accept any pair of
  // components; what they promise is stated for canonical operands.

  /** Unary `+` returns its operand. */
  function Plus(x: Rational): (r: Rational)
    ensures Valid(x) ==> Valid(r) && ToReal(r) == ToReal(x)
  {
    x
  }

  /** Unary `-`: rebuilds from the negated numerator; on a canonical
      fraction this only flips the sign. */
  function Neg(x: Rational): (r: Rational)
    ensures Extended(r)
    ensures Valid(x) ==> r == Rational(-x.a, x.b) && Valid(r)
    ensures Valid(x) ==> ToReal(r) == -ToReal(x)
  {
    MakeExtended(-x.a, x.b);
    if Valid(x) then
      ValidNegation(x.a, x.b);
      MakeCanonical(-x.a, x.b);
      NegValue(x.a, x.b);
      Make(-x.a, x.b)
    else
      Make(-x.a, x.b)
  }

  function Add(x: Rational, y: Rational): (r: Rational)
    ensures Extended(r)
    ensures Valid(x) && Valid(y) ==> Valid(r) && ToReal(r) == ToReal(x) + ToReal(y)
  {
    MakeExtended(x.a * y.b + y.a * x.b, x.b * y.b);
    if Valid(x) && Valid(y) then
      SumValue(x, y);
      ValueOfMake(x.a * y.b + y.a * x.b, x.b * y.b);
      Make(x.a * y.b + y.a * x.b, x.b * y.b)
    else
      Make(x.a * y.b + y.a * x.b, x.b * y.b)
  }

  /** Binary `-` is `fir + (-sec)`. */
  function Sub(x: Rational, y: Rational): (r: Rational)
    ensures Extended(r)
    ensures Valid(x) && Valid(y) ==> Valid(r) && ToReal(r) == ToReal(x) - ToReal(y)
  {
    Add(x, Neg(y))
  }

  function Mul(x: Rational, y: Rational): (r: Rational)
    ensures Extended(r)
    ensures Valid(x) && Valid(y) ==> Valid(r) && ToReal(r) == ToReal(x) * ToReal(y)
  {
    MakeExtended(x.a * y.a, x.b * y.b);
    if Valid(x) && Valid(y) then
      ProductValue(x, y);
      ValueOfMake(x.a * y.a, x.b * y.b);
      Make(x.a * y.a, x.b * y.b)
    else
      Make(x.a * y.a, x.b * y.b)
  }

  /** Binary `/` is `fir * Rational(sec.b, sec.a)`.  Nothing checks for a
      zero divisor: the reciprocal of 0/1 is then 1/0, and the quotient is
      0/1 for a zero dividend and ±1/0 otherwise, outside the canonical form. */
  function Div(x: Rational, y: Rational): (r: Rational)
    ensures Extended(r)
    ensures Valid(x) && Valid(y) && y.a != 0 ==> Valid(r) && ToReal(r) == ToReal(x) / ToReal(y)
    ensures Valid(x) && Valid(y) && y.a == 0 ==>
              r == if x.a == 0 then Rational(0, 1) else Rational(if x.a > 0 then 1 else -1, 0)
  {
    if Valid(x) && Valid(y) && y.a != 0 then
      QuotientValue(x, y);
      Mul(x, Make(y.b, y.a))
    else if Valid(x) && Valid(y) then
      DivisionByZero(x, y);
      Mul(x, Make(y.b, y.a))
    else
      Mul(x, Make(y.b, y.a))
  }

  /** `Rational(b, a)` is the reciprocal of a canonical nonzero `a/b`. */
  lemma ReciprocalValue(y: Rational)
    requires Valid(y) && y.a != 0
    ensures Valid(Make(y.b, y.a)) && ToReal(Make(y.b, y.a)) * ToReal(y) == 1.0
  {
    hide Gcd, Reduce, Make;
    ValueOfMake(y.b, y.a);
  }

  lemma QuotientValue(x: Rational, y: Rational)
    requires Valid(x) && Valid(y) && y.a != 0
    ensures Valid(Make(y.b, y.a)) && ToReal(Mul(x, Make(y.b, y.a))) == ToReal(x) / ToReal(y)
  {
    hide Gcd, Reduce, Make;
    ReciprocalValue(y);
    var inv := Make(y.b, y.a);
    var r := Mul(x, inv);
    assert ToReal(r) == ToReal(x) * ToReal(inv);
  }

  /** A canonical zero divisor is 0/1; its "reciprocal" is 1/0. */
  lemma DivisionByZero(x: Rational, y: Rational)
    requires Valid(x) && Valid(y) && y.a == 0
    ensures Mul(x, Make(y.b, y.a)) ==
              if x.a == 0 then Rational(0, 1) else Rational(if x.a > 0 then 1 else -1, 0)
  {
    assert Gcd(0, y.b) == Gcd(y.b, 0) == y.b;
    assert Make(y.b, y.a) == Rational(1, 0) by {
      assert Make(1, 0) == Rational(1, 0);
    }
    assert !Valid(Rational(1, 0));
    assert Mul(x, Rational(1, 0)) == Make(x.a * 1, x.b * 0);
  }

  /** Dividing and multiplying back by a nonzero divisor is the identity. */
  lemma DivMulRoundTrip(x: Rational, y: Rational)
    requires Valid(x) && Valid(y) && y.a != 0
    ensures Mul(Div(x, y), y) == x
  {
    hide Gcd, Reduce, Make, Mul, Div;
    var q := Div(x, y);
    var r := Mul(q, y);
    assert ToReal(y) != 0.0;
    DivideBack(ToReal(x), ToReal(y));
    ToRealInjective(r, x);
  }

  lemma DivideBack(u: real, v: real)
    requires v != 0.0
    ensures u / v * v == u
  {
  }

  // ---------------------------------------------------------------------
  // Comparison

  /** `==` compares numerators and denominators. */
  predicate Equal(x: Rational, y: Rational) {
    x.a == y.a && x.b == y.b
  }

  predicate NotEqual(x: Rational, y: Rational) {
    !Equal(x, y)
  }

  /** On canonical fractions, component equality is value equality. */
  lemma EqualIffSameValue(x: Rational, y: Rational)
    requires Valid(x) && Valid(y)
    ensures Equal(x, y) <==> x.a * y.b == y.a * x.b
    ensures Equal(x, y) <==> ToReal(x) == ToReal(y)
  {
    if x.a * y.b == y.a * x.b {
      CanonicalUnique(x, y);
    }
    if ToReal(x) == ToReal(y) {
      ToRealInjective(x, y);
    }
  }

  /** `<`: the numerator of the reduced difference is negative. */
  predicate Less(x: Rational, y: Rational) {
    Sub(x, y).a < 0
  }

  /** `>` is `<` with the operands swapped. */
  predicate Greater(x: Rational, y: Rational) {
    Less(y, x)
  }

  lemma SignOfQuotient(a: int, b: int)
    requires b > 0
    ensures a < 0 <==> a as real / b as real < 0.0
  {
    var u := a as real / b as real;
    assert u * b as real == a as real;
    if u < 0.0 {
      assert u * b as real < 0.0;
    } else {
      assert u * b as real >= 0.0;
    }
  }

  /** Comparing quotients with positive denominators by cross-multiplying. */
  lemma CrossLess(a: int, b: int, c: int, d: int)
    requires b > 0 && d > 0
    ensures a as real / b as real < c as real / d as real <==> a * d < c * b
  {
    var u, v := a as real / b as real, c as real / d as real;
    var k := b as real * d as real;
    assert k > 0.0;
    assert u * k == a as real * d as real;
    assert v * k == c as real * b as real;
    CastMul(a, d);
    CastMul(c, b);
    assert u < v <==> u * k < v * k;
  }

  lemma LessIffCross(x: Rational, y: Rational)
    requires Valid(x) && Valid(y)
    ensures Less(x, y) <==> ToReal(x) < ToReal(y)
    ensures Less(x, y) <==> x.a * y.b < y.a * x.b
  {
    var s := Sub(x, y);
    SignOfQuotient(s.a, s.b);
    CrossLess(x.a, x.b, y.a, y.b);
  }

  lemma GreaterIffCross(x: Rational, y: Rational)
    requires Valid(x) && Valid(y)
    ensures Greater(x, y) <==> ToReal(x) > ToReal(y)
    ensures Greater(x, y) <==> y.a * x.b < x.a * y.b
  {
    LessIffCross(y, x);
  }

  /** On canonical fractions exactly one of `<`, `==`, `>` holds. */
  lemma Trichotomy(x: Rational, y: Rational)
    requires Valid(x) && Valid(y)
    ensures Less(x, y) || Equal(x, y) || Greater(x, y)
    ensures !(Less(x, y) && Greater(x, y))
    ensures Equal(x, y) ==> !Less(x, y) && !Greater(x, y)
  {
    LessIffCross(x, y);
    GreaterIffCross(x, y);
    EqualIffSameValue(x, y);
  }

  // ---------------------------------------------------------------------
  // Increment and decrement by the unit fraction 1/1

  /** `++x`: the returned value and the new state coincide. */
  function PreIncrement(x: Rational): (r: Rational)
    ensures Valid(x) ==> r == Rational(x.a + x.b, x.b)
  {
    if Valid(x) then
      var r := Add(x, Make(1, 1));
      assert r == AddInt(x, 1);
      r
    else
      Add(x, Make(1, 1))
  }

  /** `--x`. */
  function PreDecrement(x: Rational): (r: Rational)
    ensures Valid(x) ==> r == Rational(x.a - x.b, x.b)
  {
    if Valid(x) then
      var r := Sub(x, Make(1, 1));
      assert Neg(FromInt(1)) == FromInt(-1);
      assert r == AddInt(x, -1);
      r
    else
      Sub(x, Make(1, 1))
  }

  /** `x++`: returns the value from before the change, paired with the new state. */
  function PostIncrement(x: Rational): (r: (Rational, Rational))
    ensures r.0 == x
    ensures Valid(x) ==> r.1 == Rational(x.a + x.b, x.b)
  {
    (x, PreIncrement(x))
  }

  /** `x--`: returns the value from before the change, paired with the new state. */
  function PostDecrement(x: Rational): (r: (Rational, Rational))
    ensures r.0 == x
    ensures Valid(x) ==> r.1 == Rational(x.a - x.b, x.b)
  {
    (x, PreDecrement(x))
  }

  // ---------------------------------------------------------------------
  // Mixed fraction/integer overloads: the integer is converted with denominator 1

  /** `fir + n`. */
  function AddInt(x: Rational, n: int): (r: Rational)
    ensures Valid(x) ==> r == Rational(x.a + n * x.b, x.b)
  {
    var r := Add(x, FromInt(n));
    if Valid(x) then
      GcdAbsCombination(x.a, x.b, n);
      ShiftValue(x.a, x.b, n);
      ToRealInjective(r, Rational(x.a + n * x.b, x.b));
      r
    else
      r
  }

  /** `n + sec`. */
  function IntAdd(n: int, x: Rational): (r: Rational)
    ensures Valid(x) ==> r == Rational(x.a + n * x.b, x.b)
  {
    var r := Add(FromInt(n), x);
    if Valid(x) then
      assert r == AddInt(x, n) by {
        ToRealInjective(r, AddInt(x, n));
      }
      r
    else
      r
  }

  /** `fir - n`, computed as `fir + (-n)` with integer negation. */
  function SubInt(x: Rational, n: int): (r: Rational)
    ensures Valid(x) ==> r == Rational(x.a - n * x.b, x.b)
  {
    assert -n * x.b == -(n * x.b);
    AddInt(x, -n)
  }

  /** `n - sec`, computed as `n + (-sec)` with fraction negation. */
  function IntSub(n: int, x: Rational): (r: Rational)
    ensures Valid(x) ==> r == Rational(n * x.b - x.a, x.b)
  {
    IntAdd(n, Neg(x))
  }

  lemma MulByValue(x: Rational, f: Rational, n: int)
    requires Valid(x) && Valid(f) && ToReal(f) == n as real
    ensures ToReal(Mul(x, f)) == ToReal(x) * n as real
  {
    hide Gcd, Reduce, Make;
    var r := Mul(x, f);
    assert ToReal(r) == ToReal(x) * ToReal(f);
  }

  lemma ValueMulBy(x: Rational, f: Rational, n: int)
    requires Valid(x) && Valid(f) && ToReal(f) == n as real
    ensures ToReal(Mul(f, x)) == n as real * ToReal(x)
  {
    hide Gcd, Reduce, Make;
    var r := Mul(f, x);
    assert ToReal(r) == ToReal(f) * ToReal(x);
  }

  /** `fir * n`. */
  function MulInt(x: Rational, n: int): (r: Rational)
    ensures Valid(x) ==> Valid(r) && ToReal(r) == ToReal(x) * n as real
  {
    if Valid(x) then
      IntValue(n);
      MulByValue(x, FromInt(n), n);
      Mul(x, FromInt(n))
    else
      Mul(x, FromInt(n))
  }

  /** `n * sec`. */
  function IntMul(n: int, x: Rational): (r: Rational)
    ensures Valid(x) ==> Valid(r) && ToReal(r) == n as real * ToReal(x)
  {
    if Valid(x) then
      IntValue(n);
      ValueMulBy(x, FromInt(n), n);
      Mul(FromInt(n), x)
    else
      Mul(FromInt(n), x)
  }

  /** `fir / n`; a zero `n` leaves the canonical form as for fractions. */
  function DivInt(x: Rational, n: int): (r: Rational)
    ensures Valid(x) && n != 0 ==> Valid(r) && ToReal(r) == ToReal(x) / n as real
  {
    IntValue(n);
    Div(x, FromInt(n))
  }

  /** `n / sec`. */
  function IntDiv(n: int, x: Rational): (r: Rational)
    ensures Valid(x) && x.a != 0 ==> Valid(r) && ToReal(r) == n as real / ToReal(x)
  {
    IntValue(n);
    Div(FromInt(n), x)
  }

  // ---------------------------------------------------------------------
  // Whole numbers: fractions with denominator 1 compute like integers

  lemma AddWhole(m: int, n: int)
    ensures Add(FromInt(m), FromInt(n)) == FromInt(m + n)
  {
    assert AddInt(FromInt(m), n) == Rational(m + n * 1, 1);
  }

  lemma SubWhole(m: int, n: int)
    ensures Sub(FromInt(m), FromInt(n)) == FromInt(m - n)
  {
    assert Neg(FromInt(n)) == FromInt(-n);
    AddWhole(m, -n);
  }

  lemma MulWhole(m: int, n: int)
    ensures Mul(FromInt(m), FromInt(n)) == FromInt(m * n)
  {
    hide Gcd, Reduce, Make;
    IntValue(m);
    IntValue(n);
    IntValue(m * n);
    CastMul(m, n);
    MulByValue(FromInt(m), FromInt(n), n);
    ToRealInjective(Mul(FromInt(m), FromInt(n)), FromInt(m * n));
  }

  /** Dividing whole numbers gives their fraction in lowest terms. */
  lemma DivWhole(m: int, n: int)
    requires n != 0
    ensures Div(FromInt(m), FromInt(n)) == Make(m, n)
  {
    hide Gcd, Reduce, Make;
    IntValue(m);
    IntValue(n);
    ValueOfMake(m, n);
    ToRealInjective(Div(FromInt(m), FromInt(n)), Make(m, n));
  }
}
