/** `reduce` and the greatest common divisor (`operator,`) of polynomial.h,
    with divisibility as the ring defines it. */
module PolynomialGcd {
  import opened Coefficients
  import opened Convolutions
  import opened Polynomials
  import opened PolynomialDivision

  // ---------------------------------------------------------------------
  // reduce

  /** `reduce`: clean the vector, then, unless it is the zero polynomial,
      divide every coefficient by the leading one, making it monic. */
  function Monic(p: Polynomial): (r: Polynomial)
    ensures Valid(r)
    ensures Valid(p) ==> Degree(r) == Degree(p)
    ensures Valid(p) && p == Zero() ==> r == Zero()
    ensures Valid(p) && p != Zero() ==> At(r, Degree(p)) == 1.0
    ensures Valid(p) && p != Zero() ==> forall i: nat :: At(r, i) * At(p, Degree(p)) == At(p, i)
  {
    var c := DeleteNulls(p.coef);
    if c[|c| - 1] != 0.0 then
      var r := Polynomial(seq(|c|, i requires 0 <= i < |c| => c[i] / c[|c| - 1]));
      CleanValid(p);
      assert r.coef[|c| - 1] == 1.0;
      assert Valid(p) && p != Zero() ==> forall i: nat :: At(r, i) * At(p, Degree(p)) == At(p, i) by {
        if Valid(p) && p != Zero() {
          forall i: nat
            ensures At(r, i) * At(p, Degree(p)) == At(p, i)
          {
            if i < |c| {
              DivideBack(c[i], c[|c| - 1]);
            }
          }
        }
      }
      r
    else
      CleanValid(p);
      Polynomial(c)
  }

  lemma CleanValid(p: Polynomial)
    ensures Valid(p) ==> DeleteNulls(p.coef) == p.coef
  {
    if Valid(p) {
      DeleteNullsCanonical(p.coef);
    }
  }

  lemma DivideBack(x: real, y: real)
    requires y != 0.0
    ensures x / y * y == x
  {
  }

  /** The loop of `reduce` as written: it divides the entries in place from
      the first to the last, reading the last entry each round. The last
      entry is divided only in the final round, so every entry is divided by
      the original leading coefficient. */
  method ReduceInPlace(p: Polynomial) returns (r: Polynomial)
    ensures r == Monic(p)
  {
    var c := DeleteNulls(p.coef);
    ghost var orig := c;
    var n := |c|;
    if c[n - 1] != 0.0 {
      var i := 0;
      while i < n
        invariant 0 <= i <= n && |c| == n
        invariant forall j :: 0 <= j < i ==> c[j] == orig[j] / orig[n - 1]
        invariant forall j :: i <= j < n ==> c[j] == orig[j]
      {
        c := c[i := c[i] / c[n - 1]];
        i := i + 1;
      }
      assert c == seq(n, j requires 0 <= j < n => orig[j] / orig[n - 1]);
    }
    r := Polynomial(c);
  }

  /** Scaling back by the leading coefficient gives the polynomial again. */
  lemma MonicScalesBack(p: Polynomial)
    requires Valid(p) && p != Zero()
    ensures MulScalar(Monic(p), At(p, Degree(p))) == p
  {
    Extensionality(MulScalar(Monic(p), At(p, Degree(p))), p);
  }

  lemma MonicIdempotent(p: Polynomial)
    requires Valid(p)
    ensures Monic(Monic(p)) == Monic(p)
  {
    if p != Zero() {
      var m := Monic(p);
      assert m != Zero() by {
        assert At(m, Degree(p)) == 1.0;
      }
      forall i: nat
        ensures At(Monic(m), i) == At(m, i)
      {
        assert At(Monic(m), i) * 1.0 == At(m, i);
      }
      Extensionality(Monic(m), m);
    }
  }

  // ---------------------------------------------------------------------
  // Divisibility

  /** `d` divides `a`: some polynomial times `d` is `a`. */
  ghost predicate Divides(d: Polynomial, a: Polynomial) {
    exists k: Polynomial :: Valid(k) && a == Mul(k, d)
  }

  lemma DividesZero(d: Polynomial)
    ensures Divides(d, Zero())
  {
    MulZeroLeft(d);
    assert Valid(Zero()) && Zero() == Mul(Zero(), d);
  }

  lemma DividesSelf(d: Polynomial)
    requires Valid(d)
    ensures Divides(d, d)
  {
    MulOne(d);
    MulCommutes(d, Constant(1.0));
    assert Valid(Constant(1.0)) && d == Mul(Constant(1.0), d);
  }

  /** Only the zero polynomial is divided by zero. */
  lemma ZeroDivides(a: Polynomial)
    ensures Divides(Zero(), a) <==> a == Zero()
  {
    hide Mul, Conv, IsProduct;
    if a == Zero() {
      DividesZero(Zero());
    }
    if Divides(Zero(), a) {
      var k :| Valid(k) && a == Mul(k, Zero());
      MulZero(k);
    }
  }

  lemma DividesMultiple(d: Polynomial, x: Polynomial, m: Polynomial)
    requires Divides(d, x)
    ensures Divides(d, Mul(m, x))
  {
    var k :| Valid(k) && x == Mul(k, d);
    MulAssociative(m, k, d);
    assert Valid(Mul(m, k)) && Mul(m, x) == Mul(Mul(m, k), d);
  }

  lemma DividesSub(d: Polynomial, x: Polynomial, y: Polynomial)
    requires Divides(d, x) && Divides(d, y)
    ensures Divides(d, Sub(x, y))
  {
    var k :| Valid(k) && x == Mul(k, d);
    var l :| Valid(l) && y == Mul(l, d);
    MulDistributesSub(d, k, l);
    MulCommutes(d, Sub(k, l));
    MulCommutes(d, k);
    MulCommutes(d, l);
    assert Valid(Sub(k, l)) && Sub(x, y) == Mul(Sub(k, l), d);
  }

  lemma DividesAdd(d: Polynomial, x: Polynomial, y: Polynomial)
    requires Divides(d, x) && Divides(d, y)
    ensures Divides(d, Add(x, y))
  {
    var k :| Valid(k) && x == Mul(k, d);
    var l :| Valid(l) && y == Mul(l, d);
    MulDistributesAdd(d, k, l);
    MulCommutes(d, Add(k, l));
    MulCommutes(d, k);
    MulCommutes(d, l);
    assert Valid(Add(k, l)) && Add(x, y) == Mul(Add(k, l), d);
  }

  lemma ModIsDifference(a: Polynomial, b: Polynomial)
    requires Valid(b) && b != Zero()
    ensures Mod(a, b) == Sub(a, Mul(Div(a, b), b))
  {
    DeleteNullsCanonical(Sub(a, Mul(Div(a, b), b)).coef);
  }

  /** `d` divides `a` exactly when the remainder of `a` by `d` is zero. */
  lemma DividesIffModZero(d: Polynomial, a: Polynomial)
    requires Valid(d) && d != Zero() && Valid(a)
    ensures Divides(d, a) <==> Mod(a, d) == Zero()
  {
    hide Mul, Add, Sub, Div, Mod, Conv, IsProduct;
    if Divides(d, a) {
      var k :| Valid(k) && a == Mul(k, d);
      ModOfMultiple(k, d);
    }
    if Mod(a, d) == Zero() {
      DivModIdentity(a, d);
      AddZero(Mul(Div(a, d), d));
      assert Valid(Div(a, d)) && a == Mul(Div(a, d), d);
    }
  }

  /** A remainder step keeps the common divisors: `d` divides `a` and `b`
      exactly when it divides `b` and `a % b`. */
  lemma ModKeepsDivisors(d: Polynomial, a: Polynomial, b: Polynomial)
    requires Valid(a) && Valid(b) && b != Zero()
    ensures Divides(d, a) && Divides(d, b) <==> Divides(d, Mod(a, b)) && Divides(d, b)
  {
    hide Divides, Mul, Add, Sub, Div, Mod, Conv, IsProduct;
    if Divides(d, a) && Divides(d, b) {
      DividesMultiple(d, b, Div(a, b));
      ModIsDifference(a, b);
      DividesSub(d, a, Mul(Div(a, b), b));
    }
    if Divides(d, Mod(a, b)) && Divides(d, b) {
      DividesMultiple(d, b, Div(a, b));
      DivModIdentity(a, b);
      DividesAdd(d, Mul(Div(a, b), b), Mod(a, b));
    }
  }

  /** Making a polynomial monic keeps its divisors. */
  lemma MonicKeepsDivisors(d: Polynomial, p: Polynomial)
    requires Valid(p)
    ensures Divides(d, p) <==> Divides(d, Monic(p))
  {
    hide Divides, Mul, Monic, Conv, IsProduct, DeleteNulls;
    if p != Zero() {
      var lead := At(p, Degree(p));
      var m := Monic(p);
      if Divides(d, p) {
        DividesMultiple(d, p, Constant(1.0 / lead));
        MulCommutes(Constant(1.0 / lead), p);
        MonicIsScaled(p);
      }
      if Divides(d, m) {
        DividesMultiple(d, m, Constant(lead));
        MulCommutes(Constant(lead), m);
        MonicScalesBack(p);
      }
    }
  }

  lemma MonicIsScaled(p: Polynomial)
    requires Valid(p) && p != Zero()
    ensures Monic(p) == MulScalar(p, 1.0 / At(p, Degree(p)))
  {
    hide Monic, MulScalar, Mul, DeleteNulls;
    var lead := At(p, Degree(p));
    forall i: nat
      ensures At(Monic(p), i) == At(p, i) * (1.0 / lead)
    {
      ScaleInverse(At(Monic(p), i), lead, At(p, i));
    }
    Extensionality(Monic(p), MulScalar(p, 1.0 / lead));
  }

  lemma ScaleInverse(m: real, lead: real, c: real)
    requires lead != 0.0 && m * lead == c
    ensures m == c * (1.0 / lead)
  {
  }

  // ---------------------------------------------------------------------
  // operator,

  /** The loop of `operator,`: stop when either side is zero, answering the
      other; otherwise replace the side of larger (or equal) degree by its
      remainder modulo the other, made monic. */
  function GcdLoop(a: Polynomial, b: Polynomial): Polynomial
    requires Valid(a) && Valid(b)
    decreases Degree(a) + Degree(b) + 2
  {
    if Degree(a) == -1 then b
    else if Degree(b) == -1 then a
    else if Degree(a) >= Degree(b) then
      ModDegree(a, b);
      GcdLoop(Monic(Mod(a, b)), b)
    else
      ModDegree(b, a);
      GcdLoop(a, Monic(Mod(b, a)))
  }

  /** `operator,`: zero when both arguments are zero, otherwise the monic
      polynomial the loop ends on. */
  function Gcd(p: Polynomial, q: Polynomial): (r: Polynomial)
    ensures Valid(r)
  {
    var a := Polynomial(DeleteNulls(p.coef));
    var b := Polynomial(DeleteNulls(q.coef));
    if a == Zero() && b == Zero() then Zero()
    else Monic(Polynomial(DeleteNulls(GcdLoop(a, b).coef)))
  }

  lemma GcdLoopStops(a: Polynomial, b: Polynomial)
    requires Valid(a) && Valid(b)
    ensures Degree(a) == -1 ==> GcdLoop(a, b) == b
    ensures Degree(a) != -1 && Degree(b) == -1 ==> GcdLoop(a, b) == a
  {
  }

  lemma GcdLoopSteps(a: Polynomial, b: Polynomial)
    requires Valid(a) && Valid(b) && Degree(a) != -1 && Degree(b) != -1
    ensures Degree(a) >= Degree(b) ==> GcdLoop(a, b) == GcdLoop(Monic(Mod(a, b)), b)
    ensures Degree(a) < Degree(b) ==> GcdLoop(a, b) == GcdLoop(a, Monic(Mod(b, a)))
  {
  }

  /** The loop ends on a polynomial whose divisors are exactly the common
      divisors of its arguments, and which is zero only if both are. */
  lemma {:induction false} GcdLoopDivisors(a: Polynomial, b: Polynomial, d: Polynomial)
    requires Valid(a) && Valid(b)
    ensures Valid(GcdLoop(a, b))
    ensures Divides(d, a) && Divides(d, b) <==> Divides(d, GcdLoop(a, b))
    ensures GcdLoop(a, b) == Zero() <==> a == Zero() && b == Zero()
    decreases Degree(a) + Degree(b) + 2
  {
    hide GcdLoop, Monic, Mod, Div, Divides, Mul, Add, Sub, At;
    GcdLoopStops(a, b);
    if Degree(a) == -1 || Degree(b) == -1 {
      DividesZero(d);
    } else if Degree(a) >= Degree(b) {
      GcdLoopSteps(a, b);
      ModDegree(a, b);
      GcdLoopDivisors(Monic(Mod(a, b)), b, d);
      ModKeepsDivisors(d, a, b);
      MonicKeepsDivisors(d, Mod(a, b));
    } else {
      GcdLoopSteps(a, b);
      ModDegree(b, a);
      GcdLoopDivisors(a, Monic(Mod(b, a)), d);
      ModKeepsDivisors(d, b, a);
      MonicKeepsDivisors(d, Mod(b, a));
    }
  }

  /** The gcd is the greatest common divisor: its divisors are exactly the
      common divisors of the arguments, so it divides both and every common
      divisor divides it. It is zero only for two zero arguments and monic
      otherwise. */
  lemma GcdIsGreatestCommonDivisor(p: Polynomial, q: Polynomial, d: Polynomial)
    requires Valid(p) && Valid(q)
    ensures Divides(d, p) && Divides(d, q) <==> Divides(d, Gcd(p, q))
    ensures Gcd(p, q) == Zero() <==> p == Zero() && q == Zero()
    ensures Gcd(p, q) != Zero() ==> At(Gcd(p, q), Degree(Gcd(p, q))) == 1.0
  {
    hide GcdLoop, Mod, Div, Divides, Mul, Add, Sub;
    DeleteNullsCanonical(p.coef);
    DeleteNullsCanonical(q.coef);
    if p == Zero() && q == Zero() {
      DividesZero(d);
    } else {
      var g := GcdLoop(p, q);
      GcdLoopDivisors(p, q, d);
      DeleteNullsCanonical(g.coef);
      assert Gcd(p, q) == Monic(g);
      MonicKeepsDivisors(d, g);
    }
  }

  lemma GcdDividesBoth(p: Polynomial, q: Polynomial)
    requires Valid(p) && Valid(q)
    ensures Divides(Gcd(p, q), p) && Divides(Gcd(p, q), q)
  {
    DividesSelf(Gcd(p, q));
    GcdIsGreatestCommonDivisor(p, q, Gcd(p, q));
  }

  /** With a zero argument the gcd is the other argument made monic. */
  lemma GcdWithZero(p: Polynomial)
    requires Valid(p)
    ensures Gcd(p, Zero()) == Monic(p)
  {
    DeleteNullsCanonical(p.coef);
    if p != Zero() {
      assert Degree(p) != -1;
      assert GcdLoop(p, Zero()) == p;
      DeleteNullsCanonical(p.coef);
    }
  }

  /** The gcd of a polynomial with itself is the polynomial reduced: the
      first round leaves the remainder zero, which ends the loop. */
  lemma GcdSelf(p: Polynomial)
    requires Valid(p)
    ensures Gcd(p, p) == Monic(p)
  {
    DeleteNullsCanonical(p.coef);
    if p != Zero() {
      MulOne(p);
      MulCommutes(p, Constant(1.0));
      ModOfMultiple(Constant(1.0), p);
      GcdLoopSteps(p, p);
      GcdLoopStops(Zero(), p);
    }
  }
}
