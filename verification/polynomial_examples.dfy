/** Worked instances of the polynomial operators over small inputs. */
module PolynomialExamples {
  import opened Sums
  import opened Coefficients
  import opened Convolutions
  import opened Polynomials
  import opened PolynomialDivision
  import opened PolynomialGcd

  /** The coefficients of a product of two polynomials of degree one. */
  lemma LinearProduct(a0: real, a1: real, b0: real, b1: real, i: nat)
    ensures At(Mul(Polynomial([a0, a1]), Polynomial([b0, b1])), i)
         == if i == 0 then a0 * b0 else if i == 1 then a0 * b1 + a1 * b0 else if i == 2 then a1 * b1 else 0.0
  {
    var a, b := [a0, a1], [b0, b1];
    MulAt(Polynomial(a), Polynomial(b), i);
    hide Mul;
    if i >= 3 {
      ConvZeroBeyond(a, b, i);
    } else {
      var f := ConvTerms(a, b, i);
      ConvTermsAt(a, b, i, 0);
      ConvTermsAt(a, b, i, 1);
      ConvTermsAt(a, b, i, 2);
      assert Sum(f, 1) == f(0);
      assert Sum(f, 2) == f(0) + f(1);
      assert Sum(f, 3) == f(0) + f(1) + f(2);
    }
  }

  /** `(x + 2) * (x + 1) == x^2 + 3x + 2`. */
  lemma ProductExample()
    ensures Mul(Polynomial([2.0, 1.0]), Polynomial([1.0, 1.0])) == Polynomial([2.0, 3.0, 1.0])
  {
    var m := Mul(Polynomial([2.0, 1.0]), Polynomial([1.0, 1.0]));
    forall i: nat
      ensures At(m, i) == At(Polynomial([2.0, 3.0, 1.0]), i)
    {
      LinearProduct(2.0, 1.0, 1.0, 1.0, i);
    }
    Extensionality(m, Polynomial([2.0, 3.0, 1.0]));
  }

  /** `(x^2 + 3x + 2) / (x + 1) == x + 2`, with remainder zero. */
  lemma DivisionExample()
    ensures Div(Polynomial([2.0, 3.0, 1.0]), Polynomial([1.0, 1.0])) == Polynomial([2.0, 1.0])
    ensures Mod(Polynomial([2.0, 3.0, 1.0]), Polynomial([1.0, 1.0])) == Zero()
  {
    var b := Polynomial([1.0, 1.0]);
    assert b != Zero();
    ProductExample();
    hide Mul, Div, Mod;
    ModOfMultiple(Polynomial([2.0, 1.0]), b);
  }

  /** `(x^2 - 1) / (x + 2)` is `x - 2` with remainder 3: the quotient and
      remainder are the unique pair with the degree bound. */
  lemma DivisionWithRemainder()
    ensures Div(Polynomial([-1.0, 0.0, 1.0]), Polynomial([2.0, 1.0])) == Polynomial([-2.0, 1.0])
    ensures Mod(Polynomial([-1.0, 0.0, 1.0]), Polynomial([2.0, 1.0])) == Constant(3.0)
  {
    var a, b, q, r := Polynomial([-1.0, 0.0, 1.0]), Polynomial([2.0, 1.0]), Polynomial([-2.0, 1.0]), Constant(3.0);
    assert b != Zero();
    var s := Add(Mul(q, b), r);
    forall i: nat
      ensures At(s, i) == At(a, i)
    {
      LinearProduct(-2.0, 1.0, 2.0, 1.0, i);
    }
    Extensionality(s, a);
    assert Degree(b) == 1 by {
      DegreeIs(b, 1);
    }
    assert Degree(r) == 0 by {
      DegreeIs(r, 0);
    }
    hide Mul, Add, Div, Mod;
    DivisionUnique(a, b, q, r);
  }

  /** `(x + 1) * (x - 1) == x^2 - 1`. */
  lemma FactorExample()
    ensures Mul(Polynomial([1.0, 1.0]), Polynomial([-1.0, 1.0])) == Polynomial([-1.0, 0.0, 1.0])
  {
    var m, a := Mul(Polynomial([1.0, 1.0]), Polynomial([-1.0, 1.0])), Polynomial([-1.0, 0.0, 1.0]);
    forall i: nat
      ensures At(m, i) == At(a, i)
    {
      LinearProduct(1.0, 1.0, -1.0, 1.0, i);
    }
    Extensionality(m, a);
  }

  /** A polynomial that is already monic is left as it is by `reduce`. */
  lemma MonicOfMonic(b: Polynomial)
    requires Valid(b) && b != Zero() && At(b, Degree(b)) == 1.0
    ensures Monic(b) == b
  {
    forall i: nat
      ensures At(Monic(b), i) == At(b, i)
    {
      assert At(Monic(b), i) * 1.0 == At(b, i);
    }
    Extensionality(Monic(b), b);
  }

  /** The gcd of `x^2 - 1` and `x - 1` is `x - 1`: the remainder of the
      first by the second is zero, which ends the loop on `x - 1`. */
  lemma GcdExample()
    ensures Gcd(Polynomial([-1.0, 0.0, 1.0]), Polynomial([-1.0, 1.0])) == Polynomial([-1.0, 1.0])
  {
    var a, b := Polynomial([-1.0, 0.0, 1.0]), Polynomial([-1.0, 1.0]);
    var k := Polynomial([1.0, 1.0]);
    assert Degree(a) == 2 by {
      DegreeIs(a, 2);
    }
    assert Degree(b) == 1 by {
      DegreeIs(b, 1);
    }
    assert Monic(Zero()) == Zero();
    DeleteNullsCanonical(a.coef);
    DeleteNullsCanonical(b.coef);
    hide Mul, Div, Mod, DivLoop, Add, Sub;
    FactorExample();
    ModOfMultiple(k, b);
    assert GcdLoop(a, b) == GcdLoop(Zero(), b);
    assert GcdLoop(a, b) == b;
    MonicOfMonic(b);
  }

  /** `x^2 & (x + 1) == x^2 + 2x + 1`: composing substitutes `x + 1` for `x`. */
  lemma ComposeExample()
    ensures Compose(Polynomial([0.0, 0.0, 1.0]), Polynomial([1.0, 1.0])) == Polynomial([1.0, 2.0, 1.0])
  {
    var c, q := [0.0, 0.0, 1.0], Polynomial([1.0, 1.0]);
    var qq := Mul(q, q);
    var ans1 := Add(Constant(0.0), MulScalar(q, 0.0));
    var ans2 := Add(ans1, MulScalar(qq, 1.0));
    assert ComposeFrom(c, q, 1, Constant(0.0), q) == ans2 by {
      assert ComposeFrom(c, q, 1, Constant(0.0), q) == ComposeFrom(c, q, 2, ans1, qq);
      assert ComposeFrom(c, q, 2, ans1, qq) == ComposeFrom(c, q, 3, ans2, Mul(qq, q));
    }
    var e := Polynomial([1.0, 2.0, 1.0]);
    forall i: nat
      ensures At(ans2, i) == At(e, i)
    {
      LinearProduct(1.0, 1.0, 1.0, 1.0, i);
    }
    Extensionality(ans2, e);
    DeleteNullsCanonical(e.coef);
  }
}
