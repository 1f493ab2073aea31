/** Long division of polynomials: `operator/` and `operator%` of
    polynomial.h. */
module PolynomialDivision {
  import opened Coefficients
  import opened Convolutions
  import opened Polynomials

  /** No coefficient above power `n` is nonzero: the degree is at most `n`. */
  ghost predicate Below(p: Polynomial, n: int) {
    forall k: nat :: k > n ==> At(p, k) == 0.0
  }

  lemma BelowIffDegree(p: Polynomial, n: int)
    requires Valid(p) && n >= -1
    ensures Below(p, n) <==> Degree(p) <= n
  {
    var d := Degree(p);
    if d > n {
      assert !Below(p, n) by {
        assert At(p, d) != 0.0;
      }
    }
  }

  // ---------------------------------------------------------------------
  // The algorithm

  /** The subtrahend of one round: `t * x^power`, kept as `power` zeros
      followed by `t` even when `t` is zero, as the library's `delt` is. */
  function Step(t: real, power: nat): Polynomial {
    Polynomial(Monomial(t, power))
  }

  /** The multiplier of one round: the coefficient of `x^(deg b + power)` of
      the running remainder over the leading coefficient of `b`. */
  function Ratio(cur: Polynomial, b: Polynomial, power: nat): real
    requires Valid(b) && b != Zero()
  {
    At(cur, Degree(b) + power) / At(b, Degree(b))
  }

  /** The loop of `operator/` from `power` down to 0. Each round divides the
      coefficient of `x^(deg b + power)` of the running remainder `cur` by the
      leading coefficient of `b`, adds that multiple of `x^power` to the
      quotient `ans` and subtracts `b` times it from `cur`. Returns the
      quotient and the final remainder. */
  function DivLoop(cur: Polynomial, b: Polynomial, power: int, ans: Polynomial): (Polynomial, Polynomial)
    requires Valid(b) && b != Zero()
    decreases power + 1
  {
    if power < 0 then (ans, cur)
    else
      var delt := Step(Ratio(cur, b, power), power);
      DivLoop(Sub(cur, Mul(b, delt)), b, power - 1, Add(ans, delt))
  }

  /** `operator/`: zero when the dividend has the smaller degree, otherwise
      the quotient the loop builds from power `deg a - deg b` down. The
      divisor must not be the zero polynomial: its leading coefficient is
      the divisor of every round. */
  function Div(a: Polynomial, b: Polynomial): (r: Polynomial)
    requires Valid(b) && b != Zero()
    ensures Valid(r)
  {
    if Degree(a) < Degree(b) then Zero()
    else
      var q := DivLoop(a, b, Degree(a) - Degree(b), Zero()).0;
      Polynomial(DeleteNulls(q.coef))
  }

  /** `operator%`: `a - (a / b) * b`, cleaned. */
  function Mod(a: Polynomial, b: Polynomial): (r: Polynomial)
    requires Valid(b) && b != Zero()
    ensures Valid(r)
  {
    var m := Sub(a, Mul(Div(a, b), b));
    Polynomial(DeleteNulls(m.coef))
  }

  // ---------------------------------------------------------------------
  // One round

  lemma CancelLeading(c: real, bd: real)
    requires bd != 0.0
    ensures c - bd * (c / bd) == 0.0
  {
  }

  lemma SubtractStep(c: real, bk: real, t: real)
    requires c == 0.0 && bk == 0.0
    ensures c - bk * t == 0.0
  {
  }

  /** The coefficients after one round. */
  lemma RoundAt(cur: Polynomial, b: Polynomial, t: real, power: nat, k: nat)
    requires k >= power
    ensures At(Sub(cur, Mul(b, Step(t, power))), k) == At(cur, k) - At(b, k - power) * t
  {
    hide Mul, Sub, Conv, IsProduct, Degree;
    MulAt(b, Step(t, power), k);
    ConvMonomial(b.coef, t, power, k);
  }

  /** A round clears the coefficient of `x^(deg b + power)`, so the running
      remainder loses one degree of room. */
  lemma RoundLowersDegree(cur: Polynomial, b: Polynomial, power: nat)
    requires Valid(b) && b != Zero()
    requires Below(cur, Degree(b) + power)
    ensures Below(Sub(cur, Mul(b, Step(Ratio(cur, b, power), power))), Degree(b) + power - 1)
  {
    hide Sub, Mul, Step;
    var d := Degree(b);
    var t := Ratio(cur, b, power);
    var cur' := Sub(cur, Mul(b, Step(t, power)));
    forall k: nat | k > d + power - 1
      ensures At(cur', k) == 0.0
    {
      RoundAt(cur, b, t, power, k);
      if k == d + power {
        CancelLeading(At(cur, d + power), At(b, d));
      } else {
        SubtractStep(At(cur, k), At(b, k - power), t);
      }
    }
  }

  lemma AddSubCancel(x: Polynomial, y: Polynomial, c: Polynomial)
    requires Valid(c) || Valid(x)
    ensures Add(Add(x, y), Sub(c, y)) == Add(x, c)
  {
    Extensionality(Add(Add(x, y), Sub(c, y)), Add(x, c));
  }

  /** A round keeps `b * ans + cur` unchanged. */
  lemma RoundKeepsSum(cur: Polynomial, b: Polynomial, ans: Polynomial, delt: Polynomial)
    ensures Add(Mul(b, Add(ans, delt)), Sub(cur, Mul(b, delt))) == Add(Mul(b, ans), cur)
  {
    MulDistributesAdd(b, ans, delt);
    AddSubCancel(Mul(b, ans), Mul(b, delt), cur);
  }

  lemma DivLoopStep(cur: Polynomial, b: Polynomial, power: nat, ans: Polynomial)
    requires Valid(b) && b != Zero()
    ensures var delt := Step(Ratio(cur, b, power), power);
      DivLoop(cur, b, power, ans) == DivLoop(Sub(cur, Mul(b, delt)), b, power - 1, Add(ans, delt))
  {
  }

  /** The loop keeps `b * ans + cur` unchanged and stops with a remainder of
      degree below that of `b`. */
  lemma {:induction false} DivLoopInvariant(cur: Polynomial, b: Polynomial, power: int, ans: Polynomial)
    requires Valid(b) && b != Zero() && Valid(ans) && Valid(cur)
    requires power >= -1 && Below(cur, Degree(b) + power)
    ensures Valid(DivLoop(cur, b, power, ans).0) && Valid(DivLoop(cur, b, power, ans).1)
    ensures Add(Mul(b, DivLoop(cur, b, power, ans).0), DivLoop(cur, b, power, ans).1) == Add(Mul(b, ans), cur)
    ensures Below(DivLoop(cur, b, power, ans).1, Degree(b) - 1)
    decreases power + 1
  {
    hide DivLoop, Add, Sub, Mul, Below, Step, Degree, At, Ratio;
    if power >= 0 {
      var delt := Step(Ratio(cur, b, power), power);
      var cur', ans' := Sub(cur, Mul(b, delt)), Add(ans, delt);
      DivLoopStep(cur, b, power, ans);
      RoundLowersDegree(cur, b, power);
      DivLoopInvariant(cur', b, power - 1, ans');
      RoundKeepsSum(cur, b, ans, delt);
    } else {
      DivLoopStop(cur, b, power, ans);
    }
  }

  lemma DivLoopStop(cur: Polynomial, b: Polynomial, power: int, ans: Polynomial)
    requires Valid(b) && b != Zero() && power < 0
    ensures DivLoop(cur, b, power, ans) == (ans, cur)
  {
  }

  // ---------------------------------------------------------------------
  // Properties

  lemma MulZeroLeft(b: Polynomial)
    ensures Mul(Zero(), b) == Zero()
  {
    MulCommutes(Zero(), b);
    MulZero(b);
  }

  lemma ZeroAdd(a: Polynomial)
    requires Valid(a)
    ensures Add(Zero(), a) == a
  {
    AddCommutes(Zero(), a);
    AddZero(a);
  }

  /** What the loop returns when started on `a`: the quotient, and a
      remainder `r` with `b * q + r == a` and degree below that of `b`. */
  lemma DivLoopResult(a: Polynomial, b: Polynomial)
    requires Valid(a) && Valid(b) && b != Zero() && Degree(a) >= Degree(b)
    ensures var (q, r) := DivLoop(a, b, Degree(a) - Degree(b), Zero());
      Valid(q) && Valid(r) && Add(Mul(b, q), r) == a && Below(r, Degree(b) - 1)
  {
    hide DivLoop, Add, Mul, Sub, Below, Conv, IsProduct, DeleteNulls;
    BelowIffDegree(a, Degree(a));
    DivLoopInvariant(a, b, Degree(a) - Degree(b), Zero());
    MulZero(b);
    ZeroAdd(a);
  }

  /** The remainder is what is left of `a` after taking away `b` times the
      quotient. */
  lemma ModIsRemainder(a: Polynomial, b: Polynomial, q: Polynomial, r: Polynomial)
    requires Valid(a) && Valid(b) && b != Zero() && Valid(r)
    requires Div(a, b) == q && Add(Mul(b, q), r) == a
    ensures Mod(a, b) == r
  {
    MulCommutes(q, b);
    DeleteNullsCanonical(Sub(a, Mul(q, b)).coef);
    Extensionality(Mod(a, b), r);
  }

  /** `a == (a / b) * b + a % b`. */
  lemma DivModIdentity(a: Polynomial, b: Polynomial)
    requires Valid(a) && Valid(b) && b != Zero()
    ensures a == Add(Mul(Div(a, b), b), Mod(a, b))
  {
    DeleteNullsCanonical(Sub(a, Mul(Div(a, b), b)).coef);
    Extensionality(a, Add(Mul(Div(a, b), b), Mod(a, b)));
  }

  /** For a dividend of degree at least that of the divisor, quotient and
      remainder are what the loop returns. */
  lemma DivIsLoop(a: Polynomial, b: Polynomial)
    requires Valid(a) && Valid(b) && b != Zero() && Degree(a) >= Degree(b)
    ensures var (q, r) := DivLoop(a, b, Degree(a) - Degree(b), Zero());
      Div(a, b) == q && Mod(a, b) == r && Add(Mul(b, q), r) == a && Below(r, Degree(b) - 1)
  {
    DivLoopResult(a, b);
    var (q, r) := DivLoop(a, b, Degree(a) - Degree(b), Zero());
    DeleteNullsCanonical(q.coef);
    assert Div(a, b) == q;
    hide DivLoop, Div, Mod, Add, Mul, Sub, Below;
    ModIsRemainder(a, b, q, r);
  }

  /** The remainder has smaller degree than the divisor. */
  lemma ModDegree(a: Polynomial, b: Polynomial)
    requires Valid(a) && Valid(b) && b != Zero()
    ensures Degree(Mod(a, b)) < Degree(b)
  {
    hide Div, Mod, DivLoop, Mul, Add, Sub;
    if Degree(a) < Degree(b) {
      DivSmall(a, b);
    } else {
      DivIsLoop(a, b);
      BelowIffDegree(Mod(a, b), Degree(b) - 1);
    }
  }

  /** A dividend of smaller degree gives quotient zero and is its own
      remainder. */
  lemma DivSmall(a: Polynomial, b: Polynomial)
    requires Valid(a) && Valid(b) && b != Zero() && Degree(a) < Degree(b)
    ensures Div(a, b) == Zero() && Mod(a, b) == a
  {
    MulZeroLeft(b);
    DeleteNullsCanonical(Sub(a, Zero()).coef);
    Extensionality(Mod(a, b), a);
  }

  lemma SubZeroMeansEqual(p: Polynomial, q: Polynomial)
    requires Valid(p) && Valid(q) && Sub(p, q) == Zero()
    ensures p == q
  {
    forall i: nat
      ensures At(p, i) == At(q, i)
    {
      assert At(Sub(p, q), i) == 0.0;
    }
    Extensionality(p, q);
  }

  /** Quotient and remainder are the only pair with `a == q * b + r` and
      `deg r < deg b`. */
  lemma DivisionUnique(a: Polynomial, b: Polynomial, q: Polynomial, r: Polynomial)
    requires Valid(a) && Valid(b) && b != Zero() && Valid(q) && Valid(r)
    requires a == Add(Mul(q, b), r) && Degree(r) < Degree(b)
    ensures q == Div(a, b) && r == Mod(a, b)
  {
    hide Div, Mod, DivLoop, Mul, Add, Sub, Conv, IsProduct;
    var q', r' := Div(a, b), Mod(a, b);
    DivModIdentity(a, b);
    ModDegree(a, b);
    // (q - q') * b == r' - r
    var dq := Sub(q, q');
    var dr := Sub(r', r);
    MulCommutes(dq, b);
    MulDistributesSub(b, q, q');
    MulCommutes(b, q);
    MulCommutes(b, q');
    assert Mul(dq, b) == dr by {
      forall i: nat
        ensures At(Mul(dq, b), i) == At(dr, i)
      {
        assert At(a, i) == At(Mul(q, b), i) + At(r, i);
        assert At(a, i) == At(Mul(q', b), i) + At(r', i);
      }
      Extensionality(Mul(dq, b), dr);
    }
    BelowIffDegree(r, Degree(b) - 1);
    BelowIffDegree(r', Degree(b) - 1);
    assert Below(dr, Degree(b) - 1);
    BelowIffDegree(dr, Degree(b) - 1);
    if dq != Zero() {
      DegreeMul(dq, b);
      assert false;
    }
    SubZeroMeansEqual(q, q');
    SubUndoesAdd(r, Mul(q, b));
    SubUndoesAdd(r', Mul(q, b));
    AddCommutes(Mul(q, b), r);
    AddCommutes(Mul(q, b), r');
  }

  /** Adding a polynomial of lower degree keeps the degree. */
  lemma DegreeAddLower(p: Polynomial, r: Polynomial)
    requires Valid(p) && Valid(r) && Degree(r) < Degree(p)
    ensures Degree(Add(p, r)) == Degree(p)
  {
    var d := Degree(p);
    forall i: nat | i > d
      ensures At(Add(p, r), i) == 0.0
    {
      assert At(r, i) == 0.0;
    }
    assert At(r, d) == 0.0;
    DegreeIs(Add(p, r), d);
  }

  /** A dividend of degree at least that of the divisor gives a quotient of
      the difference of the degrees. */
  lemma DivDegree(a: Polynomial, b: Polynomial)
    requires Valid(a) && Valid(b) && b != Zero() && Degree(a) >= Degree(b)
    ensures Degree(Div(a, b)) == Degree(a) - Degree(b)
  {
    hide Div, Mod, DivLoop, Mul, Add, Sub;
    var q, r := Div(a, b), Mod(a, b);
    DivModIdentity(a, b);
    ModDegree(a, b);
    if q == Zero() {
      MulZeroLeft(b);
      ZeroAdd(r);
      assert false;
    }
    DegreeMul(q, b);
    DegreeAddLower(Mul(q, b), r);
  }

  /** A multiple of `b` leaves remainder zero. */
  lemma ModOfMultiple(k: Polynomial, b: Polynomial)
    requires Valid(k) && Valid(b) && b != Zero()
    ensures Mod(Mul(k, b), b) == Zero() && Div(Mul(k, b), b) == k
  {
    AddZero(Mul(k, b));
    DivisionUnique(Mul(k, b), b, k, Zero());
  }
}
