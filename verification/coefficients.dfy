/** Coefficient vectors of polynomial.h: `c[i]` is the coefficient of `x^i`.
    A vector is read as padded with zeros on the right, so vectors that
    differ only by trailing zeros denote the same polynomial. */
module Coefficients {
  import opened Sums

  /** The coefficient of `x^i`; zero past the end (and, for convenience,
      at negative indices). */
  function Coef(c: seq<real>, i: int): real {
    if 0 <= i < |c| then c[i] else 0.0
  }

  /** Two vectors denote the same polynomial. */
  ghost predicate Same(c: seq<real>, d: seq<real>) {
    forall i: nat :: Coef(c, i) == Coef(d, i)
  }

  /** The stored form the library keeps: never empty, and no trailing zero
      unless the vector is the single coefficient of the zero polynomial. */
  predicate Canonical(c: seq<real>) {
    |c| > 0 && (|c| == 1 || c[|c| - 1] != 0.0)
  }

  /** `deleteNulls`: an empty vector becomes `{0}`; then trailing zeros are
      popped while more than one coefficient is left. */
  function DeleteNulls(c: seq<real>): (r: seq<real>)
    ensures Canonical(r)
    ensures Same(r, c)
    ensures |r| <= |c| || |c| == 0
    decreases |c|
  {
    if |c| == 0 then [0.0]
    else if |c| > 1 && c[|c| - 1] == 0.0 then DeleteNulls(c[..|c| - 1])
    else c
  }

  /** A polynomial has exactly one canonical vector. */
  lemma CanonicalUnique(c: seq<real>, d: seq<real>)
    requires Canonical(c) && Canonical(d) && Same(c, d)
    ensures c == d
  {
    var last := (if |c| < |d| then |d| else |c|) - 1;
    assert Coef(c, last) == Coef(d, last);
    assert |c| == |d|;
    forall i | 0 <= i < |c|
      ensures c[i] == d[i]
    {
      assert Coef(c, i) == Coef(d, i);
    }
  }

  /** `deleteNulls` leaves a canonical vector alone, so applying it twice is
      the same as once. */
  lemma DeleteNullsCanonical(c: seq<real>)
    requires Canonical(c)
    ensures DeleteNulls(c) == c
  {
    CanonicalUnique(DeleteNulls(c), c);
  }

  lemma DeleteNullsIdempotent(c: seq<real>)
    ensures DeleteNulls(DeleteNulls(c)) == DeleteNulls(c)
  {
    DeleteNullsCanonical(DeleteNulls(c));
  }

  /** `deleteNulls` picks the canonical vector of the polynomial, so vectors
      denoting the same polynomial are cleaned to the same vector. */
  lemma DeleteNullsSame(c: seq<real>, d: seq<real>)
    requires Same(c, d)
    ensures DeleteNulls(c) == DeleteNulls(d)
  {
    CanonicalUnique(DeleteNulls(c), DeleteNulls(d));
  }

  /** The coefficients of the cleaned vector, from any vector `e` that has them. */
  lemma DeleteNullsOf(c: seq<real>, e: seq<real>)
    requires Canonical(e) && Same(c, e)
    ensures DeleteNulls(c) == e
  {
    CanonicalUnique(DeleteNulls(c), e);
  }

  // ---------------------------------------------------------------------
  // Shifting

  /** The polynomial divided by `x`, dropping the constant term. */
  function Tail(c: seq<real>): (r: seq<real>)
    ensures |r| == if |c| == 0 then 0 else |c| - 1
    ensures forall i: nat :: Coef(r, i) == Coef(c, i + 1)
  {
    if |c| == 0 then [] else c[1..]
  }

  /** The polynomial times `x`. */
  function Shift(c: seq<real>): (r: seq<real>)
    ensures forall i: nat :: Coef(r, i + 1) == Coef(c, i)
    ensures Coef(r, 0) == 0.0
  {
    [0.0] + c
  }

  lemma TailShift(c: seq<real>)
    ensures Tail(Shift(c)) == c
  {
  }

  /** `t * x^p`, stored with `p` zeros before `t` even when `t` is zero. */
  function Monomial(t: real, p: nat): (r: seq<real>)
    ensures |r| == p + 1
    ensures forall i :: Coef(r, i) == if i == p then t else 0.0
  {
    seq(p + 1, i => if i == p then t else 0.0)
  }

  // ---------------------------------------------------------------------
  // Value

  /** The value at `x`, by Horner's rule: `c[0] + x * (c[1] + x * (...))`. */
  function Value(c: seq<real>, x: real): real
    decreases |c|
  {
    if |c| == 0 then 0.0 else c[0] + x * Value(c[1..], x)
  }

  /** Horner's rule in a form that also covers the empty vector. */
  lemma ValueHead(c: seq<real>, x: real)
    ensures Value(c, x) == Coef(c, 0) + x * Value(Tail(c), x)
  {
  }

  lemma ValueShift(c: seq<real>, x: real)
    ensures Value(Shift(c), x) == x * Value(c, x)
  {
    assert Shift(c)[1..] == c;
  }

  // ---------------------------------------------------------------------
  // Powers, and the value as a sum of terms

  function Power(x: real, n: nat): real {
    if n == 0 then 1.0 else x * Power(x, n - 1)
  }

  /** `c[0] + c[1]*x + ... + c[n-1]*x^(n-1)`, adding the low terms first. */
  function PowerSum(c: seq<real>, x: real, n: nat): real {
    Sum(Terms(c, x), n)
  }

  /** The terms `c[j] * x^j`. */
  function Terms(c: seq<real>, x: real): nat -> real {
    (j: nat) => Coef(c, j) * Power(x, j)
  }

  lemma TermsAt(c: seq<real>, x: real, j: nat)
    ensures Terms(c, x)(j) == Coef(c, j) * Power(x, j)
  {
  }

  lemma PowerSumEmpty(c: seq<real>, x: real)
    ensures PowerSum(c, x, 0) == 0.0
  {
  }

  lemma PowerSumStep(c: seq<real>, x: real, n: nat)
    ensures PowerSum(c, x, n + 1) == PowerSum(c, x, n) + Coef(c, n) * Power(x, n)
  {
    TermsAt(c, x, n);
  }

  lemma PeelStep(x: real, c0: real, a: real, b: real, cn: real, p: real)
    requires a == c0 + x * b
    ensures a + cn * (x * p) == c0 + x * (b + cn * p)
  {
  }

  /** Splitting off the constant term: `c0 + x * (c1 + c2*x + ...)`. */
  lemma {:induction false} PowerSumPeel(c: seq<real>, x: real, n: nat)
    ensures PowerSum(c, x, n + 1) == Coef(c, 0) + x * PowerSum(Tail(c), x, n)
  {
    hide PowerSum, Power, Coef, Tail;
    PowerSumStep(c, x, n);
    if n == 0 {
      PowerSumStep(Tail(c), x, 0);
      PowerSumEmpty(c, x);
      PowerSumEmpty(Tail(c), x);
      PowerZero(x);
    } else {
      PowerSumPeel(c, x, n - 1);
      PowerSumStep(Tail(c), x, n - 1);
      PowerStep(x, n - 1);
      PeelStep(x, Coef(c, 0), PowerSum(c, x, n), PowerSum(Tail(c), x, n - 1), Coef(c, n), Power(x, n - 1));
    }
  }

  /** The sum of the terms `c[i] * x^i` agrees with Horner's rule. */
  lemma {:induction false} PowerSumIsValue(c: seq<real>, x: real)
    ensures PowerSum(c, x, |c|) == Value(c, x)
    decreases |c|
  {
    if |c| != 0 {
      ValueHead(c, x);
      PowerSumPeel(c, x, |c| - 1);
      PowerSumIsValue(Tail(c), x);
    }
  }

  lemma PowerZero(x: real)
    ensures Power(x, 0) == 1.0
  {
  }

  lemma PowerStep(x: real, n: nat)
    ensures Power(x, n + 1) == x * Power(x, n)
  {
  }

  /** Terms past the last coefficient add nothing. */
  lemma {:induction false} PowerSumExtend(c: seq<real>, x: real, n: nat)
    requires n >= |c|
    ensures PowerSum(c, x, n) == PowerSum(c, x, |c|)
  {
    if n > |c| {
      PowerSumExtend(c, x, n - 1);
    }
  }

  lemma TermLinear(s: real, t: real, a: real, b: real, p: real)
    ensures (s * a + t * b) * p == s * (a * p) + t * (b * p)
  {
  }

  /** The value is linear in the coefficients: if `e = s*c + t*d`
      coefficientwise then its value is `s*Value(c) + t*Value(d)`. */
  lemma ValueLinear(c: seq<real>, d: seq<real>, e: seq<real>, s: real, t: real, x: real)
    requires forall i: nat :: Coef(e, i) == s * Coef(c, i) + t * Coef(d, i)
    ensures Value(e, x) == s * Value(c, x) + t * Value(d, x)
  {
    var n := |c| + |d| + |e|;
    hide Coef, Power, Sum, Terms, Value;
    var f, g, h := Terms(c, x), Terms(d, x), Terms(e, x);
    forall j | 0 <= j < n
      ensures h(j) == s * f(j) + t * g(j)
    {
      TermsAt(c, x, j);
      TermsAt(d, x, j);
      TermsAt(e, x, j);
      TermLinear(s, t, Coef(c, j), Coef(d, j), Power(x, j));
    }
    SumLinear(f, g, h, s, t, n);
    PowerSumExtend(c, x, n);
    PowerSumExtend(d, x, n);
    PowerSumExtend(e, x, n);
    PowerSumIsValue(c, x);
    PowerSumIsValue(d, x);
    PowerSumIsValue(e, x);
  }

  /** Vectors denoting the same polynomial have the same value everywhere. */
  lemma ValueSame(c: seq<real>, d: seq<real>, x: real)
    requires Same(c, d)
    ensures Value(c, x) == Value(d, x)
  {
    hide Value;
    ValueLinear(d, [], c, 1.0, 0.0, x);
  }
}
