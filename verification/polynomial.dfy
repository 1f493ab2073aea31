/** `Polynomial<T>` of polynomial.h over the reals: a coefficient vector,
    lowest power first, kept canonical by `deleteNulls` after every change.
    Construction, indexing, degree, comparison, the additive and
    multiplicative operators (member and free forms), evaluation and
    composition. */
module Polynomials {
  import opened Coefficients
  import opened Convolutions

  datatype Polynomial = Polynomial(coef: seq<real>)

  /** Every polynomial the class builds is stored canonically. */
  predicate Valid(p: Polynomial) {
    Canonical(p.coef)
  }

  function Max(m: nat, n: nat): nat {
    if m < n then n else m
  }

  // ---------------------------------------------------------------------
  // Construction and access

  /** `operator[]`: the coefficient of `x^i`, zero past the stored vector,
      which is never extended. */
  function At(p: Polynomial, i: nat): (r: real)
    ensures i < |p.coef| ==> r == p.coef[i]
    ensures i >= |p.coef| ==> r == 0.0
  {
    Coef(p.coef, i)
  }

  /** `Polynomial(T val = T())`: the constant polynomial `val`. */
  function Constant(val: real): (r: Polynomial)
    ensures Valid(r)
    ensures forall i: nat :: At(r, i) == if i == 0 then val else 0.0
  {
    Polynomial([val])
  }

  /** The default-constructed polynomial. */
  function Zero(): Polynomial {
    Constant(0.0)
  }

  /** The vector and iterator-range constructors: the coefficients as given,
      cleaned by `deleteNulls`. */
  function FromCoefficients(v: seq<real>): (r: Polynomial)
    ensures Valid(r)
    ensures forall i: nat :: At(r, i) == Coef(v, i)
  {
    Polynomial(DeleteNulls(v))
  }

  /** Polynomials with the same coefficients are equal. */
  lemma Extensionality(p: Polynomial, q: Polynomial)
    requires Valid(p) && Valid(q)
    requires forall i: nat :: At(p, i) == At(q, i)
    ensures p == q
  {
    forall i: nat
      ensures Coef(p.coef, i) == Coef(q.coef, i)
    {
      assert At(p, i) == At(q, i);
    }
    CanonicalUnique(p.coef, q.coef);
  }

  /** Constructing from the stored vector of a polynomial gives it back. */
  lemma FromCoefficientsRoundTrip(p: Polynomial)
    requires Valid(p)
    ensures FromCoefficients(p.coef) == p
  {
    DeleteNullsCanonical(p.coef);
  }

  /** Trailing zeros given to the constructor make no difference. */
  lemma FromCoefficientsPadded(v: seq<real>, n: nat)
    ensures FromCoefficients(v + seq(n, i => 0.0)) == FromCoefficients(v)
  {
    var w := v + seq(n, i => 0.0);
    assert Same(w, v) by {
      forall i: nat
        ensures Coef(w, i) == Coef(v, i)
      {
        if |v| <= i < |w| {
          assert w[i] == 0.0;
        }
      }
    }
    DeleteNullsSame(w, v);
  }

  // ---------------------------------------------------------------------
  // Degree and comparison

  /** `Degree()`: -1 for the zero polynomial, otherwise the highest power
      with a nonzero coefficient. */
  function Degree(p: Polynomial): (r: int)
    ensures Valid(p) ==> -1 <= r < |p.coef|
    ensures Valid(p) ==> (r == -1 <==> p == Zero())
    ensures Valid(p) && r >= 0 ==> At(p, r) != 0.0
    ensures Valid(p) ==> forall i: nat :: i > r ==> At(p, i) == 0.0
  {
    if |p.coef| == 1 && p.coef[0] == 0.0 then -1 else |p.coef| - 1
  }

  /** A polynomial is zero exactly when all its coefficients are. */
  lemma ZeroIffNoCoefficients(p: Polynomial)
    requires Valid(p)
    ensures p == Zero() <==> forall i: nat :: At(p, i) == 0.0
  {
    if forall i: nat :: At(p, i) == 0.0 {
      Extensionality(p, Zero());
    }
  }

  /** `operator==` and `operator!=` compare the stored vectors. */
  predicate Equal(p: Polynomial, q: Polynomial) {
    p.coef == q.coef
  }

  predicate NotEqual(p: Polynomial, q: Polynomial) {
    !Equal(p, q)
  }

  /** On canonical polynomials, comparing vectors is comparing coefficients. */
  lemma EqualIffSameCoefficients(p: Polynomial, q: Polynomial)
    requires Valid(p) && Valid(q)
    ensures Equal(p, q) <==> forall i: nat :: At(p, i) == At(q, i)
    ensures NotEqual(p, q) <==> exists i: nat :: At(p, i) != At(q, i)
  {
    if forall i: nat :: At(p, i) == At(q, i) {
      Extensionality(p, q);
    }
  }

  /** The free `operator==` with a scalar on either side: comparison with
      the constant polynomial. */
  predicate EqualsScalar(p: Polynomial, s: real) {
    Equal(p, Constant(s))
  }

  predicate ScalarEquals(s: real, p: Polynomial) {
    Equal(Constant(s), p)
  }

  predicate NotEqualsScalar(p: Polynomial, s: real) {
    NotEqual(p, Constant(s))
  }

  predicate ScalarNotEquals(s: real, p: Polynomial) {
    NotEqual(Constant(s), p)
  }

  /** A polynomial equals a scalar exactly when it is that constant. */
  lemma EqualsScalarIff(p: Polynomial, s: real)
    requires Valid(p)
    ensures EqualsScalar(p, s) <==> Degree(p) <= 0 && At(p, 0) == s
    ensures ScalarEquals(s, p) <==> EqualsScalar(p, s)
    ensures NotEqualsScalar(p, s) <==> !EqualsScalar(p, s)
    ensures ScalarNotEquals(s, p) <==> !EqualsScalar(p, s)
  {
  }

  // ---------------------------------------------------------------------
  // Addition and subtraction

  /** `+=` and the binary `+`: the shorter vector is padded with zeros, the
      coefficients added, the result cleaned. */
  function Add(p: Polynomial, q: Polynomial): (r: Polynomial)
    ensures Valid(r)
    ensures forall i: nat :: At(r, i) == At(p, i) + At(q, i)
  {
    Polynomial(DeleteNulls(seq(Max(|p.coef|, |q.coef|), i => Coef(p.coef, i) + Coef(q.coef, i))))
  }

  /** `-=` and the binary `-`. */
  function Sub(p: Polynomial, q: Polynomial): (r: Polynomial)
    ensures Valid(r)
    ensures forall i: nat :: At(r, i) == At(p, i) - At(q, i)
  {
    Polynomial(DeleteNulls(seq(Max(|p.coef|, |q.coef|), i => Coef(p.coef, i) - Coef(q.coef, i))))
  }

  /** `+= T` and the free `+` with a scalar on the right. */
  function AddScalar(p: Polynomial, s: real): (r: Polynomial)
    ensures Valid(r)
    ensures At(r, 0) == At(p, 0) + s
    ensures forall i: nat :: i > 0 ==> At(r, i) == At(p, i)
  {
    Add(p, Constant(s))
  }

  /** The free `+` with a scalar on the left. */
  function ScalarAdd(s: real, p: Polynomial): (r: Polynomial)
    ensures Valid(r)
    ensures At(r, 0) == s + At(p, 0)
    ensures forall i: nat :: i > 0 ==> At(r, i) == At(p, i)
  {
    Add(Constant(s), p)
  }

  /** `-= T` and the free `-` with a scalar on the right. */
  function SubScalar(p: Polynomial, s: real): (r: Polynomial)
    ensures Valid(r)
    ensures At(r, 0) == At(p, 0) - s
    ensures forall i: nat :: i > 0 ==> At(r, i) == At(p, i)
  {
    Sub(p, Constant(s))
  }

  /** The free `-` with a scalar on the left. */
  function ScalarSub(s: real, p: Polynomial): (r: Polynomial)
    ensures Valid(r)
    ensures At(r, 0) == s - At(p, 0)
    ensures forall i: nat :: i > 0 ==> At(r, i) == -At(p, i)
  {
    Sub(Constant(s), p)
  }

  /** Subtraction undoes addition. */
  lemma SubUndoesAdd(p: Polynomial, q: Polynomial)
    requires Valid(p)
    ensures Sub(Add(p, q), q) == p
  {
    Extensionality(Sub(Add(p, q), q), p);
  }

  /** Adding is commutative and the zero polynomial is neutral. */
  lemma AddCommutes(p: Polynomial, q: Polynomial)
    ensures Add(p, q) == Add(q, p)
  {
    Extensionality(Add(p, q), Add(q, p));
  }

  lemma AddZero(p: Polynomial)
    requires Valid(p)
    ensures Add(p, Zero()) == p
  {
    Extensionality(Add(p, Zero()), p);
  }

  // ---------------------------------------------------------------------
  // Multiplication

  lemma {:induction false} BufferLargeEnough(m: nat, n: nat)
    ensures m == 0 || n == 0 || m * n >= m + n - 1
  {
    if m > 1 && n > 0 {
      BufferLargeEnough(m - 1, n);
      assert m * n == (m - 1) * n + n;
    }
  }

  /** `*=` and the binary `*`: a buffer of `m * n` coefficients, entry `i`
      summing `p[j] * q[i - j]` for `j` from 0 to `i`, then cleaned. The
      buffer holds every coefficient of the product. */
  function Mul(p: Polynomial, q: Polynomial): (r: Polynomial)
    ensures Valid(r)
    ensures IsProduct(r.coef, p.coef, q.coef)
  {
    var buffer := ConvSeq(p.coef, q.coef, |p.coef| * |q.coef|);
    BufferLargeEnough(|p.coef|, |q.coef|);
    ConvSeqComplete(p.coef, q.coef, |p.coef| * |q.coef|);
    Polynomial(DeleteNulls(buffer))
  }

  /** `*= T`: every stored coefficient times the scalar, then cleaned. */
  function Scale(p: Polynomial, s: real): (r: Polynomial)
    ensures Valid(r)
    ensures forall i: nat :: At(r, i) == At(p, i) * s
  {
    Polynomial(DeleteNulls(seq(|p.coef|, i requires 0 <= i < |p.coef| => p.coef[i] * s)))
  }

  /** The free `*` with a scalar on the right: a product with the constant
      polynomial. */
  function MulScalar(p: Polynomial, s: real): (r: Polynomial)
    ensures Valid(r)
    ensures forall i: nat :: At(r, i) == At(p, i) * s
  {
    ProductWithConstant(p, s, Mul(p, Constant(s)));
    Mul(p, Constant(s))
  }

  /** The free `*` with a scalar on the left. */
  function ScalarMul(s: real, p: Polynomial): (r: Polynomial)
    ensures Valid(r)
    ensures forall i: nat :: At(r, i) == s * At(p, i)
  {
    ProductWithConstant(p, s, Mul(p, Constant(s)));
    MulCommutes(Constant(s), p);
    Mul(Constant(s), p)
  }

  lemma ProductWithConstant(p: Polynomial, s: real, r: Polynomial)
    requires IsProduct(r.coef, p.coef, [s])
    ensures forall i: nat :: At(r, i) == At(p, i) * s
  {
    forall i: nat
      ensures At(r, i) == At(p, i) * s
    {
      ProductAt(r.coef, p.coef, [s], i);
      assert Monomial(s, 0) == [s];
      ConvMonomial(p.coef, s, 0, i);
    }
  }

  /** Scaling in place and multiplying by the constant polynomial agree. */
  lemma ScaleIsMulScalar(p: Polynomial, s: real)
    ensures Scale(p, s) == MulScalar(p, s)
  {
    Extensionality(Scale(p, s), MulScalar(p, s));
  }

  /** Unary `+` returns the polynomial unchanged. */
  function Plus(p: Polynomial): (r: Polynomial)
    ensures r == p
  {
    p
  }

  /** Unary `-`: the product with the constant `-1`. */
  function Neg(p: Polynomial): (r: Polynomial)
    ensures Valid(r)
    ensures forall i: nat :: At(r, i) == -At(p, i)
  {
    MulScalar(p, -1.0)
  }

  /** A polynomial plus its negation is zero. */
  lemma AddNeg(p: Polynomial)
    ensures Add(p, Neg(p)) == Zero()
  {
    Extensionality(Add(p, Neg(p)), Zero());
  }

  /** The coefficients of a product. */
  lemma MulAt(p: Polynomial, q: Polynomial, i: nat)
    ensures At(Mul(p, q), i) == Conv(p.coef, q.coef, i)
  {
    ProductAt(Mul(p, q).coef, p.coef, q.coef, i);
  }

  lemma MulCommutes(p: Polynomial, q: Polynomial)
    ensures Mul(p, q) == Mul(q, p)
  {
    forall i: nat
      ensures At(Mul(p, q), i) == At(Mul(q, p), i)
    {
      ProductAt(Mul(p, q).coef, p.coef, q.coef, i);
      ProductAt(Mul(q, p).coef, q.coef, p.coef, i);
      ConvCommutes(p.coef, q.coef, i);
    }
    Extensionality(Mul(p, q), Mul(q, p));
  }

  lemma MulAssociative(p: Polynomial, q: Polynomial, s: Polynomial)
    ensures Mul(Mul(p, q), s) == Mul(p, Mul(q, s))
  {
    var pq, qs := Mul(p, q), Mul(q, s);
    forall i: nat
      ensures At(Mul(pq, s), i) == At(Mul(p, qs), i)
    {
      ProductAt(Mul(pq, s).coef, pq.coef, s.coef, i);
      ProductAt(Mul(p, qs).coef, p.coef, qs.coef, i);
      ConvAssociative(p.coef, q.coef, s.coef, pq.coef, qs.coef, i);
    }
    Extensionality(Mul(pq, s), Mul(p, qs));
  }

  /** Multiplication distributes over addition and subtraction. */
  lemma MulDistributesAdd(p: Polynomial, q: Polynomial, s: Polynomial)
    ensures Mul(p, Add(q, s)) == Add(Mul(p, q), Mul(p, s))
  {
    hide Mul, Add, Sub, Conv, IsProduct;
    MulDistributesOver(p, q, s, Add(q, s), 1.0);
    Extensionality(Mul(p, Add(q, s)), Add(Mul(p, q), Mul(p, s)));
  }

  lemma MulDistributesSub(p: Polynomial, q: Polynomial, s: Polynomial)
    ensures Mul(p, Sub(q, s)) == Sub(Mul(p, q), Mul(p, s))
  {
    hide Mul, Add, Sub, Conv, IsProduct;
    MulDistributesOver(p, q, s, Sub(q, s), -1.0);
    Extensionality(Mul(p, Sub(q, s)), Sub(Mul(p, q), Mul(p, s)));
  }

  lemma MulDistributesOver(p: Polynomial, q: Polynomial, s: Polynomial, a: Polynomial, t: real)
    requires forall i: nat :: At(a, i) == 1.0 * At(q, i) + t * At(s, i)
    ensures forall i: nat :: At(Mul(p, a), i) == 1.0 * At(Mul(p, q), i) + t * At(Mul(p, s), i)
  {
    hide Conv, Mul, Add, Sub, IsProduct, DeleteNulls;
    assert forall i: nat :: Coef(a.coef, i) == 1.0 * Coef(q.coef, i) + t * Coef(s.coef, i) by {
      forall i: nat
        ensures Coef(a.coef, i) == 1.0 * Coef(q.coef, i) + t * Coef(s.coef, i)
      {
        assert At(a, i) == 1.0 * At(q, i) + t * At(s, i);
      }
    }
    forall i: nat
      ensures At(Mul(p, a), i) == 1.0 * At(Mul(p, q), i) + t * At(Mul(p, s), i)
    {
      MulAt(p, a, i);
      MulAt(p, q, i);
      MulAt(p, s, i);
      ConvLinearRight(p.coef, q.coef, s.coef, a.coef, 1.0, t, i);
    }
  }

  /** The constant one is neutral for multiplication; zero absorbs. */
  lemma MulOne(p: Polynomial)
    requires Valid(p)
    ensures Mul(p, Constant(1.0)) == p
  {
    Extensionality(MulScalar(p, 1.0), p);
  }

  lemma MulZero(p: Polynomial)
    ensures Mul(p, Zero()) == Zero()
    ensures Scale(p, 0.0) == Zero()
  {
    Extensionality(MulScalar(p, 0.0), Zero());
    ScaleIsMulScalar(p, 0.0);
  }

  /** The degree of a product of nonzero polynomials is the sum of the
      degrees, and its leading coefficient the product of theirs. */
  lemma DegreeMul(p: Polynomial, q: Polynomial)
    requires Valid(p) && Valid(q) && p != Zero() && q != Zero()
    ensures Degree(Mul(p, q)) == Degree(p) + Degree(q)
    ensures At(Mul(p, q), Degree(p) + Degree(q)) == At(p, Degree(p)) * At(q, Degree(q))
  {
    hide Mul, Conv, DeleteNulls;
    var m, n := Degree(p), Degree(q);
    ConvTop(p.coef, q.coef);
    ProductAt(Mul(p, q).coef, p.coef, q.coef, m + n);
    forall i: nat | i > m + n
      ensures At(Mul(p, q), i) == 0.0
    {
      ProductAt(Mul(p, q).coef, p.coef, q.coef, i);
      ConvZeroBeyond(p.coef, q.coef, i);
    }
    NonzeroProduct(At(p, m), At(q, n));
  }

  lemma NonzeroProduct(a: real, b: real)
    requires a != 0.0 && b != 0.0
    ensures a * b != 0.0
  {
  }

  /** A polynomial whose coefficients vanish above `k`, with a nonzero one at
      `k`, has degree `k`. */
  lemma DegreeIs(p: Polynomial, k: nat)
    requires Valid(p)
    requires At(p, k) != 0.0
    requires forall i: nat :: i > k ==> At(p, i) == 0.0
    ensures Degree(p) == k
  {
  }

  // ---------------------------------------------------------------------
  // Evaluation

  /** `operator()`: `ans = coef[0]`, then `ans += cur * coef[i]` with `cur`
      running through the powers of `x`. The result is the value Horner's
      rule gives. */
  method Eval(p: Polynomial, x: real) returns (r: real)
    requires |p.coef| > 0
    ensures r == Value(p.coef, x)
  {
    r := p.coef[0];
    var cur := x;
    var i := 1;
    PowerSumStep(p.coef, x, 0);
    PowerSumEmpty(p.coef, x);
    PowerZero(x);
    PowerStep(x, 0);
    while i < |p.coef|
      invariant 1 <= i <= |p.coef|
      invariant cur == Power(x, i)
      invariant r == PowerSum(p.coef, x, i)
    {
      PowerSumStep(p.coef, x, i);
      PowerStep(x, i);
      r := r + cur * p.coef[i];
      cur := cur * x;
      i := i + 1;
    }
    PowerSumIsValue(p.coef, x);
  }

  lemma ValueAdd(p: Polynomial, q: Polynomial, x: real)
    ensures Value(Add(p, q).coef, x) == Value(p.coef, x) + Value(q.coef, x)
  {
    ValueLinear(p.coef, q.coef, Add(p, q).coef, 1.0, 1.0, x);
  }

  lemma ValueSub(p: Polynomial, q: Polynomial, x: real)
    ensures Value(Sub(p, q).coef, x) == Value(p.coef, x) - Value(q.coef, x)
  {
    ValueLinear(p.coef, q.coef, Sub(p, q).coef, 1.0, -1.0, x);
  }

  lemma ValueMul(p: Polynomial, q: Polynomial, x: real)
    ensures Value(Mul(p, q).coef, x) == Value(p.coef, x) * Value(q.coef, x)
  {
    ValueConv(p.coef, q.coef, Mul(p, q).coef, x);
  }

  lemma ValueConstant(s: real, x: real)
    ensures Value(Constant(s).coef, x) == s
  {
    assert Constant(s).coef[1..] == [];
  }

  // ---------------------------------------------------------------------
  // Composition

  /** The loop of `operator&` from power `i` on: `ans += cur * coef[i]`,
      then `cur *= other`. */
  function ComposeFrom(c: seq<real>, q: Polynomial, i: nat, ans: Polynomial, cur: Polynomial): Polynomial
    decreases |c| - i
  {
    if i >= |c| then ans
    else ComposeFrom(c, q, i + 1, Add(ans, MulScalar(cur, c[i])), Mul(cur, q))
  }

  /** `operator&`: the composition `p(q(x))`, starting from the constant
      term of `p` and the first power of `q`. */
  function Compose(p: Polynomial, q: Polynomial): (r: Polynomial)
    requires |p.coef| > 0
    ensures Valid(r)
  {
    var ans := ComposeFrom(p.coef, q, 1, Constant(p.coef[0]), q);
    Polynomial(DeleteNulls(ans.coef))
  }

  lemma CoefInside(c: seq<real>, i: int)
    requires 0 <= i < |c|
    ensures Coef(c, i) == c[i]
  {
  }

  lemma ComposeStep(va: real, vc: real, ci: real, s: real, p: real, y: real,
                     va': real, vm: real, vc': real, s': real, p': real)
    requires va == s && vc == p
    requires va' == va + vm && vm == vc * ci && vc' == vc * y
    requires s' == s + ci * p && p' == y * p
    ensures va' == s' && vc' == p'
  {
  }

  lemma ValueMulScalar(p: Polynomial, s: real, x: real)
    ensures Value(MulScalar(p, s).coef, x) == Value(p.coef, x) * s
  {
    ValueMul(p, Constant(s), x);
    ValueConstant(s, x);
  }

  /** One round of the composition loop keeps `ans` at the partial sum
      `c[0] + c[1]*y + ... + c[i-1]*y^(i-1)` and `cur` at `y^i`, where `y`
      is the value of `q`. */
  lemma ComposeStepValue(c: seq<real>, q: Polynomial, i: nat, ans: Polynomial, cur: Polynomial, x: real)
    requires i < |c|
    requires Value(ans.coef, x) == PowerSum(c, Value(q.coef, x), i)
    requires Value(cur.coef, x) == Power(Value(q.coef, x), i)
    ensures Value(Add(ans, MulScalar(cur, c[i])).coef, x) == PowerSum(c, Value(q.coef, x), i + 1)
    ensures Value(Mul(cur, q).coef, x) == Power(Value(q.coef, x), i + 1)
  {
    hide Value, PowerSum, Power, Add, Mul, MulScalar, IsProduct, Coef, At;
    var y := Value(q.coef, x);
    ValueAdd(ans, MulScalar(cur, c[i]), x);
    ValueMulScalar(cur, c[i], x);
    ValueMul(cur, q, x);
    PowerSumStep(c, y, i);
    PowerStep(y, i);
    CoefInside(c, i);
    ComposeStep(Value(ans.coef, x), Value(cur.coef, x), c[i], PowerSum(c, y, i), Power(y, i), y,
                Value(Add(ans, MulScalar(cur, c[i])).coef, x), Value(MulScalar(cur, c[i]).coef, x),
                Value(Mul(cur, q).coef, x), PowerSum(c, y, i + 1), Power(y, i + 1));
  }

  lemma {:induction false} ComposeFromValue(c: seq<real>, q: Polynomial, i: nat, ans: Polynomial, cur: Polynomial, x: real)
    requires Value(ans.coef, x) == PowerSum(c, Value(q.coef, x), i)
    requires Value(cur.coef, x) == Power(Value(q.coef, x), i)
    requires i <= |c|
    ensures Value(ComposeFrom(c, q, i, ans, cur).coef, x) == PowerSum(c, Value(q.coef, x), |c|)
    decreases |c| - i
  {
    if i < |c| {
      var ans', cur' := Add(ans, MulScalar(cur, c[i])), Mul(cur, q);
      assert ComposeFrom(c, q, i, ans, cur) == ComposeFrom(c, q, i + 1, ans', cur');
      hide Value, PowerSum, Power, Add, Mul, MulScalar, ComposeFrom, IsProduct;
      ComposeStepValue(c, q, i, ans, cur, x);
      ComposeFromValue(c, q, i + 1, ans', cur', x);
    }
  }

  /** The composition evaluates to `p` evaluated at the value of `q`. */
  lemma ComposeValue(p: Polynomial, q: Polynomial, x: real)
    requires |p.coef| > 0
    ensures Value(Compose(p, q).coef, x) == Value(p.coef, Value(q.coef, x))
  {
    var y := Value(q.coef, x);
    var ans := ComposeFrom(p.coef, q, 1, Constant(p.coef[0]), q);
    ValueConstant(p.coef[0], x);
    PowerSumStep(p.coef, y, 0);
    PowerSumEmpty(p.coef, y);
    PowerZero(y);
    PowerStep(y, 0);
    ComposeFromValue(p.coef, q, 1, Constant(p.coef[0]), q, x);
    PowerSumIsValue(p.coef, y);
    ValueSame(Compose(p, q).coef, ans.coef, x);
  }
}
