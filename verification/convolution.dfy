/** The coefficients of a product of polynomials: the coefficient of `x^k`
    in `a * b` is `a[0]*b[k] + a[1]*b[k-1] + ... + a[k]*b[0]`. */
module Convolutions {
  import opened Sums
  import opened Coefficients

  /** The terms `a[j] * b[k-j]` that make up the coefficient of `x^k`. */
  function ConvTerms(a: seq<real>, b: seq<real>, k: int): nat -> real {
    (j: nat) => Coef(a, j) * Coef(b, k - j)
  }

  lemma ConvTermsAt(a: seq<real>, b: seq<real>, k: int, j: nat)
    ensures ConvTerms(a, b, k)(j) == Coef(a, j) * Coef(b, k - j)
  {
  }

  /** The coefficient of `x^k` in the product, adding the terms for
      `j = 0, 1, ..., k` in turn; zero at negative `k`. */
  function Conv(a: seq<real>, b: seq<real>, k: int): real {
    if k < 0 then 0.0 else Sum(ConvTerms(a, b, k), k + 1)
  }

  /** The first `n` coefficients of the product. */
  function ConvSeq(a: seq<real>, b: seq<real>, n: nat): (r: seq<real>)
    ensures |r| == n
    ensures forall k :: 0 <= k < n ==> r[k] == Conv(a, b, k)
  {
    seq(n, k => Conv(a, b, k))
  }

  /** `e` holds the coefficients of the product `a * b`. */
  ghost predicate IsProduct(e: seq<real>, a: seq<real>, b: seq<real>) {
    forall i: nat :: Coef(e, i) == Conv(a, b, i)
  }

  lemma ProductAt(e: seq<real>, a: seq<real>, b: seq<real>, i: nat)
    requires IsProduct(e, a, b)
    ensures Coef(e, i) == Conv(a, b, i)
  {
  }

  /** The product only depends on the coefficients of its factors. */
  lemma ConvSame(a: seq<real>, a': seq<real>, b: seq<real>, b': seq<real>, k: int)
    requires Same(a, a') && Same(b, b')
    ensures Conv(a, b, k) == Conv(a', b', k)
  {
    if k >= 0 {
      hide Coef, Sum;
      forall j | 0 <= j < k + 1
        ensures ConvTerms(a, b, k)(j) == ConvTerms(a', b', k)(j)
      {
        ConvTermsAt(a, b, k, j);
        ConvTermsAt(a', b', k, j);
        assert Coef(b, k - j) == Coef(b', k - j);
      }
      SumCongruence(ConvTerms(a, b, k), ConvTerms(a', b', k), k + 1);
    }
  }

  /** No coefficient of the product lies beyond the sum of the degrees. */
  lemma ConvZeroBeyond(a: seq<real>, b: seq<real>, k: int)
    requires |a| == 0 || |b| == 0 || k >= |a| + |b| - 1
    ensures Conv(a, b, k) == 0.0
  {
    if k >= 0 {
      hide Sum;
      forall j | 0 <= j < k + 1
        ensures ConvTerms(a, b, k)(j) == 0.0
      {
        ConvTermsAt(a, b, k, j);
        assert Coef(a, j) == 0.0 || Coef(b, k - j) == 0.0;
      }
      SumZero(ConvTerms(a, b, k), k + 1);
    }
  }

  /** The first `n` coefficients are all of them once `n` reaches the sum of the
      lengths less one. */
  lemma ConvSeqComplete(a: seq<real>, b: seq<real>, n: nat)
    requires n >= |a| + |b| - 1 || |a| == 0 || |b| == 0
    ensures forall k :: Coef(ConvSeq(a, b, n), k) == Conv(a, b, k)
  {
    forall k
      ensures Coef(ConvSeq(a, b, n), k) == Conv(a, b, k)
    {
      if k >= n {
        ConvZeroBeyond(a, b, k);
      }
    }
  }

  /** Splitting off the constant term of the left factor:
      `a * b = a[0] * b + x * (Tail(a) * b)`. */
  lemma ConvPeelFirst(a: seq<real>, b: seq<real>, k: nat)
    ensures Conv(a, b, k) == Coef(a, 0) * Coef(b, k) + Conv(Tail(a), b, k - 1)
  {
    hide Coef, Sum, Tail;
    var f, g := ConvTerms(a, b, k), ConvTerms(Tail(a), b, k - 1);
    forall j | 0 <= j < k
      ensures g(j) == f(j + 1)
    {
      ConvTermsAt(a, b, k, j + 1);
      ConvTermsAt(Tail(a), b, k - 1, j);
    }
    SumPeelFirst(f, g, k + 1);
    ConvTermsAt(a, b, k, 0);
    if k == 0 {
      SumEmpty(g);
    }
  }

  lemma SumEmpty(f: nat -> real)
    ensures Sum(f, 0) == 0.0
  {
  }

  /** Multiplication of polynomials is commutative, coefficient by coefficient. */
  lemma ConvCommutes(a: seq<real>, b: seq<real>, k: int)
    ensures Conv(a, b, k) == Conv(b, a, k)
  {
    if k >= 0 {
      hide Coef, Sum;
      var f, g := ConvTerms(a, b, k), ConvTerms(b, a, k);
      forall j | 0 <= j < k + 1
        ensures g(j) == f(k + 1 - 1 - j)
      {
        ConvTermsAt(b, a, k, j);
        ConvTermsAt(a, b, k, k - j);
      }
      SumReverse(f, g, k + 1);
    }
  }

  lemma TermDistributes(a: real, b: real, c: real, s: real, t: real)
    ensures a * (s * b + t * c) == s * (a * b) + t * (a * c)
  {
  }

  /** Multiplication distributes over linear combinations of the right factor. */
  lemma ConvLinearRight(a: seq<real>, b: seq<real>, c: seq<real>, d: seq<real>, s: real, t: real, k: int)
    requires forall i: nat :: Coef(d, i) == s * Coef(b, i) + t * Coef(c, i)
    ensures Conv(a, d, k) == s * Conv(a, b, k) + t * Conv(a, c, k)
  {
    if k >= 0 {
      hide Coef, Sum;
      var f, g, h := ConvTerms(a, b, k), ConvTerms(a, c, k), ConvTerms(a, d, k);
      forall j | 0 <= j < k + 1
        ensures h(j) == s * f(j) + t * g(j)
      {
        ConvTermsAt(a, b, k, j);
        ConvTermsAt(a, c, k, j);
        ConvTermsAt(a, d, k, j);
        assert Coef(d, k - j) == s * Coef(b, k - j) + t * Coef(c, k - j);
        TermDistributes(Coef(a, j), Coef(b, k - j), Coef(c, k - j), s, t);
      }
      SumLinear(f, g, h, s, t, k + 1);
    }
  }

  /** Multiplication distributes over linear combinations of the left factor. */
  lemma ConvLinearLeft(a: seq<real>, b: seq<real>, c: seq<real>, d: seq<real>, s: real, t: real, k: int)
    requires forall i: nat :: Coef(d, i) == s * Coef(b, i) + t * Coef(c, i)
    ensures Conv(d, a, k) == s * Conv(b, a, k) + t * Conv(c, a, k)
  {
    hide Conv;
    ConvLinearRight(a, b, c, d, s, t, k);
    ConvCommutes(a, b, k);
    ConvCommutes(a, c, k);
    ConvCommutes(a, d, k);
  }

  /** Multiplying by `t * x^p` scales by `t` and moves every coefficient up by `p`. */
  lemma ConvMonomial(b: seq<real>, t: real, p: nat, k: int)
    ensures Conv(b, Monomial(t, p), k) == if k >= p then Coef(b, k - p) * t else 0.0
  {
    if k >= 0 {
      hide Coef, Sum, Monomial;
      var f := ConvTerms(b, Monomial(t, p), k);
      forall j | 0 <= j < k + 1 && j != k - p
        ensures f(j) == 0.0
      {
        ConvTermsAt(b, Monomial(t, p), k, j);
      }
      if k >= p {
        SumSingle(f, k - p, k + 1);
        ConvTermsAt(b, Monomial(t, p), k, k - p);
      } else {
        SumZero(f, k + 1);
      }
    }
  }

  /** The leading coefficient of a product is the product of the leading
      coefficients. */
  lemma ConvTop(a: seq<real>, b: seq<real>)
    requires |a| > 0 && |b| > 0
    ensures Conv(a, b, |a| + |b| - 2) == a[|a| - 1] * b[|b| - 1]
  {
    hide Sum;
    var k := |a| + |b| - 2;
    var f := ConvTerms(a, b, k);
    forall j | 0 <= j < k + 1 && j != |a| - 1
      ensures f(j) == 0.0
    {
      ConvTermsAt(a, b, k, j);
    }
    SumSingle(f, |a| - 1, k + 1);
    ConvTermsAt(a, b, k, |a| - 1);
  }

  /** Multiplying the left factor by `x` moves the product up by one. */
  lemma ConvShift(u: seq<real>, c: seq<real>, k: nat)
    ensures Conv(Shift(u), c, k) == Conv(u, c, k - 1)
  {
    hide Conv, Shift;
    ConvPeelFirst(Shift(u), c, k);
    TailShift(u);
  }

  /** The product of `Tail(a)` and `b`, stored with room for every coefficient. */
  function TailProduct(a: seq<real>, b: seq<real>): (r: seq<real>)
    ensures IsProduct(r, Tail(a), b)
  {
    ConvSeqComplete(Tail(a), b, |a| + |b|);
    ConvSeq(Tail(a), b, |a| + |b|)
  }

  /** `a * b == a[0] * b + x * (Tail(a) * b)`, coefficient by coefficient,
      for any vector `e` holding the coefficients of `a * b`. */
  lemma ProductSplit(a: seq<real>, b: seq<real>, e: seq<real>)
    requires IsProduct(e, a, b)
    ensures forall k: nat :: Coef(e, k) == Coef(a, 0) * Coef(b, k) + 1.0 * Coef(Shift(TailProduct(a, b)), k)
  {
    hide Conv, Coef, IsProduct, Shift, Tail, TailProduct;
    var t := TailProduct(a, b);
    forall k: nat
      ensures Coef(e, k) == Coef(a, 0) * Coef(b, k) + 1.0 * Coef(Shift(t), k)
    {
      ProductAt(e, a, b, k);
      ConvPeelFirst(a, b, k);
      if k == 0 {
        ConvNegative(Tail(a), b, -1);
      } else {
        ProductAt(t, Tail(a), b, k - 1);
        assert Coef(Shift(t), (k - 1) + 1) == Coef(t, k - 1);
      }
    }
  }

  lemma ConvNegative(a: seq<real>, b: seq<real>, k: int)
    requires k < 0
    ensures Conv(a, b, k) == 0.0
  {
  }

  /** A product with an empty factor has only zero coefficients. */
  lemma ProductOfEmpty(a: seq<real>, b: seq<real>, e: seq<real>)
    requires |a| == 0
    requires IsProduct(e, a, b)
    ensures Same(e, [])
  {
    forall i: nat
      ensures Coef(e, i) == Coef([], i)
    {
      ConvZeroBeyond(a, b, i);
    }
  }

  /** `(a * b) * c`, split as `a[0] * (b * c) + x * ((Tail(a) * b) * c)`. */
  lemma SplitConv(a: seq<real>, b: seq<real>, ab: seq<real>, c: seq<real>, k: nat)
    requires IsProduct(ab, a, b)
    ensures Conv(ab, c, k) == Coef(a, 0) * Conv(b, c, k) + Conv(TailProduct(a, b), c, k - 1)
  {
    hide Conv, Coef, Shift, Tail, TailProduct;
    ProductSplit(a, b, ab);
    ConvLinearLeft(c, b, Shift(TailProduct(a, b)), ab, Coef(a, 0), 1.0, k);
    ConvShift(TailProduct(a, b), c, k);
  }

  /** Multiplication of polynomials is associative, coefficient by
      coefficient: `ab` and `bc` hold the coefficients of `a * b` and `b * c`. */
  lemma {:induction false} ConvAssociative(a: seq<real>, b: seq<real>, c: seq<real>, ab: seq<real>, bc: seq<real>, k: int)
    requires IsProduct(ab, a, b)
    requires IsProduct(bc, b, c)
    ensures Conv(a, bc, k) == Conv(ab, c, k)
    decreases |a|
  {
    hide Conv, Coef, Shift, Tail, TailProduct, IsProduct;
    if k < 0 {
      ConvNegative(a, bc, k);
      ConvNegative(ab, c, k);
    } else if |a| == 0 {
      ConvZeroBeyond(a, bc, k);
      ProductOfEmpty(a, b, ab);
      ConvSame(ab, [], c, c, k);
      ConvZeroBeyond([], c, k);
    } else {
      var t := TailProduct(a, b);
      ProductAt(bc, b, c, k);
      ConvAssociative(Tail(a), b, c, t, bc, k - 1);
      ConvPeelFirst(a, bc, k);
      SplitConv(a, b, ab, c, k);
    }
  }

  /** The value of `a * b`, split as `a[0] * b + x * (Tail(a) * b)`. */
  lemma SplitValue(a: seq<real>, b: seq<real>, e: seq<real>, x: real)
    requires IsProduct(e, a, b)
    ensures Value(e, x) == Coef(a, 0) * Value(b, x) + x * Value(TailProduct(a, b), x)
  {
    hide Value, Conv, Coef, Shift, Tail, TailProduct;
    ProductSplit(a, b, e);
    ValueLinear(b, Shift(TailProduct(a, b)), e, Coef(a, 0), 1.0, x);
    ValueShift(TailProduct(a, b), x);
  }

  lemma ValueEmpty(a: seq<real>, x: real)
    requires |a| == 0
    ensures Value(a, x) == 0.0 && Value([], x) == 0.0
  {
  }

  lemma ProductValue(a0: real, x: real, vb: real, vt: real, va': real, ve: real, va: real)
    requires vt == va' * vb && ve == a0 * vb + x * vt && va == a0 + x * va'
    ensures ve == va * vb
  {
  }

  /** The value of a product is the product of the values. */
  lemma {:induction false} ValueConv(a: seq<real>, b: seq<real>, e: seq<real>, x: real)
    requires IsProduct(e, a, b)
    ensures Value(e, x) == Value(a, x) * Value(b, x)
    decreases |a|
  {
    if |a| == 0 {
      hide Value, Conv, Coef;
      ProductOfEmpty(a, b, e);
      ValueSame(e, [], x);
      ValueEmpty(a, x);
    } else {
      hide Value, Conv, Coef, Shift, Tail, TailProduct, IsProduct;
      var t := TailProduct(a, b);
      ValueConv(Tail(a), b, t, x);
      SplitValue(a, b, e, x);
      ValueHead(a, x);
      ProductValue(Coef(a, 0), x, Value(b, x), Value(t, x), Value(Tail(a), x), Value(e, x), Value(a, x));
    }
  }
}
