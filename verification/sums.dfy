/** Finite sums of real terms, the building block of polynomial products
    and of evaluation. */
module Sums {

  /** `f(0) + f(1) + ... + f(n-1)`, accumulated in that order. */
  function Sum(f: nat -> real, n: nat): real
    decreases n
  {
    if n == 0 then 0.0 else Sum(f, n - 1) + f(n - 1)
  }

  /** A sum only depends on the terms it adds. */
  lemma {:induction false} SumCongruence(f: nat -> real, g: nat -> real, n: nat)
    requires forall j :: 0 <= j < n ==> f(j) == g(j)
    ensures Sum(f, n) == Sum(g, n)
  {
    if n != 0 {
      SumCongruence(f, g, n - 1);
    }
  }

  lemma {:induction false} SumZero(f: nat -> real, n: nat)
    requires forall j :: 0 <= j < n ==> f(j) == 0.0
    ensures Sum(f, n) == 0.0
  {
    if n != 0 {
      SumZero(f, n - 1);
    }
  }

  lemma Combine(s: real, t: real, a: real, b: real, c: real, d: real)
    ensures (s * a + t * b) + (s * c + t * d) == s * (a + c) + t * (b + d)
  {
  }

  /** Sums are linear in their terms. */
  lemma {:induction false} SumLinear(f: nat -> real, g: nat -> real, h: nat -> real, s: real, t: real, n: nat)
    requires forall j :: 0 <= j < n ==> h(j) == s * f(j) + t * g(j)
    ensures Sum(h, n) == s * Sum(f, n) + t * Sum(g, n)
  {
    if n != 0 {
      SumLinear(f, g, h, s, t, n - 1);
      Combine(s, t, Sum(f, n - 1), Sum(g, n - 1), f(n - 1), g(n - 1));
    }
  }

  lemma {:induction false} SumScale(f: nat -> real, h: nat -> real, s: real, n: nat)
    requires forall j :: 0 <= j < n ==> h(j) == s * f(j)
    ensures Sum(h, n) == s * Sum(f, n)
  {
    if n != 0 {
      SumScale(f, h, s, n - 1);
    }
  }

  /** A sum with a single nonzero term is that term. */
  lemma {:induction false} SumSingle(f: nat -> real, m: nat, n: nat)
    requires m < n
    requires forall j :: 0 <= j < n && j != m ==> f(j) == 0.0
    ensures Sum(f, n) == f(m)
  {
    if m == n - 1 {
      SumZero(f, n - 1);
    } else {
      SumSingle(f, m, n - 1);
    }
  }

  /** Splitting off the first term: `g` is `f` shifted by one. */
  lemma {:induction false} SumPeelFirst(f: nat -> real, g: nat -> real, n: nat)
    requires n >= 1
    requires forall j :: 0 <= j < n - 1 ==> g(j) == f(j + 1)
    ensures Sum(f, n) == f(0) + Sum(g, n - 1)
  {
    if n > 1 {
      SumPeelFirst(f, g, n - 1);
    }
  }

  /** Adding the terms in the opposite order gives the same sum. */
  lemma {:induction false} SumReverse(f: nat -> real, g: nat -> real, n: nat)
    requires forall j :: 0 <= j < n ==> g(j) == f(n - 1 - j)
    ensures Sum(f, n) == Sum(g, n)
  {
    if n != 0 {
      var f' := (j: nat) => f(j + 1);
      SumPeelFirst(f, f', n);
      SumReverse(f', g, n - 1);
    }
  }
}
