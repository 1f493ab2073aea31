/** `*=` applied to its own left operand. The loop of `operator*=` copies the
    left operand to `save` but reads the right operand through the live
    reference `other`, which for `p *= p` is the buffer being overwritten. */
module PolynomialFindings {
  import opened Coefficients
  import opened Polynomials
  import opened PolynomialExamples

  /** `p *= p` as written: the buffer is resized to `m*m` entries, and entry
      `i` is cleared and then accumulates `save[j] * other[i - j]`, where
      `other[i - j]` is read from the buffer itself. Entry `i` reads itself
      (just cleared) and the entries below it (already recomputed), so every
      entry ends at zero and the result is the zero polynomial. */
  method MulAssignAliased(p: Polynomial) returns (r: Polynomial)
    ensures r == Zero()
  {
    var save := p.coef;
    var m := |save|;
    var n := m * m;
    var buf := seq(n, k requires 0 <= k < n => if k < m then save[k] else 0.0);
    var i := 0;
    while i < n
      invariant 0 <= i <= n && |buf| == n
      invariant forall k :: 0 <= k < i ==> buf[k] == 0.0
    {
      buf := buf[i := 0.0];
      var j := 0;
      while j <= i
        invariant 0 <= j <= i + 1 && |buf| == n
        invariant forall k :: 0 <= k <= i ==> buf[k] == 0.0
      {
        buf := buf[i := buf[i] + Coef(save, j) * Coef(buf, i - j)];
        j := j + 1;
      }
      i := i + 1;
    }
    assert Same(buf, [0.0]) by {
      forall k: nat
        ensures Coef(buf, k) == Coef([0.0], k)
      {
      }
    }
    DeleteNullsOf(buf, [0.0]);
    r := Polynomial(DeleteNulls(buf));
  }

  /** The intended square of `x + 1` is not zero: its constant term is 1.
      `Mul`, which reads both operands as values, gives it; the aliased
      loop above gives zero. */
  lemma AliasedSquareCounterexample()
    ensures Mul(Polynomial([1.0, 1.0]), Polynomial([1.0, 1.0])) != Zero()
    ensures At(Mul(Polynomial([1.0, 1.0]), Polynomial([1.0, 1.0])), 0) == 1.0
  {
    LinearProduct(1.0, 1.0, 1.0, 1.0, 0);
  }
}
