/** Integer divisibility and Euclid's greatest common divisor, the facts
    behind the canonical form of a fraction (`std::gcd` in the source). */
module Divisibility {

  /** `d` is a positive divisor of `n`. */
  predicate Divides(d: int, n: int) {
    d > 0 && n % d == 0
  }

  lemma MulNonnegative(a: int, b: int)
    requires a >= 0 && b >= 0
    ensures a * b >= 0
  {
  }

  lemma MulAtLeast(a: int, b: int)
    requires a >= 1 && b > 0
    ensures a * b >= b
  {
    MulNonnegative(a - 1, b);
    assert a * b == (a - 1) * b + b;
  }

  lemma MulExceeds(a: int, b: int)
    requires a > 1 && b > 0
    ensures a * b > b
  {
    MulAtLeast(a - 1, b);
    assert a * b == (a - 1) * b + b;
  }

  lemma MulAtMost(a: int, b: int)
    requires a <= -1 && b > 0
    ensures a * b <= -b
  {
    MulAtLeast(-a, b);
    assert a * b == -((-a) * b);
  }

  lemma MulNonpositive(a: int, b: int)
    requires a >= 0 && b <= 0
    ensures a * b <= 0
  {
    MulNonnegative(a, -b);
    assert a * b == -(a * (-b));
  }

  /** Euclidean division is unique: a quotient and remainder in range are THE quotient and remainder. */
  lemma DivModUnique(n: int, d: int, q: int, r: int)
    requires d > 0 && 0 <= r < d && n == q * d + r
    ensures n / d == q && n % d == r
  {
    var q', r' := n / d, n % d;
    assert n == q' * d + r';
    var m := q - q';
    assert m * d == q * d - q' * d;
    assert m * d == r' - r;
    if m >= 1 {
      MulAtLeast(m, d);
      assert false;
    } else if m <= -1 {
      MulAtMost(m, d);
      assert false;
    }
  }

  lemma DividesProduct(d: int, k: int)
    requires d > 0
    ensures Divides(d, d * k) && (d * k) / d == k
  {
    DivModUnique(d * k, d, k, 0);
  }

  lemma Quotient(d: int, n: int)
    requires Divides(d, n)
    ensures n == d * (n / d)
  {
  }

  lemma DividesCombination(d: int, x: int, y: int, k: int)
    requires Divides(d, x) && Divides(d, y)
    ensures Divides(d, x + k * y)
  {
    Quotient(d, x);
    Quotient(d, y);
    var m := x / d + k * (y / d);
    assert x + k * y == d * m;
    DividesProduct(d, m);
  }

  lemma DividesZero(d: int)
    requires d > 0
    ensures Divides(d, 0)
  {
  }

  lemma DividesNegation(d: int, n: int)
    requires Divides(d, n)
    ensures Divides(d, -n)
  {
    DividesZero(d);
    DividesCombination(d, 0, n, -1);
  }

  lemma DividesAbs(d: int, n: int)
    requires d > 0
    ensures Divides(d, n) <==> Divides(d, if n < 0 then -n else n)
  {
    if Divides(d, n) {
      DividesNegation(d, n);
    }
    if Divides(d, -n) {
      DividesNegation(d, -n);
    }
  }

  lemma DividesMultiple(d: int, n: int, k: int)
    requires Divides(d, n)
    ensures Divides(d, n * k)
  {
    DividesZero(d);
    DividesCombination(d, 0, n, k);
    assert 0 + k * n == n * k;
  }

  lemma DividesBound(d: int, n: int)
    requires Divides(d, n) && n > 0
    ensures d <= n
  {
    Quotient(d, n);
    var q := n / d;
    if q <= 0 {
      MulNonpositive(d, q);
      assert false;
    }
    MulAtLeast(q, d);
    assert q * d == d * q;
  }

  lemma DividesScaled(h: int, m: int, g: int)
    requires Divides(h, m) && g > 0
    ensures Divides(h * g, m * g)
  {
    Quotient(h, m);
    var k := m / h;
    assert m * g == (h * g) * k;
    DividesProduct(h * g, k);
  }

  /** Euclid's algorithm; `std::gcd` on the absolute values of its arguments. */
  function Gcd(x: nat, y: nat): (g: nat)
    decreases y
    ensures x > 0 || y > 0 ==> Divides(g, x) && Divides(g, y)
  {
    if y == 0 then
      x
    else
      var g := Gcd(y, x % y);
      DividesStep(g, x, y);
      g
  }

  /** A divisor of `y` and of `x % y` divides `x`. */
  lemma DividesStep(g: int, x: nat, y: nat)
    requires y > 0 && Divides(g, y) && Divides(g, x % y)
    ensures Divides(g, x)
  {
    DividesCombination(g, x % y, y, x / y);
    assert x == x % y + (x / y) * y;
  }

  /** Every common divisor divides the gcd: it is the GREATEST common divisor. */
  lemma {:induction false} GcdGreatest(d: int, x: nat, y: nat)
    requires Divides(d, x) && Divides(d, y)
    ensures Divides(d, Gcd(x, y))
    decreases y
  {
    if y != 0 {
      DividesCombination(d, x, y, -(x / y));
      assert x % y == x + -(x / y) * y;
      GcdGreatest(d, y, x % y);
    }
  }

  lemma GcdPositive(x: nat, y: nat)
    requires x > 0 || y > 0
    ensures Gcd(x, y) > 0
  {
  }

  /** Dividing both arguments by their gcd leaves coprime numbers. */
  lemma GcdOfQuotients(x: nat, y: nat)
    requires x > 0 || y > 0
    ensures var g := Gcd(x, y); g > 0 && Gcd(x / g, y / g) == 1
  {
    var g := Gcd(x, y);
    Quotient(g, x);
    Quotient(g, y);
    var x', y' := x / g, y / g;
    assert x' > 0 || y' > 0 by {
      if x > 0 { assert g * x' > 0; } else { assert g * y' > 0; }
    }
    var h := Gcd(x', y');
    assert Divides(h, x') && Divides(h, y');
    DividesScaled(h, x', g);
    DividesScaled(h, y', g);
    assert x' * g == x && y' * g == y;
    GcdGreatest(h * g, x, y);
    DividesBound(h * g, g);
    if h > 1 {
      MulExceeds(h, g);
      assert false;
    }
  }

  /** Scaling both arguments scales the gcd. */
  lemma {:induction false} GcdScale(x: nat, y: nat, c: nat)
    ensures Gcd(c * x, c * y) == c * Gcd(x, y)
    decreases y
  {
    if y == 0 {
      assert c * y == 0;
    } else if c == 0 {
      assert c * x == 0 && c * y == 0;
      assert Gcd(0, 0) == 0;
    } else {
      var q, r := x / y, x % y;
      assert c * x == q * (c * y) + c * r;
      assert c * r < c * y;
      DivModUnique(c * x, c * y, q, c * r);
      assert (c * x) % (c * y) == c * r;
      GcdScale(y, r, c);
    }
  }

  /** Euclid's lemma: a number coprime to `a` that divides `a * c` divides `c`. */
  lemma Euclid(a: nat, b: nat, c: nat)
    requires Gcd(a, b) == 1 && Divides(b, a * c)
    ensures Divides(b, c)
  {
    var ca: nat, cb: nat := c * a, c * b;
    GcdScale(a, b, c);
    assert Gcd(ca, cb) == c * 1 == c;
    assert ca == a * c;
    DividesProduct(b, c);
    assert cb == b * c;
    GcdGreatest(b, ca, cb);
  }

  lemma GcdAbsCombination(a: int, b: nat, n: int)
    requires b > 0 && Gcd(if a < 0 then -a else a, b) == 1
    ensures Gcd(if a + n * b < 0 then -(a + n * b) else a + n * b, b) == 1
  {
    hide Gcd, Divides;
    var m := a + n * b;
    var am: nat := if a < 0 then -a else a;
    var mm: nat := if m < 0 then -m else m;
    GcdPositive(mm, b);
    var g := Gcd(mm, b);
    DividesAbs(g, m);
    DividesCombination(g, m, b, -n);
    assert m + -n * b == a;
    DividesAbs(g, a);
    GcdGreatest(g, am, b);
    DividesBound(g, 1);
  }
}
