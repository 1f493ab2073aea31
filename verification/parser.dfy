/** The string constructor `Rational(const std::string&)` of rational.h and
    the recursive-descent reader behind it (`getSum`, `getProduct`,
    `getSubExpr`, `getNum`).

    Each reader takes the text and a position and returns the value read and
    the position after it.  Reading at the end of a `std::string` yields the
    NUL character, which `At` models; nothing is ever read further out. */
module Parser {
  import opened Rationals
  import opened Expressions

  datatype Parsed = Parsed(value: Rational, pos: nat)

  /** `s[pos]`, with `'\0'` from the end of the text on. */
  function At(s: string, pos: nat): char {
    if pos < |s| then s[pos] else '\0'
  }

  /** How much text lies after `pos`; every reading step makes it smaller. */
  function Remaining(s: string, pos: nat): nat {
    if pos <= |s| then |s| - pos else 0
  }

  /** `getSum`: a product, then further products after each `+` or `-`. */
  function ParseSum(s: string, pos: nat): (r: Parsed)
    ensures r.pos >= pos && Extended(r.value)
    decreases Remaining(s, pos), 2
  {
    var head := ParseProduct(s, pos);
    SumLoop(s, head.pos, head.value)
  }

  /** The loop of `getSum`, with `acc` the value so far. */
  function SumLoop(s: string, pos: nat, acc: Rational): (r: Parsed)
    ensures r.pos >= pos
    ensures Extended(acc) ==> Extended(r.value)
    decreases Remaining(s, pos), 1
  {
    if pos < |s| && (s[pos] == '+' || s[pos] == '-') then
      var other := ParseProduct(s, pos + 1);
      SumLoop(s, other.pos, ApplyAdd(s[pos], acc, other.value))
    else
      Parsed(acc, pos)
  }

  /** `getProduct`: an operand, then further operands after each `*` or `/`. */
  function ParseProduct(s: string, pos: nat): (r: Parsed)
    ensures r.pos >= pos && Extended(r.value)
    decreases Remaining(s, pos), 1
  {
    var head := ParseSubExpr(s, pos);
    ProductLoop(s, head.pos, head.value)
  }

  /** The loop of `getProduct`, with `acc` the value so far. */
  function ProductLoop(s: string, pos: nat, acc: Rational): (r: Parsed)
    ensures r.pos >= pos
    ensures Extended(acc) ==> Extended(r.value)
    decreases Remaining(s, pos), 0
  {
    if pos < |s| && (s[pos] == '*' || s[pos] == '/') then
      var other := ParseSubExpr(s, pos + 1);
      ProductLoop(s, other.pos, ApplyMul(s[pos], acc, other.value))
    else
      Parsed(acc, pos)
  }

  /** `getSubExpr`: a parenthesised sum, whose closing character is skipped
      whatever it is, or else a number. */
  function ParseSubExpr(s: string, pos: nat): (r: Parsed)
    ensures r.pos >= pos && Extended(r.value)
    decreases Remaining(s, pos), 0
  {
    if At(s, pos) == '(' then
      var inner := ParseSum(s, pos + 1);
      Parsed(inner.value, inner.pos + 1)
    else
      ParseNum(s, pos)
  }

  /** The digit loop of `getNum`: the number `acc` extended by the digits from `pos` on. */
  function ReadDigits(s: string, pos: nat, acc: int): (r: (int, nat))
    ensures r.1 >= pos
    decreases Remaining(s, pos)
  {
    if IsDigit(At(s, pos)) then
      ReadDigits(s, pos + 1, acc * 10 + DigitValue(s[pos]))
    else
      (acc, pos)
  }

  /** `getNum`: an optional `-`, then digits; no digits at all read as 0. */
  function ParseNum(s: string, pos: nat): (r: Parsed)
    ensures r.pos >= pos
    ensures r.value == FromInt(if At(s, pos) == '-' then -ReadDigits(s, pos + 1, 0).0 else ReadDigits(s, pos, 0).0)
  {
    var negative := At(s, pos) == '-';
    var digits := ReadDigits(s, if negative then pos + 1 else pos, 0);
    Parsed(NumeralFraction(negative, digits.0), digits.1)
  }

  /** The copy of the input without its spaces that the constructor reads. */
  function StripSpaces(expr: string): (s: string)
    ensures forall i :: 0 <= i < |s| ==> s[i] != ' '
  {
    if |expr| == 0 then
      []
    else
      (if expr[0] == ' ' then [] else [expr[0]]) + StripSpaces(expr[1..])
  }

  /** `Rational(const std::string& expr)`. */
  function Parse(expr: string): (r: Rational)
    ensures Extended(r)
  {
    ParseSum(StripSpaces(expr), 0).value
  }

  // ---------------------------------------------------------------------
  // Spaces

  /** Exactly the spaces are removed: every other character keeps its number of occurrences. */
  lemma {:induction false} StripSpacesContents(expr: string)
    ensures multiset(StripSpaces(expr)) == multiset(expr)[' ' := 0]
    decreases |expr|
  {
    if |expr| != 0 {
      assert expr == [expr[0]] + expr[1..];
      StripSpacesContents(expr[1..]);
    }
  }

  lemma {:induction false} StripSpacesAppend(x: string, y: string)
    ensures StripSpaces(x + y) == StripSpaces(x) + StripSpaces(y)
    decreases |x|
  {
    if |x| == 0 {
      assert x + y == y;
    } else {
      assert (x + y)[1..] == x[1..] + y;
      StripSpacesAppend(x[1..], y);
    }
  }

  /** Text without spaces is read as it is. */
  lemma {:induction false} StripSpacesUnchanged(s: string)
    requires forall i :: 0 <= i < |s| ==> s[i] != ' '
    ensures StripSpaces(s) == s
    decreases |s|
  {
    if |s| != 0 {
      StripSpacesUnchanged(s[1..]);
    }
  }

  /** Spaces anywhere in the input make no difference to the value read. */
  lemma ParseIgnoresSpaces(expr: string)
    ensures Parse(expr) == Parse(StripSpaces(expr))
  {
    StripSpacesUnchanged(StripSpaces(expr));
  }

  // ---------------------------------------------------------------------
  // The reader reads back what the renderer writes

  /** The text `t` stands in `s` from `pos` on. */
  predicate Occurs(s: string, pos: nat, t: string) {
    pos + |t| <= |s| && s[pos..pos + |t|] == t
  }

  lemma OccursSplit(s: string, pos: nat, t: string, u: string)
    requires Occurs(s, pos, t + u)
    ensures Occurs(s, pos, t) && Occurs(s, pos + |t|, u)
  {
    assert s[pos..pos + |t|] == (t + u)[..|t|];
    assert s[pos + |t|..pos + |t| + |u|] == (t + u)[|t|..];
  }

  lemma OccursAt(s: string, pos: nat, t: string, i: nat)
    requires Occurs(s, pos, t) && i < |t|
    ensures At(s, pos + i) == t[i]
  {
    assert s[pos..pos + |t|][i] == t[i];
  }

  lemma {:induction false} ReadDigitsRoundTrip(s: string, pos: nat, acc: int, d: string)
    requires forall i :: 0 <= i < |d| ==> IsDigit(d[i])
    requires Occurs(s, pos, d) && !IsDigit(At(s, pos + |d|))
    ensures ReadDigits(s, pos, acc) == (DigitsFrom(acc, d), pos + |d|)
    decreases |d|
  {
    if |d| != 0 {
      assert d == [d[0]] + d[1..];
      OccursSplit(s, pos, [d[0]], d[1..]);
      OccursAt(s, pos, d, 0);
      ReadDigitsRoundTrip(s, pos + 1, acc * 10 + DigitValue(d[0]), d[1..]);
    }
  }

  lemma NumeralRoundTrip(n: Numeral, s: string, pos: nat)
    requires WellFormedNumeral(n)
    requires Occurs(s, pos, RenderNumeral(n)) && !IsDigit(At(s, pos + |RenderNumeral(n)|))
    ensures ParseNum(s, pos) == Parsed(EvalNumeral(n), pos + |RenderNumeral(n)|)
  {
    var sign := if n.negative then "-" else "";
    OccursSplit(s, pos, sign, n.digits);
    OccursAt(s, pos, RenderNumeral(n), 0);
    ReadDigitsRoundTrip(s, pos + |sign|, 0, n.digits);
  }

  lemma {:induction false} AtomRoundTrip(a: Atom, s: string, pos: nat)
    requires WellFormedAtom(a)
    requires Occurs(s, pos, RenderAtom(a)) && !IsDigit(At(s, pos + |RenderAtom(a)|))
    ensures ParseSubExpr(s, pos) == Parsed(EvalAtom(a), pos + |RenderAtom(a)|)
    decreases a, 0
  {
    hide ParseSum, SumLoop, ParseProduct, ProductLoop, ParseNum, ReadDigits, EvalSum, EvalProduct, RenderSum, RenderProduct, ApplyAdd, ApplyMul, Make, Reduce, Occurs;
    OccursAt(s, pos, RenderAtom(a), 0);
    match a
    case Number(n) =>
      NumeralRoundTrip(n, s, pos);
    case Group(inner, closer) =>
      var text := RenderSum(inner);
      OccursSplit(s, pos, "(" + text, [closer]);
      OccursSplit(s, pos, "(", text);
      OccursAt(s, pos + 1 + |text|, [closer], 0);
      SumRoundTrip(inner, s, pos + 1);
  }

  /** Reading a rendered product stops in the loop of `getProduct` just after it. */
  lemma {:induction false} ProductPrefix(p: Product, s: string, pos: nat)
    requires WellFormedProduct(p)
    requires Occurs(s, pos, RenderProduct(p)) && !IsDigit(At(s, pos + |RenderProduct(p)|))
    ensures ParseProduct(s, pos) == ProductLoop(s, pos + |RenderProduct(p)|, EvalProduct(p))
    decreases p, 1
  {
    hide ParseSum, SumLoop, ProductLoop, ParseSubExpr, ParseNum, ReadDigits, EvalSum, EvalAtom, RenderSum, RenderAtom, ApplyAdd, ApplyMul, Make, Reduce, Occurs;
    if p.Factor? {
      AtomRoundTrip(p.atom, s, pos);
    } else {
      MulChainPrefix(p, s, pos);
    }
  }

  lemma {:induction false} MulChainPrefix(p: Product, s: string, pos: nat)
    requires p.MulChain? && WellFormedProduct(p)
    requires Occurs(s, pos, RenderProduct(p)) && !IsDigit(At(s, pos + |RenderProduct(p)|))
    ensures ParseProduct(s, pos) == ProductLoop(s, pos + |RenderProduct(p)|, EvalProduct(p))
    decreases p, 0
  {
    hide ApplyMul, ApplyAdd, Make, Reduce, ParseSubExpr, ParseSum, SumLoop, ParseNum, EvalAtom, EvalSum, RenderAtom, RenderSum;
    hide Occurs, At, ParseProduct, ProductLoop;
    var l := RenderProduct(p.left);
    var k := pos + |l|;
    var end := pos + |RenderProduct(p)|;
    assert RenderProduct(p) == l + [p.op] + RenderAtom(p.right);
    OccursSplit(s, pos, l + [p.op], RenderAtom(p.right));
    OccursSplit(s, pos, l, [p.op]);
    OccursAt(s, k, [p.op], 0);
    ProductPrefix(p.left, s, pos);
    AtomRoundTrip(p.right, s, k + 1);
    ProductLoopStep(s, k, EvalProduct(p.left));
  }

  /** One turn of the loop of `getProduct`. */
  lemma ProductLoopStep(s: string, k: nat, acc: Rational)
    requires At(s, k) == '*' || At(s, k) == '/'
    ensures var other := ParseSubExpr(s, k + 1);
            ProductLoop(s, k, acc) == ProductLoop(s, other.pos, ApplyMul(At(s, k), acc, other.value))
  {
  }

  lemma {:induction false} ProductRoundTrip(p: Product, s: string, pos: nat)
    requires WellFormedProduct(p)
    requires Occurs(s, pos, RenderProduct(p)) && !ContinuesProduct(At(s, pos + |RenderProduct(p)|))
    ensures ParseProduct(s, pos) == Parsed(EvalProduct(p), pos + |RenderProduct(p)|)
    decreases p, 2
  {
    hide ParseSum, SumLoop, ParseProduct, ParseSubExpr, ParseNum, ReadDigits, EvalSum, EvalProduct, EvalAtom, RenderSum, RenderProduct, RenderAtom, ApplyAdd, ApplyMul, Make, Reduce, Occurs;
    ProductPrefix(p, s, pos);
  }

  /** Reading a rendered sum stops in the loop of `getSum` just after it. */
  lemma {:induction false} SumPrefix(e: Sum, s: string, pos: nat)
    requires WellFormedSum(e)
    requires Occurs(s, pos, RenderSum(e)) && !ContinuesProduct(At(s, pos + |RenderSum(e)|))
    ensures ParseSum(s, pos) == SumLoop(s, pos + |RenderSum(e)|, EvalSum(e))
    decreases e, 1
  {
    hide SumLoop, ParseProduct, ProductLoop, ParseSubExpr, ParseNum, ReadDigits, EvalProduct, EvalAtom, RenderProduct, RenderAtom, ApplyAdd, ApplyMul, Make, Reduce, Occurs;
    if e.Term? {
      ProductRoundTrip(e.product, s, pos);
    } else {
      AddChainPrefix(e, s, pos);
    }
  }

  lemma {:induction false} AddChainPrefix(e: Sum, s: string, pos: nat)
    requires e.AddChain? && WellFormedSum(e)
    requires Occurs(s, pos, RenderSum(e)) && !ContinuesProduct(At(s, pos + |RenderSum(e)|))
    ensures ParseSum(s, pos) == SumLoop(s, pos + |RenderSum(e)|, EvalSum(e))
    decreases e, 0
  {
    hide ApplyMul, ApplyAdd, Make, Reduce, ParseSubExpr, ParseProduct, ProductLoop, ParseNum, EvalAtom, EvalProduct, RenderAtom, RenderProduct;
    hide Occurs, At, ParseSum, SumLoop;
    var l := RenderSum(e.left);
    var k := pos + |l|;
    assert RenderSum(e) == l + [e.op] + RenderProduct(e.right);
    OccursSplit(s, pos, l + [e.op], RenderProduct(e.right));
    OccursSplit(s, pos, l, [e.op]);
    OccursAt(s, k, [e.op], 0);
    SumPrefix(e.left, s, pos);
    ProductRoundTrip(e.right, s, k + 1);
    SumLoopStep(s, k, EvalSum(e.left));
  }

  /** One turn of the loop of `getSum`. */
  lemma SumLoopStep(s: string, k: nat, acc: Rational)
    requires At(s, k) == '+' || At(s, k) == '-'
    ensures var other := ParseProduct(s, k + 1);
            SumLoop(s, k, acc) == SumLoop(s, other.pos, ApplyAdd(At(s, k), acc, other.value))
  {
  }

  /** The reader applied to a rendered sum returns its value and stops right
      after it, whatever follows, provided that does not continue the sum. */
  lemma {:induction false} SumRoundTrip(e: Sum, s: string, pos: nat)
    requires WellFormedSum(e)
    requires Occurs(s, pos, RenderSum(e)) && !ContinuesSum(At(s, pos + |RenderSum(e)|))
    ensures ParseSum(s, pos) == Parsed(EvalSum(e), pos + |RenderSum(e)|)
    decreases e, 2
  {
    hide ParseSum, ParseProduct, ProductLoop, ParseSubExpr, ParseNum, ReadDigits, EvalSum, EvalProduct, EvalAtom, RenderSum, RenderProduct, RenderAtom, ApplyAdd, ApplyMul, Make, Reduce, Occurs;
    SumPrefix(e, s, pos);
  }

  /** A group that runs to the end of the text is read as if it were closed:
      the closing character that is not there is skipped all the same. */
  lemma UnterminatedGroup(s: string, pos: nat, v: Rational)
    requires At(s, pos) == '(' && ParseSum(s, pos + 1) == Parsed(v, |s|)
    ensures ParseSum(s, pos) == Parsed(v, |s| + 1)
  {
    hide ApplyAdd, ApplyMul, ParseNum;
    assert ParseSubExpr(s, pos) == Parsed(v, |s| + 1);
    assert ParseProduct(s, pos) == Parsed(v, |s| + 1);
  }

  /** The constructor reads back every rendered expression without spaces. */
  lemma ParseRender(e: Sum)
    requires WellFormedSum(e)
    requires forall i :: 0 <= i < |RenderSum(e)| ==> RenderSum(e)[i] != ' '
    ensures Parse(RenderSum(e)) == EvalSum(e)
  {
    var s := RenderSum(e);
    StripSpacesUnchanged(s);
    assert s[0..|s|] == s;
    SumRoundTrip(e, s, 0);
  }
}
