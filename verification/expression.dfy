/** The arithmetic expressions the string constructor of rational.h reads:
    sums of products of integers and parenthesised sums, evaluated left to
    right with `*` and `/` binding tighter than `+` and `-`.

    The syntax tree, its text and its value are defined here independently
    of the reading functions, which are proved against them. */
module Expressions {
  import opened Rationals

  predicate IsDigit(c: char) {
    '0' <= c <= '9'
  }

  function DigitValue(c: char): int {
    c as int - '0' as int
  }

  /** Reading the digits `d` after the digits already read into `acc`:
      `num = num * 10 + digit` for each digit in turn. */
  function DigitsFrom(acc: int, d: string): int
    decreases |d|
  {
    if |d| == 0 then acc else DigitsFrom(acc * 10 + DigitValue(d[0]), d[1..])
  }

  /** The number a digit string denotes. */
  function DigitsValue(d: string): int {
    DigitsFrom(0, d)
  }

  /** Positional notation: a further digit on the right multiplies the value so far by ten. */
  lemma {:induction false} DigitsFromSnoc(acc: int, d: string, c: char)
    ensures DigitsFrom(acc, d + [c]) == DigitsFrom(acc, d) * 10 + DigitValue(c)
    decreases |d|
  {
    if |d| == 0 {
      assert (d + [c])[1..] == [];
    } else {
      assert (d + [c])[1..] == d[1..] + [c];
      DigitsFromSnoc(acc * 10 + DigitValue(d[0]), d[1..], c);
    }
  }

  // ---------------------------------------------------------------------
  // Syntax

  /** An optional minus sign followed by decimal digits. */
  datatype Numeral = Numeral(negative: bool, digits: string)

  /** A number, or a parenthesised sum whose closing character is kept:
      the reader skips that character without looking at it. */
  datatype Atom = Number(numeral: Numeral) | Group(inner: Sum, closer: char)

  /** Atoms joined by `*` or `/`, grouped to the left. */
  datatype Product = Factor(atom: Atom) | MulChain(left: Product, op: char, right: Atom)

  /** Products joined by `+` or `-`, grouped to the left. */
  datatype Sum = Term(product: Product) | AddChain(left: Sum, op: char, right: Product)

  /** A character that cannot end a product: it would continue it. */
  predicate ContinuesProduct(c: char) {
    c == '*' || c == '/' || IsDigit(c)
  }

  /** A character that cannot end a sum. */
  predicate ContinuesSum(c: char) {
    ContinuesProduct(c) || c == '+' || c == '-'
  }

  predicate WellFormedNumeral(n: Numeral) {
    |n.digits| > 0 && forall i :: 0 <= i < |n.digits| ==> IsDigit(n.digits[i])
  }

  predicate WellFormedAtom(a: Atom) {
    match a
    case Number(n) => WellFormedNumeral(n)
    case Group(inner, closer) => WellFormedSum(inner) && !ContinuesSum(closer)
  }

  predicate WellFormedProduct(p: Product) {
    match p
    case Factor(a) => WellFormedAtom(a)
    case MulChain(left, op, right) =>
      (op == '*' || op == '/') && WellFormedProduct(left) && WellFormedAtom(right)
  }

  predicate WellFormedSum(e: Sum) {
    match e
    case Term(p) => WellFormedProduct(p)
    case AddChain(left, op, right) =>
      (op == '+' || op == '-') && WellFormedSum(left) && WellFormedProduct(right)
  }

  // ---------------------------------------------------------------------
  // Text

  function RenderNumeral(n: Numeral): string {
    (if n.negative then "-" else "") + n.digits
  }

  function RenderAtom(a: Atom): string {
    match a
    case Number(n) => RenderNumeral(n)
    case Group(inner, closer) => "(" + RenderSum(inner) + [closer]
  }

  function RenderProduct(p: Product): string {
    match p
    case Factor(a) => RenderAtom(a)
    case MulChain(left, op, right) => RenderProduct(left) + [op] + RenderAtom(right)
  }

  function RenderSum(e: Sum): string {
    match e
    case Term(p) => RenderProduct(p)
    case AddChain(left, op, right) => RenderSum(left) + [op] + RenderProduct(right)
  }

  // ---------------------------------------------------------------------
  // Value, with the operators of rational.h

  /** `res += other` or `res -= other`, chosen by the operator character. */
  function ApplyAdd(op: char, x: Rational, y: Rational): (r: Rational)
    ensures Extended(r)
    ensures Valid(x) && Valid(y) && op == '+' ==> Valid(r) && ToReal(r) == ToReal(x) + ToReal(y)
    ensures Valid(x) && Valid(y) && op != '+' ==> Valid(r) && ToReal(r) == ToReal(x) - ToReal(y)
  {
    if op == '+' then Add(x, y) else Sub(x, y)
  }

  /** `res *= other` or `res /= other`, chosen by the operator character. */
  function ApplyMul(op: char, x: Rational, y: Rational): (r: Rational)
    ensures Extended(r)
    ensures Valid(x) && Valid(y) && op == '*' ==> Valid(r) && ToReal(r) == ToReal(x) * ToReal(y)
    ensures Valid(x) && Valid(y) && op != '*' && y.a != 0 ==> Valid(r) && ToReal(r) == ToReal(x) / ToReal(y)
  {
    if op == '*' then Mul(x, y) else Div(x, y)
  }

  /** A numeral is read as the fraction ±1 times the integer its digits denote. */
  function NumeralFraction(negative: bool, n: int): (r: Rational)
    ensures r == FromInt(if negative then -n else n)
  {
    var sign := FromInt(if negative then -1 else 1);
    IntValue(if negative then -1 else 1);
    IntValue(n);
    IntValue(if negative then -n else n);
    MulByValue(sign, FromInt(n), n);
    ToRealInjective(Mul(sign, FromInt(n)), FromInt(if negative then -n else n));
    Mul(sign, FromInt(n))
  }

  function EvalNumeral(n: Numeral): Rational {
    NumeralFraction(n.negative, DigitsValue(n.digits))
  }

  function EvalAtom(a: Atom): (r: Rational)
    ensures Extended(r)
  {
    match a
    case Number(n) => EvalNumeral(n)
    case Group(inner, _) => EvalSum(inner)
  }

  function EvalProduct(p: Product): (r: Rational)
    ensures Extended(r)
  {
    match p
    case Factor(a) => EvalAtom(a)
    case MulChain(left, op, right) => ApplyMul(op, EvalProduct(left), EvalAtom(right))
  }

  function EvalSum(e: Sum): (r: Rational)
    ensures Extended(r)
  {
    match e
    case Term(p) => EvalProduct(p)
    case AddChain(left, op, right) => ApplyAdd(op, EvalSum(left), EvalProduct(right))
  }
}
