/** Worked readings of the string constructor: precedence, grouping, signs,
    spaces, and the inputs the reader accepts without complaint. */
module ParserExamples {
  import opened Divisibility
  import opened Rationals
  import opened Expressions
  import opened Parser

  function Digits(d: string): Atom {
    Number(Numeral(false, d))
  }

  /** `*` binds tighter than `+`. */
  lemma Precedence()
    ensures Parse("2+3*4") == FromInt(14)
  {
    hide ParseSum, SumLoop, ParseProduct, ProductLoop, ParseSubExpr, ParseNum, ReadDigits, Parse, Make, Reduce, Gcd, Add, Sub, Mul, Div;
    var e := AddChain(Term(Factor(Digits("2"))), '+', MulChain(Factor(Digits("3")), '*', Digits("4")));
    assert RenderSum(e) == "2+3*4";
    ParseRender(e);
    MulWhole(3, 4);
    AddWhole(2, 12);
  }

  /** Operators of one level apply from left to right. */
  lemma LeftToRight()
    ensures Parse("8-2-1") == FromInt(5)
  {
    hide ParseSum, SumLoop, ParseProduct, ProductLoop, ParseSubExpr, ParseNum, ReadDigits, Parse, Make, Reduce, Gcd, Add, Sub, Mul, Div;
    var e := AddChain(AddChain(Term(Factor(Digits("8"))), '-', Factor(Digits("2"))), '-', Factor(Digits("1")));
    assert RenderSum(e) == "8-2-1";
    ParseRender(e);
    SubWhole(8, 2);
    SubWhole(6, 1);
  }

  /** A parenthesised sum is one operand. */
  lemma Grouping()
    ensures Parse("(1+1)/2") == FromInt(1)
  {
    hide ParseSum, SumLoop, ParseProduct, ProductLoop, ParseSubExpr, ParseNum, ReadDigits, Parse, Make, Reduce, Gcd, Add, Sub, Mul, Div;
    var e := Term(MulChain(Factor(Group(AddChain(Term(Factor(Digits("1"))), '+', Factor(Digits("1"))), ')')), '/', Digits("2")));
    assert RenderSum(e) == "(1+1)/2";
    ParseRender(e);
    AddWhole(1, 1);
    DivWhole(2, 2);
    MakeCanonical(1, 1);
    assert Make(2, 2) == Make(1, 1) by {
      ValueOfMake(2, 2);
      ValueOfMake(1, 1);
      ToRealInjective(Make(2, 2), Make(1, 1));
    }
  }

  /** A leading minus belongs to the number; the quotient is reduced. */
  lemma NegativeQuotient()
    ensures Parse("-6/4") == Rational(-3, 2)
  {
    hide ParseSum, SumLoop, ParseProduct, ProductLoop, ParseSubExpr, ParseNum, ReadDigits, Parse, Make, Reduce, Gcd, Add, Sub, Mul, Div;
    var e := Term(MulChain(Factor(Number(Numeral(true, "6"))), '/', Digits("4")));
    assert RenderSum(e) == "-6/4";
    ParseRender(e);
    DivWhole(-6, 4);
    MakeCanonical(-3, 2);
    ValueOfMake(-6, 4);
    ValueOfMake(-3, 2);
    ToRealInjective(Make(-6, 4), Make(-3, 2));
  }

  /** `"-6/3"` reads as the whole number `-2/1`. */
  lemma NegativeWholeQuotient()
    ensures Parse("-6/3") == Rational(-2, 1)
  {
    hide ParseSum, SumLoop, ParseProduct, ProductLoop, ParseSubExpr, ParseNum, ReadDigits, Parse, Make, Reduce, Gcd, Add, Sub, Mul, Div;
    var e := Term(MulChain(Factor(Number(Numeral(true, "6"))), '/', Digits("3")));
    assert RenderSum(e) == "-6/3";
    ParseRender(e);
    DivWhole(-6, 3);
    MakeCanonical(-2, 1);
    ValueOfMake(-6, 3);
    ValueOfMake(-2, 1);
    ToRealInjective(Make(-6, 3), Make(-2, 1));
  }

  lemma Addition()
    ensures Parse("1+2") == FromInt(3)
  {
    hide ParseSum, SumLoop, ParseProduct, ProductLoop, ParseSubExpr, ParseNum, ReadDigits, Parse, Make, Reduce, Gcd, Add, Sub, Mul, Div;
    var e := AddChain(Term(Factor(Digits("1"))), '+', Factor(Digits("2")));
    assert RenderSum(e) == "1+2";
    ParseRender(e);
    AddWhole(1, 2);
  }

  /** Spaces are dropped before reading. */
  lemma Spaces()
    ensures Parse(" 1 + 2 ") == FromInt(3)
  {
    hide Parse, RenderSum, EvalSum;
    ParseIgnoresSpaces(" 1 + 2 ");
    assert StripSpaces(" 1 + 2 ") == "1+2";
    Addition();
  }

  /** Nothing checks the divisor: `1/0` reads as the non-canonical 1/0. */
  lemma DivisionByZeroRead()
    ensures Parse("1/0") == Rational(1, 0)
  {
    hide ParseSum, SumLoop, ParseProduct, ProductLoop, ParseSubExpr, ParseNum, ReadDigits, Parse, Make, Reduce, Gcd, Add, Sub, Mul, Div;
    var e := Term(MulChain(Factor(Digits("1")), '/', Digits("0")));
    assert RenderSum(e) == "1/0";
    ParseRender(e);
    assert Valid(FromInt(0));
  }

  /** The character after a parenthesised sum is skipped unexamined. */
  lemma AnyCloser()
    ensures Parse("(1+2]") == FromInt(3)
  {
    hide ParseSum, SumLoop, ParseProduct, ProductLoop, ParseSubExpr, ParseNum, ReadDigits, Parse, Make, Reduce, Gcd, Add, Sub, Mul, Div;
    var e := Term(Factor(Group(AddChain(Term(Factor(Digits("1"))), '+', Factor(Digits("2"))), ']')));
    assert RenderSum(e) == "(1+2]";
    ParseRender(e);
    AddWhole(1, 2);
  }

  /** Reading stops at the first character that continues nothing; the rest is ignored. */
  lemma TrailingText()
    ensures Parse("7x+1") == FromInt(7)
  {
    hide ParseNum, ReadDigits, Make, Reduce, Gcd, Add, Sub, Mul, Div;
    var s := "7x+1";
    StripSpacesUnchanged(s);
    var e := Term(Factor(Digits("7")));
    assert RenderSum(e) == "7";
    assert Occurs(s, 0, "7");
    SumRoundTrip(e, s, 0);
  }

  /** A missing closing parenthesis is not noticed. */
  lemma Unterminated()
    ensures Parse("(1+2") == FromInt(3)
  {
    hide ParseSum, SumLoop, ParseProduct, ProductLoop, ParseSubExpr, ParseNum, ReadDigits, Make, Reduce, Gcd, Add, Sub, Mul, Div;
    hide RenderSum, EvalSum, Occurs;
    var s := "(1+2";
    StripSpacesUnchanged(s);
    OpenSum();
    UnterminatedGroup(s, 0, FromInt(3));
  }

  lemma OpenSum()
    ensures ParseSum("(1+2", 1) == Parsed(FromInt(3), 4)
  {
    hide ParseSum, SumLoop, ParseProduct, ProductLoop, ParseSubExpr, ParseNum, ReadDigits, Make, Reduce, Gcd, Add, Sub, Mul, Div;
    var inner := AddChain(Term(Factor(Digits("1"))), '+', Factor(Digits("2")));
    assert RenderSum(inner) == "1+2";
    assert Occurs("(1+2", 1, "1+2");
    SumRoundTrip(inner, "(1+2", 1);
    AddWhole(1, 2);
  }

  /** An empty text reads as zero. */
  lemma EmptyText()
    ensures Parse("") == FromInt(0)
  {
    assert StripSpaces("") == "";
    assert ReadDigits("", 0, 0) == (0, 0);
    assert ParseNum("", 0) == Parsed(FromInt(0), 0);
  }

  /** A minus sign applies to digits only: before a parenthesis it reads as
      the number 0 and reading stops there. */
  lemma MinusBeforeGroup()
    ensures Parse("-(2)") == FromInt(0)
  {
    hide Make, Reduce, Gcd, Add, Sub, Mul, Div;
    var s := "-(2)";
    StripSpacesUnchanged(s);
    assert ReadDigits(s, 1, 0) == (0, 1);
    assert ParseNum(s, 0) == Parsed(FromInt(0), 1);
    assert ParseSubExpr(s, 0) == Parsed(FromInt(0), 1);
  }
}
