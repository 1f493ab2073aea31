# Exact fractions and polynomials, modelled in Dafny

This project models the two value types of a small C++ header library for
exact arithmetic and proves their algebraic contracts.

- **`Rational`** (rational.h) is a fraction `a/b` kept in canonical form:
  - the denominator is positive;
  - numerator and denominator are coprime;
  - zero is `0/1`.
  Every binary and compound arithmetic operator rebuilds its result through the
  normalising constructor; unary `+` returns its operand unchanged.
- **The string constructor of `Rational`** (rational.h) strips spaces and runs a
  recursive-descent reader. It handles `+ - * /`, parentheses and signed numerals.
- **`Polynomial<T>`** (polynomial.h) is a coefficient vector in ascending powers,
  kept canonical by `deleteNulls`: non-empty, with no trailing zero except the
  single coefficient of the zero polynomial. Its operations are:
  - indexing;
  - degree, with -1 for zero;
  - comparison;
  - sum, difference, scalar product and convolution product;
  - evaluation and composition;
  - long division and remainder;
  - the monic `reduce`;
  - a Euclidean gcd, spelled `operator,`.

Modules, in dependency order:

| module | file | content |
|---|---|---|
| `Divisibility` | divisibility.dfy | integer divisibility and Euclid's gcd (the `std::gcd` the fraction constructor calls) |
| `Rationals` | rational.dfy | the fraction type, constructor, operators, comparisons, increments |
| `Expressions` | expression.dfy | a syntax tree for the expressions the reader accepts, its rendering as text and its value |
| `Parser` | parser.dfy | the reader's branches over text as a sequence of characters, and the round trip "reading a rendered tree gives its value" |
| `ParserExamples` | parser_examples.dfy | readings of concrete strings, including the edge cases |
| `Sums` | sums.dfy | finite sums of reals |
| `Coefficients` | coefficients.dfy | zero-padded coefficient vectors, `deleteNulls`, Horner's value and power sums |
| `Convolutions` | convolution.dfy | the convolution sum of the product, its ring laws and its value |
| `Polynomials` | polynomial.dfy | the polynomial type and every operator except division, `reduce` and gcd |
| `PolynomialDivision` | division.dfy | `operator/` and `operator%` |
| `PolynomialGcd` | gcd.dfy | `reduce`, divisibility and `operator,` |
| `PolynomialExamples` | polynomial_examples.dfy | products, quotients, a gcd and a composition of concrete polynomials |
| `PolynomialFindings` | findings.dfy | `p *= p`, see Findings |

Modelling choices:
- Numerators and denominators are unbounded `int`.
- The coefficient type `T` is Dafny's exact `real`.
- Operators are total where the source's are:
  - a fraction divided by zero is modelled as the source computes it: `x/0` is `0/1` when `x` is zero, and `1/0` or `-1/0` otherwise;
  - the reader carries such values on.
- A polynomial is a datatype around its vector. `Valid` is the canonical form.
  Raw, non-canonical vectors occur only where the source builds one: the
  monomial `delt` of the division loop.

## Model

| member | source | states |
|---|---|---|
| Divisibility.Gcd | rational.h:24 | the gcd of two naturals, not both zero, divides both |
| Divisibility.GcdGreatest | rational.h:24 | every common divisor of the two arguments divides their gcd |
| Divisibility.GcdOfQuotients | rational.h:23-27 | dividing both components by their gcd leaves coprime components, which is why `reduce` produces lowest terms |
| Rationals.Reduce | rational.h:23-27 | the reduced pair has the same ratio (`r.a * b == a * r.b`); with a positive denominator it is canonical; with a zero denominator it is `1/0` or `-1/0` |
| Rationals.Make | rational.h:37-47 | a nonzero denominator gives a canonical fraction of the same value; a zero numerator gives `0/1` whatever the denominator, negative ones included; a nonzero numerator over zero gives `±1/0` |
| Rationals.MakeExtended | rational.h:37-47 | every constructor call yields a canonical fraction or one of `1/0`, `-1/0` |
| Rationals.ValueOfMake | rational.h:37-47 | the constructed fraction stands for `numer / denom` |
| Rationals.MakeCanonical | rational.h:37-47 | building from a pair already in canonical form returns that pair |
| Rationals.FromInt | rational.h:37 | the default denominator 1 gives `n/1`, canonical |
| Rationals.CanonicalUnique | rational.h:23-47 | two canonical fractions with equal cross products are identical |
| Rationals.ToRealInjective | rational.h:23-47 | two canonical fractions with the same value are identical |
| Rationals.Plus | rational.h:114-116 | unary `+` keeps the value |
| Rationals.Neg | rational.h:118-120 | unary `-` on a canonical fraction is `-a/b`, canonical, with the negated value |
| Rationals.Add | rational.h:122-126 | the sum of canonical fractions is canonical and equals the exact sum |
| Rationals.Sub | rational.h:136-138 | `fir + (-sec)` is canonical and equals the exact difference |
| Rationals.Mul | rational.h:148-151 | the product of canonical fractions is canonical and equals the exact product |
| Rationals.Div | rational.h:161-163 | a nonzero divisor gives the exact quotient in canonical form; a zero divisor gives `0/1` for a zero dividend and `±1/0` otherwise |
| Rationals.ReciprocalValue | rational.h:161-163 | `Rational(b, a)` of a canonical nonzero `a/b` is canonical and its product with `a/b` is 1 |
| Rationals.DivisionByZero | rational.h:161-163 | multiplying by the "reciprocal" `1/0` of a zero divisor gives `0/1` or `±1/0` |
| Rationals.DivMulRoundTrip | rational.h:148-163 | `(x / y) * y == x` for canonical `x` and canonical nonzero `y` |
| Rationals.Equal | rational.h:173-176 | `==` compares numerators and denominators; no ensures of its own, EqualIffSameValue states that on canonical fractions this is equality of values |
| Rationals.NotEqual | rational.h:178-180 | `!=` is the negation of `==`; no ensures of its own, EqualIffSameValue gives its meaning |
| Rationals.Less | rational.h:182-185 | `<` tests the sign of the numerator of `x - y`; no ensures of its own, LessIffCross states it is the order of the values |
| Rationals.Greater | rational.h:187-189 | `>` is `<` with the operands swapped; no ensures of its own, GreaterIffCross gives its meaning |
| Rationals.EqualIffSameValue | rational.h:173-180 | on canonical fractions, component equality holds exactly when the cross products, and so the values, are equal |
| Rationals.LessIffCross | rational.h:182-185 | `x < y` (sign of the numerator of `x - y`) holds exactly when `x.a * y.b < y.a * x.b`, that is when the value of `x` is smaller |
| Rationals.GreaterIffCross | rational.h:187-189 | `x > y` is `y < x`: exactly when the value of `x` is larger |
| Rationals.Trichotomy | rational.h:173-189 | on canonical fractions exactly one of `<`, `==`, `>` holds |
| Rationals.PreIncrement | rational.h:91-94 | `++x` is `(a + b)/b` |
| Rationals.PostIncrement | rational.h:96-100 | `x++` returns the old value, and the new state is `(a + b)/b` |
| Rationals.PreDecrement | rational.h:102-105 | `--x` is `(a - b)/b` |
| Rationals.PostDecrement | rational.h:107-111 | `x--` returns the old value, and the new state is `(a - b)/b` |
| Rationals.AddInt | rational.h:128-130 | `x + n` is `(a + n*b)/b` |
| Rationals.IntAdd | rational.h:132-134 | `n + x` is `(a + n*b)/b` |
| Rationals.SubInt | rational.h:140-142 | `x - n` is `(a - n*b)/b` |
| Rationals.IntSub | rational.h:144-146 | `n - x` is `(n*b - a)/b` |
| Rationals.MulInt | rational.h:153-155 | `x * n` is canonical with value `x * n` |
| Rationals.IntMul | rational.h:157-159 | `n * x` is canonical with value `n * x` |
| Rationals.DivInt | rational.h:165-167 | `x / n` for nonzero `n` is canonical with value `x / n` |
| Rationals.IntDiv | rational.h:169-171 | `n / x` for nonzero `x` is canonical with value `n / x` |
| Rationals.AddWhole | rational.h:122-126 | whole numbers add as integers |
| Rationals.SubWhole | rational.h:136-138 | whole numbers subtract as integers |
| Rationals.MulWhole | rational.h:148-151 | whole numbers multiply as integers |
| Rationals.DivWhole | rational.h:161-163 | the quotient of whole numbers is the fraction `m/n` in lowest terms |
| Expressions.ApplyAdd | rational.h:245-249 | `+` adds and any other operator subtracts, exactly, on canonical operands |
| Expressions.ApplyMul | rational.h:264-268 | `*` multiplies and any other operator divides, exactly for a nonzero divisor |
| Expressions.NumeralFraction | rational.h:288-301 | a numeral reads as its digits' value, negated after a leading minus, over 1 |
| Expressions.DigitsFromSnoc | rational.h:296-300 | each further digit multiplies the running value by 10 and adds the digit |
| Parser.StripSpaces | rational.h:50-57 | no space is left in the stripped text |
| Parser.StripSpacesContents | rational.h:50-57 | exactly the spaces are removed: every other character keeps its count |
| Parser.StripSpacesAppend | rational.h:50-57 | stripping works character by character, so it distributes over concatenation |
| Parser.ParseIgnoresSpaces | rational.h:50-61 | reading a text is reading it with its spaces removed |
| Parser.Parse | rational.h:50-61 | every reading is a canonical fraction or `±1/0` |
| Parser.ParseSum | rational.h:237-252 | reads a product, then folds the `+`/`-` tail; own ensures: the position never moves back and the value is canonical or `±1/0`; SumRoundTrip states the value |
| Parser.SumLoop | rational.h:241-250 | the `while` of getSum, applying `+` on `'+'` and `-` otherwise; own ensures: the position never moves back and canonical-or-`±1/0` is kept |
| Parser.ParseProduct | rational.h:256-271 | reads a sub-expression, then folds the `*`/`/` tail; own ensures: the position never moves back and the value is canonical or `±1/0`; ProductRoundTrip states the value |
| Parser.ProductLoop | rational.h:260-269 | the `while` of getProduct, applying `*` on `'*'` and `/` otherwise; own ensures: the position never moves back and canonical-or-`±1/0` is kept |
| Parser.ParseSubExpr | rational.h:274-284 | a `(` starts a group whose closer is skipped unchecked, anything else is a numeral; own ensures: the position never moves back and the value is canonical or `±1/0`; AtomRoundTrip states the value |
| Parser.ReadDigits | rational.h:296-300 | the digit loop of getNum; own ensures: the position never moves back; ReadDigitsRoundTrip states the value it accumulates |
| Parser.ParseNum | rational.h:287-303 | a numeral reads as its sign times the value of the digits that follow; no digits read as 0 |
| Parser.ReadDigitsRoundTrip | rational.h:295-300 | the digit loop consumes exactly a maximal run of digits and accumulates their decimal value |
| Parser.NumeralRoundTrip | rational.h:287-303 | reading a rendered numeral gives its value and stops right after it |
| Parser.AtomRoundTrip | rational.h:274-284 | reading a rendered number or parenthesised sum gives its value; the character after the inner sum is skipped whatever it is |
| Parser.ProductRoundTrip | rational.h:256-271 | reading a rendered product folds `*` and `/` left to right and stops at the first character that cannot continue it |
| Parser.SumRoundTrip | rational.h:237-252 | reading a rendered sum folds `+` and `-` over products left to right and stops at the first character that cannot continue it |
| Parser.ParseRender | rational.h:50-61 | the string constructor applied to a rendered expression without spaces gives the expression's value |
| Parser.UnterminatedGroup | rational.h:274-284 | a parenthesised sum that runs to the end of the text is accepted; the missing closer is not noticed |
| ParserExamples.Precedence | rational.h:237-271 | `"2+3*4"` reads as 14 |
| ParserExamples.LeftToRight | rational.h:237-252 | `"8-2-1"` reads as 5 |
| ParserExamples.Grouping | rational.h:274-284 | `"(1+1)/2"` reads as 1 |
| ParserExamples.NegativeQuotient | rational.h:287-303 | `"-6/4"` reads as `-3/2` |
| ParserExamples.NegativeWholeQuotient | rational.h:287-303 | `"-6/3"` reads as the whole number `-2/1` |
| ParserExamples.Spaces | rational.h:50-57 | `" 1 + 2 "` reads as 3 |
| ParserExamples.DivisionByZeroRead | rational.h:264-268 | `"1/0"` reads as the non-canonical `1/0` |
| ParserExamples.AnyCloser | rational.h:274-284 | `"(1+2]"` reads as 3 |
| ParserExamples.TrailingText | rational.h:58-60 | `"7x+1"` reads as 7: the unread tail is ignored |
| ParserExamples.Unterminated | rational.h:274-284 | `"(1+2"` reads as 3 |
| ParserExamples.EmptyText | rational.h:287-303 | the empty text reads as 0 |
| ParserExamples.MinusBeforeGroup | rational.h:287-303 | `"-(2)"` reads as 0: the minus is a numeral's sign with no digits after it |
| Coefficients.DeleteNulls | polynomial.h:17-24 | the result is canonical, has the same coefficient at every index, and is no longer than the input, except that an empty input becomes `{0}` |
| Coefficients.CanonicalUnique | polynomial.h:17-24 | two canonical vectors with the same coefficients are equal |
| Coefficients.DeleteNullsCanonical | polynomial.h:17-24 | a canonical vector is left unchanged |
| Coefficients.DeleteNullsIdempotent | polynomial.h:17-24 | cleaning twice is cleaning once |
| Coefficients.DeleteNullsSame | polynomial.h:17-24 | vectors with the same coefficients are cleaned to the same vector |
| Coefficients.PowerSumIsValue | polynomial.h:81-90 | the sum of the terms `c[i] * x^i` equals Horner's value |
| Coefficients.ValueLinear | polynomial.h:81-90 | the value is linear in the coefficient vector |
| Convolutions.ConvZeroBeyond | polynomial.h:139-147 | the convolution vanishes from index `m + n - 1` on, so a buffer of that length loses no term |
| Convolutions.ConvCommutes | polynomial.h:142-147 | the convolution sum is symmetric in its two vectors |
| Convolutions.ConvAssociative | polynomial.h:142-147 | convolving with a product on the right equals convolving the product on the left |
| Convolutions.ConvMonomial | polynomial.h:142-147 | convolving with `t * x^p` shifts by `p` and scales by `t` |
| Convolutions.ValueConv | polynomial.h:81-90 | the value of a convolution product is the product of the values |
| Polynomials.At | polynomial.h:73-79 | `p[i]` is the stored coefficient inside the vector and zero beyond it |
| Polynomials.Constant | polynomial.h:44-46 | `Polynomial(val)` is canonical with `val` at index 0 and zero elsewhere |
| Polynomials.FromCoefficients | polynomial.h:39-55 | the vector and range constructors give a canonical polynomial with the given coefficient at every index |
| Polynomials.FromCoefficientsRoundTrip | polynomial.h:39-42 | constructing from the vector of a canonical polynomial gives it back |
| Polynomials.FromCoefficientsPadded | polynomial.h:39-42 | trailing zeros in the vector do not change the polynomial |
| Polynomials.Extensionality | polynomial.h:101-103 | canonical polynomials with the same coefficients are equal |
| Polynomials.Degree | polynomial.h:92-99 | the degree is -1 exactly for the zero polynomial; otherwise the coefficient at the degree is nonzero and all above it are zero |
| Polynomials.ZeroIffNoCoefficients | polynomial.h:92-99 | a canonical polynomial is zero exactly when every coefficient is zero |
| Polynomials.Equal | polynomial.h:101-103 | `==` compares the coefficient vectors; no ensures of its own, EqualIffSameCoefficients states it is coefficientwise equality |
| Polynomials.NotEqual | polynomial.h:105-107 | `!=` is the negation of `==`; no ensures of its own, EqualIffSameCoefficients gives its meaning |
| Polynomials.EqualIffSameCoefficients | polynomial.h:101-107 | on canonical polynomials `==` holds exactly when all coefficients agree, and `!=` exactly when one differs |
| Polynomials.EqualsScalar | polynomial.h:237-239 | `p == s` compares with `Polynomial(s)`; no ensures of its own, EqualsScalarIff gives its meaning |
| Polynomials.NotEqualsScalar | polynomial.h:242-244 | `p != s` compares with `Polynomial(s)`; no ensures of its own, EqualsScalarIff gives its meaning |
| Polynomials.ScalarEquals | polynomial.h:247-249 | `s == p` compares `Polynomial(s)` with `p`; no ensures of its own, EqualsScalarIff gives its meaning |
| Polynomials.ScalarNotEquals | polynomial.h:252-254 | `s != p` compares `Polynomial(s)` with `p`; no ensures of its own, EqualsScalarIff gives its meaning |
| Polynomials.EqualsScalarIff | polynomial.h:236-254 | comparing with a scalar `s` holds exactly when the degree is at most 0 and `p[0] == s`, in all four operand orders |
| Polynomials.Add | polynomial.h:109-117 | the sum is canonical and `(p + q)[i] == p[i] + q[i]` at every index |
| Polynomials.Sub | polynomial.h:124-132 | the difference is canonical and `(p - q)[i] == p[i] - q[i]` at every index |
| Polynomials.AddScalar | polynomial.h:119-122 | `p + s` changes only the constant term |
| Polynomials.ScalarAdd | polynomial.h:268-271 | `s + p` changes only the constant term |
| Polynomials.SubScalar | polynomial.h:134-137 | `p - s` changes only the constant term |
| Polynomials.ScalarSub | polynomial.h:285-288 | `s - p` is `s` minus the constant term, and the other coefficients negated |
| Polynomials.SubUndoesAdd | polynomial.h:109-132 | `(p + q) - q == p` |
| Polynomials.AddCommutes | polynomial.h:256-261 | `p + q == q + p` |
| Polynomials.AddZero | polynomial.h:256-261 | adding zero gives a canonical polynomial back |
| Polynomials.BufferLargeEnough | polynomial.h:139-141 | the buffer of `m*n` entries is at least the `m+n-1` a product needs |
| Polynomials.Mul | polynomial.h:139-150 | the product is canonical and its `k`-th coefficient is the sum over `i + j == k` of `p[i] * q[j]` |
| Polynomials.MulAt | polynomial.h:139-150 | the coefficients of the product are the convolution sums |
| Polynomials.Scale | polynomial.h:152-158 | `p *= s` multiplies every coefficient by `s` and leaves a canonical vector |
| Polynomials.MulScalar | polynomial.h:297-300 | `p * s` multiplies every coefficient by `s` |
| Polynomials.ScalarMul | polynomial.h:302-305 | `s * p` multiplies every coefficient by `s` |
| Polynomials.ScaleIsMulScalar | polynomial.h:152-158 | scaling in place agrees with multiplying by the constant polynomial |
| Polynomials.Plus | polynomial.h:172-174 | unary `+` returns the polynomial |
| Polynomials.Neg | polynomial.h:176-178 | unary `-` negates every coefficient |
| Polynomials.AddNeg | polynomial.h:176-178 | `p + (-p)` is zero |
| Polynomials.MulCommutes | polynomial.h:290-295 | `p * q == q * p` |
| Polynomials.MulAssociative | polynomial.h:290-295 | `(p * q) * s == p * (q * s)` |
| Polynomials.MulDistributesAdd | polynomial.h:290-295 | `p * (q + s) == p*q + p*s` |
| Polynomials.MulDistributesSub | polynomial.h:290-295 | `p * (q - s) == p*q - p*s` |
| Polynomials.MulOne | polynomial.h:297-300 | multiplying by the constant 1 gives a canonical polynomial back |
| Polynomials.MulZero | polynomial.h:152-158 | scaling in place by 0, like multiplying by the zero polynomial, gives the zero polynomial |
| Polynomials.DegreeMul | polynomial.h:139-150 | the degree of a product of nonzero polynomials is the sum of the degrees, and its leading coefficient is the product of theirs |
| Polynomials.Eval | polynomial.h:81-90 | the loop `ans += cur * c[i]; cur *= x` computes Horner's value of the vector |
| Polynomials.ValueAdd | polynomial.h:109-117 | the value of a sum is the sum of the values |
| Polynomials.ValueSub | polynomial.h:124-132 | the value of a difference is the difference of the values |
| Polynomials.ValueMul | polynomial.h:139-150 | the value of a product is the product of the values |
| Polynomials.ComposeFrom | polynomial.h:164-167 | the loop `ans += cur * c[i]; cur *= other` from index 1; no ensures of its own, ComposeValue states what it computes |
| Polynomials.Compose | polynomial.h:161-170 | `p & q` starts from `Polynomial(c[0])` and cleans the result; own ensures: the result is canonical; ComposeValue states its value |
| Polynomials.ComposeValue | polynomial.h:160-170 | `(p & q)(x) == p(q(x))` at every `x` |
| PolynomialDivision.DivLoop | polynomial.h:189-194 | the `for` loop of `operator/`, one round per power from `deg a - deg b` down to 0; no ensures of its own, DivLoopInvariant states what it keeps |
| PolynomialDivision.Div | polynomial.h:180-197 | quotient 0 for a dividend of smaller degree, otherwise the loop's quotient cleaned; own ensures: the result is canonical; DivModIdentity, DivisionUnique and DivDegree state its value |
| PolynomialDivision.Mod | polynomial.h:199-203 | `a - (a / b) * b`, cleaned; own ensures: the result is canonical; DivModIdentity and ModDegree state its value |
| PolynomialDivision.RoundLowersDegree | polynomial.h:190-192 | one round clears the coefficient of `x^(deg b + power)` of the running remainder |
| PolynomialDivision.DivLoopInvariant | polynomial.h:186-195 | the loop keeps `b * ans + cur` unchanged and ends with a remainder of degree below `deg b` |
| PolynomialDivision.DivModIdentity | polynomial.h:180-203 | `a == (a / b) * b + a % b` |
| PolynomialDivision.ModDegree | polynomial.h:199-203 | `deg(a % b) < deg b` |
| PolynomialDivision.DivSmall | polynomial.h:182-184 | a dividend of smaller degree gives quotient zero and is its own remainder |
| PolynomialDivision.DivDegree | polynomial.h:180-197 | otherwise the quotient has degree `deg a - deg b` |
| PolynomialDivision.DivisionUnique | polynomial.h:180-203 | `a / b` and `a % b` are the only `q`, `r` with `a == q*b + r` and `deg r < deg b` |
| PolynomialDivision.ModOfMultiple | polynomial.h:180-203 | `(k*b) / b == k` and `(k*b) % b == 0` |
| PolynomialGcd.Monic | polynomial.h:26-33 | `reduce` keeps the degree, maps zero to zero, makes the leading coefficient 1, and the result times the old leading coefficient is the input |
| PolynomialGcd.ReduceInPlace | polynomial.h:28-32 | the in-place loop, which reads the last entry each round, equals dividing every entry by the original leading coefficient |
| PolynomialGcd.MonicScalesBack | polynomial.h:26-33 | scaling the reduced polynomial by the old leading coefficient gives the input back |
| PolynomialGcd.MonicIdempotent | polynomial.h:26-33 | reducing twice is reducing once |
| PolynomialGcd.ZeroDivides | polynomial.h:205-233 | only the zero polynomial is a multiple of zero |
| PolynomialGcd.DividesIffModZero | polynomial.h:199-203 | `d` divides `a` exactly when `a % d` is zero |
| PolynomialGcd.ModKeepsDivisors | polynomial.h:220-225 | replacing `a` by `a % b` keeps the common divisors of the pair |
| PolynomialGcd.MonicKeepsDivisors | polynomial.h:220-225 | `reduce` keeps the divisors of a polynomial |
| PolynomialGcd.GcdLoop | polynomial.h:213-229 | the `while` of `operator,`, replacing the argument of larger or equal degree by its reduced remainder until one is zero; no ensures of its own, GcdLoopDivisors states what it keeps |
| PolynomialGcd.Gcd | polynomial.h:205-233 | cleans both arguments, gives zero for two zeros, otherwise reduces the loop's result; own ensures: the result is canonical; GcdIsGreatestCommonDivisor states its value |
| PolynomialGcd.GcdLoopDivisors | polynomial.h:212-229 | the loop ends on a polynomial whose divisors are exactly the common divisors of its arguments, and which is zero only if both are |
| PolynomialGcd.GcdIsGreatestCommonDivisor | polynomial.h:205-233 | the divisors of `(p, q)` are exactly the common divisors of `p` and `q`; it is zero only for two zero arguments, and monic otherwise |
| PolynomialGcd.GcdDividesBoth | polynomial.h:205-233 | the gcd divides both arguments |
| PolynomialGcd.GcdWithZero | polynomial.h:205-233 | `(a, 0)` is `a` reduced |
| PolynomialGcd.GcdSelf | polynomial.h:205-233 | `(a, a)` is `a` reduced |
| PolynomialExamples.ProductExample | polynomial.h:290-295 | `(x + 2)(x + 1) == x^2 + 3x + 2` |
| PolynomialExamples.DivisionExample | polynomial.h:180-203 | `(x^2 + 3x + 2) / (x + 1) == x + 2`, remainder 0 |
| PolynomialExamples.DivisionWithRemainder | polynomial.h:180-203 | `(x^2 - 1) / (x + 2) == x - 2`, remainder 3 |
| PolynomialExamples.GcdExample | polynomial.h:205-233 | `(x^2 - 1, x - 1) == x - 1` |
| PolynomialExamples.ComposeExample | polynomial.h:160-170 | `x^2 & (x + 1) == x^2 + 2x + 1` |
| PolynomialFindings.MulAssignAliased | polynomial.h:139-150 | `p *= p` as written always leaves the zero polynomial |
| PolynomialFindings.AliasedSquareCounterexample | polynomial.h:139-150 | the square of `x + 1` has constant term 1, so it is not zero |

## Left out

- Printing (`operator<<`, `print_simple`, `print_visual`, `print_latex`) and print_modes.h are left out. They are presentation only and depend on a mutable global print mode.
- Stream input (`operator>>`) is left out. It is I/O around the string constructor, which is modelled.
- The `begin`/`end` iterators are left out. They hand out mutable access to the coefficient vector.
- `int64_t` overflow of the fraction components is not modelled: they are unbounded integers.
- The coefficient type `T` is fixed to exact reals. Integer `T`, whose division truncates, is not modelled. Nor is floating point, whose division by zero gives infinities.
- PolynomialDivision.Div: requires a nonzero divisor. For the zero polynomial the source divides by `other[-1]`, which reads as the field zero.
- PolynomialDivision.Mod: requires a nonzero divisor, for the same reason.
- Polynomials.Eval: requires a non-empty vector, because the source reads `coef[0]`. Every polynomial the library builds is non-empty.
- Polynomials.Compose: requires a non-empty vector for the same reason. Its own contract says only that the result is canonical; ComposeValue states what it computes.
- Parser.Parse: reads the text as Dafny characters, not as the bytes of a `std::string`. This differs only for a non-ASCII character after a group, where the reader skips the closer without checking it. The source skips one byte of its UTF-8 encoding and the model skips the whole character. For example, on `"(1é*2"` the source stops at the second byte of `é` and gives 1, while the model reads `*2` and gives 2. On ASCII text the two agree.
- Parser.Parse: its own contract says only that the result is canonical or `±1/0`. ParseRender states what it computes for every rendered expression, and ParserExamples covers the remaining inputs.
- Aliasing in the compound assignments is modelled only for `p *= p`, in PolynomialFindings. `p += p` and `p -= p` read each entry before writing it, so they are not affected.

## Findings

| source | as written | input that shows it | evidently intended | confidence | as-written member | corrected member |
|---|---|---|---|---|---|---|
| polynomial.h:139-150 | `operator*=` copies the left operand to `save` but reads the right operand through `other`. For `p *= p`, `other` is the buffer being overwritten. Entry `i` is cleared and then reads itself and the entries already recomputed, so every entry ends at zero. | `p = x + 1`, then `p *= p` | `p` becomes `x^2 + 2x + 1`, as `p * p` gives, since `operator*` copies its left operand first | high, not executed | PolynomialFindings.MulAssignAliased | Polynomials.Mul |
