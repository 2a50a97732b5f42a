# Reed-Solomon codewords over GF(256), modelled in Dafny

This project models `main.py`, a small polynomial algebra over the finite field
GF(256) with the Reed-Solomon error-correction step of QR codes built on top of
it (section 7.5.2 of ISO/IEC 18004). Seven modules follow the structure of the
program:

- `GF256` (gf256.dfy): the field that the `z256` module provides to `main.py`.
  `z256` is not part of this model, so the field is made concrete: addition is
  exclusive or, multiplication is reduction modulo x^8 + x^4 + x^3 + x^2 + 1
  (0x11D) with primitive element 2, computed through a logarithm and an
  antilogarithm table. Both tables are proved against the repeated doubling
  `Exp`, so `Mul`, `Div` and `Power` are proved to be the field operations the
  rest of the program relies on.
- `FieldLaws` (field_laws.dfy): the laws of the field that polynomial
  arithmetic relies on beyond commutativity and the unit: every element is its
  own negative, multiplication is associative and distributes over addition,
  and powers add exponents. They are proved through the logarithm
  representation (every non-zero element is a power of 2, and doubling
  distributes over exclusive or).
- `Polynomials` (polynomial.dfy): the `Polynomial` class as a value, a map
  from powers to coefficients where an absent power and a stored zero both mean
  coefficient 0. `Coeff` is `get_coefficient`; `Degree` and `SameCoefficients`
  give the meaning that `get_degree` and `__eq__` compute with their loops;
  `add_term`, `subtract_term`, `add_polynomial` and `subtract_polynomial` are
  proved to compute the coefficientwise field sum. Every operation of
  `main.py` builds a new dictionary and leaves its receiver and arguments
  alone, so value semantics is exact here.
- `Products` (product.dfy): `multiply_by_term` and `multiply_by_polynomial`,
  proved to compute the convolution `Conv` of the coefficients (the
  coefficient at m is the field sum of p_i * q_j over i + j = m). The product
  distributes over the coefficientwise sum, and its leading coefficient is the
  product of the leading coefficients, so it is zero only when a factor is.
- `Division` (division.dfy): `divide_terms` and the `remainder` loop. The
  remainder is specified by the division identity num = den * quo + rem, for a
  quotient that `main.py` never builds, together with the bound that rem is
  zero or of lower degree than den. The loop is proved to terminate because
  each step cancels the numerator's leading term and so lowers its degree.
  Quotient and remainder are unique: any two pairs that satisfy the identity
  and the bound have the same coefficients.
- `Evaluation` (evaluation.dfy): the value of a polynomial at a field element.
  `main.py` never evaluates a polynomial; evaluation is added because it
  states what the generator and the codeword are for. It is additive, and it
  turns the product of two polynomials into the product of their values.
- `ReedSolomon` (reed_solomon.dfy): `create_message_polynomial` (the message
  shifted up by k powers, first byte highest), `create_generator_polynomial`
  (the product of x + 2^i for i from 0 to k - 1, proved monic of degree k) and
  `reed_solomon_correction` (the remainder of the first by the second, proved
  zero or of degree below k, so that message plus correction is a multiple of
  the generator). The correction is the only polynomial with these
  properties. The generator vanishes at 2^0, ..., 2^(k-1), and so does every
  codeword. The docstring's factors x - 2^i are the factors x + 2^i, because
  subtraction is addition in this field.

Loops over dictionary keys pick the next key with `:|`, so every proof holds
whatever order the dictionary yields its keys in.

## Model

| member | source | states |
|---|---|---|
| GF256.Add | main.py:183-208 | the stand-in for `z256.add`, also used for subtraction: a sum is 0 exactly when the two summands are equal |
| GF256.Mul | main.py:232-237 | a product of field elements is 0 exactly when one factor is 0 (no zero divisors) |
| GF256.MulCommutes | main.py:232-237 | field multiplication is commutative |
| GF256.MulOne | main.py:235 | 1 is the multiplicative identity, on either side |
| GF256.Div | main.py:19 | for a non-zero divisor b, the quotient q satisfies q * b == a and b * q == a |
| GF256.MulByTwo | main.py:395 | multiplying by the primitive element 2 is the shift-and-reduce by 0x11D |
| GF256.PowerNonZero | main.py:395 | the stand-in `Power` for `z256.power`: a power is 0 exactly when the base is 0 and the exponent positive, so 2^idx is never 0 |
| GF256.PowerOfTwo | main.py:395 | power(2, n) is 2 doubled n times, taken modulo the period 255 of 2 |
| GF256.ExpCycle | main.py:395 | 2 has multiplicative order 255, so 2^255 == 1 |
| GF256.AntilogIsExp | main.py:395 | the antilogarithm table holds the successive doublings of 1 |
| GF256.LogOfExp | main.py:19 | the logarithm inverts 2^j for 0 <= j < 255, and 2^j is never 0 |
| GF256.ExpOfLog | main.py:19 | every non-zero element is 2 to the power of its logarithm, which is below 255 |
| FieldLaws.AddSelf | main.py:205-209 | subtraction is addition: a + b is 0 exactly when a == b, and 0 is the additive unit |
| FieldLaws.XTimeAdd | main.py:395 | doubling distributes over field addition |
| FieldLaws.MulExp | main.py:232-237 | multiplying powers of 2 adds their exponents |
| FieldLaws.MulDistributes | main.py:295-301 | field multiplication distributes over field addition |
| FieldLaws.MulAssociates | main.py:232-237 | field multiplication is associative |
| FieldLaws.PowerAdd | main.py:395 | y^(i + s) == y^i * y^s |
| Polynomials.Coeff | main.py:151-166 | the coefficient at a power is the stored one, or 0 when the power is absent |
| Polynomials.Degree | main.py:136-148 | the degree has no non-zero coefficient above it and a non-zero one at it, unless it is 0 |
| Polynomials.DegreeUnique | main.py:136-148 | a polynomial has exactly one degree |
| Polynomials.SameDegree | main.py:136-148 | polynomials with the same coefficients have the same degree, whatever zeros are stored |
| Polynomials.LeadingCoefficient | main.py:136-166 | the coefficient at the degree is 0 exactly for the zero polynomial |
| Polynomials.GetDegree | main.py:136-148 | the scan of the stored powers returns the degree, ignoring stored zeros |
| Polynomials.Equals | main.py:80-113 | the two scans return true exactly when both polynomials have the same coefficient at every power |
| Polynomials.AddTerm | main.py:168-190 | the coefficient at the power becomes old + c, every other coefficient is unchanged, the stored powers gain that power |
| Polynomials.SubtractTerm | main.py:192-215 | adding c x^n back to the result gives the original coefficients; other coefficients are unchanged |
| Polynomials.SubtractTermUndoesAddTerm | main.py:168-215 | subtracting a term after adding it gives the original coefficients |
| Polynomials.ZeroIsUnit | main.py:37-50 | `Polynomial()` is the zero polynomial, of degree 0, and adding it on either side leaves the coefficients unchanged |
| Polynomials.SumCommutes | main.py:243-260 | the coefficientwise sum is commutative |
| Polynomials.SumCancels | main.py:243-279 | adding q and then subtracting q gives p back, and q - q is zero |
| Polynomials.SumDegree | main.py:243-260 | the degree of a sum is at most the larger degree |
| Polynomials.AddPolynomial | main.py:243-260 | the fold of add_term over the other's terms yields the coefficientwise sum, stored powers being the union |
| Polynomials.SubtractPolynomial | main.py:262-279 | the fold yields the coefficientwise sum, and adding the subtrahend back gives the minuend's coefficients |
| Products.ConvCongruence | main.py:281-302 | the product depends only on the coefficients of the factors, not on stored zeros |
| Products.ConvZero | main.py:281-302 | multiplying by a zero polynomial gives zero |
| Products.ConvFresh | main.py:295-301 | adding a new term c x^n to a factor adds p_(m-n) * c to each product coefficient |
| Products.ConvByMonomial | main.py:217-241 | multiplying by c x^n shifts every coefficient up by n and scales it by c |
| Products.ConvBeyondDegree | main.py:281-302 | the product has no term above the sum of the degrees |
| Products.ConvSum | main.py:295-301 | the product distributes over the coefficientwise sum of polynomials |
| Products.ProductLeading | main.py:281-302 | the coefficient of p * q at deg p + deg q is the product of the leading coefficients, and it is 0 exactly when p or q is zero |
| Products.Product | main.py:281-302 | the product's coefficient at every power is the convolution |
| Products.MultiplyByTerm | main.py:217-241 | each stored power k becomes k + n with coefficient p_k * c, no other power is stored, and the result is p times c x^n |
| Products.MultiplyByPolynomial | main.py:281-302 | accumulating p times each term of the other, in any order, yields the convolution of the two |
| Evaluation.EvalCongruence | main.py:80-113 | evaluation, which main.py does not have, respects `__eq__`: polynomials with the same coefficients have the same value, whatever zeros are stored |
| Evaluation.EvalBelow | main.py:136-148 | evaluation, which main.py does not have, needs only the powers up to `get_degree`: summing p_m y^m up to any bound past the last non-zero coefficient gives the value |
| Evaluation.EvalUpToSum | main.py:243-260 | evaluation is additive: the coefficientwise sum takes the sum of the values |
| Evaluation.EvalUpToMonomial | main.py:168-190 | evaluation, which main.py does not have, of the single term c x^s that `add_term` adds: it takes the value c y^s |
| Evaluation.EvalUpToShifted | main.py:217-241 | multiplying by c x^s multiplies the value by c y^s |
| Evaluation.ProductMonomialEval | main.py:217-241 | the product of p and c x^s takes the value c y^s p(y) |
| Evaluation.ProductFreshEval | main.py:295-301 | accumulating one more term of the second factor keeps the value of the product equal to the product of the values |
| Evaluation.EvalProductRestrict | main.py:295-301 | after any set of terms of q has been accumulated, the product's value is p(y) times the value of those terms |
| Evaluation.EvalProduct | main.py:281-302 | evaluation is multiplicative: (p * q)(y) == p(y) q(y) |
| Division.DivideTerms | main.py:3-25 | the single stored term sits at power n1 - n2 and its coefficient times c2 is c1 |
| Division.DivideTermsRoundTrip | main.py:3-25 | c2 x^n2 times the quotient term is c1 x^n1 |
| Division.DivideTermsIsMonomial | main.py:19-24 | the quotient term is the monomial (c1 / c2) x^(n1 - n2) |
| Division.ShiftedMultiple | main.py:330-333 | den times c x^s is den shifted up by s and scaled by c |
| Division.CancelAt | main.py:330-336 | from the numerator's degree up, the subtracted multiple cancels each numerator coefficient |
| Division.CancelLeadingTerm | main.py:330-336 | the subtraction clears every coefficient from the numerator's degree up |
| Division.DegreeDrops | main.py:337-342 | a non-zero numerator left after the subtraction has a strictly smaller degree |
| Division.IdentityStep | main.py:330-336 | num = den * quo + numerator still holds after the step, with the quotient term added to quo |
| Division.LeadingStep | main.py:328-336 | one step clears the coefficients from the degree up, keeps the division identity, and the quotient keeps no term below the next step's |
| Division.SubtractLeadingMultiple | main.py:330-336 | the loop body up to the zero test clears the leading coefficients and keeps the division identity |
| Division.Remainder | main.py:304-346 | for a non-zero denominator the loop terminates with a remainder that is zero or of lower degree than den, and num = den * quo + rem for some quo |
| Division.ProductVanishes | main.py:304-346 | a product with a non-zero den that has no term from deg den up has a zero second factor |
| Division.RemainderUnique | main.py:304-346 | two quotient and remainder pairs for the same non-zero den that both satisfy the identity and the degree bound have the same coefficients |
| ReedSolomon.MessageCoefficients | main.py:354-376 | message[i] sits at power n + k - i - 1, and every power below k or from n + k up is 0 |
| ReedSolomon.MessageReadBack | main.py:354-376 | reading the coefficients from power n + k - 1 down to k gives the message back |
| ReedSolomon.CreateMessagePolynomial | main.py:354-376 | the loop of add_term calls builds exactly the message polynomial |
| ReedSolomon.Linear | main.py:397 | {1: 1, 0: c} is monic of degree 1 with constant term c |
| ReedSolomon.ConvByLinear | main.py:397-399 | multiplying by x + c gives coefficient p_m * c + p_(m-1) at each power m |
| ReedSolomon.MonicTimesLinear | main.py:397-399 | a monic polynomial of degree d times x + c is monic of degree d + 1 |
| ReedSolomon.GeneratorStepMonic | main.py:393-399 | one more factor x + 2^(k-1) keeps the generator monic, one degree up |
| ReedSolomon.GeneratorMonic | main.py:378-401 | the generator polynomial is monic of degree k (the constant 1 for k = 0) |
| ReedSolomon.GeneratorDegree | main.py:378-401 | any polynomial with the generator's coefficients has degree k and leading coefficient 1 |
| ReedSolomon.GeneratorStepCoefficients | main.py:393-399 | one pass of the loop turns the product of the first idx factors into the product of the first idx + 1 |
| ReedSolomon.MultiplyInFactor | main.py:393-399 | one pass of the loop body turns the product of the first idx factors into the product of the first idx + 1 |
| ReedSolomon.GeneratorZeroCoefficients | main.py:390 | the generator starts as the constant polynomial 1 |
| ReedSolomon.GeneratorCoefficientStep | main.py:393-399 | one pass of the loop: for m >= 1 the coefficient at m becomes g_m 2^k + g_(m-1) |
| ReedSolomon.GeneratorConstantStep | main.py:393-399 | one pass of the loop: the constant coefficient is multiplied by the new root 2^k |
| ReedSolomon.CreateGeneratorPolynomial | main.py:378-401 | the loop builds the product of x + 2^i for i below k, of degree k with leading coefficient 1 |
| ReedSolomon.ReedSolomonCorrection | main.py:403-420 | the correction is the remainder of the message polynomial by the generator: zero or of degree below k, with message = generator * quo + correction |
| ReedSolomon.CodewordIsMultiple | main.py:403-420 | message plus correction is a multiple of the generator, equal to the message from power k up and to the correction below k |
| ReedSolomon.CorrectionUnique | main.py:403-420 | two polynomials that are zero or of degree below k and each complete the message polynomial to a multiple of the generator have the same coefficients |
| ReedSolomon.EvalLinear | main.py:397 | x + c takes the value c + y at y, which is 0 exactly when y == c |
| ReedSolomon.GeneratorStepEval | main.py:393-399 | multiplying in one more factor x + 2^(k-1) multiplies the generator's value at y by 2^(k-1) + y |
| ReedSolomon.GeneratorEval | main.py:378-401 | the generator's value at y is the field product of 2^i + y over i below k |
| ReedSolomon.GeneratorValueRoots | main.py:378-382 | that field product is 0 at y = 2^i for every i below k |
| ReedSolomon.GeneratorRoots | main.py:378-401 | the generator polynomial vanishes at 2^i for every i below k |
| ReedSolomon.GeneratorOfOne | main.py:378-401 | for one correction byte the generator is x + 1 |
| ReedSolomon.GeneratorOfTwo | main.py:378-401 | for two correction bytes the generator is x^2 + 3x + 2, as ISO/IEC 18004 (Annex A) lists it |
| ReedSolomon.StandardExponents | main.py:395 | 2^1 == 2 and 2^25 == 3, the exponents in which the standard writes that generator |
| ReedSolomon.CodewordRoots | main.py:403-420 | message plus correction vanishes at 2^i for every i below k |

## Left out

- `z256` (imported at main.py:1) is not part of this model. The field is the concrete GF(256) with reduction polynomial 0x11D; the model does not claim to match tables or code in `z256` it cannot see.
- `__str__` (main.py:52-78): string formatting, not part of the algebra.
- `__ne__` (main.py:115-125): the plain negation of `__eq__`.
- The `isinstance` test in `__eq__` (main.py:90-92): both arguments are polynomials by type here.
- `get_terms` (main.py:127-134) and the dictionary copies in `__init__` (main.py:37-50): with value semantics a copy is the value itself, so there is nothing to model.
- The commented-out test at main.py:348-351.
- Dictionary iteration order: every loop over keys picks any remaining key, so the model covers every order.
- The guard `numerator_degree >= 0` (main.py:328): a degree is a natural number, so the guard is always true.
- The `% 256` at main.py:395: field elements are bytes, so the reduction changes nothing.
- Powers and k are natural numbers and coefficients and message entries are bytes; `main.py` would accept a negative k or an integer outside 0..255, which the model does not.
- Division.Remainder: requires a non-zero denominator, as `divide_terms` would otherwise divide by a zero leading coefficient.
- Division.DivideTerms: requires power1 >= power2, as its documentation demands, and a non-zero divisor coefficient; both hold at its only call, inside `remainder`.
- The worked example of ISO/IEC 18004 (16 data bytes, 10 correction bytes) is not checked: the generator and the remainder are specified by their properties. Only the generators for one and two correction bytes are checked against concrete coefficients (`GeneratorOfOne`, `GeneratorOfTwo`).
