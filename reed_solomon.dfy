/**
 * Reed-Solomon error correction codewords, as main.py computes them for QR
 * codes (section 7.5.2 of ISO/IEC 18004): the message polynomial, the
 * generator polynomial (x + 2^0)(x + 2^1)...(x + 2^(k-1)), and the remainder
 * of the first divided by the second.
 */
module ReedSolomon {
  import opened GF256
  import opened FieldLaws
  import opened Polynomials
  import opened Products
  import opened Division
  import opened Evaluation

  /** The message byte that belongs at power m: the first byte goes highest, the last at power k. */
  function ByteAtPower(message: seq<bv8>, k: nat, m: nat): bv8
    requires k <= m < |message| + k
  {
    message[|message| + k - 1 - m]
  }

  /** message[i] at power |message| + k - 1 - i: the message shifted up by k powers. */
  ghost function MessagePolynomial(message: seq<bv8>, k: nat): Polynomial
  {
    Polynomial(map m: nat | k <= m < |message| + k :: ByteAtPower(message, k, m))
  }

  /** Each byte sits at its power, and every power below k or above the message is 0. */
  lemma MessageCoefficients(message: seq<bv8>, k: nat)
    ensures forall i :: 0 <= i < |message| ==> Coeff(MessagePolynomial(message, k), |message| + k - 1 - i) == message[i]
    ensures forall m: nat :: m < k || |message| + k <= m ==> Coeff(MessagePolynomial(message, k), m) == 0
  {
    var p := MessagePolynomial(message, k);
    forall i | 0 <= i < |message|
      ensures Coeff(p, |message| + k - 1 - i) == message[i]
    {
      var m := |message| + k - 1 - i;
      assert m in p.terms;
      assert |message| + k - 1 - m == i;
    }
  }

  /** Reading the coefficients from power |message| + k - 1 down to power k gives back the message. */
  lemma MessageReadBack(message: seq<bv8>, k: nat)
    ensures seq(|message|, i requires 0 <= i < |message| => Coeff(MessagePolynomial(message, k), |message| + k - 1 - i)) == message
  {
    MessageCoefficients(message, k);
  }

  /**
   * `create_message_polynomial`: adds message[idx] x^(n + k - idx - 1) to the
   * zero polynomial for idx from 0 to n - 1, where n is the message length.
   */
  method CreateMessagePolynomial(message: seq<bv8>, k: nat) returns (p: Polynomial)
    ensures p == MessagePolynomial(message, k)
  {
    p := Zero;
    var n := |message|;
    for idx := 0 to n
      invariant p.terms == map m: nat | n + k - idx <= m < n + k :: ByteAtPower(message, k, m)
    {
      var power := n + k - idx - 1;
      assert power !in p.terms;
      assert ByteAtPower(message, k, power) == message[idx];
      p := AddTerm(p, message[idx], power);
    }
  }

  /** x + c, stored as main.py stores it: {1: 1, 0: c}. */
  function Linear(c: bv8): (l: Polynomial)
    ensures IsDegree(l, 1) && Coeff(l, 1) == 1 && Coeff(l, 0) == c
  {
    Polynomial(map[1 := 1, 0 := c])
  }

  /** Multiplying by x + c: the coefficient at m is p_m * c + p_(m-1). */
  lemma ConvByLinear(p: Polynomial, c: bv8)
    ensures forall m: nat :: Conv(p, Linear(c), m) == Add(Mul(Coeff(p, m), c), if 1 <= m then Coeff(p, m - 1) else 0)
  {
    var low := AddTerm(Zero, c, 0);
    var both := AddTerm(low, 1, 1);
    ConvZero(p, Zero);
    ConvFresh(p, Zero, c, 0);
    ConvFresh(p, low, 1, 1);
    ConvCongruence(p, p, both, Linear(c));
    forall m: nat
      ensures Conv(p, Linear(c), m) == Add(Mul(Coeff(p, m), c), if 1 <= m then Coeff(p, m - 1) else 0)
    {
      assert Conv(p, low, m) == Mul(Coeff(p, m), c);
      if 1 <= m {
        MulOne(Coeff(p, m - 1));
      }
    }
  }

  /** Multiplying a monic polynomial of degree d by x + c gives a monic polynomial of degree d + 1. */
  lemma MonicTimesLinear(g: Polynomial, d: nat, c: bv8)
    requires IsDegree(g, d) && Coeff(g, d) == 1
    ensures IsDegree(Product(g, Linear(c)), d + 1) && Coeff(Product(g, Linear(c)), d + 1) == 1
  {
    var l := Linear(c);
    DegreeUnique(g, d, Degree(g));
    DegreeUnique(l, 1, Degree(l));
    ConvByLinear(g, c);
    assert Coeff(g, d + 1) == 0;
    assert Mul(Coeff(g, d + 1), c) == 0;
    assert Conv(g, l, d + 1) == Add(0, Coeff(g, d));
    forall m: nat | d + 1 < m
      ensures Coeff(Product(g, l), m) == 0
    {
      ConvBeyondDegree(g, l, m);
    }
  }

  /** The generator polynomial of degree k: the product of x + 2^i for i from 0 to k - 1. */
  ghost function Generator(k: nat): Polynomial
  {
    if k == 0 then Polynomial(map[0 := 1])
    else Product(Generator(k - 1), Linear(Power(2, k - 1)))
  }

  /** One more factor x + 2^(k-1) keeps the generator monic, one degree up. */
  lemma GeneratorStepMonic(k: nat)
    requires k > 0
    requires IsDegree(Generator(k - 1), k - 1) && Coeff(Generator(k - 1), k - 1) == 1
    ensures IsDegree(Generator(k), k) && Coeff(Generator(k), k) == 1
  {
    MonicTimesLinear(Generator(k - 1), k - 1, Power(2, k - 1));
  }

  /** The generator polynomial is monic of degree k. */
  lemma {:induction false} GeneratorMonic(k: nat)
    ensures IsDegree(Generator(k), k) && Coeff(Generator(k), k) == 1
  {
    if k > 0 {
      GeneratorMonic(k - 1);
      GeneratorStepMonic(k);
    }
  }

  /** Any polynomial with the generator's coefficients has degree k and leading coefficient 1. */
  lemma GeneratorDegree(g: Polynomial, k: nat)
    requires SameCoefficients(g, Generator(k))
    ensures Degree(g) == k && Coeff(g, k) == 1
  {
    GeneratorMonic(k);
    DegreeUnique(Generator(k), k, Degree(Generator(k)));
    SameDegree(g, Generator(k));
  }

  /** Multiplying a polynomial equal to Generator(k) by x + 2^k gives Generator(k + 1). */
  lemma GeneratorStepCoefficients(g: Polynomial, k: nat, next: Polynomial)
    requires SameCoefficients(g, Generator(k))
    requires forall m: nat :: Coeff(next, m) == Conv(g, Linear(Power(2, k)), m)
    ensures SameCoefficients(next, Generator(k + 1))
  {
    ConvCongruence(g, Generator(k), Linear(Power(2, k)), Linear(Power(2, k)));
  }

  /**
   * One pass of the loop of `create_generator_polynomial`: computes 2^idx,
   * builds x + 2^idx as {1: 1, 0: 2^idx} and multiplies it in.
   */
  method MultiplyInFactor(g: Polynomial, idx: nat) returns (next: Polynomial)
    requires SameCoefficients(g, Generator(idx))
    ensures SameCoefficients(next, Generator(idx + 1))
  {
    var convertedConstant := Power(2, idx);
    var termMultiplier := Polynomial(map[1 := 1, 0 := convertedConstant]);
    next := MultiplyByPolynomial(g, termMultiplier);
    assert termMultiplier == Linear(convertedConstant);
    GeneratorStepCoefficients(g, idx, next);
  }

  /**
   * `create_generator_polynomial`: starts from the constant 1 and multiplies
   * in x + 2^idx for idx from 0 to k - 1.
   */
  method CreateGeneratorPolynomial(k: nat) returns (g: Polynomial)
    ensures SameCoefficients(g, Generator(k))
    ensures Degree(g) == k && Coeff(g, k) == 1
  {
    g := Polynomial(map[0 := 1]);
    for idx := 0 to k
      invariant SameCoefficients(g, Generator(idx))
    {
      g := MultiplyInFactor(g, idx);
    }
    GeneratorDegree(g, k);
  }

  /**
   * `reed_solomon_correction`: the remainder of the message polynomial divided
   * by the generator polynomial. It is zero or of degree below k, and the
   * message polynomial is the generator times some quotient plus it.
   */
  method ReedSolomonCorrection(data: seq<bv8>, k: nat) returns (r: Polynomial)
    ensures IsZero(r) || Degree(r) < k
    ensures exists quo :: DivisionIdentity(MessagePolynomial(data, k), Generator(k), quo, r)
  {
    var messagePolynomial := CreateMessagePolynomial(data, k);
    var generatorPolynomial := CreateGeneratorPolynomial(k);
    LeadingCoefficient(generatorPolynomial);
    r := Remainder(messagePolynomial, generatorPolynomial);
    ghost var quo :| DivisionIdentity(messagePolynomial, generatorPolynomial, quo, r);
    ConvCongruence(generatorPolynomial, Generator(k), quo, quo);
    assert DivisionIdentity(MessagePolynomial(data, k), Generator(k), quo, r);
  }

  /**
   * The correction is determined by the message and k alone: any two
   * polynomials with the properties ReedSolomonCorrection promises have the
   * same coefficients, so the result does not depend on the order in which
   * the loops visit dictionary keys.
   */
  lemma CorrectionUnique(data: seq<bv8>, k: nat, r: Polynomial, r': Polynomial)
    requires IsZero(r) || Degree(r) < k
    requires exists quo :: DivisionIdentity(MessagePolynomial(data, k), Generator(k), quo, r)
    requires IsZero(r') || Degree(r') < k
    requires exists quo :: DivisionIdentity(MessagePolynomial(data, k), Generator(k), quo, r')
    ensures SameCoefficients(r, r')
  {
    GeneratorDegree(Generator(k), k);
    LeadingCoefficient(Generator(k));
    var quo :| DivisionIdentity(MessagePolynomial(data, k), Generator(k), quo, r);
    var quo' :| DivisionIdentity(MessagePolynomial(data, k), Generator(k), quo', r');
    RemainderUnique(MessagePolynomial(data, k), Generator(k), quo, r, quo', r');
  }

  /**
   * The codeword: the message polynomial plus the correction polynomial is a
   * multiple of the generator, its coefficients from power k up are the message
   * and those below k are the correction bytes.
   */
  lemma CodewordIsMultiple(data: seq<bv8>, k: nat, quo: Polynomial, r: Polynomial)
    requires DivisionIdentity(MessagePolynomial(data, k), Generator(k), quo, r)
    requires IsZero(r) || Degree(r) < k
    ensures forall m: nat :: Coeff(Sum(MessagePolynomial(data, k), r), m) == Conv(Generator(k), quo, m)
    ensures forall m: nat :: k <= m ==> Coeff(Sum(MessagePolynomial(data, k), r), m) == Coeff(MessagePolynomial(data, k), m)
    ensures forall m: nat :: m < k ==> Coeff(Sum(MessagePolynomial(data, k), r), m) == Coeff(r, m)
  {
    var msg := MessagePolynomial(data, k);
    MessageCoefficients(data, k);
    SumCoeff(msg, r);
    forall m: nat
      ensures Coeff(Sum(msg, r), m) == Conv(Generator(k), quo, m)
    {
      assert Coeff(msg, m) == Add(Conv(Generator(k), quo, m), Coeff(r, m));
    }
    forall m: nat | k <= m
      ensures Coeff(r, m) == 0
    {
      if !IsZero(r) {
        assert Degree(r) < m;
      }
    }
  }

  /** x + c takes the value c + y at y, so its one root is c. */
  lemma EvalLinear(c: bv8, y: bv8)
    ensures Eval(Linear(c), y) == Add(c, y)
    ensures Eval(Linear(c), y) == 0 <==> y == c
  {
    var l := Linear(c);
    DegreeUnique(l, Degree(l), 1);
    PowerOne(y);
    MulOne(c);
    MulOne(y);
    assert EvalUpTo(l, y, 1) == Add(0, Mul(c, 1));
    AddSelf(c, 0);
    assert EvalUpTo(l, y, 2) == Add(c, Mul(1, y));
    AddSelf(c, y);
  }

  /** Evaluating one more factor: g_k(y) == g_(k-1)(y) (2^(k-1) + y). */
  lemma GeneratorStepEval(k: nat, y: bv8)
    requires k > 0
    ensures Eval(Generator(k), y) == Mul(Eval(Generator(k - 1), y), Add(Power(2, k - 1), y))
  {
    var c := Power(2, k - 1);
    assert Generator(k) == Product(Generator(k - 1), Linear(c));
    EvalProduct(Generator(k - 1), Linear(c), y);
    EvalLinear(c, y);
  }

  /** The value of the generator at y as a field product: (2^0 + y)(2^1 + y)...(2^(k-1) + y). */
  ghost function GeneratorValue(k: nat, y: bv8): bv8
  {
    if k == 0 then 1 else Mul(GeneratorValue(k - 1, y), Add(Power(2, k - 1), y))
  }

  /** The generator for k = 0 is the constant 1. */
  lemma GeneratorZeroEval(y: bv8)
    ensures Eval(Generator(0), y) == 1
  {
    var g := Generator(0);
    DegreeUnique(g, Degree(g), 0);
    assert Eval(g, y) == Add(0, Mul(1, Power(y, 0)));
    PowerOne(y);
    MulOne(1);
    AddSelf(1, 1);
  }

  /** One more factor multiplies both the generator's value and the field product by 2^(k-1) + y. */
  lemma GeneratorValueStep(k: nat, y: bv8)
    requires k > 0 && Eval(Generator(k - 1), y) == GeneratorValue(k - 1, y)
    ensures Eval(Generator(k), y) == GeneratorValue(k, y)
  {
    GeneratorStepEval(k, y);
  }

  /** Evaluating the generator polynomial gives the field product of its factors' values. */
  lemma {:induction false} GeneratorEval(k: nat, y: bv8)
    ensures Eval(Generator(k), y) == GeneratorValue(k, y)
    decreases k
  {
    if k == 0 {
      GeneratorZeroEval(y);
    } else {
      GeneratorEval(k - 1, y);
      GeneratorValueStep(k, y);
    }
  }

  /** The product (2^0 + y)...(2^(k-1) + y) is 0 at y = 2^i for every i < k. */
  lemma {:induction false} GeneratorValueRoots(k: nat, i: nat)
    requires i < k
    ensures GeneratorValue(k, Power(2, i)) == 0
    decreases k
  {
    var y := Power(2, i);
    if i == k - 1 {
      AddSelf(Power(2, k - 1), y);
    } else {
      GeneratorValueRoots(k - 1, i);
    }
  }

  /** The generator vanishes at 2^0, ..., 2^(k-1): those are the roots of its factors. */
  lemma GeneratorRoots(k: nat, i: nat)
    requires i < k
    ensures Eval(Generator(k), Power(2, i)) == 0
  {
    GeneratorEval(k, Power(2, i));
    GeneratorValueRoots(k, i);
  }

  /**
   * Every codeword vanishes at 2^0, ..., 2^(k-1): message plus correction is
   * the generator times the quotient, and the generator vanishes there.
   */
  lemma CodewordRoots(data: seq<bv8>, k: nat, quo: Polynomial, r: Polynomial, i: nat)
    requires DivisionIdentity(MessagePolynomial(data, k), Generator(k), quo, r)
    requires i < k
    ensures Eval(Sum(MessagePolynomial(data, k), r), Power(2, i)) == 0
  {
    var msg, g, y := MessagePolynomial(data, k), Generator(k), Power(2, i);
    SumCoeff(msg, r);
    forall m: nat
      ensures Coeff(Sum(msg, r), m) == Coeff(Product(g, quo), m)
    {
      assert Coeff(msg, m) == Add(Conv(g, quo, m), Coeff(r, m));
    }
    EvalCongruence(Sum(msg, r), Product(g, quo), y);
    EvalProduct(g, quo, y);
    GeneratorRoots(k, i);
  }

  /** The coefficients of the generator for k + 1 from those for k: g_(k+1),m == g_k,m 2^k + g_k,(m-1). */
  lemma GeneratorCoefficientStep(k: nat, m: nat)
    requires 1 <= m
    ensures Coeff(Generator(k + 1), m) == Add(Mul(Coeff(Generator(k), m), Power(2, k)), Coeff(Generator(k), m - 1))
  {
    ConvByLinear(Generator(k), Power(2, k));
  }

  /** The constant coefficient of the generator for k + 1: g_(k+1),0 == g_k,0 2^k. */
  lemma GeneratorConstantStep(k: nat)
    ensures Coeff(Generator(k + 1), 0) == Mul(Coeff(Generator(k), 0), Power(2, k))
  {
    var g := Generator(k);
    ConvByLinear(g, Power(2, k));
    AddSelf(Mul(Coeff(g, 0), Power(2, k)), 0);
  }

  /** The generator for no correction bytes is the constant 1. */
  lemma GeneratorZeroCoefficients(m: nat)
    ensures Coeff(Generator(0), m) == if m == 0 then 1 else 0
  {
  }

  /** The constant coefficient of the generator for one correction byte: 1 * 2^0. */
  lemma GeneratorOfOneAt0(k: nat)
    requires k == 1
    ensures Coeff(Generator(k), 0) == 1
  {
    GeneratorConstantStep(k - 1);
    GeneratorZeroCoefficients(0);
    PowerOne(2);
    MulOne(1);
  }

  /** The coefficient at x of the generator for one correction byte: 0 * 2^0 + 1. */
  lemma GeneratorOfOneAt1(k: nat)
    requires k == 1
    ensures Coeff(Generator(k), 1) == 1
  {
    GeneratorCoefficientStep(k - 1, 1);
    GeneratorZeroCoefficients(0);
    GeneratorZeroCoefficients(1);
  }

  /**
   * The generator for one correction byte is x + 1. The number of bytes is a
   * parameter fixed by the requires rather than a literal, so that the solver
   * does not unfold Generator, Mul and the tables at literal arguments.
   */
  lemma GeneratorOfOne(k: nat)
    requires k == 1
    ensures Coeff(Generator(k), 0) == 1 && Coeff(Generator(k), 1) == 1 && Coeff(Generator(k), 2) == 0
  {
    GeneratorOfOneAt0(k);
    GeneratorOfOneAt1(k);
    GeneratorMonic(k);
  }

  /** The factor the loop multiplies in at idx == 1 is x + 2. */
  lemma SecondFactor(j: nat)
    requires j == 1
    ensures Power(2, j) == 2
  {
    PowerOne(2);
  }

  /** The constant coefficient of the generator for two correction bytes: 1 * 2^1. */
  lemma GeneratorOfTwoAt0(k: nat, m: nat)
    requires k == 2 && m == 0
    ensures Coeff(Generator(k), m) == 2
  {
    var two := Power(2, k - 1);
    GeneratorOfOneAt0(k - 1);
    GeneratorConstantStep(k - 1);
    SecondFactor(k - 1);
    MulOne(two);
  }

  /** The coefficient at x of the generator for two correction bytes: 1 * 2^1 + 1. */
  lemma GeneratorOfTwoAt1(k: nat)
    requires k == 2
    ensures Coeff(Generator(k), 1) == 3
  {
    var two := Power(2, k - 1);
    GeneratorOfOneAt0(k - 1);
    GeneratorOfOneAt1(k - 1);
    GeneratorCoefficientStep(k - 1, 1);
    SecondFactor(k - 1);
    MulOne(two);
    assert Coeff(Generator(k), 1) == Add(two, 1);
  }

  /** The coefficient at x^2 of the generator for two correction bytes: 0 * 2^1 + 1. */
  lemma GeneratorOfTwoAt2(k: nat, m: nat)
    requires k == 2 && m == 2
    ensures Coeff(Generator(k), m) == 1
  {
    var two := Power(2, k - 1);
    GeneratorOfOneAt1(k - 1);
    GeneratorMonic(k - 1);
    GeneratorCoefficientStep(k - 1, m);
    assert Coeff(Generator(k - 1), m) == 0;
    assert Coeff(Generator(k), m) == Add(Mul(0, two), 1);
  }

  /**
   * The generator for two correction bytes is x^2 + 3x + 2. Annex A of
   * ISO/IEC 18004 lists it as x^2 + a^25 x + a^1 for the primitive element
   * a = 2 (StandardExponents).
   */
  lemma GeneratorOfTwo(k: nat)
    requires k == 2
    ensures Coeff(Generator(k), 0) == 2 && Coeff(Generator(k), 1) == 3 && Coeff(Generator(k), 2) == 1
  {
    GeneratorOfTwoAt0(k, 0);
    GeneratorOfTwoAt1(k);
    GeneratorOfTwoAt2(k, 2);
  }

  /** a^1 == 2 and a^25 == 3, the exponents in which the standard writes x^2 + 3x + 2. */
  lemma StandardExponents()
    ensures Exp(1) == 2 && Exp(25) == 3
  {
    AntilogIsExp(1);
    AntilogIsExp(25);
    AntilogIsTable(1);
    AntilogIsTable(25);
  }
}
