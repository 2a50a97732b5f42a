/**
 * Polynomial long division over GF(256): `divide_terms` and
 * `Polynomial.remainder` of main.py. The remainder is specified by the
 * division identity num = den * quo + rem, for a quotient that main.py
 * never builds, and by the degree bound on rem.
 */
module Division {
  import opened GF256
  import opened Polynomials
  import opened Products

  /**
   * `divide_terms`: the term (c1 / c2) x^(n1 - n2), built by adding it to the
   * zero polynomial. The first power must be at least the second, and the
   * divisor's coefficient must be non-zero for the field division.
   */
  function DivideTerms(c1: bv8, n1: nat, c2: bv8, n2: nat): (t: Polynomial)
    requires n2 <= n1 && c2 != 0
    ensures t.terms.Keys == {n1 - n2}
    ensures Mul(c2, Coeff(t, n1 - n2)) == c1
  {
    AddTerm(Zero, Div(c1, c2), n1 - n2)
  }

  /** (c2 x^n2) * DivideTerms(c1, n1, c2, n2) is c1 x^n1. */
  lemma DivideTermsRoundTrip(c1: bv8, n1: nat, c2: bv8, n2: nat)
    requires n2 <= n1 && c2 != 0
    ensures forall m: nat :: Conv(Monomial(c2, n2), DivideTerms(c1, n1, c2, n2), m) == Coeff(Monomial(c1, n1), m)
  {
    var t := DivideTerms(c1, n1, c2, n2);
    var q := Div(c1, c2);
    ConvCongruence(Monomial(c2, n2), Monomial(c2, n2), t, Monomial(q, n1 - n2));
    ConvByMonomial(Monomial(c2, n2), q, n1 - n2);
  }

  /** num == den * quo + rem, coefficient by coefficient. */
  ghost predicate DivisionIdentity(num: Polynomial, den: Polynomial, quo: Polynomial, rem: Polynomial)
  {
    forall m: nat {:trigger Conv(den, quo, m)} :: Coeff(num, m) == Add(Conv(den, quo, m), Coeff(rem, m))
  }

  /** DivideTerms stores exactly the monomial (c1 / c2) x^(n1 - n2). */
  lemma DivideTermsIsMonomial(c1: bv8, n1: nat, c2: bv8, n2: nat)
    requires n2 <= n1 && c2 != 0
    ensures SameCoefficients(DivideTerms(c1, n1, c2, n2), Monomial(Div(c1, c2), n1 - n2))
  {
  }

  /** A polynomial equal to den * t, for t the monomial c x^s: den shifted up by s and scaled by c. */
  lemma ShiftedMultiple(den: Polynomial, t: Polynomial, c: bv8, s: nat, increased: Polynomial)
    requires SameCoefficients(t, Monomial(c, s))
    requires forall m: nat :: Coeff(increased, m) == Conv(den, t, m)
    ensures forall m: nat :: Coeff(increased, m) == if s <= m then Mul(Coeff(den, m - s), c) else 0
  {
    ConvCongruence(den, den, t, Monomial(c, s));
    ConvByMonomial(den, c, s);
  }

  /** At a power m >= nd, the coefficient of den * (lead / denLead) x^(nd - dd) cancels the numerator's. */
  lemma CancelAt(numerator: Polynomial, nd: nat, lead: bv8, den: Polynomial, dd: nat, denLead: bv8, m: nat)
    requires IsDegree(numerator, nd) && lead == Coeff(numerator, nd)
    requires IsDegree(den, dd) && denLead == Coeff(den, dd) && denLead != 0
    requires dd <= nd <= m
    ensures Add(Coeff(numerator, m), Mul(Coeff(den, m - (nd - dd)), Div(lead, denLead))) == 0
  {
    if m == nd {
      assert m - (nd - dd) == dd;
      assert Mul(denLead, Div(lead, denLead)) == lead;
    } else {
      assert Coeff(den, m - (nd - dd)) == 0;
      assert Coeff(numerator, m) == 0;
    }
  }

  /**
   * One step of the division: adding den * (lead / denLead) x^(nd - dd) to the
   * numerator (subtracting it, in characteristic 2) clears its coefficients
   * from the leading power up.
   */
  lemma CancelLeadingTerm(numerator: Polynomial, nd: nat, lead: bv8, den: Polynomial, dd: nat, denLead: bv8,
                          increased: Polynomial)
    requires IsDegree(numerator, nd) && lead == Coeff(numerator, nd)
    requires IsDegree(den, dd) && denLead == Coeff(den, dd) && denLead != 0
    requires dd <= nd
    requires forall m: nat :: Coeff(increased, m) == if nd - dd <= m then Mul(Coeff(den, m - (nd - dd)), Div(lead, denLead)) else 0
    ensures forall m: nat :: nd <= m ==> Coeff(Sum(numerator, increased), m) == 0
  {
    forall m: nat | nd <= m
      ensures Coeff(Sum(numerator, increased), m) == 0
    {
      CancelAt(numerator, nd, lead, den, dd, denLead, m);
      SumCoeff(numerator, increased);
    }
  }

  /** With every coefficient from nd up cleared, a non-zero polynomial has degree below nd. */
  lemma DegreeDrops(p: Polynomial, nd: nat)
    requires forall m: nat :: nd <= m ==> Coeff(p, m) == 0
    requires !IsZero(p)
    ensures Degree(p) < nd
  {
    assert nd <= Degree(p) ==> Degree(p) == 0 && nd == 0;
  }

  /** The division identity survives one step, with the new term c x^s added to the quotient. */
  lemma IdentityStep(num: Polynomial, den: Polynomial, quo: Polynomial, numerator: Polynomial,
                     c: bv8, s: nat, increased: Polynomial)
    requires DivisionIdentity(num, den, quo, numerator)
    requires Coeff(quo, s) == 0
    requires forall m: nat :: Coeff(increased, m) == if s <= m then Mul(Coeff(den, m - s), c) else 0
    ensures DivisionIdentity(num, den, AddTerm(quo, c, s), Sum(numerator, increased))
  {
    ConvFresh(den, quo, c, s);
    SumCoeff(numerator, increased);
  }

  /**
   * One step of the division as a whole: with increased = den * (lead / denLead) x^(nd - dd),
   * next = numerator + increased and that quotient term added to the quotient,
   * next has no coefficient from nd up, the division identity holds for next,
   * and the quotient still has no term below the next step's.
   */
  lemma LeadingStep(num: Polynomial, den: Polynomial, quo: Polynomial, numerator: Polynomial,
                    nd: nat, lead: bv8, dd: nat, denLead: bv8,
                    increased: Polynomial, next: Polynomial, quo': Polynomial)
    requires IsDegree(numerator, nd) && lead == Coeff(numerator, nd)
    requires IsDegree(den, dd) && denLead == Coeff(den, dd) && denLead != 0
    requires dd <= nd
    requires DivisionIdentity(num, den, quo, numerator)
    requires forall s: nat :: s + dd <= nd ==> Coeff(quo, s) == 0
    requires forall m: nat :: Coeff(increased, m) == Conv(den, DivideTerms(lead, nd, denLead, dd), m)
    requires next == Sum(numerator, increased)
    requires quo' == AddTerm(quo, Div(lead, denLead), nd - dd)
    ensures forall m: nat :: nd <= m ==> Coeff(next, m) == 0
    ensures DivisionIdentity(num, den, quo', next)
    ensures forall s: nat :: s + dd < nd ==> Coeff(quo', s) == 0
  {
    var c := Div(lead, denLead);
    var s := nd - dd;
    DivideTermsIsMonomial(lead, nd, denLead, dd);
    ShiftedMultiple(den, DivideTerms(lead, nd, denLead, dd), c, s, increased);
    CancelLeadingTerm(numerator, nd, lead, den, dd, denLead, increased);
    assert Coeff(quo, s) == 0;
    IdentityStep(num, den, quo, numerator, c, s, increased);
  }

  /**
   * The body of the `remainder` loop up to the zero test: divides the leading
   * terms, multiplies the denominator by the quotient term and subtracts the
   * result from the numerator. The coefficients from the numerator's degree up
   * are cleared, and the division identity holds again once the quotient term
   * is added to the quotient.
   */
  method SubtractLeadingMultiple(numerator: Polynomial, numeratorDegree: nat, numeratorLead: bv8,
                                 den: Polynomial, denominatorDegree: nat, denominatorLead: bv8,
                                 ghost num: Polynomial, ghost quo: Polynomial)
    returns (next: Polynomial, ghost quo': Polynomial)
    requires numeratorDegree == Degree(numerator) && numeratorLead == Coeff(numerator, numeratorDegree)
    requires denominatorDegree == Degree(den) && denominatorLead == Coeff(den, denominatorDegree)
    requires denominatorLead != 0 && denominatorDegree <= numeratorDegree
    requires DivisionIdentity(num, den, quo, numerator)
    requires forall s: nat :: s + denominatorDegree <= numeratorDegree ==> Coeff(quo, s) == 0
    ensures forall m: nat :: numeratorDegree <= m ==> Coeff(next, m) == 0
    ensures DivisionIdentity(num, den, quo', next)
    ensures forall s: nat :: s + denominatorDegree < numeratorDegree ==> Coeff(quo', s) == 0
  {
    var multiplyBy := DivideTerms(numeratorLead, numeratorDegree, denominatorLead, denominatorDegree);
    var increasedDivisor := MultiplyByPolynomial(den, multiplyBy);
    next := SubtractPolynomial(numerator, increasedDivisor);
    quo' := AddTerm(quo, Div(numeratorLead, denominatorLead), numeratorDegree - denominatorDegree);
    LeadingStep(num, den, quo, numerator, numeratorDegree, numeratorLead,
                denominatorDegree, denominatorLead, increasedDivisor, next, quo');
  }

  /**
   * `remainder`: repeatedly cancels the numerator's leading term against the
   * denominator's, until the numerator is zero or its degree is below the
   * denominator's. The denominator must not be zero.
   */
  method Remainder(num: Polynomial, den: Polynomial) returns (r: Polynomial)
    requires !IsZero(den)
    ensures IsZero(r) || Degree(r) < Degree(den)
    ensures exists quo :: DivisionIdentity(num, den, quo, r)
  {
    var numerator := num;
    var numeratorDegree := GetDegree(numerator);
    var numeratorLead := Coeff(numerator, numeratorDegree);
    var denominatorDegree := GetDegree(den);
    var denominatorLead := Coeff(den, denominatorDegree);
    LeadingCoefficient(den);
    ghost var quo := Zero;
    ConvZero(den, Zero);
    while numeratorDegree >= denominatorDegree
      invariant numeratorDegree == Degree(numerator) && numeratorLead == Coeff(numerator, numeratorDegree)
      invariant DivisionIdentity(num, den, quo, numerator)
      invariant forall s: nat :: s + denominatorDegree <= numeratorDegree ==> Coeff(quo, s) == 0
      decreases numeratorDegree
    {
      numerator, quo := SubtractLeadingMultiple(numerator, numeratorDegree, numeratorLead,
                                                den, denominatorDegree, denominatorLead, num, quo);
      var isZero := Equals(numerator, Polynomial(map[0 := 0]));
      if isZero {
        break;
      }
      DegreeDrops(numerator, numeratorDegree);
      numeratorDegree := GetDegree(numerator);
      numeratorLead := Coeff(numerator, numeratorDegree);
    }
    r := numerator;
    assert DivisionIdentity(num, den, quo, r);
  }
  /** A non-zero den times q has no term from the degree of den up only when q is zero. */
  lemma ProductVanishes(den: Polynomial, q: Polynomial)
    requires !IsZero(den)
    requires forall m: nat :: Degree(den) <= m ==> Conv(den, q, m) == 0
    ensures IsZero(q)
  {
    ProductLeading(den, q);
    assert Conv(den, q, Degree(den) + Degree(q)) == 0;
  }

  /**
   * The remainder is unique, and so is the quotient: two divisions of num by a
   * non-zero den whose remainders are zero or of lower degree than den have
   * the same remainder and the same quotient, coefficient by coefficient.
   * Whatever order the dictionaries yield their keys in, `remainder` returns
   * the same polynomial.
   */
  lemma RemainderUnique(num: Polynomial, den: Polynomial, quo: Polynomial, rem: Polynomial,
                        quo': Polynomial, rem': Polynomial)
    requires !IsZero(den)
    requires DivisionIdentity(num, den, quo, rem) && (IsZero(rem) || Degree(rem) < Degree(den))
    requires DivisionIdentity(num, den, quo', rem') && (IsZero(rem') || Degree(rem') < Degree(den))
    ensures SameCoefficients(rem, rem')
    ensures SameCoefficients(quo, quo')
  {
    var diff := Sum(quo, quo');
    ConvSum(den, quo, quo');
    SumCoeff(quo, quo');
    forall m: nat
      ensures Conv(den, diff, m) == Add(Coeff(rem, m), Coeff(rem', m))
    {
      assert Coeff(num, m) == Add(Conv(den, quo, m), Coeff(rem, m));
      assert Coeff(num, m) == Add(Conv(den, quo', m), Coeff(rem', m));
    }
    forall m: nat | Degree(den) <= m
      ensures Conv(den, diff, m) == 0
    {
      assert Coeff(rem, m) == 0 && Coeff(rem', m) == 0;
    }
    ProductVanishes(den, diff);
    ConvZero(den, diff);
    forall m: nat
      ensures Coeff(rem, m) == Coeff(rem', m) && Coeff(quo, m) == Coeff(quo', m)
    {
      assert Coeff(diff, m) == 0;
      assert Conv(den, diff, m) == 0;
    }
  }
}
