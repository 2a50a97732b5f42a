/**
 * Multiplication of polynomials over GF(256): `multiply_by_term` and
 * `multiply_by_polynomial` of main.py, specified by the convolution of
 * coefficients.
 */
module Products {
  import opened GF256
  import opened Polynomials
  import opened FieldLaws

  /** c x^n with a single stored term. */
  function Monomial(c: bv8, n: nat): (t: Polynomial)
    ensures forall m: nat :: Coeff(t, m) == if m == n then c else 0
  {
    Polynomial(map[n := c])
  }

  /** The field sum of p_(m-i) * q_i over 0 <= i < j. */
  ghost function ConvUpTo(p: Polynomial, q: Polynomial, m: nat, j: nat): bv8
    requires j <= m + 1
    decreases j
  {
    if j == 0 then 0
    else Add(ConvUpTo(p, q, m, j - 1), Mul(Coeff(p, m - (j - 1)), Coeff(q, j - 1)))
  }

  /** The coefficient of x^m in p * q: the field sum of p_k * q_i over k + i == m. */
  ghost function Conv(p: Polynomial, q: Polynomial, m: nat): bv8
  {
    ConvUpTo(p, q, m, m + 1)
  }

  lemma {:induction false} ConvUpToCongruence(p: Polynomial, p': Polynomial, q: Polynomial, q': Polynomial, m: nat, j: nat)
    requires SameCoefficients(p, p') && SameCoefficients(q, q')
    requires j <= m + 1
    ensures ConvUpTo(p, q, m, j) == ConvUpTo(p', q', m, j)
    decreases j
  {
    if j > 0 {
      ConvUpToCongruence(p, p', q, q', m, j - 1);
      assert Coeff(p, m - (j - 1)) == Coeff(p', m - (j - 1));
      assert Coeff(q, j - 1) == Coeff(q', j - 1);
    }
  }

  /** The product depends only on the coefficients of its factors, not on stored zeros. */
  lemma ConvCongruence(p: Polynomial, p': Polynomial, q: Polynomial, q': Polynomial)
    requires SameCoefficients(p, p') && SameCoefficients(q, q')
    ensures forall m: nat :: Conv(p, q, m) == Conv(p', q', m)
  {
    forall m: nat
      ensures Conv(p, q, m) == Conv(p', q', m)
    {
      ConvUpToCongruence(p, p', q, q', m, m + 1);
    }
  }

  lemma {:induction false} ConvUpToZero(p: Polynomial, q: Polynomial, m: nat, j: nat)
    requires IsZero(q)
    requires j <= m + 1
    ensures ConvUpTo(p, q, m, j) == 0
    decreases j
  {
    if j > 0 {
      ConvUpToZero(p, q, m, j - 1);
      assert Coeff(q, j - 1) == 0;
    }
  }

  /** Multiplying by the zero polynomial gives zero. */
  lemma ConvZero(p: Polynomial, q: Polynomial)
    requires IsZero(q)
    ensures forall m: nat :: Conv(p, q, m) == 0
  {
    forall m: nat
      ensures Conv(p, q, m) == 0
    {
      ConvUpToZero(p, q, m, m + 1);
    }
  }

  lemma {:induction false} ConvUpToFresh(p: Polynomial, q: Polynomial, c: bv8, n: nat, m: nat, j: nat)
    requires Coeff(q, n) == 0
    requires j <= m + 1
    ensures ConvUpTo(p, AddTerm(q, c, n), m, j)
         == Add(ConvUpTo(p, q, m, j), if n < j then Mul(Coeff(p, m - n), c) else 0)
    decreases j
  {
    if j > 0 {
      var i := j - 1;
      var q' := AddTerm(q, c, n);
      var a := Coeff(p, m - i);
      ConvUpToFresh(p, q, c, n, m, i);
      assert ConvUpTo(p, q', m, j) == Add(ConvUpTo(p, q', m, i), Mul(a, Coeff(q', i)));
      assert ConvUpTo(p, q, m, j) == Add(ConvUpTo(p, q, m, i), Mul(a, Coeff(q, i)));
      if i == n {
        assert Coeff(q', i) == c && Coeff(q, i) == 0;
      } else {
        assert Coeff(q', i) == Coeff(q, i);
        AddSwap(ConvUpTo(p, q, m, i), if n < i then Mul(Coeff(p, m - n), c) else 0, Mul(a, Coeff(q, i)));
      }
    }
  }

  /**
   * Adding a term c x^n to a factor that has no term at power n adds
   * p_(m-n) * c to the coefficient of x^m in the product.
   */
  lemma ConvFresh(p: Polynomial, q: Polynomial, c: bv8, n: nat)
    requires Coeff(q, n) == 0
    ensures forall m: nat :: Conv(p, AddTerm(q, c, n), m)
                     == Add(Conv(p, q, m), if n <= m then Mul(Coeff(p, m - n), c) else 0)
  {
    forall m: nat
      ensures Conv(p, AddTerm(q, c, n), m)
           == Add(Conv(p, q, m), if n <= m then Mul(Coeff(p, m - n), c) else 0)
    {
      ConvUpToFresh(p, q, c, n, m, m + 1);
    }
  }

  /** Multiplying by c x^n shifts every coefficient up by n and scales it by c. */
  lemma ConvByMonomial(p: Polynomial, c: bv8, n: nat)
    ensures forall m: nat :: Conv(p, Monomial(c, n), m) == if n <= m then Mul(Coeff(p, m - n), c) else 0
  {
    ConvZero(p, Zero);
    ConvFresh(p, Zero, c, n);
    ConvCongruence(p, p, AddTerm(Zero, c, n), Monomial(c, n));
  }

  lemma {:induction false} ConvUpToBeyondDegree(p: Polynomial, q: Polynomial, m: nat, j: nat)
    requires Degree(p) + Degree(q) < m
    requires j <= m + 1
    ensures ConvUpTo(p, q, m, j) == 0
    decreases j
  {
    if j > 0 {
      ConvUpToBeyondDegree(p, q, m, j - 1);
      var i := j - 1;
      if Degree(q) < i {
        assert Coeff(q, i) == 0;
      } else {
        assert Coeff(p, m - i) == 0;
      }
    }
  }

  /** The product has no term above the sum of the degrees. */
  lemma ConvBeyondDegree(p: Polynomial, q: Polynomial, m: nat)
    requires Degree(p) + Degree(q) < m
    ensures Conv(p, q, m) == 0
  {
    ConvUpToBeyondDegree(p, q, m, m + 1);
  }

  lemma SumStep(x: bv8, x': bv8, a: bv8, b: bv8, b': bv8)
    ensures Add(Add(x, x'), Mul(a, Add(b, b'))) == Add(Add(x, Mul(a, b)), Add(x', Mul(a, b')))
  {
    MulDistributes(a, b, b');
    AddInterchange(x, x', Mul(a, b), Mul(a, b'));
  }

  lemma {:induction false} ConvUpToSum(p: Polynomial, q: Polynomial, q': Polynomial, m: nat, j: nat)
    requires j <= m + 1
    ensures ConvUpTo(p, Sum(q, q'), m, j) == Add(ConvUpTo(p, q, m, j), ConvUpTo(p, q', m, j))
    decreases j
  {
    if j > 0 {
      var i := j - 1;
      var a := Coeff(p, m - i);
      ConvUpToSum(p, q, q', m, i);
      assert ConvUpTo(p, Sum(q, q'), m, j) == Add(ConvUpTo(p, Sum(q, q'), m, i), Mul(a, Coeff(Sum(q, q'), i)));
      assert ConvUpTo(p, q, m, j) == Add(ConvUpTo(p, q, m, i), Mul(a, Coeff(q, i)));
      assert ConvUpTo(p, q', m, j) == Add(ConvUpTo(p, q', m, i), Mul(a, Coeff(q', i)));
      assert Coeff(Sum(q, q'), i) == Add(Coeff(q, i), Coeff(q', i));
      SumStep(ConvUpTo(p, q, m, i), ConvUpTo(p, q', m, i), a, Coeff(q, i), Coeff(q', i));
    }
  }

  /** The product distributes over the sum: p * (q + q') == p * q + p * q'. */
  lemma ConvSum(p: Polynomial, q: Polynomial, q': Polynomial)
    ensures forall m: nat :: Conv(p, Sum(q, q'), m) == Add(Conv(p, q, m), Conv(p, q', m))
  {
    forall m: nat
      ensures Conv(p, Sum(q, q'), m) == Add(Conv(p, q, m), Conv(p, q', m))
    {
      ConvUpToSum(p, q, q', m, m + 1);
    }
  }

  lemma {:induction false} ConvUpToAtTop(p: Polynomial, q: Polynomial, m: nat, j: nat)
    requires m == Degree(p) + Degree(q)
    requires j <= m + 1
    ensures ConvUpTo(p, q, m, j) == if Degree(q) < j then Mul(Coeff(p, Degree(p)), Coeff(q, Degree(q))) else 0
    decreases j
  {
    if j > 0 {
      ConvUpToAtTop(p, q, m, j - 1);
      var i := j - 1;
      if i < Degree(q) {
        assert Coeff(p, m - i) == 0;
      } else if Degree(q) < i {
        assert Coeff(q, i) == 0;
      }
    }
  }

  /**
   * The coefficient of the product at the sum of the degrees is the product
   * of the leading coefficients, so it is non-zero when both factors are.
   */
  lemma ProductLeading(p: Polynomial, q: Polynomial)
    ensures Conv(p, q, Degree(p) + Degree(q)) == Mul(Coeff(p, Degree(p)), Coeff(q, Degree(q)))
    ensures Conv(p, q, Degree(p) + Degree(q)) == 0 <==> IsZero(p) || IsZero(q)
  {
    ConvUpToAtTop(p, q, Degree(p) + Degree(q), Degree(p) + Degree(q) + 1);
    LeadingCoefficient(p);
    LeadingCoefficient(q);
  }

  /**
   * The product p * q, storing every power up to the sum of the degrees. It is
   * built through a countdown that does not change the value but keeps the
   * solver from expanding the map wherever a product appears; the coefficients
   * are what the ensures clause states.
   */
  ghost function Product(p: Polynomial, q: Polynomial): (r: Polynomial)
    ensures forall m: nat :: Coeff(r, m) == Conv(p, q, m)
  {
    ProductBuild(p, q, Degree(p))
  }

  ghost function ProductBuild(p: Polynomial, q: Polynomial, countdown: nat): (r: Polynomial)
    ensures forall m: nat :: Coeff(r, m) == Conv(p, q, m)
    decreases countdown
  {
    if countdown > 0 then ProductBuild(p, q, countdown - 1) else
    var r := Polynomial(map m: nat | m <= Degree(p) + Degree(q) :: Conv(p, q, m));
    forall m: nat | Degree(p) + Degree(q) < m
      ensures Conv(p, q, m) == 0
    {
      ConvBeyondDegree(p, q, m);
    }
    r
  }

  /**
   * `multiply_by_term`: every stored power k of p becomes k + n with
   * coefficient p_k * c, stored zeros included.
   */
  method MultiplyByTerm(p: Polynomial, c: bv8, n: nat) returns (r: Polynomial)
    ensures forall m: nat :: m in r.terms <==> n <= m && m - n in p.terms
    ensures forall k: nat :: k in p.terms ==> r.terms[k + n] == Mul(p.terms[k], c)
    ensures forall m: nat :: Coeff(r, m) == Conv(p, Monomial(c, n), m)
  {
    var result: map<nat, bv8> := map[];
    var todo := p.terms.Keys;
    while todo != {}
      invariant todo <= p.terms.Keys
      invariant forall m: nat :: m in result <==> n <= m && m - n in p.terms.Keys - todo
      invariant forall k: nat :: k in p.terms.Keys - todo ==> result[k + n] == Mul(p.terms[k], c)
      decreases todo
    {
      var power :| power in todo;
      result := result[power + n := Mul(p.terms[power], c)];
      todo := todo - {power};
    }
    r := Polynomial(result);
    ConvByMonomial(p, c, n);
    forall m: nat
      ensures Coeff(r, m) == Conv(p, Monomial(c, n), m)
    {
      if n <= m && m - n in p.terms {
        assert Coeff(r, m) == Mul(p.terms[m - n], c);
      } else {
        assert m !in r.terms;
      }
    }
  }

  /** The terms of q at the powers in s. */
  ghost function Restrict(q: Polynomial, s: set<nat>): Polynomial
  {
    Polynomial(map n | n in q.terms && n in s :: q.terms[n])
  }

  lemma RestrictStep(q: Polynomial, s: set<nat>, n: nat)
    requires n in q.terms && n !in s
    ensures Coeff(Restrict(q, s), n) == 0
    ensures SameCoefficients(Restrict(q, s + {n}), AddTerm(Restrict(q, s), q.terms[n], n))
  {
  }

  /**
   * `multiply_by_polynomial`: starts from the zero polynomial and adds
   * p * (c x^n) for every stored term c x^n of `other`, in any order.
   */
  method MultiplyByPolynomial(p: Polynomial, other: Polynomial) returns (r: Polynomial)
    ensures forall m: nat :: Coeff(r, m) == Conv(p, other, m)
  {
    r := Zero;
    var todo := other.terms.Keys;
    ConvZero(p, Restrict(other, {}));
    while todo != {}
      invariant todo <= other.terms.Keys
      invariant forall m: nat :: Coeff(r, m) == Conv(p, Restrict(other, other.terms.Keys - todo), m)
      decreases todo
    {
      var power :| power in todo;
      var done := other.terms.Keys - todo;
      var termMultiplied := MultiplyByTerm(p, other.terms[power], power);
      var next := AddPolynomial(r, termMultiplied);
      RestrictStep(other, done, power);
      ConvFresh(p, Restrict(other, done), other.terms[power], power);
      ConvByMonomial(p, other.terms[power], power);
      ConvCongruence(p, p, Restrict(other, done + {power}), AddTerm(Restrict(other, done), other.terms[power], power));
      SumCoeff(r, termMultiplied);
      assert other.terms.Keys - (todo - {power}) == done + {power};
      r := next;
      todo := todo - {power};
    }
    assert other.terms.Keys - todo == other.terms.Keys;
    ConvCongruence(p, p, Restrict(other, other.terms.Keys), other);
  }
}
