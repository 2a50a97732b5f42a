/**
 * Evaluation of a polynomial at a field element, and the fact that
 * evaluation turns the product of polynomials into the product of field
 * elements. main.py never evaluates a polynomial; evaluation is what gives
 * the generator its roots 2^0, ..., 2^(k-1) and makes every codeword vanish
 * there.
 */
module Evaluation {
  import opened GF256
  import opened FieldLaws
  import opened Polynomials
  import opened Products

  /** p_0 y^0 + p_1 y^1 + ... + p_(n-1) y^(n-1). */
  ghost function EvalUpTo(p: Polynomial, y: bv8, n: nat): bv8
    decreases n
  {
    if n == 0 then 0 else Add(EvalUpTo(p, y, n - 1), Mul(Coeff(p, n - 1), Power(y, n - 1)))
  }

  /** The value of p at y: the sum of p_m y^m over every power up to the degree. */
  ghost function Eval(p: Polynomial, y: bv8): bv8
  {
    EvalUpTo(p, y, Degree(p) + 1)
  }

  /** Every coefficient from power n up is 0. */
  ghost predicate Below(p: Polynomial, n: nat)
  {
    forall m: nat :: n <= m ==> Coeff(p, m) == 0
  }

  /** Adding powers whose coefficients are 0 does not change the partial sum. */
  lemma {:induction false} EvalUpToStable(p: Polynomial, y: bv8, n: nat, n': nat)
    requires Below(p, n) && n <= n'
    ensures EvalUpTo(p, y, n') == EvalUpTo(p, y, n)
    decreases n'
  {
    if n < n' {
      EvalUpToStable(p, y, n, n' - 1);
      assert Coeff(p, n' - 1) == 0;
    }
  }

  /** Any bound beyond which p has no terms gives the value of p. */
  lemma EvalBelow(p: Polynomial, y: bv8, n: nat)
    requires Below(p, n)
    ensures EvalUpTo(p, y, n) == Eval(p, y)
  {
    var d := Degree(p) + 1;
    if n <= d {
      EvalUpToStable(p, y, n, d);
    } else {
      EvalUpToStable(p, y, d, n);
    }
  }

  lemma {:induction false} EvalUpToCongruence(p: Polynomial, q: Polynomial, y: bv8, n: nat)
    requires SameCoefficients(p, q)
    ensures EvalUpTo(p, y, n) == EvalUpTo(q, y, n)
    decreases n
  {
    if n > 0 {
      EvalUpToCongruence(p, q, y, n - 1);
      assert Coeff(p, n - 1) == Coeff(q, n - 1);
    }
  }

  /** The value depends only on the coefficients, not on stored zeros. */
  lemma EvalCongruence(p: Polynomial, q: Polynomial, y: bv8)
    requires SameCoefficients(p, q)
    ensures Eval(p, y) == Eval(q, y)
  {
    SameDegree(p, q);
    EvalUpToCongruence(p, q, y, Degree(p) + 1);
  }

  lemma {:induction false} EvalUpToZero(p: Polynomial, y: bv8, n: nat)
    requires IsZero(p)
    ensures EvalUpTo(p, y, n) == 0
    decreases n
  {
    if n > 0 {
      EvalUpToZero(p, y, n - 1);
      assert Coeff(p, n - 1) == 0;
    }
  }

  /** Evaluation is additive: if r = a + b coefficientwise, r(y) = a(y) + b(y). */
  lemma {:induction false} EvalUpToSum(r: Polynomial, a: Polynomial, b: Polynomial, y: bv8, n: nat)
    requires forall m: nat :: Coeff(r, m) == Add(Coeff(a, m), Coeff(b, m))
    ensures EvalUpTo(r, y, n) == Add(EvalUpTo(a, y, n), EvalUpTo(b, y, n))
    decreases n
  {
    if n > 0 {
      var i := n - 1;
      var t := Power(y, i);
      EvalUpToSum(r, a, b, y, i);
      assert EvalUpTo(r, y, n) == Add(EvalUpTo(r, y, i), Mul(Coeff(r, i), t));
      assert EvalUpTo(a, y, n) == Add(EvalUpTo(a, y, i), Mul(Coeff(a, i), t));
      assert EvalUpTo(b, y, n) == Add(EvalUpTo(b, y, i), Mul(Coeff(b, i), t));
      MulDistributesRight(Coeff(a, i), Coeff(b, i), t);
      AddInterchange(EvalUpTo(a, y, i), EvalUpTo(b, y, i), Mul(Coeff(a, i), t), Mul(Coeff(b, i), t));
    }
  }

  /** The monomial c x^s evaluates to c y^s once the bound passes s. */
  lemma {:induction false} EvalUpToMonomial(c: bv8, s: nat, y: bv8, n: nat)
    ensures EvalUpTo(Monomial(c, s), y, n) == if s < n then Mul(c, Power(y, s)) else 0
    decreases n
  {
    if n > 0 {
      var i := n - 1;
      EvalUpToMonomial(c, s, y, i);
      assert EvalUpTo(Monomial(c, s), y, n) == Add(EvalUpTo(Monomial(c, s), y, i), Mul(Coeff(Monomial(c, s), i), Power(y, i)));
      if i != s {
        assert Coeff(Monomial(c, s), i) == 0;
      }
    }
  }

  /** A polynomial whose terms all sit at power s or above sums to 0 below s. */
  lemma {:induction false} EvalUpToShiftedLow(r: Polynomial, p: Polynomial, c: bv8, s: nat, y: bv8, n: nat)
    requires forall m: nat :: Coeff(r, m) == if s <= m then Mul(Coeff(p, m - s), c) else 0
    requires n <= s
    ensures EvalUpTo(r, y, n) == 0
    decreases n
  {
    if n > 0 {
      EvalUpToShiftedLow(r, p, c, s, y, n - 1);
      assert Coeff(r, n - 1) == 0;
    }
  }

  /** One more term of p y^s c: the step of EvalUpToShifted. */
  lemma ShiftedStep(e: bv8, pi: bv8, c: bv8, ys: bv8, yi: bv8, yis: bv8)
    requires yis == Mul(yi, ys)
    ensures Add(Mul(Mul(c, ys), e), Mul(Mul(pi, c), yis)) == Mul(Mul(c, ys), Add(e, Mul(pi, yi)))
  {
    MulDistributes(Mul(c, ys), e, Mul(pi, yi));
    MulRegroup(pi, c, yi, ys);
  }

  /** Multiplying p by c x^s multiplies its value by c y^s. */
  lemma {:induction false} EvalUpToShifted(r: Polynomial, p: Polynomial, c: bv8, s: nat, y: bv8, n: nat)
    requires forall m: nat :: Coeff(r, m) == if s <= m then Mul(Coeff(p, m - s), c) else 0
    ensures EvalUpTo(r, y, n + s) == Mul(Mul(c, Power(y, s)), EvalUpTo(p, y, n))
    decreases n
  {
    if n == 0 {
      EvalUpToShiftedLow(r, p, c, s, y, s);
    } else {
      var i := n - 1;
      EvalUpToShifted(r, p, c, s, y, i);
      assert EvalUpTo(r, y, n + s) == Add(EvalUpTo(r, y, i + s), Mul(Coeff(r, i + s), Power(y, i + s)));
      assert Coeff(r, i + s) == Mul(Coeff(p, i), c);
      assert EvalUpTo(p, y, n) == Add(EvalUpTo(p, y, i), Mul(Coeff(p, i), Power(y, i)));
      PowerAdd(y, i, s);
      ShiftedStep(EvalUpTo(p, y, i), Coeff(p, i), c, Power(y, s), Power(y, i), Power(y, i + s));
    }
  }

  /** A polynomial of shifted and scaled coefficients of p evaluates to c y^s p(y), at any bound past both. */
  lemma ShiftedEval(r: Polynomial, p: Polynomial, c: bv8, s: nat, y: bv8, np: nat, n: nat)
    requires c != 0
    requires forall m: nat :: Coeff(r, m) == if s <= m then Mul(Coeff(p, m - s), c) else 0
    requires Below(p, np) && np + s <= n
    ensures EvalUpTo(r, y, n) == Mul(Mul(c, Power(y, s)), EvalUpTo(p, y, np))
  {
    EvalUpToShifted(r, p, c, s, y, np);
    ShiftedBelow(r, p, c, s, np);
    EvalUpToStable(r, y, np + s, n);
  }

  /** Shifting p up by s moves its bound np up by s. */
  lemma ShiftedBelow(r: Polynomial, p: Polynomial, c: bv8, s: nat, np: nat)
    requires forall m: nat :: Coeff(r, m) == if s <= m then Mul(Coeff(p, m - s), c) else 0
    requires Below(p, np)
    ensures Below(r, np + s)
  {
    forall m: nat | np + s <= m
      ensures Coeff(r, m) == 0
    {
      assert Coeff(p, m - s) == 0;
    }
  }

  /** With c == 0 the shifted and scaled polynomial is zero, and so is c y^s p(y). */
  lemma ShiftedEvalZero(r: Polynomial, p: Polynomial, c: bv8, s: nat, y: bv8, np: nat, n: nat)
    requires c == 0
    requires forall m: nat :: Coeff(r, m) == if s <= m then Mul(Coeff(p, m - s), c) else 0
    ensures EvalUpTo(r, y, n) == Mul(Mul(c, Power(y, s)), EvalUpTo(p, y, np))
  {
    assert IsZero(r);
    EvalUpToZero(r, y, n);
    var cy := Mul(c, Power(y, s));
    assert cy == 0;
    assert Mul(cy, EvalUpTo(p, y, np)) == 0;
  }

  /** The product of p and c x^s evaluates to c y^s p(y), at any bound past both. */
  lemma ProductMonomialEval(p: Polynomial, c: bv8, s: nat, y: bv8, np: nat, n: nat)
    requires Below(p, np)
    requires np + s <= n || c == 0
    ensures EvalUpTo(Product(p, Monomial(c, s)), y, n) == Mul(Mul(c, Power(y, s)), EvalUpTo(p, y, np))
  {
    ConvByMonomial(p, c, s);
    if c == 0 {
      ShiftedEvalZero(Product(p, Monomial(c, s)), p, c, s, y, np, n);
    } else {
      ShiftedEval(Product(p, Monomial(c, s)), p, c, s, y, np, n);
    }
  }

  /**
   * The values combine: if e1 == p(y) a(y) + k p(y) and b(y) == a(y) + m for
   * m == k, then e1 == p(y) b(y).
   */
  lemma ProductStep(e1: bv8, ep: bv8, ea: bv8, eb: bv8, m: bv8, k: bv8)
    requires e1 == Add(Mul(ep, ea), Mul(k, ep)) && eb == Add(ea, m) && m == k
    ensures e1 == Mul(ep, eb)
  {
    MulDistributes(ep, ea, m);
    MulCommutes(ep, m);
  }

  /** p * (r + c x^n) is p * r plus p * c x^n, coefficient by coefficient. */
  lemma ProductSplit(p: Polynomial, r: Polynomial, r': Polynomial, c: bv8, n: nat)
    requires Coeff(r, n) == 0 && SameCoefficients(r', AddTerm(r, c, n))
    ensures forall m: nat :: Coeff(Product(p, r'), m) == Add(Coeff(Product(p, r), m), Coeff(Product(p, Monomial(c, n)), m))
  {
    ConvCongruence(p, p, r', AddTerm(r, c, n));
    ConvFresh(p, r, c, n);
    ConvByMonomial(p, c, n);
  }

  /** Adding c x^n, at a power where r has no term, adds c y^n to the value once the bound passes n. */
  lemma FreshTermEval(r: Polynomial, r': Polynomial, c: bv8, n: nat, y: bv8, nq: nat)
    requires Coeff(r, n) == 0 && SameCoefficients(r', AddTerm(r, c, n))
    ensures EvalUpTo(r', y, nq) == Add(EvalUpTo(r, y, nq), if n < nq then Mul(c, Power(y, n)) else 0)
  {
    var mono := Monomial(c, n);
    forall m: nat
      ensures Coeff(r', m) == Add(Coeff(r, m), Coeff(mono, m))
    {
      assert Coeff(r', m) == Coeff(AddTerm(r, c, n), m);
    }
    EvalUpToSum(r', r, mono, y, nq);
    EvalUpToMonomial(c, n, y, nq);
  }

  /** The value of p * (r + c x^n) is the value of p * r plus the value of p * c x^n. */
  lemma ProductSplitEval(p: Polynomial, r: Polynomial, r': Polynomial, c: bv8, n: nat, y: bv8, bound: nat)
    requires Coeff(r, n) == 0 && SameCoefficients(r', AddTerm(r, c, n))
    ensures EvalUpTo(Product(p, r'), y, bound)
         == Add(EvalUpTo(Product(p, r), y, bound), EvalUpTo(Product(p, Monomial(c, n)), y, bound))
  {
    ProductSplit(p, r, r', c, n);
    EvalUpToSum(Product(p, r'), Product(p, r), Product(p, Monomial(c, n)), y, bound);
  }

  /** A term that q stores past a bound beyond which q is zero is a stored zero. */
  lemma StoredBelow(q: Polynomial, n: nat, nq: nat)
    requires Below(q, nq) && n in q.terms
    ensures n < nq || q.terms[n] == 0
  {
    if nq <= n {
      assert Coeff(q, n) == 0;
    }
  }

  /**
   * Adding the term c x^n of q, at a power where the part r of q built so far
   * has no term, keeps p(y) r(y) equal to the value of p * r.
   */
  lemma ProductFreshEval(p: Polynomial, q: Polynomial, r: Polynomial, r': Polynomial, c: bv8, n: nat,
                         y: bv8, np: nat, nq: nat)
    requires Below(p, np) && Below(q, nq)
    requires n in q.terms && c == q.terms[n]
    requires Coeff(r, n) == 0 && SameCoefficients(r', AddTerm(r, c, n))
    requires EvalUpTo(Product(p, r), y, np + nq) == Mul(EvalUpTo(p, y, np), EvalUpTo(r, y, nq))
    ensures EvalUpTo(Product(p, r'), y, np + nq) == Mul(EvalUpTo(p, y, np), EvalUpTo(r', y, nq))
  {
    var b, mono := np + nq, Monomial(c, n);
    var ep, er := EvalUpTo(p, y, np), EvalUpTo(r, y, nq);
    var cy := Mul(c, Power(y, n));
    ProductSplitEval(p, r, r', c, n, y, b);
    StoredBelow(q, n, nq);
    ProductMonomialEval(p, c, n, y, np, b);
    FreshTermEval(r, r', c, n, y, nq);
    ProductStep(EvalUpTo(Product(p, r'), y, b), ep, er, EvalUpTo(r', y, nq), if n < nq then cy else 0, cy);
  }

  /** p(y) r(y) is the value of p * r, for r the terms of q at the powers in s. */
  lemma {:induction false} EvalProductRestrict(p: Polynomial, q: Polynomial, y: bv8, np: nat, nq: nat, s: set<nat>)
    requires Below(p, np) && Below(q, nq)
    requires s <= q.terms.Keys
    ensures EvalUpTo(Product(p, Restrict(q, s)), y, np + nq) == Mul(EvalUpTo(p, y, np), EvalUpTo(Restrict(q, s), y, nq))
    decreases s
  {
    if s == {} {
      ConvZero(p, Restrict(q, s));
      EvalUpToZero(Product(p, Restrict(q, s)), y, np + nq);
      EvalUpToZero(Restrict(q, s), y, nq);
    } else {
      var n :| n in s;
      var s' := s - {n};
      EvalProductRestrict(p, q, y, np, nq, s');
      RestrictStep(q, s', n);
      assert s' + {n} == s;
      ProductFreshEval(p, q, Restrict(q, s'), Restrict(q, s), q.terms[n], n, y, np, nq);
    }
  }

  /** p * q has no term past the sum of the degrees. */
  lemma ProductBelow(p: Polynomial, q: Polynomial, n: nat)
    requires Degree(p) + Degree(q) < n
    ensures Below(Product(p, q), n)
  {
    forall m: nat | n <= m
      ensures Coeff(Product(p, q), m) == 0
    {
      ConvBeyondDegree(p, q, m);
    }
  }

  /** p has no term past its degree. */
  lemma BelowDegree(p: Polynomial)
    ensures Below(p, Degree(p) + 1)
  {
  }

  /** Evaluation is multiplicative: (p * q)(y) == p(y) q(y). */
  lemma EvalProduct(p: Polynomial, q: Polynomial, y: bv8)
    ensures Eval(Product(p, q), y) == Mul(Eval(p, y), Eval(q, y))
  {
    var np, nq := Degree(p) + 1, Degree(q) + 1;
    var b := np + nq;
    var keys := q.terms.Keys;
    var all := Restrict(q, keys);
    BelowDegree(p);
    BelowDegree(q);
    EvalProductRestrict(p, q, y, np, nq, keys);
    assert SameCoefficients(all, q);
    EvalUpToCongruence(all, q, y, nq);
    ConvCongruence(p, p, all, q);
    EvalUpToCongruence(Product(p, all), Product(p, q), y, b);
    ProductBelow(p, q, b);
    EvalBelow(Product(p, q), y, b);
  }
}
