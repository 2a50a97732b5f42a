/**
 * Polynomials over GF(256), as the `Polynomial` class of main.py represents
 * them: a dictionary from powers to coefficients. The dictionary may hold
 * explicit zero coefficients, and a power that is absent means coefficient 0,
 * so two different dictionaries can denote the same polynomial. Every
 * operation builds a new dictionary and leaves its inputs alone, so a
 * polynomial is a value here.
 *
 * This module holds the representation, its meaning (Coeff, Degree,
 * SameCoefficients), the queries `get_degree`, `get_coefficient` and `__eq__`,
 * and the additive operations.
 */
module Polynomials {
  import opened GF256

  datatype Polynomial = Polynomial(terms: map<nat, bv8>)

  /** The zero polynomial with no stored terms, as `Polynomial()` builds it. */
  const Zero: Polynomial := Polynomial(map[])

  /** The coefficient of x^n: the stored one, or 0 when the power is absent. */
  function Coeff(p: Polynomial, n: nat): (c: bv8)
    ensures n !in p.terms ==> c == 0
    ensures n in p.terms ==> c == p.terms[n]
  {
    if n in p.terms then p.terms[n] else 0
  }

  /** Every coefficient is 0, whatever zeros are stored. */
  ghost predicate IsZero(p: Polynomial)
  {
    forall n: nat :: Coeff(p, n) == 0
  }

  /** Equality of polynomials: the same coefficient at every power. */
  ghost predicate SameCoefficients(p: Polynomial, q: Polynomial)
  {
    forall n: nat :: Coeff(p, n) == Coeff(q, n)
  }

  /**
   * d is the degree of p: no non-zero coefficient above d, and the coefficient
   * at d is non-zero unless d is 0 (the degree of a zero polynomial is 0).
   */
  ghost predicate IsDegree(p: Polynomial, d: nat)
  {
    (forall n: nat :: d < n ==> Coeff(p, n) == 0) && (d == 0 || Coeff(p, d) != 0)
  }

  /** The largest power among `powers` with a non-zero coefficient, or 0. */
  ghost function HighestNonZero(p: Polynomial, powers: set<nat>): (d: nat)
    ensures forall n: nat :: n in powers && Coeff(p, n) != 0 ==> n <= d
    ensures d == 0 || (d in powers && Coeff(p, d) != 0)
    decreases powers
  {
    if powers == {} then 0
    else
      var n :| n in powers;
      var rest := HighestNonZero(p, powers - {n});
      if n > rest && Coeff(p, n) != 0 then n else rest
  }

  ghost function Degree(p: Polynomial): (d: nat)
    ensures IsDegree(p, d)
  {
    HighestNonZero(p, p.terms.Keys)
  }

  /** A polynomial has exactly one degree. */
  lemma DegreeUnique(p: Polynomial, d: nat, e: nat)
    requires IsDegree(p, d) && IsDegree(p, e)
    ensures d == e
  {
    assert d < e ==> Coeff(p, e) == 0;
    assert e < d ==> Coeff(p, d) == 0;
  }

  /** Degree depends only on the coefficients, not on stored zeros. */
  lemma SameDegree(p: Polynomial, q: Polynomial)
    requires SameCoefficients(p, q)
    ensures Degree(p) == Degree(q)
  {
    assert IsDegree(q, Degree(p));
    DegreeUnique(q, Degree(p), Degree(q));
  }

  /** A non-zero polynomial has a non-zero leading coefficient. */
  lemma LeadingCoefficient(p: Polynomial)
    ensures IsZero(p) <==> Coeff(p, Degree(p)) == 0
  {
    if !IsZero(p) && Coeff(p, Degree(p)) == 0 {
      var n :| Coeff(p, n) != 0;
      assert false;
    }
  }

  /**
   * `get_degree`: scans the stored powers and keeps the highest one whose
   * coefficient is non-zero, starting from 0.
   */
  method GetDegree(p: Polynomial) returns (d: nat)
    ensures d == Degree(p)
  {
    d := 0;
    var todo := p.terms.Keys;
    while todo != {}
      invariant todo <= p.terms.Keys
      invariant d == 0 || Coeff(p, d) != 0
      invariant forall n: nat :: n in p.terms.Keys - todo && Coeff(p, n) != 0 ==> n <= d
      decreases todo
    {
      var power :| power in todo;
      if power > d && p.terms[power] != 0 {
        d := power;
      }
      todo := todo - {power};
    }
    DegreeUnique(p, d, Degree(p));
  }

  /**
   * `__eq__`: every non-zero term of `other` must be stored in `p` with the
   * same coefficient, and every non-zero term of `p` in `other`.
   */
  method Equals(p: Polynomial, other: Polynomial) returns (eq: bool)
    ensures eq <==> SameCoefficients(p, other)
  {
    var todo := other.terms.Keys;
    while todo != {}
      invariant todo <= other.terms.Keys
      invariant forall n: nat :: n in other.terms.Keys - todo ==> other.terms[n] == 0 || Coeff(p, n) == other.terms[n]
      decreases todo
    {
      var power :| power in todo;
      if other.terms[power] != 0 {
        if power !in p.terms {
          assert Coeff(p, power) != Coeff(other, power);
          return false;
        }
        if p.terms[power] != other.terms[power] {
          assert Coeff(p, power) != Coeff(other, power);
          return false;
        }
      }
      todo := todo - {power};
    }
    todo := p.terms.Keys;
    while todo != {}
      invariant todo <= p.terms.Keys
      invariant forall n: nat :: n in p.terms.Keys - todo ==> p.terms[n] == 0 || Coeff(other, n) == p.terms[n]
      decreases todo
    {
      var power :| power in todo;
      if p.terms[power] != 0 {
        if power !in other.terms {
          assert Coeff(other, power) != Coeff(p, power);
          return false;
        }
        if other.terms[power] != p.terms[power] {
          assert Coeff(other, power) != Coeff(p, power);
          return false;
        }
      }
      todo := todo - {power};
    }
    return true;
  }

  /** `add_term`: c x^n added to p; only the coefficient at n changes. */
  function AddTerm(p: Polynomial, c: bv8, n: nat): (r: Polynomial)
    ensures r.terms.Keys == p.terms.Keys + {n}
    ensures Coeff(r, n) == Add(Coeff(p, n), c)
    ensures forall m: nat :: m != n ==> Coeff(r, m) == Coeff(p, m)
  {
    Polynomial(p.terms[n := Add(Coeff(p, n), c)])
  }

  /**
   * `subtract_term`: c x^n subtracted from p. In characteristic 2 subtracting
   * is adding, and main.py computes it with the same field addition.
   */
  function SubtractTerm(p: Polynomial, c: bv8, n: nat): (r: Polynomial)
    ensures SameCoefficients(AddTerm(r, c, n), p)
    ensures forall m: nat :: m != n ==> Coeff(r, m) == Coeff(p, m)
  {
    AddTerm(p, c, n)
  }

  /** Subtracting a term undoes adding it. */
  lemma SubtractTermUndoesAddTerm(p: Polynomial, c: bv8, n: nat)
    ensures SameCoefficients(SubtractTerm(AddTerm(p, c, n), c, n), p)
  {
    var r := SubtractTerm(AddTerm(p, c, n), c, n);
    assert Coeff(r, n) == Coeff(p, n) ^ c ^ c;
  }

  /** The coefficientwise field sum of p and q, over the powers stored in either. */
  ghost function Sum(p: Polynomial, q: Polynomial): (r: Polynomial)
    ensures r.terms.Keys == p.terms.Keys + q.terms.Keys
  {
    Polynomial(map n | n in p.terms.Keys + q.terms.Keys :: Add(Coeff(p, n), Coeff(q, n)))
  }

  lemma SumCoeff(p: Polynomial, q: Polynomial)
    ensures forall n: nat :: Coeff(Sum(p, q), n) == Add(Coeff(p, n), Coeff(q, n))
  {
  }

  lemma SumCommutes(p: Polynomial, q: Polynomial)
    ensures Sum(p, q) == Sum(q, p)
  {
    assert forall n: nat :: Add(Coeff(p, n), Coeff(q, n)) == Add(Coeff(q, n), Coeff(p, n));
  }

  /** Adding a polynomial and then subtracting it again gives the original. */
  lemma SumCancels(p: Polynomial, q: Polynomial)
    ensures SameCoefficients(Sum(Sum(p, q), q), p)
    ensures IsZero(Sum(q, q))
  {
    forall n
      ensures Coeff(Sum(Sum(p, q), q), n) == Coeff(p, n)
    {
      assert Coeff(Sum(Sum(p, q), q), n) == Coeff(p, n) ^ Coeff(q, n) ^ Coeff(q, n);
    }
  }

  /** The degree of a sum is at most the larger degree. */
  lemma SumDegree(p: Polynomial, q: Polynomial)
    ensures Degree(Sum(p, q)) <= if Degree(p) < Degree(q) then Degree(q) else Degree(p)
  {
    var top := if Degree(p) < Degree(q) then Degree(q) else Degree(p);
    assert forall n: nat :: top < n ==> Coeff(Sum(p, q), n) == 0;
  }

  /**
   * `Polynomial()` is the zero polynomial: no non-zero coefficient, degree 0,
   * and the unit of addition.
   */
  lemma ZeroIsUnit(p: Polynomial)
    ensures IsZero(Zero) && Degree(Zero) == 0
    ensures SameCoefficients(Sum(Zero, p), p) && SameCoefficients(Sum(p, Zero), p)
  {
    SumCoeff(Zero, p);
    SumCoeff(p, Zero);
    forall n: nat
      ensures Coeff(Sum(Zero, p), n) == Coeff(p, n) && Coeff(Sum(p, Zero), n) == Coeff(p, n)
    {
      assert 0 ^ Coeff(p, n) == Coeff(p, n) && Coeff(p, n) ^ 0 == Coeff(p, n);
    }
  }

  /**
   * `add_polynomial`: starts from a copy of p and adds the terms of `other`
   * one at a time, in whatever order the dictionary yields them.
   */
  method AddPolynomial(p: Polynomial, other: Polynomial) returns (r: Polynomial)
    ensures r == Sum(p, other)
  {
    r := p;
    var todo := other.terms.Keys;
    while todo != {}
      invariant todo <= other.terms.Keys
      invariant r.terms.Keys == p.terms.Keys + (other.terms.Keys - todo)
      invariant forall n: nat :: n !in todo ==> Coeff(r, n) == Add(Coeff(p, n), Coeff(other, n))
      invariant forall n: nat :: n in todo ==> Coeff(r, n) == Coeff(p, n)
      decreases todo
    {
      var power :| power in todo;
      r := AddTerm(r, other.terms[power], power);
      todo := todo - {power};
    }
    assert r.terms == Sum(p, other).terms;
  }

  /**
   * `subtract_polynomial`: main.py repeats the loop of `add_polynomial`, since
   * subtraction is addition in characteristic 2; the model reuses it.
   */
  method SubtractPolynomial(p: Polynomial, other: Polynomial) returns (r: Polynomial)
    ensures r == Sum(p, other)
    ensures SameCoefficients(Sum(r, other), p)
  {
    r := AddPolynomial(p, other);
    SumCancels(p, other);
  }
}
