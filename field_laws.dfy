/**
 * The field laws of GF256 that polynomial arithmetic relies on beyond
 * commutativity and the unit: associativity of multiplication and its
 * distributivity over addition. Both are proved through the logarithm
 * representation: every non-zero element is a power of 2, multiplying powers
 * of 2 adds exponents, and doubling distributes over exclusive or.
 */
module FieldLaws {
  import opened GF256

  /** Field addition is associative and commutative, so four summands can be regrouped. */
  lemma AddInterchange(w: bv8, x: bv8, y: bv8, z: bv8)
    ensures Add(Add(w, x), Add(y, z)) == Add(Add(w, y), Add(x, z))
  {
    assert (w ^ x) ^ (y ^ z) == (w ^ y) ^ (x ^ z);
  }

  /** The last two of three summands can be swapped. */
  lemma AddSwap(x: bv8, y: bv8, z: bv8)
    ensures Add(Add(x, y), z) == Add(Add(x, z), y)
  {
    assert (x ^ y) ^ z == (x ^ z) ^ y;
  }

  /** Every element is its own negative: a sum is 0 exactly when the summands are equal, and 0 is the unit. */
  lemma AddSelf(a: bv8, b: bv8)
    ensures Add(a, b) == 0 <==> a == b
    ensures Add(0, a) == a && Add(a, 0) == a
  {
    assert (a ^ b == 0) <==> a == b;
    assert 0 ^ a == a && a ^ 0 == a;
  }

  /** y^0 == 1 and y^1 == y. */
  lemma PowerOne(y: bv8)
    ensures Power(y, 0) == 1 && Power(y, 1) == y
  {
    MulOne(y);
  }

  lemma ShiftXor(a: bv8, b: bv8)
    ensures (a ^ b) << 1 == (a << 1) ^ (b << 1)
  {
  }

  lemma TopBitXor(a: bv8, b: bv8)
    ensures (a ^ b) & 0x80 == 0 <==> (a & 0x80 == 0 <==> b & 0x80 == 0)
  {
  }

  lemma XorRegroup(x: bv8, y: bv8, c: bv8)
    ensures (x ^ y) ^ c == (x ^ c) ^ y
    ensures (x ^ y) ^ c == x ^ (y ^ c)
    ensures x ^ y == (x ^ c) ^ (y ^ c)
  {
  }

  /** Doubling distributes over field addition. */
  lemma XTimeAdd(a: bv8, b: bv8)
    ensures XTime(Add(a, b)) == Add(XTime(a), XTime(b))
  {
    ShiftXor(a, b);
    TopBitXor(a, b);
    XorRegroup(a << 1, b << 1, 0x1D);
  }

  lemma ModAdd(i: nat, j: nat)
    ensures (i % 255 + j % 255) % 255 == (i + j) % 255
  {
  }

  /** Multiplying powers of 2 adds the exponents. */
  lemma MulExp(i: nat, j: nat)
    ensures Mul(Exp(i), Exp(j)) == Exp(i + j)
  {
    ExpModulo(i);
    ExpModulo(j);
    ExpModulo(i + j);
    LogOfExp(i % 255);
    LogOfExp(j % 255);
    ModAdd(i, j);
  }

  /** Doubling a factor doubles the product. */
  lemma MulXTime(a: bv8, x: bv8)
    ensures Mul(XTime(a), x) == XTime(Mul(a, x))
  {
    if a != 0 && x != 0 {
      ExpOfLog(a);
      ExpOfLog(x);
      MulExp(Log(a) + 1, Log(x));
      MulExp(Log(a), Log(x));
      assert Log(a) + 1 + Log(x) == (Log(a) + Log(x)) + 1;
    }
  }

  /** Multiplication by a power of 2 distributes over field addition. */
  lemma {:induction false} MulExpDistributes(i: nat, b: bv8, c: bv8)
    ensures Mul(Exp(i), Add(b, c)) == Add(Mul(Exp(i), b), Mul(Exp(i), c))
  {
    if i == 0 {
      MulOne(b);
      MulOne(c);
      MulOne(Add(b, c));
    } else {
      MulExpDistributes(i - 1, b, c);
      MulXTime(Exp(i - 1), Add(b, c));
      MulXTime(Exp(i - 1), b);
      MulXTime(Exp(i - 1), c);
      XTimeAdd(Mul(Exp(i - 1), b), Mul(Exp(i - 1), c));
    }
  }

  /** Field multiplication distributes over field addition. */
  lemma MulDistributes(a: bv8, b: bv8, c: bv8)
    ensures Mul(a, Add(b, c)) == Add(Mul(a, b), Mul(a, c))
  {
    if a != 0 {
      ExpOfLog(a);
      MulExpDistributes(Log(a), b, c);
    }
  }
  /** Field multiplication is associative. */
  lemma MulAssociates(a: bv8, b: bv8, c: bv8)
    ensures Mul(Mul(a, b), c) == Mul(a, Mul(b, c))
  {
    if a != 0 && b != 0 && c != 0 {
      ExpOfLog(a);
      ExpOfLog(b);
      ExpOfLog(c);
      MulExp(Log(a), Log(b));
      MulExp(Log(a) + Log(b), Log(c));
      MulExp(Log(b), Log(c));
      MulExp(Log(a), Log(b) + Log(c));
      assert Log(a) + Log(b) + Log(c) == Log(a) + (Log(b) + Log(c));
    }
  }
  /** Multiplication distributes over addition from the right as well. */
  lemma MulDistributesRight(a: bv8, b: bv8, c: bv8)
    ensures Mul(Add(a, b), c) == Add(Mul(a, c), Mul(b, c))
  {
    MulDistributes(c, a, b);
    MulCommutes(Add(a, b), c);
    MulCommutes(a, c);
    MulCommutes(b, c);
  }

  /** Four factors can be regrouped: (a * c) * (u * v) == (c * v) * (a * u). */
  lemma MulRegroup(a: bv8, c: bv8, u: bv8, v: bv8)
    ensures Mul(Mul(a, c), Mul(u, v)) == Mul(Mul(c, v), Mul(a, u))
  {
    MulAssociates(a, c, Mul(u, v));
    MulAssociates(c, u, v);
    MulCommutes(c, u);
    MulAssociates(u, c, v);
    MulAssociates(a, u, Mul(c, v));
    MulCommutes(Mul(a, u), Mul(c, v));
  }

  /** Powers add their exponents: y^(i + s) == y^i * y^s. */
  lemma {:induction false} PowerAdd(y: bv8, i: nat, s: nat)
    ensures Power(y, i + s) == Mul(Power(y, i), Power(y, s))
  {
    if i == 0 {
      MulOne(Power(y, s));
    } else {
      PowerAdd(y, i - 1, s);
      assert Power(y, i + s) == Mul(y, Power(y, i - 1 + s));
      MulAssociates(y, Power(y, i - 1), Power(y, s));
    }
  }
}
