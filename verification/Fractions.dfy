/** The meaning of `rational`: fractions in lowest terms, textbook arithmetic that
    reduces every result from scratch, and the laws of that arithmetic. */
module Fractions {
  import opened IntegerMath

  datatype Frac = Frac(n: int, d: int)

  /** `rational::test_invariant`. */
  predicate Normalized(f: Frac) { f.d > 0 && Gcd(f.n, f.d) == 1 }

  /** `rational::is_normalized`, which the converting constructors consult. */
  predicate IsNormalized(n: int, d: int) {
    d > 0 && (n != 0 || d == 1) && Abs(InnerGcd(n, d)) == 1
  }

  /** The two invariant checks of the class accept the same pairs. */
  lemma ChecksAgree(n: int, d: int)
    ensures IsNormalized(n, d) <==> Normalized(Frac(n, d))
  {
    GcdZero(d);
  }

  /** f is the fraction n/d in lowest terms. */
  ghost predicate Represents(f: Frac, n: int, d: int) {
    d != 0 && Normalized(f) && f.n * d == n * f.d
  }

  /** Lowest terms are unique: equal value means equal fields. */
  lemma CanonicalUnique(x: Frac, y: Frac)
    requires Normalized(x) && Normalized(y)
    requires x.n * y.d == y.n * x.d
    ensures x == y
  {
    CrossDivides(x, y);
    CrossDivides(y, x);
    DividesBothWays(x.d, y.d);
    assert x.n * y.d == y.d * x.n && y.n * x.d == y.d * y.n;
    Cancel(y.d, x.n, y.n);
  }

  lemma CrossDivides(x: Frac, y: Frac)
    requires Normalized(x) && Normalized(y)
    requires x.n * y.d == y.n * x.d
    ensures Divides(x.d, y.d)
  {
    assert y.n * x.d == x.d * y.n;
    assert IsProduct(x.d, y.n, x.n * y.d);
    Gauss(x.d, x.n, y.d);
  }

  lemma RepresentsUnique(x: Frac, y: Frac, n: int, d: int)
    requires Represents(x, n, d) && Represents(y, n, d)
    ensures x == y
  {
    calc {
      d * (x.n * y.d);
      { Associate(d, x.n, y.d); }
      (x.n * d) * y.d;
      (n * x.d) * y.d;
      { Associate(n, x.d, y.d); Associate(n, y.d, x.d); }
      (n * y.d) * x.d;
      (y.n * d) * x.d;
      { Associate(d, y.n, x.d); }
      d * (y.n * x.d);
    }
    Cancel(d, x.n * y.d, y.n * x.d);
    CanonicalUnique(x, y);
  }

  /** Lowest terms of n/d with the sign in the numerator. */
  function Reduce(n: int, d: int): Frac
    requires d != 0
  {
    GcdPositive(n, d);
    var g := Gcd(n, d);
    if d < 0 then Frac(-TDiv(n, g), -TDiv(d, g)) else Frac(TDiv(n, g), TDiv(d, g))
  }

  lemma ReduceRepresents(n: int, d: int)
    requires d != 0
    ensures Represents(Reduce(n, d), n, d)
  {
    var n1, d1 := CoprimeQuotients(n, d);
    LowestTermsRepresent(n, d, Gcd(n, d), n1, d1);
  }

  lemma LowestTermsRepresent(n: int, d: int, g: nat, n1: int, d1: int)
    requires d != 0 && g > 0 && n == g * n1 && d == g * d1 && Gcd(n1, d1) == 1
    ensures Represents(if d < 0 then Frac(-n1, -d1) else Frac(n1, d1), n, d)
  {
    GcdOfAbs(n1, d1);
    GcdOfAbs(-n1, -d1);
    assert n1 * d == n * d1 by { Rotate(n1, g, d1); Associate(g, n1, d1); }
    if d < 0 {
      NegateFactor(g, d1);
      NonNegativeFactor(g, -d1);
      NegateFactor(n, d1);
      assert -n1 * d == -(n1 * d);
    } else {
      NonNegativeFactor(g, d1);
    }
  }

  /** The constructor's two fields determine, and are determined by, the value:
      two pairs normalize alike exactly when they are the same fraction. */
  lemma ReduceDecidesEquality(n: int, d: int, n': int, d': int)
    requires d != 0 && d' != 0
    ensures Reduce(n, d) == Reduce(n', d') <==> n * d' == n' * d
  {
    ReduceRepresents(n, d);
    ReduceRepresents(n', d');
    var f, f' := Reduce(n, d), Reduce(n', d');
    if n * d' == n' * d {
      SameValue(f, n, d, n', d');
      RepresentsUnique(f, f', n', d');
    }
    if f == f' { CrossFromCommon(f, n, d, n', d'); }
  }

  lemma SameValue(f: Frac, n: int, d: int, n': int, d': int)
    requires Represents(f, n, d) && d' != 0 && n * d' == n' * d
    ensures Represents(f, n', d')
  {
    calc {
      d * (f.n * d');
      { Associate(d, f.n, d'); }
      (f.n * d) * d';
      { Associate(n, f.d, d'); Associate(n, d', f.d); }
      (n * d') * f.d;
      { Associate(d, n', f.d); }
      d * (n' * f.d);
    }
    Cancel(d, f.n * d', n' * f.d);
  }

  lemma CrossFromCommon(f: Frac, n: int, d: int, n': int, d': int)
    requires Represents(f, n, d) && Represents(f, n', d')
    ensures n * d' == n' * d
  {
    calc {
      f.d * (n * d');
      { Associate(f.d, n, d'); }
      (f.n * d) * d';
      { Associate(f.n, d, d'); Associate(f.n, d', d); }
      (f.n * d') * d;
      { Associate(f.d, n', d); }
      f.d * (n' * d);
    }
    Cancel(f.d, n * d', n' * d);
  }

  lemma ReduceOfRepresented(f: Frac, n: int, d: int)
    requires Represents(f, n, d)
    ensures f == Reduce(n, d)
  {
    ReduceRepresents(n, d);
    RepresentsUnique(f, Reduce(n, d), n, d);
  }

  // ---- Textbook arithmetic ----------------------------------------------

  lemma NonZero(x: int, y: int)
    requires x != 0 && y != 0
    ensures x * y != 0
  {}

  function FromInt(i: int): Frac { Frac(i, 1) }

  function Negate(x: Frac): Frac { Frac(-x.n, x.d) }

  function Add(x: Frac, y: Frac): Frac
    requires x.d != 0 && y.d != 0
  {
    NonZero(x.d, y.d); Reduce(x.n * y.d + y.n * x.d, x.d * y.d)
  }

  function Mul(x: Frac, y: Frac): Frac
    requires x.d != 0 && y.d != 0
  {
    NonZero(x.d, y.d); Reduce(x.n * y.n, x.d * y.d)
  }

  function Div(x: Frac, y: Frac): Frac
    requires x.d != 0 && y.d != 0 && y.n != 0
  {
    NonZero(x.d, y.n); Reduce(x.n * y.d, x.d * y.n)
  }

  predicate Less(x: Frac, y: Frac) { x.n * y.d < y.n * x.d }

  lemma FromIntNormalized(i: int)
    ensures Normalized(FromInt(i))
  {
    CoprimeFromBezout(i, 1, 0, 1);
  }

  lemma ZeroReduced(d: int)
    requires d != 0
    ensures Reduce(0, d) == FromInt(0)
  {
    FromIntNormalized(0);
    ReduceOfRepresented(FromInt(0), 0, d);
  }

  lemma NegateNormalized(x: Frac)
    requires Normalized(x)
    ensures Normalized(Negate(x))
  {
    GcdOfAbs(x.n, x.d);
    GcdOfAbs(-x.n, x.d);
  }

  // x * y * z rearranged, for the cross-multiplications below
  lemma Swap4(a: int, b: int, c: int, d: int)
    ensures (a * b) * (c * d) == (a * c) * (b * d) == (c * b) * (a * d)
  {
    Interchange(a, b, c, d);
    Interchange(c, b, a, d);
  }

  /** Sums of equal values are equal, whatever fractions stand for them. */
  lemma AddRepresents(x: Frac, n: int, d: int, y: Frac, m: int, e: int)
    requires Represents(x, n, d) && Represents(y, m, e)
    ensures Represents(Add(x, y), n * e + m * d, d * e)
  {
    NonZero(d, e);
    NonZero(x.d, y.d);
    var f := Add(x, y);
    ReduceRepresents(x.n * y.d + y.n * x.d, x.d * y.d);
    assert (x.n * y.d + y.n * x.d) * (d * e) == (n * e + m * d) * (x.d * y.d) by {
      calc {
        (x.n * y.d + y.n * x.d) * (d * e);
        { Distribute(x.n * y.d, y.n * x.d, d * e); }
        (x.n * y.d) * (d * e) + (y.n * x.d) * (d * e);
        { Swap4(x.n, y.d, d, e); Swap4(y.n, x.d, e, d); assert d * e == e * d; }
        (x.n * d) * (y.d * e) + (y.n * e) * (x.d * d);
        (n * x.d) * (y.d * e) + (m * y.d) * (x.d * d);
        { Swap4(n, x.d, e, y.d); Swap4(m, y.d, d, x.d); assert y.d * e == e * y.d && x.d * d == d * x.d && x.d * y.d == y.d * x.d; }
        (n * e) * (x.d * y.d) + (m * d) * (x.d * y.d);
        { Distribute(n * e, m * d, x.d * y.d); }
        (n * e + m * d) * (x.d * y.d);
      }
    }
    SameValue(f, x.n * y.d + y.n * x.d, x.d * y.d, n * e + m * d, d * e);
  }

  lemma MulRepresents(x: Frac, n: int, d: int, y: Frac, m: int, e: int)
    requires Represents(x, n, d) && Represents(y, m, e)
    ensures Represents(Mul(x, y), n * m, d * e)
  {
    NonZero(d, e);
    NonZero(x.d, y.d);
    ReduceRepresents(x.n * y.n, x.d * y.d);
    Interchange(x.n, y.n, d, e);
    Interchange(n, m, x.d, y.d);
    SameValue(Mul(x, y), x.n * y.n, x.d * y.d, n * m, d * e);
  }

  /** What the operations mean, by cross-multiplication. */
  lemma OperationValues(x: Frac, y: Frac)
    requires Normalized(x) && Normalized(y)
    ensures Represents(Add(x, y), x.n * y.d + y.n * x.d, x.d * y.d)
    ensures Represents(Add(x, Negate(y)), x.n * y.d - y.n * x.d, x.d * y.d)
    ensures Represents(Mul(x, y), x.n * y.n, x.d * y.d)
    ensures y.n != 0 ==> Represents(Div(x, y), x.n * y.d, x.d * y.n)
  {
    NonZero(x.d, y.d);
    ReduceRepresents(x.n * y.d + y.n * x.d, x.d * y.d);
    assert -y.n * x.d == -(y.n * x.d);
    ReduceRepresents(x.n * y.d + -y.n * x.d, x.d * y.d);
    ReduceRepresents(x.n * y.n, x.d * y.d);
    if y.n != 0 {
      NonZero(x.d, y.n);
      ReduceRepresents(x.n * y.d, x.d * y.n);
    }
  }

  // ---- Field laws on the stored fields ----------------------------------

  lemma AddCommutative(x: Frac, y: Frac)
    requires Normalized(x) && Normalized(y)
    ensures Add(x, y) == Add(y, x)
  {
    assert x.d * y.d == y.d * x.d;
  }

  lemma MulCommutative(x: Frac, y: Frac)
    requires Normalized(x) && Normalized(y)
    ensures Mul(x, y) == Mul(y, x)
  {
    assert x.n * y.n == y.n * x.n && x.d * y.d == y.d * x.d;
  }

  lemma AddAssociative(x: Frac, y: Frac, z: Frac)
    requires Normalized(x) && Normalized(y) && Normalized(z)
    ensures NormalizedSum(x, y) && NormalizedSum(y, z)
    ensures Add(Add(x, y), z) == Add(x, Add(y, z))
  {
    AddRepresents(x, x.n, x.d, y, y.n, y.d);
    AddRepresents(y, y.n, y.d, z, z.n, z.d);
    var p, q := x.n * y.d + y.n * x.d, y.n * z.d + z.n * y.d;
    AddRepresents(Add(x, y), p, x.d * y.d, z, z.n, z.d);
    AddRepresents(x, x.n, x.d, Add(y, z), q, y.d * z.d);
    Associate(x.d, y.d, z.d);
    assert p * z.d + z.n * (x.d * y.d) == x.n * (y.d * z.d) + q * x.d by {
      Distribute(x.n * y.d, y.n * x.d, z.d);
      Distribute(y.n * z.d, z.n * y.d, x.d);
      Associate(x.n, y.d, z.d);
      Associate(y.n, x.d, z.d);
      Associate(y.n, z.d, x.d);
      Associate(z.n, y.d, x.d);
      assert x.d * y.d == y.d * x.d && x.d * z.d == z.d * x.d;
    }
    RepresentsUnique(Add(Add(x, y), z), Add(x, Add(y, z)), p * z.d + z.n * (x.d * y.d), x.d * y.d * z.d);
  }

  ghost predicate NormalizedSum(x: Frac, y: Frac)
    requires x.d != 0 && y.d != 0
  {
    Normalized(Add(x, y))
  }

  ghost predicate NormalizedProduct(x: Frac, y: Frac)
    requires x.d != 0 && y.d != 0
  {
    Normalized(Mul(x, y))
  }

  lemma MulAssociative(x: Frac, y: Frac, z: Frac)
    requires Normalized(x) && Normalized(y) && Normalized(z)
    ensures NormalizedProduct(x, y) && NormalizedProduct(y, z)
    ensures Mul(Mul(x, y), z) == Mul(x, Mul(y, z))
  {
    MulRepresents(x, x.n, x.d, y, y.n, y.d);
    MulRepresents(y, y.n, y.d, z, z.n, z.d);
    MulRepresents(Mul(x, y), x.n * y.n, x.d * y.d, z, z.n, z.d);
    MulRepresents(x, x.n, x.d, Mul(y, z), y.n * z.n, y.d * z.d);
    Associate(x.n, y.n, z.n);
    Associate(x.d, y.d, z.d);
    RepresentsUnique(Mul(Mul(x, y), z), Mul(x, Mul(y, z)), x.n * y.n * z.n, x.d * y.d * z.d);
  }

  lemma MulDistributes(x: Frac, y: Frac, z: Frac)
    requires Normalized(x) && Normalized(y) && Normalized(z)
    ensures NormalizedSum(y, z) && NormalizedProduct(x, y) && NormalizedProduct(x, z)
    ensures Mul(x, Add(y, z)) == Add(Mul(x, y), Mul(x, z))
  {
    AddRepresents(y, y.n, y.d, z, z.n, z.d);
    MulRepresents(x, x.n, x.d, y, y.n, y.d);
    MulRepresents(x, x.n, x.d, z, z.n, z.d);
    var s, e := y.n * z.d + z.n * y.d, y.d * z.d;
    MulRepresents(x, x.n, x.d, Add(y, z), s, e);
    var xy, xz := x.n * y.n, x.n * z.n;
    AddRepresents(Mul(x, y), xy, x.d * y.d, Mul(x, z), xz, x.d * z.d);
    // the right-hand fraction is the left-hand one with both parts multiplied by x.d
    var n, d := xy * (x.d * z.d) + xz * (x.d * y.d), (x.d * y.d) * (x.d * z.d);
    assert d == x.d * (x.d * e) by {
      Interchange(x.d, y.d, x.d, z.d);
      Associate(x.d, x.d, e);
    }
    assert n == x.d * (x.n * s) by {
      Rotate(xy, x.d, z.d);
      Rotate(xz, x.d, y.d);
      Associate(x.n, y.n, z.d);
      Associate(x.n, z.n, y.d);
      Distribute'(x.n, y.n * z.d, z.n * y.d);
      Distribute'(x.d, x.n * (y.n * z.d), x.n * (z.n * y.d));
    }
    assert (x.n * s) * d == n * (x.d * e) by {
      Rotate(x.n * s, x.d, x.d * e);
      Associate(x.d, x.n * s, x.d * e);
    }
    NonZero(x.d * y.d, x.d * z.d);
    SameValue(Mul(x, Add(y, z)), x.n * s, x.d * e, n, d);
    RepresentsUnique(Mul(x, Add(y, z)), Add(Mul(x, y), Mul(x, z)), n, d);
  }

  /** Subtracting undoes adding. */
  lemma AddNegateCancels(x: Frac, y: Frac)
    requires Normalized(x) && Normalized(y)
    ensures NormalizedSum(x, y) && Normalized(Negate(y))
    ensures Add(Add(x, y), Negate(y)) == x
  {
    NegateNormalized(y);
    var p := x.n * y.d + y.n * x.d;
    AddRepresents(x, x.n, x.d, y, y.n, y.d);
    AddRepresents(Add(x, y), p, x.d * y.d, Negate(y), -y.n, y.d);
    var n, d := p * y.d + -y.n * (x.d * y.d), x.d * y.d * y.d;
    assert n == x.n * (y.d * y.d) by {
      Distribute(x.n * y.d, y.n * x.d, y.d);
      Associate(x.n, y.d, y.d);
      Associate(y.n, x.d, y.d);
      assert -y.n * (x.d * y.d) == -(y.n * (x.d * y.d));
    }
    assert x.n * d == n * x.d by {
      Associate(x.d, y.d, y.d);
      Rotate(x.n, x.d, y.d * y.d);
    }
    RepresentsUnique(x, Add(Add(x, y), Negate(y)), n, d);
  }

  /** Dividing undoes multiplying. */
  lemma MulDivCancels(x: Frac, y: Frac)
    requires Normalized(x) && Normalized(y) && y.n != 0
    ensures NormalizedProduct(x, y)
    ensures Div(Mul(x, y), y) == x
  {
    var p := Mul(x, y);
    MulRepresents(x, x.n, x.d, y, y.n, y.d);
    NonZero(p.d, y.n);
    assert x.n * (p.d * y.n) == (p.n * y.d) * x.d by {
      Rotate(x.n, p.d, y.n);
      Associate(p.n, x.d, y.d);
      Associate(p.n, y.d, x.d);
      assert x.d * y.d == y.d * x.d && p.d * (x.n * y.n) == (x.n * y.n) * p.d;
    }
    ReduceOfRepresented(x, p.n * y.d, p.d * y.n);
  }

  // ---- Order ------------------------------------------------------------

  /** Exactly one of `<`, `==`, `>` holds. */
  lemma Trichotomy(x: Frac, y: Frac)
    requires Normalized(x) && Normalized(y)
    ensures !(Less(x, y) && Less(y, x))
    ensures x == y <==> !Less(x, y) && !Less(y, x)
  {
    if x.n * y.d == y.n * x.d { CanonicalUnique(x, y); }
  }

  lemma LessTransitive(x: Frac, y: Frac, z: Frac)
    requires Normalized(x) && Normalized(y) && Normalized(z)
    requires Less(x, y) && Less(y, z)
    ensures Less(x, z)
  {
    MulLess(z.d, x.n * y.d, y.n * x.d);
    MulLess(x.d, y.n * z.d, z.n * y.d);
    assert y.d * (x.n * z.d) < y.d * (z.n * x.d) by {
      Rotate(z.d, x.n, y.d);
      Rotate(z.d, y.n, x.d);
      Rotate(x.d, y.n, z.d);
      Rotate(x.d, z.n, y.d);
      Rotate(y.d, x.n, z.d);
      Rotate(y.d, z.n, x.d);
      assert z.d * y.d == y.d * z.d && z.d * x.d == x.d * z.d && x.d * y.d == y.d * x.d;
    }
    if x.n * z.d >= z.n * x.d { MulAtMost(y.d, z.n * x.d, x.n * z.d); }
  }

  /** Any representation of two fractions with positive denominators orders them. */
  lemma LessOfRepresented(x: Frac, n: int, d: int, y: Frac, m: int, e: int)
    requires Represents(x, n, d) && Represents(y, m, e) && d > 0 && e > 0
    ensures Less(x, y) <==> n * e < m * d
  {
    var k, l := x.d * y.d, d * e;
    assert l * (x.n * y.d) == k * (n * e) by {
      Interchange(x.n, y.d, d, e);
      Interchange(n, x.d, y.d, e);
      Interchange(x.d, y.d, n, e);
      assert x.d * n == n * x.d && l * (x.n * y.d) == (x.n * y.d) * l;
    }
    assert l * (y.n * x.d) == k * (m * d) by {
      Interchange(y.n, x.d, e, d);
      Interchange(y.d, x.d, m, d);
      assert e * d == l && y.d * x.d == k && y.d * m == m * y.d && l * (y.n * x.d) == (y.n * x.d) * l;
    }
    Positive(x.d, y.d);
    Positive(d, e);
    SameOrder(l, k, x.n * y.d, y.n * x.d, n * e, m * d);
  }

  lemma Positive(x: int, y: int)
    requires x > 0 && y > 0
    ensures x * y > 0
  {}

  lemma SameOrder(l: int, k: int, a: int, b: int, a': int, b': int)
    requires l > 0 && k > 0 && l * a == k * a' && l * b == k * b'
    ensures a < b <==> a' < b'
  {
    if a < b { MulLess(l, a, b); } else { MulAtMost(l, b, a); }
    if a' < b' { MulLess(k, a', b'); } else { MulAtMost(k, b', a'); }
  }

  /** The order extends that of the integers, ... */
  lemma LessOnIntegers(i: int, j: int)
    ensures Less(FromInt(i), FromInt(j)) <==> i < j
  {}

  /** ... and adding the same fraction on both sides keeps it. */
  lemma LessAdd(x: Frac, y: Frac, z: Frac)
    requires Normalized(x) && Normalized(y) && Normalized(z)
    ensures NormalizedSum(x, z) && NormalizedSum(y, z)
    ensures Less(x, y) <==> Less(Add(x, z), Add(y, z))
  {
    AddRepresents(x, x.n, x.d, z, z.n, z.d);
    AddRepresents(y, y.n, y.d, z, z.n, z.d);
    var n, m := x.n * z.d + z.n * x.d, y.n * z.d + z.n * y.d;
    Positive(x.d, z.d);
    Positive(y.d, z.d);
    LessOfRepresented(Add(x, z), n, x.d * z.d, Add(y, z), m, y.d * z.d);
    CrossSum(x.n, x.d, y.d, z.n, z.d);
    CrossSum(y.n, y.d, x.d, z.n, z.d);
    var s, t := z.d * z.d, z.n * z.d;
    Positive(z.d, z.d);
    assert t * (x.d * y.d) == t * (y.d * x.d);
    if x.n * y.d < y.n * x.d { MulLess(s, x.n * y.d, y.n * x.d); } else { MulAtMost(s, y.n * x.d, x.n * y.d); }
  }

  lemma CrossSum(a: int, b: int, d: int, c: int, e: int)
    ensures (a * e + c * b) * (d * e) == (e * e) * (a * d) + (c * e) * (b * d)
  {
    Distribute(a * e, c * b, d * e);
    Interchange(a, e, d, e);
    Interchange(c, b, d, e);
    Interchange(c, b, e, d);
    assert (a * d) * (e * e) == (e * e) * (a * d) && d * e == e * d;
  }

  /** So does multiplying both sides by the same positive fraction. */
  lemma LessMul(x: Frac, y: Frac, z: Frac)
    requires Normalized(x) && Normalized(y) && Normalized(z) && z.n > 0
    ensures NormalizedProduct(x, z) && NormalizedProduct(y, z)
    ensures Less(x, y) <==> Less(Mul(x, z), Mul(y, z))
  {
    MulRepresents(x, x.n, x.d, z, z.n, z.d);
    MulRepresents(y, y.n, y.d, z, z.n, z.d);
    Positive(x.d, z.d);
    Positive(y.d, z.d);
    LessOfRepresented(Mul(x, z), x.n * z.n, x.d * z.d, Mul(y, z), y.n * z.n, y.d * z.d);
    Interchange(x.n, z.n, y.d, z.d);
    Interchange(y.n, z.n, x.d, z.d);
    var s := z.n * z.d;
    Positive(z.n, z.d);
    assert (x.n * y.d) * s == s * (x.n * y.d) && (y.n * x.d) * s == s * (y.n * x.d);
    if x.n * y.d < y.n * x.d { MulLess(s, x.n * y.d, y.n * x.d); } else { MulAtMost(s, y.n * x.d, x.n * y.d); }
  }

  lemma MulLess(k: int, a: int, b: int)
    requires k > 0 && a < b
    ensures k * a < k * b
  {}

  lemma MulAtMost(k: int, a: int, b: int)
    requires k >= 0 && a <= b
    ensures k * a <= k * b
  {}
}
