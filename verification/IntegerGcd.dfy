/** `boost::integer::gcd` and `lcm` as the built-in signed types use them: the mixed
    binary Euclid algorithm, on values whose absolute value is representable. */
module IntegerGcd {
  import opened IntegerMath

  predicate Odd(x: int) { x % 2 == 1 }

  lemma {:induction false} Pow2Coprime(k: nat, y: int)
    requires Odd(y)
    ensures Gcd(Pow2(k), y) == 1
  {
    if k == 0 {
      CoprimeFromBezout(1, y, 1, 0);
    } else {
      Pow2Coprime(k - 1, y);
      CoprimeFromBezout(2, y, -(y / 2), 1);
      CoprimeProduct(2, Pow2(k - 1), y);
    }
  }

  /** Factors of two do not change the gcd with an odd number. */
  lemma StripTwos(x: int, k: nat, y: int)
    requires Odd(y)
    ensures Gcd(x * Pow2(k), y) == Gcd(x, y)
  {
    Pow2Coprime(k, y);
    forall d ensures (Divides(d, x * Pow2(k)) && Divides(d, y)) <==> (Divides(d, x) && Divides(d, y)) {
      if Divides(d, x) { DividesCombination(d, x, 0, Pow2(k), 0) by { assert IsProduct(d, 0, 0); } }
      if Divides(d, x * Pow2(k)) && Divides(d, y) {
        GcdSymmetric(Pow2(k), y);
        CoprimeDivisor(d, y, Pow2(k));
        GcdSymmetric(d, Pow2(k));
        assert x * Pow2(k) == Pow2(k) * x;
        Gauss(d, Pow2(k), x);
      }
    }
    SameDivisorsSameGcd(x * Pow2(k), y, x, y);
  }

  /** The common power of two comes out of the gcd; the rest of it has no effect. */
  lemma CommonTwos(u: nat, i: nat, v: nat, j: nat)
    requires Odd(u) && Odd(v)
    ensures Gcd(u * Pow2(i), v * Pow2(j)) == Gcd(u, v) * Pow2(if i < j then i else j)
  {
    if j < i {
      CommonTwosOrdered(v, j, u, i);
      GcdSymmetric(u * Pow2(i), v * Pow2(j));
      GcdSymmetric(u, v);
    } else {
      CommonTwosOrdered(u, i, v, j);
    }
  }

  lemma CommonTwosOrdered(u: nat, i: nat, v: nat, j: nat)
    requires Odd(u) && Odd(v) && i <= j
    ensures Gcd(u * Pow2(i), v * Pow2(j)) == Gcd(u, v) * Pow2(i)
  {
    Pow2Add(i, j - i);
    ScaledTwos(u, v, Pow2(i), Pow2(j - i), Pow2(j));
    GcdSymmetric(u, v * Pow2(j - i));
    StripTwos(v, j - i, u);
    GcdSymmetric(v, u);
  }

  lemma ScaledTwos(u: nat, v: nat, p: nat, q: nat, pq: nat)
    requires pq == p * q
    ensures v * q >= 0
    ensures Gcd(u * p, v * pq) == Gcd(u, v * q) * p
  {
    NonNegative(v, q);
    Rotate(v, p, q);
    GcdScale(p, u, v * q);
    assert p * u == u * p && p * Gcd(u, v * q) == Gcd(u, v * q) * p;
  }

  method MakeOdd(val: nat) returns (odd: nat, r: nat)
    requires val > 0
    ensures Odd(odd) && val == odd * Pow2(r)
    ensures 0 < odd <= val
    ensures Odd(val) ==> r == 0
  {
    odd, r := val, 0;
    while odd % 2 == 0
      invariant 0 < odd <= val && val == odd * Pow2(r)
      invariant Odd(val) ==> r == 0
      decreases odd
    {
      Associate(odd / 2, 2, Pow2(r));
      odd, r := odd / 2, r + 1;
    }
  }

  /** One round of the loop: reduce and subtract ... */
  lemma EuclidRound(u: nat, v: nat)
    requires v > 0
    ensures Gcd(u, v) == Gcd(u % v, v) == Gcd(u % v, v - u % v)
  {
    var m, q := u % v, u / v;
    assert u == m + v * q;
    GcdOfRemainder(u, v, m, q);
  }

  lemma GcdOfRemainder(u: int, v: int, m: int, q: int)
    requires u == m + v * q
    ensures Gcd(u, v) == Gcd(m, v) == Gcd(m, v - m)
  {
    GcdAddMultiple(m, v, q);
    GcdSymmetric(m, v);
    GcdAddMultiple(v - m, m, 1);
    assert v - m + m * 1 == v;
    GcdSymmetric(v - m, m);
  }

  /** ... and drop the factors of two, which only one of the two numbers has. */
  lemma RoundKeepsGcd(u: nat, v: nat, r: nat, i: nat, w: nat, j: nat)
    requires v > 0 && Odd(r) && Odd(w) && (i == 0 || j == 0)
    requires u % v == r * Pow2(i) && v - u % v == w * Pow2(j)
    ensures Gcd(u, v) == Gcd(w, r) == Gcd(r, w)
  {
    EuclidRound(u, v);
    assert Gcd(r * Pow2(i), w * Pow2(j)) == Gcd(r, w) by {
      CommonTwos(r, i, w, j);
      assert Pow2(0) == 1;
    }
    GcdSymmetric(r, w);
  }

  /** The work before the loop: both numbers made odd, their common twos set aside. */
  lemma MadeOdd(u0: nat, v0: nat, u: nat, i: nat, v: nat, j: nat)
    requires u0 == u * Pow2(i) && v0 == v * Pow2(j) && Odd(u) && Odd(v)
    ensures Gcd(v0, u0) == Gcd(u0, v0) == Gcd(u, v) * Pow2(if i < j then i else j)
  {
    CommonTwos(u, i, v, j);
    GcdSymmetric(u0, v0);
  }

  lemma OneOfTwoIsOdd(u: nat, v: nat)
    requires Odd(u + v)
    ensures Odd(u) || Odd(v)
  {}

  method MixedBinaryGcd(u0: nat, v0: nat) returns (g: nat)
    ensures g == Gcd(u0, v0)
  {
    var u, v := u0, v0;
    if u < v { u, v := v, u; }
    if u == 0 { GcdZero(0); return v; }
    if v == 0 { GcdZero(u); return u; }
    var i, j;
    ghost var u1, v1 := u, v;
    u, i := MakeOdd(u);
    v, j := MakeOdd(v);
    MadeOdd(u1, v1, u, i, v, j);
    var shifts := if i < j then i else j;
    ghost var odd := Gcd(u, v);
    while 1 < v
      invariant u > 0 && v > 0 && Odd(u) && Odd(v)
      invariant odd == Gcd(u, v)
      decreases v
    {
      ghost var u2, v2 := u, v;
      u := u % v;
      v := v - u;
      if u == 0 {
        EuclidRound(u2, v2);
        GcdZero(v);
        return v * Pow2(shifts);
      }
      OneOfTwoIsOdd(u, v);
      u, i := MakeOdd(u);
      v, j := MakeOdd(v);
      RoundKeepsGcd(u2, v2, u, i, v, j);
      if u < v { u, v := v, u; }
    }
    CoprimeFromBezout(u, 1, 0, 1);
    return (if v == 1 then v else u) * Pow2(shifts);
  }

  method IntGcd(a: int, b: int) returns (g: nat)
    ensures g == Gcd(a, b)
  {
    GcdOfAbs(a, b);
    g := MixedBinaryGcd(if a < 0 then -a else a, if b < 0 then -b else b);
  }

  method IntLcm(a: int, b: int) returns (l: nat)
    ensures l == Lcm(a, b)
  {
    GcdOfAbs(a, b);
    var x: nat, y: nat := if a < 0 then -a else a, if b < 0 then -b else b;
    assert x == Abs(a) && y == Abs(b);
    var temp := MixedBinaryGcd(x, y);
    if temp != 0 {
      LcmOfParts(a, b, temp);
      l := TDiv(x, temp) * y;
    } else {
      l := 0;
    }
  }

  lemma LcmOfParts(a: int, b: int, g: nat)
    requires g == Gcd(a, b) != 0
    ensures TDiv(Abs(a), g) * Abs(b) == Lcm(a, b)
  {}
}
