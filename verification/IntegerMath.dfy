/** Integer division as C++ defines it, and the divisibility facts that the
    rational arithmetic and the integer gcd rest on. */
module IntegerMath {

  function Abs(x: int): nat { if x < 0 then -x else x }

  function Pow2(k: nat): (p: nat)
    ensures p > 0
  {
    if k == 0 then 1 else 2 * Pow2(k - 1)
  }

  lemma DivisionIdentity(a: int, b: int)
    requires b != 0
    ensures a - b * (a / b) == a % b
  {}

  /** C++ `/`: the quotient is truncated towards zero. */
  function TDiv(a: int, b: int): int
    requires b != 0
  {
    if a >= 0 then a / b else -((-a) / b)
  }

  /** C++ `%`: the remainder takes the sign of the dividend. */
  function TMod(a: int, b: int): (r: int)
    requires b != 0
    ensures Abs(r) < Abs(b)
    ensures a >= 0 ==> r >= 0
    ensures a <= 0 ==> r <= 0
  {
    if a >= 0 then DivisionIdentity(a, b); a - b * TDiv(a, b)
    else DivisionIdentity(-a, b); NegateFactor(b, (-a) / b); a - b * TDiv(a, b)
  }

  // ---- Ring identities --------------------------------------------------

  lemma Associate(x: int, y: int, z: int)
    ensures (x * y) * z == x * (y * z)
  {}

  lemma Distribute(x: int, y: int, z: int)
    ensures (x + y) * z == x * z + y * z
  {}

  lemma Distribute'(x: int, y: int, z: int)
    ensures x * (y + z) == x * y + x * z
  {}

  lemma NegateFactor(x: int, y: int)
    ensures x * -y == -(x * y)
  {}

  lemma Rotate(x: int, y: int, z: int)
    ensures x * (y * z) == y * (x * z)
  {}

  lemma Interchange(x: int, y: int, z: int, w: int)
    ensures (x * y) * (z * w) == (x * z) * (y * w)
  {}

  lemma {:induction false} Pow2Add(i: nat, j: nat)
    ensures Pow2(i + j) == Pow2(i) * Pow2(j)
  {
    if i != 0 {
      Pow2Add(i - 1, j);
      Associate(2, Pow2(i - 1), Pow2(j));
    }
  }

  // ---- Divisibility -----------------------------------------------------

  ghost predicate IsProduct(d: int, k: int, a: int) { a == d * k }

  ghost predicate Divides(d: int, a: int) { exists k :: IsProduct(d, k, a) }

  lemma Cofactor(d: int, a: int) returns (k: int)
    requires Divides(d, a)
    ensures a == d * k
  {
    k :| IsProduct(d, k, a);
  }

  /** Division by a divisor is exact, whatever the signs. */
  lemma ExactDivision(d: int, k: int)
    requires d != 0
    ensures TDiv(d * k, d) == k
  {
    var a := d * k;
    var q, r := TDiv(a, d), TMod(a, d);
    assert r == d * (k - q);
    if k != q {
      MagnitudeOfMultiple(d, k - q);
      assert false;
    }
  }

  lemma MagnitudeOfMultiple(d: int, k: int)
    requires k != 0
    ensures Abs(d * k) >= Abs(d)
  {
    Growth(Abs(d), Abs(k));
    if d < 0 { assert Abs(d) * k == -(d * k); }
    if k < 0 { assert Abs(d) * -k == -(Abs(d) * k); }
  }

  lemma ModSmall(r: nat, n: nat)
    requires r < n
    ensures r % n == r
  {
    var q := r / n;
    if q != 0 { MagnitudeOfMultiple(n, q); }
  }

  lemma RemainderUnique(n: nat, q: int, r: int, q': int, r': int)
    requires 0 <= r < n && 0 <= r' < n && n * q + r == n * q' + r'
    ensures r == r'
  {
    Distribute'(n, q, -q');
    NegateFactor(n, q');
    if q != q' { MagnitudeOfMultiple(n, q - q'); }
  }

  lemma ModPlus(m: nat, n: nat)
    requires n > 0
    ensures (m + n) % n == m % n
  {
    var q, q' := m / n, (m + n) / n;
    assert m == n * q + m % n;
    assert m + n == n * q' + (m + n) % n;
    Distribute'(n, q, 1);
    RemainderUnique(n, q + 1, m % n, q', (m + n) % n);
  }

  lemma Growth(d: nat, k: nat)
    requires k > 0
    ensures d * k >= d
  {
    NonNegative(d, k - 1);
    assert d * k == d * (k - 1) + d;
  }

  lemma NonNegative(x: nat, y: nat)
    ensures x * y >= 0
  {}

  lemma DivisorQuotient(d: int, a: int)
    requires d != 0 && Divides(d, a)
    ensures a == d * TDiv(a, d)
  {
    var k := Cofactor(d, a);
    ExactDivision(d, k);
  }

  /** A common divisor divides every integer combination. */
  lemma DividesCombination(d: int, a: int, b: int, x: int, y: int)
    requires Divides(d, a) && Divides(d, b)
    ensures Divides(d, a * x + b * y)
  {
    var i := Cofactor(d, a);
    var j := Cofactor(d, b);
    Associate(d, i, x);
    Associate(d, j, y);
    Distribute'(d, i * x, j * y);
    assert IsProduct(d, i * x + j * y, a * x + b * y);
  }

  lemma DividesTransitive(d: int, e: int, a: int)
    requires Divides(d, e) && Divides(e, a)
    ensures Divides(d, a)
  {
    var i := Cofactor(d, e);
    var j := Cofactor(e, a);
    Associate(d, i, j);
    assert IsProduct(d, i * j, a);
  }

  lemma DividesBothWays(a: nat, b: nat)
    requires Divides(a, b) && Divides(b, a)
    ensures a == b
  {
    var i := Cofactor(a, b);
    var j := Cofactor(b, a);
    if a != 0 && b != 0 {
      assert i != 0 && j != 0;
      MagnitudeOfMultiple(a, i);
      MagnitudeOfMultiple(b, j);
    }
  }

  // ---- Greatest common divisor ------------------------------------------

  /** The recursion of `rational::inner_gcd`. */
  function InnerGcd(a: int, b: int): int
    decreases Abs(b)
  {
    if b == 0 then a else InnerGcd(b, TMod(a, b))
  }

  function Gcd(a: int, b: int): nat { Abs(InnerGcd(a, b)) }

  /** Bezout coefficients of `InnerGcd`, which make it the greatest common divisor. */
  lemma {:induction false} Bezout(a: int, b: int) returns (x: int, y: int)
    ensures InnerGcd(a, b) == a * x + b * y
    decreases Abs(b)
  {
    if b == 0 {
      x, y := 1, 0;
    } else {
      var x', y' := Bezout(b, TMod(a, b));
      var q := TDiv(a, b);
      x, y := y', x' - q * y';
      BezoutStep(a, b, q, TMod(a, b), x', y');
    }
  }

  lemma BezoutStep(a: int, b: int, q: int, m: int, x: int, y: int)
    requires m == a - b * q
    ensures b * x + m * y == a * y + b * (x - q * y)
  {
    var bq, qy := b * q, q * y;
    Associate(b, q, y);
    Distribute(a, -bq, y);
    assert -bq * y == -(bq * y);
    Distribute'(b, x, -qy);
    NegateFactor(b, qy);
  }

  lemma GcdBezout(a: int, b: int) returns (x: int, y: int)
    ensures Gcd(a, b) == a * x + b * y
  {
    x, y := Bezout(a, b);
    if InnerGcd(a, b) < 0 {
      assert a * -x + b * -y == -(a * x + b * y);
      x, y := -x, -y;
    }
  }

  lemma {:induction false} InnerGcdDivides(a: int, b: int)
    ensures Divides(InnerGcd(a, b), a) && Divides(InnerGcd(a, b), b)
    decreases Abs(b)
  {
    var g := InnerGcd(a, b);
    if b == 0 {
      assert IsProduct(g, 1, a) && IsProduct(g, 0, b);
    } else {
      InnerGcdDivides(b, TMod(a, b));
      DividesCombination(g, b, TMod(a, b), TDiv(a, b), 1);
    }
  }

  lemma GcdDivides(a: int, b: int)
    ensures Divides(Gcd(a, b), a) && Divides(Gcd(a, b), b)
  {
    InnerGcdDivides(a, b);
    var g := InnerGcd(a, b);
    var i := Cofactor(g, a);
    var j := Cofactor(g, b);
    if g < 0 {
      assert a == -g * -i && b == -g * -j;
      assert IsProduct(-g, -i, a) && IsProduct(-g, -j, b);
    }
  }

  /** The universal property: `Gcd` divides both, and every common divisor divides it. */
  lemma GcdUniversal(a: int, b: int, d: int)
    ensures Divides(d, a) && Divides(d, b) <==> Divides(d, Gcd(a, b))
  {
    GcdDivides(a, b);
    if Divides(d, a) && Divides(d, b) {
      var x, y := GcdBezout(a, b);
      DividesCombination(d, a, b, x, y);
    }
    if Divides(d, Gcd(a, b)) {
      DividesTransitive(d, Gcd(a, b), a);
      DividesTransitive(d, Gcd(a, b), b);
    }
  }

  /** A nonnegative number with the universal property is the gcd. */
  lemma GcdUnique(a: int, b: int, g: nat)
    requires forall d :: Divides(d, a) && Divides(d, b) <==> Divides(d, g)
    ensures g == Gcd(a, b)
  {
    GcdUniversal(a, b, g);
    GcdUniversal(a, b, Gcd(a, b));
    assert IsProduct(g, 1, g) && IsProduct(Gcd(a, b), 1, Gcd(a, b));
    DividesBothWays(g, Gcd(a, b));
  }

  /** Two pairs with the same common divisors have the same gcd. */
  lemma SameDivisorsSameGcd(a: int, b: int, c: int, d: int)
    requires forall e :: (Divides(e, a) && Divides(e, b)) <==> (Divides(e, c) && Divides(e, d))
    ensures Gcd(a, b) == Gcd(c, d)
  {
    forall e ensures Divides(e, a) && Divides(e, b) <==> Divides(e, Gcd(c, d)) {
      GcdUniversal(c, d, e);
    }
    GcdUnique(a, b, Gcd(c, d));
  }

  lemma GcdSymmetric(a: int, b: int)
    ensures Gcd(a, b) == Gcd(b, a)
  {
    SameDivisorsSameGcd(a, b, b, a);
  }

  lemma DividesNegated(d: int, a: int)
    ensures Divides(d, -a) <==> Divides(d, a)
  {
    if Divides(d, a) {
      var k := Cofactor(d, a);
      assert IsProduct(d, -k, -a);
    }
    if Divides(d, -a) {
      var k := Cofactor(d, -a);
      assert IsProduct(d, -k, a);
    }
  }

  lemma GcdOfAbs(a: int, b: int)
    ensures Gcd(a, b) == Gcd(Abs(a), Abs(b))
  {
    forall e ensures (Divides(e, a) && Divides(e, b)) <==> (Divides(e, Abs(a)) && Divides(e, Abs(b))) {
      DividesNegated(e, a);
      DividesNegated(e, b);
    }
    SameDivisorsSameGcd(a, b, Abs(a), Abs(b));
  }

  /** Adding a multiple of one argument to the other keeps the gcd. */
  lemma GcdAddMultiple(a: int, b: int, k: int)
    ensures Gcd(a + b * k, b) == Gcd(a, b)
  {
    forall e ensures (Divides(e, a + b * k) && Divides(e, b)) <==> (Divides(e, a) && Divides(e, b)) {
      if Divides(e, b) {
        if Divides(e, a) { DividesCombination(e, a, b, 1, k); }
        if Divides(e, a + b * k) {
          DividesCombination(e, a + b * k, b, 1, -k);
          assert (a + b * k) * 1 + b * -k == a;
        }
      }
    }
    SameDivisorsSameGcd(a + b * k, b, a, b);
  }

  lemma GcdZero(a: int)
    ensures Gcd(a, 0) == Abs(a) && Gcd(0, a) == Abs(a)
  {
    GcdSymmetric(a, 0);
  }

  lemma GcdPositive(a: int, b: int)
    requires a != 0 || b != 0
    ensures Gcd(a, b) > 0
  {
    GcdDivides(a, b);
    if Gcd(a, b) == 0 {
      var i := Cofactor(0, a);
      var j := Cofactor(0, b);
      assert false;
    }
  }

  // ---- Coprimality ------------------------------------------------------

  lemma CoprimeFromBezout(a: int, b: int, x: int, y: int)
    requires a * x + b * y == 1
    ensures Gcd(a, b) == 1
  {
    GcdDivides(a, b);
    DividesCombination(Gcd(a, b), a, b, x, y);
    assert IsProduct(1, Gcd(a, b), Gcd(a, b));
    DividesBothWays(Gcd(a, b), 1);
  }

  /** A product is coprime to c when both factors are. */
  lemma CoprimeProduct(a: int, b: int, c: int)
    requires Gcd(a, c) == 1 && Gcd(b, c) == 1
    ensures Gcd(a * b, c) == 1
  {
    var x, y := GcdBezout(a, c);
    var z, w := GcdBezout(b, c);
    // 1 == a*x + c*y, with b*z + c*w == 1 put in as a factor of a*x
    var s := a * x;
    calc {
      s;
      s * (b * z + c * w);
      { Distribute'(s, b * z, c * w); }
      s * (b * z) + s * (c * w);
      { Interchange(a, x, b, z); Rotate(s, c, w); }
      (a * b) * (x * z) + c * (s * w);
    }
    Distribute'(c, s * w, y);
    CoprimeFromBezout(a * b, c, x * z, s * w + y);
  }

  /** A divisor of a number coprime to c is coprime to c. */
  lemma CoprimeDivisor(d: int, a: int, c: int)
    requires Gcd(a, c) == 1 && Divides(d, a)
    ensures Gcd(d, c) == 1
  {
    var k := Cofactor(d, a);
    var x, y := GcdBezout(a, c);
    Associate(d, k, x);
    CoprimeFromBezout(d, c, k * x, y);
  }

  /** Gauss: a divisor of a product that is coprime to one factor divides the other. */
  lemma Gauss(c: int, a: int, b: int)
    requires Divides(c, a * b) && Gcd(a, c) == 1
    ensures Divides(c, b)
  {
    var x, y := GcdBezout(a, c);
    var k := Cofactor(c, a * b);
    GaussStep(a, b, c, k, x, y);
    assert IsProduct(c, k * x + b * y, b);
  }

  lemma GaussStep(a: int, b: int, c: int, k: int, x: int, y: int)
    requires a * x + c * y == 1 && a * b == c * k
    ensures b == c * (k * x + b * y)
  {
    var ax, cy, bx, yb, kx := a * x, c * y, b * x, b * y, k * x;
    assert b == b * ax + b * cy by { Distribute'(b, ax, cy); }
    assert b * ax == c * kx by { Rotate(b, a, x); Associate(a, b, x); Associate(c, k, x); }
    assert b * cy == c * yb by { Rotate(b, c, y); }
    Distribute'(c, kx, yb);
  }

  /** Dividing both numbers by their gcd leaves coprime quotients. */
  lemma CoprimeQuotients(a: int, b: int) returns (a1: int, b1: int)
    requires a != 0 || b != 0
    ensures Gcd(a, b) > 0
    ensures a == Gcd(a, b) * a1 && b == Gcd(a, b) * b1
    ensures TDiv(a, Gcd(a, b)) == a1 && TDiv(b, Gcd(a, b)) == b1
    ensures Gcd(a1, b1) == 1
  {
    var g := Gcd(a, b);
    GcdPositive(a, b);
    GcdDivides(a, b);
    a1 := Cofactor(g, a);
    b1 := Cofactor(g, b);
    ExactDivision(g, a1);
    ExactDivision(g, b1);
    var x, y := GcdBezout(a, b);
    calc {
      g * (a1 * x + b1 * y);
      { Distribute'(g, a1 * x, b1 * y); Associate(g, a1, x); Associate(g, b1, y); }
      a * x + b * y;
      g;
    }
    CancelOne(g, a1 * x + b1 * y);
    CoprimeFromBezout(a1, b1, x, y);
  }

  lemma CancelOne(g: int, k: int)
    requires g > 0 && g * k == g
    ensures k == 1
  {
    Distribute'(g, k, -1);
    if k != 1 { MagnitudeOfMultiple(g, k - 1); }
  }

  /** gcd scales with a common factor. */
  lemma GcdScale(k: nat, a: int, b: int)
    ensures Gcd(k * a, k * b) == k * Gcd(a, b)
  {
    var g := Gcd(a, b);
    var x, y := GcdBezout(a, b);
    Distribute'(k, a * x, b * y);
    Associate(k, a, x);
    Associate(k, b, y);
    GcdDivides(a, b);
    var i := Cofactor(g, a);
    var j := Cofactor(g, b);
    Associate(k, g, i);
    Associate(k, g, j);
    forall d ensures Divides(d, k * a) && Divides(d, k * b) <==> Divides(d, k * g) {
      if Divides(d, k * a) && Divides(d, k * b) { DividesCombination(d, k * a, k * b, x, y); }
      if Divides(d, k * g) {
        assert IsProduct(k * g, i, k * a) && IsProduct(k * g, j, k * b);
        DividesTransitive(d, k * g, k * a);
        DividesTransitive(d, k * g, k * b);
      }
    }
    GcdUnique(k * a, k * b, k * g);
  }

  // ---- Least common multiple --------------------------------------------

  function Lcm(a: int, b: int): nat
  {
    if Gcd(a, b) == 0 then 0 else NonNegative(TDiv(Abs(a), Gcd(a, b)), Abs(b)); TDiv(Abs(a), Gcd(a, b)) * Abs(b)
  }

  /** The cofactors of the gcd, and the lcm written with them. */
  lemma LcmCofactors(a: int, b: int) returns (a1: nat, b1: nat)
    requires a != 0 || b != 0
    ensures Gcd(a, b) > 0 && Gcd(a1, b1) == 1
    ensures Abs(a) == Gcd(a, b) * a1 && Abs(b) == Gcd(a, b) * b1
    ensures Lcm(a, b) == a1 * Abs(b) == b1 * Abs(a)
  {
    var g := Gcd(a, b);
    GcdOfAbs(a, b);
    var x, y := CoprimeQuotients(Abs(a), Abs(b));
    NonNegativeFactor(g, x);
    NonNegativeFactor(g, y);
    a1, b1 := x, y;
    Rotate(a1, g, b1);
    Rotate(b1, g, a1);
    assert a1 * b1 == b1 * a1;
  }

  lemma NonNegativeFactor(g: nat, x: int)
    requires g > 0 && g * x >= 0
    ensures x >= 0
  {
    NegateFactor(g, x);
    if x < 0 { Growth(g, -x); }
  }

  lemma LcmTimesGcd(a: int, b: int)
    ensures Lcm(a, b) * Gcd(a, b) == Abs(a) * Abs(b)
  {
    if a != 0 || b != 0 {
      var a1, b1 := LcmCofactors(a, b);
      Rotate(Gcd(a, b), a1, Abs(b));
      Associate(Gcd(a, b), a1, Abs(b));
    } else {
      GcdZero(0);
    }
  }

  /** The universal property: the multiples of `Lcm` are the common multiples. */
  lemma LcmUniversal(a: int, b: int, m: int)
    ensures Divides(a, m) && Divides(b, m) <==> Divides(Lcm(a, b), m)
  {
    if a == 0 && b == 0 {
      GcdZero(0);
    } else {
      var a1, b1 := LcmCofactors(a, b);
      var l, g := Lcm(a, b), Gcd(a, b);
      AbsDivides(a, m);
      AbsDivides(b, m);
      if Divides(l, m) {
        assert IsProduct(Abs(b), a1, l) && IsProduct(Abs(a), b1, l);
        DividesTransitive(Abs(a), l, m);
        DividesTransitive(Abs(b), l, m);
      }
      if Divides(a, m) && Divides(b, m) {
        CommonMultiple(g, a1, b1, m);
      }
    }
  }

  lemma CommonMultiple(g: nat, a1: nat, b1: nat, m: int)
    requires g > 0 && Gcd(a1, b1) == 1
    requires Divides(g * a1, m) && Divides(g * b1, m)
    ensures Divides(a1 * (g * b1), m)
  {
    var i := Cofactor(g * a1, m);
    var j := Cofactor(g * b1, m);
    Associate(g, a1, i);
    Associate(g, b1, j);
    assert g * (a1 * i) == g * (b1 * j);
    Cancel(g, a1 * i, b1 * j);
    assert IsProduct(b1, j, a1 * i);
    Gauss(b1, a1, i);
    var k := Cofactor(b1, i);
    calc {
      m;
      g * (a1 * (b1 * k));
      { Associate(a1, b1, k); Associate(g, a1 * b1, k); }
      (g * (a1 * b1)) * k;
      { Rotate(g, a1, b1); }
      (a1 * (g * b1)) * k;
    }
    assert IsProduct(a1 * (g * b1), k, m);
  }

  lemma Cancel(g: int, x: int, y: int)
    requires g != 0 && g * x == g * y
    ensures x == y
  {
    Distribute'(g, x, -y);
    NegateFactor(g, y);
    if x != y { MagnitudeOfMultiple(g, x - y); }
  }

  lemma AbsDivides(d: int, m: int)
    ensures Divides(Abs(d), m) <==> Divides(d, m)
  {
    if d < 0 && Divides(d, m) {
      var k := Cofactor(d, m);
      assert IsProduct(-d, -k, m);
    }
    if d < 0 && Divides(-d, m) {
      var k := Cofactor(-d, m);
      assert IsProduct(d, -k, m);
    }
  }
}
