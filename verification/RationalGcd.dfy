/** gcd and lcm of two rationals: numerators one way, denominators the other. */
module RationalGcd {
  import opened IntegerMath
  import opened Fractions

  /** `gcd_evaluator<rational>`: the two-argument constructor reduces the pair. */
  function GcdEvaluator(a: Frac, b: Frac): Frac
    requires a.d != 0 && b.d != 0
  {
    LcmNonZero(a.d, b.d);
    Reduce(Gcd(a.n, b.n), Lcm(a.d, b.d))
  }

  /** `lcm_evaluator<rational>`. */
  function LcmEvaluator(a: Frac, b: Frac): Frac
    requires a.d != 0 && b.d != 0
  {
    GcdPositive(a.d, b.d);
    Reduce(Lcm(a.n, b.n), Gcd(a.d, b.d))
  }

  lemma LcmNonZero(x: int, y: int)
    requires x != 0 && y != 0
    ensures Lcm(x, y) > 0
  {
    LcmTimesGcd(x, y);
    NonZero(Abs(x), Abs(y));
    assert Lcm(x, y) * Gcd(x, y) != 0;
  }

  /** Rational divisibility: f is an integer multiple of e. */
  ghost predicate IsMultiple(e: Frac, k: int, f: Frac) { f.n * e.d == (k * e.n) * f.d }

  ghost predicate DividesRational(e: Frac, f: Frac) { exists k :: IsMultiple(e, k, f) }

  /** In lowest terms it is divisibility of numerators one way, denominators the other. */
  lemma DividesFieldwise(e: Frac, f: Frac)
    requires Normalized(e) && Normalized(f)
    ensures DividesRational(e, f) <==> Divides(e.n, f.n) && Divides(f.d, e.d)
  {
    if DividesRational(e, f) {
      var k :| IsMultiple(e, k, f);
      assert IsProduct(f.d, k * e.n, f.n * e.d) by { assert (k * e.n) * f.d == f.d * (k * e.n); }
      Gauss(f.d, f.n, e.d);
      assert IsProduct(e.n, k * f.d, e.d * f.n) by { Rotate(k, e.n, f.d); Associate(k, e.n, f.d); assert e.d * f.n == f.n * e.d; }
      GcdSymmetric(e.n, e.d);
      Gauss(e.n, e.d, f.n);
    }
    if Divides(e.n, f.n) && Divides(f.d, e.d) {
      var s := Cofactor(e.n, f.n);
      var t := Cofactor(f.d, e.d);
      calc {
        (e.n * s) * (f.d * t);
        { Interchange(e.n, s, f.d, t); }
        (e.n * f.d) * (s * t);
        (s * t) * (e.n * f.d);
        { Associate(s * t, e.n, f.d); }
        ((s * t) * e.n) * f.d;
      }
      assert IsMultiple(e, s * t, f);
    }
  }

  lemma LcmDividesProduct(x: int, y: int)
    ensures Divides(Lcm(x, y), x * y)
  {
    assert IsProduct(x, y, x * y) && IsProduct(y, x, x * y) by { assert x * y == y * x; }
    LcmUniversal(x, y, x * y);
  }

  /** g coprime to x and to y is coprime to their lcm. */
  lemma CoprimeToLcm(g: int, x: int, y: int)
    requires Gcd(x, g) == 1 && Gcd(y, g) == 1
    ensures Gcd(Lcm(x, y), g) == 1
  {
    CoprimeProduct(x, y, g);
    LcmDividesProduct(x, y);
    CoprimeDivisor(Lcm(x, y), x * y, g);
  }

  lemma CoprimeToBoth(a: int, b: int, c: int, d: int)
    requires Gcd(a, b) == 1 && Gcd(c, d) == 1
    ensures Gcd(b, Gcd(a, c)) == 1 && Gcd(d, Gcd(a, c)) == 1
  {
    GcdDivides(a, c);
    CoprimeDivisor(Gcd(a, c), a, b);
    CoprimeDivisor(Gcd(a, c), c, d);
    GcdSymmetric(Gcd(a, c), b);
    GcdSymmetric(Gcd(a, c), d);
  }

  /** The pairs handed to the constructor are already in lowest terms. */
  lemma AlreadyReduced(a: Frac, b: Frac)
    requires Normalized(a) && Normalized(b)
    ensures Normalized(GcdEvaluator(a, b)) && Normalized(LcmEvaluator(a, b))
    ensures GcdEvaluator(a, b) == Frac(Gcd(a.n, b.n), Lcm(a.d, b.d))
    ensures LcmEvaluator(a, b) == Frac(Lcm(a.n, b.n), Gcd(a.d, b.d))
  {
    LcmNonZero(a.d, b.d);
    GcdPositive(a.d, b.d);
    CoprimeToBoth(a.n, a.d, b.n, b.d);
    CoprimeToLcm(Gcd(a.n, b.n), a.d, b.d);
    GcdSymmetric(Lcm(a.d, b.d), Gcd(a.n, b.n));
    GcdSymmetric(a.n, a.d);
    GcdSymmetric(b.n, b.d);
    CoprimeToBoth(a.d, a.n, b.d, b.n);
    CoprimeToLcm(Gcd(a.d, b.d), a.n, b.n);
    ReduceOfRepresented(Frac(Gcd(a.n, b.n), Lcm(a.d, b.d)), Gcd(a.n, b.n), Lcm(a.d, b.d));
    ReduceOfRepresented(Frac(Lcm(a.n, b.n), Gcd(a.d, b.d)), Lcm(a.n, b.n), Gcd(a.d, b.d));
  }

  /** The rational common divisors of a and b are exactly the divisors of their gcd. */
  lemma GcdEvaluatorUniversal(a: Frac, b: Frac, e: Frac)
    requires Normalized(a) && Normalized(b) && Normalized(e)
    ensures DividesRational(e, a) && DividesRational(e, b) <==> DividesRational(e, GcdEvaluator(a, b))
  {
    AlreadyReduced(a, b);
    DividesFieldwise(e, a);
    DividesFieldwise(e, b);
    DividesFieldwise(e, GcdEvaluator(a, b));
    GcdUniversal(a.n, b.n, e.n);
    LcmUniversal(a.d, b.d, e.d);
  }

  /** The rational common multiples of a and b are exactly the multiples of their lcm. */
  lemma LcmEvaluatorUniversal(a: Frac, b: Frac, e: Frac)
    requires Normalized(a) && Normalized(b) && Normalized(e)
    ensures DividesRational(a, e) && DividesRational(b, e) <==> DividesRational(LcmEvaluator(a, b), e)
  {
    AlreadyReduced(a, b);
    DividesFieldwise(a, e);
    DividesFieldwise(b, e);
    DividesFieldwise(LcmEvaluator(a, b), e);
    LcmUniversal(a.n, b.n, e.n);
    GcdUniversal(a.d, b.d, e.d);
  }

  /** The gcd itself is a common divisor, and the lcm a common multiple. */
  lemma EvaluatorsDivide(a: Frac, b: Frac)
    requires Normalized(a) && Normalized(b)
    ensures DividesRational(GcdEvaluator(a, b), a) && DividesRational(GcdEvaluator(a, b), b)
    ensures DividesRational(a, LcmEvaluator(a, b)) && DividesRational(b, LcmEvaluator(a, b))
  {
    AlreadyReduced(a, b);
    var g, l := GcdEvaluator(a, b), LcmEvaluator(a, b);
    assert IsMultiple(g, 1, g) && IsMultiple(l, 1, l);
    GcdEvaluatorUniversal(a, b, g);
    LcmEvaluatorUniversal(a, b, l);
  }

  /** `abs` of a rational. */
  function AbsFrac(x: Frac): Frac { if x.n >= 0 then x else Negate(x) }

  lemma AbsRepresents(x: Frac, n: int, d: int)
    requires Represents(x, n, d) && d > 0
    ensures Represents(AbsFrac(x), Abs(n), d)
  {
    NegateNormalized(x);
    var p := x.n * d;
    SignOfProduct(x.n, d);
    SignOfProduct(n, x.d);
    assert -x.n * d == -p && -n * x.d == -(n * x.d);
  }

  lemma SignOfProduct(x: int, d: int)
    requires d > 0
    ensures x >= 0 <==> x * d >= 0
  {}

  /** gcd times lcm is the absolute value of the product, zero operands included. */
  lemma GcdTimesLcm(a: Frac, b: Frac)
    requires Normalized(a) && Normalized(b)
    ensures Normalized(GcdEvaluator(a, b)) && Normalized(LcmEvaluator(a, b))
    ensures Mul(GcdEvaluator(a, b), LcmEvaluator(a, b)) == AbsFrac(Mul(a, b))
  {
    AlreadyReduced(a, b);
    var g, l := GcdEvaluator(a, b), LcmEvaluator(a, b);
    MulRepresents(g, g.n, g.d, l, l.n, l.d);
    LcmTimesGcd(a.n, b.n);
    LcmTimesGcd(a.d, b.d);
    var n, d := a.n * b.n, a.d * b.d;
    assert g.n * l.n == Abs(n) by { AbsProduct(a.n, b.n); assert g.n * l.n == l.n * g.n; }
    assert g.d * l.d == d;
    NonZero(a.d, b.d);
    NonNegative(a.d, b.d);
    MulRepresents(a, a.n, a.d, b, b.n, b.d);
    AbsRepresents(Mul(a, b), n, d);
    RepresentsUnique(Mul(g, l), AbsFrac(Mul(a, b)), Abs(n), d);
  }

  lemma AbsProduct(x: int, y: int)
    ensures Abs(x) * Abs(y) == Abs(x * y)
  {
    NonNegative(Abs(x), Abs(y));
    NegateFactor(x, y);
    NegateFactor(-x, y);
  }
}
