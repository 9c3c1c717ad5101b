/** The number theory behind `rational`'s arithmetic: cancelling small gcds before
    multiplying already leaves the result in lowest terms. */
module QuickArithmetic {
  import opened IntegerMath
  import opened Fractions

  /** a/b + c/d over the least common denominator, before the second cancellation. */
  function CommonNumerator(a: int, b: int, c: int, d: int): int
    requires Gcd(b, d) != 0
  {
    a * TDiv(d, Gcd(b, d)) + c * TDiv(b, Gcd(b, d))
  }

  lemma NegatedProduct(x: int, y: int)
    ensures -x * y == -(x * y)
  {}

  lemma DifferenceNumerator(a: int, b: int, c: int, d: int)
    requires Gcd(b, d) != 0
    ensures CommonNumerator(a, b, -c, d) == a * TDiv(d, Gcd(b, d)) - c * TDiv(b, Gcd(b, d))
  {
    NegatedProduct(c, TDiv(b, Gcd(b, d)));
  }

  /** What `operator+=` leaves in the two fields. */
  function QuickSum(x: Frac, y: Frac): Frac
    requires x.d > 0 && y.d > 0
  {
    GcdPositive(x.d, y.d);
    var g := Gcd(x.d, y.d);
    var t := CommonNumerator(x.n, x.d, y.n, y.d);
    GcdPositive(t, g);
    var g2 := Gcd(t, g);
    Frac(TDiv(t, g2), TDiv(x.d, g) * TDiv(y.d, g2))
  }

  /** The pieces: b = b1*g, d = d1*g, t = a*d1 + c*b1; t is coprime to b1 and to d1. */
  lemma NumeratorCoprime(a: int, b1: int, c: int, d1: int)
    requires Gcd(a, b1) == 1 && Gcd(d1, b1) == 1
    ensures Gcd(a * d1 + c * b1, b1) == 1
  {
    CoprimeProduct(a, d1, b1);
    GcdAddMultiple(a * d1, b1, c);
    assert c * b1 == b1 * c;
  }

  lemma CoprimeCofactor(a: int, b: int, g: int, b1: int)
    requires Gcd(a, b) == 1 && b == g * b1
    ensures Gcd(a, b1) == 1
  {
    assert IsProduct(b1, g, b) by { assert b1 * g == g * b1; }
    GcdSymmetric(a, b);
    CoprimeDivisor(b1, b, a);
    GcdSymmetric(b1, a);
  }

  /** A divisor of t stays coprime to b1, d1 and the rest of g, hence to their product. */
  lemma LowestTerms(t: int, g: int, b1: int, d1: int)
    requires g > 0
    requires Gcd(t, b1) == 1 && Gcd(t, d1) == 1
    ensures Gcd(t, g) > 0
    ensures Gcd(TDiv(t, Gcd(t, g)), b1 * (d1 * TDiv(g, Gcd(t, g)))) == 1
  {
    var t1, g1 := CoprimeQuotients(t, g);
    assert IsProduct(t1, Gcd(t, g), t) by { assert t1 * Gcd(t, g) == Gcd(t, g) * t1; }
    CoprimeDivisor(t1, t, b1);
    CoprimeDivisor(t1, t, d1);
    GcdSymmetric(t1, b1);
    GcdSymmetric(t1, d1);
    GcdSymmetric(t1, g1);
    CoprimeProduct(d1, g1, t1);
    CoprimeProduct(b1, d1 * g1, t1);
    GcdSymmetric(t1, b1 * (d1 * g1));
  }

  /** The denominators of the algorithm, written with the cofactors b1 and d1. */
  lemma Denominators(b: int, d: int, t: int) returns (b1: int, d1: int, g2: int, g1: int)
    requires b > 0 && d > 0
    ensures Gcd(b, d) > 0 && Gcd(b1, d1) == 1
    ensures b == Gcd(b, d) * b1 && d == Gcd(b, d) * d1
    ensures b1 == TDiv(b, Gcd(b, d)) > 0 && d1 == TDiv(d, Gcd(b, d)) > 0
    ensures g2 == Gcd(t, Gcd(b, d)) > 0 && g1 == TDiv(Gcd(b, d), g2) > 0
    ensures Gcd(b, d) == g2 * g1
    ensures Divides(g2, t) && t == g2 * TDiv(t, g2)
    ensures TDiv(d, g2) == d1 * g1
  {
    b1, d1 := CoprimeQuotients(b, d);
    var g := Gcd(b, d);
    PositiveFactor(g, b1);
    PositiveFactor(g, d1);
    GcdPositive(t, g);
    g2 := Gcd(t, g);
    GcdDivides(t, g);
    DivisorQuotient(g2, t);
    DivisorQuotient(g2, g);
    g1 := TDiv(g, g2);
    PositiveFactor(g2, g1);
    assert d == g2 * (d1 * g1) by {
      Associate(g2, g1, d1);
      assert g1 * d1 == d1 * g1;
    }
    ExactDivision(g2, d1 * g1);
  }

  lemma PositiveFactor(g: int, x: int)
    requires g > 0 && g * x > 0
    ensures x > 0
  {
    if x <= 0 { MulAtMost(g, x, 0); }
  }

  lemma PositiveProduct(x: int, y: int)
    requires x > 0 && y > 0
    ensures x * y > 0
  {}

  /** The fast sum is the sum reduced from scratch. */
  lemma QuickSumIsAdd(x: Frac, y: Frac)
    requires Normalized(x) && Normalized(y)
    ensures QuickSum(x, y) == Add(x, y)
    ensures Normalized(QuickSum(x, y))
  {
    var a, b, c, d := x.n, x.d, y.n, y.d;
    var t := (GcdPositive(b, d); CommonNumerator(a, b, c, d));
    var b1, d1, g2, g1 := Denominators(b, d, t);
    var g := Gcd(b, d);
    CoprimeCofactor(a, b, g, b1);
    CoprimeCofactor(c, d, g, d1);
    GcdSymmetric(b1, d1);
    NumeratorCoprime(a, b1, c, d1);
    NumeratorCoprime(c, d1, a, b1);
    LowestTerms(t, g, b1, d1);
    PositiveProduct(d1, g1);
    PositiveProduct(b1, d1 * g1);
    var f := QuickSum(x, y);
    assert f == Frac(TDiv(t, g2), b1 * (d1 * g1));
    SumValue(a, b1, c, d1, g, g2, g1, t, f.n);
    NonZero(b, d);
    ReduceOfRepresented(f, a * d + c * b, b * d);
  }

  // f.n * (b*d) == (a*d + c*b) * f.d, both being f.n * (g*b1*g*d1)
  lemma SumValue(a: int, b1: int, c: int, d1: int, g: int, g2: int, g1: int, t: int, t1: int)
    requires t == a * d1 + c * b1 == g2 * t1 && g == g2 * g1
    ensures t1 * ((g * b1) * (g * d1)) == (a * (g * d1) + c * (g * b1)) * (b1 * (d1 * g1))
  {
    var e := b1 * d1;
    calc {
      a * (g * d1) + c * (g * b1);
      { Rotate(a, g, d1); Rotate(c, g, b1); Distribute'(g, a * d1, c * b1); }
      g * (g2 * t1);
      { Associate(g, g2, t1); }
      (g * g2) * t1;
    }
    calc {
      (g * b1) * (g * d1);
      { Interchange(g, b1, g, d1); }
      (g * g) * e;
      { Associate(g, g2, g1); }
      ((g * g2) * g1) * e;
      { Associate(g * g2, g1, e); }
      (g * g2) * (g1 * e);
    }
    assert b1 * (d1 * g1) == g1 * e by { Associate(b1, d1, g1); }
    Associate(t1, g * g2, g1 * e);
    assert t1 * (g * g2) == (g * g2) * t1;
  }

  /** The numerator formed on the way is the value times the least common denominator,
      and the final denominator divides that least common denominator. */
  lemma SumIntermediates(x: Frac, y: Frac)
    requires x.d > 0 && y.d > 0
    ensures Gcd(x.d, y.d) > 0
    ensures CommonNumerator(x.n, x.d, y.n, y.d) * (x.d * y.d) == (x.n * y.d + y.n * x.d) * Lcm(x.d, y.d)
    ensures Divides(QuickSum(x, y).d, Lcm(x.d, y.d))
  {
    var a, b, c, d := x.n, x.d, y.n, y.d;
    var t := (GcdPositive(b, d); CommonNumerator(a, b, c, d));
    var b1, d1, g2, g1 := Denominators(b, d, t);
    var g, l := Gcd(b, d), Lcm(b, d);
    calc {
      l;
      b1 * (g * d1);
      { Rotate(b1, g, d1); }
      g * (b1 * d1);
    }
    assert t * (b * d) == (a * d + c * b) * l by {
      assert t * g == a * d + c * b by {
        assert t * g == g * t;
        Distribute'(g, a * d1, c * b1);
        Rotate(g, a, d1);
        Rotate(g, c, b1);
      }
      assert b * d == g * l by { Interchange(g, b1, g, d1); Associate(g, g, b1 * d1); }
      Associate(t, g, l);
    }
    assert IsProduct(QuickSum(x, y).d, g2, l) by {
      Associate(g2, g1, b1 * d1);
      assert b1 * (d1 * g1) == g1 * (b1 * d1) by { Associate(b1, d1, g1); }
      assert (g1 * (b1 * d1)) * g2 == g2 * (g1 * (b1 * d1));
    }
  }

  // ---- Products ---------------------------------------------------------

  /** What `operator*=` leaves in the two fields: each cross gcd is cancelled first. */
  function QuickProduct(x: Frac, y: Frac): Frac
    requires x.d > 0 && y.d > 0
  {
    GcdPositive(x.n, y.d);
    GcdPositive(y.n, x.d);
    var g1, g2 := Gcd(x.n, y.d), Gcd(y.n, x.d);
    Frac(TDiv(x.n, g1) * TDiv(y.n, g2), TDiv(x.d, g2) * TDiv(y.d, g1))
  }

  lemma QuickProductIsMul(x: Frac, y: Frac)
    requires Normalized(x) && Normalized(y)
    ensures QuickProduct(x, y) == Mul(x, y)
    ensures Normalized(QuickProduct(x, y))
  {
    var a, b, c, d := x.n, x.d, y.n, y.d;
    var g1, g2 := Gcd(a, d), Gcd(c, b);
    var a1, d1 := CoprimeQuotients(a, d);
    var c1, b1 := CoprimeQuotients(c, b);
    PositiveFactor(g1, d1);
    PositiveFactor(g2, b1);
    PositiveProduct(b1, d1);
    CrossCoprime(a, b, g1, a1, g2, b1);
    CrossCoprime(c, d, g2, c1, g1, d1);
    CoprimeRectangle(a1, c1, b1, d1);
    assert (a1 * c1) * (b * d) == (a * c) * (b1 * d1) by { CrossValue(a1, c1, b1, d1, g1, g2); }
    NonZero(b, d);
    ReduceOfRepresented(QuickProduct(x, y), a * c, b * d);
  }

  lemma CrossCoprime(a: int, b: int, g: int, a1: int, h: int, b1: int)
    requires Gcd(a, b) == 1 && a == g * a1 && b == h * b1
    ensures Gcd(a1, b1) == 1
  {
    CoprimeCofactor(a, b, h, b1);
    GcdSymmetric(a, b1);
    CoprimeCofactor(b1, a, g, a1);
    GcdSymmetric(b1, a1);
  }

  lemma CoprimeRectangle(a: int, c: int, b: int, d: int)
    requires Gcd(a, b) == 1 && Gcd(a, d) == 1 && Gcd(c, b) == 1 && Gcd(c, d) == 1
    ensures Gcd(a * c, b * d) == 1
  {
    CoprimeProduct(a, c, b);
    CoprimeProduct(a, c, d);
    GcdSymmetric(a * c, b);
    GcdSymmetric(a * c, d);
    CoprimeProduct(b, d, a * c);
    GcdSymmetric(b * d, a * c);
  }

  lemma CrossValue(a1: int, c1: int, b1: int, d1: int, g: int, h: int)
    ensures (a1 * c1) * ((h * b1) * (g * d1)) == ((g * a1) * (h * c1)) * (b1 * d1)
  {
    Interchange(h, b1, g, d1);
    Interchange(g, a1, h, c1);
    Rotate(a1 * c1, h * g, b1 * d1);
    assert h * g == g * h;
    Associate(g * h, a1 * c1, b1 * d1);
  }

  predicate Fits(x: int, lo: int, hi: int) { lo <= x <= hi }

  lemma QuotientFits(a: int, g: int, lo: int, hi: int)
    requires g > 0 && lo <= 0 <= hi && Fits(a, lo, hi) && Divides(g, a)
    ensures Fits(TDiv(a, g), lo, hi)
  {
    DivisorQuotient(g, a);
    var q := TDiv(a, g);
    if q > 0 { Growth(q, g); } else { NegateFactor(g, q); Growth(-q, g); }
  }

  /** In an operand type with bounds lo and hi, the cancelled factors always fit, and the
      two products fit exactly when the answer does: `*=` overflows only with its answer. */
  lemma ProductOverflowsOnlyWithAnswer(x: Frac, y: Frac, lo: int, hi: int)
    requires Normalized(x) && Normalized(y) && lo <= 0 <= hi
    requires Fits(x.n, lo, hi) && Fits(x.d, lo, hi) && Fits(y.n, lo, hi) && Fits(y.d, lo, hi)
    ensures Gcd(x.n, y.d) > 0 && Gcd(y.n, x.d) > 0
    ensures Fits(TDiv(x.n, Gcd(x.n, y.d)), lo, hi) && Fits(TDiv(y.n, Gcd(y.n, x.d)), lo, hi)
    ensures Fits(TDiv(x.d, Gcd(y.n, x.d)), lo, hi) && Fits(TDiv(y.d, Gcd(x.n, y.d)), lo, hi)
    ensures Fits(TDiv(x.n, Gcd(x.n, y.d)) * TDiv(y.n, Gcd(y.n, x.d)), lo, hi) <==> Fits(Mul(x, y).n, lo, hi)
    ensures Fits(TDiv(x.d, Gcd(y.n, x.d)) * TDiv(y.d, Gcd(x.n, y.d)), lo, hi) <==> Fits(Mul(x, y).d, lo, hi)
  {
    GcdPositive(x.n, y.d);
    GcdPositive(y.n, x.d);
    GcdDivides(x.n, y.d);
    GcdDivides(y.n, x.d);
    QuotientFits(x.n, Gcd(x.n, y.d), lo, hi);
    QuotientFits(y.n, Gcd(y.n, x.d), lo, hi);
    QuotientFits(x.d, Gcd(y.n, x.d), lo, hi);
    QuotientFits(y.d, Gcd(x.n, y.d), lo, hi);
    QuickProductIsMul(x, y);
  }

  // ---- Quotients --------------------------------------------------------

  lemma FactorNonZero(g: int, x: int)
    requires g * x != 0
    ensures x != 0
  {}

  /** The products `/=` forms, before a negative denominator is turned positive. */
  function QuotientProducts(x: Frac, y: Frac): Frac
    requires x.d > 0 && y.d > 0 && y.n != 0
  {
    GcdPositive(x.n, y.n);
    GcdPositive(y.d, x.d);
    var g1, g2 := Gcd(x.n, y.n), Gcd(y.d, x.d);
    Frac(TDiv(x.n, g1) * TDiv(y.d, g2), TDiv(x.d, g2) * TDiv(y.n, g1))
  }

  /** What `operator/=` leaves in the fields for a nonzero divisor and dividend. */
  function QuickQuotient(x: Frac, y: Frac): Frac
    requires x.d > 0 && y.d > 0 && y.n != 0
  {
    var p := QuotientProducts(x, y);
    if p.d < 0 then Frac(-p.n, -p.d) else p
  }

  lemma QuickQuotientIsDiv(x: Frac, y: Frac)
    requires Normalized(x) && Normalized(y) && y.n != 0
    ensures QuickQuotient(x, y) == Div(x, y)
    ensures Normalized(QuickQuotient(x, y))
  {
    var a, b, c, d := x.n, x.d, y.n, y.d;
    var g1, g2 := Gcd(a, c), Gcd(d, b);
    var a1, c1 := CoprimeQuotients(a, c);
    var d1, b1 := CoprimeQuotients(d, b);
    PositiveFactor(g2, b1);
    FactorNonZero(g1, c1);
    NonZero(b1, c1);
    GcdSymmetric(c, d);
    CrossCoprime(a, b, g1, a1, g2, b1);
    CrossCoprime(d, c, g2, d1, g1, c1);
    CoprimeRectangle(a1, d1, b1, c1);
    var n, e := a1 * d1, b1 * c1;
    GcdOfAbs(n, e);
    GcdOfAbs(-n, -e);
    assert n * (b * c) == (a * d) * e by { CrossValue(a1, d1, b1, c1, g1, g2); }
    NonZero(b, c);
    NegateBoth(n, b * c, a * d, e);
    ReduceOfRepresented(QuickQuotient(x, y), a * d, b * c);
  }

  /** They are the answer's fields, both negated when the divisor is negative; so they fit
      exactly when those do. */
  lemma QuotientOverflowsOnlyWithAnswer(x: Frac, y: Frac, lo: int, hi: int)
    requires Normalized(x) && Normalized(y) && y.n != 0
    ensures var a := Div(x, y);
      QuotientProducts(x, y) == if y.n < 0 then Frac(-a.n, -a.d) else a
    ensures var a, p := Div(x, y), QuotientProducts(x, y);
      && (Fits(p.n, lo, hi) <==> Fits(if y.n < 0 then -a.n else a.n, lo, hi))
      && (Fits(p.d, lo, hi) <==> Fits(if y.n < 0 then -a.d else a.d, lo, hi))
  {
    QuickQuotientIsDiv(x, y);
    ProductSign(x, y);
  }

  lemma ProductSign(x: Frac, y: Frac)
    requires Normalized(x) && Normalized(y) && y.n != 0
    ensures QuotientProducts(x, y).d < 0 <==> y.n < 0
  {
    var c1, b1: int;
    var a1, d1: int;
    a1, c1 := CoprimeQuotients(x.n, y.n);
    d1, b1 := CoprimeQuotients(y.d, x.d);
    PositiveFactor(Gcd(y.d, x.d), b1);
    FactorNonZero(Gcd(x.n, y.n), c1);
    if c1 > 0 {
      PositiveProduct(b1, c1);
      PositiveProduct(Gcd(x.n, y.n), c1);
    } else {
      NegateFactor(b1, c1);
      PositiveProduct(b1, -c1);
      NegateFactor(Gcd(x.n, y.n), c1);
      PositiveProduct(Gcd(x.n, y.n), -c1);
    }
  }

  // ---- Overflow in sums -------------------------------------------------

  /** Every value that `+=` (or `-=`) computes fits the operand type, t being its numerator
      before the second cancellation. Operands of a type narrower than `int` are promoted:
      their products are computed in `int`, and only what is stored has to fit. */
  predicate StepsFit(x: Frac, y: Frac, t: int, lo: int, hi: int, promoted: bool)
    requires x.d > 0 && y.d > 0
  {
    GcdPositive(x.d, y.d);
    var g := Gcd(x.d, y.d);
    GcdPositive(t, g);
    var g2 := Gcd(t, g);
    var b1, d1 := TDiv(x.d, g), TDiv(y.d, g);
    && Fits(b1, lo, hi) && Fits(d1, lo, hi)
    && (promoted || (Fits(x.n * d1, lo, hi) && Fits(y.n * b1, lo, hi)))
    && Fits(t, lo, hi) && Fits(TDiv(t, g2), lo, hi)
    && Fits(TDiv(y.d, g2), lo, hi) && Fits(b1 * TDiv(y.d, g2), lo, hi)
  }

  predicate SumStepsFit(x: Frac, y: Frac, lo: int, hi: int, promoted: bool)
    requires x.d > 0 && y.d > 0
  {
    GcdPositive(x.d, y.d);
    StepsFit(x, y, CommonNumerator(x.n, x.d, y.n, y.d), lo, hi, promoted)
  }

  predicate DifferenceStepsFit(x: Frac, y: Frac, lo: int, hi: int, promoted: bool)
    requires x.d > 0 && y.d > 0
  {
    GcdPositive(x.d, y.d);
    var g := Gcd(x.d, y.d);
    StepsFit(x, y, x.n * TDiv(y.d, g) - y.n * TDiv(x.d, g), lo, hi, promoted)
  }

  predicate Operand(x: Frac, lo: int, hi: int)
  {
    Normalized(x) && lo <= 0 <= hi && Fits(x.n, lo, hi) && Fits(x.d, lo, hi)
  }

  /** v divided by g, if that is an integer, fits the operand type. */
  predicate FitsOver(v: int, g: nat, lo: int, hi: int) { lo * g <= v <= hi * g }

  /** What the operands must satisfy, n being the sum (or difference) of their cross products:
      the products and n stay within the bounds times the gcd of the denominators, and the
      product of the denominators within the bound times its gcd with n. */
  predicate CrossBounds(x: Frac, y: Frac, n: int, lo: int, hi: int, promoted: bool)
  {
    var g := Gcd(x.d, y.d);
    && (promoted || (FitsOver(x.n * y.d, g, lo, hi) && FitsOver(y.n * x.d, g, lo, hi)))
    && FitsOver(n, g, lo, hi)
    && x.d * y.d <= hi * Gcd(n, x.d * y.d)
  }

  /** Exactly when `+=` overflows nowhere, in terms of the operands alone. */
  lemma SumStepsExact(x: Frac, y: Frac, lo: int, hi: int, promoted: bool)
    requires Operand(x, lo, hi) && Operand(y, lo, hi)
    ensures SumStepsFit(x, y, lo, hi, promoted) <==> CrossBounds(x, y, x.n * y.d + y.n * x.d, lo, hi, promoted)
  {
    ProductsScale(x, y, lo, hi);
    NumeratorScales(x, y, lo, hi);
    StoredFieldsFit(x, y, lo, hi);
  }

  /** The same for `-=`, with the difference of the cross products. */
  lemma DifferenceStepsExact(x: Frac, y: Frac, lo: int, hi: int, promoted: bool)
    requires Operand(x, lo, hi) && Operand(y, lo, hi)
    ensures DifferenceStepsFit(x, y, lo, hi, promoted) <==> CrossBounds(x, y, x.n * y.d - y.n * x.d, lo, hi, promoted)
  {
    GcdPositive(x.d, y.d);
    NegateNormalized(y);
    NegatedProduct(y.n, x.d);
    DifferenceNumerator(x.n, x.d, y.n, y.d);
    ProductsScale(x, y, lo, hi);
    NumeratorScales(x, Negate(y), lo, hi);
    StoredFieldsFit(x, Negate(y), lo, hi);
  }

  /** For numerators of one sign the sum alone decides: the products cannot overflow first,
      so promotion makes no difference. */
  lemma OneSignSumDecides(x: Frac, y: Frac, lo: int, hi: int, promoted: bool)
    requires Operand(x, lo, hi) && Operand(y, lo, hi)
    requires (x.n >= 0 && y.n >= 0) || (x.n <= 0 && y.n <= 0)
    ensures SumStepsFit(x, y, lo, hi, promoted) <==> CrossBounds(x, y, x.n * y.d + y.n * x.d, lo, hi, true)
  {
    SumStepsExact(x, y, lo, hi, promoted);
    SignOfProduct(x.n, y.d);
    SignOfProduct(y.n, x.d);
    SignOfProduct(lo, Gcd(x.d, y.d));
    SignOfProduct(hi, Gcd(x.d, y.d));
  }

  lemma SignOfProduct(a: int, d: nat)
    ensures a >= 0 ==> a * d >= 0
    ensures a <= 0 ==> a * d <= 0
  {}

  lemma FitsScaled(v: int, g: int, lo: int, hi: int)
    requires g > 0
    ensures Fits(v, lo, hi) <==> FitsOver(g * v, g, lo, hi)
  {
    assert lo * g == g * lo && hi * g == g * hi;
    if v < lo { MulLess(g, v, lo); } else { MulAtMost(g, lo, v); }
    if hi < v { MulLess(g, hi, v); } else { MulAtMost(g, v, hi); }
  }

  lemma ProductsScale(x: Frac, y: Frac, lo: int, hi: int)
    requires x.d > 0 && y.d > 0
    ensures var g := Gcd(x.d, y.d);
      && g > 0
      && (Fits(x.n * TDiv(y.d, g), lo, hi) <==> FitsOver(x.n * y.d, g, lo, hi))
      && (Fits(y.n * TDiv(x.d, g), lo, hi) <==> FitsOver(y.n * x.d, g, lo, hi))
  {
    var g := Gcd(x.d, y.d);
    var b1, d1 := CoprimeQuotients(x.d, y.d);
    Rotate(x.n, g, d1);
    Rotate(y.n, g, b1);
    FitsScaled(x.n * d1, g, lo, hi);
    FitsScaled(y.n * b1, g, lo, hi);
  }

  lemma NumeratorScales(x: Frac, y: Frac, lo: int, hi: int)
    requires x.d > 0 && y.d > 0
    ensures var g, n := Gcd(x.d, y.d), x.n * y.d + y.n * x.d;
      && g > 0
      && (Fits(CommonNumerator(x.n, x.d, y.n, y.d), lo, hi) <==> FitsOver(n, g, lo, hi))
  {
    var g := Gcd(x.d, y.d);
    var b1, d1 := CoprimeQuotients(x.d, y.d);
    Rotate(x.n, g, d1);
    Rotate(y.n, g, b1);
    Distribute'(g, x.n * d1, y.n * b1);
    FitsScaled(CommonNumerator(x.n, x.d, y.n, y.d), g, lo, hi);
  }

  /** The quotients fit with what they are quotients of, and the last product, being the
      answer's denominator, is decided by the cross-multiplied fraction. */
  lemma StoredFieldsFit(x: Frac, y: Frac, lo: int, hi: int)
    requires Normalized(x) && Normalized(y) && lo <= 0 <= hi && Fits(x.d, lo, hi) && Fits(y.d, lo, hi)
    ensures Gcd(x.d, y.d) > 0
    ensures var g, n := Gcd(x.d, y.d), x.n * y.d + y.n * x.d;
      var t := CommonNumerator(x.n, x.d, y.n, y.d);
      var g2 := Gcd(t, g);
      && g2 > 0
      && Fits(TDiv(x.d, g), lo, hi) && Fits(TDiv(y.d, g), lo, hi) && Fits(TDiv(y.d, g2), lo, hi)
      && (Fits(t, lo, hi) ==> Fits(TDiv(t, g2), lo, hi))
      && (Fits(TDiv(x.d, g) * TDiv(y.d, g2), lo, hi) <==> x.d * y.d <= hi * Gcd(n, x.d * y.d))
  {
    var b, d := x.d, y.d;
    var t := (GcdPositive(b, d); CommonNumerator(x.n, b, y.n, d));
    var g, n := Gcd(b, d), x.n * d + y.n * b;
    var b1, d1, g2, g1 := Denominators(b, d, t);
    GcdDivides(b, d);
    QuotientFits(b, g, lo, hi);
    QuotientFits(d, g, lo, hi);
    GcdDivides(t, g);
    DividesTransitive(g2, g, d);
    QuotientFits(d, g2, lo, hi);
    if Fits(t, lo, hi) { QuotientFits(t, g2, lo, hi); }
    QuickSumIsAdd(x, y);
    ReducedDenominatorFits(n, b * d, lo, hi) by { PositiveProduct(b, d); }
  }

  lemma ReducedDenominatorFits(n: int, d: int, lo: int, hi: int)
    requires d > 0 && lo <= 0
    ensures Fits(Reduce(n, d).d, lo, hi) <==> d <= hi * Gcd(n, d)
  {
    var n1, d1 := CoprimeQuotients(n, d);
    PositiveFactor(Gcd(n, d), d1);
    FitsScaled(d1, Gcd(n, d), lo, hi);
    SignOfProduct(lo, Gcd(n, d));
  }

  /** The answer fits, and `+=` overflows on the way to it. 99/2 + 29/2 in eight bits, and
      2147483647/2 + 1/2 in 32, form a numerator that does not fit, promoted or not. */
  lemma SumNumeratorMayOverflow(promoted: bool)
    ensures Operand(Frac(99, 2), -128, 127) && Operand(Frac(29, 2), -128, 127)
    ensures Add(Frac(99, 2), Frac(29, 2)) == Frac(64, 1)
    ensures !SumStepsFit(Frac(99, 2), Frac(29, 2), -128, 127, promoted)
    ensures Operand(Frac(0x7fff_ffff, 2), -0x8000_0000, 0x7fff_ffff) && Operand(Frac(1, 2), -0x8000_0000, 0x7fff_ffff)
    ensures Add(Frac(0x7fff_ffff, 2), Frac(1, 2)) == Frac(0x4000_0000, 1)
    ensures !SumStepsFit(Frac(0x7fff_ffff, 2), Frac(1, 2), -0x8000_0000, 0x7fff_ffff, promoted)
  {
    GcdAddMultiple(0, 2, 1);
    GcdZero(2);
    CoprimeFromBezout(99, 2, 1, -49);
    CoprimeFromBezout(29, 2, 1, -14);
    CoprimeFromBezout(64, 1, 0, 1);
    ReduceOfRepresented(Frac(64, 1), 256, 4);
    SumStepsExact(Frac(99, 2), Frac(29, 2), -128, 127, promoted);
    CoprimeFromBezout(0x7fff_ffff, 2, 1, -0x3fff_ffff);
    CoprimeFromBezout(1, 2, 1, 0);
    CoprimeFromBezout(0x4000_0000, 1, 0, 1);
    ReduceOfRepresented(Frac(0x4000_0000, 1), 0x1_0000_0000, 4);
    SumStepsExact(Frac(0x7fff_ffff, 2), Frac(1, 2), -0x8000_0000, 0x7fff_ffff, promoted);
  }

  /** 100/3 + -67/2 with the bounds of eight bits, and 1073741825/3 + -715827883/2 with those
      of 32: the numerator and the answer fit, the two products do not. */
  lemma SumProductsMayOverflow()
    ensures Operand(Frac(100, 3), -128, 127) && Operand(Frac(-67, 2), -128, 127)
    ensures Add(Frac(100, 3), Frac(-67, 2)) == Frac(-1, 6)
    ensures SumStepsFit(Frac(100, 3), Frac(-67, 2), -128, 127, true)
    ensures !SumStepsFit(Frac(100, 3), Frac(-67, 2), -128, 127, false)
    ensures Operand(Frac(1073741825, 3), -0x8000_0000, 0x7fff_ffff) && Operand(Frac(-715827883, 2), -0x8000_0000, 0x7fff_ffff)
    ensures Add(Frac(1073741825, 3), Frac(-715827883, 2)) == Frac(1, 6)
    ensures SumStepsFit(Frac(1073741825, 3), Frac(-715827883, 2), -0x8000_0000, 0x7fff_ffff, true)
    ensures !SumStepsFit(Frac(1073741825, 3), Frac(-715827883, 2), -0x8000_0000, 0x7fff_ffff, false)
  {
    CoprimeFromBezout(3, 2, 1, -1);
    CoprimeFromBezout(100, 3, 1, -33);
    CoprimeFromBezout(-67, 2, 1, 34);
    CoprimeFromBezout(-1, 6, -1, 0);
    ReduceOfRepresented(Frac(-1, 6), -1, 6);
    SumStepsExact(Frac(100, 3), Frac(-67, 2), -128, 127, true);
    SumStepsExact(Frac(100, 3), Frac(-67, 2), -128, 127, false);
    CoprimeFromBezout(1073741825, 3, -1, 357913942);
    CoprimeFromBezout(-715827883, 2, 1, 357913942);
    CoprimeFromBezout(1, 6, 1, 0);
    ReduceOfRepresented(Frac(1, 6), 1, 6);
    SumStepsExact(Frac(1073741825, 3), Frac(-715827883, 2), -0x8000_0000, 0x7fff_ffff, true);
    SumStepsExact(Frac(1073741825, 3), Frac(-715827883, 2), -0x8000_0000, 0x7fff_ffff, false);
  }

  lemma NegateBoth(n: int, x: int, y: int, e: int)
    requires n * x == y * e
    ensures -n * x == y * -e
  {
    NegateFactor(y, e);
    assert -n * x == -(n * x);
  }

  // ---- Mixed arithmetic with an integer ---------------------------------

  /** `num += i * den` keeps lowest terms and adds i. */
  lemma AddIntIsAdd(x: Frac, i: int)
    requires Normalized(x)
    ensures Normalized(Frac(x.n + i * x.d, x.d))
    ensures Frac(x.n + i * x.d, x.d) == Add(x, FromInt(i))
  {
    GcdAddMultiple(x.n, x.d, i);
    assert x.d * i == i * x.d;
    ReduceOfRepresented(Frac(x.n + i * x.d, x.d), x.n * 1 + i * x.d, x.d * 1);
  }

  /** `*= i` cancels gcd(i, den) and multiplies what is left. */
  lemma MulIntIsMul(x: Frac, i: int)
    requires Normalized(x)
    ensures Gcd(i, x.d) > 0
    ensures Frac(x.n * TDiv(i, Gcd(i, x.d)), TDiv(x.d, Gcd(i, x.d))) == Mul(x, FromInt(i))
    ensures Normalized(Mul(x, FromInt(i)))
  {
    FromIntNormalized(i);
    QuickProductIsMul(x, FromInt(i));
    assert Gcd(x.n, 1) == 1 by { CoprimeFromBezout(x.n, 1, 0, 1); }
    GcdPositive(i, x.d);
    ExactDivision(1, x.n);
  }

  /** What `/= i` leaves for nonzero i and dividend. */
  function QuickQuotientInt(x: Frac, i: int): Frac
    requires x.d > 0 && i != 0
  {
    GcdPositive(x.n, i);
    var n, d := TDiv(x.n, Gcd(x.n, i)), x.d * TDiv(i, Gcd(x.n, i));
    if d < 0 then Frac(-n, -d) else Frac(n, d)
  }

  lemma DivIntIsDiv(x: Frac, i: int)
    requires Normalized(x) && i != 0
    ensures QuickQuotientInt(x, i) == Div(x, FromInt(i))
    ensures Normalized(Div(x, FromInt(i)))
  {
    FromIntNormalized(i);
    QuickQuotientIsDiv(x, FromInt(i));
    assert Gcd(1, x.d) == 1 by { CoprimeFromBezout(1, x.d, 1, 0); }
    ExactDivision(1, x.d);
  }

  /** Floor of n/d is below i exactly when n/d is. */
  lemma FloorDecides(n: int, d: int, q: int, r: int, i: int)
    requires d > 0 && n == d * q + r && 0 <= r < d
    ensures q < i <==> n * 1 < i * d
  {
    if q < i { MulAtMost(d, q + 1, i); Distribute'(d, q, 1); } else { MulAtMost(d, i, q); }
    assert i * d == d * i;
  }
}
