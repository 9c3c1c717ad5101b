/** What a signed type of fixed width changes: its most negative value has no negation. */
module FixedWidth {
  import opened IntegerMath
  import opened IntegerGcd
  import opened Fractions
  import opened QuickArithmetic

  /** The most negative value of the two's complement type whose greatest is hi. */
  function Lowest(hi: nat): int { -1 - hi }

  predicate Holds(x: int, hi: nat) { Fits(x, Lowest(hi), hi) }

  /** Negation that wraps around, on the way to or from a promoted value included. */
  function Wrapped(x: int, hi: nat): int { if x == Lowest(hi) then x else -x }

  /** The arguments for which `gcd` neither divides by zero nor overflows in its `%`. The
      operands of a type narrower than `int` are promoted, which rules out the latter. */
  predicate GcdDefined(a: int, b: int, hi: nat, promoted: bool)
  {
    && (a == Lowest(hi) ==> b != 0 && b != Lowest(hi) && (b == -1 ==> promoted))
    && (b == Lowest(hi) ==> a != 0 && (a == -1 ==> promoted))
  }

  /** C++ `%` is defined: no zero divisor, and no quotient that its type cannot hold. */
  predicate ModDefined(a: int, b: int, hi: nat, promoted: bool)
  {
    b != 0 && (promoted || !(a == Lowest(hi) && b == -1))
  }

  /** Every `%` the recursion of `integer::gcd` comes to is defined. */
  predicate GcdRuns(a: int, b: int, hi: nat, promoted: bool)
    requires Holds(a, hi) && Holds(b, hi)
    decreases (if a == Lowest(hi) then 1 else 0) + (if b == Lowest(hi) then 1 else 0)
  {
    if a == Lowest(hi) then ModDefined(a, b, hi, promoted) && GcdRuns(TMod(a, b), b, hi, promoted)
    else if b == Lowest(hi) then ModDefined(b, a, hi, promoted) && GcdRuns(a, TMod(b, a), hi, promoted)
    else true
  }

  /** `GcdDefined` is exactly that; in particular the gcd of the most negative value with
      itself, which normalizing such a pair asks for, divides by zero. */
  lemma {:induction false} GcdDefinedExact(a: int, b: int, hi: nat, promoted: bool)
    requires Holds(a, hi) && Holds(b, hi)
    ensures GcdRuns(a, b, hi, promoted) <==> GcdDefined(a, b, hi, promoted)
    ensures !GcdRuns(Lowest(hi), Lowest(hi), hi, promoted)
  {
    var low := Lowest(hi);
    assert low == low * 1;
    ExactDivision(low, 1);
    assert TMod(low, low) == 0;
  }

  /** `integer::gcd`, which first gets the most negative value out of the way. */
  method FixedGcd(a: int, b: int, hi: nat, promoted: bool) returns (g: nat)
    requires Holds(a, hi) && Holds(b, hi) && GcdDefined(a, b, hi, promoted)
    ensures g == Gcd(a, b) && g <= hi
    decreases (if a == Lowest(hi) then 1 else 0) + (if b == Lowest(hi) then 1 else 0)
  {
    if a == Lowest(hi) {
      GcdOfTruncated(a, b);
      g := FixedGcd(TMod(a, b), b, hi, promoted);
    } else if b == Lowest(hi) {
      GcdOfTruncated(b, a);
      GcdSymmetric(a, b);
      GcdSymmetric(a, TMod(b, a));
      g := FixedGcd(a, TMod(b, a), hi, promoted);
    } else {
      g := IntGcd(a, b);
      GcdAtMost(a, b, hi);
    }
  }

  lemma GcdOfTruncated(a: int, b: int)
    requires b != 0
    ensures Gcd(a, b) == Gcd(TMod(a, b), b)
  {
    GcdAddMultiple(TMod(a, b), b, TDiv(a, b));
  }

  lemma GcdAtMost(a: int, b: int, hi: nat)
    requires Abs(a) <= hi && Abs(b) <= hi
    ensures Gcd(a, b) <= hi
  {
    GcdDivides(a, b);
    var i := Cofactor(Gcd(a, b), a);
    var j := Cofactor(Gcd(a, b), b);
    if a != 0 { MagnitudeOfMultiple(Gcd(a, b), i); }
    else if b != 0 { MagnitudeOfMultiple(Gcd(a, b), j); }
    else { GcdZero(0); }
  }

  /** The reduced denominator cannot be made positive. */
  predicate Singular(n: int, d: int, hi: nat) { n != 0 && d == Lowest(hi) && Gcd(n, d) == 1 }

  /** The reduced numerator cannot be negated along with the denominator. */
  predicate SignLost(n: int, d: int, hi: nat) { n == Lowest(hi) && d < 0 && Gcd(n, d) == 1 }

  /** That is when the lowest terms have a denominator, or a numerator, just out of range. */
  lemma OutOfRangeExact(n: int, d: int, hi: nat)
    requires hi > 0 && Holds(n, hi) && Holds(d, hi)
    ensures Singular(n, d, hi) <==> d != 0 && !Holds(Reduce(n, d).d, hi)
    ensures SignLost(n, d, hi) <==> d != 0 && !Holds(Reduce(n, d).n, hi)
  {
    if d != 0 {
      if n == 0 {
        ZeroReduced(d);
      } else {
        LowestTermsFit(n, d, hi);
      }
    }
  }

  /** In eight bits -128/-3 has a defined gcd and loses its sign, and 1/-128 is singular;
      -128/-1 loses its sign too, its gcd being defined where operands are promoted. */
  lemma EightBitExamples(promoted: bool)
    ensures Holds(-128, 127) && Holds(-3, 127) && GcdDefined(-128, -3, 127, promoted) && SignLost(-128, -3, 127)
    ensures Holds(1, 127) && GcdDefined(1, -128, 127, promoted) && Singular(1, -128, 127)
    ensures SignLost(-128, -1, 127) && (GcdDefined(-128, -1, 127, promoted) <==> promoted)
  {
    CoprimeFromBezout(-128, -3, 1, -43);
    CoprimeFromBezout(1, -128, 1, 0);
    CoprimeFromBezout(-128, -1, 0, -1);
  }

  /** What `+=` comes by, and which of it may leave the type. */
  lemma SumPlan(x: Frac, y: Frac, hi: nat, promoted: bool) returns (g: nat, b1: int, d1: int, t: int)
    requires Operand(x, Lowest(hi), hi) && Operand(y, Lowest(hi), hi)
    ensures g == Gcd(x.d, y.d) > 0 && b1 == TDiv(x.d, g) > 0 && d1 == TDiv(y.d, g) && t == x.n * d1 + y.n * b1
    ensures Gcd(t, g) > 0
    ensures var d2 := TDiv(y.d, Gcd(t, g));
      && (SumStepsFit(x, y, Lowest(hi), hi, promoted) <==>
            (promoted || (Holds(x.n * d1, hi) && Holds(y.n * b1, hi))) && Holds(t, hi) && Holds(b1 * d2, hi))
      && Add(x, y) == Frac(TDiv(t, Gcd(t, g)), b1 * d2)
  {
    g := (GcdPositive(x.d, y.d); Gcd(x.d, y.d));
    t := CommonNumerator(x.n, x.d, y.n, y.d);
    var g1, g2;
    b1, d1, g2, g1 := Denominators(x.d, y.d, t);
    StoredFieldsFit(x, y, Lowest(hi), hi);
    QuickSumIsAdd(x, y);
  }

  lemma DifferencePlan(x: Frac, y: Frac, hi: nat, promoted: bool) returns (g: nat, b1: int, d1: int, t: int)
    requires Operand(x, Lowest(hi), hi) && Operand(y, Lowest(hi), hi)
    ensures g == Gcd(x.d, y.d) > 0 && b1 == TDiv(x.d, g) > 0 && d1 == TDiv(y.d, g) && t == x.n * d1 - y.n * b1
    ensures Gcd(t, g) > 0
    ensures var d2 := TDiv(y.d, Gcd(t, g));
      && (DifferenceStepsFit(x, y, Lowest(hi), hi, promoted) <==>
            (promoted || (Holds(x.n * d1, hi) && Holds(y.n * b1, hi))) && Holds(t, hi) && Holds(b1 * d2, hi))
      && Add(x, Negate(y)) == Frac(TDiv(t, Gcd(t, g)), b1 * d2)
  {
    g := (GcdPositive(x.d, y.d); Gcd(x.d, y.d));
    DifferenceNumerator(x.n, x.d, y.n, y.d);
    t := CommonNumerator(x.n, x.d, -y.n, y.d);
    var g1, g2;
    b1, d1, g2, g1 := Denominators(x.d, y.d, t);
    NegateNormalized(y);
    StoredFieldsFit(x, Negate(y), Lowest(hi), hi);
    QuickSumIsAdd(x, Negate(y));
  }

  class FixedRational {
    const hi: nat
    const promoted: bool   // the operand type is narrower than `int`
    var num: int
    var den: int

    /** `normalize` in the operand type: it throws for a zero denominator and for a singular
        one; otherwise the fields are the lowest terms exactly when no sign is lost. */
    method Normalize() returns (ok: bool)
      requires hi > 0 && Holds(num, hi) && Holds(den, hi)
      requires num != 0 && den != 0 ==> GcdDefined(num, den, hi, promoted)
      modifies this
      ensures Holds(num, hi) && Holds(den, hi)
      ensures ok <==> old(den) != 0 && !Singular(old(num), old(den), hi)
      ensures ok ==> (Frac(num, den) == Reduce(old(num), old(den)) <==> !SignLost(old(num), old(den), hi))
      ensures ok && SignLost(old(num), old(den), hi) ==> num == old(num) && den == -old(den)
    {
      ghost var n, d := num, den;
      if den == 0 { return false; }
      if num == 0 {
        ZeroReduced(den);
        den := 1;
        return true;
      }
      var g := FixedGcd(num, den, hi, promoted);
      LowestTermsFit(n, d, hi);
      num := TDiv(num, g);
      den := TDiv(den, g);
      if den < 0 {
        num := Wrapped(num, hi);
        den := Wrapped(den, hi);
      }
      if den < 0 { return false; }
      return true;
    }

    function Value(): Frac
      reads this
    {
      Frac(num, den)
    }

    /** `operator+=`; it fails where a step leaves the type, after which nothing is said. */
    method AddAssign(r: FixedRational) returns (ok: bool)
      requires r.hi == hi && r.promoted == promoted
      requires Operand(Value(), Lowest(hi), hi) && Operand(r.Value(), Lowest(hi), hi)
      modifies this
      ensures ok <==> SumStepsFit(old(Value()), old(r.Value()), Lowest(hi), hi, promoted)
      ensures ok ==> Value() == Add(old(Value()), old(r.Value()))
    {
      ghost var gg, b1, d1, t := SumPlan(Value(), r.Value(), hi, promoted);
      var rNum, rDen := r.num, r.den;
      var g := FixedGcd(den, rDen, hi, promoted);
      den := TDiv(den, g);
      var p, q := num * TDiv(rDen, g), rNum * den;
      if !promoted && !(Holds(p, hi) && Holds(q, hi)) { return false; }
      if !Holds(p + q, hi) { return false; }
      num := p + q;
      ok := FinishSum(g, rDen);
    }

    /** `operator-=`, the same with the difference. */
    method SubtractAssign(r: FixedRational) returns (ok: bool)
      requires r.hi == hi && r.promoted == promoted
      requires Operand(Value(), Lowest(hi), hi) && Operand(r.Value(), Lowest(hi), hi)
      modifies this
      ensures ok <==> DifferenceStepsFit(old(Value()), old(r.Value()), Lowest(hi), hi, promoted)
      ensures ok ==> Value() == Add(old(Value()), Negate(old(r.Value())))
    {
      ghost var gg, b1, d1, t := DifferencePlan(Value(), r.Value(), hi, promoted);
      var rNum, rDen := r.num, r.den;
      var g := FixedGcd(den, rDen, hi, promoted);
      den := TDiv(den, g);
      var p, q := num * TDiv(rDen, g), rNum * den;
      if !promoted && !(Holds(p, hi) && Holds(q, hi)) { return false; }
      if !Holds(p - q, hi) { return false; }
      num := p - q;
      ok := FinishSum(g, rDen);
    }

    /** The second cancellation and the last product, g being the first gcd. */
    method FinishSum(g: int, rDen: int) returns (ok: bool)
      requires hi > 0 && Holds(num, hi) && 0 < g <= hi && 0 < rDen <= hi && den > 0
      modifies this
      ensures Gcd(old(num), g) > 0
      ensures var g2 := Gcd(old(num), g);
        && (ok <==> Holds(old(den) * TDiv(rDen, g2), hi))
        && (ok ==> num == TDiv(old(num), g2) && den == old(den) * TDiv(rDen, g2))
    {
      GcdPositive(num, g);
      var g2 := FixedGcd(num, g, hi, promoted);
      num := TDiv(num, g2);
      var d := den * TDiv(rDen, g2);
      if !Holds(d, hi) { return false; }
      den := d;
      return true;
    }
  }

  /** Dividing by the gcd keeps both numbers in the type and their signs; it leaves the
      most negative value only when there is nothing to cancel. */
  lemma LowestTermsFit(n: int, d: int, hi: nat)
    requires n != 0 && d != 0 && Holds(n, hi) && Holds(d, hi)
    ensures Gcd(n, d) > 0
    ensures QuotientOf(n, Gcd(n, d), hi) && QuotientOf(d, Gcd(n, d), hi)
  {
    GcdPositive(n, d);
    GcdDivides(n, d);
    QuotientKeepsSign(n, Gcd(n, d), hi);
    QuotientKeepsSign(d, Gcd(n, d), hi);
  }

  ghost predicate QuotientOf(a: int, g: int, hi: nat)
    requires g > 0
  {
    var q := TDiv(a, g);
    && Holds(q, hi) && (q < 0 <==> a < 0) && q != 0
    && (q == Lowest(hi) <==> a == Lowest(hi) && g == 1)
    && (g == 1 ==> q == a)
  }

  lemma QuotientKeepsSign(a: int, g: int, hi: nat)
    requires g > 0 && a != 0 && Holds(a, hi) && Divides(g, a)
    ensures QuotientOf(a, g, hi)
  {
    DivisorQuotient(g, a);
    var q := TDiv(a, g);
    QuotientFits(a, g, Lowest(hi), hi);
    SignOfMultiple(g, q);
    if g > 1 && q < 0 { StrictGrowth(g, -q); NegateFactor(g, q); }
    assert 1 * q == q;
  }

  lemma SignOfMultiple(g: int, q: int)
    requires g > 0
    ensures g * q < 0 <==> q < 0
    ensures g * q == 0 <==> q == 0
  {}

  lemma StrictGrowth(g: int, q: int)
    requires g > 1 && q > 0
    ensures g * q > q
  {}
}
