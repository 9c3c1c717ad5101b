/** `boost::rational` over unbounded integers, with the fields updated in place. */
module Rationals {
  import opened IntegerMath
  import opened IntegerGcd
  import opened Fractions
  import opened QuickArithmetic
  import opened ContinuedFractions

  class Rational {
    var num: int
    var den: int

    function Value(): Frac
      reads this
    {
      Frac(num, den)
    }

    predicate Valid()
      reads this
    {
      Normalized(Value())
    }

    constructor Raw(n: int, d: int)
      ensures Value() == Frac(n, d)
    {
      num, den := n, d;
    }

    /** `rational(n, d)`; a zero denominator is the `bad_rational` exception, shown as null. */
    static method Make(n: int, d: int) returns (r: Rational?)
      ensures r == null <==> d == 0
      ensures r != null ==> fresh(r) && r.Valid() && r.Value() == Reduce(n, d) && r.num * d == n * r.den
    {
      r := new Rational.Raw(n, d);
      var ok := r.Normalize();
      if !ok { r := null; }
    }

    method Normalize() returns (ok: bool)
      modifies this
      ensures ok <==> old(den) != 0
      ensures ok ==> Valid() && Value() == Reduce(old(num), old(den)) && num * old(den) == old(num) * den
      ensures !ok ==> Value() == old(Value())
    {
      if den == 0 { return false; }
      ReduceRepresents(num, den);
      if num == 0 {
        ZeroReduced(den);
        den := 1;
        return true;
      }
      var g := IntGcd(num, den);
      GcdPositive(num, den);
      num := TDiv(num, g);
      den := TDiv(den, g);
      if den < 0 {
        num := -num;
        den := -den;
      }
      // over unbounded integers the negation above always leaves den positive
      assert den > 0;
      return true;
    }

    // ---- Compound assignment with a rational (which may be `this`) -------

    method AddAssign(r: Rational)
      requires Valid() && r.Valid()
      modifies this
      ensures Valid()
      ensures Value() == Add(old(Value()), old(r.Value()))
      ensures num * (old(den) * old(r.den)) == (old(num) * old(r.den) + old(r.num) * old(den)) * den
      ensures Divides(den, Lcm(old(den), old(r.den)))
    {
      ghost var x, y := Value(), r.Value();
      QuickSumIsAdd(x, y);
      SumIntermediates(x, y);
      OperationValues(x, y);
      var rNum, rDen := r.num, r.den;
      var g := IntGcd(den, rDen);
      GcdPositive(den, rDen);
      ghost var g1 := g;
      den := TDiv(den, g);
      num := num * TDiv(rDen, g) + rNum * den;
      g := IntGcd(num, g);
      GcdPositive(num, g1);
      num := TDiv(num, g);
      den := den * TDiv(rDen, g);
    }

    method SubtractAssign(r: Rational)
      requires Valid() && r.Valid()
      modifies this
      ensures Valid()
      ensures Value() == Add(old(Value()), Negate(old(r.Value())))
      ensures num * (old(den) * old(r.den)) == (old(num) * old(r.den) - old(r.num) * old(den)) * den
      ensures Divides(den, Lcm(old(den), old(r.den)))
    {
      ghost var x, y := Value(), Negate(r.Value());
      NegateNormalized(r.Value());
      QuickSumIsAdd(x, y);
      SumIntermediates(x, y);
      OperationValues(x, r.Value());
      var rNum, rDen := r.num, r.den;
      var g := IntGcd(den, rDen);
      GcdPositive(den, rDen);
      ghost var g1 := g;
      DifferenceNumerator(num, den, rNum, rDen);
      den := TDiv(den, g);
      num := num * TDiv(rDen, g) - rNum * den;
      g := IntGcd(num, g);
      GcdPositive(num, g1);
      num := TDiv(num, g);
      den := den * TDiv(rDen, g);
    }

    method MultiplyAssign(r: Rational)
      requires Valid() && r.Valid()
      modifies this
      ensures Valid()
      ensures Value() == Mul(old(Value()), old(r.Value()))
      ensures num * (old(den) * old(r.den)) == (old(num) * old(r.num)) * den
    {
      OperationValues(Value(), r.Value());
      QuickProductIsMul(Value(), r.Value());
      var rNum, rDen := r.num, r.den;
      var gcd1 := IntGcd(num, rDen);
      var gcd2 := IntGcd(rNum, den);
      GcdPositive(num, rDen);
      GcdPositive(rNum, den);
      num := TDiv(num, gcd1) * TDiv(rNum, gcd2);
      den := TDiv(den, gcd2) * TDiv(rDen, gcd1);
    }

    method DivideAssign(r: Rational) returns (ok: bool)
      requires Valid() && r.Valid()
      modifies this
      ensures Valid()
      ensures ok <==> old(r.num) != 0
      ensures ok ==> Value() == Div(old(Value()), old(r.Value()))
      ensures ok ==> num * (old(den) * old(r.num)) == (old(num) * old(r.den)) * den
      ensures !ok ==> Value() == old(Value())
    {
      OperationValues(Value(), r.Value());
      var rNum, rDen := r.num, r.den;
      if rNum == 0 { return false; }
      if num == 0 {
        ZeroQuotient(Value(), r.Value());
        return true;
      }
      QuickQuotientIsDiv(Value(), r.Value());
      var gcd1 := IntGcd(num, rNum);
      var gcd2 := IntGcd(rDen, den);
      GcdPositive(num, rNum);
      GcdPositive(rDen, den);
      num := TDiv(num, gcd1) * TDiv(rDen, gcd2);
      den := TDiv(den, gcd2) * TDiv(rNum, gcd1);
      if den < 0 {
        num := -num;
        den := -den;
      }
      return true;
    }

    // ---- Compound assignment with an integer -----------------------------

    method AddInt(i: int)
      requires Valid()
      modifies this
      ensures Valid() && Value() == Add(old(Value()), FromInt(i))
      ensures den == old(den) && num == old(num) + i * den
    {
      AddIntIsAdd(Value(), i);
      num := num + i * den;
    }

    method SubtractInt(i: int)
      requires Valid()
      modifies this
      ensures Valid() && Value() == Add(old(Value()), Negate(FromInt(i)))
      ensures den == old(den) && num == old(num) - i * den
    {
      AddIntIsAdd(Value(), -i);
      NegatedProduct(i, den);
      num := num - i * den;
    }

    method MultiplyInt(i: int)
      requires Valid()
      modifies this
      ensures Valid() && Value() == Mul(old(Value()), FromInt(i))
      ensures num * old(den) == (old(num) * i) * den
    {
      FromIntNormalized(i);
      OperationValues(Value(), FromInt(i));
      MulIntIsMul(Value(), i);
      var gcd := IntGcd(i, den);
      num := num * TDiv(i, gcd);
      den := TDiv(den, gcd);
    }

    method DivideInt(i: int) returns (ok: bool)
      requires Valid()
      modifies this
      ensures Valid()
      ensures ok <==> i != 0
      ensures ok ==> Value() == Div(old(Value()), FromInt(i))
      ensures ok ==> num * (old(den) * i) == old(num) * den
      ensures !ok ==> Value() == old(Value())
    {
      FromIntNormalized(i);
      OperationValues(Value(), FromInt(i));
      if i == 0 { return false; }
      if num == 0 {
        ZeroQuotient(Value(), FromInt(i));
        return true;
      }
      DivIntIsDiv(Value(), i);
      var gcd := IntGcd(num, i);
      GcdPositive(num, i);
      num := TDiv(num, gcd);
      den := den * TDiv(i, gcd);
      if den < 0 {
        num := -num;
        den := -den;
      }
      return true;
    }

    method Increment()
      requires Valid()
      modifies this
      ensures Valid() && Value() == Add(old(Value()), FromInt(1))
      ensures den == old(den) && num == old(num) + den
    {
      AddIntIsAdd(Value(), 1);
      num := num + den;
    }

    method Decrement()
      requires Valid()
      modifies this
      ensures Valid() && Value() == Add(old(Value()), Negate(FromInt(1)))
      ensures den == old(den) && num == old(num) - den
    {
      AddIntIsAdd(Value(), -1);
      num := num - den;
    }

    // ---- Comparison ------------------------------------------------------

    /** Field-wise equality decides equality of value. */
    method Equal(r: Rational) returns (eq: bool)
      requires Valid() && r.Valid()
      ensures eq <==> num * r.den == r.num * den
    {
      if num * r.den == r.num * den { CanonicalUnique(Value(), r.Value()); }
      eq := num == r.num && den == r.den;
    }

    method EqualInt(i: int) returns (eq: bool)
      requires Valid()
      ensures eq <==> num == i * den
    {
      FromIntNormalized(i);
      if num == i * den { CanonicalUnique(Value(), FromInt(i)); }
      eq := den == 1 && num == i;
    }

    method LessThanInt(i: int) returns (lt: bool)
      requires Valid()
      ensures lt <==> num < i * den
    {
      var q, r := TDiv(num, den), TMod(num, den);
      while r < 0
        invariant num == den * q + r && -den < r < den
      {
        r, q := r + den, q - 1;
      }
      FloorDecides(num, den, q, r, i);
      lt := q < i;
    }

    method GreaterThanInt(i: int) returns (gt: bool)
      requires Valid()
      ensures gt <==> i * den < num
    {
      var eq := EqualInt(i);
      var lt := LessThanInt(i);
      gt := if eq then false else !lt;
    }

    /** The comparison by continued fractions. It is decided in round k, the first in which
        the quotients differ or one of the expansions ends. */
    method LessThan(r: Rational) returns (lt: bool, ghost k: nat)
      requires Valid() && r.Valid()
      ensures lt <==> num * r.den < r.num * den
      ensures Undecided(num, den, r.num, r.den, k)
      ensures !Continues(CycleAt(num, den, k), CycleAt(r.num, r.den, k))
    {
      var ts := FirstCycle(num, den);
      var rs := FirstCycle(r.num, r.den);
      var reverse := false;
      ghost var goal := Ahead(ts, rs, reverse);
      k := 0;
      while true
        invariant Expanded(ts) && Expanded(rs)
        invariant goal == Ahead(ts, rs, reverse)
        invariant ts == CycleAt(num, den, k) && rs == CycleAt(r.num, r.den, k)
        invariant Undecided(num, den, r.num, r.den, k)
        decreases ts.r
      {
        if ts.q != rs.q {
          DecidedByQuotients(ts, rs, reverse);
          return (if reverse then ts.q > rs.q else ts.q < rs.q), k;
        }
        if ts.r == 0 || rs.r == 0 {
          DecidedAtEnd(ts, rs, reverse);
          reverse := !reverse;
          break;
        }
        NextRound(ts, rs, reverse);
        reverse := !reverse;
        ts := Advance(ts);
        rs := Advance(rs);
        k := k + 1;
      }
      if ts.r == rs.r {
        return false, k;
      } else {
        return (ts.r != 0) != reverse, k;
      }
    }

    /** The first cycle of `operator<`, its negative remainder made nonnegative. */
    static method FirstCycle(n: int, d: int) returns (c: Cycle)
      requires d > 0
      ensures c == First(n, d) && Expanded(c) && c.n == n && c.d == d
    {
      FirstExpanded(n, d);
      c := Cycle(n, d, TDiv(n, d), TMod(n, d));
      while c.r < 0
        invariant c == Cycle(n, d, TDiv(n, d), TMod(n, d)) || (c == First(n, d) && c.r >= 0)
      {
        c := c.(r := c.r + d, q := c.q - 1);
      }
    }

    /** The assignments that prepare one variable for the next cycle. */
    static method Advance(c: Cycle) returns (c': Cycle)
      requires c.r > 0
      ensures c' == Next(c)
    {
      c' := c.(n := c.d, d := c.r);
      c' := c'.(q := TDiv(c'.n, c'.d), r := TMod(c'.n, c'.d));
    }
  }

  /** Neither expansion has ended and the quotients agree. */
  predicate Continues(t: Cycle, s: Cycle) { t.q == s.q && t.r > 0 && s.r > 0 }

  ghost predicate Undecided(n: int, d: int, n': int, d': int, k: nat)
    requires d > 0 && d' > 0
  {
    forall j: nat :: j < k ==> Continues(CycleAt(n, d, j), CycleAt(n', d', j))
  }

  lemma ZeroQuotient(x: Frac, y: Frac)
    requires Normalized(x) && Normalized(y) && x.n == 0 && y.n != 0
    ensures Div(x, y) == x
  {
    NonZero(x.d, y.n);
    assert 0 * y.d == 0;
    ReduceOfRepresented(x, 0, x.d * y.n);
  }
}
