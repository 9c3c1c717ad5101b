/** Continued-fraction comparison: why looking at quotients alone orders two fractions. */
module ContinuedFractions {
  import opened IntegerMath
  import opened Fractions
  import opened QuickArithmetic

  /** One cycle of the Euclidean expansion: n == d*q + r. */
  datatype Cycle = Cycle(n: int, d: int, q: int, r: int)

  ghost predicate Expanded(c: Cycle) { c.d > 0 && c.n == c.d * c.q + c.r && 0 <= c.r < c.d }

  /** The cycle that follows c, with the reciprocal of its fractional part. */
  function Next(c: Cycle): Cycle
    requires c.r > 0
  {
    Cycle(c.d, c.r, TDiv(c.d, c.r), TMod(c.d, c.r))
  }

  ghost predicate Below(s: Cycle, t: Cycle) { s.n * t.d < t.n * s.d }

  /** n_s*d_t - n_t*d_s, split into quotient and remainder parts. */
  lemma CrossDifference(s: Cycle, t: Cycle)
    requires Expanded(s) && Expanded(t)
    ensures s.n * t.d - t.n * s.d == (s.d * t.d) * (s.q - t.q) + (s.r * t.d - t.r * s.d)
  {
    var p := s.d * t.d;
    calc {
      s.n * t.d;
      { Distribute(s.d * s.q, s.r, t.d); Associate(s.d, s.q, t.d); Associate(s.d, t.d, s.q); assert s.q * t.d == t.d * s.q; }
      p * s.q + s.r * t.d;
    }
    calc {
      t.n * s.d;
      { Distribute(t.d * t.q, t.r, s.d); Associate(t.d, t.q, s.d); Associate(t.d, s.d, t.q); assert t.q * s.d == s.d * t.q; }
      p * t.q + t.r * s.d;
    }
    Distribute'(p, s.q, -t.q);
    NegateFactor(p, t.q);
  }

  lemma SmallerQuotient(s: Cycle, t: Cycle)
    requires Expanded(s) && Expanded(t) && s.q < t.q
    ensures Below(s, t) && !Below(t, s)
  {
    CrossDifference(s, t);
    var p := s.d * t.d;
    MulAtMost(p, s.q - t.q, -1);
    MulLess(t.d, s.r, s.d);
    NonNegative(t.r, s.d);
    assert s.r * t.d == t.d * s.r && t.d * s.d == p;
  }

  /** With equal quotients the fractional parts decide, ... */
  lemma EqualQuotients(s: Cycle, t: Cycle)
    requires Expanded(s) && Expanded(t) && s.q == t.q
    ensures Below(s, t) <==> s.r * t.d < t.r * s.d
  {
    CrossDifference(s, t);
    assert (s.d * t.d) * 0 == 0;
  }

  /** ... whose reciprocals are the next cycles, so the order reverses. */
  lemma OrderReverses(s: Cycle, t: Cycle)
    requires Expanded(s) && Expanded(t) && s.q == t.q && s.r > 0 && t.r > 0
    ensures Expanded(Next(s)) && Expanded(Next(t))
    ensures Below(s, t) <==> Below(Next(t), Next(s))
  {
    EqualQuotients(s, t);
    assert s.r * t.d == t.d * s.r && t.r * s.d == s.d * t.r;
  }

  /** When an expansion ends, a remaining fractional part makes the other one larger. */
  lemma ExpansionEnds(s: Cycle, t: Cycle)
    requires Expanded(s) && Expanded(t) && s.q == t.q && (s.r == 0 || t.r == 0)
    ensures Below(s, t) <==> s.r == 0 && t.r != 0
  {
    EqualQuotients(s, t);
    if s.r == 0 {
      if t.r != 0 { PositiveProduct(t.r, s.d); }
      assert 0 * t.d == 0;
    } else {
      PositiveProduct(s.r, t.d);
      assert 0 * s.d == 0;
    }
  }

  /** The order `operator<` is after, seen from a cycle at which it may be reversed. */
  ghost predicate Ahead(s: Cycle, t: Cycle, reverse: bool) { if reverse then Below(t, s) else Below(s, t) }

  lemma DecidedByQuotients(s: Cycle, t: Cycle, reverse: bool)
    requires Expanded(s) && Expanded(t) && s.q != t.q
    ensures Ahead(s, t, reverse) <==> if reverse then s.q > t.q else s.q < t.q
  {
    if s.q < t.q { SmallerQuotient(s, t); } else { SmallerQuotient(t, s); }
  }

  lemma DecidedAtEnd(s: Cycle, t: Cycle, reverse: bool)
    requires Expanded(s) && Expanded(t) && s.q == t.q && (s.r == 0 || t.r == 0)
    ensures Ahead(s, t, reverse) <==> s.r != t.r && (s.r != 0) == reverse
  {
    ExpansionEnds(s, t);
    ExpansionEnds(t, s);
  }

  lemma NextRound(s: Cycle, t: Cycle, reverse: bool)
    requires Expanded(s) && Expanded(t) && s.q == t.q && s.r > 0 && t.r > 0
    ensures Expanded(Next(s)) && Expanded(Next(t))
    ensures Ahead(s, t, reverse) <==> Ahead(Next(s), Next(t), !reverse)
  {
    OrderReverses(s, t);
    OrderReverses(t, s);
  }

  // ---- Range ------------------------------------------------------------

  predicate CycleFits(c: Cycle, lo: int, hi: int) {
    Fits(c.n, lo, hi) && Fits(c.d, lo, hi) && Fits(c.q, lo, hi) && Fits(c.r, lo, hi)
  }

  /** The truncated quotient and remainder lie between 0 and the dividend. */
  lemma TruncatedFits(n: int, d: int, lo: int, hi: int)
    requires d > 0 && lo <= 0 <= hi && Fits(n, lo, hi) && Fits(d, lo, hi)
    ensures Fits(TDiv(n, d), lo, hi) && Fits(TMod(n, d), lo, hi)
  {
    var m := Abs(n);
    var q := m / d;
    assert m == d * q + m % d;
    Growth(q, d);
    assert q * d == d * q;
    NegateFactor(d, q);
  }

  /** The negative-remainder fix-up stays in range too. */
  lemma FixedFits(n: int, d: int, q: int, r: int, lo: int, hi: int)
    requires d > 0 && lo <= 0 <= hi && Fits(n, lo, hi) && Fits(d, lo, hi)
    requires n == d * q + r && -d < r < 0 && n < 0
    ensures Fits(q - 1, lo, hi) && Fits(r + d, lo, hi)
  {
    if q > 0 { Growth(d, q); }
    NegateFactor(d, q);
    Growth(-q, d);
    assert -q * d == d * -q;
  }

  // ---- The states of the comparison -------------------------------------

  /** The first cycle: division as C++ does it, a negative remainder fixed up. */
  function First(n: int, d: int): Cycle
    requires d > 0
  {
    var q, r := TDiv(n, d), TMod(n, d);
    if r < 0 then Cycle(n, d, q - 1, r + d) else Cycle(n, d, q, r)
  }

  /** The cycle reached after k rounds; an expansion that has ended stays at its end. */
  function CycleAt(n: int, d: int, k: nat): Cycle
    requires d > 0
  {
    if k == 0 then First(n, d) else
    var c := CycleAt(n, d, k - 1);
    if c.r > 0 then Next(c) else c
  }

  lemma FirstExpanded(n: int, d: int)
    requires d > 0
    ensures Expanded(First(n, d)) && First(n, d).n == n && First(n, d).d == d
  {
    Distribute'(d, TDiv(n, d), -1);
  }

  /** No state of the comparison, the division before the fix-up included, leaves a range
      that holds the operands and zero. */
  lemma {:induction false} ExpansionFits(n: int, d: int, k: nat, lo: int, hi: int)
    requires d > 0 && lo <= 0 <= hi && Fits(n, lo, hi) && Fits(d, lo, hi)
    ensures Fits(TDiv(n, d), lo, hi) && Fits(TMod(n, d), lo, hi)
    ensures Expanded(CycleAt(n, d, k)) && CycleFits(CycleAt(n, d, k), lo, hi)
  {
    TruncatedFits(n, d, lo, hi);
    if k == 0 {
      FirstExpanded(n, d);
      if TMod(n, d) < 0 { FixedFits(n, d, TDiv(n, d), TMod(n, d), lo, hi); }
    } else {
      var c := CycleAt(n, d, k - 1);
      ExpansionFits(n, d, k - 1, lo, hi);
      if c.r > 0 { NextFits(c, lo, hi); }
    }
  }

  lemma NextFits(c: Cycle, lo: int, hi: int)
    requires Expanded(c) && c.r > 0 && lo <= 0 <= hi && CycleFits(c, lo, hi)
    ensures Expanded(Next(c)) && CycleFits(Next(c), lo, hi)
  {
    TruncatedFits(c.d, c.r, lo, hi);
  }
}
