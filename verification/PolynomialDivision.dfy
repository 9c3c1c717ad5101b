/** Polynomials over GF(2) as bit strings, highest coefficient first, and long division by
    the monic generator [true] + p. This is what the CRC engines compute. */
module PolynomialDivision {
  import opened BitStrings
  import opened CrcTheory

  /** q times the generator, by shift and add; the product has |q| + |p| coefficients. */
  function Times(p: Bits, q: Bits): (t: Bits)
    ensures |t| == |q| + |p|
  {
    if q == [] then Zeros(|p|) else
    var n := |q| - 1;
    Xor(Times(p, q[..n]) + [false], Zeros(n) + (if q[n] then [true] + p else Zeros(|p| + 1)))
  }

  /** dividend == q * generator + r, with deg r < deg generator. */
  ghost predicate IsDivision(p: Bits, dividend: Bits, q: Bits, r: Bits)
  {
    |r| == |p| && |dividend| == |q| + |p| && dividend == Xor(Times(p, q), Zeros(|q|) + r)
  }

  // ---- Quotient and remainder are unique --------------------------------

  lemma {:induction false} TimesAdditive(p: Bits, q: Bits, q': Bits)
    requires |q| == |q'|
    ensures Times(p, Xor(q, q')) == Xor(Times(p, q), Times(p, q'))
  {
    if q == [] {
      XorSelf(Zeros(|p|));
    } else {
      var n := |q| - 1;
      assert Xor(q, q')[..n] == Xor(q[..n], q'[..n]);
      TimesAdditive(p, q[..n], q'[..n]);
    }
  }

  /** A nonzero multiple of the generator has degree at least that of the generator. */
  lemma {:induction false} MultipleTooLong(p: Bits, q: Bits)
    requires Times(p, q)[..|q|] == Zeros(|q|)
    ensures q == Zeros(|q|)
  {
    if q != [] {
      var n := |q| - 1;
      var t, s := Times(p, q), Times(p, q[..n]);
      assert s[..n] == Zeros(n) by {
        forall i | 0 <= i < n ensures !s[i] { assert !t[..|q|][i]; assert t[i] == s[i]; }
      }
      MultipleTooLong(p, q[..n]);
      TimesZeros(p, n);
      assert !t[..|q|][n];
      assert t[n] == q[n];
      assert q == q[..n] + [q[n]];
    }
  }

  lemma {:induction false} TimesZeros(p: Bits, n: nat)
    ensures Times(p, Zeros(n)) == Zeros(n + |p|)
  {
    if n != 0 {
      assert Zeros(n)[..n - 1] == Zeros(n - 1);
      TimesZeros(p, n - 1);
    }
  }

  // what a division says about each coefficient of the dividend
  lemma {:induction false} Coefficients(p: Bits, dividend: Bits, q: Bits, r: Bits)
    requires IsDivision(p, dividend, q, r)
    ensures forall i :: 0 <= i < |q| ==> dividend[i] == Times(p, q)[i]
    ensures forall i :: 0 <= i < |p| ==> dividend[|q| + i] == (Times(p, q)[|q| + i] != r[i])
  {}

  lemma SamePrefix(t: Bits, t': Bits, n: nat)
    requires n <= |t| == |t'| && forall i :: 0 <= i < n ==> t[i] == t'[i]
    ensures Xor(t, t')[..n] == Zeros(n)
  {}

  lemma {:induction false} SameQuotientSameRemainder(p: Bits, dividend: Bits, q: Bits, r: Bits, r': Bits)
    requires IsDivision(p, dividend, q, r) && IsDivision(p, dividend, q, r')
    ensures r == r'
  {
    Coefficients(p, dividend, q, r);
    Coefficients(p, dividend, q, r');
    forall i | 0 <= i < |p| ensures r[i] == r'[i] {
      assert dividend[|q| + i] == (Times(p, q)[|q| + i] != r[i]);
    }
  }

  lemma {:induction false} DivisionUnique(p: Bits, dividend: Bits, q: Bits, r: Bits, q': Bits, r': Bits)
    requires IsDivision(p, dividend, q, r) && IsDivision(p, dividend, q', r')
    ensures q == q' && r == r'
  {
    assert q == q' by {
      Coefficients(p, dividend, q, r);
      Coefficients(p, dividend, q', r');
      TimesAdditive(p, q, q');
      SamePrefix(Times(p, q), Times(p, q'), |q|);
      MultipleTooLong(p, Xor(q, q'));
      XorCancel(q, q');
    }
    SameQuotientSameRemainder(p, dividend, q, r, r');
  }

  // ---- The plain CRC is a polynomial remainder --------------------------

  /** seed * x^|m| + message * x^|p|: the seed on the message's leading bits, and as many
      zeros after the message as the remainder has bits. */
  function SeededDividend(seed: Bits, m: Bits): (d: Bits)
    ensures |d| == |m| + |seed|
  {
    Xor(seed + Zeros(|m|), m + Zeros(|seed|))
  }

  lemma {:induction false} RunIsRemainder(p: Bits, seed: Bits, m: Bits) returns (q: Bits)
    requires |p| == |seed| > 0
    ensures IsDivision(p, SeededDividend(seed, m), q, Run(p, seed, m))
    decreases |m|
  {
    if m == [] {
      q := [];
      assert SeededDividend(seed, []) == seed;
      assert Zeros(0) + seed == seed;
      XorZero(seed);
    } else {
      var n := |m| - 1;
      var m', b := m[..n], m[n];
      var q' := RunIsRemainder(p, seed, m');
      var r := Run(p, seed, m');
      assert m == m' + [b];
      RunConcat(p, seed, m', [b]);
      RunOneBit(p, r, b);
      q := q' + [r[0] != b];
      DivideOneMore(p, seed, m', b, q', r);
    }
  }

  /** A further message bit appends a zero coefficient and is added at position |m|. */
  lemma {:induction false} DividendGrows(seed: Bits, m: Bits, b: bool)
    ensures SeededDividend(seed, m + [b])
         == Xor(SeededDividend(seed, m) + [false], Zeros(|m|) + [b] + Zeros(|seed|))
  {
    var k := |seed|;
    assert Zeros(|m| + 1) == Zeros(|m|) + [false];
    assert m + [b] + Zeros(k) == Xor(m + Zeros(k) + [false], Zeros(|m|) + [b] + Zeros(k));
    assert seed + Zeros(|m| + 1) == seed + Zeros(|m|) + [false];
  }

  lemma {:induction false} TimesGrows(p: Bits, q: Bits, x: bool)
    ensures Times(p, q + [x]) == Xor(Times(p, q) + [false], Zeros(|q|) + (if x then [true] + p else Zeros(|p| + 1)))
  {
    assert (q + [x])[..|q|] == q;
  }

  lemma {:induction false} DivideOneMore(p: Bits, seed: Bits, m: Bits, b: bool, q: Bits, r: Bits)
    requires |p| == |seed| > 0
    requires IsDivision(p, SeededDividend(seed, m), q, r)
    ensures IsDivision(p, SeededDividend(seed, m + [b]), q + [r[0] != b], Step(p, r, b))
  {
    DividendGrows(seed, m, b);
    TimesGrows(p, q, r[0] != b);
    StepAgainst(p, SeededDividend(seed, m), Times(p, q), r, b, |m|);
  }

  lemma XorConcat(a: Bits, b: Bits, c: Bits, e: Bits)
    requires |a| == |c| && |b| == |e|
    ensures Xor(a + b, c + e) == Xor(a, c) + Xor(b, e)
  {}

  // the quotient bit cancels the coefficient in front of the new remainder
  lemma {:induction false} StepAgainst(p: Bits, d: Bits, t: Bits, r: Bits, b: bool, n: nat)
    requires |p| == |r| > 0 && |d| == |t| == n + |p|
    requires d == Xor(t, Zeros(n) + r)
    ensures Xor(d + [false], Zeros(n) + [b] + Zeros(|p|))
         == Xor(Xor(t + [false], Zeros(n) + (if r[0] != b then [true] + p else Zeros(|p| + 1))), Zeros(n + 1) + Step(p, r, b))
  {
    var g, s := if r[0] != b then [true] + p else Zeros(|p| + 1), Step(p, r, b);
    var zn, t0, t1, bit, cancel := Zeros(n), t[..n], t[n..] + [false], [b] + Zeros(|p|), [false] + s;
    assert d + [false] == t0 + Xor(t1, r + [false]) by {
      assert t == t0 + t[n..];
      XorConcat(t0, t[n..], zn, r);
      XorZero(t0);
      XorConcat(t[n..], [false], r, [false]);
    }
    assert zn + [b] + Zeros(|p|) == zn + bit;
    assert Zeros(n + 1) + s == zn + cancel;
    assert t + [false] == t0 + t1;
    XorConcat(t0, Xor(t1, r + [false]), zn, bit);
    XorConcat(t0, t1, zn, g);
    XorZero(t0);
    XorConcat(t0, Xor(t1, g), zn, cancel);
    DivisionBit(p, r, b);
    XorAssociative(t1, r + [false], bit);
    XorAssociative(t1, g, cancel);
  }

  lemma {:induction false} DivisionBit(p: Bits, r: Bits, b: bool)
    requires |p| == |r| > 0
    ensures Xor(r + [false], [b] + Zeros(|p|))
         == Xor(if r[0] != b then [true] + p else Zeros(|p| + 1), [false] + Step(p, r, b))
  {
    var x, u, z := r[0] != b, Shl(r, 1), Zeros(|p|);
    var h := if x then p else z;
    assert r + [false] == [r[0]] + u;
    XorConcat([r[0]], u, [b], z);
    XorZero(u);
    assert Zeros(|p| + 1) == [false] + z;
    XorConcat([x], h, [false], Xor(u, h));
    XorCommutative(u, h);
    XorCancel(h, u);
    assert Xor([r[0]], [b]) == [x] == Xor([x], [false]);
  }

  // ---- The augmented CRC ------------------------------------------------

  /** One step of the augmented form: the message bit enters at the bottom. */
  function AugStep(p: Bits, r: Bits, b: bool): (s: Bits)
    requires |p| == |r| > 0
    ensures |s| == |r|
  {
    Xor(r[1..] + [b], if r[0] then p else Zeros(|p|))
  }

  function AugRun(p: Bits, r: Bits, m: Bits): (s: Bits)
    requires |p| == |r| > 0
    ensures |s| == |r|
    decreases |m|
  {
    if m == [] then r else AugRun(p, AugStep(p, r, m[0]), m[1..])
  }

  lemma {:induction false} AugConcat(p: Bits, r: Bits, m: Bits, n: Bits)
    requires |p| == |r| > 0
    ensures AugRun(p, r, m + n) == AugRun(p, AugRun(p, r, m), n)
    decreases |m|
  {
    if m == [] {
      assert m + n == n;
    } else {
      assert (m + n)[1..] == m[1..] + n;
      AugConcat(p, AugStep(p, r, m[0]), m[1..], n);
    }
  }

  /** It is the remainder of the polynomial written by the seed followed by the message. */
  lemma {:induction false} AugRunIsRemainder(p: Bits, seed: Bits, m: Bits) returns (q: Bits)
    requires |p| == |seed| > 0
    ensures IsDivision(p, seed + m, q, AugRun(p, seed, m))
    decreases |m|
  {
    if m == [] {
      q := [];
      assert seed + [] == seed && Zeros(0) + seed == seed;
      XorZero(seed);
    } else {
      var n := |m| - 1;
      var m', b := m[..n], m[n];
      var q' := AugRunIsRemainder(p, seed, m');
      var r := AugRun(p, seed, m');
      LastBitOff(seed, m);
      assert AugRun(p, seed, m) == AugStep(p, r, b) by {
        AugConcat(p, seed, m', [b]);
        AugOneBit(p, r, b);
      }
      q := q' + [r[0]];
      AugDivideOneMore(p, seed + m', b, q', r);
    }
  }

  lemma LastBitOff(seed: Bits, m: Bits)
    requires m != []
    ensures var n := |m| - 1; m == m[..n] + [m[n]] && seed + m == (seed + m[..n]) + [m[n]]
  {}

  lemma {:induction false} AugDivideOneMore(p: Bits, d: Bits, b: bool, q: Bits, r: Bits)
    requires |p| > 0 && IsDivision(p, d, q, r)
    ensures IsDivision(p, d + [b], q + [r[0]], AugStep(p, r, b))
  {
    TimesGrows(p, q, r[0]);
    AugAgainst(p, d, Times(p, q), r, b, |q|);
  }

  lemma {:induction false} AugAgainst(p: Bits, d: Bits, t: Bits, r: Bits, b: bool, n: nat)
    requires |p| == |r| > 0 && |d| == |t| == n + |p|
    requires d == Xor(t, Zeros(n) + r)
    ensures d + [b]
         == Xor(Xor(t + [false], Zeros(n) + (if r[0] then [true] + p else Zeros(|p| + 1))), Zeros(n + 1) + AugStep(p, r, b))
  {
    var g, s := if r[0] then [true] + p else Zeros(|p| + 1), AugStep(p, r, b);
    var zn, t0, t1, cancel := Zeros(n), t[..n], t[n..] + [false], [false] + s;
    assert d + [b] == t0 + Xor(t1, r + [b]) by {
      assert t == t0 + t[n..];
      XorConcat(t0, t[n..], zn, r);
      XorZero(t0);
      XorConcat(t[n..], [false], r, [b]);
    }
    assert Zeros(n + 1) + s == zn + cancel;
    assert t + [false] == t0 + t1;
    XorConcat(t0, t1, zn, g);
    XorZero(t0);
    XorConcat(t0, Xor(t1, g), zn, cancel);
    AugDivisionBit(p, r, b);
    XorAssociative(t1, g, cancel);
  }

  lemma {:induction false} AugDivisionBit(p: Bits, r: Bits, b: bool)
    requires |p| == |r| > 0
    ensures r + [b] == Xor(if r[0] then [true] + p else Zeros(|p| + 1), [false] + AugStep(p, r, b))
  {
    var u, z := r[1..] + [b], Zeros(|p|);
    var h := if r[0] then p else z;
    assert r + [b] == [r[0]] + u;
    assert Zeros(|p| + 1) == [false] + z;
    XorConcat([r[0]], h, [false], Xor(u, h));
    XorCommutative(u, h);
    XorCancel(h, u);
    assert Xor([r[0]], [false]) == [r[0]];
  }

  lemma AugStepLinear(p: Bits, r: Bits, s: Bits, b: bool, c: bool)
    requires |p| == |r| == |s| > 0
    ensures AugStep(p, Xor(r, s), b != c) == Xor(AugStep(p, r, b), AugStep(p, s, c))
  {}

  lemma {:induction false} AugLinear(p: Bits, r: Bits, s: Bits, m: Bits, n: Bits)
    requires |p| == |r| == |s| > 0 && |m| == |n|
    ensures AugRun(p, Xor(r, s), Xor(m, n)) == Xor(AugRun(p, r, m), AugRun(p, s, n))
    decreases |m|
  {
    if m != [] {
      AugStepLinear(p, r, s, m[0], n[0]);
      assert Xor(m, n)[1..] == Xor(m[1..], n[1..]);
      AugLinear(p, AugStep(p, r, m[0]), AugStep(p, s, n[0]), m[1..], n[1..]);
    }
  }

  /** On zero message bits the two forms do the same. */
  lemma {:induction false} AugZeros(p: Bits, r: Bits, k: nat)
    requires |p| == |r| > 0
    ensures AugRun(p, r, Zeros(k)) == Run(p, r, Zeros(k))
    decreases k
  {
    if k != 0 {
      assert Zeros(k)[1..] == Zeros(k - 1);
      assert Shl(r, 1) == r[1..] + [false];
      AugZeros(p, Step(p, r, false), k - 1);
    }
  }

  /** A message no longer than the register just moves into a zero register. */
  lemma {:induction false} AugShiftsIn(p: Bits, x: Bits)
    requires |x| <= |p| && |p| > 0
    ensures AugRun(p, Zeros(|p|), x) == Zeros(|p| - |x|) + x
  {
    if x != [] {
      var n := |x| - 1;
      var y, b := x[..n], x[n];
      AugShiftsIn(p, y);
      assert x == y + [b];
      AugConcat(p, Zeros(|p|), y, [b]);
      AugOneBit(p, Zeros(|p| - n) + y, b);
      BitShiftsIn(p, y, b);
    } else {
      assert Zeros(|p|) + [] == Zeros(|p|);
    }
  }

  lemma {:induction false} AugOneBit(p: Bits, r: Bits, b: bool)
    requires |p| == |r| > 0
    ensures AugRun(p, r, [b]) == AugStep(p, r, b)
  {
    assert [b][1..] == [];
  }

  lemma {:induction false} BitShiftsIn(p: Bits, y: Bits, b: bool)
    requires |y| < |p|
    ensures AugStep(p, Zeros(|p| - |y|) + y, b) == Zeros(|p| - |y| - 1) + (y + [b])
  {
    var r := Zeros(|p| - |y|) + y;
    assert !r[0];
    assert r[1..] + [b] == Zeros(|p| - |y| - 1) + (y + [b]);
    XorZero(r[1..] + [b]);
  }

  lemma {:induction false} AugSplit(p: Bits, r: Bits, m: Bits)
    requires |p| == |r| > 0
    ensures AugRun(p, r, m) == Xor(Run(p, r, Zeros(|m|)), AugRun(p, Zeros(|p|), m))
  {
    XorZero(r);
    XorZero(m);
    AugLinear(p, r, Zeros(|p|), Zeros(|m|), m);
    AugZeros(p, r, |m|);
  }

  lemma ByteEnters(r: Bits, x: Bits)
    requires |r| >= 8 && |x| == 8
    ensures Xor(Shl(r, 8), Zeros(|r| - 8) + x) == r[8..] + x
  {}

  /** The byte step of `augmented_crc`. */
  lemma {:induction false} AugByteStep(p: Bits, r: Bits, x: Bits)
    requires |p| == |r| >= 8 && |x| == 8
    ensures AugRun(p, r, x) == Xor(r[8..] + x, Entry(p, r[..8]))
  {
    AugSplit(p, r, x);
    AugShiftsIn(p, x);
    ZeroByteStep(p, r);
    ByteEnters(r, x);
    XorSwap(Shl(r, 8), Entry(p, r[..8]), Zeros(|p| - 8) + x);
  }

  lemma TopPrefix(r: Bits)
    requires |r| >= 8
    ensures Top(r, 8) == r[..8]
  {}

  lemma {:induction false} ZeroByteStep(p: Bits, r: Bits)
    requires |p| == |r| >= 8
    ensures Run(p, r, Zeros(8)) == Xor(Shl(r, 8), Entry(p, r[..8]))
  {
    ByteStep(p, r, Zeros(8));
    TopPrefix(r);
    XorZero(Top(r, 8));
  }

  lemma XorSwap(a: Bits, b: Bits, c: Bits)
    requires |a| == |b| == |c|
    ensures Xor(Xor(a, b), c) == Xor(Xor(a, c), b)
  {}

  /** Advancing the seed past the register commutes with a message bit. */
  lemma {:induction false} AugFlush(p: Bits, r: Bits, b: bool)
    requires |p| == |r| > 0
    ensures Run(p, AugStep(p, r, b), Zeros(|p|)) == Step(p, Run(p, r, Zeros(|p|)), b)
  {
    var z := Zeros(|p|);
    AugStepSplit(p, r, b);
    RunSplit(p, Step(p, r, false), Zeros(|p| - 1) + [b], z);
    FlushRegister(p, r);
    FlushBit(p, b);
    XorZero(Run(p, r, z));
    StepLinear(p, Run(p, r, z), z, false, b);
  }

  lemma AugStepSplit(p: Bits, r: Bits, b: bool)
    requires |p| == |r| > 0
    ensures AugStep(p, r, b) == Xor(Step(p, r, false), Zeros(|p| - 1) + [b])
  {}

  lemma {:induction false} RunOneBit(p: Bits, r: Bits, b: bool)
    requires |p| == |r| > 0
    ensures Run(p, r, [b]) == Step(p, r, b)
  {
    assert [b][1..] == [];
  }

  lemma {:induction false} FlushRegister(p: Bits, r: Bits)
    requires |p| == |r| > 0
    ensures Run(p, Step(p, r, false), Zeros(|p|)) == Step(p, Run(p, r, Zeros(|p|)), false)
  {
    var z := Zeros(|p|);
    assert [false] + z == z + [false];
    RunConcat(p, r, z, [false]);
    RunConcat(p, r, [false], z);
    RunOneBit(p, r, false);
    RunOneBit(p, Run(p, r, z), false);
  }

  lemma {:induction false} FlushBit(p: Bits, b: bool)
    requires |p| > 0
    ensures Run(p, Zeros(|p| - 1) + [b], Zeros(|p|)) == Step(p, Zeros(|p|), b)
  {
    var n, z := |p|, Zeros(|p|);
    FullWidth(p, Zeros(n - 1) + [b], z);
    XorZero(Zeros(n - 1) + [b]);
    RunConcat(p, z, Zeros(n - 1), [b]);
    RunZeros(p, n - 1);
    RunOneBit(p, z, b);
  }

  /** A message augmented by a register of zeros gives the plain CRC of the message, the
      seed first advanced by a register of zeros; a zero seed is unaffected. */
  lemma {:induction false} AugmentedIsPlain(p: Bits, r: Bits, m: Bits)
    requires |p| == |r| > 0
    ensures AugRun(p, r, m + Zeros(|p|)) == Run(p, Run(p, r, Zeros(|p|)), m)
    decreases |m|
  {
    if m == [] {
      assert [] + Zeros(|p|) == Zeros(|p|);
      AugZeros(p, r, |p|);
    } else {
      assert (m + Zeros(|p|))[1..] == m[1..] + Zeros(|p|);
      AugmentedIsPlain(p, AugStep(p, r, m[0]), m[1..]);
      AugFlush(p, r, m[0]);
    }
  }

  /** Augmenting by c instead of zeros adds c, so the result is zero exactly when c is
      the plain CRC of the message. */
  lemma {:induction false} AugmentedByChecksum(p: Bits, m: Bits, c: Bits)
    requires |p| == |c| > 0
    ensures AugRun(p, Zeros(|p|), m + Zeros(|p|)) == Run(p, Zeros(|p|), m)
    ensures AugRun(p, Zeros(|p|), m + c) == Xor(Run(p, Zeros(|p|), m), c)
    ensures AugRun(p, Zeros(|p|), m + c) == Zeros(|p|) <==> c == Run(p, Zeros(|p|), m)
  {
    var z := Zeros(|p|);
    AugmentedIsPlain(p, z, m);
    RunZeros(p, |p|);
    AugConcat(p, z, m, z);
    AugConcat(p, z, m, c);
    AugSplit(p, AugRun(p, z, m), c);
    AugSplit(p, AugRun(p, z, m), z);
    AugShiftsIn(p, c);
    AugShiftsIn(p, z);
    assert Zeros(0) + c == c && Zeros(0) + z == z;
    XorZero(Run(p, AugRun(p, z, m), z));
    XorCancel(Run(p, z, m), c);
  }
}
