/** The mathematics of the cyclic redundancy code, one message bit at a time.
    A remainder is a bit string as long as the truncated polynomial p. */
module CrcTheory {
  import opened BitStrings

  /** One polynomial-division step with message bit b compared to the top bit. */
  function Step(p: Bits, r: Bits, b: bool): (s: Bits)
    requires |p| == |r| > 0
    ensures |s| == |r|
  {
    Xor(Shl(r, 1), if r[0] != b then p else Zeros(|p|))
  }

  function Run(p: Bits, r: Bits, m: Bits): (s: Bits)
    requires |p| == |r| > 0
    ensures |s| == |r|
    decreases |m|
  {
    if m == [] then r else Run(p, Step(p, r, m[0]), m[1..])
  }

  lemma {:induction false} RunConcat(p: Bits, r: Bits, m: Bits, n: Bits)
    requires |p| == |r| > 0
    ensures Run(p, r, m + n) == Run(p, Run(p, r, m), n)
    decreases |m|
  {
    if m == [] {
      assert m + n == n;
    } else {
      assert (m + n)[1..] == m[1..] + n;
      RunConcat(p, Step(p, r, m[0]), m[1..], n);
    }
  }

  lemma {:induction false} StepLinear(p: Bits, r: Bits, s: Bits, b: bool, c: bool)
    requires |p| == |r| == |s| > 0
    ensures Step(p, Xor(r, s), b != c) == Xor(Step(p, r, b), Step(p, s, c))
  {
    assert Shl(Xor(r, s), 1) == Xor(Shl(r, 1), Shl(s, 1));
  }

  /** Whole runs are linear over GF(2), in the seed and the message together. */
  lemma {:induction false} RunLinear(p: Bits, r: Bits, s: Bits, m: Bits, n: Bits)
    requires |p| == |r| == |s| > 0 && |m| == |n|
    ensures Run(p, Xor(r, s), Xor(m, n)) == Xor(Run(p, r, m), Run(p, s, n))
    decreases |m|
  {
    if m != [] {
      StepLinear(p, r, s, m[0], n[0]);
      assert Xor(m, n)[1..] == Xor(m[1..], n[1..]);
      RunLinear(p, Step(p, r, m[0]), Step(p, s, n[0]), m[1..], n[1..]);
    }
  }

  lemma {:induction false} RunZeros(p: Bits, k: nat)
    requires |p| > 0
    ensures Run(p, Zeros(|p|), Zeros(k)) == Zeros(|p|)
  {
    if k != 0 {
      assert Step(p, Zeros(|p|), false) == Zeros(|p|);
      assert Zeros(k)[1..] == Zeros(k - 1);
      RunZeros(p, k - 1);
    }
  }

  /** Linearity, with one of the two messages or seeds zero. */
  lemma {:induction false} RunSplit(p: Bits, r: Bits, s: Bits, m: Bits)
    requires |p| == |r| == |s| > 0
    ensures Run(p, Xor(r, s), m) == Xor(Run(p, r, Zeros(|m|)), Run(p, s, m))
  {
    XorZero(m);
    RunLinear(p, r, s, Zeros(|m|), m);
  }

  lemma {:induction false} RunSeedMessage(p: Bits, r: Bits, m: Bits)
    requires |p| == |r| > 0
    ensures Run(p, r, m) == Xor(Run(p, r, Zeros(|m|)), Run(p, Zeros(|p|), m))
  {
    XorZero(r);
    RunSplit(p, r, Zeros(|p|), m);
  }

  lemma StepSplit(p: Bits, r: Bits, b: bool)
    requires |p| == |r| > 0
    ensures Step(p, r, b) == Xor(Step(p, Zeros(|p|), r[0] != b), Shl(r, 1))
  {}

  lemma TopOfShifted(r: Bits, m: Bits)
    requires |r| > 0 && m != []
    ensures Xor(m, Top(r, |m|)) == [r[0] != m[0]] + Xor(m[1..], Top(Shl(r, 1), |m| - 1))
    ensures Shl(Shl(r, 1), |m| - 1) == Shl(r, |m|)
  {}

  lemma {:induction false} AbsorbNothing(p: Bits, r: Bits)
    requires |p| == |r| > 0
    ensures Run(p, Zeros(|p|), Xor([], Top(r, 0))) == Zeros(|p|)
    ensures Xor(Zeros(|p|), Shl(r, 0)) == r
  {
    assert Xor([], Top(r, 0)) == [];
    assert Shl(r, 0) == r;
    XorZero(r);
  }

  /** The absorb law: k message bits act on the remainder only through their exclusive or
      with its k top bits; the rest of the remainder is merely shifted up by k. */
  lemma {:induction false} Absorb(p: Bits, r: Bits, m: Bits)
    requires |p| == |r| > 0
    ensures Run(p, r, m) == Xor(Run(p, Zeros(|p|), Xor(m, Top(r, |m|))), Shl(r, |m|))
    decreases |m|
  {
    if m == [] {
      AbsorbNothing(p, r);
    } else {
      var u, m', k := Shl(r, 1), m[1..], |m| - 1;
      var y := Xor(m', Top(u, k));
      assert Run(p, u, m') == Xor(Run(p, Zeros(|p|), y), Shl(u, k)) by { Absorb(p, u, m'); }
      AbsorbMore(p, r, m, y);
    }
  }

  lemma {:induction false} AbsorbMore(p: Bits, r: Bits, m: Bits, y: Bits)
    requires |p| == |r| > 0 && m != []
    requires y == Xor(m[1..], Top(Shl(r, 1), |m| - 1))
    requires Run(p, Shl(r, 1), m[1..]) == Xor(Run(p, Zeros(|p|), y), Shl(Shl(r, 1), |m| - 1))
    ensures Run(p, r, m) == Xor(Run(p, Zeros(|p|), Xor(m, Top(r, |m|))), Shl(r, |m|))
  {
    var z, u := Zeros(|p|), Shl(r, 1);
    var t := Step(p, z, r[0] != m[0]);
    StepSplit(p, r, m[0]);
    TopOfShifted(r, m);
    calc {
      Run(p, r, m);
      Run(p, Xor(t, u), m[1..]);
      { RunSplit(p, t, u, m[1..]); }
      Xor(Run(p, t, Zeros(|y|)), Run(p, u, m[1..]));
      Xor(Run(p, t, Zeros(|y|)), Xor(Run(p, z, y), Shl(r, |m|)));
      { XorAssociative(Run(p, t, Zeros(|y|)), Run(p, z, y), Shl(r, |m|)); }
      Xor(Xor(Run(p, t, Zeros(|y|)), Run(p, z, y)), Shl(r, |m|));
      { RunSeedMessage(p, t, y); }
      Xor(Run(p, t, y), Shl(r, |m|));
      { assert ([r[0] != m[0]] + y)[1..] == y; }
      Xor(Run(p, z, [r[0] != m[0]] + y), Shl(r, |m|));
    }
  }

  // ---- The byte step of the table engine --------------------------------

  /** What table entry number idx is for. */
  function Entry(p: Bits, idx: Bits): Bits
    requires |p| > 0
  {
    Run(p, Zeros(|p|), idx)
  }

  /** Eight steps at once: look up the message byte combined with the top byte of the
      remainder, and combine the entry with the remainder shifted up by a byte. */
  lemma {:induction false} ByteStep(p: Bits, r: Bits, x: Bits)
    requires |p| == |r| > 0 && |x| == 8
    ensures Run(p, r, x) == Xor(Shl(r, 8), Entry(p, Xor(x, Top(r, 8))))
  {
    Absorb(p, r, x);
    XorCommutative(Shl(r, 8), Entry(p, Xor(x, Top(r, 8))));
  }

  /** Table entries are linear in their index. */
  lemma {:induction false} EntryLinear(p: Bits, x: Bits, y: Bits)
    requires |p| > 0 && |x| == |y|
    ensures Entry(p, Xor(x, y)) == Xor(Entry(p, x), Entry(p, y))
  {
    assert Xor(Zeros(|p|), Zeros(|p|)) == Zeros(|p|);
    RunLinear(p, Zeros(|p|), Zeros(|p|), x, y);
  }

  // ---- Residue ----------------------------------------------------------

  /** Feeding as many bits as the remainder has: seed and bits merge into one string. */
  lemma {:induction false} FullWidth(p: Bits, r: Bits, c: Bits)
    requires |p| == |r| == |c| > 0
    ensures Run(p, r, c) == Run(p, Zeros(|p|), Xor(c, r))
  {
    Absorb(p, r, c);
    assert Top(r, |p|) == r && Shl(r, |p|) == Zeros(|p|);
    XorZero(Run(p, Zeros(|p|), Xor(c, r)));
  }

  /** A message followed by its own checksum leaves a remainder that depends on neither:
      only on the polynomial and the final exclusive or. */
  lemma {:induction false} Residue(p: Bits, seed: Bits, m: Bits, f: Bits)
    requires |p| == |seed| == |f| > 0
    ensures Run(p, seed, m + Xor(Run(p, seed, m), f)) == Run(p, Zeros(|p|), f)
    ensures f == Zeros(|p|) ==> Run(p, seed, m + Xor(Run(p, seed, m), f)) == Zeros(|p|)
  {
    var r := Run(p, seed, m);
    RunConcat(p, seed, m, Xor(r, f));
    FullWidth(p, r, Xor(r, f));
    assert Xor(Xor(r, f), r) == f;
    RunZeros(p, |p|);
  }

  // ---- Error detection --------------------------------------------------

  /** The last bit of p is the constant term of the polynomial. */
  predicate OddPolynomial(p: Bits)
    requires |p| > 0
  {
    p[|p| - 1]
  }

  lemma {:induction false} StepInjectiveAtZero(p: Bits, r: Bits)
    requires |p| == |r| > 0 && OddPolynomial(p)
    requires Step(p, r, false) == Zeros(|p|)
    ensures r == Zeros(|p|)
  {
    var s, n := Step(p, r, false), |p|;
    assert !s[n - 1];
    assert !r[0];
    forall i | 0 < i < n ensures !r[i] {
      assert !s[i - 1];
      assert Shl(r, 1)[i - 1] == r[i];
    }
  }

  /** With an odd polynomial, padding with zeros never loses a nonzero remainder. */
  lemma {:induction false} ZerosKeepNonZero(p: Bits, r: Bits, k: nat)
    requires |p| == |r| > 0 && OddPolynomial(p)
    ensures Run(p, r, Zeros(k)) == Zeros(|p|) <==> r == Zeros(|p|)
    decreases k
  {
    if k != 0 {
      assert Zeros(k)[1..] == Zeros(k - 1);
      ZerosKeepNonZero(p, Step(p, r, false), k - 1);
      if Step(p, r, false) == Zeros(|p|) { StepInjectiveAtZero(p, r); }
      if r == Zeros(|p|) { assert Step(p, r, false) == Zeros(|p|); }
    } else {
      assert Zeros(0) == [];
    }
  }

  lemma PaddedTop(w: Bits, n: nat)
    requires |w| <= n
    ensures Top(w + Zeros(n - |w|), |w|) == w
    ensures Shl(w + Zeros(n - |w|), |w|) == Zeros(n)
  {}

  lemma {:induction false} AbsorbZeros(p: Bits, r: Bits, w: Bits)
    requires |p| == |r| > 0
    requires Top(r, |w|) == w && Shl(r, |w|) == Zeros(|p|)
    ensures Run(p, r, Zeros(|w|)) == Run(p, Zeros(|p|), w)
  {
    Absorb(p, r, Zeros(|w|));
    XorZero(w);
    XorZero(Run(p, Zeros(|p|), w));
  }

  /** Feeding w to the zero remainder leaves what |w| zero bits leave of w itself. */
  lemma {:induction false} BurstAsSeed(p: Bits, w: Bits)
    requires |w| <= |p| && |p| > 0
    ensures Run(p, Zeros(|p|), w) == Run(p, w + Zeros(|p| - |w|), Zeros(|w|))
  {
    PaddedTop(w, |p|);
    AbsorbZeros(p, w + Zeros(|p| - |w|), w);
  }

  /** A nonzero burst no longer than the remainder is not divisible by the polynomial. */
  lemma {:induction false} ShortBurst(p: Bits, w: Bits)
    requires |p| > 0 && OddPolynomial(p) && |w| <= |p|
    ensures Run(p, Zeros(|p|), w) == Zeros(|p|) <==> w == Zeros(|w|)
  {
    var r := w + Zeros(|p| - |w|);
    BurstAsSeed(p, w);
    ZerosKeepNonZero(p, r, |w|);
    assert r == Zeros(|p|) <==> w == Zeros(|w|) by {
      assert r[..|w|] == w;
      if r == Zeros(|p|) { assert r[..|w|] == Zeros(|w|); }
      if w == Zeros(|w|) { assert r == Zeros(|p|); }
    }
  }

  /** Two messages that differ only inside the window m[i..i+n]. */
  ghost predicate DifferWithin(m: Bits, m': Bits, i: nat, n: nat)
  {
    |m| == |m'| && i + n <= |m| && m != m'
    && forall j :: 0 <= j < |m| && !(i <= j < i + n) ==> m[j] == m'[j]
  }

  lemma {:induction false} DifferenceIsBurst(m: Bits, m': Bits, i: nat, n: nat)
    requires DifferWithin(m, m', i, n)
    ensures exists w: Bits :: |w| == n && w != Zeros(n) && Xor(m, m') == Zeros(i) + w + Zeros(|m| - i - n)
  {
    var d := Xor(m, m');
    var w := d[i..i + n];
    assert d == Zeros(i) + w + Zeros(|m| - i - n);
    XorCancel(m, m');
    assert Zeros(i) + Zeros(n) + Zeros(|m| - i - n) == Zeros(|m|);
  }

  /** Every burst no longer than the remainder changes the remainder. */
  lemma {:induction false} BurstDetected(p: Bits, seed: Bits, m: Bits, m': Bits, i: nat, n: nat)
    requires |p| == |seed| > 0 && OddPolynomial(p)
    requires n <= |p| && DifferWithin(m, m', i, n)
    ensures Run(p, seed, m) != Run(p, seed, m')
  {
    var z := Zeros(|p|);
    DifferenceIsBurst(m, m', i, n);
    var w: Bits :| |w| == n && w != Zeros(n) && Xor(m, m') == Zeros(i) + w + Zeros(|m| - i - n);
    RunLinear(p, seed, seed, m, m');
    XorSelf(seed);
    RunConcat(p, z, Zeros(i) + w, Zeros(|m| - i - n));
    RunConcat(p, z, Zeros(i), w);
    RunZeros(p, i);
    ShortBurst(p, w);
    ZerosKeepNonZero(p, Run(p, z, w), |m| - i - n);
    XorCancel(Run(p, seed, m), Run(p, seed, m'));
  }

  lemma {:induction false} EvenPolynomialDividesBurst(p: Bits, w: Bits)
    requires |p| > 0 && !OddPolynomial(p) && w == [true] + p[..|p| - 1]
    ensures Run(p, Zeros(|p|), w) == Zeros(|p|)
  {
    var n := |p|;
    BurstAsSeed(p, w);
    assert w + Zeros(0) == w;
    assert Step(p, w, false) == Zeros(n);
    assert Zeros(n)[1..] == Zeros(n - 1);
    RunZeros(p, n - 1);
  }

  lemma {:induction false} MissedBurst(p: Bits, seed: Bits, w: Bits)
    requires |p| == |seed| > 0 && Run(p, Zeros(|p|), w) == Zeros(|p|)
    ensures Run(p, seed, w) == Run(p, seed, Zeros(|w|))
  {
    RunSeedMessage(p, seed, w);
    XorZero(Run(p, seed, Zeros(|w|)));
  }

  /** An even polynomial misses a burst of exactly its own length. */
  lemma {:induction false} EvenPolynomialMissesBurst(p: Bits, seed: Bits)
    requires |p| == |seed| > 0 && !OddPolynomial(p)
    ensures exists m: Bits, m': Bits :: DifferWithin(m, m', 0, |p|) && Run(p, seed, m) == Run(p, seed, m')
  {
    var w := [true] + p[..|p| - 1];
    EvenPolynomialDividesBurst(p, w);
    MissedBurst(p, seed, w);
    assert DifferWithin(Zeros(|p|), w, 0, |p|) by { assert !Zeros(|p|)[0] && w[0]; }
  }

  /** All bursts up to the width of the code are detected, in every message and position,
      exactly when the polynomial has a constant term. */
  lemma {:induction false} BurstDetectionExact(p: Bits, seed: Bits)
    requires |p| == |seed| > 0
    ensures OddPolynomial(p) <==>
      forall m: Bits, m': Bits, i: nat, n: nat :: n <= |p| && DifferWithin(m, m', i, n) ==> Run(p, seed, m) != Run(p, seed, m')
  {
    if OddPolynomial(p) {
      forall m: Bits, m': Bits, i: nat, n: nat | n <= |p| && DifferWithin(m, m', i, n)
        ensures Run(p, seed, m) != Run(p, seed, m')
      {
        BurstDetected(p, seed, m, m', i, n);
      }
    } else {
      EvenPolynomialMissesBurst(p, seed);
    }
  }

  /** The receiver's test is exact: with an odd polynomial only the right checksum
      after a message leaves the residue. */
  lemma {:induction false} ResidueTestExact(p: Bits, seed: Bits, m: Bits, f: Bits, c: Bits)
    requires |p| == |seed| == |f| == |c| > 0 && OddPolynomial(p)
    ensures Run(p, seed, m + c) == Run(p, Zeros(|p|), f) <==> c == Xor(Run(p, seed, m), f)
  {
    var good := Xor(Run(p, seed, m), f);
    Residue(p, seed, m, f);
    if c != good {
      assert DifferWithin(m + c, m + good, |m|, |p|) by {
        assert (m + c)[|m|..] == c && (m + good)[|m|..] == good;
      }
      BurstDetected(p, seed, m + c, m + good, |m|, |p|);
    }
  }
}
