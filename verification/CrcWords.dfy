/** Machine words that hold a remainder in their low bits, with whatever the arithmetic
    leaves above them, and what each word operation does to the low bits. */
module CrcWords {
  import opened BitStrings
  import opened CrcTheory

  predicate AnySet(w: Bits) { exists i :: 0 <= i < |w| && w[i] }

  lemma {:induction false} TestBit(w: Bits, k: nat)
    requires k < |w|
    ensures AnySet(And(w, Bit(k, |w|))) <==> w[|w| - 1 - k]
  {
    var c := And(w, Bit(k, |w|));
    if w[|w| - 1 - k] { assert c[|w| - 1 - k]; }
  }

  lemma LowXor(a: Bits, b: Bits, n: nat)
    requires |a| == |b| && n <= |a|
    ensures Low(Xor(a, b), n) == Xor(Low(a, n), Low(b, n))
  {}

  lemma LowShl(a: Bits, k: nat, n: nat)
    requires n <= |a|
    ensures Low(Shl(a, k), n) == Shl(Low(a, n), k)
  {}

  lemma LowZeros(n: nat, width: nat)
    requires n <= width
    ensures Low(Zeros(width), n) == Zeros(n)
  {}

  lemma LowExtended(a: Bits, width: nat)
    requires |a| <= width
    ensures Low(ZeroExtend(a, width), |a|) == a
  {}

  lemma XorExtended(a: Bits, b: Bits, width: nat)
    requires |a| == |b| <= width
    ensures Xor(ZeroExtend(a, width), ZeroExtend(b, width)) == ZeroExtend(Xor(a, b), width)
  {}

  /** Masking with `sig_bits` drops everything above the remainder. */
  lemma Masked(w: Bits, n: nat)
    requires n <= |w|
    ensures And(w, SigBits(n, |w|)) == ZeroExtend(Low(w, n), |w|)
  {}

  /** One division step on a word whose low n bits are the remainder. */
  function WordStep(rem: Bits, poly: Bits, n: nat, b: bool): (w: Bits)
    requires |rem| == |poly| && 1 <= n <= |rem|
    ensures |w| == |rem|
  {
    var x := Compare(rem, n, b);
    if AnySet(And(x, Bit(n - 1, |rem|))) then Xor(Shl(x, 1), poly) else Shl(x, 1)
  }

  /** Comparing the message bit with the top bit of the remainder, on the word. */
  function Compare(rem: Bits, n: nat, b: bool): (x: Bits)
    requires 1 <= n <= |rem|
    ensures |x| == |rem|
  {
    if b then Xor(rem, Bit(n - 1, |rem|)) else rem
  }

  lemma {:induction false} CompareDecides(rem: Bits, n: nat, b: bool)
    requires 1 <= n <= |rem|
    ensures AnySet(And(Compare(rem, n, b), Bit(n - 1, |rem|))) <==> Low(rem, n)[0] != b
    ensures Shl(Low(Compare(rem, n, b), n), 1) == Shl(Low(rem, n), 1)
  {
    var x := Compare(rem, n, b);
    TestBit(x, n - 1);
    assert x[|rem| - n] <==> Low(rem, n)[0] != b;
    ShiftedAlike(Low(x, n), Low(rem, n));
  }

  /** It is a division step on the low bits. */
  lemma {:induction false} WordStepIsStep(rem: Bits, poly: Bits, n: nat, b: bool)
    requires |rem| == |poly| && 1 <= n <= |rem|
    ensures Low(WordStep(rem, poly, n, b), n) == Step(Low(poly, n), Low(rem, n), b)
  {
    var x := Compare(rem, n, b);
    CompareDecides(rem, n, b);
    LowXor(Shl(x, 1), poly, n);
    LowShl(x, 1, n);
    XorZero(Shl(Low(rem, n), 1));
  }

  // only the top bit may differ, and it is shifted out
  lemma ShiftedAlike(r: Bits, s: Bits)
    requires |r| == |s| && forall i :: 0 < i < |r| ==> r[i] == s[i]
    ensures Shl(r, 1) == Shl(s, 1)
  {}

  // ---- Byte access to a remainder ---------------------------------------

  /** `remainder<Bits, (Bits > CHAR_BIT)>::align_msb`, truncated to a byte. */
  function AlignMsb(rem: Bits, n: nat): (b: Bits)
    requires 8 <= |rem|
    ensures |b| == 8
  {
    Low(if n > 8 then Shr(rem, n - 8) else Shl(rem, 8 - n), 8)
  }

  /** It is the top byte of the remainder, padded at the bottom when there are fewer bits. */
  lemma AlignedIsTop(rem: Bits, n: nat)
    requires 8 <= |rem| && n <= |rem|
    ensures AlignMsb(rem, n) == Top(Low(rem, n), 8)
  {}

  /** `crc_helper::index`. */
  function Index(reflect: bool, rem: Bits, n: nat, x: byte): byte
    requires 8 <= |rem|
  {
    BitsByte(Xor(ByteBits(x), if reflect then Low(rem, 8) else AlignMsb(rem, n)))
  }

  /** `crc_helper::shift`. */
  function ShiftOut(reflect: bool, rem: Bits): Bits
  {
    if reflect then Shr(rem, 8) else Shl(rem, 8)
  }

  // ---- Reflected words --------------------------------------------------

  /** A reflected remainder: r backwards, with nothing above it. */
  function Reflected(r: Bits, width: nat): (w: Bits)
    requires |r| <= width
    ensures |w| == width
  {
    ZeroExtend(Reverse(r), width)
  }

  lemma {:induction false} ReflectedLowByte(r: Bits, width: nat)
    requires |r| <= width && 8 <= width
    ensures Low(Reflected(r, width), 8) == Reverse(Top(r, 8))
  {
    var w := Reflected(r, width);
    forall i | 0 <= i < 8 ensures Low(w, 8)[i] == Reverse(Top(r, 8))[i] {
      var j := width - 8 + i;
      assert Low(w, 8)[i] == w[j];
      if j >= width - |r| { assert w[j] == Reverse(r)[j - (width - |r|)]; }
    }
  }

  lemma {:induction false} ReflectedShift(r: Bits, width: nat)
    requires |r| <= width
    ensures Shr(Reflected(r, width), 8) == Reflected(Shl(r, 8), width)
  {
    var w := Reflected(r, width);
    var v := Reflected(Shl(r, 8), width);
    forall i | 0 <= i < width ensures Shr(w, 8)[i] == v[i] {
      var j := i - (width - |r|);
      if j >= 0 {
        assert v[i] == Reverse(Shl(r, 8))[j] == Shl(r, 8)[|r| - 1 - j];
        if i >= 8 && j >= 8 { assert w[i - 8] == Reverse(r)[j - 8]; }
      }
    }
  }

  // ---- The byte update --------------------------------------------------

  /** Direct form: the word update performs eight division steps on the low bits. */
  lemma {:induction false} DirectUpdate(p: Bits, rem: Bits, x: byte, entry: Bits)
    requires 0 < |p| <= |rem| == |entry| && 8 <= |rem|
    requires Low(entry, |p|) == Entry(p, ByteBits(Index(false, rem, |p|, x)))
    ensures Low(Xor(ShiftOut(false, rem), entry), |p|) == Run(p, Low(rem, |p|), ByteBits(x))
  {
    var n := |p|;
    AlignedIsTop(rem, n);
    BitsRoundTrip(Xor(ByteBits(x), Top(Low(rem, n), 8)));
    LowXor(Shl(rem, 8), entry, n);
    LowShl(rem, 8, n);
    ByteStep(p, Low(rem, n), ByteBits(x));
  }

  /** Reflected form: the same steps, on the reflected byte and the remainder held backwards. */
  lemma {:induction false} ReflectedUpdate(p: Bits, r: Bits, x: byte, width: nat)
    requires 0 < |p| == |r| <= width && 8 <= width
    ensures var idx := Index(true, Reflected(r, width), |p|, x);
      Xor(ShiftOut(true, Reflected(r, width)), Reflected(Entry(p, Reverse(ByteBits(idx))), width))
        == Reflected(Run(p, r, Reverse(ByteBits(x))), width)
  {
    var t := Top(r, 8);
    var idx := Index(true, Reflected(r, width), |p|, x);
    ReflectedLowByte(r, width);
    BitsRoundTrip(Xor(ByteBits(x), Reverse(t)));
    ReverseXor(ByteBits(x), Reverse(t));
    ReverseTwice(t);
    assert Reverse(ByteBits(idx)) == Xor(Reverse(ByteBits(x)), t);
    ByteStep(p, r, Reverse(ByteBits(x)));
    ReflectedShift(r, width);
    var e := Entry(p, Reverse(ByteBits(idx)));
    XorExtended(Reverse(Shl(r, 8)), Reverse(e), width);
    ReverseXor(Shl(r, 8), e);
  }
}
