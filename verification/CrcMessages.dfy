/** Byte messages as the bit strings the division sees, and the checksum of a remainder. */
module CrcMessages {
  import opened BitStrings
  import opened CrcTheory

  function InputBits(reflectIn: bool, x: byte): (b: Bits)
    ensures |b| == 8
  {
    if reflectIn then Reverse(ByteBits(x)) else ByteBits(x)
  }

  /** All message bits in processing order. */
  function MessageBits(reflectIn: bool, m: seq<byte>): (b: Bits)
    ensures |b| == 8 * |m|
  {
    if m == [] then [] else MessageBits(reflectIn, m[..|m| - 1]) + InputBits(reflectIn, m[|m| - 1])
  }

  /** What `checksum()` shows of a remainder. */
  function ChecksumOf(reflectRem: bool, r: Bits, final: Bits): (c: Bits)
    requires |r| == |final|
    ensures |c| == |r|
  {
    Xor(if reflectRem then Reverse(r) else r, final)
  }

  lemma {:induction false} MessageBitsSnoc(reflectIn: bool, m: seq<byte>, x: byte)
    ensures MessageBits(reflectIn, m + [x]) == MessageBits(reflectIn, m) + InputBits(reflectIn, x)
  {
    assert (m + [x])[..|m|] == m;
  }

  lemma {:induction false} OneByte(reflectIn: bool, x: byte)
    ensures MessageBits(reflectIn, [x]) == InputBits(reflectIn, x)
  {
    assert [] + [x] == [x];
    MessageBitsSnoc(reflectIn, [], x);
    assert [] + InputBits(reflectIn, x) == InputBits(reflectIn, x);
  }

  lemma ConcatAssociative(a: Bits, b: Bits, c: Bits)
    ensures (a + b) + c == a + (b + c)
  {}

  lemma {:induction false} MessageBitsConcat(reflectIn: bool, m: seq<byte>, n: seq<byte>)
    ensures MessageBits(reflectIn, m + n) == MessageBits(reflectIn, m) + MessageBits(reflectIn, n)
    decreases |n|
  {
    if n == [] {
      assert m + n == m;
    } else {
      var front, x := n[..|n| - 1], n[|n| - 1];
      assert n == front + [x] && m + n == (m + front) + [x];
      MessageBitsConcat(reflectIn, m, front);
      MessageBitsSnoc(reflectIn, m + front, x);
      ConcatAssociative(MessageBits(reflectIn, m), MessageBits(reflectIn, front), InputBits(reflectIn, x));
    }
  }

  lemma {:induction false} ChecksumInjective(reflectRem: bool, r: Bits, s: Bits, final: Bits)
    requires |r| == |s| == |final|
    ensures ChecksumOf(reflectRem, r, final) == ChecksumOf(reflectRem, s, final) <==> r == s
  {
    var r', s' := if reflectRem then Reverse(r) else r, if reflectRem then Reverse(s) else s;
    XorCommutative(r', final);
    XorCommutative(s', final);
    XorCancel(final, r');
    XorCancel(final, s');
    ReverseTwice(r);
    ReverseTwice(s);
  }

  /** Two byte messages of equal length whose processed bits differ in a window no wider
      than the code never have equal checksums when the polynomial is odd. */
  lemma {:induction false} BurstChangesChecksum(p: Bits, seed: Bits, final: Bits, reflectIn: bool, reflectRem: bool,
                             m: seq<byte>, m': seq<byte>, i: nat, n: nat)
    requires |p| == |seed| == |final| > 0 && OddPolynomial(p)
    requires n <= |p| && DifferWithin(MessageBits(reflectIn, m), MessageBits(reflectIn, m'), i, n)
    ensures ChecksumOf(reflectRem, Run(p, seed, MessageBits(reflectIn, m)), final)
         != ChecksumOf(reflectRem, Run(p, seed, MessageBits(reflectIn, m')), final)
  {
    var b, b' := MessageBits(reflectIn, m), MessageBits(reflectIn, m');
    BurstDetected(p, seed, b, b', i, n);
    ChecksumInjective(reflectRem, Run(p, seed, b), Run(p, seed, b'), final);
  }

  // ---- Checksums as message bytes ---------------------------------------

  /** The bytes of a checksum, most significant first. */
  function BigEndian(c: Bits): (m: seq<byte>)
    requires |c| % 8 == 0
    ensures 8 * |m| == |c|
  {
    if c == [] then [] else BigEndian(c[..|c| - 8]) + [BitsByte(c[|c| - 8..])]
  }

  /** The bytes of a checksum, least significant first. */
  function LittleEndian(c: Bits): (m: seq<byte>)
    requires |c| % 8 == 0
    ensures 8 * |m| == |c|
  {
    if c == [] then [] else [BitsByte(c[|c| - 8..])] + LittleEndian(c[..|c| - 8])
  }

  lemma {:induction false} BytesOfConcat(a: Bits, b: Bits)
    requires |a| % 8 == 0 && |b| == 8
    ensures BigEndian(a + b) == BigEndian(a) + [BitsByte(b)]
    ensures LittleEndian(a + b) == [BitsByte(b)] + LittleEndian(a)
  {
    assert (a + b)[..|a + b| - 8] == a && (a + b)[|a + b| - 8..] == b;
  }

  lemma {:induction false} BigEndianBits(c: Bits)
    requires |c| % 8 == 0
    ensures MessageBits(false, BigEndian(c)) == c
  {
    if c != [] {
      var a, b := c[..|c| - 8], c[|c| - 8..];
      assert c == a + b;
      BytesOfConcat(a, b);
      BigEndianBits(a);
      BitsRoundTrip(b);
      MessageBitsSnoc(false, BigEndian(a), BitsByte(b));
    }
  }

  /** Least significant byte first, each byte reflected, is the whole string reflected. */
  lemma {:induction false} LittleEndianBits(c: Bits)
    requires |c| % 8 == 0
    ensures MessageBits(true, LittleEndian(c)) == Reverse(c)
  {
    if c != [] {
      var a, b := c[..|c| - 8], c[|c| - 8..];
      assert c == a + b;
      BytesOfConcat(a, b);
      LittleEndianBits(a);
      BitsRoundTrip(b);
      OneByte(true, BitsByte(b));
      MessageBitsConcat(true, [BitsByte(b)], LittleEndian(a));
      ReverseConcat(a, b);
    } else {
      assert Reverse(c) == [];
    }
  }

  /** Unreflected code: message, then its checksum most significant byte first. */
  lemma {:induction false} UnreflectedResidue(p: Bits, seed: Bits, final: Bits, m: seq<byte>)
    requires |p| == |seed| == |final| > 0 && |p| % 8 == 0
    ensures var c := ChecksumOf(false, Run(p, seed, MessageBits(false, m)), final);
      Run(p, seed, MessageBits(false, m + BigEndian(c))) == Run(p, Zeros(|p|), final)
    ensures final == Zeros(|p|) ==> Run(p, Zeros(|p|), final) == Zeros(|p|)
  {
    var b := MessageBits(false, m);
    var c := ChecksumOf(false, Run(p, seed, b), final);
    MessageBitsConcat(false, m, BigEndian(c));
    BigEndianBits(c);
    Residue(p, seed, b, final);
  }

  lemma {:induction false} ReflectedSum(r: Bits, final: Bits)
    requires |r| == |final|
    ensures Reverse(ChecksumOf(true, r, final)) == Xor(r, Reverse(final))
  {
    ReverseXor(Reverse(r), final);
    ReverseTwice(r);
  }

  lemma ReverseZeros(n: nat)
    ensures Reverse(Zeros(n)) == Zeros(n)
  {}

  /** Fully reflected code: message, then its checksum least significant byte first. */
  lemma {:induction false} ReflectedResidue(p: Bits, seed: Bits, final: Bits, m: seq<byte>)
    requires |p| == |seed| == |final| > 0 && |p| % 8 == 0
    ensures var c := ChecksumOf(true, Run(p, seed, MessageBits(true, m)), final);
      Run(p, seed, MessageBits(true, m + LittleEndian(c))) == Run(p, Zeros(|p|), Reverse(final))
    ensures final == Zeros(|p|) ==> Run(p, Zeros(|p|), Reverse(final)) == Zeros(|p|)
  {
    var b := MessageBits(true, m);
    var r := Run(p, seed, b);
    var c := ChecksumOf(true, r, final);
    MessageBitsConcat(true, m, LittleEndian(c));
    LittleEndianBits(c);
    assert Reverse(c) == Xor(r, Reverse(final)) by { ReflectedSum(r, final); }
    Residue(p, seed, b, Reverse(final));
    ReverseZeros(|p|);
  }

  // ---- The receiver's test, and the limits of detection, on bytes -------

  /** Unreflected code with an odd polynomial: of all byte strings of the checksum's size,
      only the checksum leaves the residue. */
  lemma {:induction false} UnreflectedTestExact(p: Bits, seed: Bits, final: Bits, m: seq<byte>, c: Bits)
    requires |p| == |seed| == |final| == |c| > 0 && |p| % 8 == 0 && OddPolynomial(p)
    ensures Run(p, seed, MessageBits(false, m + BigEndian(c))) == Run(p, Zeros(|p|), final)
      <==> c == ChecksumOf(false, Run(p, seed, MessageBits(false, m)), final)
  {
    MessageBitsConcat(false, m, BigEndian(c));
    BigEndianBits(c);
    ResidueTestExact(p, seed, MessageBits(false, m), final, c);
  }

  /** The same for the fully reflected code. */
  lemma {:induction false} ReflectedTestExact(p: Bits, seed: Bits, final: Bits, m: seq<byte>, c: Bits)
    requires |p| == |seed| == |final| == |c| > 0 && |p| % 8 == 0 && OddPolynomial(p)
    ensures Run(p, seed, MessageBits(true, m + LittleEndian(c))) == Run(p, Zeros(|p|), Reverse(final))
      <==> c == ChecksumOf(true, Run(p, seed, MessageBits(true, m)), final)
  {
    var b := MessageBits(true, m);
    assert MessageBits(true, m + LittleEndian(c)) == b + Reverse(c) by {
      MessageBitsConcat(true, m, LittleEndian(c));
      LittleEndianBits(c);
    }
    ResidueTestExact(p, seed, b, Reverse(final), Reverse(c));
    ReflectedSumExact(Run(p, seed, b), final, c);
  }

  lemma {:induction false} ReflectedSumExact(r: Bits, final: Bits, c: Bits)
    requires |r| == |final| == |c|
    ensures Reverse(c) == Xor(r, Reverse(final)) <==> c == ChecksumOf(true, r, final)
  {
    ReflectedSum(r, final);
    ReverseTwice(c);
    ReverseTwice(ChecksumOf(true, r, final));
  }

  /** The bytes that are processed as the given bits. */
  function BytesFor(reflectIn: bool, b: Bits): (m: seq<byte>)
    requires |b| % 8 == 0
    ensures 8 * |m| == |b|
  {
    if reflectIn then LittleEndian(Reverse(b)) else BigEndian(b)
  }

  lemma {:induction false} BytesForBits(reflectIn: bool, b: Bits)
    requires |b| % 8 == 0
    ensures MessageBits(reflectIn, BytesFor(reflectIn, b)) == b
  {
    if reflectIn {
      LittleEndianBits(Reverse(b));
      ReverseTwice(b);
    } else {
      BigEndianBits(b);
    }
  }

  /** The number of zero bits that fill n bits up to whole bytes. */
  function Fill(n: nat): (k: nat)
    ensures (n + k) % 8 == 0
  {
    (8 - n % 8) % 8
  }

  /** An even polynomial misses a burst of its own length between two byte messages. */
  lemma {:induction false} MissedByteBurst(p: Bits, seed: Bits, reflectIn: bool) returns (m: seq<byte>, m': seq<byte>)
    requires |p| == |seed| > 0 && !OddPolynomial(p)
    ensures DifferWithin(MessageBits(reflectIn, m), MessageBits(reflectIn, m'), 0, |p|)
    ensures Run(p, seed, MessageBits(reflectIn, m)) == Run(p, seed, MessageBits(reflectIn, m'))
  {
    var w, k := [true] + p[..|p| - 1], Fill(|p|);
    var b, z := w + Zeros(k), Zeros(|p| + k);
    m, m' := BytesFor(reflectIn, b), BytesFor(reflectIn, z);
    BytesForBits(reflectIn, b);
    BytesForBits(reflectIn, z);
    EvenPolynomialDividesBurst(p, w);
    RunConcat(p, Zeros(|p|), w, Zeros(k));
    RunZeros(p, k);
    MissedBurst(p, seed, b);
    PaddedDiffers(w, k);
  }

  lemma PaddedDiffers(w: Bits, k: nat)
    requires w != [] && w[0]
    ensures DifferWithin(w + Zeros(k), Zeros(|w| + k), 0, |w|)
  {
    assert (w + Zeros(k))[0] && !Zeros(|w| + k)[0];
  }

  /** On byte messages as well, checksums tell apart all messages that differ in a burst up
      to the width of the code exactly when the polynomial has a constant term. */
  lemma {:induction false} ByteBurstDetectionExact(p: Bits, seed: Bits, final: Bits, reflectIn: bool, reflectRem: bool)
    requires |p| == |seed| == |final| > 0
    ensures OddPolynomial(p) <==>
      forall m: seq<byte>, m': seq<byte>, i: nat, n: nat ::
        n <= |p| && DifferWithin(MessageBits(reflectIn, m), MessageBits(reflectIn, m'), i, n) ==>
        ChecksumOf(reflectRem, Run(p, seed, MessageBits(reflectIn, m)), final)
          != ChecksumOf(reflectRem, Run(p, seed, MessageBits(reflectIn, m')), final)
  {
    if OddPolynomial(p) {
      forall m: seq<byte>, m': seq<byte>, i: nat, n: nat
        | n <= |p| && DifferWithin(MessageBits(reflectIn, m), MessageBits(reflectIn, m'), i, n)
        ensures ChecksumOf(reflectRem, Run(p, seed, MessageBits(reflectIn, m)), final)
             != ChecksumOf(reflectRem, Run(p, seed, MessageBits(reflectIn, m')), final)
      {
        BurstChangesChecksum(p, seed, final, reflectIn, reflectRem, m, m', i, n);
      }
    } else {
      var m, m' := MissedByteBurst(p, seed, reflectIn);
    }
  }
}
