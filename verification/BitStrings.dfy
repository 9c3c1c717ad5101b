/** Bit strings, most significant bit first, as a binary numeral is written. */
module BitStrings {
  import IntegerMath

  type Bits = seq<bool>

  newtype byte = x: int | 0 <= x < 256

  function Zeros(n: nat): (z: Bits)
    ensures |z| == n && forall i :: 0 <= i < n ==> !z[i]
  {
    seq(n, _ => false)
  }

  function Xor(a: Bits, b: Bits): (c: Bits)
    requires |a| == |b|
    ensures |c| == |a| && forall i :: 0 <= i < |a| ==> c[i] == (a[i] != b[i])
  {
    seq(|a|, i requires 0 <= i < |a| => a[i] != b[i])
  }

  function Reverse(a: Bits): (r: Bits)
    ensures |r| == |a| && forall i :: 0 <= i < |a| ==> r[i] == a[|a| - 1 - i]
  {
    seq(|a|, i requires 0 <= i < |a| => a[|a| - 1 - i])
  }

  /** The first k bits, padded on the right when the string is shorter than k. */
  function Top(a: Bits, k: nat): (t: Bits)
    ensures |t| == k && forall i :: 0 <= i < k ==> t[i] == (i < |a| && a[i])
  {
    seq(k, i requires 0 <= i => i < |a| && a[i])
  }

  /** `<<` without widening: k bits leave at the top, zeros enter at the bottom. */
  function Shl(a: Bits, k: nat): (r: Bits)
    ensures |r| == |a| && forall i :: 0 <= i < |a| ==> r[i] == (i + k < |a| && a[i + k])
  {
    seq(|a|, i requires 0 <= i => i + k < |a| && a[i + k])
  }

  /** `>>` on an unsigned word. */
  function Shr(a: Bits, k: nat): (r: Bits)
    ensures |r| == |a| && forall i :: 0 <= i < |a| ==> r[i] == (i >= k && a[i - k])
  {
    seq(|a|, i requires i < |a| => i >= k && a[i - k])
  }

  /** The n least significant bits. */
  function Low(w: Bits, n: nat): (r: Bits)
    requires n <= |w|
    ensures |r| == n && forall i :: 0 <= i < n ==> r[i] == w[|w| - n + i]
  {
    seq(n, i requires 0 <= i < n => w[|w| - n + i])
  }

  /** The same value in a word of the given width. */
  function ZeroExtend(a: Bits, width: nat): (r: Bits)
    requires |a| <= width
    ensures |r| == width && forall i :: 0 <= i < width ==> r[i] == (i >= width - |a| && a[i - (width - |a|)])
  {
    seq(width, i requires i < width => i >= width - |a| && a[i - (width - |a|)])
  }

  function And(a: Bits, b: Bits): (c: Bits)
    requires |a| == |b|
    ensures |c| == |a| && forall i :: 0 <= i < |a| ==> c[i] == (a[i] && b[i])
  {
    seq(|a|, i requires 0 <= i < |a| => a[i] && b[i])
  }

  function Or(a: Bits, b: Bits): (c: Bits)
    requires |a| == |b|
    ensures |c| == |a| && forall i :: 0 <= i < |a| ==> c[i] == (a[i] || b[i])
  {
    seq(|a|, i requires 0 <= i < |a| => a[i] || b[i])
  }

  /** `1 << k`. */
  function Bit(k: nat, width: nat): (r: Bits)
    requires k < width
    ensures |r| == width && forall i :: 0 <= i < width ==> r[i] == (i == width - 1 - k)
  {
    seq(width, i => i == width - 1 - k)
  }

  /** `mask_uint_t<n>::sig_bits`: ones in the n low bits. */
  function SigBits(n: nat, width: nat): (r: Bits)
    requires n <= width
    ensures |r| == width && forall i :: 0 <= i < width ==> r[i] == (i >= width - n)
  {
    seq(width, i => i >= width - n)
  }

  // ---- Exclusive or is a group operation --------------------------------

  lemma XorAssociative(a: Bits, b: Bits, c: Bits)
    requires |a| == |b| == |c|
    ensures Xor(Xor(a, b), c) == Xor(a, Xor(b, c))
  {}

  lemma XorCommutative(a: Bits, b: Bits)
    requires |a| == |b|
    ensures Xor(a, b) == Xor(b, a)
  {}

  lemma XorZero(a: Bits)
    ensures Xor(a, Zeros(|a|)) == a == Xor(Zeros(|a|), a)
  {}

  lemma XorSelf(a: Bits)
    ensures Xor(a, a) == Zeros(|a|)
  {}

  lemma {:induction false} XorCancel(a: Bits, b: Bits)
    requires |a| == |b|
    ensures Xor(a, Xor(a, b)) == b
    ensures Xor(a, b) == Zeros(|a|) <==> a == b
  {
    if Xor(a, b) == Zeros(|a|) {
      forall i | 0 <= i < |a| ensures a[i] == b[i] { assert !Xor(a, b)[i]; }
    }
  }

  lemma ReverseTwice(a: Bits)
    ensures Reverse(Reverse(a)) == a
  {}

  lemma ReverseXor(a: Bits, b: Bits)
    requires |a| == |b|
    ensures Reverse(Xor(a, b)) == Xor(Reverse(a), Reverse(b))
  {}

  lemma ReverseConcat(a: Bits, b: Bits)
    ensures Reverse(a + b) == Reverse(b) + Reverse(a)
  {}

  // ---- Bytes ------------------------------------------------------------

  function Numeral(v: nat, n: nat): (b: Bits)
    ensures |b| == n
    decreases n
  {
    if n == 0 then [] else Numeral(v / 2, n - 1) + [v % 2 == 1]
  }

  function ToNat(b: Bits): nat
  {
    if b == [] then 0 else 2 * ToNat(b[..|b| - 1]) + (if b[|b| - 1] then 1 else 0)
  }

  lemma {:induction false} ToNatBound(b: Bits)
    ensures ToNat(b) < IntegerMath.Pow2(|b|)
  {
    if b != [] { ToNatBound(b[..|b| - 1]); }
  }

  lemma {:induction false} NumeralOfToNat(b: Bits)
    ensures Numeral(ToNat(b), |b|) == b
  {
    if b != [] {
      var front, last := b[..|b| - 1], if b[|b| - 1] then 1 else 0;
      assert ToNat(b) / 2 == ToNat(front) && ToNat(b) % 2 == last;
      NumeralOfToNat(front);
    }
  }

  lemma {:induction false} ToNatOfNumeral(v: nat, n: nat)
    requires v < IntegerMath.Pow2(n)
    ensures ToNat(Numeral(v, n)) == v
  {
    if n != 0 {
      ToNatOfNumeral(v / 2, n - 1);
      assert Numeral(v, n)[..n - 1] == Numeral(v / 2, n - 1);
    }
  }

  /** The eight bits of a byte, and the byte with given bits. */
  function ByteBits(x: byte): (b: Bits)
    ensures |b| == 8
  {
    Numeral(x as nat, 8)
  }

  function BitsByte(b: Bits): byte
    requires |b| == 8
  {
    ToNatBound(b); assert IntegerMath.Pow2(8) == 256; ToNat(b) as byte
  }

  lemma {:induction false} ByteRoundTrip(x: byte)
    ensures BitsByte(ByteBits(x)) == x
  {
    assert IntegerMath.Pow2(8) == 256;
    ToNatOfNumeral(x as nat, 8);
  }

  lemma {:induction false} BitsRoundTrip(b: Bits)
    requires |b| == 8
    ensures ByteBits(BitsByte(b)) == b
  {
    NumeralOfToNat(b);
  }
}
