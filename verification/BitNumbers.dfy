/** Bit strings as binary numbers: what the word operations do to unsigned values. */
module BitNumbers {
  import opened BitStrings
  import opened IntegerMath

  /** Bit k of a number, the lowest being bit 0. */
  predicate BitOf(v: nat, k: nat) { if k == 0 then v % 2 == 1 else BitOf(v / 2, k - 1) }

  lemma {:induction false} BitOfQuotient(v: nat, k: nat)
    ensures BitOf(v, k) <==> v / Pow2(k) % 2 == 1
  {
    if k > 0 {
      BitOfQuotient(v / 2, k - 1);
      HalveTwice(v, Pow2(k - 1));
    }
  }

  lemma HalveTwice(v: nat, m: nat)
    requires m > 0
    ensures v / 2 / m == v / (2 * m)
  {
    var q := v / 2 / m;
    assert v == 2 * (m * q + v / 2 % m) + v % 2;
    QuotientUnique(v, 2 * m, q, 2 * (v / 2 % m) + v % 2) by { Associate(2, m, q); }
  }

  lemma QuotientUnique(v: nat, m: nat, q: nat, r: nat)
    requires v == m * q + r && r < m
    ensures v / m == q && v % m == r
  {
    RemainderUnique(m, q, r, v / m, v % m);
    if q != v / m {
      Distribute'(m, q, -(v / m));
      NegateFactor(m, v / m);
      MagnitudeOfMultiple(m, q - v / m);
    }
  }

  /** The numeral of v holds its bits, the highest first. */
  lemma {:induction false} NumeralBit(v: nat, n: nat, k: nat)
    requires k < n
    ensures Numeral(v, n)[n - 1 - k] <==> BitOf(v, k)
  {
    if k > 0 { NumeralBit(v / 2, n - 1, k - 1); }
  }

  /** The value of a string has the string's bits. */
  lemma {:induction false} ToNatBit(b: Bits, k: nat)
    requires k < |b|
    ensures b[|b| - 1 - k] <==> BitOf(ToNat(b), k)
  {
    NumeralOfToNat(b);
    NumeralBit(ToNat(b), |b|, k);
  }

  /** Bit j of the string that stands for a byte is bit 7 - j of the byte. */
  lemma {:induction false} ByteBit(x: byte, j: nat)
    requires j < 8
    ensures ByteBits(x)[j] <==> BitOf(x as nat, 7 - j)
    ensures ByteBits(x)[j] <==> x as nat / Pow2(7 - j) % 2 == 1
  {
    NumeralBit(x as nat, 8, 7 - j);
    BitOfQuotient(x as nat, 7 - j);
  }

  lemma {:induction false} ToNatConcat(a: Bits, b: Bits)
    ensures ToNat(a + b) == ToNat(a) * Pow2(|b|) + ToNat(b)
    decreases |b|
  {
    if b == [] {
      assert a + b == a;
    } else {
      var n := |b| - 1;
      assert (a + b)[..|a + b| - 1] == a + b[..n];
      ToNatConcat(a, b[..n]);
      Rotate(ToNat(a), 2, Pow2(n));
    }
  }

  lemma {:induction false} ToNatZeros(n: nat)
    ensures ToNat(Zeros(n)) == 0
  {
    if n != 0 {
      assert Zeros(n)[..n - 1] == Zeros(n - 1);
      ToNatZeros(n - 1);
    }
  }

  lemma {:induction false} ToNatOnes(n: nat)
    ensures ToNat(SigBits(n, n)) == Pow2(n) - 1
  {
    if n != 0 {
      assert SigBits(n, n)[..n - 1] == SigBits(n - 1, n - 1);
      ToNatOnes(n - 1);
    }
  }

  /** A word cut in two. */
  lemma {:induction false} CutWord(w: Bits, n: nat)
    requires n <= |w|
    ensures w == w[..|w| - n] + w[|w| - n..]
    ensures ToNat(w[..|w| - n]) == ToNat(w) / Pow2(n) && ToNat(w[|w| - n..]) == ToNat(w) % Pow2(n)
  {
    var a, b := w[..|w| - n], w[|w| - n..];
    assert w == a + b;
    ToNatConcat(a, b);
    ToNatBound(b);
    assert Pow2(n) * ToNat(a) == ToNat(a) * Pow2(n);
    QuotientUnique(ToNat(w), Pow2(n), ToNat(a), ToNat(b));
  }

  /** The low bits are the value modulo a power of two. */
  lemma {:induction false} LowValue(w: Bits, n: nat)
    requires n <= |w|
    ensures ToNat(Low(w, n)) == ToNat(w) % Pow2(n)
  {
    CutWord(w, n);
    assert Low(w, n) == w[|w| - n..];
  }

  lemma {:induction false} ExtendedValue(a: Bits, width: nat)
    requires |a| <= width
    ensures ToNat(ZeroExtend(a, width)) == ToNat(a)
  {
    assert ZeroExtend(a, width) == Zeros(width - |a|) + a;
    ToNatZeros(width - |a|);
    ToNatConcat(Zeros(width - |a|), a);
  }

  /** `>>` divides by a power of two. */
  lemma {:induction false} ShrValue(w: Bits, k: nat)
    requires k <= |w|
    ensures ToNat(Shr(w, k)) == ToNat(w) / Pow2(k)
  {
    var front := w[..|w| - k];
    assert Shr(w, k) == Zeros(k) + front;
    ToNatZeros(k);
    ToNatConcat(Zeros(k), front);
    CutWord(w, k);
  }

  /** `<<` multiplies by one, modulo the size of the word. */
  lemma {:induction false} ShlValue(w: Bits, k: nat)
    requires k <= |w|
    ensures ToNat(Shl(w, k)) == ToNat(w) * Pow2(k) % Pow2(|w|)
  {
    var n := |w| - k;
    var a, b := w[..k], w[k..];
    assert w == a + b && Shl(w, k) == b + Zeros(k);
    ToNatZeros(k);
    ToNatConcat(a, b);
    ToNatConcat(b, Zeros(k));
    ToNatBound(Shl(w, k));
    Pow2Add(n, k);
    assert ToNat(w) * Pow2(k) == Pow2(|w|) * ToNat(a) + ToNat(b) * Pow2(k) by {
      Distribute(ToNat(a) * Pow2(n), ToNat(b), Pow2(k));
      Associate(ToNat(a), Pow2(n), Pow2(k));
      assert ToNat(a) * Pow2(|w|) == Pow2(|w|) * ToNat(a);
    }
    QuotientUnique(Pow2(|w|) * ToNat(a) + ToNat(b) * Pow2(k), Pow2(|w|), ToNat(a), ToNat(b) * Pow2(k)) by {
      NonNegative(Pow2(|w|), ToNat(a));
    }
  }

  /** `1 << k`, and the mask of n ones. */
  lemma {:induction false} MaskValues(k: nat, n: nat, width: nat)
    requires k < width && n <= width
    ensures ToNat(Bit(k, width)) == Pow2(k)
    ensures ToNat(SigBits(n, width)) == Pow2(n) - 1
  {
    var one := Zeros(width - 1 - k) + [true];
    assert Bit(k, width) == one + Zeros(k);
    ToNatZeros(k);
    ToNatZeros(width - 1 - k);
    assert one[..|one| - 1] == Zeros(width - 1 - k);
    ToNatConcat(one, Zeros(k));
    assert SigBits(n, width) == ZeroExtend(SigBits(n, n), width);
    ToNatOnes(n);
    ExtendedValue(SigBits(n, n), width);
  }

  /** The bitwise operators act on each bit of the values, ... */
  lemma {:induction false} BitwiseValues(a: Bits, b: Bits, k: nat)
    requires |a| == |b| && k < |a|
    ensures BitOf(ToNat(Xor(a, b)), k) <==> BitOf(ToNat(a), k) != BitOf(ToNat(b), k)
    ensures BitOf(ToNat(And(a, b)), k) <==> BitOf(ToNat(a), k) && BitOf(ToNat(b), k)
    ensures BitOf(ToNat(Or(a, b)), k) <==> BitOf(ToNat(a), k) || BitOf(ToNat(b), k)
  {
    var i := |a| - 1 - k;
    assert a[i] <==> BitOf(ToNat(a), k) by { ToNatBit(a, k); }
    assert b[i] <==> BitOf(ToNat(b), k) by { ToNatBit(b, k); }
    assert Xor(a, b)[i] <==> BitOf(ToNat(Xor(a, b)), k) by { ToNatBit(Xor(a, b), k); }
    assert And(a, b)[i] <==> BitOf(ToNat(And(a, b)), k) by { ToNatBit(And(a, b), k); }
    assert Or(a, b)[i] <==> BitOf(ToNat(Or(a, b)), k) by { ToNatBit(Or(a, b), k); }
  }

  /** ... and reflection takes bit k from the other end. */
  lemma {:induction false} ReverseValue(a: Bits, k: nat)
    requires k < |a|
    ensures BitOf(ToNat(Reverse(a)), k) <==> BitOf(ToNat(a), |a| - 1 - k)
  {
    assert Reverse(a)[|a| - 1 - k] == a[k];
    assert a[k] <==> BitOf(ToNat(a), |a| - 1 - k) by { ToNatBit(a, |a| - 1 - k); }
    ToNatBit(Reverse(a), k);
  }
}
