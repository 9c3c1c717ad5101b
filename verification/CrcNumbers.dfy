/** Messages and remainders of the cyclic redundancy code as numbers. */
module CrcNumbers {
  import opened IntegerMath
  import opened BitStrings
  import opened BitNumbers
  import opened CrcTheory
  import opened CrcMessages

  /** A division step on the values: bit k of the remainder comes from bit k - 1, and bit k
      of the polynomial is added if the top bit differs from the message bit. */
  lemma {:induction false} StepBit(p: Bits, r: Bits, b: bool, k: nat)
    requires |p| == |r| && k < |p|
    ensures BitOf(ToNat(Step(p, r, b)), k) <==>
      (k > 0 && BitOf(ToNat(r), k - 1)) != (BitOf(ToNat(r), |r| - 1) != b && BitOf(ToNat(p), k))
  {
    StepAt(p, r, b, k);
    SameOnValues(Step(p, r, b), p, r, b, k);
  }

  lemma {:induction false} SameOnValues(s: Bits, p: Bits, r: Bits, b: bool, k: nat)
    requires |s| == |p| == |r| && k < |p|
    requires var i := |p| - 1 - k; s[i] == ((k > 0 && r[i + 1]) != (r[0] != b && p[i]))
    ensures BitOf(ToNat(s), k) <==>
      (k > 0 && BitOf(ToNat(r), k - 1)) != (BitOf(ToNat(r), |r| - 1) != b && BitOf(ToNat(p), k))
  {
    ToNatBit(s, k);
    ToNatBit(p, k);
    ToNatBit(r, |r| - 1);
    if k > 0 { BitBelow(r, k); }
  }

  lemma {:induction false} BitBelow(r: Bits, k: nat)
    requires 0 < k < |r|
    ensures r[|r| - 1 - k + 1] <==> BitOf(ToNat(r), k - 1)
  {
    ToNatBit(r, k - 1);
  }

  lemma {:induction false} StepAt(p: Bits, r: Bits, b: bool, k: nat)
    requires |p| == |r| && k < |p|
    ensures var i := |p| - 1 - k; Step(p, r, b)[i] == ((k > 0 && r[i + 1]) != (r[0] != b && p[i]))
  {
    assert Shl(r, 1)[|p| - 1 - k] == (k > 0 && r[|p| - 1 - k + 1]);
  }

  lemma {:induction false} InputBit(reflectIn: bool, x: byte, j: nat)
    requires j < 8
    ensures InputBits(reflectIn, x)[j] <==> BitOf(x as nat, if reflectIn then j else 7 - j)
  {
    ByteBit(x, if reflectIn then 7 - j else j);
  }

  /** Bytes go in order, each from its highest bit down, or from its lowest up if reflected. */
  lemma {:induction false} MessageBit(reflectIn: bool, m: seq<byte>, i: nat, j: nat)
    requires i < |m| && j < 8
    ensures MessageBits(reflectIn, m)[8 * i + j] <==> BitOf(m[i] as nat, if reflectIn then j else 7 - j)
  {
    var before, x, after := m[..i], [m[i]], m[i + 1..];
    assert m == before + (x + after);
    MessageBitsConcat(reflectIn, before, x + after);
    MessageBitsConcat(reflectIn, x, after);
    OneByte(reflectIn, m[i]);
    InMiddle(MessageBits(reflectIn, before), InputBits(reflectIn, m[i]), MessageBits(reflectIn, after), j);
    InputBit(reflectIn, m[i], j);
  }

  lemma InMiddle(a: Bits, b: Bits, c: Bits, j: nat)
    requires j < |b|
    ensures (a + (b + c))[|a| + j] == b[j]
  {}

  // ---- The smallest messages --------------------------------------------

  /** The byte whose last bit in processing order alone is set. */
  function LastOne(reflectIn: bool): byte { if reflectIn then 128 else 1 }

  lemma {:induction false} LastOneBits(reflectIn: bool)
    ensures InputBits(reflectIn, LastOne(reflectIn)) == Zeros(7) + [true]
  {
    var b := InputBits(reflectIn, LastOne(reflectIn));
    forall j | 0 <= j < 8 ensures b[j] == (Zeros(7) + [true])[j] { LastOneBit(reflectIn, j); }
  }

  lemma {:induction false} LastOneBit(reflectIn: bool, j: nat)
    requires j < 8
    ensures InputBits(reflectIn, LastOne(reflectIn))[j] <==> j == 7
  {
    InputBit(reflectIn, LastOne(reflectIn), j);
    if reflectIn { BitOfPower(7, j); } else { BitOfPower(0, 7 - j); }
  }

  lemma {:induction false} BitOfPower(k: nat, j: nat)
    ensures BitOf(Pow2(k), j) <==> j == k
  {
    if j == 0 {
    } else if k == 0 {
      BitOfZero(j - 1);
    } else {
      BitOfPower(k - 1, j - 1);
    }
  }

  lemma {:induction false} BitOfZero(j: nat)
    ensures !BitOf(0, j)
  {
    if j > 0 { BitOfZero(j - 1); }
  }

  /** From a zero remainder, no message gives the final xor value, and the byte whose last
      processed bit alone is set gives the polynomial, reflected if asked, xor that value. */
  lemma {:induction false} SmallestChecksums(p: Bits, final: Bits, reflectIn: bool, reflectRem: bool)
    requires |p| == |final| > 0
    ensures var z := Zeros(|p|);
      && ChecksumOf(reflectRem, Run(p, z, MessageBits(reflectIn, [])), final) == final
      && ChecksumOf(reflectRem, Run(p, z, MessageBits(reflectIn, [LastOne(reflectIn)])), final)
           == Xor(if reflectRem then Reverse(p) else p, final)
  {
    ReverseZeros(|p|);
    XorZero(final);
    LastOneRun(p, reflectIn);
  }

  lemma {:induction false} LastOneRun(p: Bits, reflectIn: bool)
    requires |p| > 0
    ensures Run(p, Zeros(|p|), MessageBits(reflectIn, [LastOne(reflectIn)])) == p
  {
    var z := Zeros(|p|);
    OneByte(reflectIn, LastOne(reflectIn));
    LastOneBits(reflectIn);
    RunConcat(p, z, Zeros(7), [true]);
    RunZeros(p, 7);
    assert [true][1..] == [];
    OneStep(p);
  }

  lemma OneStep(p: Bits)
    requires |p| > 0
    ensures Step(p, Zeros(|p|), true) == p
  {}
}
