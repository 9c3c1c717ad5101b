/** The bitwise engine of `crc.hpp` and the table of the other one. Remainders live in the
    low `bits` bits of words `width` bits wide. */
module CrcEngines {
  import opened BitStrings
  import opened CrcTheory
  import opened CrcWords
  import opened CrcMessages

  /** The reflection after the i lowest bits of x have been placed. */
  function PartReflected(x: Bits, bits: nat, i: nat): (r: Bits)
    requires i <= bits <= |x|
    ensures |r| == |x|
  {
    var top := |x| - bits;
    seq(|x|, j => top <= j < top + i && x[|x| - 1 - (j - top)])
  }

  lemma NothingPlaced(x: Bits, bits: nat)
    requires bits <= |x|
    ensures Zeros(|x|) == PartReflected(x, bits, 0)
    ensures x == Shr(x, 0)
  {}

  lemma {:induction false} PlaceBit(x: Bits, bits: nat, i: nat)
    requires i < bits <= |x|
    ensures PartReflected(x, bits, i + 1)
         == if x[|x| - 1 - i] then Or(PartReflected(x, bits, i), Bit(bits - 1 - i, |x|)) else PartReflected(x, bits, i)
  {
    var top := |x| - bits;
    var before, after := PartReflected(x, bits, i), PartReflected(x, bits, i + 1);
    forall j | 0 <= j < |x|
      ensures after[j] == (before[j] || (x[|x| - 1 - i] && Bit(bits - 1 - i, |x|)[j]))
    {
      assert after[j] == (top <= j < top + i + 1 && x[|x| - 1 - (j - top)]);
    }
  }

  lemma ShiftDown(x: Bits, i: nat)
    requires i < |x|
    ensures Shr(x, i)[|x| - 1] == x[|x| - 1 - i]
    ensures Shr(Shr(x, i), 1) == Shr(x, i + 1)
  {}

  lemma AllPlaced(x: Bits, bits: nat)
    requires bits <= |x|
    ensures PartReflected(x, bits, bits) == Reflected(Low(x, bits), |x|)
  {
    var top, low := |x| - bits, Low(x, bits);
    var back := Reverse(low);
    forall j | 0 <= j < |x| ensures PartReflected(x, bits, bits)[j] == ZeroExtend(back, |x|)[j] {
      if j >= top {
        var k := j - top;
        assert back[k] == low[bits - 1 - k] == x[|x| - 1 - k];
      }
    }
  }

  /** `reflector<bits>::reflect`. */
  method Reflect(x: Bits, bits: nat) returns (reflection: Bits)
    requires bits <= |x|
    ensures reflection == Reflected(Low(x, bits), |x|)
  {
    reflection := Zeros(|x|);
    var y := x;
    NothingPlaced(x, bits);
    for i := 0 to bits
      invariant reflection == PartReflected(x, bits, i)
      invariant y == Shr(x, i)
    {
      PlaceBit(x, bits, i);
      ShiftDown(x, i);
      if y[|x| - 1] {
        reflection := Or(reflection, Bit(bits - 1 - i, |x|));
      }
      y := Shr(y, 1);
    }
    AllPlaced(x, bits);
  }

  method ReflectByte(x: byte) returns (r: byte)
    ensures ByteBits(r) == Reverse(ByteBits(x))
  {
    var b := Reflect(ByteBits(x), 8);
    assert b == Reverse(ByteBits(x));
    BitsRoundTrip(b);
    r := BitsByte(b);
  }

  // ---- crc_basic --------------------------------------------------------

  class CrcBasic {
    const bits: nat
    const width: nat
    var rem: Bits
    var poly: Bits
    var init: Bits
    var final: Bits
    var reflectIn: bool
    var reflectOut: bool

    ghost predicate Valid()
      reads this
    {
      1 <= bits <= width && |rem| == |poly| == |init| == |final| == width
    }

    ghost function Poly(): (p: Bits)
      requires Valid()
      reads this
      ensures |p| == bits
    {
      Low(poly, bits)
    }

    ghost function Remainder(): (r: Bits)
      requires Valid()
      reads this
      ensures |r| == bits
    {
      Low(rem, bits)
    }

    constructor (bits: nat, truncatedPolynomial: Bits, initialRemainder: Bits, finalXor: Bits,
                 reflectInput: bool, reflectRemainder: bool)
      requires 1 <= bits <= |truncatedPolynomial| == |initialRemainder| == |finalXor|
      ensures Valid() && this.bits == bits && width == |truncatedPolynomial|
      ensures rem == init == initialRemainder && poly == truncatedPolynomial && final == finalXor
      ensures reflectIn == reflectInput && reflectOut == reflectRemainder
    {
      this.bits, width := bits, |truncatedPolynomial|;
      rem, poly, init, final := initialRemainder, truncatedPolynomial, initialRemainder, finalXor;
      reflectIn, reflectOut := reflectInput, reflectRemainder;
    }

    method ResetTo(newRem: Bits)
      requires Valid() && |newRem| == width
      modifies `rem
      ensures Valid() && rem == newRem
    {
      rem := newRem;
    }

    method Reset()
      requires Valid()
      modifies `rem
      ensures Valid() && rem == init
    {
      ResetTo(init);
    }

    method ProcessBit(bit: bool)
      requires Valid()
      modifies `rem
      ensures Valid() && Remainder() == Step(Poly(), old(Remainder()), bit)
    {
      var highBitMask := Bit(bits - 1, width);
      ghost var rem0 := rem;
      rem := Xor(rem, if bit then highBitMask else Zeros(width));
      assert rem == Compare(rem0, bits, bit) by { XorZero(rem0); }
      var doPolyDiv := AnySet(And(rem, highBitMask));
      rem := Shl(rem, 1);
      if doPolyDiv {
        rem := Xor(rem, poly);
      }
      assert rem == WordStep(rem0, poly, bits, bit);
      WordStepIsStep(rem0, poly, bits, bit);
    }

    /** The low `bitCount` bits of a byte, most significant first. */
    method ProcessBits(bits8: byte, bitCount: nat)
      requires Valid() && bitCount <= 8
      modifies `rem
      ensures Valid() && Remainder() == Run(Poly(), old(Remainder()), ByteBits(bits8)[8 - bitCount..])
    {
      ghost var x, first, r0 := ByteBits(bits8), 8 - bitCount, Remainder();
      var b := Shl(ByteBits(bits8), 8 - bitCount);
      var highBitMask := Bit(7, 8);
      var i := bitCount;
      ghost var k := first;
      assert x[first..k] == [];
      while i > 0
        invariant 0 <= i <= bitCount && k == 8 - i && Valid()
        invariant b == Shl(x, k)
        invariant Remainder() == Run(Poly(), r0, x[first..k])
      {
        TopBitOut(x, k);
        RunSnoc(Poly(), r0, x, first, k);
        ProcessBit(AnySet(And(b, highBitMask)));
        i, b, k := i - 1, Shl(b, 1), k + 1;
      }
      assert x[first..k] == x[first..];
    }

    method ProcessByte(x: byte)
      requires Valid()
      modifies `rem
      ensures Valid() && Remainder() == Run(Poly(), old(Remainder()), InputBits(reflectIn, x))
    {
      var y := x;
      if reflectIn { y := ReflectByte(x); }
      ProcessBits(y, 8);
    }

    method ProcessBlock(block: seq<byte>)
      requires Valid()
      modifies `rem
      ensures Valid() && Remainder() == Run(Poly(), old(Remainder()), MessageBits(reflectIn, block))
    {
      ghost var r0 := Remainder();
      for k := 0 to |block|
        invariant Valid() && Remainder() == Run(Poly(), r0, MessageBits(reflectIn, block[..k]))
      {
        RunByte(Poly(), r0, reflectIn, block, k);
        ProcessByte(block[k]);
      }
      assert block[..|block|] == block;
    }

    method InterimRemainder() returns (r: Bits)
      requires Valid()
      ensures r == ZeroExtend(Remainder(), width)
    {
      Masked(rem, bits);
      r := And(rem, SigBits(bits, width));
    }

    method Checksum() returns (c: Bits)
      requires Valid()
      ensures c == ZeroExtend(ChecksumOf(reflectOut, Remainder(), Low(final, bits)), width)
    {
      var r := rem;
      if reflectOut { r := Reflect(rem, bits); LowExtended(Reverse(Remainder()), width); }
      Masked(Xor(r, final), bits);
      LowXor(r, final, bits);
      c := And(Xor(r, final), SigBits(bits, width));
    }
  }

  lemma {:induction false} TopBitOut(x: Bits, k: nat)
    requires |x| == 8 && k < 8
    ensures AnySet(And(Shl(x, k), Bit(7, 8))) <==> x[k]
    ensures Shl(Shl(x, k), 1) == Shl(x, k + 1)
  {
    TestBit(Shl(x, k), 7);
  }

  lemma {:induction false} RunSnoc(p: Bits, r: Bits, m: Bits, i: nat, k: nat)
    requires |p| == |r| > 0 && i <= k < |m|
    ensures Run(p, r, m[i..k + 1]) == Step(p, Run(p, r, m[i..k]), m[k])
  {
    assert m[i..k + 1] == m[i..k] + [m[k]];
    RunConcat(p, r, m[i..k], [m[k]]);
    assert [m[k]][1..] == [];
  }

  lemma {:induction false} RunByte(p: Bits, r: Bits, reflectIn: bool, block: seq<byte>, k: nat)
    requires |p| == |r| > 0 && k < |block|
    ensures Run(p, r, MessageBits(reflectIn, block[..k + 1]))
         == Run(p, Run(p, r, MessageBits(reflectIn, block[..k])), InputBits(reflectIn, block[k]))
  {
    assert block[..k + 1] == block[..k] + [block[k]];
    MessageBitsSnoc(reflectIn, block[..k], block[k]);
    RunConcat(p, r, MessageBits(reflectIn, block[..k]), InputBits(reflectIn, block[k]));
  }

  // ---- The table --------------------------------------------------------

  /** Where the entry of a dividend goes. */
  function Slot(reflect: bool, dividend: byte): (s: byte)
    ensures ByteBits(s) == InputBits(reflect, dividend)
  {
    if reflect then BitsRoundTrip(Reverse(ByteBits(dividend))); BitsByte(Reverse(ByteBits(dividend))) else dividend
  }

  lemma {:induction false} SlotTwice(reflect: bool, x: byte)
    ensures Slot(reflect, Slot(reflect, x)) == x
  {
    ReverseTwice(ByteBits(x));
    ByteRoundTrip(x);
  }

  lemma {:induction false} OnlySlot(reflect: bool, x: byte)
    ensures forall s: byte :: Slot(reflect, s) == x ==> s == Slot(reflect, x)
  {
    forall s: byte | Slot(reflect, s) == x ensures s == Slot(reflect, x) { SlotTwice(reflect, s); }
  }

  /** A word that stands for the remainder e in a direct or a reflected table. */
  ghost predicate Stores(reflect: bool, bits: nat, width: nat, word: Bits, e: Bits)
    requires |e| == bits <= width
  {
    |word| == width && if reflect then word == Reflected(e, width) else Low(word, bits) == e
  }

  lemma StoredLow(reflect: bool, bits: nat, width: nat, word: Bits, e: Bits)
    requires |e| == bits <= width && Stores(reflect, bits, width, word, e)
    ensures Low(word, bits) == if reflect then Reverse(e) else e
  {
    LowExtended(Reverse(e), width);
  }

  class CrcTable {
    const bits: nat
    const width: nat
    const truncPoly: Bits
    const reflect: bool
    const table: array<Bits>
    var didInit: bool

    ghost predicate Valid()
      reads this, table
    {
      && 1 <= bits <= width && 8 <= width && |truncPoly| == width && table.Length == 256
      && (didInit ==> Complete())
    }

    ghost function Poly(): (p: Bits)
      requires bits <= |truncPoly|
      ensures |p| == bits
    {
      Low(truncPoly, bits)
    }

    /** The entry holds the division of the byte it stands for. */
    ghost predicate Holds(slot: byte)
      requires 1 <= bits <= width == |truncPoly| && table.Length == 256
      reads table
    {
      Stores(reflect, bits, width, table[slot as int], Entry(Poly(), InputBits(reflect, slot)))
    }

    /** The entries of the dividends below n are in place. */
    ghost predicate Filled(n: int)
      requires 1 <= bits <= width == |truncPoly| && table.Length == 256
      reads table
    {
      forall slot: byte :: Slot(reflect, slot) as int < n ==> Holds(slot)
    }

    ghost predicate Complete()
      requires 1 <= bits <= width == |truncPoly| && table.Length == 256
      reads table
    {
      forall slot: byte :: Holds(slot)
    }

    constructor (bits: nat, truncPoly: Bits, reflect: bool)
      requires 1 <= bits <= |truncPoly| && 8 <= |truncPoly|
      ensures Valid() && !didInit && fresh(table)
      ensures this.bits == bits && width == |truncPoly| && this.truncPoly == truncPoly && this.reflect == reflect
    {
      this.bits, width, this.truncPoly, this.reflect := bits, |truncPoly|, truncPoly, reflect;
      table := new Bits[256](_ => Zeros(|truncPoly|));
      didInit := false;
    }

    lemma DirectEntry(slot: byte)
      requires Valid() && didInit && !reflect
      ensures |table[slot as int]| == width && Low(table[slot as int], bits) == Entry(Poly(), ByteBits(slot))
    {
      assert Holds(slot);
    }

    /** The completed table is linear in its index, in either form. */
    lemma {:induction false} TableLinear(x: byte, y: byte)
      requires Valid() && didInit
      ensures |table[x as int]| == |table[y as int]| == width
      ensures var xy := BitsByte(Xor(ByteBits(x), ByteBits(y)));
        |table[xy as int]| == width
        && Low(table[xy as int], bits) == Xor(Low(table[x as int], bits), Low(table[y as int], bits))
    {
      var xy := BitsByte(Xor(ByteBits(x), ByteBits(y)));
      BitsRoundTrip(Xor(ByteBits(x), ByteBits(y)));
      ReverseXor(ByteBits(x), ByteBits(y));
      EntryLinear(Poly(), InputBits(reflect, x), InputBits(reflect, y));
      assert Holds(x) && Holds(y) && Holds(xy);
      StoredLow(reflect, bits, width, table[x as int], Entry(Poly(), InputBits(reflect, x)));
      StoredLow(reflect, bits, width, table[y as int], Entry(Poly(), InputBits(reflect, y)));
      StoredLow(reflect, bits, width, table[xy as int], Entry(Poly(), InputBits(reflect, xy)));
      ReverseXor(Entry(Poly(), InputBits(reflect, x)), Entry(Poly(), InputBits(reflect, y)));
    }

    method InitTable()
      requires Valid()
      modifies this, table
      ensures Valid() && didInit && Complete()
      ensures old(didInit) ==> table[..] == old(table[..])
    {
      if didInit { return; }
      var dividend: byte := 0;
      ghost var done := 0;
      while true
        invariant done == dividend as int && Filled(done)
        decreases 256 - done
      {
        Enter(dividend);
        done := done + 1;
        dividend := if dividend == 255 then 0 else dividend + 1;
        if dividend == 0 { break; }
      }
      AllFilled();
      didInit := true;
    }

    lemma AllFilled()
      requires 1 <= bits <= width == |truncPoly| && table.Length == 256
      ensures Filled(256) ==> Complete()
    {}

    /** The body of the outer loop: divide one byte and store the result. */
    method Enter(dividend: byte)
      requires 1 <= bits <= width == |truncPoly| && table.Length == 256
      requires Filled(dividend as int)
      modifies table
      ensures Filled(dividend as int + 1)
    {
      var remainder := Divide(dividend);
      var slot := dividend;
      if reflect {
        slot := ReflectByte(dividend);
        remainder := Reflect(remainder, bits);
      }
      SameSlot(reflect, dividend, slot);
      OnlySlot(reflect, dividend);
      Store(slot, remainder, dividend);
    }

    method Store(slot: byte, remainder: Bits, ghost dividend: byte)
      requires 1 <= bits <= width == |truncPoly| && table.Length == 256
      requires Filled(dividend as int)
      requires Stores(reflect, bits, width, remainder, Entry(Poly(), InputBits(reflect, slot)))
      requires forall s: byte :: Slot(reflect, s) == dividend ==> s == slot
      modifies table
      ensures Filled(dividend as int + 1)
    {
      table[slot as int] := remainder;
    }

    /** The inner loop: divide one byte, its bits taken by a mask moving down. */
    method Divide(dividend: byte) returns (remainder: Bits)
      requires 1 <= bits <= width == |truncPoly|
      ensures |remainder| == width && Low(remainder, bits) == Entry(Poly(), ByteBits(dividend))
    {
      var fastHiBit := Bit(bits - 1, width);
      remainder := Zeros(width);
      LowZeros(bits, width);
      ghost var d := ByteBits(dividend);
      ghost var k := 0;
      assert d[0..0] == [];
      var mask := Bit(7, 8);
      while AnySet(mask)
        invariant 0 <= k <= 8 && mask == Shr(Bit(7, 8), k)
        invariant |remainder| == width && Low(remainder, bits) == Run(Poly(), Zeros(bits), d[0..k])
        decreases 8 - k
      {
        MaskSelects(d, k);
        RunSnoc(Poly(), Zeros(bits), d, 0, k);
        WordStepIsStep(remainder, truncPoly, bits, d[k]);
        if AnySet(And(ByteBits(dividend), mask)) {
          remainder := Xor(remainder, fastHiBit);
        }
        if AnySet(And(remainder, fastHiBit)) {
          remainder := Shl(remainder, 1);
          remainder := Xor(remainder, truncPoly);
        } else {
          remainder := Shl(remainder, 1);
        }
        mask, k := Shr(mask, 1), k + 1;
      }
      MaskSpent(k);
      assert d[0..8] == d;
    }
  }

  lemma {:induction false} SameSlot(reflect: bool, x: byte, slot: byte)
    requires ByteBits(slot) == InputBits(reflect, x)
    ensures slot == Slot(reflect, x)
    ensures InputBits(reflect, slot) == ByteBits(x)
  {
    ByteRoundTrip(slot);
    ByteRoundTrip(Slot(reflect, x));
    ReverseTwice(ByteBits(x));
  }

  /** The mask has its one bit at k until it is shifted out. */
  lemma {:induction false} MaskSpent(k: nat)
    ensures k <= 8 ==> (AnySet(Shr(Bit(7, 8), k)) <==> k < 8)
  {
    var mask := Shr(Bit(7, 8), k);
    if k < 8 { assert mask[k]; }
  }

  lemma {:induction false} MaskSelects(d: Bits, k: nat)
    requires |d| == 8 && k <= 8 && AnySet(Shr(Bit(7, 8), k))
    ensures k < 8 && (AnySet(And(d, Shr(Bit(7, 8), k))) <==> d[k])
    ensures Shr(Shr(Bit(7, 8), k), 1) == Shr(Bit(7, 8), k + 1)
  {
    MaskSpent(k);
    assert Shr(Bit(7, 8), k) == Bit(7 - k, 8);
    TestBit(d, 7 - k);
  }
}
