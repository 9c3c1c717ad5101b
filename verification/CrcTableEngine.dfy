/** The table-driven engine, the one-call functions, and the agreement of the engines. */
module CrcTableEngine {
  import opened BitStrings
  import opened CrcTheory
  import opened CrcWords
  import opened CrcMessages
  import opened CrcEngines
  import opened PolynomialDivision

  /** `crc_helper<bits, doReflect>::reflect`. */
  method HelperReflect(doReflect: bool, x: Bits, bits: nat) returns (y: Bits)
    requires bits <= |x|
    ensures y == if doReflect then Reflected(Low(x, bits), |x|) else x
  {
    y := x;
    if doReflect { y := Reflect(x, bits); }
  }

  lemma {:induction false} ReflectedBack(r: Bits, width: nat)
    requires |r| <= width
    ensures Reverse(Low(Reflected(r, width), |r|)) == r
  {
    LowExtended(Reverse(r), width);
    ReverseTwice(r);
  }

  /** `crc_optimal<bits, TruncPoly, InitRem, FinalXor, ReflectIn, ReflectRem>`; the table is
      the static one of `crc_table_t<bits, TruncPoly, ReflectIn>`. */
  class CrcOptimal {
    const table: CrcTable
    const bits: nat
    const width: nat
    const finalXor: Bits
    const reflectIn: bool
    const reflectRem: bool
    var rem: Bits

    ghost predicate Valid()
      reads this, table, table.table
    {
      && table.Valid() && table.didInit
      && bits == table.bits && width == table.width && reflectIn == table.reflect
      && |rem| == |finalXor| == width
      && (reflectIn ==> rem == Reflected(Remainder(), width))
    }

    ghost function Poly(): (p: Bits)
      requires table.bits <= |table.truncPoly|
      ensures |p| == table.bits
    {
      table.Poly()
    }

    /** The remainder itself, undoing the reflection it is held in. */
    ghost function Remainder(): (r: Bits)
      requires bits <= |rem|
      reads this
      ensures |r| == bits
    {
      if reflectIn then Reverse(Low(rem, bits)) else Low(rem, bits)
    }

    constructor (table: CrcTable, initRem: Bits, finalXor: Bits, reflectRem: bool)
      requires table.Valid() && |initRem| == |finalXor| == table.width
      modifies table, table.table
      ensures Valid() && this.table == table
      ensures Remainder() == Low(initRem, bits) && this.finalXor == finalXor && this.reflectRem == reflectRem
    {
      var r := HelperReflect(table.reflect, initRem, table.bits);
      this.table, bits, width, reflectIn := table, table.bits, table.width, table.reflect;
      this.finalXor, this.reflectRem := finalXor, reflectRem;
      rem := r;
      new;
      table.InitTable();
      ReflectedBack(Low(initRem, bits), width);
    }

    method Reset(newRem: Bits)
      requires Valid() && |newRem| == width
      modifies `rem
      ensures Valid() && Remainder() == Low(newRem, bits)
    {
      rem := HelperReflect(reflectIn, newRem, bits);
      ReflectedBack(Low(newRem, bits), width);
    }

    method InterimRemainder() returns (r: Bits)
      requires Valid()
      ensures r == ZeroExtend(Remainder(), width)
    {
      r := HelperReflect(reflectIn, rem, bits);
      Masked(r, bits);
      LowExtended(Reverse(Low(rem, bits)), width);
      r := And(r, SigBits(bits, width));
    }

    method ProcessBlock(block: seq<byte>)
      requires Valid()
      modifies `rem
      ensures Valid() && Remainder() == Run(Poly(), old(Remainder()), MessageBits(reflectIn, block))
    {
      ghost var r0 := Remainder();
      for k := 0 to |block|
        invariant Valid() && Remainder() == Run(Poly(), r0, MessageBits(reflectIn, block[..k]))
      {
        RunByte(Poly(), r0, reflectIn, block, k);
        TakeByte(block[k]);
      }
      assert block[..|block|] == block;
    }

    /** The body of the loop over the block. */
    method TakeByte(x: byte)
      requires Valid()
      modifies `rem
      ensures Valid() && Remainder() == Run(Poly(), old(Remainder()), InputBits(reflectIn, x))
    {
      var byteIndex := Index(reflectIn, rem, bits, x);
      EntryWidth(byteIndex);
      var word := ShiftOut(reflectIn, rem);
      word := Xor(word, table.table[byteIndex as int]);
      ByteUpdate(x, byteIndex, word);
      rem := word;
    }

    /** The update of one byte, whichever way the remainder is held. */
    lemma {:induction false} ByteUpdate(x: byte, byteIndex: byte, next: Bits)
      requires Valid() && byteIndex == Index(reflectIn, rem, bits, x)
      requires |table.table[byteIndex as int]| == width && next == Xor(ShiftOut(reflectIn, rem), table.table[byteIndex as int])
      ensures HoldsRemainder(next, Run(Poly(), Remainder(), InputBits(reflectIn, x)))
    {
      assert table.Holds(byteIndex);
      if reflectIn {
        ReflectedUpdate(Poly(), Remainder(), x, width);
        ReflectedBack(Run(Poly(), Remainder(), InputBits(reflectIn, x)), width);
      } else {
        DirectUpdate(Poly(), rem, x, table.table[byteIndex as int]);
      }
    }

    /** The word holds the remainder r the way this engine keeps it. */
    ghost predicate HoldsRemainder(word: Bits, r: Bits)
      requires |r| == bits <= |word| == width
    {
      if reflectIn then word == Reflected(r, width) && Reverse(Low(word, bits)) == r else Low(word, bits) == r
    }

    lemma EntryWidth(slot: byte)
      requires Valid()
      ensures |table.table[slot as int]| == width
    {
      assert table.Holds(slot);
    }

    method ProcessByte(x: byte)
      requires Valid()
      modifies `rem
      ensures Valid() && Remainder() == Run(Poly(), old(Remainder()), InputBits(reflectIn, x))
    {
      OneByte(reflectIn, x);
      ProcessBlock([x]);
    }

    method Checksum() returns (c: Bits)
      requires Valid()
      ensures c == ZeroExtend(ChecksumOf(reflectRem, Remainder(), Low(finalXor, bits)), width)
    {
      var r := HelperReflect(reflectRem != reflectIn, rem, bits);
      ReverseTwice(Low(rem, bits));
      LowExtended(Reverse(Low(rem, bits)), width);
      Masked(Xor(r, finalXor), bits);
      LowXor(r, finalXor, bits);
      c := And(Xor(r, finalXor), SigBits(bits, width));
    }
  }

  /** `crc<...>(buffer, byte_count)`. */
  method Crc(table: CrcTable, initRem: Bits, finalXor: Bits, reflectRem: bool, buffer: seq<byte>) returns (c: Bits)
    requires table.Valid() && |initRem| == |finalXor| == table.width
    modifies table, table.table
    ensures c == ZeroExtend(ChecksumOf(reflectRem,
      Run(table.Poly(), Low(initRem, table.bits), MessageBits(table.reflect, buffer)), Low(finalXor, table.bits)), table.width)
  {
    var computer := new CrcOptimal(table, initRem, finalXor, reflectRem);
    computer.ProcessBlock(buffer);
    c := computer.Checksum();
  }

  /** The bitwise and the table-driven engine, run side by side with words of different
      widths: same checksum and same interim remainder, for all parameters and messages. */
  method BothEngines(bits: nat, poly: Bits, init: Bits, final: Bits, poly': Bits, init': Bits, final': Bits,
                     reflectIn: bool, reflectRem: bool, first: seq<byte>, second: seq<byte>)
    returns (slow: Bits, fast: Bits, slowInterim: Bits, fastInterim: Bits)
    requires 1 <= bits <= |poly| == |init| == |final|
    requires bits <= |poly'| == |init'| == |final'| && 8 <= |poly'|
    requires Low(poly, bits) == Low(poly', bits) && Low(init, bits) == Low(init', bits) && Low(final, bits) == Low(final', bits)
    ensures |slow| == |poly| && |fast| == |poly'| && |slowInterim| == |poly| && |fastInterim| == |poly'|
    ensures Low(slow, bits) == Low(fast, bits) && Low(slowInterim, bits) == Low(fastInterim, bits)
    ensures Low(fast, bits) == ChecksumOf(reflectRem,
      Run(Low(poly, bits), Low(init, bits), MessageBits(reflectIn, first + second)), Low(final, bits))
  {
    var basic := new CrcBasic(bits, poly, init, final, reflectIn, reflectRem);
    slow, slowInterim := RunBasic(basic, first, second);
    var table := new CrcTable(bits, poly', reflectIn);
    var optimal := new CrcOptimal(table, init', final', reflectRem);
    fast, fastInterim := RunOptimal(optimal, first, second);
  }

  /** Two blocks, one after the other, through an engine; its results' low bits. */
  method RunBasic(engine: CrcBasic, first: seq<byte>, second: seq<byte>) returns (sum: Bits, interim: Bits)
    requires engine.Valid()
    modifies engine`rem
    ensures engine.Valid() && |sum| == |interim| == engine.width
    ensures var r := Run(engine.Poly(), old(engine.Remainder()), MessageBits(engine.reflectIn, first + second));
      && Low(sum, engine.bits) == ChecksumOf(engine.reflectOut, r, Low(engine.final, engine.bits))
      && Low(interim, engine.bits) == r
  {
    RunAppended(engine.Poly(), engine.Remainder(), engine.reflectIn, first, second);
    engine.ProcessBlock(first);
    engine.ProcessBlock(second);
    sum := engine.Checksum();
    interim := engine.InterimRemainder();
    ghost var r := engine.Remainder();
    LowOfResults(r, ChecksumOf(engine.reflectOut, r, Low(engine.final, engine.bits)), engine.width);
  }

  method RunOptimal(engine: CrcOptimal, first: seq<byte>, second: seq<byte>) returns (sum: Bits, interim: Bits)
    requires engine.Valid()
    modifies engine`rem
    ensures engine.Valid() && |sum| == |interim| == engine.width
    ensures var r := Run(engine.Poly(), old(engine.Remainder()), MessageBits(engine.reflectIn, first + second));
      && Low(sum, engine.bits) == ChecksumOf(engine.reflectRem, r, Low(engine.finalXor, engine.bits))
      && Low(interim, engine.bits) == r
  {
    RunAppended(engine.Poly(), engine.Remainder(), engine.reflectIn, first, second);
    engine.ProcessBlock(first);
    engine.ProcessBlock(second);
    sum := engine.Checksum();
    interim := engine.InterimRemainder();
    ghost var r := engine.Remainder();
    LowOfResults(r, ChecksumOf(engine.reflectRem, r, Low(engine.finalXor, engine.bits)), engine.width);
  }

  lemma {:induction false} RunAppended(p: Bits, r: Bits, reflectIn: bool, first: seq<byte>, second: seq<byte>)
    requires |p| == |r| > 0
    ensures Run(p, Run(p, r, MessageBits(reflectIn, first)), MessageBits(reflectIn, second))
         == Run(p, r, MessageBits(reflectIn, first + second))
  {
    MessageBitsConcat(reflectIn, first, second);
    RunConcat(p, r, MessageBits(reflectIn, first), MessageBits(reflectIn, second));
  }

  lemma LowOfResults(r: Bits, c: Bits, width: nat)
    requires |r| == |c| <= width
    ensures Low(ZeroExtend(r, width), |r|) == r && Low(ZeroExtend(c, width), |r|) == c
  {
    LowExtended(r, width);
    LowExtended(c, width);
  }

  /** `augmented_crc<bits, TruncPoly>(buffer, byte_count, initial_remainder)`. */
  method AugmentedCrc(table: CrcTable, buffer: seq<byte>, initialRemainder: Bits) returns (c: Bits)
    requires table.Valid() && !table.reflect && table.bits >= 8 && |initialRemainder| == table.width
    modifies table, table.table
    ensures c == ZeroExtend(AugRun(table.Poly(), Low(initialRemainder, table.bits), MessageBits(false, buffer)), table.width)
    ensures exists q :: IsDivision(table.Poly(), Low(initialRemainder, table.bits) + MessageBits(false, buffer), q,
                                   Low(c, table.bits))
  {
    var bits, width := table.bits, table.width;
    var rem := initialRemainder;
    ghost var p, r0 := table.Poly(), Low(initialRemainder, bits);
    table.InitTable();
    for k := 0 to |buffer|
      invariant table.Valid() && table.didInit && |rem| == width
      invariant Low(rem, bits) == AugRun(p, r0, MessageBits(false, buffer[..k]))
    {
      AugAppend(p, r0, buffer, k);
      rem := AugmentByte(table, rem, buffer[k]);
    }
    assert buffer[..|buffer|] == buffer;
    Masked(rem, bits);
    c := And(rem, SigBits(bits, width));
    LowExtended(Low(rem, bits), width);
    ghost var q := AugRunIsRemainder(p, r0, MessageBits(false, buffer));
  }

  /** The body of its loop. */
  method AugmentByte(table: CrcTable, rem0: Bits, x: byte) returns (rem: Bits)
    requires table.Valid() && table.didInit && !table.reflect && table.bits >= 8 && |rem0| == table.width
    ensures |rem| == table.width
    ensures Low(rem, table.bits) == AugRun(table.Poly(), Low(rem0, table.bits), ByteBits(x))
  {
    rem := rem0;
    var byteIndex := BitsByte(Low(Shr(rem, table.bits - 8), 8));
    table.DirectEntry(byteIndex);
    ghost var next := AugNext(rem0, ByteBits(x), table.table[byteIndex as int]);
    AugUpdate(table.Poly(), rem0, x, byteIndex, table.table[byteIndex as int]);
    rem := Shl(rem, 8);
    rem := Or(rem, ZeroExtend(ByteBits(x), table.width));
    rem := Xor(rem, table.table[byteIndex as int]);
    assert rem == next;
  }

  /** The word the loop body leaves. */
  function AugNext(rem: Bits, x: Bits, entry: Bits): (w: Bits)
    requires |x| <= |rem| == |entry|
    ensures |w| == |rem|
  {
    Xor(Or(Shl(rem, 8), ZeroExtend(x, |rem|)), entry)
  }

  lemma {:induction false} AugAppend(p: Bits, r: Bits, buffer: seq<byte>, k: nat)
    requires |p| == |r| > 0 && k < |buffer|
    ensures AugRun(p, r, MessageBits(false, buffer[..k + 1]))
         == AugRun(p, AugRun(p, r, MessageBits(false, buffer[..k])), ByteBits(buffer[k]))
  {
    assert buffer[..k + 1] == buffer[..k] + [buffer[k]];
    MessageBitsSnoc(false, buffer[..k], buffer[k]);
    AugConcat(p, r, MessageBits(false, buffer[..k]), ByteBits(buffer[k]));
  }

  lemma {:induction false} AugUpdate(p: Bits, rem: Bits, x: byte, slot: byte, entry: Bits)
    requires 8 <= |p| <= |rem| == |entry|
    requires slot == BitsByte(Low(Shr(rem, |p| - 8), 8))
    requires Low(entry, |p|) == Entry(p, ByteBits(slot))
    ensures Low(AugNext(rem, ByteBits(x), entry), |p|)
         == AugRun(p, Low(rem, |p|), ByteBits(x))
  {
    assert ByteBits(slot) == Low(rem, |p|)[..8] by {
      BitsRoundTrip(Low(Shr(rem, |p| - 8), 8));
      TopByte(rem, |p|);
    }
    var shifted := Or(Shl(rem, 8), ZeroExtend(ByteBits(x), |rem|));
    assert Low(shifted, |p|) == Low(rem, |p|)[8..] + ByteBits(x) by { ByteOrred(rem, ByteBits(x), |p|); }
    AugCombine(p, Low(rem, |p|), ByteBits(x), shifted, entry);
  }

  lemma {:induction false} AugCombine(p: Bits, r: Bits, x: Bits, shifted: Bits, entry: Bits)
    requires 8 == |x| <= |p| == |r| <= |shifted| == |entry|
    requires Low(shifted, |p|) == r[8..] + x && Low(entry, |p|) == Entry(p, r[..8])
    ensures Low(Xor(shifted, entry), |p|) == AugRun(p, r, x)
  {
    LowXor(shifted, entry, |p|);
    AugByteStep(p, r, x);
  }

  lemma TopByte(rem: Bits, n: nat)
    requires 8 <= n <= |rem|
    ensures Low(Shr(rem, n - 8), 8) == Low(rem, n)[..8]
  {}

  lemma ByteOrred(rem: Bits, x: Bits, n: nat)
    requires |x| == 8 <= n <= |rem|
    ensures Low(Or(Shl(rem, 8), ZeroExtend(x, |rem|)), n) == Low(rem, n)[8..] + x
  {}

  /** With a zero initial remainder, augmenting by zero bytes gives the plain unreflected
      CRC, and augmenting by the checksum most significant byte first gives zero. */
  lemma {:induction false} AugmentedBytes(p: Bits, m: seq<byte>, c: Bits)
    requires |p| == |c| > 0 && |p| % 8 == 0
    ensures AugRun(p, Zeros(|p|), MessageBits(false, m + BigEndian(Zeros(|p|)))) == Run(p, Zeros(|p|), MessageBits(false, m))
    ensures AugRun(p, Zeros(|p|), MessageBits(false, m + BigEndian(c))) == Zeros(|p|)
      <==> c == Run(p, Zeros(|p|), MessageBits(false, m))
  {
    var z := Zeros(|p|);
    BigEndianBits(c);
    BigEndianBits(z);
    MessageBitsConcat(false, m, BigEndian(c));
    MessageBitsConcat(false, m, BigEndian(z));
    AugmentedByChecksum(p, MessageBits(false, m), c);
  }
}
