/** Bit streams packed into bytes: what the writer appends and what the reader takes, as sequences of bits. */
module MemoryStreams {
  import opened MachineWords
  import opened BitSequences

  // ---------- what is written ----------

  function BitWritten(data: seq<Byte>, length: nat, value: bool): seq<Byte>
    requires length <= 8 * |data| < length + 8
  {
    var more := if length % 8 == 0 then data + [0] else data;
    if value then more[length / 8 := OrByte(more[length / 8], Mask(7 - length % 8))] else more
  }

  lemma BitIsAppended(data: seq<Byte>, bits: seq<bool>, value: bool)
    requires Shows(data, bits)
    ensures Shows(BitWritten(data, |bits|, value), bits + [value])
  {
    var length := |bits|;
    var more := if length % 8 == 0 then data + [0] else data;
    var written := BitWritten(data, length, value);
    forall i | 0 <= i < 8 * |more| ensures BitAt(written, i) == (i < length + 1 && (bits + [value])[i]) {
      if i / 8 < |data| { assert BitAt(more, i) == BitAt(data, i); } else { BitOfZero(7 - i % 8); }
      if value && i / 8 == length / 8 {
        OrBits(more[length / 8], Pow2(7 - length % 8), 7 - i % 8);
        PowBits(7 - length % 8, 7 - i % 8);
      }
    }
  }

  /** The bits of a byte that go to the last byte, and those that start the next one, with l1 bits in the last byte. */
  function FirstPart(value: Byte, l1: nat): Byte
    requires 0 < l1 < 8
  {
    var l2 := 8 - l1;
    AndFits(value, Shl(255, l2));
    Shr(And(value, Shl(255, l2)), l2)
  }

  function SecondPart(value: Byte, l1: nat): Byte
    requires 0 < l1 < 8
  {
    Shl(And(value, Shr(255, l1)), l1) % 256
  }

  function ByteWritten(data: seq<Byte>, length: nat, value: Byte): seq<Byte>
    requires length <= 8 * |data| < length + 8
  {
    if length % 8 == 0 then data + [value]
    else data[|data| - 1 := OrByte(data[|data| - 1], FirstPart(value, length % 8))] + [SecondPart(value, length % 8)]
  }

  lemma PartBits(value: Byte, l1: nat, j: nat)
    requires 0 < l1 < 8 && j < 8
    ensures Bit(FirstPart(value, l1), j) == (j < l1 && Bit(value, j + (8 - l1)))
    ensures Bit(SecondPart(value, l1), j) == (j >= l1 && Bit(value, j - l1))
  {
    var l2 := 8 - l1;
    ShiftedDown(And(value, Shl(255, l2)), l2, j);
    AndBits(value, Shl(255, l2), j + l2);
    ShiftedUp(255, l2, j + l2);
    AllOnes(j);
    if j >= l1 { HighBitsClear(value, j + l2); }
    LowByteBits(Shl(And(value, Shr(255, l1)), l1), j);
    ShiftedUp(And(value, Shr(255, l1)), l1, j);
    if j >= l1 {
      AndBits(value, Shr(255, l1), j - l1);
      ShiftedDown(255, l1, j - l1);
    }
  }

  lemma HighBitsClear(value: Byte, j: nat)
    requires j >= 8
    ensures !Bit(value, j)
  {
    LowByteBits(value, j);
  }

  /** Bit j of the last byte and of the new byte. */
  lemma ByteWrittenBits(data: seq<Byte>, length: nat, value: Byte, j: nat)
    requires length <= 8 * |data| < length + 8 && length % 8 != 0 && j < 8
    ensures var written, l1, n := ByteWritten(data, length, value), length % 8, |data|;
      && |written| == n + 1 && written[..n - 1] == data[..n - 1]
      && Bit(written[n - 1], j) == (Bit(data[n - 1], j) || (j < l1 && Bit(value, j + (8 - l1))))
      && Bit(written[n], j) == (j >= l1 && Bit(value, j - l1))
  {
    PartBits(value, length % 8, j);
    OrBits(data[|data| - 1], FirstPart(value, length % 8), j);
  }

  /** At offset 0 or 4 in a byte the byte's eight bits are appended. */
  lemma ByteIsAppended(data: seq<Byte>, bits: seq<bool>, value: Byte)
    requires Shows(data, bits) && (|bits| % 8 == 0 || |bits| % 8 == 4)
    ensures Shows(ByteWritten(data, |bits|, value), bits + BitsOf(value, 8))
  {
    var written, more := ByteWritten(data, |bits|, value), bits + BitsOf(value, 8);
    forall i | 0 <= i < 8 * |written| ensures BitAt(written, i) == (i < |more| && more[i]) {
      assert i < |more| ==> more[i] == if i < |bits| then bits[i] else BitsOf(value, 8)[i - |bits|];
      if |bits| % 8 == 4 {
        NibbleAppended(data, bits, value, i);
      } else if i < |bits| {
        assert BitAt(data, i) == bits[i];
      }
    }
  }

  lemma NibbleAppended(data: seq<Byte>, bits: seq<bool>, value: Byte, i: nat)
    requires Shows(data, bits) && |bits| % 8 == 4 && i < 8 * |data| + 8
    ensures |ByteWritten(data, |bits|, value)| == |data| + 1
    ensures BitAt(ByteWritten(data, |bits|, value), i) ==
        (if i < |bits| then bits[i] else i < |bits| + 8 && BitsOf(value, 8)[i - |bits|])
  {
    ByteWrittenBits(data, |bits|, value, 7 - i % 8);
    if i / 8 < |data| { assert BitAt(data, i) == (i < |bits| && bits[i]); }
    NibblePlaced(data, ByteWritten(data, |bits|, value), bits, value, i);
  }

  /** Half of the byte's bits stand in the last byte, half of them in the new one. */
  lemma NibblePlaced(data: seq<Byte>, written: seq<Byte>, bits: seq<bool>, value: Byte, i: nat)
    requires |bits| == 8 * |data| - 4 && |written| == |data| + 1 && i < 8 * |written|
    requires written[..|data| - 1] == data[..|data| - 1] &&
        (i / 8 < |data| ==> BitAt(data, i) == (i < |bits| && bits[i]))
    requires var j, n := 7 - i % 8, |data|;
      && Bit(written[n - 1], j) == (Bit(data[n - 1], j) || (j < 4 && Bit(value, j + 4)))
      && Bit(written[n], j) == (j >= 4 && Bit(value, j - 4))
    ensures BitAt(written, i) == (if i < |bits| then bits[i] else i < |bits| + 8 && BitsOf(value, 8)[i - |bits|])
  {
    if i / 8 < |data| - 1 { assert written[i / 8] == data[i / 8]; }
  }

  /** Whatever was written before, any byte is appended. */
  ghost predicate BytesAppended(l1: nat) {
    forall data, bits, value: Byte :: Shows(data, bits) && |bits| % 8 == l1 ==> IsAppended(data, bits, value)
  }

  ghost predicate IsAppended(data: seq<Byte>, bits: seq<bool>, value: Byte)
    requires |bits| <= 8 * |data| < |bits| + 8
  {
    Shows(ByteWritten(data, |bits|, value), bits + BitsOf(value, 8))
  }

  /** At any other offset in a byte it is not: the shift amounts are exchanged. */
  lemma ByteIsAppendedIff(l1: nat)
    requires l1 < 8
    ensures BytesAppended(l1) <==> l1 == 0 || l1 == 4
  {
    if l1 == 0 || l1 == 4 { AlwaysAppended(l1); } else { NotAppended(l1); }
  }

  predicate NoneSet(bits: seq<bool>) {
    forall i :: 0 <= i < |bits| ==> !bits[i]
  }

  lemma NotAppended(l1: nat)
    requires 0 < l1 < 8 && l1 != 4
    ensures !BytesAppended(l1)
  {
    var data, bits, value := Misplaced(l1);
    assert |bits| % 8 == l1 && !IsAppended(data, bits, value);
  }

  lemma Misplaced(l1: nat) returns (data: seq<Byte>, bits: seq<bool>, value: Byte)
    requires 0 < l1 < 8 && l1 != 4
    ensures |bits| == l1 && Shows(data, bits) && !IsAppended(data, bits, value)
  {
    data, bits, value := [0], seq(l1, _ => false), 255;
    OnesAreMisplaced(bits);
  }

  lemma AlwaysAppended(l1: nat)
    requires l1 == 0 || l1 == 4
    ensures BytesAppended(l1)
  {
    forall data, bits, value: Byte | Shows(data, bits) && |bits| % 8 == l1 ensures IsAppended(data, bits, value) {
      ByteIsAppended(data, bits, value);
    }
  }

  /** Eight ones behind l1 zeros: one is missing at position l1, or stands before it. */
  lemma OnesAreMisplaced(zeros: seq<bool>)
    requires 0 < |zeros| < 8 && |zeros| != 4 && NoneSet(zeros)
    ensures Shows([0], zeros) && !IsAppended([0], zeros, 255)
  {
    var l1 := |zeros|;
    ZeroByte(zeros);
    forall j: nat | j < 8 ensures Bit(255, j) { AllOnes(j); }
    MisplacedAt(255, zeros, if l1 < 4 then l1 else l1 - 1);
  }

  predicate AllSet(value: Byte) {
    forall j: nat :: j < 8 ==> Bit(value, j)
  }

  /** The k-th bit should be set exactly if it is not in front of the byte. */
  lemma MisplacedAt(value: Byte, zeros: seq<bool>, k: nat)
    requires 0 < |zeros| < 8 && NoneSet(zeros) && k < 8 && AllSet(value) && (7 - k < |zeros|) != (k >= |zeros|)
    ensures !IsAppended([0], zeros, value)
  {
    var l1 := |zeros|;
    var written, expected := ByteWritten([0], l1, value), zeros + BitsOf(value, 8);
    OnesFirst(value, l1, k);
    if k >= l1 { assert BitsOf(value, 8)[k - l1] == Bit(value, 7 - (k - l1)); }
    assert expected[k] == (k >= l1);
  }

  lemma ZeroByte(zeros: seq<bool>)
    requires 0 < |zeros| <= 8 && NoneSet(zeros)
    ensures Shows([0], zeros)
  {
    forall i | 0 <= i < 8 ensures !BitAt([0], i) { BitOfZero(7 - i); }
  }

  lemma OnesFirst(value: Byte, l1: nat, k: nat)
    requires 0 < l1 < 8 && k < 8 && AllSet(value)
    ensures BitAt(ByteWritten([0], l1, value), k) == (7 - k < l1)
  {
    ByteWrittenBits([0], l1, value, 7 - k);
    BitOfZero(7 - k);
    if 7 - k < l1 { assert Bit(value, 7 - k + (8 - l1)); }
  }

  lemma BytesAppend(data: seq<Byte>, bits: seq<bool>, bytes: seq<Byte>)
    requires Shows(data, bits) && |bits| % 8 == 0
    ensures Shows(data + bytes, bits + BytesBits(bytes))
  {
    var written, more := data + bytes, bits + BytesBits(bytes);
    assert |bits| == 8 * |data|;
    forall i | 0 <= i < 8 * |written| ensures BitAt(written, i) == more[i] {
      if i < |bits| {
        assert BitAt(data, i) == bits[i];
      } else {
        var j := i - |bits|;
        assert i / 8 == |data| + j / 8 && i % 8 == j % 8 && written[i / 8] == bytes[j / 8];
      }
    }
  }

  lemma AllOnes(j: nat)
    ensures Bit(255, j) <==> j < 8
  {
    assert Pow2(8) == 256;
    OnesBits(8, j);
  }

  // ---------- what is read ----------

  /** The lowest 8 - l1 bits of one byte, then the highest l1 bits of the next. */
  function Joined(first: Byte, second: Byte, l1: nat): Byte
    requires 0 < l1 < 8
  {
    OrByte(Shl(first, l1) % 256, Shr(second, 8 - l1))
  }

  lemma JoinedBit(first: Byte, second: Byte, l1: nat, j: nat)
    requires 0 < l1 < 8 && j < 8
    ensures Bit(Joined(first, second, l1), j) == if j >= l1 then Bit(first, j - l1) else Bit(second, j + (8 - l1))
  {
    OrBits(Shl(first, l1) % 256, Shr(second, 8 - l1), j);
    LowByteBits(Shl(first, l1), j);
    ShiftedUp(first, l1, j);
    ShiftedDown(second, 8 - l1, j);
    if j >= l1 { HighBitsClear(second, j + (8 - l1)); }
  }

  /** The byte at a position, put together from two bytes unless it is aligned. */
  function ByteRead(data: seq<Byte>, position: nat): Byte
    requires position + 8 <= 8 * |data|
  {
    if position % 8 == 0 then data[position / 8] else Joined(data[position / 8], data[position / 8 + 1], position % 8)
  }

  /** Bit k behind a position stands in the same byte or in the next. */
  lemma BitBehindPosition(position: nat, q: nat, o: nat, k: nat)
    requires q == position / 8 && o == position % 8 && k < 8
    ensures (position + k) / 8 == (if o + k < 8 then q else q + 1)
    ensures (position + k) % 8 == (if o + k < 8 then o + k else o + k - 8)
  {
  }

  lemma ByteReadBit(data: seq<Byte>, position: nat, j: nat)
    requires position + 8 <= 8 * |data| && j < 8
    ensures Bit(ByteRead(data, position), j) == BitAt(data, position + 7 - j)
  {
    BitBehindPosition(position, position / 8, position % 8, 7 - j);
    if position % 8 > 0 { JoinedBit(data[position / 8], data[position / 8 + 1], position % 8, j); }
  }

  /** At any position the byte read is made of the next eight bits. */
  lemma ByteIsRead(data: seq<Byte>, position: nat)
    requires position + 8 <= 8 * |data|
    ensures StandsAt(data, position, BitsOf(ByteRead(data, position), 8))
  {
    var part, bits := Part(data, position, 8), BitsOf(ByteRead(data, position), 8);
    forall i | 0 <= i < 8 ensures part[i] == bits[i] { ByteReadBit(data, position, 7 - i); }
  }

  // ---------- n bits of a number ----------

  /** The mask of the highest of n bits: a shifted 32-bit int, which is sign extended for n of 32. */
  function FirstMask(n: nat): Word
    requires 1 <= n <= 32
  {
    Pow2Of64();
    Pow2Grows(n - 1, 64);
    if n == 32 then BASE - 0x8000_0000 else Pow2(n - 1)
  }

  function NBits(value: Word, mask: Word, n: nat): seq<bool>
    decreases n
  {
    if n == 0 then [] else [And(value, mask) != 0] + NBits(value, mask / 2, n - 1)
  }

  lemma {:induction false} NBitsAre(value: Word, n: nat)
    requires n < 64
    ensures n > 0 ==> Pow2(n - 1) < BASE && NBits(value, Pow2(n - 1), n) == BitsOf(value, n)
    decreases n
  {
    if n > 0 {
      PowerWithin(n - 1);
      if n > 1 {
        HalfIs(Pow2(n - 1), Pow2(n - 2), 0);
        NBitsAre(value, n - 1);
      }
      HighestBit(value, n);
    }
  }

  lemma PowerWithin(n: nat)
    requires n < 64
    ensures Pow2(n) < BASE
  {
    Pow2Of64();
    Pow2Grows(n, 64);
  }

  lemma HighestBit(value: nat, n: nat)
    requires n > 0
    ensures BitsOf(value, n) == [And(value, Pow2(n - 1)) != 0] + BitsOf(value, n - 1)
  {
    AndBit(value, n - 1);
    assert BitsOf(value, n)[1..] == BitsOf(value, n - 1);
  }

  /** The n lowest bits of every number are written exactly if the mask is not sign extended. */
  lemma NBitsAreIff(n: nat)
    requires 1 <= n <= 32
    ensures (forall value: Word :: NBits(value, FirstMask(n), n) == BitsOf(value, n)) <==> n <= 31
  {
    if n <= 31 { MaskedAre(n); } else { HigherBitLeaks(n); }
  }

  lemma MaskedAre(n: nat)
    requires 1 <= n <= 31
    ensures forall value: Word :: NBits(value, FirstMask(n), n) == BitsOf(value, n)
  {
    forall value: Word ensures NBits(value, FirstMask(n), n) == BitsOf(value, n) { NBitsAre(value, n); }
  }
  /** With the mask sign extended, bit 32 is written in place of bit 31. */
  lemma HigherBitLeaks(n: nat)
    requires n == 32
    ensures NBits(0x1_0000_0000, FirstMask(n), n)[0] && !BitsOf(0x1_0000_0000, n)[0]
  {
    var value := 0x1_0000_0000;
    Pow2Of32();
    PowBits(n, n - 1);
    Pow2Of64();
    Pow2Of31();
    AndHighMask(value, 31, 64);
    QuotientIs(value, 0x8000_0000, 2, 0);
  }

  lemma LittleAppended(before: seq<bool>, value: nat, k: nat, byte: Byte)
    requires byte == Shr(value, 8 * k) % 256
    ensures before + LittleBits(value, k + 1) == before + LittleBits(value, k) + BitsOf(byte, 8)
  {
    LittleOneMore(value, k);
    Rebracketed(before, LittleBits(value, k), BitsOf(byte, 8));
  }

  lemma Rebracket(a: seq<bool>, b: bool, c: seq<bool>)
    ensures a + ([b] + c) == a + [b] + c
  {
  }

  // ---------- the writer ----------

  class MemoryOutputStream {
    var data: seq<Byte>
    var length: nat
    ghost var contents: seq<bool>

    ghost predicate Shaped()
      reads this
    {
      length <= 8 * |data| < length + 8
    }

    ghost predicate Valid()
      reads this
    {
      length == |contents| && Shows(data, contents)
    }

    /** At offset 0 or 4 in a byte. */
    predicate TakesBytes()
      reads this
    {
      length % 8 == 0 || length % 8 == 4
    }

    /** The bits were appended, unless something was misplaced before. */
    twostate predicate Appends(bits: seq<bool>)
      requires old(Shaped())
      reads this
    {
      Shaped() && length == old(length) + |bits| && (old(Valid()) ==> Valid() && contents == old(contents) + bits)
    }

    constructor ()
      ensures Valid() && contents == []
    {
      data := [];
      length := 0;
      contents := [];
    }

    method WriteBit(value: bool)
      requires Shaped()
      modifies this
      ensures Appends([value])
    {
      if Valid() { BitIsAppended(data, contents, value); }
      var i := length;
      var byteIndex := i / 8;
      var bitIndex := i % 8;
      if bitIndex == 0 { data := data + [0]; }
      if value { data := data[byteIndex := OrByte(data[byteIndex], Mask(7 - bitIndex))]; }
      length := length + 1;
      contents := contents + [value];
    }

    method WriteBitRepeatedly(value: bool, count: nat)
      requires Shaped()
      modifies this
      ensures Appends(seq(count, _ => value))
    {
      ghost var written := [];
      for i := 0 to count
        invariant |written| == i && (forall j :: 0 <= j < i ==> written[j] == value) && Appends(written)
      {
        WriteBit(value);
        written := written + [value];
      }
      assert written == seq(count, _ => value);
    }

    method WriteBits(bits: seq<bool>)
      requires Shaped()
      modifies this
      ensures Appends(bits)
    {
      for i := 0 to |bits|
        invariant Appends(bits[..i])
      {
        WriteBit(bits[i]);
        assert bits[..i + 1] == bits[..i] + [bits[i]];
      }
      assert bits[..|bits|] == bits;
    }

    /** The bits were appended, if bytes can be written at this offset and nothing was misplaced before. */
    twostate predicate AppendsBytes(bits: seq<bool>)
      requires old(Shaped())
      reads this
    {
      && Shaped() && length == old(length) + |bits|
      && (old(Valid() && TakesBytes()) ==> Valid() && contents == old(contents) + bits)
    }

    method WriteByte(value: Byte)
      requires Shaped()
      modifies this
      ensures data == ByteWritten(old(data), old(length), value)
      ensures AppendsBytes(BitsOf(value, 8))
    {
      if Valid() && TakesBytes() { ByteIsAppended(data, contents, value); }
      if length % 8 == 0 {
        data := data + [value];
      } else {
        var l1 := length % 8;
        data := data[|data| - 1 := OrByte(data[|data| - 1], FirstPart(value, l1))];
        data := data + [SecondPart(value, l1)];
      }
      length := length + 8;
      contents := contents + BitsOf(value, 8);
    }

    /** What the fields of whole bytes need of writing a byte. */
    method AppendByte(value: Byte)
      requires Shaped()
      modifies this
      ensures AppendsBytes(BitsOf(value, 8))
    {
      WriteByte(value);
    }

    method WriteByteRepeatedly(value: Byte, count: nat)
      requires Shaped()
      modifies this
      ensures AppendsBytes(BytesBits(seq(count, _ => value)))
    {
      ghost var written: seq<Byte> := [];
      for i := 0 to count
        invariant |written| == i && (forall j :: 0 <= j < i ==> written[j] == value) && AppendsBytes(BytesBits(written))
      {
        AppendByte(value);
        BytesOneMore(written, value);
        written := written + [value];
      }
      assert written == seq(count, _ => value);
    }

    /** Whole bytes, at an aligned position. */
    method WriteBytes(bytes: seq<Byte>)
      requires Shaped() && length % 8 == 0
      modifies this
      ensures AppendsBytes(BytesBits(bytes)) && length % 8 == 0
    {
      if Valid() { BytesAppend(data, contents, bytes); }
      data := data + bytes;
      length := length + 8 * |bytes|;
      contents := contents + BytesBits(bytes);
    }

    method WriteUint2(value: Byte)
      requires Shaped()
      modifies this
      ensures Appends(BitsOf(value, 2))
    {
      AndBit(value, 1);
      AndBit(value, 0);
      WriteBit(And(value, 2) != 0);
      WriteBit(And(value, 1) != 0);
      assert BitsOf(value, 2) == [Bit(value, 1), Bit(value, 0)];
    }

    method WriteUint4(value: Byte)
      requires Shaped()
      modifies this
      ensures Appends(BitsOf(value, 4))
    {
      AndBit(value, 3);
      AndBit(value, 2);
      WriteBit(And(value, 8) != 0);
      WriteBit(And(value, 4) != 0);
      WriteUint2(value);
      assert BitsOf(value, 4) == [Bit(value, 3), Bit(value, 2)] + BitsOf(value, 2);
    }

    /** The byte from bit i on, behind the n bits above it. */
    method AppendBigByte(value: Word, i: nat, ghost n: nat, ghost before: seq<bool>)
      requires Shaped()
      modifies this
      ensures Shaped() && length == old(length) + 8 && TakesBytes() == old(TakesBytes())
      ensures old(Valid() && TakesBytes()) ==> Valid()
      ensures old(Valid() && TakesBytes()) && old(contents) == before + BitsOf(Shr(value, i + 8), n) ==>
        contents == before + BitsOf(Shr(value, i), n + 8)
    {
      var shifted := Shr(value, i);
      BitsOfByte(shifted, n);
      ShiftTwice(value, i, 8);
      Rebracketed(before, BitsOf(Shr(value, i + 8), n), BitsOf(shifted % 256, 8));
      AppendByte(shifted % 256);
    }

    /** A number of k bytes, highest byte first. */
    method WriteUintBe(value: Word, k: nat)
      requires Shaped()
      modifies this
      ensures AppendsBytes(BitsOf(value, 8 * k))
    {
      for i := k downto 0
        invariant AppendsBytes(BitsOf(Shr(value, 8 * i), 8 * (k - i))) && TakesBytes() == old(TakesBytes())
      {
        AppendBigByte(value, 8 * i, 8 * (k - i) - 8, old(contents));
      }
    }

    /** Byte i of a number, behind the lower ones. */
    method AppendLittleByte(value: Word, i: nat, ghost before: seq<bool>)
      requires Shaped()
      modifies this
      ensures Shaped() && length == old(length) + 8 && TakesBytes() == old(TakesBytes())
      ensures old(Valid() && TakesBytes()) ==> Valid()
      ensures old(Valid() && TakesBytes()) && old(contents) == before + LittleBits(value, i) ==>
        contents == before + LittleBits(value, i + 1)
    {
      var byte := Shr(value, 8 * i) % 256;
      LittleAppended(before, value, i, byte);
      AppendByte(byte);
    }

    /** A number of k bytes, lowest byte first. */
    method WriteUintLe(value: Word, k: nat)
      requires Shaped()
      modifies this
      ensures AppendsBytes(LittleBits(value, k))
    {
      for i := 0 to k
        invariant AppendsBytes(LittleBits(value, i)) && TakesBytes() == old(TakesBytes())
      {
        AppendLittleByte(value, i, old(contents));
      }
    }

    /** A text and a zero byte. */
    method WriteString(s: seq<Byte>)
      requires Shaped() && length % 8 == 0
      modifies this
      ensures AppendsBytes(TextBits(s))
    {
      WriteBytes(s);
      AppendByte(0);
    }

    /** The n lowest bits; no bits and more than 64 are errors. Shifts beyond the width of int are not modelled. */
    method WriteNBitsOfUint64Be(value: Word, n: nat) returns (ok: bool)
      requires Shaped() && (n <= 32 || n > 64)
      modifies this
      ensures ok <==> 1 <= n <= 64
      ensures !ok ==> data == old(data) && length == old(length)
      ensures ok ==> Appends(NBits(value, FirstMask(n), n))
      ensures ok && n <= 31 ==> Appends(BitsOf(value, n))
    {
      if n == 0 || n > 64 { return false; }
      if n <= 31 { NBitsAre(value, n); }
      WriteMasked(value, FirstMask(n), n);
      return true;
    }

    method WriteMasked(value: Word, mask: Word, n: nat)
      requires Shaped()
      modifies this
      ensures Appends(NBits(value, mask, n))
    {
      var mul := mask;
      ghost var written := [];
      for i := 0 to n
        invariant NBits(value, mask, n) == written + NBits(value, mul, n - i)
        invariant Appends(written)
      {
        var bit := And(value, mul) != 0;
        Rebracket(written, bit, NBits(value, mul / 2, n - i - 1));
        WriteBit(bit);
        mul := mul / 2;
        written := written + [bit];
      }
      assert written + [] == written;
    }

    /** The bits written so far. */
    method CopyData() returns (result: seq<bool>)
      requires Valid()
      ensures result == contents
    {
      result := [];
      for i := 0 to length
        invariant result == contents[..i]
      {
        var byte := data[i / 8];
        AndBit(byte, 7 - i % 8);
        assert BitAt(data, i) == contents[i];
        result := result + [And(byte, Mask(7 - i % 8)) != 0];
      }
    }
  }
}
