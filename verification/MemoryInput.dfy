/** The reader of a bit stream packed into bytes. */
module MemoryInput {
  import opened MachineWords
  import opened BitSequences
  import opened MemoryStreams

  /** The bits of a nibble, set one after another. */
  lemma NibbleOr(x: nat)
    ensures Or(0, 8) == 8 && Or(8 * x, 4) == 8 * x + 4 && Or(4 * x, 2) == 4 * x + 2 && Or(2 * x, 1) == 2 * x + 1
  {
    AndNothing(8);
    OrOne(x);
    OrDoubles(2 * x, 1);
    OrDoubles(4 * x, 2);
  }

  /** A byte behind the first i bytes of a number. */
  lemma ByteBehind(n: nat, i: nat, byte: Byte)
    requires n < Pow2(8 * i)
    ensures 256 * n + byte < Pow2(8 * (i + 1))
    ensures BitsOf(256 * n + byte, 8 * (i + 1)) == BitsOf(n, 8 * i) + BitsOf(byte, 8)
  {
    var more := 256 * n + byte;
    OneByteMore(i + 1);
    ByteShift(more);
    BitsOfByte(more, 8 * i);
  }

  /** It does not meet the bits of the others, wherever the whole is shifted. */
  lemma {:induction false} ByteJoins(n: nat, byte: Byte, m: nat)
    ensures Or(Shl(n, m + 8), Shl(byte, m)) == Shl(256 * n + byte, m)
    decreases m
  {
    if m == 0 {
      ShiftLeftTimes(n, 8);
      assert Pow2(8) == 256;
      OrDisjoint(byte, n, 8);
    } else {
      ByteJoins(n, byte, m - 1);
      OrDoubles(Shl(n, m + 7), Shl(byte, m - 1));
    }
  }

  /** A byte in front of the i lowest bytes of a number. */
  lemma {:induction false} ByteInFront(n: nat, i: nat, byte: Byte)
    requires n < Pow2(8 * i)
    ensures Or(n, Shl(byte, 8 * i)) < Pow2(8 * (i + 1))
    ensures LittleBits(Or(n, Shl(byte, 8 * i)), i + 1) == LittleBits(n, i) + BitsOf(byte, 8)
    decreases i
  {
    if i == 0 {
      AndNothing(byte);
      assert LittleBits(byte, 1) == BitsOf(byte % 256, 8) + LittleBits(byte / 256, 0);
    } else {
      var more, rest := Or(n, Shl(byte, 8 * i)), Or(n / 256, Shl(byte, 8 * (i - 1)));
      OneByteMore(i);
      OneByteMore(i + 1);
      BelowByte(n, Pow2(8 * (i - 1)));
      ByteInFront(n / 256, i - 1, byte);
      FrontStep(n, i, byte);
      LowestFirst(more, rest, n, i, BitsOf(byte, 8));
    }
  }

  /** The lowest byte in front of the others and what is behind them. */
  lemma LowestFirst(more: nat, rest: nat, n: nat, i: nat, behind: seq<bool>)
    requires i > 0 && more == 256 * rest + n % 256 && LittleBits(rest, i) == LittleBits(n / 256, i - 1) + behind
    ensures LittleBits(more, i + 1) == LittleBits(n, i) + behind
  {
    assert more / 256 == rest && more % 256 == n % 256;
    Rebracketed(BitsOf(n % 256, 8), LittleBits(n / 256, i - 1), behind);
  }

  lemma FrontStep(n: nat, i: nat, byte: Byte)
    requires i > 0 && n < Pow2(8 * i) && n / 256 < Pow2(8 * (i - 1))
    ensures Or(n, Shl(byte, 8 * i)) == 256 * Or(n / 256, Shl(byte, 8 * (i - 1))) + n % 256
  {
    var p := Pow2(8 * (i - 1));
    OneByteMore(i);
    ShiftLeftTimes(byte, 8 * i);
    OrDisjoint(n, byte, 8 * i);
    ShiftLeftTimes(byte, 8 * (i - 1));
    OrDisjoint(n / 256, byte, 8 * (i - 1));
    ScaledByte(n, byte, p);
  }

  lemma ScaledByte(n: nat, byte: Byte, p: nat)
    ensures n + byte * (256 * p) == 256 * (n / 256 + byte * p) + n % 256
  {
    assert byte * (256 * p) == 256 * (byte * p);
  }

  /** The next lower bit is set or not, wherever the whole is shifted. */
  lemma {:induction false} BitJoins(m: nat, k: nat)
    ensures Or(Shl(m, k + 1), Pow2(k)) == Shl(2 * m + 1, k)
    ensures Shl(m, k + 1) == Shl(2 * m, k)
  {
    if k == 0 {
      OrOne(m);
    } else {
      BitJoins(m, k - 1);
      OrDoubles(Shl(m, k), Pow2(k - 1));
    }
  }

  /** A bit read behind the first i bits of a number. */
  lemma NextBitRead(data: seq<Byte>, position: nat, m: nat, i: nat, bit: bool)
    requires StandsAt(data, position, BitsOf(m, i)) && StandsAt(data, position + i, [bit])
    ensures StandsAt(data, position, BitsOf(2 * m + Bit01(bit), i + 1))
  {
    BitBehind(m, bit, i);
    StandsJoined(data, position, BitsOf(m, i), [bit]);
  }

  lemma MaskStep(r: nat, m: nat, k: nat, i: nat)
    requires r == Shl(m, k + 1) && m < Pow2(i)
    ensures Or(r, Pow2(k)) == Shl(2 * m + 1, k) && r == Shl(2 * m, k) && 2 * m + 1 < Pow2(i + 1)
    ensures k > 0 ==> Pow2(k) / 2 == Pow2(k - 1)
  {
    BitJoins(m, k);
    if k > 0 { HalfIs(Pow2(k), Pow2(k - 1), 0); }
  }

  /** A byte read behind a text. */
  lemma OneMoreByte(data: seq<Byte>, position: nat, s: seq<Byte>, byte: Byte)
    requires StandsAt(data, position, BytesBits(s)) && StandsAt(data, position + 8 * |s|, BitsOf(byte, 8))
    ensures StandsAt(data, position, BytesBits(s + [byte]))
  {
    BytesOneMore(s, byte);
    StandsJoined(data, position, BytesBits(s), BitsOf(byte, 8));
  }

  /** The k-th byte of a text stands where it should. */
  lemma ByteOfText(data: seq<Byte>, position: nat, s: seq<Byte>, k: nat)
    requires StandsAt(data, position, BytesBits(s)) && k < |s|
    ensures StandsAt(data, position + 8 * k, BitsOf(s[k], 8))
  {
    var part, bits := Part(data, position + 8 * k, 8), BitsOf(s[k], 8);
    forall i | 0 <= i < 8 ensures part[i] == bits[i] {
      assert Part(data, position, 8 * |s|)[8 * k + i] == BytesBits(s)[8 * k + i];
    }
  }

  lemma SameStanding(data: seq<Byte>, position: nat, a: seq<bool>, b: seq<bool>)
    requires StandsAt(data, position, a) && StandsAt(data, position, b) && |a| == |b|
    ensures a == b
  {
  }

  /** A text cannot end where another one, read so far, has no zero byte. */
  lemma TextNotShorter(data: seq<Byte>, position: nat, s: seq<Byte>, t: seq<Byte>)
    requires StandsAt(data, position, BytesBits(s)) && StandsAt(data, position, TextBits(t)) && 0 !in s
    ensures |t| >= |s|
  {
    StandsJoined(data, position, BytesBits(t), BitsOf(0, 8));
    if |t| < |s| {
      ByteOfText(data, position, s, |t|);
      SameStanding(data, position + 8 * |t|, BitsOf(0, 8), BitsOf(s[|t|], 8));
      ByteDetermines(0, s[|t|]);
    }
  }

  /** No zero-terminated text stands at the position within the length. */
  ghost predicate NoText(data: seq<Byte>, position: nat, length: nat) {
    forall t: seq<Byte> :: 0 !in t && StandsAt(data, position, TextBits(t)) ==> position + 8 * (|t| + 1) > length
  }

  lemma NoTextWithin(data: seq<Byte>, position: nat, s: seq<Byte>, length: nat)
    requires StandsAt(data, position, BytesBits(s)) && 0 !in s && position + 8 * (|s| + 1) > length
    ensures NoText(data, position, length)
  {
    forall t: seq<Byte> | 0 !in t && StandsAt(data, position, TextBits(t)) ensures position + 8 * (|t| + 1) > length {
      TextNotShorter(data, position, s, t);
    }
  }

  class MemoryInputStream {
    const data: seq<Byte>
    const length: nat
    var position: nat
    var isReadBeyondEnd: bool

    ghost predicate Valid()
      reads this
    {
      position <= length <= 8 * |data|
    }

    /** All of the n bits were there, or the stream was read beyond its end. */
    twostate predicate Advances(n: nat)
      reads this
    {
      if old(position) + n <= length
      then position == old(position) + n && isReadBeyondEnd == old(isReadBeyondEnd)
      else isReadBeyondEnd
    }

    constructor (data: seq<Byte>, length: nat, position: nat)
      requires position <= length <= 8 * |data|
      ensures Valid() && this.data == data && this.length == length && this.position == position && !isReadBeyondEnd
    {
      this.data := data;
      this.length := length;
      this.position := position;
      isReadBeyondEnd := false;
    }

    method Seek(position: nat)
      requires Valid() && position <= length
      modifies `position
      ensures Valid() && this.position == position
    {
      this.position := position;
    }

    method ReadBit() returns (r: bool)
      requires Valid()
      modifies this
      ensures Valid() && Advances(1)
      ensures old(position) < length ==> StandsAt(data, old(position), [r])
      ensures old(position) == length ==> !r && position == length
    {
      if position == length {
        isReadBeyondEnd := true;
        return false;
      }
      var byteIndex, bitIndex := position / 8, position % 8;
      position := position + 1;
      AndBit(data[byteIndex], 7 - bitIndex);
      r := And(data[byteIndex], Mask(7 - bitIndex)) != 0;
      assert BitAt(data, old(position) + 0) == r;
    }

    /** Behind the last bit of the stream one more is read, which is not set; nothing is read once that happened. */
    method ReadBits(n: nat) returns (bits: seq<bool>)
      requires Valid()
      modifies this
      ensures Valid() && (!old(isReadBeyondEnd) ==> Advances(n))
      ensures old(isReadBeyondEnd) ==> bits == [] && position == old(position) && isReadBeyondEnd
      ensures !old(isReadBeyondEnd) && old(position) + n <= length ==>
          |bits| == n && StandsAt(data, old(position), bits)
      ensures !old(isReadBeyondEnd) && old(position) + n > length ==> position == length && IsRest(bits, old(position))
    {
      bits := [];
      var i := 0;
      while i < n
        invariant 0 <= i <= n && Valid() && |bits| == i
        invariant old(isReadBeyondEnd) ==> i == 0 && position == old(position) && isReadBeyondEnd
        invariant !old(isReadBeyondEnd) && !isReadBeyondEnd ==>
            position == old(position) + i && StandsAt(data, old(position), bits)
        invariant !old(isReadBeyondEnd) && isReadBeyondEnd ==>
          position == length && old(position) + i == length + 1 && IsRest(bits, old(position))
      {
        if isReadBeyondEnd { break; }
        var bit := ReadBit();
        StandsJoined(data, old(position), bits, [bit]);
        assert (bits + [bit])[..i] == bits;
        bits := bits + [bit];
        i := i + 1;
      }
    }

    /** The bits from a position to the end, and one that is not set. */
    ghost predicate IsRest(bits: seq<bool>, from: nat)
      reads this
    {
      from <= length && |bits| == length - from + 1 && StandsAt(data, from, bits[..length - from]) &&
          !bits[length - from]
    }

    method ReadByte() returns (r: Byte)
      requires Valid()
      modifies this
      ensures Valid() && Advances(8)
      ensures old(position) + 8 <= length ==>
          r == ByteRead(data, old(position)) && StandsAt(data, old(position), BitsOf(r, 8))
      ensures old(position) + 8 > length ==> r == 0 && position == length
    {
      if position + 8 > length {
        isReadBeyondEnd := true;
        position := length;
        return 0;
      }
      ByteIsRead(data, position);
      if position % 8 == 0 {
        r := data[position / 8];
      } else {
        var l1 := position % 8;
        var l2 := 8 - l1;
        r := Shl(data[(position - l1) / 8], l1) % 256;
        r := OrByte(r, Shr(data[(position + l2) / 8], l2));
      }
      position := position + 8;
    }

    method ReadTwoBits() returns (b1: bool, b0: bool)
      requires Valid()
      modifies this
      ensures Valid() && Advances(2)
      ensures old(position) + 2 <= length ==> StandsAt(data, old(position), [b1, b0])
    {
      b1 := ReadBit();
      b0 := ReadBit();
      StandsJoined(data, old(position), [b1], [b0]);
      assert [b1] + [b0] == [b1, b0];
    }

    method ReadUint2() returns (r: Byte)
      requires Valid()
      modifies this
      ensures Valid() && Advances(2)
      ensures old(position) + 2 <= length ==> r < 4 && StandsAt(data, old(position), BitsOf(r, 2))
    {
      var b1, b0 := ReadTwoBits();
      r := Nibble(false, false, b1, b0);
      FourBits(false, false, b1, b0);
    }

    method ReadUint4() returns (r: Byte)
      requires Valid()
      modifies this
      ensures Valid() && Advances(4)
      ensures old(position) + 4 <= length ==> r < 16 && StandsAt(data, old(position), BitsOf(r, 4))
    {
      var b3, b2 := ReadTwoBits();
      var b1, b0 := ReadTwoBits();
      r := Nibble(b3, b2, b1, b0);
      FourBits(b3, b2, b1, b0);
      StandsJoined(data, old(position), [b3, b2], [b1, b0]);
      assert [b3, b2] + [b1, b0] == [b3, b2, b1, b0];
    }

    /** Sets the bits read. */
    static method Nibble(b3: bool, b2: bool, b1: bool, b0: bool) returns (r: Byte)
      ensures r == 8 * Bit01(b3) + 4 * Bit01(b2) + 2 * Bit01(b1) + Bit01(b0)
    {
      NibbleOr(0);
      NibbleOr(Bit01(b3));
      NibbleOr(2 * Bit01(b3) + Bit01(b2));
      NibbleOr(4 * Bit01(b3) + 2 * Bit01(b2) + Bit01(b1));
      r := 0;
      if b3 { r := OrByte(r, 8); }
      if b2 { r := OrByte(r, 4); }
      if b1 { r := OrByte(r, 2); }
      if b0 { r := OrByte(r, 1); }
    }

    /** A number of k bytes, highest byte first. */
    method ReadUintBe(k: nat) returns (r: nat)
      requires Valid()
      modifies this
      ensures Valid() && (k > 0 ==> Advances(8 * k))
      ensures r < Pow2(8 * k)
      ensures old(position) + 8 * k <= length ==> StandsAt(data, old(position), BitsOf(r, 8 * k))
    {
      r := 0;
      var i := 0;
      ghost var enough := position + 8 * k <= length;
      ghost var n: nat := 0;
      ShiftLeftTimes(0, 8 * k);
      while i < k
        invariant 0 <= i <= k && Valid()
        invariant enough ==> position == old(position) + 8 * i && isReadBeyondEnd == old(isReadBeyondEnd)
        invariant r == Shl(n, 8 * (k - i))
        invariant n < Pow2(8 * i) && (enough ==> StandsAt(data, old(position), BitsOf(n, 8 * i)))
        invariant !enough ==> isReadBeyondEnd || position == old(position) + 8 * i
      {
        var byte := ReadByte();
        ByteBehind(n, i, byte);
        if enough { StandsJoined(data, old(position), BitsOf(n, 8 * i), BitsOf(byte, 8)); }
        ByteJoins(n, byte, 8 * (k - i - 1));
        r := Or(r, Shl(byte, 8 * (k - i - 1)));
        n := 256 * n + byte;
        i := i + 1;
      }
    }

    /** A number of k bytes, lowest byte first. */
    method ReadUintLe(k: nat) returns (r: nat)
      requires Valid()
      modifies this
      ensures Valid() && (k > 0 ==> Advances(8 * k))
      ensures r < Pow2(8 * k)
      ensures old(position) + 8 * k <= length ==> StandsAt(data, old(position), LittleBits(r, k))
    {
      r := 0;
      var i := 0;
      ghost var enough := position + 8 * k <= length;
      while i < k
        invariant 0 <= i <= k && Valid()
        invariant enough ==> position == old(position) + 8 * i && isReadBeyondEnd == old(isReadBeyondEnd)
        invariant r < Pow2(8 * i) && (enough ==> StandsAt(data, old(position), LittleBits(r, i)))
        invariant !enough ==> isReadBeyondEnd || position == old(position) + 8 * i
      {
        var byte := ReadByte();
        ByteInFront(r, i, byte);
        if enough { StandsJoined(data, old(position), LittleBits(r, i), BitsOf(byte, 8)); }
        r := Or(r, Shl(byte, 8 * i));
        i := i + 1;
      }
    }

    /** The bytes up to a zero byte. */
    method ReadString() returns (s: seq<Byte>)
      requires Valid()
      modifies this
      ensures Valid() && 0 !in s
      ensures old(position) + 8 * (|s| + 1) <= length ==>
        position == old(position) + 8 * (|s| + 1) && isReadBeyondEnd == old(isReadBeyondEnd)
        && StandsAt(data, old(position), TextBits(s))
      ensures old(position) + 8 * (|s| + 1) > length ==> isReadBeyondEnd && NoText(data, old(position), length)
    {
      s := [];
      while true
        invariant Valid() && 0 !in s && isReadBeyondEnd == old(isReadBeyondEnd)
        invariant position == old(position) + 8 * |s| && StandsAt(data, old(position), BytesBits(s))
        decreases length - position
      {
        var byte := ReadByte();
        if old(position) + 8 * (|s| + 1) <= length {
          OneMoreByte(data, old(position), s, byte);
          StandsJoined(data, old(position), BytesBits(s), BitsOf(byte, 8));
        } else {
          NoTextWithin(data, old(position), s, length);
        }
        if byte == 0 { return; }
        s := s + [byte];
      }
    }

    /** The n lowest bits; no bits and more than 64 are errors. Shifts beyond the width of int are not modelled. */
    method ReadNBitsToUint64Be(n: nat) returns (ok: bool, r: Word)
      requires Valid() && (n <= 32 || n > 64)
      modifies this
      ensures Valid() && (ok <==> 1 <= n <= 64)
      ensures !ok ==> position == old(position) && isReadBeyondEnd == old(isReadBeyondEnd)
      ensures ok ==> Advances(n)
      ensures ok && n <= 31 && old(position) + n <= length ==>
          r < Pow2(n) && StandsAt(data, old(position), BitsOf(r, n))
    {
      if n == 0 || n > 64 { return false, 0; }
      ok := true;
      r := ReadMasked(FirstMask(n), n);
    }

    method ReadMasked(mask: Word, n: nat) returns (r: Word)
      requires Valid() && n > 0
      modifies this
      ensures Valid() && Advances(n)
      ensures mask == Pow2(n - 1) && old(position) + n <= length ==>
          r < Pow2(n) && StandsAt(data, old(position), BitsOf(r, n))
    {
      r := 0;
      var mul := mask;
      var i := 0;
      ghost var enough := position + n <= length;
      ghost var m: nat := 0;
      Pow2Of64();
      ShiftLeftTimes(0, n);
      while i < n
        invariant 0 <= i <= n && Valid()
        invariant enough ==> position == old(position) + i && isReadBeyondEnd == old(isReadBeyondEnd)
        invariant !enough ==> isReadBeyondEnd || position == old(position) + i
        invariant mask == Pow2(n - 1) ==> r == Shl(m, n - i) && m < Pow2(i) && (i < n ==> mul == Pow2(n - 1 - i))
        invariant enough ==> StandsAt(data, old(position), BitsOf(m, i))
      {
        var bit := ReadBit();
        if enough { NextBitRead(data, old(position), m, i, bit); }
        if mask == Pow2(n - 1) { MaskStep(r, m, n - i - 1, i); }
        OrFits(r, mul, 64);
        if bit { r := Or(r, mul); }
        mul := mul / 2;
        m := 2 * m + Bit01(bit);
        i := i + 1;
      }
    }
  }
}
