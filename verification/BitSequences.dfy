/** Numbers as sequences of bits, and the bits of shifted, masked and combined numbers. */
module BitSequences {
  import opened MachineWords

  lemma Pow2Of31()
    ensures Pow2(31) == 0x8000_0000
  {
    Pow2Of32();
    assert Pow2(32) == 2 * Pow2(31);
  }

  lemma Pow2Of32()
    ensures Pow2(32) == 0x1_0000_0000
  {
    Pow2Adds(1, 1);
    Pow2Adds(2, 2);
    Pow2Adds(4, 4);
    Pow2Adds(8, 8);
    Pow2Adds(16, 16);
  }

  // ---------- single bits ----------

  lemma {:induction false} BitOfZero(j: nat)
    ensures !Bit(0, j)
    decreases j
  {
    if j > 0 { BitOfZero(j - 1); }
  }

  lemma {:induction false} OrBits(a: nat, b: nat, j: nat)
    ensures Bit(Or(a, b), j) == (Bit(a, j) || Bit(b, j))
    decreases j
  {
    OrHalves(a, b);
    HalfIs(Or(a, b), Or(a / 2, b / 2), if a % 2 == 1 || b % 2 == 1 then 1 else 0);
    if j > 0 { OrBits(a / 2, b / 2, j - 1); }
  }

  lemma {:induction false} AndBits(a: nat, b: nat, j: nat)
    ensures Bit(And(a, b), j) == (Bit(a, j) && Bit(b, j))
    decreases j
  {
    AndHalves(a, b);
    HalfIs(And(a, b), And(a / 2, b / 2), if a % 2 == 1 && b % 2 == 1 then 1 else 0);
    if j > 0 { AndBits(a / 2, b / 2, j - 1); }
  }

  lemma {:induction false} OrFits(a: nat, b: nat, n: nat)
    requires a < Pow2(n) && b < Pow2(n)
    ensures Or(a, b) < Pow2(n)
    decreases n
  {
    OrHalves(a, b);
    if n > 0 { OrFits(a / 2, b / 2, n - 1); } else { AndNothing(0); }
  }

  lemma {:induction false} AndFits(a: nat, b: nat)
    ensures And(a, b) <= a && And(a, b) <= b
    decreases a
  {
    AndHalves(a, b);
    if a > 0 { AndFits(a / 2, b / 2); }
  }

  lemma {:induction false} PowBits(k: nat, j: nat)
    ensures Bit(Pow2(k), j) <==> j == k
    decreases j
  {
    if j > 0 {
      if k > 0 { PowBits(k - 1, j - 1); } else { BitOfZero(j - 1); }
    }
  }

  lemma {:induction false} ShiftedDown(a: nat, s: nat, j: nat)
    ensures Bit(Shr(a, s), j) == Bit(a, j + s)
    decreases s
  {
    if s > 0 { ShiftedDown(a / 2, s - 1, j); }
  }

  lemma {:induction false} LowBits(a: nat, n: nat, j: nat)
    ensures Bit(a % Pow2(n), j) == (j < n && Bit(a, j))
    decreases n
  {
    if n > 0 {
      HalfFirst(a, Pow2(n - 1));
      var m := a / 2 % Pow2(n - 1);
      HalfIs(2 * m + a % 2, m, a % 2);
      LowBits(a / 2, n - 1, if j > 0 then j - 1 else 0);
    } else {
      BitOfZero(j);
    }
  }

  lemma {:induction false} OnesBits(n: nat, j: nat)
    ensures Bit(Pow2(n) - 1, j) <==> j < n
    decreases n
  {
    if n > 0 {
      HalfIs(Pow2(n) - 1, Pow2(n - 1) - 1, 1);
      if j > 0 { OnesBits(n - 1, j - 1); }
    } else {
      BitOfZero(j);
    }
  }

  /** Numbers of n bits with the same bits are the same. */
  lemma {:induction false} SameBits(a: nat, b: nat, n: nat)
    requires a < Pow2(n) && b < Pow2(n) && forall j: nat :: j < n ==> Bit(a, j) == Bit(b, j)
    ensures a == b
    decreases n
  {
    if n > 0 {
      forall j: nat | j < n - 1 ensures Bit(a / 2, j) == Bit(b / 2, j) { assert Bit(a, j + 1) == Bit(b, j + 1); }
      SameBits(a / 2, b / 2, n - 1);
      assert Bit(a, 0) == Bit(b, 0);
    }
  }

  lemma OrDoubles(a: nat, b: nat)
    ensures Or(2 * a, 2 * b) == 2 * Or(a, b)
  {
    OrHalves(2 * a, 2 * b);
  }

  lemma OrOne(a: nat)
    ensures Or(2 * a, 1) == 2 * a + 1
  {
    OrHalves(2 * a, 1);
    AndNothing(a);
  }

  // ---------- sequences of bits, most significant first ----------

  function BitsOf(v: nat, n: nat): (bits: seq<bool>)
    ensures |bits| == n
  {
    seq(n, i requires 0 <= i < n => Bit(v, n - 1 - i))
  }

  function Bit01(b: bool): nat {
    if b then 1 else 0
  }

  /** Doubling and adding a bit puts it behind the others. */
  lemma BitBehind(v: nat, b: bool, n: nat)
    ensures BitsOf(2 * v + Bit01(b), n + 1) == BitsOf(v, n) + [b]
  {
    var more, whole := 2 * v + Bit01(b), BitsOf(v, n) + [b];
    forall i | 0 <= i <= n ensures BitsOf(more, n + 1)[i] == whole[i] { BitShifted(v, b, n - i); }
  }

  lemma BitShifted(v: nat, b: bool, j: nat)
    ensures Bit(2 * v + Bit01(b), j) == if j == 0 then b else Bit(v, j - 1)
  {
    HalfIs(2 * v + Bit01(b), v, Bit01(b));
  }

  lemma FourBits(b3: bool, b2: bool, b1: bool, b0: bool)
    ensures BitsOf(2 * Bit01(b1) + Bit01(b0), 2) == [b1, b0]
    ensures BitsOf(8 * Bit01(b3) + 4 * Bit01(b2) + 2 * Bit01(b1) + Bit01(b0), 4) == [b3, b2, b1, b0]
  {
    BitBehind(0, b1, 0);
    BitBehind(Bit01(b1), b0, 1);
    BitBehind(0, b3, 0);
    BitBehind(Bit01(b3), b2, 1);
    BitBehind(2 * Bit01(b3) + Bit01(b2), b1, 2);
    BitBehind(4 * Bit01(b3) + 2 * Bit01(b2) + Bit01(b1), b0, 3);
  }

  /** Only the lowest n bits count. */
  lemma BitsOfLow(v: nat, n: nat)
    ensures BitsOf(v % Pow2(n), n) == BitsOf(v, n)
  {
    forall i | 0 <= i < n ensures BitsOf(v % Pow2(n), n)[i] == BitsOf(v, n)[i] { LowBits(v, n, n - 1 - i); }
  }

  lemma BitsDetermine(a: nat, b: nat, n: nat)
    requires a < Pow2(n) && BitsOf(a, n) == BitsOf(b, n)
    ensures a == b % Pow2(n)
  {
    BitsOfLow(b, n);
    forall j: nat | j < n ensures Bit(a, j) == Bit(b % Pow2(n), j) {
      assert BitsOf(a, n)[n - 1 - j] == BitsOf(b % Pow2(n), n)[n - 1 - j];
    }
    SameBits(a, b % Pow2(n), n);
  }

  /** The higher bits come first. */
  lemma BitsSplit(v: nat, m: nat, n: nat)
    ensures BitsOf(v, m + n) == BitsOf(Shr(v, n), m) + BitsOf(v, n)
  {
    var split := BitsOf(Shr(v, n), m) + BitsOf(v, n);
    forall i | 0 <= i < m ensures BitsOf(v, m + n)[i] == split[i] { ShiftedDown(v, n, m - 1 - i); }
  }

  lemma {:induction false} ShiftTwice(v: nat, m: nat, n: nat)
    ensures Shr(Shr(v, m), n) == Shr(v, m + n)
    decreases m
  {
    if m > 0 { ShiftTwice(v / 2, m - 1, n); }
  }

  lemma ByteShift(v: nat)
    ensures Shr(v, 8) == v / 256
  {
    ShiftTwice(v, 4, 4);
    NibbleShift(v);
    NibbleShift(v / 16);
  }

  lemma NibbleShift(v: nat)
    ensures Shr(v, 4) == v / 16
  {
    assert Shr(v, 4) == Shr(v / 2 / 2, 2) == v / 2 / 2 / 2 / 2;
  }

  lemma LowByteBits(a: nat, j: nat)
    ensures Bit(a % 256, j) == (j < 8 && Bit(a, j))
  {
    assert Pow2(8) == 256;
    LowBits(a, 8, j);
  }

  /** The lowest byte is split off. */
  lemma BitsOfByte(v: nat, m: nat)
    ensures BitsOf(v, m + 8) == BitsOf(Shr(v, 8), m) + BitsOf(v % 256, 8)
  {
    assert Pow2(8) == 256;
    BitsSplit(v, m, 8);
    BitsOfLow(v, 8);
  }

  lemma Rebracketed(a: seq<bool>, b: seq<bool>, c: seq<bool>)
    ensures a + (b + c) == a + b + c
  {
  }

  // ---------- bytes ----------

  type Byte = x: int | 0 <= x < 256

  /** The byte with bit k only. */
  function Mask(k: nat): Byte
    requires k < 8
  {
    Pow2Grows(k, 8);
    Pow2(k)
  }

  function OrByte(a: Byte, b: Byte): Byte {
    OrFits(a, b, 8);
    Or(a, b)
  }

  function AndByte(a: Byte, b: Byte): Byte {
    AndFits(a, b);
    And(a, b)
  }

  /** Bit i of a stream of bytes; the first one is the most significant of the first byte. */
  predicate BitAt(data: seq<Byte>, i: nat)
    requires i < 8 * |data|
  {
    Bit(data[i / 8], 7 - i % 8)
  }

  /** The bytes are these bits, and the rest of the last byte is not set. */
  ghost predicate Shows(data: seq<Byte>, bits: seq<bool>) {
    && |bits| <= 8 * |data| < |bits| + 8
    && forall i {:trigger BitAt(data, i)} :: 0 <= i < 8 * |data| ==> BitAt(data, i) == (i < |bits| && bits[i])
  }

  /** The n bits from a position on. */
  function Part(data: seq<Byte>, position: nat, n: nat): (bits: seq<bool>)
    requires position + n <= 8 * |data|
    ensures |bits| == n
  {
    seq(n, i requires 0 <= i < n => BitAt(data, position + i))
  }

  /** These bits stand in the bytes from a position on. */
  ghost predicate StandsAt(data: seq<Byte>, position: nat, bits: seq<bool>) {
    position + |bits| <= 8 * |data| && Part(data, position, |bits|) == bits
  }

  lemma StandsJoined(data: seq<Byte>, position: nat, a: seq<bool>, b: seq<bool>)
    ensures StandsAt(data, position, a) && StandsAt(data, position + |a|, b) <==> StandsAt(data, position, a + b)
  {
    var n, m := |a|, |b|;
    if position + n + m <= 8 * |data| {
      var whole, first, second := Part(data, position, n + m), Part(data, position, n), Part(data, position + n, m);
      assert whole == first + second;
      assert whole[..n] == first && whole[n..] == second;
      assert (a + b)[..n] == a && (a + b)[n..] == b;
    }
  }

  /** The first n of some sequences, one after another. */
  function InOrder(parts: seq<seq<bool>>, n: nat): seq<bool>
    requires n <= |parts|
  {
    if n == 0 then [] else InOrder(parts, n - 1) + parts[n - 1]
  }

  lemma {:induction false} PrefixesGrow(parts: seq<seq<bool>>, i: nat, n: nat)
    requires i <= n <= |parts|
    ensures InOrder(parts, i) <= InOrder(parts, n)
  {
    if i < n { PrefixesGrow(parts, i, n - 1); }
  }

  lemma PrefixStands(data: seq<Byte>, bits: seq<bool>, whole: seq<bool>)
    requires StandsAt(data, 0, whole) && bits <= whole
    ensures StandsAt(data, 0, bits)
  {
    assert whole == bits + whole[|bits|..];
    StandsJoined(data, 0, bits, whole[|bits|..]);
  }

  /** Each part stands behind those before it. */
  lemma PartStands(data: seq<Byte>, parts: seq<seq<bool>>, i: nat)
    requires i < |parts| && StandsAt(data, 0, InOrder(parts, |parts|))
    ensures StandsAt(data, |InOrder(parts, i)|, parts[i])
    ensures |InOrder(parts, i)| + |parts[i]| == |InOrder(parts, i + 1)| <= |InOrder(parts, |parts|)|
  {
    PrefixesGrow(parts, i + 1, |parts|);
    PrefixStands(data, InOrder(parts, i + 1), InOrder(parts, |parts|));
    StandsJoined(data, 0, InOrder(parts, i), parts[i]);
  }

  /** Bytes show bits in one way only. */
  lemma ShownOnce(data: seq<Byte>, other: seq<Byte>, bits: seq<bool>)
    requires Shows(data, bits) && Shows(other, bits)
    ensures data == other
  {
    forall k | 0 <= k < |data| ensures data[k] == other[k] {
      forall j: nat | j < 8 ensures Bit(data[k], j) == Bit(other[k], j) {
        var i := 8 * k + (7 - j);
        assert BitAt(data, i) == BitAt(other, i);
      }
      assert Pow2(8) == 256;
      SameBits(data[k], other[k], 8);
    }
  }

  /** The k lowest bytes of v, lowest byte first. */
  function LittleBits(v: nat, k: nat): (bits: seq<bool>)
    ensures |bits| == 8 * k
    decreases k
  {
    if k == 0 then [] else BitsOf(v % 256, 8) + LittleBits(v / 256, k - 1)
  }

  /** The bits of whole bytes. */
  function BytesBits(bytes: seq<Byte>): (bits: seq<bool>)
    ensures |bits| == 8 * |bytes|
  {
    seq(8 * |bytes|, i requires 0 <= i < 8 * |bytes| => BitAt(bytes, i))
  }

  lemma BytesOneMore(bytes: seq<Byte>, byte: Byte)
    ensures BytesBits(bytes + [byte]) == BytesBits(bytes) + BitsOf(byte, 8)
  {
    var more, joined := bytes + [byte], BytesBits(bytes) + BitsOf(byte, 8);
    forall i | 0 <= i < 8 * |more| ensures BytesBits(more)[i] == joined[i] {
      assert more[i / 8] == if i < 8 * |bytes| then bytes[i / 8] else byte;
    }
  }

  /** A text and a zero byte. */
  function TextBits(text: seq<Byte>): (bits: seq<bool>)
    ensures |bits| == 8 * (|text| + 1)
  {
    BytesBits(text) + BitsOf(0, 8)
  }

  lemma {:induction false} LittleOneMore(v: nat, k: nat)
    ensures LittleBits(v, k + 1) == LittleBits(v, k) + BitsOf(Shr(v, 8 * k) % 256, 8)
    decreases k
  {
    if k > 0 {
      LittleOneMore(v / 256, k - 1);
      ShiftTwice(v, 8, 8 * (k - 1));
      ByteShift(v);
    }
  }

  /** Bit i stands in byte i / 8 of the number, counted from the lowest, and there the highest bit is the first. */
  lemma {:induction false} LittleBitsAt(v: nat, k: nat, i: nat)
    requires i < 8 * k
    ensures LittleBits(v, k)[i] == Bit(v, 8 * (i / 8) + (7 - i % 8))
    decreases k
  {
    if i < 8 {
      LowByteBits(v, 7 - i);
    } else {
      LittleBitsAt(v / 256, k - 1, i - 8);
      assert (i - 8) / 8 == i / 8 - 1 && (i - 8) % 8 == i % 8;
      ByteShift(v);
      ShiftedDown(v, 8, 8 * (i / 8 - 1) + (7 - i % 8));
    }
  }

  /** Only the lowest bytes count, and they can be told from the bits. */
  lemma {:induction false} LittleDetermine(a: nat, b: nat, k: nat)
    requires a < Pow2(8 * k) && LittleBits(a, k) == LittleBits(b, k)
    ensures a == b % Pow2(8 * k)
    decreases k
  {
    if k > 0 {
      OneByteMore(k);
      BelowByte(a, Pow2(8 * (k - 1)));
      assert LittleBits(a, k)[..8] == BitsOf(a % 256, 8) && LittleBits(b, k)[..8] == BitsOf(b % 256, 8);
      assert LittleBits(a, k)[8..] == LittleBits(a / 256, k - 1) && LittleBits(b, k)[8..] == LittleBits(b / 256, k - 1);
      ByteDetermines(a % 256, b % 256);
      LittleDetermine(a / 256, b / 256, k - 1);
      ByteFirst(b, Pow2(8 * (k - 1)));
    }
  }

  lemma ByteDetermines(a: Byte, b: Byte)
    requires BitsOf(a, 8) == BitsOf(b, 8)
    ensures a == b
  {
    assert Pow2(8) == 256;
    BitsDetermine(a, b, 8);
  }

  lemma OneByteMore(k: nat)
    requires k > 0
    ensures Pow2(8 * k) == 256 * Pow2(8 * (k - 1))
  {
    assert Pow2(8) == 256;
    Pow2Adds(8, 8 * (k - 1));
  }

  lemma BelowByte(a: nat, p: nat)
    requires a < 256 * p
    ensures a / 256 < p
  {
  }

  lemma ByteFirst(b: nat, p: nat)
    requires p > 0
    ensures b % (256 * p) == 256 * (b / 256 % p) + b % 256
  {
    var q, r := b / 256 / p, b / 256 % p;
    assert q * (256 * p) == 256 * (q * p);
    QuotientIs(b, 256 * p, q, 256 * r + b % 256);
  }
}
