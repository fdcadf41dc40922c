/** Bit vectors in one 32-bit word; their Hamming distance is computed word-parallel. */
module ShortBitVectors {
  import opened MachineWords
  import opened BitSequences
  import opened BitVectors
  import opened Options

  /** The lowest n bits, least significant first. */
  function LowBitsOf(x: nat, n: nat): (bits: seq<bool>)
    ensures |bits| == n
  {
    seq(n, i requires 0 <= i < n => Bit(x, i))
  }

  /** How many of the lowest n bits are set. */
  function Ones(x: nat, n: nat): (c: nat)
    ensures c <= n
  {
    if n == 0 then 0 else Ones(x, n - 1) + Bit01(Bit(x, n - 1))
  }

  lemma {:induction false} OnesFirst(x: nat, n: nat)
    requires n > 0
    ensures Ones(x, n) == x % 2 + Ones(x / 2, n - 1)
    decreases n
  {
    if n > 1 { OnesFirst(x, n - 1); }
  }

  lemma {:induction false} OnesSplit(x: nat, m: nat, n: nat)
    ensures Ones(x, m + n) == Ones(x, m) + Ones(Shr(x, m), n)
    decreases m
  {
    if m > 0 {
      OnesFirst(x, m + n);
      OnesFirst(x, m);
      OnesSplit(x / 2, m - 1, n);
    }
  }

  // ---------- sums side by side ----------

  /** Masks of one bit in two, two in four and four in eight. */
  function Mask1(k: nat): nat {
    if k == 0 then 0 else 4 * Mask1(k - 1) + 1
  }

  function Mask2(k: nat): nat {
    if k == 0 then 0 else 16 * Mask2(k - 1) + 3
  }

  function Mask4(k: nat): nat {
    if k == 0 then 0 else 256 * Mask4(k - 1) + 15
  }

  /** The ones of each of the k lowest pairs, nibbles or bytes of x, side by side. */
  function Pairs(x: nat, k: nat): nat
    decreases k
  {
    if k == 0 then 0 else 4 * Pairs(x / 4, k - 1) + Ones(x, 2)
  }

  function Nibbles(x: nat, k: nat): nat
    decreases k
  {
    if k == 0 then 0 else 16 * Nibbles(x / 16, k - 1) + Ones(x, 4)
  }

  function Bytes(x: nat, k: nat): nat
    decreases k
  {
    if k == 0 then 0 else 256 * Bytes(x / 256, k - 1) + Ones(x, 8)
  }

  lemma OnesOfPair(x: nat)
    ensures Ones(x, 2) == x % 2 + x / 2 % 2
  {
    OnesFirst(x, 2);
    OnesFirst(x / 2, 1);
  }

  lemma OnesOfNibble(x: nat)
    ensures Ones(x, 4) == Ones(x, 2) + Ones(x / 4, 2)
  {
    OnesSplit(x, 2, 2);
    PairShift(x);
  }

  lemma PairShift(x: nat)
    ensures Shr(x, 2) == x / 4
  {
    assert Shr(x, 2) == Shr(x / 2, 1) == x / 2 / 2;
  }

  lemma OnesOfByte(x: nat)
    ensures Ones(x, 8) == Ones(x, 4) + Ones(x / 16, 4)
  {
    OnesSplit(x, 4, 4);
    NibbleShift(x);
  }

  /** The lowest digits of a mask and of a masked number. */
  lemma AndPair(a: nat, m: nat)
    ensures And(a, 4 * m + 1) == 4 * And(a / 4, m) + a % 2
  {
    AndOdd(a, 4 * m + 1, 2 * m);
    AndEven(a / 2, 2 * m, m);
    assert a / 2 / 2 == a / 4;
  }

  lemma AndNibble(a: nat, m: nat)
    ensures And(a, 16 * m + 3) == 16 * And(a / 16, m) + a % 4
  {
    TwoOdd(a, 4 * m);
    TwoEven(a / 4, m);
    assert a / 4 / 4 == a / 16;
  }

  lemma TwoOdd(a: nat, m: nat)
    ensures And(a, 4 * m + 3) == 4 * And(a / 4, m) + a % 4
  {
    AndOdd(a, 4 * m + 3, 2 * m + 1);
    AndOdd(a / 2, 2 * m + 1, m);
    assert a / 2 / 2 == a / 4;
  }

  lemma TwoEven(a: nat, m: nat)
    ensures And(a, 4 * m) == 4 * And(a / 4, m)
  {
    AndEven(a, 4 * m, 2 * m);
    AndEven(a / 2, 2 * m, m);
    assert a / 2 / 2 == a / 4;
  }

  lemma AndByteDigit(a: nat, m: nat)
    ensures And(a, 256 * m + 15) == 256 * And(a / 256, m) + a % 16
  {
    FourOdd(a, 16 * m);
    FourEven(a / 16, m);
    assert a / 16 / 16 == a / 256;
  }

  lemma FourOdd(a: nat, m: nat)
    ensures And(a, 16 * m + 15) == 16 * And(a / 16, m) + a % 16
  {
    TwoOdd(a, 4 * m + 3);
    TwoOdd(a / 4, m);
    assert a / 4 / 4 == a / 16 && a % 16 == a % 4 + 4 * (a / 4 % 4);
  }

  lemma FourEven(a: nat, m: nat)
    ensures And(a, 16 * m) == 16 * And(a / 16, m)
  {
    TwoEven(a, 4 * m);
    TwoEven(a / 4, m);
    assert a / 4 / 4 == a / 16;
  }

  /** Subtracting the upper bit of each pair leaves its ones. */
  lemma {:induction false} PairsCounted(x: nat, k: nat, n: nat)
    requires n == 2 * k && x < Pow2(n)
    ensures And(x / 2, Mask1(k)) <= x && x - And(x / 2, Mask1(k)) == Pairs(x, k)
    decreases k
  {
    if k == 0 {
      AndNothing(0);
    } else {
      assert Pow2(n) == 2 * Pow2(n - 1);
      PairsCounted(x / 4, k - 1, n - 2);
      PairStep(x, And(x / 4 / 2, Mask1(k - 1)), Mask1(k - 1));
      OnesOfPair(x);
    }
  }

  lemma PairStep(x: nat, rest: nat, m: nat)
    requires rest == And(x / 4 / 2, m) && rest <= x / 4
    ensures And(x / 2, 4 * m + 1) == 4 * rest + x / 2 % 2 <= x
    ensures x - And(x / 2, 4 * m + 1) == 4 * (x / 4 - rest) + x % 2 + x / 2 % 2
  {
    AndPair(x / 2, m);
    assert x / 2 / 4 == x / 4 / 2;
    assert x == 4 * (x / 4) + x % 2 + 2 * (x / 2 % 2);
  }

  lemma PairsTwice(x: nat, y: nat, z: nat, n: nat)
    requires y == x / 4 && z == y / 4
    ensures Pairs(x, n + 2) == 16 * Pairs(z, n) + 4 * Ones(y, 2) + Ones(x, 2)
  {
    assert Pairs(y, n + 1) == 4 * Pairs(z, n) + Ones(y, 2);
  }

  function PairsAdded(h: nat, mask: nat): nat {
    And(h, mask) + And(h / 4, mask)
  }

  /** The two pairs of each nibble are added. */
  lemma {:induction false} NibblesCounted(x: nat, k: nat)
    ensures PairsAdded(Pairs(x, 2 * k), Mask2(k)) == Nibbles(x, k)
    decreases k
  {
    if k == 0 {
      AndNothing(Pairs(x, 0));
      AndNothing(Pairs(x, 0) / 4);
    } else {
      NibblesCounted(x / 16, k - 1);
      NibblesCountedStep(x, x / 4, x / 16, 2 * k - 2, 2 * k, Mask2(k - 1), Mask2(k), Nibbles(x / 16, k - 1));
    }
  }

  lemma NibblesCountedStep(x: nat, y: nat, z: nat, n: nat, n': nat, m: nat, m': nat, nibbles: nat)
    requires y == x / 4 && z == y / 4 && n' == n + 2 && m' == 16 * m + 3
    requires PairsAdded(Pairs(z, n), m) == nibbles
    ensures PairsAdded(Pairs(x, n'), m') == 16 * nibbles + Ones(x, 4)
  {
    PairsTwice(x, y, z, n);
    NibbleStep(Pairs(z, n), Ones(y, 2), Ones(x, 2), m);
    OnesOfNibble(x);
  }

  lemma NibbleStep(rest: nat, p1: nat, p0: nat, m: nat)
    requires p1 <= 2 && p0 <= 2
    ensures var h := 16 * rest + 4 * p1 + p0;
      And(h, 16 * m + 3) == 16 * And(rest, m) + p0 && And(h / 4, 16 * m + 3) == 16 * And(rest / 4, m) + p1
  {
    var h := 16 * rest + 4 * p1 + p0;
    DigitsOf(rest, p1, p0);
    AndNibble(h, m);
    AndNibble(h / 4, m);
  }

  lemma DigitsOf(rest: nat, p1: nat, p0: nat)
    requires p1 <= 2 && p0 <= 2
    ensures var h := 16 * rest + 4 * p1 + p0; h / 16 == rest && h % 4 == p0 && h / 4 / 16 == rest / 4 && h / 4 % 4 == p1
  {
    var h := 16 * rest + 4 * p1 + p0;
    assert h / 4 == 4 * rest + p1;
    assert h / 4 == 16 * (rest / 4) + 4 * (rest % 4) + p1;
  }

  lemma NibblesTwice(x: nat, y: nat, z: nat, n: nat)
    requires y == x / 16 && z == y / 16
    ensures Nibbles(x, n + 2) == 256 * Nibbles(z, n) + 16 * Ones(y, 4) + Ones(x, 4)
  {
    assert Nibbles(y, n + 1) == 16 * Nibbles(z, n) + Ones(y, 4);
  }

  /** The two nibbles of each byte are added: there is no carry into the next one. */
  lemma {:induction false} BytesCounted(x: nat, k: nat, n: nat)
    requires n == 2 * k
    ensures NibblesAdded(Nibbles(x, n), Mask4(k)) == Bytes(x, k)
    decreases k
  {
    if k == 0 {
      AndNothing(Nibbles(x, 0) + Nibbles(x, 0) / 16);
    } else {
      BytesCounted(x / 256, k - 1, n - 2);
      BytesCountedStep(x, x / 16, x / 256, n - 2, n, Mask4(k - 1), Mask4(k), Bytes(x / 256, k - 1));
    }
  }

  function NibblesAdded(h: nat, mask: nat): nat {
    And(h + h / 16, mask)
  }

  lemma BytesCountedStep(x: nat, y: nat, z: nat, n: nat, n': nat, m: nat, m': nat, bytes: nat)
    requires y == x / 16 && z == y / 16 && n' == n + 2 && m' == 256 * m + 15
    requires NibblesAdded(Nibbles(z, n), m) == bytes
    ensures NibblesAdded(Nibbles(x, n'), m') == 256 * bytes + Ones(x, 8)
  {
    NibblesTwice(x, y, z, n);
    LowNibble(z, n);
    ByteStep(Nibbles(z, n), Ones(y, 4), Ones(x, 4), m);
    OnesOfByte(x);
  }

  lemma ByteStep(rest: nat, a: nat, b: nat, m: nat)
    requires rest % 16 <= 4 && a <= 4 && b <= 4
    ensures var n := 256 * rest + 16 * a + b;
      NibblesAdded(n, 256 * m + 15) == 256 * NibblesAdded(rest, m) + a + b
  {
    SumsDoNotCarry(rest, a, b);
    var n := 256 * rest + 16 * a + b;
    AndByteDigit(n + n / 16, m);
  }

  lemma LowNibble(x: nat, k: nat)
    ensures Nibbles(x, k) % 16 <= 4
  {
  }

  lemma SumsDoNotCarry(rest: nat, a: nat, b: nat)
    requires rest % 16 <= 4 && a <= 4 && b <= 4
    ensures var n := 256 * rest + 16 * a + b;
      (n + n / 16) % 16 == a + b && (n + n / 16) / 256 == rest + rest / 16
  {
    var n := 256 * rest + 16 * a + b;
    assert n / 16 == 16 * rest + a;
    DigitsApart(n + n / 16, rest + rest / 16, rest % 16 + a, a + b);
  }

  lemma DigitsApart(s: nat, u: nat, v: nat, w: nat)
    requires s == 256 * u + 16 * v + w && v < 16 && w < 16
    ensures s % 16 == w && s / 256 == u
  {
    QuotientIs(s, 16, 16 * u + v, w);
    QuotientIs(s, 256, u, 16 * v + w);
  }

  /** Multiplying adds the bytes up in the highest one. */
  lemma BytesAddUp(b0: nat, b1: nat, b2: nat, b3: nat)
    requires b0 <= 8 && b1 <= 8 && b2 <= 8 && b3 <= 8
    ensures var y := b0 + 256 * (b1 + 256 * (b2 + 256 * b3));
      y * 0x01010101 % WORD32 / 0x100_0000 == b0 + b1 + b2 + b3
  {
    var y := b0 + 256 * (b1 + 256 * (b2 + 256 * b3));
    var sum := b0 + b1 + b2 + b3;
    var low := b0 + 0x100 * (b0 + b1) + 0x1_0000 * (b0 + b1 + b2);
    var high := b1 + b2 + b3 + 0x100 * (b2 + b3) + 0x1_0000 * b3;
    ExpandProduct(b0, b1, b2, b3);
    QuotientIs(y * 0x01010101, WORD32, high, low + 0x100_0000 * sum);
    QuotientIs(low + 0x100_0000 * sum, 0x100_0000, sum, low);
  }

  lemma ExpandProduct(b0: nat, b1: nat, b2: nat, b3: nat)
    ensures var y := b0 + 256 * (b1 + 256 * (b2 + 256 * b3));
      y * 0x01010101 == WORD32 * (b1 + b2 + b3 + 0x100 * (b2 + b3) + 0x1_0000 * b3)
        + (b0 + 0x100 * (b0 + b1) + 0x1_0000 * (b0 + b1 + b2) + 0x100_0000 * (b0 + b1 + b2 + b3))
  {
  }

  /** The sums of the pairs, nibbles and bytes of a word. */
  function PairSums(x: nat): int {
    x - And(x / 2, 0x55555555)
  }

  function NibbleSums(h: nat): nat {
    And(h, 0x33333333) + And(h / 4, 0x33333333)
  }

  function ByteSums(h: nat): nat {
    NibblesAdded(h, 0x0F0F0F0F)
  }

  predicate Digits(pairs: nat, nibbles: nat, bytes: nat) {
    15 < pairs < 17 && pairs == 2 * nibbles && nibbles == 2 * bytes
  }

  lemma Masks(pairs: nat, nibbles: nat, bytes: nat)
    requires Digits(pairs, nibbles, bytes)
    ensures Mask1(pairs) == 0x55555555 && Mask2(nibbles) == 0x33333333 && Mask4(bytes) == 0x0F0F0F0F
  {
    assert Mask1(2) == 0x5;
    assert Mask1(4) == 0x55;
    assert Mask1(6) == 0x555;
    assert Mask1(8) == 0x5555;
    assert Mask1(10) == 0x55555;
    assert Mask1(12) == 0x555555;
    assert Mask1(14) == 0x5555555;
    assert Mask2(2) == 0x33;
    assert Mask2(4) == 0x3333;
    assert Mask2(6) == 0x333333;
    assert Mask4(2) == 0x0F0F;
  }

  lemma PairStage(x: nat, pairs: nat)
    requires x < WORD32 && 2 * pairs == 32 && Mask1(pairs) == 0x55555555
    ensures PairSums(x) == Pairs(x, pairs)
  {
    Pow2Of32();
    PairsCounted(x, pairs, 32);
  }

  lemma NibbleStage(x: nat, nibbles: nat)
    requires Mask2(nibbles) == 0x33333333
    ensures NibbleSums(Pairs(x, 2 * nibbles)) == Nibbles(x, nibbles)
  {
    NibblesCounted(x, nibbles);
  }

  lemma ByteStage(x: nat, bytes: nat)
    requires Mask4(bytes) == 0x0F0F0F0F
    ensures ByteSums(Nibbles(x, 2 * bytes)) == Bytes(x, bytes)
  {
    BytesCounted(x, bytes, 2 * bytes);
  }

  /** Side by side, the sums count the ones of the bytes. */
  lemma Summed(x: nat, pairs: nat, nibbles: nat, bytes: nat)
    requires x < WORD32 && Digits(pairs, nibbles, bytes)
    ensures PairSums(x) >= 0 && ByteSums(NibbleSums(PairSums(x))) == Bytes(x, bytes)
  {
    Masks(pairs, nibbles, bytes);
    PairStage(x, pairs);
    NibbleStage(x, nibbles);
    ByteStage(x, bytes);
  }

  lemma BytesAre(x: nat, x1: nat, x2: nat, x3: nat, bytes: nat)
    requires x1 == x / 256 && x2 == x1 / 256 && x3 == x2 / 256 && 3 < bytes < 5
    ensures Bytes(x, bytes) == Ones(x, 8) + 256 * (Ones(x1, 8) + 256 * (Ones(x2, 8) + 256 * Ones(x3, 8)))
  {
    assert Bytes(x3, bytes - 3) == Ones(x3, 8);
    assert Bytes(x2, bytes - 2) == 256 * Ones(x3, 8) + Ones(x2, 8);
    assert Bytes(x1, bytes - 1) == 256 * Bytes(x2, bytes - 2) + Ones(x1, 8);
  }

  /** The word-parallel sum counts the ones. */
  lemma ParallelCounts(x: nat, pairs: nat, nibbles: nat, bytes: nat)
    requires x < WORD32 && Digits(pairs, nibbles, bytes)
    ensures PairSums(x) >= 0 && ByteSums(NibbleSums(PairSums(x))) * 0x01010101 % WORD32 / 0x100_0000 == Ones(x, 32)
  {
    var x1 := x / 256;
    var x2 := x1 / 256;
    var x3 := x2 / 256;
    Summed(x, pairs, nibbles, bytes);
    Added(ByteSums(NibbleSums(PairSums(x))), x, x1, x2, x3, bytes);
  }

  lemma Added(y: nat, x: nat, x1: nat, x2: nat, x3: nat, bytes: nat)
    requires x1 == x / 256 && x2 == x1 / 256 && x3 == x2 / 256 && 3 < bytes < 5 && y == Bytes(x, bytes)
    ensures y * 0x01010101 % WORD32 / 0x100_0000 == Ones(x, 32)
  {
    BytesAre(x, x1, x2, x3, bytes);
    BytesAddUp(Ones(x, 8), Ones(x1, 8), Ones(x2, 8), Ones(x3, 8));
    FourBytes(x);
  }

  lemma FourBytes(x: nat)
    ensures Ones(x, 32) == Ones(x, 8) + Ones(x / 256, 8) + Ones(x / 256 / 256, 8) + Ones(x / 256 / 256 / 256, 8)
  {
    OnesSplit(x, 8, 24);
    ByteShift(x);
    OnesSplit(x / 256, 8, 16);
    ByteShift(x / 256);
    OnesSplit(x / 256 / 256, 8, 8);
    ByteShift(x / 256 / 256);
  }

  // ---------- the distance ----------

  lemma {:induction false} XorBits(a: nat, b: nat, j: nat)
    ensures Bit(Xor(a, b), j) == (Bit(a, j) != Bit(b, j))
    decreases j
  {
    XorHalves(a, b);
    HalfIs(Xor(a, b), Xor(a / 2, b / 2), if a % 2 != b % 2 then 1 else 0);
    if j > 0 { XorBits(a / 2, b / 2, j - 1); }
  }

  lemma {:induction false} XorFits(a: nat, b: nat, n: nat)
    requires a < Pow2(n) && b < Pow2(n)
    ensures Xor(a, b) < Pow2(n)
    decreases n
  {
    XorHalves(a, b);
    if n > 0 { XorFits(a / 2, b / 2, n - 1); } else { XorNothing(0); }
  }

  /** The ones of the exclusive or are the positions where the bits differ. */
  lemma {:induction false} XorCountsDistance(a: nat, b: nat, n: nat)
    ensures Ones(Xor(a, b), n) == Distance(LowBitsOf(a, n), LowBitsOf(b, n))
  {
    if n > 0 {
      XorCountsDistance(a, b, n - 1);
      XorBits(a, b, n - 1);
      assert LowBitsOf(a, n)[..n - 1] == LowBitsOf(a, n - 1) && LowBitsOf(b, n)[..n - 1] == LowBitsOf(b, n - 1);
    }
  }

  /** Behind the size there are no ones. */
  lemma {:induction false} NoOnesBehind(x: nat, size: nat, n: nat)
    requires x < Pow2(size) && size <= n
    ensures Ones(x, n) == Ones(x, size)
    decreases n
  {
    if size < n {
      NoOnesBehind(x, size, n - 1);
      NotBehind(x, size, n - 1);
    }
  }

  lemma NotBehind(x: nat, size: nat, j: nat)
    requires x < Pow2(size) && size <= j
    ensures !Bit(x, j)
  {
    QuotientIs(x, Pow2(size), 0, x);
    LowBits(x, size, j);
  }

  lemma {:induction false} DecimalOfLowBits(x: nat, n: nat)
    requires x < Pow2(n)
    ensures Decimal(LowBitsOf(x, n)) == x
    decreases n
  {
    if n > 0 {
      DecimalOfLowBits(x / 2, n - 1);
      assert LowBitsOf(x, n)[1..] == LowBitsOf(x / 2, n - 1);
    }
  }

  lemma {:induction false} DecimalFits(bits: seq<bool>)
    ensures Decimal(bits) < Pow2(|bits|)
  {
    if bits != [] { DecimalFits(bits[1..]); }
  }

  lemma DecimalFitsWord(bits: seq<bool>)
    requires |bits| <= 32
    ensures Decimal(bits) % WORD32 == Decimal(bits)
  {
    DecimalFits(bits);
    WordFits(|bits|);
  }

  /** A vector of a given size stands for the number it is made from exactly if the number fits the size. */
  lemma SizedIsNumberIff(number: nat, size: nat)
    ensures Decimal(LowBitsOf(number, size)) == number <==> number < Pow2(size)
  {
    DecimalFits(LowBitsOf(number, size));
    if number < Pow2(size) { DecimalOfLowBits(number, size); }
  }

  /** A vector without bits and a vector of one zero are the same number but not the same vector. */
  lemma ZerosDiffer()
    ensures LowBitsOf(0, 0) != LowBitsOf(0, 1) && Decimal(LowBitsOf(0, 0)) == Decimal(LowBitsOf(0, 1)) == 0
  {
    DecimalOfLowBits(0, 0);
    DecimalOfLowBits(0, 1);
    assert |LowBitsOf(0, 0)| != |LowBitsOf(0, 1)|;
  }

  // ---------- single bits ----------

  lemma WordFits(size: nat)
    requires size <= 32
    ensures Pow2(size) <= WORD32 && (size < 32 ==> 2 * Pow2(size) <= WORD32)
  {
    Pow2Of32();
    if size < 32 { Pow2Grows(size, 32); }
  }

  lemma BitPut(x: nat, size: nat, pos: nat, value: bool)
    requires x < Pow2(size) && size <= 32 && pos < 32
    ensures Pow2(pos) < WORD32
    ensures var n := if pos < size then size else pos + 1;
            var y := if value then Or(x, Pow2(pos)) else And(x, WORD32 - 1 - Pow2(pos));
            y < Pow2(n) && LowBitsOf(y, n) == With(LowBitsOf(x, size), pos, value)
  {
    WordFits(pos);
    var n := if pos < size then size else pos + 1;
    var y := if value then Or(x, Pow2(pos)) else And(x, WORD32 - 1 - Pow2(pos));
    if size < n { Pow2Grows(size, n); }
    if pos < n { Pow2Grows(pos, n); }
    if value { OrFits(x, Pow2(pos), n); } else { AndFits(x, WORD32 - 1 - Pow2(pos)); }
    var more := With(LowBitsOf(x, size), pos, value);
    forall j | 0 <= j < n ensures LowBitsOf(y, n)[j] == more[j] {
      PutBit(x, pos, value, j);
      if j >= size { NotBehind(x, size, j); }
    }
  }

  lemma PutBit(x: nat, pos: nat, value: bool, j: nat)
    requires pos < 32 && j < 32
    ensures Pow2(pos) < WORD32
    ensures Bit(if value then Or(x, Pow2(pos)) else And(x, WORD32 - 1 - Pow2(pos)), j) ==
            if j == pos then value else Bit(x, j)
  {
    Pow2Of32();
    NotBits(32, pos, j);
    PowBits(pos, j);
    OrBits(x, Pow2(pos), j);
    AndBits(x, WORD32 - 1 - Pow2(pos), j);
  }

  lemma BitToggled(x: nat, size: nat, pos: nat)
    requires x < Pow2(size) && pos < size
    ensures var y := Xor(x, Pow2(pos)); y < Pow2(size) && LowBitsOf(y, size) == LowBitsOf(x, size)[pos := !Bit(x, pos)]
  {
    Pow2Grows(pos, size);
    XorFits(x, Pow2(pos), size);
    var y := Xor(x, Pow2(pos));
    forall j | 0 <= j < size ensures Bit(y, j) == if j == pos then !Bit(x, pos) else Bit(x, j) {
      XorBits(x, Pow2(pos), j);
      PowBits(pos, j);
    }
  }

  class ShortBitVector {
    var bits: nat
    var size: nat

    ghost function Contents(): seq<bool>
      reads this
    {
      LowBitsOf(bits, size)
    }

    /** No bit is set at or behind the size. */
    ghost predicate Valid()
      reads this
    {
      size <= 32 && bits < Pow2(size)
    }

    constructor ()
      ensures Valid() && Contents() == []
    {
      bits := 0;
      size := 0;
    }

    /**
     Of a given number and size; sizes that do not fit the word are an error. Bits behind the size are not cleared.
     */
    static method WithSize(number: nat, size: nat) returns (r: ShortBitVector?)
      requires number < WORD32
      ensures r == null <==> size > 32
      ensures r != null ==> fresh(r) && r.bits == number && r.size == size
      ensures r != null ==> (r.Valid() <==> Decimal(r.Contents()) == number)
    {
      if size > 32 { return null; }
      SizedIsNumberIff(number, size);
      r := new ShortBitVector();
      r.size := size;
      r.bits := number;
    }

    /** Out of range of the word is an error. */
    method SetBit(pos: nat, value: bool) returns (ok: bool)
      requires Valid()
      modifies this
      ensures Valid() && (ok <==> pos < 32)
      ensures Contents() == if ok then With(old(Contents()), pos, value) else old(Contents())
      ensures ok ==> size == if pos < old(size) then old(size) else pos + 1
      ensures ok ==> forall i :: 0 <= i < size ==>
        Contents()[i] == if i == pos then value else i < old(size) && old(Contents())[i]
    {
      if pos >= 32 { return false; }
      BitPut(bits, size, pos, value);
      if pos + 1 > size { size := pos + 1; }
      bits := if value then Or(bits, Pow2(pos)) else And(bits, WORD32 - 1 - Pow2(pos));
      return true;
    }

    method GetBit(pos: nat) returns (r: Option<bool>)
      requires Valid()
      ensures r == if pos < size then Some(Contents()[pos]) else None
    {
      if pos >= size { return None; }
      AndBit(bits, pos);
      return Some(And(bits, Pow2(pos)) != 0);
    }

    /** Changes a bit; out of range is an error. */
    method ToggleBit(pos: nat) returns (ok: bool)
      requires Valid()
      modifies this
      ensures Valid() && (ok <==> pos < old(size))
      ensures Contents() == if ok then old(Contents())[pos := !old(Contents())[pos]] else old(Contents())
    {
      if pos >= size { return false; }
      BitToggled(bits, size, pos);
      bits := Xor(bits, Pow2(pos));
      return true;
    }

    /** A vector that fills the word takes no more bits. */
    method AppendBit(value: bool) returns (ok: bool)
      requires Valid()
      modifies this
      ensures Valid() && (ok <==> old(size) < 32)
      ensures Contents() == if ok then old(Contents()) + [value] else old(Contents())
    {
      ok := SetBit(size, value);
    }

    /** The number with these digits the other way round. */
    method ReverseToDecimal() returns (dec: nat)
      requires Valid()
      ensures dec == Decimal(Reversed(Contents()))
    {
      dec := 0;
      var powerOfTwo := 1;
      var i := size;
      ghost var reversed := Reversed(Contents());
      while i > 0
        invariant 0 <= i <= size
        invariant dec == Decimal(reversed[..size - i]) % WORD32 && powerOfTwo == Pow2(size - i) % WORD32
      {
        i := i - 1;
        var bit := GetBit(i);
        DigitAdded(reversed, size - i - 1, dec, powerOfTwo);
        if bit.value { dec := (dec + powerOfTwo) % WORD32; }
        powerOfTwo := powerOfTwo * 2 % WORD32;
      }
      assert reversed[..size] == reversed;
      DecimalFitsWord(reversed);
    }

    method ToDecimal() returns (dec: nat)
      requires Valid()
      ensures dec == Decimal(Contents())
    {
      DecimalOfLowBits(bits, size);
      return bits;
    }

    /** The word-parallel distance is the number of positions where the vectors differ. */
    method ComputeHammingDistance(u: ShortBitVector) returns (r: Option<nat>)
      requires Valid() && u.Valid()
      ensures r == if size == u.size then Some(Distance(Contents(), u.Contents())) else None
    {
      if size != u.size { return None; }
      WordFits(size);
      XorFits(bits, u.bits, size);
      var x := Xor(bits, u.bits);
      ParallelCounts(x, 16, 8, 4);
      NoOnesBehind(x, size, 32);
      XorCountsDistance(bits, u.bits, size);
      var hammingDistance := PairSums(x);
      hammingDistance := NibbleSums(hammingDistance);
      return Some(ByteSums(hammingDistance) * 0x01010101 % WORD32 / 0x100_0000);
    }

    /** Sizes are not compared: a vector equals the same one followed by zeros. */
    method Equals(rhs: ShortBitVector) returns (b: bool)
      requires Valid() && rhs.Valid()
      ensures b <==> Decimal(Contents()) == Decimal(rhs.Contents())
      ensures (b <==> Contents() == rhs.Contents()) <==>
          size == rhs.size || Decimal(Contents()) != Decimal(rhs.Contents())
    {
      DecimalOfLowBits(bits, size);
      DecimalOfLowBits(rhs.bits, rhs.size);
      return rhs.bits == bits;
    }
  }

  /** Both kinds of vector have the same distance for the same bits. */
  method DistancesAgree(a: ShortBitVector, b: ShortBitVector, c: BitVector, d: BitVector)
    returns (short: Option<nat>, long: Option<nat>)
    requires a.Valid() && b.Valid() && c.Valid() && d.Valid() && a.Contents() == c.contents &&
        b.Contents() == d.contents
    ensures short == long
  {
    short := a.ComputeHammingDistance(b);
    long := c.ComputeHammingDistance(d);
  }
}
