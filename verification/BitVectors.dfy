/** Bit vectors: packed into bytes, or into one 32-bit word with a word-parallel Hamming distance. */
module BitVectors {
  import opened MachineWords
  import opened BitSequences
  import opened Options

  // ---------- sequences of bits, least significant first ----------

  const WORD32: int := 0x1_0000_0000

  function Decimal(bits: seq<bool>): nat {
    if bits == [] then 0 else Bit01(bits[0]) + 2 * Decimal(bits[1..])
  }

  function Reversed(bits: seq<bool>): (r: seq<bool>)
    ensures |r| == |bits| && forall i :: 0 <= i < |r| ==> r[i] == bits[|bits| - 1 - i]
  {
    seq(|bits|, i requires 0 <= i < |bits| => bits[|bits| - 1 - i])
  }

  lemma {:induction false} DecimalOneMore(bits: seq<bool>, bit: bool)
    ensures Decimal(bits + [bit]) == Decimal(bits) + Bit01(bit) * Pow2(|bits|)
    decreases |bits|
  {
    if bits == [] {
      assert [bit][1..] == [];
    } else {
      DecimalOneMore(bits[1..], bit);
      assert (bits + [bit])[1..] == bits[1..] + [bit];
      assert 2 * (Bit01(bit) * Pow2(|bits| - 1)) == Bit01(bit) * Pow2(|bits|);
    }
  }

  /** The positions where two vectors of the same size differ. */
  function Distance(u: seq<bool>, v: seq<bool>): nat
    requires |u| == |v|
  {
    if u == [] then 0 else Distance(u[..|u| - 1], v[..|v| - 1]) + Bit01(u[|u| - 1] != v[|v| - 1])
  }

  lemma {:induction false} Triangle(u: seq<bool>, v: seq<bool>, w: seq<bool>)
    requires |u| == |v| == |w|
    ensures Distance(u, w) <= Distance(u, v) + Distance(v, w)
    ensures Distance(u, v) == Distance(v, u) && (Distance(u, v) == 0 <==> u == v)
  {
    if u != [] {
      var n := |u| - 1;
      Triangle(u[..n], v[..n], w[..n]);
      if u[..n] == v[..n] && u[n] == v[n] { assert u == u[..n] + [u[n]] && v == v[..n] + [v[n]]; }
    }
  }

  // ---------- packed into bytes ----------

  /** Bit i is bit i modulo 8 of byte i / 8; stored bits behind the size are not set. */
  ghost predicate Holds(bytes: seq<Byte>, bits: seq<bool>) {
    && |bits| <= 8 * |bytes|
    && forall i {:trigger LowFirst(bytes, i)} :: 0 <= i < 8 * |bytes| ==> LowFirst(bytes, i) == (i < |bits| && bits[i])
  }

  predicate LowFirst(bytes: seq<Byte>, i: nat)
    requires i < 8 * |bytes|
  {
    Bit(bytes[i / 8], i % 8)
  }

  /** The bits with the one at pos set, filled up with zeros if there are fewer. */
  function With(bits: seq<bool>, pos: nat, value: bool): seq<bool> {
    if pos < |bits| then bits[pos := value] else bits + seq(pos - |bits|, _ => false) + [value]
  }

  function ByteWith(byte: Byte, k: nat, value: bool): Byte
    requires k < 8
  {
    if value then OrByte(byte, Mask(k)) else AndByte(byte, 255 - Mask(k))
  }

  lemma ByteWithBit(byte: Byte, k: nat, value: bool, j: nat)
    requires k < 8 && j < 8
    ensures Bit(ByteWith(byte, k, value), j) == if j == k then value else Bit(byte, j)
  {
    PowBits(k, j);
    if value {
      OrBits(byte, Pow2(k), j);
    } else {
      AndBits(byte, 255 - Mask(k), j);
      NotBits(8, k, j);
    }
  }

  /** All n bits but bit k. */
  lemma {:induction false} NotBits(n: nat, k: nat, j: nat)
    requires k < n && j < n
    ensures Pow2(k) < Pow2(n) && (Bit(Pow2(n) - 1 - Pow2(k), j) <==> j != k)
    decreases n
  {
    Pow2Grows(k, n);
    if k == 0 {
      HalfIs(Pow2(n) - 2, Pow2(n - 1) - 1, 0);
      if j > 0 { OnesBits(n - 1, j - 1); }
    } else {
      Pow2Grows(k - 1, n - 1);
      HalfIs(Pow2(n) - 1 - Pow2(k), Pow2(n - 1) - 1 - Pow2(k - 1), 1);
      if j > 0 { NotBits(n - 1, k - 1, j - 1); }
    }
  }

  function Xor(a: nat, b: nat): nat {
    if a == 0 then b else if b == 0 then a else 2 * Xor(a / 2, b / 2) + if a % 2 != b % 2 then 1 else 0
  }

  lemma {:induction false} XorNothing(a: nat)
    ensures Xor(a, 0) == a == Xor(0, a)
  {
  }

  lemma XorHalves(a: nat, b: nat)
    ensures Xor(a, b) == 2 * Xor(a / 2, b / 2) + if a % 2 != b % 2 then 1 else 0
  {
  }

  lemma {:induction false} XorBit(a: nat, k: nat)
    ensures Xor(a, Pow2(k)) == if Bit(a, k) then a - Pow2(k) else a + Pow2(k)
    decreases k
  {
    XorHalves(a, Pow2(k));
    if k > 0 { XorBit(a / 2, k - 1); } else { XorNothing(a / 2); }
  }

  /** Toggling a bit is storing its opposite. */
  lemma XorStores(byte: Byte, k: nat)
    requires k < 8
    ensures Xor(byte, Mask(k)) == ByteWith(byte, k, !Bit(byte, k))
  {
    assert Pow2(8) == 256;
    XorBit(byte, k);
    OrBit(byte, k);
    AndNotBit(byte, k, 8);
  }

  /** The lowest digit of a number taken off, at the place p. */
  lemma NextDigit(n: nat, p: nat)
    ensures Bit01(n % 2 == 1) * p + n / 2 * (2 * p) == n * p
  {
    var h, r := n / 2, n % 2;
    assert (2 * h + r) * p == h * (2 * p) + r * p;
  }

  lemma MoreZeros(bytes: seq<Byte>, bits: seq<bool>)
    requires Holds(bytes, bits)
    ensures Holds(bytes + [0], bits)
  {
    forall i | 0 <= i < 8 * |bytes| + 8 ensures LowFirst(bytes + [0], i) == (i < |bits| && bits[i]) {
      if i < 8 * |bytes| { assert LowFirst(bytes, i) == (i < |bits| && bits[i]); } else { BitOfZero(i % 8); }
    }
  }

  lemma BitStored(bytes: seq<Byte>, bits: seq<bool>, pos: nat, value: bool)
    requires Holds(bytes, bits) && pos < 8 * |bytes|
    ensures Holds(bytes[pos / 8 := ByteWith(bytes[pos / 8], pos % 8, value)], With(bits, pos, value))
  {
    var stored, more := bytes[pos / 8 := ByteWith(bytes[pos / 8], pos % 8, value)], With(bits, pos, value);
    forall i | 0 <= i < 8 * |bytes| ensures LowFirst(stored, i) == (i < |more| && more[i]) {
      assert LowFirst(bytes, i) == (i < |bits| && bits[i]);
      ByteWithBit(bytes[pos / 8], pos % 8, value, i % 8);
    }
  }

  /** One more digit, at the place whose value is p. */
  lemma DigitAdded(bits: seq<bool>, k: nat, dec: nat, powerOfTwo: nat)
    requires k < |bits| && dec == Decimal(bits[..k]) % WORD32 && powerOfTwo == Pow2(k) % WORD32
    ensures (if bits[k] then (dec + powerOfTwo) % WORD32 else dec) == Decimal(bits[..k + 1]) % WORD32
    ensures powerOfTwo * 2 % WORD32 == Pow2(k + 1) % WORD32
  {
    DecimalOneMore(bits[..k], bits[k]);
    assert bits[..k + 1] == bits[..k] + [bits[k]];
    AddModular(Decimal(bits[..k]), Pow2(k));
  }

  lemma AddModular(a: nat, p: nat)
    ensures (a % WORD32 + p % WORD32) % WORD32 == (a + p) % WORD32 && p % WORD32 * 2 % WORD32 == 2 * p % WORD32
  {
  }

  class BitVector {
    var bytes: seq<Byte>
    var size: nat
    ghost var contents: seq<bool>

    ghost predicate Valid()
      reads this
    {
      size == |contents| && Holds(bytes, contents)
    }

    constructor ()
      ensures Valid() && contents == []
    {
      size := 0;
      bytes := [0];
      contents := [];
      new;
      MoreZeros([], []);
      assert [] + [0 as Byte] == bytes;
    }

    /** The binary digits of a number; one zero for zero. */
    constructor FromNumber(number: nat)
      requires number < WORD32
      ensures Valid() && Decimal(contents) == number
      ensures number == 0 ==> contents == [false]
      ensures number > 0 ==> contents != [] && contents[|contents| - 1]
    {
      size := 0;
      bytes := [];
      contents := [];
      new;
      if number == 0 { AppendBit(false); }
      var bits: nat := number;
      while bits > 0
        invariant bits >= 0 && Valid() && Decimal(contents) + bits * Pow2(|contents|) == number
        invariant number == 0 ==> contents == [false] && bits == 0
        invariant number > 0 && bits == 0 ==> contents != [] && contents[|contents| - 1]
        decreases bits
      {
        DecimalOneMore(contents, bits % 2 == 1);
        NextDigit(bits, Pow2(|contents|));
        AppendBit(bits % 2 == 1);
        bits := bits / 2;
      }
    }

    constructor Copy(other: BitVector)
      requires other.Valid()
      ensures Valid() && contents == other.contents
    {
      size := 0;
      bytes := [];
      contents := [];
      new;
      for i := 0 to other.size
        invariant Valid() && contents == other.contents[..i]
      {
        var bit := other.GetBit(i);
        AppendBit(bit.value);
      }
    }

    method SetBit(pos: nat, value: bool)
      requires Valid()
      modifies this
      ensures Valid() && contents == With(old(contents), pos, value)
      ensures |contents| == if pos < old(size) then old(size) else pos + 1
      ensures forall i :: 0 <= i < |contents| ==>
        contents[i] == if i == pos then value else i < |old(contents)| && old(contents)[i]
    {
      while 8 * |bytes| <= pos
        invariant Valid() && contents == old(contents)
        decreases pos - 8 * |bytes|
      {
        MoreZeros(bytes, contents);
        bytes := bytes + [0];
      }
      if pos + 1 > size { size := pos + 1; }
      BitStored(bytes, contents, pos, value);
      bytes := bytes[pos / 8 := ByteWith(bytes[pos / 8], pos % 8, value)];
      contents := With(contents, pos, value);
    }

    method GetBit(pos: nat) returns (r: Option<bool>)
      requires Valid()
      ensures r == if pos < size then Some(contents[pos]) else None
    {
      if pos >= size { return None; }
      AndBit(bytes[pos / 8], pos % 8);
      assert LowFirst(bytes, pos) == contents[pos];
      return Some(And(bytes[pos / 8], Mask(pos % 8)) != 0);
    }

    /** Changes a bit; out of range is an error. */
    method ToggleBit(pos: nat) returns (ok: bool)
      requires Valid()
      modifies this
      ensures Valid() && (ok <==> pos < old(size))
      ensures contents == if ok then old(contents)[pos := !old(contents)[pos]] else old(contents)
    {
      if pos >= size { return false; }
      assert LowFirst(bytes, pos) == contents[pos];
      XorStores(bytes[pos / 8], pos % 8);
      BitStored(bytes, contents, pos, !contents[pos]);
      bytes := bytes[pos / 8 := Xor(bytes[pos / 8], Mask(pos % 8))];
      contents := contents[pos := !contents[pos]];
      return true;
    }

    method AppendBit(value: bool)
      requires Valid()
      modifies this
      ensures Valid() && contents == old(contents) + [value]
    {
      assert With(contents, size, value) == contents + [value];
      SetBit(size, value);
    }

    method AppendBits(value: bool, n: nat)
      requires Valid()
      modifies this
      ensures Valid() && contents == old(contents) + seq(n, _ => value)
    {
      var i := n;
      while i > 0
        invariant 0 <= i <= n && Valid() && contents == old(contents) + seq(n - i, _ => value)
      {
        AppendBit(value);
        i := i - 1;
        assert seq(n - i - 1, _ => value) + [value] == seq(n - i, _ => value);
      }
    }

    /** The number with these binary digits, as far as 32 bits hold it. */
    method ToDecimal() returns (dec: nat)
      requires Valid()
      ensures dec == Decimal(contents) % WORD32
    {
      dec := 0;
      var powerOfTwo := 1;
      for i := 0 to size
        invariant dec == Decimal(contents[..i]) % WORD32 && powerOfTwo == Pow2(i) % WORD32
      {
        var bit := GetBit(i);
        DigitAdded(contents, i, dec, powerOfTwo);
        if bit.value { dec := (dec + powerOfTwo) % WORD32; }
        powerOfTwo := powerOfTwo * 2 % WORD32;
      }
      assert contents[..size] == contents;
    }

    /** The number with these digits the other way round. */
    method ReverseToDecimal() returns (dec: nat)
      requires Valid()
      ensures dec == Decimal(Reversed(contents)) % WORD32
    {
      dec := 0;
      var powerOfTwo := 1;
      var i := size;
      ghost var reversed := Reversed(contents);
      while i > 0
        invariant 0 <= i <= size
        invariant dec == Decimal(reversed[..size - i]) % WORD32 && powerOfTwo == Pow2(size - i) % WORD32
      {
        i := i - 1;
        var bit := GetBit(i);
        DigitAdded(reversed, size - i - 1, dec, powerOfTwo);
        if bit.value { dec := (dec + powerOfTwo) % WORD32; }
        powerOfTwo := powerOfTwo * 2 % WORD32;
      }
      assert reversed[..size] == reversed;
    }

    /** Vectors of different sizes have no distance. */
    method ComputeHammingDistance(u: BitVector) returns (r: Option<nat>)
      requires Valid() && u.Valid()
      ensures r == if size == u.size then Some(Distance(contents, u.contents)) else None
    {
      if size != u.size { return None; }
      var hammingDistance := 0;
      for i := 0 to size
        invariant hammingDistance == Distance(contents[..i], u.contents[..i])
      {
        var mine := GetBit(i);
        var other := u.GetBit(i);
        if other != mine { hammingDistance := hammingDistance + 1; }
        assert contents[..i + 1][..i] == contents[..i] && u.contents[..i + 1][..i] == u.contents[..i];
      }
      assert contents[..size] == contents && u.contents[..size] == u.contents;
      return Some(hammingDistance);
    }

    method Equals(rhs: BitVector) returns (b: bool)
      requires Valid() && rhs.Valid()
      ensures b <==> contents == rhs.contents
    {
      if rhs.size != size { return false; }
      for i := 0 to size
        invariant contents[..i] == rhs.contents[..i]
      {
        var mine := GetBit(i);
        var other := rhs.GetBit(i);
        if mine != other { return false; }
      }
      assert contents[..size] == contents && rhs.contents[..size] == rhs.contents;
      return true;
    }
  }
}
