/** 64-bit machine words as bounded integers, with the bitwise operators written out. */
module MachineWords {

  const BASE: int := 0x1_0000_0000_0000_0000

  type Word = x: int | 0 <= x < BASE
  type Half = x: int | -0x8000_0000_0000_0000 <= x < 0x8000_0000_0000_0000

  function Pow2(n: nat): (p: nat)
    ensures p >= 1
  {
    if n == 0 then 1 else 2 * Pow2(n - 1)
  }

  /** The word with the same bits. */
  function Unsigned(h: Half): (w: Word)
    ensures w == h || w == h + BASE
  {
    if h < 0 then h + BASE else h
  }

  /** The signed half with the lowest 64 bits of n. */
  function Signed(n: int): Half {
    var m := n % BASE;
    if m >= 0x8000_0000_0000_0000 then m - BASE else m
  }

  function Not(w: Word): Word {
    BASE - 1 - w
  }

  function And(a: nat, b: nat): nat {
    if a == 0 || b == 0 then 0 else 2 * And(a / 2, b / 2) + if a % 2 == 1 && b % 2 == 1 then 1 else 0
  }

  function Or(a: nat, b: nat): nat {
    if a == 0 then b else if b == 0 then a else 2 * Or(a / 2, b / 2) + if a % 2 == 1 || b % 2 == 1 then 1 else 0
  }

  // ---------- powers of two ----------

  lemma {:induction false} Pow2Adds(m: nat, n: nat)
    ensures Pow2(m + n) == Pow2(m) * Pow2(n)
  {
    if m > 0 {
      Pow2Adds(m - 1, n);
      assert Pow2(m) * Pow2(n) == 2 * (Pow2(m - 1) * Pow2(n));
    }
  }

  lemma Pow2Of64()
    ensures Pow2(64) == BASE && Pow2(63) == 0x8000_0000_0000_0000
  {
    Pow2Adds(1, 1);
    Pow2Adds(2, 2);
    Pow2Adds(4, 4);
    Pow2Adds(8, 8);
    Pow2Adds(16, 16);
    Pow2Adds(32, 32);
    assert Pow2(64) == 2 * Pow2(63);
  }

  lemma Pow2Splits(n: nat)
    requires n <= 64
    ensures Pow2(n) * Pow2(64 - n) == BASE
    ensures Pow2(n) <= BASE
  {
    Pow2Of64();
    Pow2Adds(n, 64 - n);
    assert Pow2(n) * Pow2(64 - n) >= Pow2(n) * 1;
  }

  lemma Pow2Within(n: nat)
    requires n <= 64
    ensures Pow2(n) <= BASE
  {
    Pow2Splits(n);
  }

  lemma {:induction false} Pow2Grows(m: nat, n: nat)
    requires m < n
    ensures 2 * Pow2(m) <= Pow2(n)
  {
    if m < n - 1 { Pow2Grows(m, n - 1); }
  }

  // ---------- shifts ----------

  function Shr(v: nat, n: nat): (r: nat)
    ensures r <= v
    decreases n
  {
    if n == 0 then v else Shr(v / 2, n - 1)
  }

  function Shl(v: nat, n: nat): nat {
    if n == 0 then v else 2 * Shl(v, n - 1)
  }

  lemma {:induction false} ShiftLeftTimes(v: nat, n: nat)
    ensures Shl(v, n) == v * Pow2(n)
  {
    if n > 0 { ShiftLeftTimes(v, n - 1); assert v * Pow2(n) == 2 * (v * Pow2(n - 1)); }
  }

  lemma {:induction false} ShiftRightQuotient(v: nat, n: nat)
    ensures Shr(v, n) == v / Pow2(n)
    decreases n
  {
    if n > 0 {
      ShiftRightQuotient(v / 2, n - 1);
      HalfFirst(v, Pow2(n - 1));
    }
  }

  /** Shifting one bit less. */
  lemma {:induction false} ShiftOneLess(v: nat, n: nat)
    requires n > 0
    ensures Shr(v, n - 1) == 2 * Shr(v, n) + (if Bit(v, n - 1) then 1 else 0)
    decreases n
  {
    if n > 1 { ShiftOneLess(v / 2, n - 1); }
  }

  lemma {:induction false} ShiftLeftOneLess(v: nat, n: nat)
    requires n > 0
    ensures Shl(v, n) == Shl(2 * v, n - 1)
  {
    if n > 1 { ShiftLeftOneLess(v, n - 1); }
  }

  lemma {:induction false} ShiftLeftNothing(n: nat)
    ensures Shl(0, n) == 0
  {
    if n > 0 { ShiftLeftNothing(n - 1); }
  }

  lemma {:induction false} ShiftLeftOneMore(v: nat, n: nat)
    ensures Shl(v + 1, n) == Shl(v, n) + Pow2(n)
  {
    if n > 0 { ShiftLeftOneMore(v, n - 1); }
  }

  /** The bits shifted in are clear. */
  lemma {:induction false} ShiftedUp(a: nat, s: nat, j: nat)
    ensures Bit(Shl(a, s), j) == (j >= s && Bit(a, j - s))
    decreases s
  {
    if s > 0 { ShiftedUp(a, s - 1, if j > 0 then j - 1 else 0); }
  }

  // ---------- bitwise operators as arithmetic ----------

  lemma MulAssociates(a: int, b: int, c: int)
    ensures a * b * c == a * (b * c)
  {
  }

  lemma MulSame(a: int, b: int, c: int)
    requires b == c
    ensures a * b == a * c
  {
  }

  lemma MulDistributes(a: int, b: int, c: int)
    ensures (a + b) * c == a * c + b * c
  {
  }

  lemma DivMod(a: int, p: int)
    requires p > 0
    ensures a == a / p * p + a % p && 0 <= a % p < p
  {
  }

  lemma MulGrows(a: int, b: int, p: int)
    requires a >= b && p >= 0
    ensures a * p >= b * p
  {
  }

  lemma NoSmallMultiple(d: int, p: int)
    requires -p < d * p < p
    ensures d == 0
  {
    if d >= 1 { MulGrows(d, 1, p); }
    if d <= -1 { MulGrows(-d, 1, p); }
  }

  lemma QuotientIs(a: int, p: int, q: int, r: int)
    requires p > 0 && a == q * p + r && 0 <= r < p
    ensures a / p == q && a % p == r
  {
    var d := a / p - q;
    assert d * p == a / p * p - q * p;
    NoSmallMultiple(d, p);
  }

  lemma QuotientPlus(a: int, p: int, more: int)
    requires p > 0
    ensures (a + more * p) / p == a / p + more
  {
    DivMod(a, p);
    MulDistributes(a / p, more, p);
    QuotientIs(a + more * p, p, a / p + more, a % p);
  }

  lemma QuotientWithin(h: int, p: nat)
    requires p > 0
    ensures 0 <= h ==> 0 <= h / p <= h
    ensures h < 0 ==> h <= h / p < 0
  {
    var k := h / p;
    assert (k + 1) * p == k * p + p;
    if k >= 0 { MulGrows(p, 1, k); } else { MulGrows(p, 1, -1 - k); assert p * (-1 - k) == -((k + 1) * p); }
  }

  /** Dividing by an even number, halving first. */
  lemma HalfFirst(a: int, p: int)
    requires p > 0
    ensures a / (2 * p) == a / 2 / p
    ensures a % (2 * p) == 2 * (a / 2 % p) + a % 2
  {
    var q, r := a / 2 / p, a / 2 % p;
    assert q * (2 * p) == 2 * (q * p);
    assert a / 2 == q * p + r;
    QuotientIs(a, 2 * p, q, 2 * r + a % 2);
  }

  lemma RestOfHalf(a: int, p: int)
    requires p > 0
    ensures a % (2 * p) == 2 * (a / 2 % p) + a % 2
  {
    HalfFirst(a, p);
  }

  lemma AndHalves(a: nat, b: nat)
    ensures And(a, b) == 2 * And(a / 2, b / 2) + if a % 2 == 1 && b % 2 == 1 then 1 else 0
  {
  }

  lemma OrHalves(a: nat, b: nat)
    ensures Or(a, b) == 2 * Or(a / 2, b / 2) + if a % 2 == 1 || b % 2 == 1 then 1 else 0
  {
  }

  lemma {:induction false} AndNothing(a: nat)
    ensures And(a, 0) == 0 == And(0, a) && Or(a, 0) == a == Or(0, a)
  {
  }

  lemma {:induction false} AndMask(a: nat, n: nat)
    ensures And(a, Pow2(n) - 1) == a % Pow2(n)
  {
    AndNothing(a);
    if n > 0 {
      AndMask(a / 2, n - 1);
      AndOdd(a, Pow2(n) - 1, Pow2(n - 1) - 1);
      RestOfHalf(a, Pow2(n - 1));
    }
  }

  lemma AndOdd(a: nat, m: nat, b: nat)
    requires m == 2 * b + 1
    ensures And(a, m) == 2 * And(a / 2, b) + a % 2
  {
    AndHalves(a, m);
    HalfIs(m, b, 1);
  }

  lemma AndEven(a: nat, m: nat, b: nat)
    requires m == 2 * b
    ensures And(a, m) == 2 * And(a / 2, b)
  {
    AndHalves(a, m);
    HalfIs(m, b, 0);
  }

  lemma HalfIs(m: int, b: int, r: int)
    requires m == 2 * b + r && 0 <= r < 2
    ensures m / 2 == b && m % 2 == r
  {
  }

  lemma AndAll(a: nat, w: nat)
    requires a < Pow2(w)
    ensures And(a, Pow2(w) - 1) == a
  {
    AndMask(a, w);
    QuotientIs(a, Pow2(w), 0, a);
  }

  /** Masking off the lowest n of w bits. */
  lemma {:induction false} AndHighMask(a: nat, n: nat, w: nat)
    requires n <= w && a < Pow2(w)
    ensures Pow2(n) <= Pow2(w) && And(a, Pow2(w) - Pow2(n)) == a - a % Pow2(n)
  {
    if n < w { Pow2Grows(n, w); }
    if n == 0 {
      AndAll(a, w);
    } else {
      AndHighMask(a / 2, n - 1, w - 1);
      AndEven(a, Pow2(w) - Pow2(n), Pow2(w - 1) - Pow2(n - 1));
      RestDropped(a, Pow2(n - 1));
    }
  }

  lemma RestDropped(a: nat, q: nat)
    requires q > 0
    ensures 2 * (a / 2 - a / 2 % q) == a - a % (2 * q)
  {
    HalfFirst(a, q);
    HalvesBack(a, a / 2 % q, a % (2 * q));
  }

  lemma HalvesBack(a: int, h: int, r: int)
    requires r == 2 * h + a % 2
    ensures 2 * (a / 2 - h) == a - r
  {
  }

  lemma Doubled(b: int, p: int)
    ensures b * (2 * p) == 2 * (b * p)
  {
  }

  lemma OrDoubled(a: nat, c: nat)
    requires Or(a / 2, c) == a / 2 + c == Or(c, a / 2)
    ensures Or(a, 2 * c) == a + 2 * c == Or(2 * c, a)
  {
    OrHalves(a, 2 * c);
    OrHalves(2 * c, a);
  }

  /** Numbers without a common bit are added. */
  lemma {:induction false} OrDisjoint(a: nat, b: nat, n: nat)
    requires a < Pow2(n)
    ensures b * Pow2(n) >= 0
    ensures Or(a, b * Pow2(n)) == a + b * Pow2(n) == Or(b * Pow2(n), a)
  {
    AndNothing(b);
    if n > 0 {
      OrDisjoint(a / 2, b, n - 1);
      Doubled(b, Pow2(n - 1));
      OrDoubled(a, b * Pow2(n - 1));
    }
  }

  /** Bit n of a, in two's complement. */
  predicate Bit(a: int, n: nat)
    decreases n
  {
    if n == 0 then a % 2 == 1 else Bit(a / 2, n - 1)
  }

  lemma {:induction false} BitIsQuotient(a: int, n: nat)
    ensures Bit(a, n) <==> a / Pow2(n) % 2 == 1
    decreases n
  {
    if n > 0 {
      BitIsQuotient(a / 2, n - 1);
      HalfFirst(a, Pow2(n - 1));
    }
  }

  lemma {:induction false} AndBit(a: nat, n: nat)
    ensures And(a, Pow2(n)) == if Bit(a, n) then Pow2(n) else 0
  {
    AndHalves(a, Pow2(n));
    if n > 0 {
      AndBit(a / 2, n - 1);
    } else {
      AndNothing(a / 2);
    }
  }

  lemma {:induction false} OrBit(a: nat, n: nat)
    ensures Or(a, Pow2(n)) == if Bit(a, n) then a else a + Pow2(n)
  {
    OrHalves(a, Pow2(n));
    if n > 0 {
      OrBit(a / 2, n - 1);
    } else {
      AndNothing(a / 2);
    }
  }

  lemma AndNotOne(a: nat, w: nat)
    requires w > 0 && a < Pow2(w)
    ensures And(a, Pow2(w) - 2) == a - a % 2
  {
    AndEven(a, Pow2(w) - 2, Pow2(w - 1) - 1);
    AndMask(a / 2, w - 1);
    QuotientIs(a / 2, Pow2(w - 1), 0, a / 2);
  }

  /** Clearing bit n of a number of w bits. */
  lemma {:induction false} AndNotBit(a: nat, n: nat, w: nat)
    requires n < w && a < Pow2(w)
    ensures Pow2(n) < Pow2(w)
    ensures And(a, Pow2(w) - 1 - Pow2(n)) == if Bit(a, n) then a - Pow2(n) else a
  {
    Pow2Grows(n, w);
    if n == 0 {
      AndNotOne(a, w);
    } else {
      AndNotBit(a / 2, n - 1, w - 1);
      NotBitStep(a, Pow2(w - 1), Pow2(n - 1));
    }
  }

  lemma NotBitStep(a: nat, p: nat, q: nat)
    requires q < p
    ensures And(a, 2 * p - 1 - 2 * q) == 2 * And(a / 2, p - 1 - q) + a % 2
  {
    AndOdd(a, 2 * p - 1 - 2 * q, p - 1 - q);
  }
}
