/**
 Two 64-bit halves as one 128-bit number in two's complement: what each operation on the halves does to the number.
 */
module Int128Arithmetic {
  import opened MachineWords

  const MODULUS: int := BASE * BASE
  const INT128_MAX: int := MODULUS / 2 - 1
  const INT128_MIN: int := -(MODULUS / 2)

  predicate InRange(n: int) {
    INT128_MIN <= n <= INT128_MAX
  }

  /** The 128-bit number with the lowest 128 bits of n. */
  function Wrap(n: int): (w: int)
    ensures InRange(w) && (InRange(n) ==> w == n)
  {
    var m := n % MODULUS;
    if m > INT128_MAX then m - MODULUS else m
  }

  function Number(lo: Word, hi: Half): (n: int)
    ensures InRange(n)
  {
    hi * BASE + lo
  }

  lemma WrapIs(x: int, y: int, k: int)
    requires InRange(x) && x == y + k * MODULUS
    ensures x == Wrap(y)
  {
    if x < 0 { QuotientIs(y, MODULUS, -k - 1, x + MODULUS); } else { QuotientIs(y, MODULUS, -k, x); }
  }

  lemma WrapOff(n: int) returns (k: int)
    ensures Wrap(n) == n + k * MODULUS
  {
    k := if n % MODULUS > INT128_MAX then -(n / MODULUS) - 1 else -(n / MODULUS);
  }

  lemma WrapOfSum(a: int, b: int)
    ensures Wrap(Wrap(a) + b) == Wrap(a + b)
  {
    var k := WrapOff(a);
    var m := WrapOff(Wrap(a) + b);
    WrapIs(Wrap(Wrap(a) + b), a + b, k + m);
  }

  lemma WrapOfProduct(a: int, b: int)
    ensures Wrap(Wrap(a) * b) == Wrap(a * b)
  {
    var k := WrapOff(a);
    var m := WrapOff(Wrap(a) * b);
    assert (a + k * MODULUS) * b == a * b + k * b * MODULUS;
    WrapIs(Wrap(Wrap(a) * b), a * b, k * b + m);
  }

  lemma SignedOff(n: int) returns (k: int)
    ensures Signed(n) == n + k * BASE
  {
    k := if n % BASE >= BASE / 2 then -(n / BASE) - 1 else -(n / BASE);
  }

  lemma UnsignedOfSigned(n: int)
    ensures Unsigned(Signed(n)) == n % BASE
  {
  }

  // ---------- addition and negation ----------

  lemma AddHalves(lo: Word, hi: Half, blo: Word, bhi: Half, l: Word, h: Half)
    requires l == (lo + blo) % BASE && h == Signed(hi + bhi)
    ensures Number(l, if l < lo then Signed(h + 1) else h) == Wrap(Number(lo, hi) + Number(blo, bhi))
  {
    var k := SignedOff(hi + bhi);
    CarryOut(lo, blo);
    if l < lo {
      var m := SignedOff(h + 1);
      WrapIs(Number(l, Signed(h + 1)), Number(lo, hi) + Number(blo, bhi), k + m);
    } else {
      WrapIs(Number(l, h), Number(lo, hi) + Number(blo, bhi), k);
    }
  }

  /** The sum of the low halves wrapped around exactly if it is less than one of them. */
  lemma CarryOut(lo: Word, blo: Word)
    ensures var l := (lo + blo) % BASE; lo + blo == if l < lo then l + BASE else l
  {
  }

  lemma IncrementHalves(lo: Word, hi: Half)
    ensures lo < BASE - 1 ==> Number(lo + 1, hi) == Wrap(Number(lo, hi) + 1)
    ensures lo == BASE - 1 ==> Number(0, Signed(hi + 1)) == Wrap(Number(lo, hi) + 1)
  {
    var k := SignedOff(hi + 1);
    if lo < BASE - 1 {
      WrapIs(Number(lo + 1, hi), Number(lo, hi) + 1, 0);
    } else {
      WrapIs(Number(0, Signed(hi + 1)), Number(lo, hi) + 1, k);
    }
  }

  lemma DecrementHalves(lo: Word, hi: Half)
    ensures lo > 0 ==> Number(lo - 1, hi) == Wrap(Number(lo, hi) - 1)
    ensures lo == 0 ==> Number(BASE - 1, Signed(hi - 1)) == Wrap(Number(lo, hi) - 1)
  {
    var k := SignedOff(hi - 1);
    if lo > 0 {
      WrapIs(Number(lo - 1, hi), Number(lo, hi) - 1, 0);
    } else {
      WrapIs(Number(BASE - 1, Signed(hi - 1)), Number(lo, hi) - 1, k);
    }
  }

  lemma NegateHalves(lo: Word, hi: Half)
    ensures lo == 0 ==> Number(0, Signed(-(hi as int))) == Wrap(-Number(lo, hi))
    ensures lo != 0 ==> Number(BASE - lo, -1 - hi) == Wrap(-Number(lo, hi))
  {
    var k := SignedOff(-(hi as int));
    if lo == 0 {
      WrapIs(Number(0, Signed(-(hi as int))), -Number(lo, hi), k);
    } else {
      WrapIs(Number(BASE - lo, -1 - hi), -Number(lo, hi), 0);
    }
  }

  // ---------- order ----------

  /** The order the halves are compared in: equal negative high halves compare their low halves as signed. */
  predicate LessHalves(lo: Word, hi: Half, blo: Word, bhi: Half) {
    if hi == bhi then
      if hi < 0 then Signed(lo) < Signed(blo) else lo < blo
    else hi < bhi
  }

  /** The same for numbers. */
  predicate LessNumbers(a: int, b: int)
    requires InRange(a) && InRange(b)
  {
    LessHalves(a % BASE, a / BASE, b % BASE, b / BASE)
  }

  lemma HalvesOf(lo: Word, hi: Half)
    ensures Number(lo, hi) % BASE == lo && Number(lo, hi) / BASE == hi
  {
  }

  predicate TopBit(w: Word) {
    w >= BASE / 2
  }

  /**
   It is the order of the numbers exactly if not both are negative with equal high halves and different top bits below.
   */
  lemma LessIsOrderIff(lo: Word, hi: Half, blo: Word, bhi: Half)
    ensures (LessHalves(lo, hi, blo, bhi) <==> Number(lo, hi) < Number(blo, bhi)) <==>
      !(hi == bhi < 0 && TopBit(lo) != TopBit(blo))
  {
  }

  // ---------- shifts ----------

  function LeftLow(lo: Word, n: nat): Word {
    lo * Pow2(n) % BASE
  }

  /** The highest n bits of the low half, moved down. */
  function MovedUp(lo: Word, n: nat): nat
    requires 0 < n < 64
  {
    Pow2Within(64 - n);
    And(lo, Not(Pow2(64 - n) - 1)) / Pow2(64 - n)
  }

  /** The high half shifted, with the highest n bits of the low one moved in. */
  function LeftHigh(lo: Word, hi: Half, n: nat): Half
    requires 0 < n < 64
  {
    Signed(Or(Unsigned(Signed(hi * Pow2(n))), MovedUp(lo, n)))
  }

  /** The low half shifted, with the lowest n bits of the high one moved in. */
  function RightLow(lo: Word, hi: Half, n: nat): nat
    requires 0 < n < 64
  {
    var mask: nat := Pow2(n) - 1;
    QuotientWithin(lo, Pow2(n));
    Or(lo / Pow2(n), And(Unsigned(hi), mask) * Pow2(64 - n) % BASE)
  }

  function RightHigh(hi: Half, n: nat): int {
    hi / Pow2(n)
  }

  /** Scaling by p moves the part behind the lowest q over the word boundary. */
  lemma Scaled(h: int, p: nat, q: nat)
    requires p > 0 && q > 0 && p * q == BASE
    ensures h * p == h / q * BASE + h % q * p
    ensures 0 <= h % q * p <= BASE - p
    ensures h * p / BASE == h / q && h * p % BASE == h % q * p
  {
    var k, r := h / q, h % q;
    assert h * p == k * BASE + r * p by {
      assert h == k * q + r;
      Distribute(k, q, r, p);
    }
    MulGrows(q - 1, r, p);
    assert (q - 1) * p == BASE - p;
    QuotientIs(h * p, BASE, k, r * p);
  }

  lemma Distribute(k: int, q: int, r: int, p: int)
    ensures (k * q + r) * p == k * (p * q) + r * p
  {
    assert k * q * p == k * (p * q);
  }

  lemma BelowPower(a: Word, p: nat, q: nat)
    requires p * q == BASE && q > 0
    ensures 0 <= a / q < p
  {
    if a / q >= p { MulGrows(a / q, p, q); }
  }

  lemma DropRest(a: int, q: int)
    requires q > 0
    ensures (a - a % q) / q == a / q
  {
    QuotientIs(a - a % q, q, a / q, 0);
  }

  lemma HighBits(lo: Word, n: nat)
    requires 0 < n < 64
    ensures 0 < Pow2(64 - n) <= BASE && MovedUp(lo, n) == lo / Pow2(64 - n)
  {
    var q := Pow2(64 - n);
    Pow2Splits(64 - n);
    AndMasksHigh(lo, 64 - n);
    assert Not(q - 1) == BASE - q;
    DropRest(lo, q);
  }

  lemma AndMasksHigh(lo: Word, n: nat)
    requires n <= 64
    ensures Pow2(n) <= BASE && And(lo, BASE - Pow2(n)) == lo - lo % Pow2(n)
  {
    Pow2Of64();
    AndHighMask(lo, n, 64);
  }

  /** The bits moved in do not meet the bits there. */
  lemma HighOfLeft(lo: Word, hi: Half, n: nat)
    requires 0 < n < 64
    ensures LeftHigh(lo, hi, n) == Signed(hi % Pow2(64 - n) * Pow2(n) + lo / Pow2(64 - n))
  {
    var p, q := Pow2(n), Pow2(64 - n);
    Pow2Splits(n);
    HighBits(lo, n);
    Scaled(hi, p, q);
    UnsignedOfSigned(hi * p);
    BelowPower(lo, p, q);
    OrDisjoint(lo / q, hi % q, n);
  }

  lemma ShiftLeftHalves(lo: Word, hi: Half, n: nat)
    requires 0 < n < 64
    ensures Number(LeftLow(lo, n), LeftHigh(lo, hi, n)) == Wrap(Number(lo, hi) * Pow2(n))
  {
    var p, q := Pow2(n), Pow2(64 - n);
    HalvesOfLeft(lo, hi, n, p, q);
    PartsOfLeft(lo, hi, p, q, LeftLow(lo, n), LeftHigh(lo, hi, n));
  }

  lemma HalvesOfLeft(lo: Word, hi: Half, n: nat, p: nat, q: nat)
    requires 0 < n < 64 && p == Pow2(n) && q == Pow2(64 - n)
    ensures p > 0 && q > 0 && p * q == BASE
    ensures LeftLow(lo, n) == lo % q * p && LeftHigh(lo, hi, n) == Signed(hi % q * p + lo / q)
  {
    Pow2Splits(n);
    HighOfLeft(lo, hi, n);
    LowOfLeft(lo, n, p, q);
  }

  lemma PartsOfLeft(lo: Word, hi: Half, p: nat, q: nat, low: Word, high: Half)
    requires p > 0 && q > 0 && p * q == BASE
    requires low == lo % q * p && high == Signed(hi % q * p + lo / q)
    ensures Number(low, high) == Wrap(Number(lo, hi) * p)
  {
    Scaled(hi, p, q);
    Scaled(lo, p, q);
    NumberScaled(lo, hi, p);
    var m := SignedOff(hi % q * p + lo / q);
    Combined(hi * p, lo * p, hi / q, hi % q * p, lo / q, lo % q * p, m, low, high);
  }

  lemma LowOfLeft(lo: Word, n: nat, p: nat, q: nat)
    requires p == Pow2(n) && q > 0 && p * q == BASE
    ensures lo * p == lo / q * BASE + lo % q * p && LeftLow(lo, n) == lo % q * p
  {
    Scaled(lo, p, q);
  }

  lemma NumberScaled(lo: Word, hi: Half, p: int)
    ensures Number(lo, hi) * p == hi * p * BASE + lo * p
  {
    assert (hi * BASE + lo) * p == hi * p * BASE + lo * p;
  }

  lemma Combined(x: int, y: int, k: int, a: int, top: int, b: int, m: int, low: Word, high: Half)
    requires x == k * BASE + a && y == top * BASE + b && low == b && high == a + top + m * BASE
    ensures Number(low, high) == Wrap(x * BASE + y)
  {
    WrapIs(Number(low, high), x * BASE + y, m - k);
  }

  lemma LowOfRight(lo: Word, hi: Half, n: nat)
    requires 0 < n < 64
    ensures RightLow(lo, hi, n) == lo / Pow2(n) + hi % Pow2(n) * Pow2(64 - n)
  {
    var p, q := Pow2(n), Pow2(64 - n);
    Pow2Splits(n);
    AndMask(Unsigned(hi), n);
    UnsignedMod(hi, p, q);
    BelowPower(lo, q, p);
    Scaled(hi, q, p);
    QuotientIs(hi % p * q, BASE, 0, hi % p * q);
    OrDisjoint(lo / p, hi % p, 64 - n);
  }

  lemma UnsignedMod(hi: Half, p: nat, q: nat)
    requires p > 0 && p * q == BASE
    ensures Unsigned(hi) % p == hi % p
  {
    var k := hi / p;
    assert (k + q) * p == k * p + p * q;
    QuotientIs(hi + BASE, p, k + q, hi % p);
  }

  lemma ShiftRightHalves(lo: Word, hi: Half, n: nat)
    requires 0 < n < 64
    ensures 0 <= RightLow(lo, hi, n) < BASE && -BASE / 2 <= RightHigh(hi, n) < BASE / 2
    ensures Number(RightLow(lo, hi, n), RightHigh(hi, n)) == Number(lo, hi) / Pow2(n)
  {
    var p, q := Pow2(n), Pow2(64 - n);
    Pow2Splits(n);
    LowOfRight(lo, hi, n);
    BelowPower(lo, q, p);
    Scaled(hi, q, p);
    QuotientWithin(hi, p);
    SplitQuotient(hi, p, q, lo);
  }

  lemma SplitQuotient(h: int, p: int, q: int, lo: int)
    requires p > 0 && p * q == BASE
    ensures (h * BASE + lo) / p == h * q + lo / p
  {
    assert (h * q + lo / p) * p == h * (p * q) + lo / p * p by { Distribute(h, q, lo / p, p); }
    QuotientIs(h * BASE + lo, p, h * q + lo / p, lo % p);
  }

  lemma ShiftRightFar(lo: Word, hi: Half, n: nat)
    requires n >= 64
    ensures Number(lo, hi) / Pow2(n) == hi / Pow2(n - 64)
  {
    Pow2Of64();
    Pow2Adds(64, n - 64);
    var p := Pow2(n - 64);
    var k := hi / p;
    assert hi * BASE + lo == k * (BASE * p) + (hi % p * BASE + lo) by {
      assert hi == k * p + hi % p;
      assert (k * p + hi % p) * BASE == k * (BASE * p) + hi % p * BASE;
    }
    MulGrows(p - 1, hi % p, BASE);
    assert (p - 1) * BASE == BASE * p - BASE;
    QuotientIs(hi * BASE + lo, BASE * p, k, hi % p * BASE + lo);
  }

  lemma ShiftLeftFar(lo: Word, hi: Half, n: nat)
    requires n >= 64
    ensures Number(0, Signed(lo * Pow2(n - 64))) == Wrap(Number(lo, hi) * Pow2(n))
  {
    Pow2Of64();
    Pow2Adds(64, n - 64);
    var p := Pow2(n - 64);
    var m := SignedOff(lo * p);
    assert (hi * BASE + lo) * (BASE * p) == hi * p * MODULUS + lo * p * BASE;
    WrapIs(Number(0, Signed(lo * p)), Number(lo, hi) * Pow2(n), m - hi * p);
  }

  lemma Pow2Of128()
    ensures Pow2(127) == MODULUS / 2 && Pow2(128) == MODULUS
  {
    Pow2Of64();
    Pow2Adds(64, 63);
    Pow2Adds(64, 64);
  }

  /** Shifting out everything leaves the sign, or nothing. */
  lemma ShiftOut(v: int, n: nat)
    requires InRange(v) && n >= 127
    ensures v / Pow2(n) == if v < 0 then -1 else 0
  {
    Pow2Of128();
    if n > 127 { Pow2Grows(127, n); }
    var p := Pow2(n);
    if v < 0 { QuotientIs(v, p, -1, v + p); } else { QuotientIs(v, p, 0, v); }
  }

  lemma Regroup(v: int, c: int, p: int)
    ensures v * (c * p) == v * p * c
  {
  }

  lemma ShiftLeftOut(v: int, n: nat)
    requires n >= 128
    ensures Wrap(v * Pow2(n)) == 0
  {
    Pow2Of128();
    Pow2Adds(128, n - 128);
    var p := Pow2(n - 128);
    Regroup(v, MODULUS, p);
    WrapIs(0, v * Pow2(n), -(v * p));
  }
}
