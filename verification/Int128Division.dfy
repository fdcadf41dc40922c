/** Single bits, and the invariants of shift-and-add multiplication and of restoring division. */
module Int128Division {
  import opened MachineWords
  import opened Int128Arithmetic

  // ---------- bits ----------

  /** What bit n counts: the highest one counts negatively. */
  function Weight(n: nat): int {
    if n == 127 then -(Pow2(127) as int) else Pow2(n)
  }

  lemma BitOfHalves(lo: Word, hi: Half, n: nat)
    ensures n >= 128 ==> (Bit(Number(lo, hi), n) <==> hi < 0)
    ensures 64 <= n < 128 ==> (Bit(Number(lo, hi), n) <==> Bit(Unsigned(hi), n - 64))
    ensures 64 <= n < 128 ==> (Bit(Number(lo, hi), n) <==> And(Unsigned(hi), Pow2(n - 64)) != 0)
    ensures n < 64 ==> (Bit(Number(lo, hi), n) <==> Bit(lo, n))
    ensures n < 64 ==> (Bit(Number(lo, hi), n) <==> And(lo, Pow2(n)) != 0)
  {
    BitIsQuotient(Number(lo, hi), n);
    if n >= 128 {
      ShiftOut(Number(lo, hi), n);
    } else if n >= 64 {
      ShiftRightFar(lo, hi, n);
      BitIsQuotient(hi, n - 64);
      BitOfUnsigned(hi, n - 64);
      AndBit(Unsigned(hi), n - 64);
    } else {
      BitOfLow(lo, hi, n);
      AndBit(lo, n);
    }
  }

  lemma BitOfUnsigned(hi: Half, n: nat)
    requires n < 64
    ensures Bit(Unsigned(hi), n) == Bit(hi, n)
  {
    if hi < 0 { BitAddsMultiple(hi, 1, n); }
  }

  lemma BitOfLow(lo: Word, hi: Half, n: nat)
    requires n < 64
    ensures Bit(Number(lo, hi), n) == Bit(lo, n)
  {
    BitAddsMultiple(lo, hi, n);
  }

  /** Higher words do not count for a low bit. */
  lemma BitAddsMultiple(a: int, k: int, n: nat)
    requires n < 64
    ensures Bit(a + k * BASE, n) == Bit(a, n)
  {
    BitIsQuotient(a, n);
    BitIsQuotient(a + k * BASE, n);
    Pow2Of64();
    Pow2Adds(n, 63 - n);
    AddMultiple(a, k, Pow2(n), Pow2(63 - n));
    EvenMore(a / Pow2(n), k * Pow2(63 - n));
  }

  lemma EvenMore(x: int, m: int)
    ensures (x + 2 * m) % 2 == x % 2
  {
  }

  lemma AddMultiple(a: int, k: int, p: nat, half: nat)
    requires p > 0 && p * half == BASE / 2
    ensures (a + k * BASE) / p == a / p + 2 * (k * half)
  {
    HalvesScaled(k, p, half, BASE / 2, BASE);
    QuotientPlus(a, p, 2 * (k * half));
  }

  lemma HalvesScaled(k: int, p: int, half: int, m: int, whole: int)
    requires p * half == m && whole == 2 * m
    ensures 2 * (k * half) * p == k * whole
  {
    MulSame(k, half * p, m);
    MulSame(k, whole, 2 * m);
    MulAssociates(k, half, p);
    MulAssociates(2, k * half, p);
  }

  lemma PutLow(lo: Word, n: nat)
    requires n < 64
    ensures Pow2(n) < BASE
    ensures Or(lo, Pow2(n)) == (if Bit(lo, n) then lo else lo + Pow2(n)) < BASE
    ensures And(lo, Not(Pow2(n))) == if Bit(lo, n) then lo - Pow2(n) else lo
  {
    Pow2Of64();
    Pow2Grows(n, 64);
    OrBit(lo, n);
    AndNotBit(lo, n, 64);
    if !Bit(lo, n) { ClearBitFits(lo, n); }
  }

  /** Setting a clear bit stays within the word. */
  lemma ClearBitFits(lo: Word, n: nat)
    requires n < 64 && !Bit(lo, n)
    ensures lo + Pow2(n) < BASE
  {
    BitIsQuotient(lo, n);
    Pow2Of64();
    Pow2Adds(n, 63 - n);
    RoomAbove(lo, Pow2(n), Pow2(63 - n));
  }

  lemma RoomAbove(a: int, p: nat, half: nat)
    requires p > 0 && a < 2 * (p * half) && a / p % 2 == 0
    ensures a + p < 2 * (p * half)
  {
    var q := a / p / 2;
    assert a / p * p == 2 * (q * p) by { assert a / p == 2 * q; }
    if q >= half { MulGrows(q, half, p); } else { MulGrows(half - 1, q, p); assert (half - 1) * p == p * half - p; }
  }

  lemma RoomBelow(a: int, p: int, half: int)
    requires p > 0 && half >= 0 && a >= -2 * (p * half) && a / p % 2 == 1
    ensures a - p >= -2 * (p * half)
  {
    var q := a / p / 2;
    assert a / p * p == 2 * (q * p) + p by { assert a / p == 2 * q + 1; }
    if q < -half {
      assert (half + 1) * p == p * half + p;
      assert -q * p == -(q * p);
      MulGrows(-q, half + 1, p);
    } else {
      MulGrows(q, -half, p);
      assert -half * p == -(p * half);
    }
  }

  lemma SignedMoves(h: Half, d: int)
    requires -BASE / 2 <= h + d < BASE / 2
    ensures Signed(Unsigned(h) + d) == h + d
  {
  }

  /** The high half with bit n set or cleared. */
  function WithBit(hi: Half, n: nat, val: bool): Half
    requires n < 64
  {
    PutLow(Unsigned(hi), n);
    var mask: Word := Pow2(n);
    Signed(if val then Or(Unsigned(hi), mask) else And(Unsigned(hi), Not(mask)))
  }

  lemma WithBitIs(hi: Half, n: nat, val: bool)
    requires n < 64
    ensures Pow2(n) < BASE
    ensures Bit(hi, n) == val ==> WithBit(hi, n, val) == hi
    ensures Bit(hi, n) != val ==>
        WithBit(hi, n, val) == Signed(if val then Unsigned(hi) + Pow2(n) else Unsigned(hi) - Pow2(n))
  {
    PutLow(Unsigned(hi), n);
    BitOfUnsigned(hi, n);
    SignedMoves(hi, 0);
  }

  lemma PutHigh(hi: Half, n: nat, val: bool)
    requires n < 64
    ensures Bit(hi, n) == val ==> WithBit(hi, n, val) == hi
    ensures Bit(hi, n) != val && n < 63 ==> WithBit(hi, n, val) == if val then hi + Pow2(n) else hi - Pow2(n)
    ensures Bit(hi, n) != val && n == 63 ==> WithBit(hi, n, val) == if val then hi - Pow2(n) else hi + Pow2(n)
  {
    if n == 63 { PutSign(hi, n, val); } else { PutBelowSign(hi, n, val); }
  }

  lemma PutSign(hi: Half, n: nat, val: bool)
    requires n == 63
    ensures Bit(hi, n) == val ==> WithBit(hi, n, val) == hi
    ensures Bit(hi, n) != val ==> WithBit(hi, n, val) == if val then hi - Pow2(n) else hi + Pow2(n)
  {
    WithBitIs(hi, n, val);
    SignBit(hi, n);
    if Bit(hi, n) != val { SignFlips(hi, Pow2(n), WithBit(hi, n, val), val); }
  }

  lemma PutBelowSign(hi: Half, n: nat, val: bool)
    requires n < 63
    ensures Bit(hi, n) == val ==> WithBit(hi, n, val) == hi
    ensures Bit(hi, n) != val ==> WithBit(hi, n, val) == if val then hi + Pow2(n) else hi - Pow2(n)
  {
    WithBitIs(hi, n, val);
    if val && !Bit(hi, n) { SetWithin(hi, n); }
    if !val && Bit(hi, n) { ClearWithin(hi, n); }
  }

  /** The number with a bit of its high half set or cleared. */
  lemma PutHighNumber(lo: Word, hi: Half, n: nat, val: bool)
    requires 64 <= n < 128
    ensures Number(lo, WithBit(hi, n - 64, val)) ==
      if Bit(Number(lo, hi), n) == val then Number(lo, hi) else Number(lo, hi) + if val then Weight(n) else -Weight(n)
  {
    BitOfHalves(lo, hi, n);
    BitOfUnsigned(hi, n - 64);
    PutHigh(hi, n - 64, val);
    WeightOfHigh(n);
  }

  lemma PutLowNumber(lo: Word, hi: Half, n: nat, val: bool)
    requires n < 64
    ensures Pow2(n) < BASE
    ensures var low := if val then Or(lo, Pow2(n)) else And(lo, Not(Pow2(n)));
      low < BASE && Number(low, hi) ==
        if Bit(Number(lo, hi), n) == val then Number(lo, hi) else Number(lo, hi) + if val then Weight(n) else -Weight(n)
  {
    BitOfHalves(lo, hi, n);
    PutLow(lo, n);
  }

  lemma SignFlips(hi: Half, p: nat, h: Half, val: bool)
    requires p == BASE / 2 && (hi >= 0 <==> val)
    requires h == Signed(if val then Unsigned(hi) + p else Unsigned(hi) - p)
    ensures h == if val then hi - p else hi + p
  {
  }

  /** Below the sign bit, setting or clearing stays within the half. */
  lemma SetWithin(hi: Half, n: nat)
    requires n < 63 && !Bit(hi, n)
    ensures Signed(Unsigned(hi) + Pow2(n)) == hi + Pow2(n)
  {
    BitIsQuotient(hi, n);
    QuarterWord(n);
    RoomAbove(hi, Pow2(n), Pow2(62 - n));
    SignedMoves(hi, Pow2(n));
  }

  lemma ClearWithin(hi: Half, n: nat)
    requires n < 63 && Bit(hi, n)
    ensures Signed(Unsigned(hi) - Pow2(n)) == hi - Pow2(n)
  {
    BitIsQuotient(hi, n);
    QuarterWord(n);
    RoomBelow(hi, Pow2(n), Pow2(62 - n));
    SignedMoves(hi, -(Pow2(n) as int));
  }

  lemma QuarterWord(n: nat)
    requires n < 63
    ensures Pow2(n) * Pow2(62 - n) == BASE / 4
  {
    Pow2Of64();
    Pow2Adds(n, 62 - n);
    assert Pow2(63) == 2 * Pow2(62);
  }

  lemma SignBit(hi: Half, n: nat)
    requires n == 63
    ensures Pow2(n) == BASE / 2 && (Bit(hi, n) <==> hi < 0)
  {
    BitIsQuotient(hi, n);
    Pow2Of64();
    var p := Pow2(n);
    if hi < 0 { QuotientIs(hi, p, -1, hi + p); } else { QuotientIs(hi, p, 0, hi); }
  }

  lemma WeightOfHigh(n: nat)
    requires 64 <= n < 128
    ensures Weight(n) == if n == 127 then -(Pow2(63) as int) * BASE else Pow2(n - 64) * BASE
  {
    Pow2Of64();
    Pow2Adds(64, n - 64);
  }

  // ---------- multiplication ----------

  lemma NextQuotient(b: int, i: nat)
    ensures b / Pow2(i) == 2 * (b / Pow2(i + 1)) + if Bit(b, i) then 1 else 0
  {
    BitIsQuotient(b, i);
    HalveQuotient(b, Pow2(i));
  }

  lemma NextRemainder(b: int, i: nat)
    ensures b % Pow2(i + 1) == b % Pow2(i) + if Bit(b, i) then Pow2(i) else 0
  {
    BitIsQuotient(b, i);
    HalveQuotient(b, Pow2(i));
  }

  lemma HalveQuotient(b: int, p: nat)
    requires p > 0
    ensures b / p == 2 * (b / (2 * p)) + b / p % 2
    ensures b % (2 * p) == b % p + b / p % 2 * p
  {
    var q, r := b / p, b % p;
    var h, m := q / 2, q % 2;
    assert q * p == h * (2 * p) + m * p by { assert (2 * h + m) * p == h * (2 * p) + m * p; }
    MulGrows(1, m, p);
    MulGrows(m, 0, p);
    QuotientIs(b, 2 * p, h, m * p + r);
  }

  /** After i steps the product of the lowest i bits is accumulated; the step adds what bit i counts. */
  lemma ProductStep(a: int, b: int, i: nat)
    ensures Wrap(a * (b % Pow2(i + 1))) ==
      if Bit(b, i) then Wrap(Wrap(a * (b % Pow2(i))) + Wrap(a * Pow2(i))) else Wrap(a * (b % Pow2(i)))
  {
    ProductParts(a, b, i);
    PartAdded(a * (b % Pow2(i + 1)), a * (b % Pow2(i)), a * Pow2(i), Bit(b, i));
  }

  lemma ProductParts(a: int, b: int, i: nat)
    ensures a * (b % Pow2(i + 1)) == a * (b % Pow2(i)) + if Bit(b, i) then a * Pow2(i) else 0
  {
    NextRemainder(b, i);
    TimesParts(a, b % Pow2(i + 1), b % Pow2(i), Pow2(i), Bit(b, i));
  }

  lemma TimesParts(a: int, x: int, r: int, p: int, bit: bool)
    requires x == r + if bit then p else 0
    ensures a * x == a * r + if bit then a * p else 0
  {
    MulDistributes(r, p, a);
  }

  lemma PartAdded(whole: int, part: int, more: int, bit: bool)
    requires whole == part + if bit then more else 0
    ensures Wrap(whole) == if bit then Wrap(Wrap(part) + Wrap(more)) else Wrap(part)
  {
    if bit { SumOfWraps(part, more); }
  }

  lemma SumOfWraps(x: int, y: int)
    ensures Wrap(x + y) == Wrap(Wrap(x) + Wrap(y))
  {
    WrapOfSum(x, Wrap(y));
    WrapOfSum(y, x);
  }

  lemma LowBitOfQuotient(lo: Word, hi: Half, b: int, i: nat)
    requires Number(lo, hi) == b / Pow2(i)
    ensures And(lo, 1) != 0 <==> Bit(b, i)
  {
    LowBit(lo, hi);
    BitIsQuotient(b, i);
  }

  lemma LowBit(lo: Word, hi: Half)
    ensures And(lo, 1) != 0 <==> Number(lo, hi) % 2 == 1
  {
    AndBit(lo, 0);
    var h := hi * (BASE / 2);
    assert Number(lo, hi) == 2 * (h + lo / 2) + lo % 2;
  }

  lemma ProductStart(a: int, b: int)
    ensures b / Pow2(0) == b && Wrap(a * (b % Pow2(0))) == 0
  {
    assert b % 1 == 0;
  }

  lemma HalveTwice(b: int, i: nat)
    ensures b / Pow2(i) / Pow2(1) == b / Pow2(i + 1)
  {
    NextQuotient(b, i);
    assert Pow2(1) == 2;
  }

  lemma ProductDone(a: int, b: int)
    ensures Wrap(a * (b % Pow2(128))) == Wrap(a * b)
  {
    Pow2Of128();
    var k := b / MODULUS;
    assert a * (b % MODULUS) == a * b - a * k * MODULUS by {
      assert b % MODULUS == b - k * MODULUS;
      assert a * (k * MODULUS) == a * k * MODULUS;
    }
    var m := WrapOff(a * (b % MODULUS));
    WrapIs(Wrap(a * (b % MODULUS)), a * b, m - a * k);
  }

  // ---------- division ----------

  function Abs(n: int): nat {
    if n < 0 then -n else n
  }

  /** Division with the quotient rounded towards zero: the remainder has the dividend's sign. */
  predicate Divides(v: int, d: int, q: int, r: int) {
    v == q * d + r && Abs(r) < Abs(d) && (r == 0 || (r < 0 <==> v < 0))
  }

  /** There is only one such quotient and remainder. */
  lemma DivisionUnique(v: int, d: int, q: int, r: int, q': int, r': int)
    requires Divides(v, d, q, r) && Divides(v, d, q', r')
    ensures q == q' && r == r'
  {
    assert (q - q') * d == q * d - q' * d;
    NoSmallerMultiple(q - q', d, r' - r);
  }

  lemma NoSmallerMultiple(x: int, d: int, m: int)
    requires x * d == m && Abs(m) < Abs(d)
    ensures x == 0
  {
    if d > 0 {
      NoSmallMultiple(x, d);
    } else {
      assert x * -d == -(x * d);
      NoSmallMultiple(x, -d);
    }
  }

  /** The quotient's bits down to b count top, the remainder is what they leave of the dividend's bits down to b. */
  ghost predicate Restoring(dd: nat, ds: nat, b: nat, q: int, r: int, top: nat) {
    && q == Shl(top, b) && Shr(dd, b) == top * ds + r
    && 0 <= r < 2 * ds && (top % 2 == 0 || r < ds)
  }

  // ---------- the loops, round by round ----------

  /** The first loop brings down bits, the second one also subtracts; the counter is a 32-bit word. */
  datatype Loop = First(r: int, b: nat) | Second(r: int, b: nat) | Ended

  predicate Runs(s: Loop) {
    !s.Ended? ==> InRange(s.r)
  }

  function BroughtDown(r: int, bit: bool): (n: int)
    ensures InRange(n)
  {
    Wrap(2 * r + if bit then 1 else 0)
  }

  /** One round, for any dividend and divisor. */
  function Round(dd: int, ds: int, s: Loop): (s': Loop)
    requires Runs(s) && InRange(ds)
    ensures Runs(s')
  {
    match s
    case First(r, b) =>
      if LessNumbers(r, ds) then First(BroughtDown(r, Bit(dd, b)), (b - 1) % 0x1_0000_0000)
      else Second(r, (b + 1) % 0x1_0000_0000)
    case Second(r, b) =>
      if LessNumbers(r, ds) then
        if b == 0 then Ended else Second(BroughtDown(r, Bit(dd, b - 1)), b - 1)
      else Second(Wrap(r - ds), b)
    case Ended => Ended
  }

  function After(dd: int, ds: int, rounds: nat): (s: Loop)
    requires InRange(ds)
    ensures Runs(s)
  {
    if rounds == 0 then First(0, 127) else Round(dd, ds, After(dd, ds, rounds - 1))
  }

  ghost predicate Reaches(dd: int, ds: int, s: Loop)
    requires InRange(ds)
  {
    exists rounds: nat :: After(dd, ds, rounds) == s
  }

  lemma ReachesStart(dd: int, ds: int)
    requires InRange(ds)
    ensures Reaches(dd, ds, First(0, 127))
  {
    assert After(dd, ds, 0) == First(0, 127);
  }

  lemma ReachesNext(dd: int, ds: int, s: Loop)
    requires Runs(s) && InRange(ds) && Reaches(dd, ds, s)
    ensures Reaches(dd, ds, Round(dd, ds, s))
  {
    var rounds: nat :| After(dd, ds, rounds) == s;
    assert After(dd, ds, rounds + 1) == Round(dd, ds, s);
  }

  lemma ReachesDown(dd: int, ds: int, r: int, b: nat, next: int)
    requires InRange(r) && InRange(ds) && InRange(next) && LessNumbers(r, ds)
    ensures next == 2 * r + (if Bit(dd, b) then 1 else 0) && Reaches(dd, ds, First(r, b)) ==>
      Reaches(dd, ds, First(next, (b - 1) % 0x1_0000_0000))
    ensures b > 0 && next == 2 * r + (if Bit(dd, b - 1) then 1 else 0) && Reaches(dd, ds, Second(r, b)) ==>
      Reaches(dd, ds, Second(next, b - 1))
    ensures b == 0 && Reaches(dd, ds, Second(r, b)) ==> Reaches(dd, ds, Ended)
  {
    if Reaches(dd, ds, First(r, b)) { ReachesNext(dd, ds, First(r, b)); }
    if Reaches(dd, ds, Second(r, b)) { ReachesNext(dd, ds, Second(r, b)); }
  }

  lemma ReachesOn(dd: int, ds: int, r: int, b: nat)
    requires InRange(r) && InRange(ds) && !LessNumbers(r, ds)
    ensures Reaches(dd, ds, First(r, b)) ==> Reaches(dd, ds, Second(r, (b + 1) % 0x1_0000_0000))
    ensures InRange(r - ds) && Reaches(dd, ds, Second(r, b)) ==> Reaches(dd, ds, Second(r - ds, b))
  {
    if Reaches(dd, ds, First(r, b)) { ReachesNext(dd, ds, First(r, b)); }
    if Reaches(dd, ds, Second(r, b)) { ReachesNext(dd, ds, Second(r, b)); }
  }

  /** The first loop ends before all bits are brought down. */
  lemma FirstDone(dd: nat, ds: nat, r: int, b: nat, k: nat)
    requires InRange(r) && InRange(ds) && k <= 128 && b == Counter(k) && Reaches(dd, ds, First(r, b))
    requires 0 < ds <= r && (k == 128 ==> r == 0) && !LessNumbers(r, ds)
    ensures k < 128 && (b + 1) % 0x1_0000_0000 == k && Reaches(dd, ds, Second(r, k))
  {
    CounterSteps(k);
    ReachesOn(dd, ds, r, b);
  }

  /**
   With the smallest number as divisor the remainder is never less, so no bit is brought down and the loop does not end.
   */
  lemma ByMinNeverEnds(dd: int)
    ensures !Reaches(dd, INT128_MIN, Ended)
  {
    forall rounds: nat ensures !After(dd, INT128_MIN, rounds).Ended? { AfterByMin(dd, rounds); }
  }

  /** The remainder is zero or the smallest number. */
  predicate Alternates(s: Loop) {
    !s.Ended? && (s.r == 0 || s.r == INT128_MIN)
  }

  lemma {:induction false} AfterByMin(dd: int, rounds: nat)
    ensures Alternates(After(dd, INT128_MIN, rounds))
  {
    if rounds > 0 {
      AfterByMin(dd, rounds - 1);
      RoundByMin(dd, After(dd, INT128_MIN, rounds - 1));
    }
  }

  lemma RoundByMin(dd: int, s: Loop)
    requires Alternates(s) && Runs(s)
    ensures Alternates(Round(dd, INT128_MIN, s))
  {
    NothingBelowMin();
    MinTakenAway();
  }

  lemma NothingBelowMin()
    ensures !LessNumbers(0, INT128_MIN) && !LessNumbers(INT128_MIN, INT128_MIN)
  {
    assert INT128_MIN / BASE == -BASE / 2;
  }

  lemma MinTakenAway()
    ensures Wrap(0 - INT128_MIN) == INT128_MIN && Wrap(INT128_MIN - INT128_MIN) == 0
  {
    WrapIs(INT128_MIN, 0 - INT128_MIN, -1);
  }

  lemma RestoringShift(dd: nat, ds: nat, b: nat, q: int, r: int, top: nat)
    requires b > 0 && Restoring(dd, ds, b, q, r, top) && r < ds
    ensures 2 * r + (if Bit(dd, b - 1) then 1 else 0) <= dd
    ensures Restoring(dd, ds, b - 1, q, 2 * r + (if Bit(dd, b - 1) then 1 else 0), 2 * top)
  {
    ShiftOneLess(dd, b);
    ShiftLeftOneLess(top, b);
    DoubledProduct(top, ds);
  }

  lemma DoubledProduct(top: nat, ds: nat)
    ensures 2 * top * ds == 2 * (top * ds) && top * ds >= 0
  {
    MulGrows(top, 0, ds);
  }

  lemma RestoringSubtract(dd: nat, ds: nat, b: nat, q: int, r: int, top: nat)
    requires Restoring(dd, ds, b, q, r, top) && r >= ds
    ensures Restoring(dd, ds, b, q + Pow2(b), r - ds, top + 1) && !Bit(q, b)
  {
    ShiftLeftOneMore(top, b);
    OneMoreProduct(top, ds);
    ShiftedUp(top, b, b);
  }

  lemma OneMoreProduct(top: nat, p: int)
    ensures (top + 1) * p == top * p + p
  {
  }

  lemma QuotientFits(dd: nat, ds: nat, b: nat, q: int, r: int, top: nat)
    requires Restoring(dd, ds, b, q, r, top) && ds > 0
    ensures 0 <= q <= dd
  {
    MulGrows(ds, 1, top);
    assert top * ds == ds * top;
    ShiftedWithin(dd, top, b);
  }

  lemma {:induction false} ShiftedWithin(dd: nat, top: nat, b: nat)
    requires top <= Shr(dd, b)
    ensures Shl(top, b) <= dd
    decreases b
  {
    if b > 0 {
      ShiftedWithin(dd / 2, top, b - 1);
    }
  }

  lemma SignsCorrected(v: int, d: int, q: int, r: int)
    requires d != 0 && Abs(v) == q * Abs(d) + r && 0 <= r < Abs(d)
    ensures Divides(v, d, if (d < 0) != (v < 0) then -q else q, if v < 0 then -r else r)
  {
    assert q * -d == -(q * d) && -q * d == -(q * d);
  }

  /** Doubling an even low half and setting its lowest bit. */
  lemma LowBitJoins(lo: Word, hi: Half, r: int)
    requires Number(lo, hi) == 2 * r
    ensures Or(lo, 1) == lo + 1 < BASE
  {
    OrBit(lo, 0);
    assert lo % 2 == 0;
  }

  /** While the remainder is small there are bits left to bring down, and it does not overflow. */
  lemma BringFirst(dd: nat, ds: nat, k: nat, r: int)
    requires 0 < ds <= dd && r == Shr(dd, k) && r < ds
    ensures k > 0 && Shr(dd, k - 1) == 2 * r + (if Bit(dd, k - 1) then 1 else 0) <= dd
  {
    ShiftOneLess(dd, k);
  }

  /** The 32-bit counter of the bits left, one less, wrapping around below zero. */
  function Counter(k: nat): nat {
    (k - 1) % 0x1_0000_0000
  }

  lemma CounterSteps(k: nat)
    requires k <= 128
    ensures k > 0 ==> Counter(k) == k - 1 && (Counter(k) - 1) % 0x1_0000_0000 == Counter(k - 1)
    ensures (Counter(k) + 1) % 0x1_0000_0000 == k
  {
  }

  lemma NothingAbove(dd: nat, k: nat)
    requires dd <= INT128_MAX && k == 128
    ensures Shr(dd, k) == 0
  {
    Pow2Of128();
    ShiftRightQuotient(dd, 128);
    QuotientIs(dd, MODULUS, 0, dd);
  }

  lemma BitWeighs(q: int, b: nat)
    requires b < 128 && 0 <= q && q + Pow2(b) <= INT128_MAX
    ensures Weight(b) == Pow2(b)
  {
    Pow2Of128();
  }

  lemma RestoringDone(dd: nat, ds: nat, q: int, r: int, top: nat)
    requires Restoring(dd, ds, 0, q, r, top)
    ensures dd == q * ds + r && q >= 0
  {
  }

  lemma QuotientBounded(q: int, ds: int, r: int, dd: int)
    requires dd == q * ds + r && 0 <= r < ds && 0 <= q
    ensures q <= dd
  {
    MulGrows(ds, 1, q);
    assert ds * q == q * ds;
  }
}
