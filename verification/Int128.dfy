/** The 128-bit integer: operators on its two halves, proved against integer arithmetic. */
module Int128Model {
  import opened CStrings
  import opened MachineWords
  import opened Int128Arithmetic
  import opened Int128Division
  import opened Int128Text

  /** Signed overflow of the high half wraps around. */
  class Int128 {
    var lo: Word
    var hi: Half

    ghost function Int(): (n: int)
      reads this
      ensures InRange(n)
    {
      Number(lo, hi)
    }

    constructor (lo: Word, hi: Half)
      ensures this.lo == lo && this.hi == hi
    {
      this.lo := lo;
      this.hi := hi;
    }

    constructor Copy(other: Int128)
      ensures lo == other.lo && hi == other.hi
    {
      lo := other.lo;
      hi := other.hi;
    }

    /** From a number of at most 64 bits, sign extended. */
    constructor From(n: int)
      requires -BASE / 2 <= n < BASE
      ensures Int() == n
    {
      lo := if n < 0 then n + BASE else n;
      hi := if n < 0 then -1 else 0;
    }

    method Assign(other: Int128)
      modifies this
      ensures lo == old(other.lo) && hi == old(other.hi)
    {
      lo := other.lo;
      hi := other.hi;
    }

    predicate IsZero()
      reads this
      ensures IsZero() <==> Int() == 0
    {
      !(hi != 0 || lo != 0)
    }

    /** The order of the numbers, but for two negative ones with equal high halves and different top bits below. */
    predicate Less(b: Int128): (r: bool)
      reads this, b
      ensures (r <==> Int() < b.Int()) <==> !(hi == b.hi < 0 && TopBit(lo) != TopBit(b.lo))
      ensures r <==> LessNumbers(Int(), b.Int())
    {
      HalvesOf(lo, hi);
      HalvesOf(b.lo, b.hi);
      LessIsOrderIff(lo, hi, b.lo, b.hi);
      LessHalves(lo, hi, b.lo, b.hi)
    }

    method Negated() returns (r: Int128)
      ensures fresh(r) && r.Int() == Wrap(-Int())
    {
      NegateHalves(lo, hi);
      if lo == 0 {
        r := new Int128(0, Signed(-(hi as int)));
      } else {
        r := new Int128(BASE - lo, -1 - hi);
      }
    }

    method Increment()
      modifies this
      ensures Int() == Wrap(old(Int()) + 1)
    {
      IncrementHalves(lo, hi);
      lo := (lo + 1) % BASE;
      if lo == 0 { hi := Signed(hi + 1); }
    }

    method Decrement()
      modifies this
      ensures Int() == Wrap(old(Int()) - 1)
    {
      DecrementHalves(lo, hi);
      if lo == 0 { hi := Signed(hi - 1); }
      lo := (lo - 1) % BASE;
    }

    method Add(b: Int128)
      modifies this
      ensures Int() == Wrap(old(Int()) + old(b.Int()))
    {
      var oldLo := lo;
      ghost var oldHi, bLo, bHi := hi, b.lo, b.hi;
      lo := (lo + b.lo) % BASE;
      hi := Signed(hi + b.hi);
      AddHalves(oldLo, oldHi, bLo, bHi, lo, hi);
      if lo < oldLo { hi := Signed(hi + 1); }
    }

    method Subtract(b: Int128)
      modifies this
      ensures Int() == Wrap(old(Int()) - old(b.Int()))
    {
      var n := b.Negated();
      Add(n);
      WrapOfSum(-old(b.Int()), old(Int()));
    }

    method ShiftLeft(n: nat)
      modifies this
      ensures Int() == Wrap(old(Int()) * Pow2(n))
    {
      if n >= 128 {
        ShiftLeftOut(Int(), n);
        lo, hi := 0, 0;
        return;
      }
      if n >= 64 {
        ShiftLeftFar(lo, hi, n);
        hi := Signed(lo * Pow2(n - 64));
        lo := 0;
        return;
      }
      if n > 0 { ShiftLeftWithin(n); }
    }

    method ShiftLeftWithin(n: nat)
      requires 0 < n < 64
      modifies this
      ensures Int() == Wrap(old(Int()) * Pow2(n))
    {
      ShiftLeftHalves(lo, hi, n);
      hi := Signed(hi * Pow2(n));
      hi := Signed(Or(Unsigned(hi), MovedUp(lo, n)));
      lo := LeftLow(lo, n);
    }

    method ShiftRight(n: nat)
      modifies this
      ensures Int() == old(Int()) / Pow2(n)
    {
      if n >= 128 {
        ShiftOut(Int(), n);
        hi := if hi < 0 then -1 else 0;
        lo := Unsigned(hi);
        return;
      }
      if n >= 64 {
        ShiftRightFar(lo, hi, n);
        QuotientWithin(hi, Pow2(n - 64));
        lo := Unsigned(hi / Pow2(n - 64));
        hi := if hi < 0 then -1 else 0;
        return;
      }
      if n > 0 {
        ShiftRightHalves(lo, hi, n);
        ghost var h := hi;
        QuotientWithin(lo, Pow2(n));
        var low := lo / Pow2(n);
        var mask: nat := Pow2(n) - 1;
        lo := Or(low, And(Unsigned(hi), mask) * Pow2(64 - n) % BASE);
        hi := hi / Pow2(n);
      }
    }

    /** Bit n, the sign from bit 127 on. */
    method TestBit(n: nat) returns (b: bool)
      ensures b <==> Bit(Int(), n)
    {
      BitOfHalves(lo, hi, n);
      if n >= 128 { return hi < 0; }
      if n < 64 { return And(lo, Pow2(n)) != 0; }
      return And(Unsigned(hi), Pow2(n - 64)) != 0;
    }

    /** Sets or clears bit n. */
    method PutBit(n: nat, val: bool)
      modifies this
      ensures Int() == if n >= 128 || Bit(old(Int()), n) == val then old(Int())
                       else if val then old(Int()) + Weight(n) else old(Int()) - Weight(n)
    {
      if n >= 128 { return; }
      if n < 64 {
        PutLowNumber(lo, hi, n, val);
        lo := if val then Or(lo, Pow2(n)) else And(lo, Not(Pow2(n)));
      } else {
        PutHighNumber(lo, hi, n, val);
        PutLow(Unsigned(hi), n - 64);
        hi := Signed(if val then Or(Unsigned(hi), Pow2(n - 64)) else And(Unsigned(hi), Not(Pow2(n - 64))));
      }
    }

    method Multiply(b: Int128)
      modifies this
      ensures Int() == Wrap(old(Int()) * old(b.Int()))
    {
      if b.IsZero() {
        lo, hi := 0, 0;
        return;
      }
      if b.hi == 0 && b.lo == 1 { return; }
      ghost var bv := b.Int();
      var a := new Int128.Copy(this);
      var t := new Int128.Copy(b);
      ghost var av := a.Int();
      lo, hi := 0, 0;
      ProductStart(av, bv);
      for i := 0 to 128
        invariant a != this && t != this && a != t && fresh(a) && fresh(t)
        invariant a.Int() == av && t.Int() == bv / Pow2(i) && Int() == Wrap(av * (bv % Pow2(i)))
      {
        MultiplyRound(a, t, i, bv);
      }
      ProductDone(av, bv);
    }

    /** Adds what the lowest bit of what is left of the multiplier counts, and drops it. */
    method MultiplyRound(a: Int128, t: Int128, i: nat, ghost b: int)
      requires this != a && this != t && a != t
      requires t.Int() == b / Pow2(i) && Int() == Wrap(a.Int() * (b % Pow2(i)))
      modifies this, t
      ensures t.Int() == b / Pow2(i + 1) && Int() == Wrap(a.Int() * (b % Pow2(i + 1)))
    {
      LowBitOfQuotient(t.lo, t.hi, b, i);
      ProductStep(a.Int(), b, i);
      if And(t.lo, 1) != 0 {
        var shifted := new Int128.Copy(a);
        shifted.ShiftLeft(i);
        Add(shifted);
      }
      HalveTwice(b, i);
      t.ShiftRight(1);
    }

    /** Brings the next bit down to the remainder. */
    method BringDown(bit: bool)
      requires 2 * Int() + 1 <= INT128_MAX || (!bit && 2 * Int() <= INT128_MAX)
      requires Int() >= 0
      modifies this
      ensures Int() == 2 * old(Int()) + if bit then 1 else 0
    {
      assert Pow2(1) == 2;
      ghost var r := Int();
      ShiftLeft(1);
      if bit {
        LowBitJoins(lo, hi, r);
        lo := Or(lo, 1);
      }
    }

    /** Restoring division of magnitudes; the bit counter b is a 32-bit word that wraps around below zero. */
    static method DivideMagnitudes(dd: Int128, ds: Int128) returns (q: Int128, r: Int128)
      requires 0 < ds.Int() <= dd.Int()
      ensures Reaches(dd.Int(), ds.Int(), Ended)
      ensures fresh(q) && fresh(r) && q != r
      ensures dd.Int() == q.Int() * ds.Int() + r.Int() && 0 <= r.Int() < ds.Int() && 0 <= q.Int()
    {
      q := new Int128.From(0);
      var b;
      r, b := FirstBits(dd, ds);
      ghost var top: nat := 0;
      ghost var x, d := dd.Int(), ds.Int();
      ShiftLeftNothing(b);
      while true
        invariant fresh(q) && fresh(r) && q != r && b < 128
        invariant Restoring(x, d, b, q.Int(), r.Int(), top)
        invariant Reaches(x, d, Second(r.Int(), b))
        decreases b, r.Int() >= d
      {
        if r.Less(ds) {
          ghost var was := r.Int();
          if b == 0 {
            ReachesDown(x, d, was, 0, 0);
            break;
          }
          b := b - 1;
          RestoringShift(x, d, b + 1, q.Int(), r.Int(), top);
          var bit := dd.TestBit(b);
          r.BringDown(bit);
          ReachesDown(x, d, was, b + 1, r.Int());
          top := 2 * top;
        } else {
          ReachesOn(x, d, r.Int(), b);
          TakeAway(x, ds, b, q, r, top);
          top := top + 1;
        }
      }
      RestoringDone(x, d, q.Int(), r.Int(), top);
    }

    /** Takes the divisor from the remainder and counts it in the quotient. */
    static method TakeAway(ghost x: nat, ds: Int128, b: nat, q: Int128, r: Int128, ghost top: nat)
      requires q != r && ds != q && ds != r && 0 < ds.Int() && x <= INT128_MAX
      requires b < 128 && r.Int() >= ds.Int() && Restoring(x, ds.Int(), b, q.Int(), r.Int(), top)
      modifies q, r
      ensures Restoring(x, ds.Int(), b, q.Int(), r.Int(), top + 1) && r.Int() == old(r.Int()) - ds.Int() < ds.Int()
    {
      RestoringSubtract(x, ds.Int(), b, q.Int(), r.Int(), top);
      QuotientFits(x, ds.Int(), b, q.Int() + Pow2(b), r.Int() - ds.Int(), top + 1);
      QuotientFits(x, ds.Int(), b, q.Int(), r.Int(), top);
      BitWeighs(q.Int(), b);
      r.Subtract(ds);
      q.PutBit(b, true);
    }

    /** Brings down the next of the highest bits. */
    static method FirstRound(dd: Int128, ds: Int128, r: Int128, b: nat, ghost k: nat) returns (b': nat)
      requires r != dd && r != ds && 0 < ds.Int() <= dd.Int() && k <= 128 && b == Counter(k)
      requires Reaches(dd.Int(), ds.Int(), First(r.Int(), b)) && r.Int() == Shr(dd.Int(), k) && r.Int() < ds.Int()
      modifies r
      ensures k > 0 && b' == Counter(k - 1) && Reaches(dd.Int(), ds.Int(), First(r.Int(), b'))
      ensures r.Int() == Shr(dd.Int(), k - 1) && 0 <= r.Int() < 2 * ds.Int()
    {
      ghost var was := r.Int();
      BringFirst(dd.Int(), ds.Int(), k, was);
      CounterSteps(k);
      var bit := dd.TestBit(b);
      r.BringDown(bit);
      ReachesDown(dd.Int(), ds.Int(), was, b, r.Int());
      b' := (b - 1) % 0x1_0000_0000;
    }

    /** The highest bits of the dividend, as many as make up at least the divisor; b bits are left. */
    static method FirstBits(dd: Int128, ds: Int128) returns (r: Int128, b: nat)
      requires 0 < ds.Int() <= dd.Int()
      ensures fresh(r) && b < 128 && Reaches(dd.Int(), ds.Int(), Second(r.Int(), b))
      ensures r.Int() == Shr(dd.Int(), b) && ds.Int() <= r.Int() < 2 * ds.Int()
    {
      r := new Int128.From(0);
      b := 127;
      ghost var k: nat := 128;
      ghost var x, d := dd.Int(), ds.Int();
      NothingAbove(x, k);
      ReachesStart(x, d);
      while r.Less(ds)
        invariant fresh(r) && k <= 128 && b == Counter(k) && Reaches(x, d, First(r.Int(), b))
        invariant r.Int() == Shr(x, k) && 0 <= r.Int() < 2 * d && (k == 128 ==> r.Int() == 0)
        decreases k
      {
        b := FirstRound(dd, ds, r, b, k);
        k := k - 1;
      }
      FirstDone(x, d, r.Int(), b, k);
      b := (b + 1) % 0x1_0000_0000;
    }

    /**
     Quotient and remainder. Null stands for the trap of dividing by zero. With the smallest number as divisor
     the loop does not end (see ByMinNeverEnds).
     */
    method Div(divisor: Int128, remainder: Int128) returns (q: Int128?)
      requires divisor.Int() != INT128_MIN
      modifies remainder
      ensures q == null <==> old(divisor.Int()) == 0
      ensures q == null ==> unchanged(remainder)
      ensures q != null ==> fresh(q) && old(Int()) == q.Int() * old(divisor.Int()) + remainder.Int()
      ensures q != null ==>
        (Divides(old(Int()), old(divisor.Int()), q.Int(), remainder.Int()) <==> old(Int()) != INT128_MIN)
      ensures q != null && old(Int()) == INT128_MIN ==> q.Int() == 0 && remainder.Int() == INT128_MIN
    {
      if divisor.IsZero() { return null; }
      ghost var v, d := Int(), divisor.Int();
      var negative, divisorNegative := IsNegative(), divisor.IsNegative();
      var ds := divisor.Magnitude();
      var dd := Magnitude();
      if dd.Less(ds) {
        remainder.Assign(this);
        q := new Int128.From(0);
        return;
      }
      q := DivideSigned(dd, ds, divisorNegative, negative, remainder, v, d);
    }

    /** Magnitudes are divided and the signs corrected. */
    static method DivideSigned(dd: Int128, ds: Int128, divisorNegative: bool, negative: bool, remainder: Int128,
                               ghost v: int, ghost d: int)
      returns (q: Int128)
      requires 0 < ds.Int() <= dd.Int() && remainder != dd && remainder != ds
      requires dd.Int() == Abs(v) && ds.Int() == Abs(d) && (negative <==> v < 0) && (divisorNegative <==> d < 0)
      modifies remainder
      ensures fresh(q) && Divides(v, d, q.Int(), remainder.Int())
    {
      var r;
      q, r := DivideMagnitudes(dd, ds);
      SignsCorrected(v, d, q.Int(), r.Int());
      QuotientBounded(q.Int(), ds.Int(), r.Int(), dd.Int());
      if divisorNegative != negative { q := q.Negated(); }
      if negative { r := r.Negated(); }
      remainder.Assign(r);
    }

    predicate IsNegative()
      reads this
      ensures IsNegative() <==> Int() < 0
    {
      LessHalves(lo, hi, 0, 0)
    }

    method Magnitude() returns (r: Int128)
      ensures fresh(r) && r.Int() == if Int() == INT128_MIN then INT128_MIN else Abs(Int())
    {
      if IsNegative() { r := Negated(); } else { r := new Int128.Copy(this); }
    }

    /** The divisor may be this number itself. */
    method Divide(b: Int128) returns (ok: bool)
      requires b.Int() != INT128_MIN
      modifies this
      ensures ok <==> old(b.Int()) != 0
      ensures !ok ==> Int() == old(Int())
      ensures ok && old(Int()) == INT128_MIN ==> Int() == 0
      ensures ok && old(Int()) != INT128_MIN ==> exists r :: Divides(old(Int()), old(b.Int()), Int(), r)
    {
      ghost var v, d := Int(), b.Int();
      var dummy := new Int128.From(0);
      var q := Div(b, dummy);
      if q == null { return false; }
      Assign(q);
      assert v != INT128_MIN ==> Divides(v, d, Int(), dummy.Int());
      return true;
    }

    method Modulo(b: Int128) returns (ok: bool)
      requires b.Int() != INT128_MIN
      modifies this
      ensures ok <==> old(b.Int()) != 0
      ensures !ok ==> Int() == old(Int())
      ensures ok && old(Int()) == INT128_MIN ==> Int() == INT128_MIN
      ensures ok && old(Int()) != INT128_MIN ==> exists q :: Divides(old(Int()), old(b.Int()), q, Int())
    {
      ghost var v, d := Int(), b.Int();
      var q := Div(b, this);
      if q == null { return false; }
      assert v != INT128_MIN ==> Divides(v, d, q.Int(), Int());
      return true;
    }

    /** The text is built from the end of a buffer of 256 characters. */
    method ToString(radix: nat) returns (s: string)
      requires radix < 0x1_0000_0000
      ensures s == Printed(Int(), radix)
      ensures Int() == 0 ==> s == "0"
      ensures s == "(invalid radix)" <==> Int() != 0 && (radix < 2 || radix > 37)
      ensures 2 <= radix <= 37 && Int() > 0 ==> IsNumeral(s, Int(), radix)
      ensures 2 <= radix <= 37 && INT128_MIN < Int() < 0 ==> |s| > 1 && s[0] == '-' && IsNumeral(s[1..], -Int(), radix)
      ensures 2 <= radix <= 37 && Int() == INT128_MIN ==> s == "-0"
    {
      PrintedIsText(Int(), radix);
      if IsZero() { return "0"; }
      if radix < 2 || radix > 37 { return "(invalid radix)"; }
      var sz := new char[256](_ => NUL);
      var ii := Magnitude();
      var i := PrintDigits(ii, radix, sz);
      if IsNegative() { i := PutChar(sz, i, '-'); }
      return sz[i..255];
    }

    static method PrintDigits(n: Int128, radix: nat, sz: array<char>) returns (i: nat)
      requires ValidRadix(radix) && sz.Length == 256 && (n.Int() > 0 || n.Int() == INT128_MIN)
      modifies sz
      ensures 128 <= i <= 255
      ensures sz[i..255] == ToPrint(n.Int(), radix)
    {
      var r := new Int128.From(0);
      i := 255;
      var aux := new Int128.From(radix);
      var ii: Int128 := n;
      ghost var v := n.Int();
      Pow2Of128();
      while !ii.IsZero() && i != 0
        invariant fresh(r) && r != aux && r != n && r != ii && aux.Int() == radix && 128 <= i <= 255
        invariant Printable(ii.Int(), i - 128) && (ii.Int() == INT128_MIN ==> i == 255)
        invariant ToPrint(v, radix) == ToPrint(ii.Int(), radix) + sz[i..255]
        decreases i
      {
        i, ii := PrintDigit(ii, aux, r, radix, sz, i);
      }
    }

    /** The last digit of a number, in front of those printed. */
    static method PrintDigit(ii: Int128, aux: Int128, r: Int128, ghost radix: nat, sz: array<char>, i0: nat)
      returns (i: nat, q: Int128)
      requires r != aux && r != ii && ValidRadix(radix) && aux.Int() == radix && sz.Length == 256 && 128 <= i0 <= 255
      requires ii.Int() != 0 && Printable(ii.Int(), i0 - 128) && (ii.Int() == INT128_MIN ==> i0 == 255)
      modifies r, sz
      ensures fresh(q) && 128 <= i < i0 && Printable(q.Int(), i - 128) && q.Int() != INT128_MIN
      ensures ToPrint(ii.Int(), radix) + old(sz[i0..255]) == ToPrint(q.Int(), radix) + sz[i..255]
    {
      q := ii.Div(aux, r);
      DigitDivided(old(ii.Int()), radix, q.Int(), r.Int(), i0 - 128, r.lo, r.hi);
      i := PutChar(sz, i0, DigitChar(r.lo % 0x1_0000_0000));
    }

    static method PutChar(sz: array<char>, i0: nat, c: char) returns (i: nat)
      requires sz.Length == 256 && 0 < i0 <= 255
      modifies sz
      ensures i == i0 - 1 && sz[i..255] == [c] + old(sz[i0..255])
    {
      i := i0 - 1;
      sz[i] := c;
    }

    /** Reads a text; characters from the first that is not a digit on are ignored. */
    method Set(sz: string)
      requires NUL !in sz
      modifies this
      ensures Int() == Parsed(sz)
    {
      lo, hi := 0, 0;
      if sz == "" { return; }
      var i, radix, minus := ReadPrefix(sz);
      ReadDigits(sz, i, radix);
      if minus {
        var n := new Int128.From(0);
        n.Subtract(this);
        Assign(n);
      }
    }

    static method ReadPrefix(sz: string) returns (i: nat, radix: nat, minus: bool)
      requires sz != ""
      ensures i == PrefixEnd(sz) && radix == RadixOf(sz) && (minus <==> sz[0] == '-')
      ensures var rest := if minus then sz[1..] else sz;
        && (radix == 16 <==> "0x" <= rest) && (radix == 8 <==> "0" <= rest && !("0x" <= rest))
        && (radix != 8 && radix != 16 ==> radix == 10)
        && i <= |sz| && sz[i..] == rest[if radix == 16 then 2 else if radix == 8 then 1 else 0..]
    {
      radix := 10;
      i := 0;
      minus := false;
      if sz[i] == '-' {
        i := i + 1;
        minus := true;
      }
      if At(sz, i) == '0' {
        radix := 8;
        i := i + 1;
        if At(sz, i) == 'x' {
          radix := 16;
          i := i + 1;
        }
      }
    }

    method ReadDigits(sz: string, start: nat, radix: nat)
      requires radix == 8 || radix == 10 || radix == 16
      modifies this
      ensures Int() == Accumulate(sz, start, radix, old(Int()))
    {
      var i := start;
      var factor := new Int128.From(radix);
      while i < |sz|
        invariant fresh(factor) && factor.Int() == radix
        invariant Accumulate(sz, start, radix, old(Int())) == Accumulate(sz, i, radix, Int())
        decreases |sz| - i
      {
        var n := DigitOf(sz[i], radix);
        if n < 0 { break; }
        AccumulateOn(sz, i, radix, Int());
        TakeDigit(factor, n);
        i := i + 1;
      }
    }

    /** One more digit behind those read. */
    method TakeDigit(factor: Int128, n: int)
      requires factor != this && 0 <= n < BASE
      modifies this
      ensures Int() == Wrap(Wrap(old(Int()) * factor.Int()) + n)
    {
      Multiply(factor);
      var digit := new Int128.From(n);
      Add(digit);
    }
  }
}
