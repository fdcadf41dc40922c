/** Printing 128-bit numbers in a radix, and reading them back. */
module Int128Text {
  import opened CStrings
  import opened MachineWords
  import opened Int128Arithmetic
  import opened Int128Division

  // ---------- printing ----------

  predicate ValidRadix(radix: nat) {
    2 <= radix <= 37
  }

  function DigitChar(c: nat): char
    requires c < 37
  {
    (c + if c > 9 then 'A' as int - 10 else '0' as int) as char
  }

  /** The digits of n, without leading zeros; none for zero. */
  function Digits(n: nat, radix: nat): string
    requires ValidRadix(radix)
  {
    if n == 0 then "" else Digits(n / radix, radix) + [DigitChar(n % radix)]
  }

  /**
   What is printed for v. The smallest number has no magnitude within range, and only its low half's zero is printed.
   */
  function Printed(v: int, radix: nat): string
    requires InRange(v)
  {
    if v == 0 then "0"
    else if !ValidRadix(radix) then "(invalid radix)"
    else if v == INT128_MIN then "-0"
    else if v < 0 then "-" + Digits(-v, radix)
    else Digits(v, radix)
  }

  /** The text of a number in a radix: 0 alone, otherwise its digits, with a sign in front if it is negative. */
  predicate TextOf(s: string, v: int, radix: nat) {
    if v == 0 then s == "0"
    else if v > 0 then IsNumeral(s, v, radix)
    else |s| > 1 && s[0] == '-' && IsNumeral(s[1..], -v, radix)
  }

  /** Numbers above the smallest one are printed as their texts, and the error text for no valid radix. */
  lemma PrintedIsText(v: int, radix: nat)
    requires InRange(v)
    ensures ValidRadix(radix) && v != INT128_MIN ==> TextOf(Printed(v, radix), v, radix)
    ensures Printed(v, radix) == "(invalid radix)" <==> v != 0 && !ValidRadix(radix)
  {
    Pow2Of128();
    if ValidRadix(radix) && v > INT128_MIN {
      DigitsEvaluate(Abs(v), radix, 127);
      if v < 0 { assert Printed(v, radix)[1..] == Digits(-v, radix); }
      TextIsNoError(Printed(v, radix), v, radix);
    }
  }

  lemma TextIsNoError(s: string, v: int, radix: nat)
    requires TextOf(s, v, radix)
    ensures s != "" && s[0] != '(' && s != "(invalid radix)"
  {
  }

  lemma LettersArePrinted()
    ensures Printed(255, 16) == "FF" && Printed(-1295, 36) == "-ZZ"
  {
    assert Digits(15, 16) == "F" && Digits(35, 36) == "Z";
  }

  /** A text is that of one number only. */
  lemma TextDetermines(s: string, v: int, w: int, radix: nat)
    requires TextOf(s, v, radix) && TextOf(s, w, radix)
    ensures v == w
  {
    if v > 0 { assert s[0] != '-'; }
  }

  function DigitValue(c: char): int {
    if '0' <= c <= '9' then c as int - '0' as int else if c >= 'A' then c as int - 'A' as int + 10 else -1
  }

  /** The number a text of digits stands for. */
  function Evaluate(s: string, radix: nat): int {
    if s == "" then 0 else Evaluate(s[..|s| - 1], radix) * radix + DigitValue(s[|s| - 1])
  }

  /** The digits of n evaluate to n, have no leading zero, and fit the number of bits of n. */
  lemma DigitsEvaluate(n: nat, radix: nat, bits: nat)
    requires ValidRadix(radix) && n < Pow2(bits)
    ensures IsNumeral(Digits(n, radix), n, radix) && |Digits(n, radix)| <= bits
  {
    DigitsAreNumeral(n, radix);
    DigitsFit(n, radix, bits);
  }

  lemma {:induction false} DigitsAreNumeral(n: nat, radix: nat)
    requires ValidRadix(radix)
    ensures IsNumeral(Digits(n, radix), n, radix)
    decreases n
  {
    if n > 0 {
      QuotientSmaller(n, radix);
      DigitsAreNumeral(n / radix, radix);
      DigitsOnwards(n, radix, n / radix, n % radix);
    }
  }

  lemma {:induction false} DigitsFit(n: nat, radix: nat, bits: nat)
    requires ValidRadix(radix) && n < Pow2(bits)
    ensures |Digits(n, radix)| <= bits
    decreases n
  {
    if n > 0 {
      QuotientSmaller(n, radix);
      LessBits(n, n / radix, bits);
      DigitsFit(n / radix, radix, bits - 1);
    }
  }

  lemma DigitsOnwards(n: nat, radix: nat, q: nat, d: nat)
    requires ValidRadix(radix) && n > 0 && q == n / radix && d == n % radix && n == q * radix + d
    requires IsNumeral(Digits(q, radix), q, radix)
    ensures IsNumeral(Digits(n, radix), n, radix)
  {
    DigitAppended(Digits(q, radix), q, d, radix);
  }

  /** The text evaluates to n and has digits of the radix only, the first of which is not zero. */
  predicate IsNumeral(s: string, n: nat, radix: nat) {
    && Evaluate(s, radix) == n && (n > 0 <==> s != "") && (n > 0 ==> s[0] != '0' && s[0] != '-')
    && forall i :: 0 <= i < |s| ==> ('0' <= s[i] <= '9' || 'A' <= s[i] <= '[') && 0 <= DigitValue(s[i]) < radix
  }

  /** So a number has one numeral only, and the digits printed are it. */
  lemma {:induction false} NumeralIsDigits(s: string, n: nat, radix: nat)
    requires ValidRadix(radix) && IsNumeral(s, n, radix)
    ensures s == Digits(n, radix)
    decreases |s|
  {
    if s != "" {
      var front, d := s[..|s| - 1], DigitValue(s[|s| - 1]);
      if front != "" {
        LeadingDigitCounts(front, radix);
        assert front[0] == s[0];
      }
      LastDigit(n, radix, Evaluate(front, radix), d);
      NumeralIsDigits(front, Evaluate(front, radix), radix);
      assert s == front + [DigitChar(d)];
    }
  }

  lemma {:induction false} LeadingDigitCounts(s: string, radix: nat)
    requires ValidRadix(radix) && s != "" && s[0] != '0'
    requires forall i :: 0 <= i < |s| ==> ('0' <= s[i] <= '9' || 'A' <= s[i] <= '[') && 0 <= DigitValue(s[i]) < radix
    ensures Evaluate(s, radix) > 0
  {
    var front := s[..|s| - 1];
    if front == "" {
      assert Evaluate(front, radix) * radix == 0;
    } else {
      LeadingDigitCounts(front, radix);
      MulGrows(radix, 1, Evaluate(front, radix));
    }
  }

  lemma LastDigit(n: nat, radix: nat, q: int, d: int)
    requires radix > 0 && n == q * radix + d && 0 <= d < radix
    ensures q >= 0 && n / radix == q && n % radix == d
  {
    QuotientIs(n, radix, q, d);
    assert n % radix == n - n / radix * radix;
  }

  lemma DigitAppended(front: string, q: nat, d: nat, radix: nat)
    requires ValidRadix(radix) && IsNumeral(front, q, radix) && d < radix && q + d > 0
    ensures q * radix >= 0 && IsNumeral(front + [DigitChar(d)], q * radix + d, radix)
  {
    var s := front + [DigitChar(d)];
    assert s[..|front|] == front && DigitValue(DigitChar(d)) == d;
    MulGrows(radix, 1, q);
  }

  lemma QuotientSmaller(n: nat, radix: nat)
    requires n > 0 && radix >= 2
    ensures 2 * (n / radix) <= n && n / radix * radix + n % radix == n
  {
    MulGrows(radix, 2, n / radix);
    assert radix * (n / radix) == n / radix * radix;
  }

  /** What is still to be printed of a magnitude. */
  function ToPrint(m: int, radix: nat): string
    requires ValidRadix(radix)
  {
    if m == INT128_MIN then "0" else if m <= 0 then "" else Digits(m, radix)
  }

  predicate Printable(m: int, bits: nat) {
    m == INT128_MIN || 0 <= m < Pow2(bits)
  }

  /** Quotient and remainder of division by the radix, also for the smallest number. */
  predicate DividedByRadix(m: int, radix: nat, q: int, r: int) {
    if m == INT128_MIN then q == 0 && r == m else Divides(m, radix, q, r)
  }

  /** One step of printing: the remainder is the last digit, and the quotient has a bit less. */
  lemma DigitDivided(m: int, radix: nat, q: int, r: int, bits: nat, lo: Word, hi: Half)
    requires ValidRadix(radix) && Printable(m, bits) && m != 0 && DividedByRadix(m, radix, q, r) && r == Number(lo, hi)
    ensures lo % 0x1_0000_0000 < radix && ToPrint(m, radix) == ToPrint(q, radix) + [DigitChar(lo % 0x1_0000_0000)]
    ensures q != INT128_MIN && (m == INT128_MIN ==> q == 0) && (m != INT128_MIN ==> bits > 0 && Printable(q, bits - 1))
  {
    if m == INT128_MIN {
      assert lo == 0;
    } else {
      MagnitudeDivided(m, radix, q, r, bits);
      SmallLow(lo, hi);
    }
  }

  lemma SmallLow(lo: Word, hi: Half)
    requires 0 <= Number(lo, hi) < 37
    ensures lo % 0x1_0000_0000 == Number(lo, hi)
  {
  }

  lemma MagnitudeDivided(m: nat, radix: nat, q: int, r: int, bits: nat)
    requires ValidRadix(radix) && 0 < m < Pow2(bits) && Divides(m, radix, q, r)
    ensures q == m / radix && r == m % radix && bits > 0 && 0 <= q < Pow2(bits - 1)
    ensures Digits(m, radix) == Digits(q, radix) + [DigitChar(r)]
  {
    TruncatedIs(m, radix, q, r);
    LessBits(m, q, bits);
  }

  lemma TruncatedIs(m: nat, radix: nat, q: int, r: int)
    requires radix > 0 && Divides(m, radix, q, r)
    ensures q == m / radix && r == m % radix && (radix >= 2 && m > 0 ==> 0 <= 2 * q <= m)
  {
    if radix >= 2 && m > 0 { QuotientSmaller(m, radix); }
    DivMod(m, radix);
    DivisionUnique(m, radix, q, r, m / radix, m % radix);
  }

  lemma LessBits(m: nat, q: nat, bits: nat)
    requires 0 < m < Pow2(bits) && 2 * q <= m
    ensures bits > 0 && q < Pow2(bits - 1)
  {
    assert Pow2(0) == 1;
  }

  // ---------- reading ----------

  /** The value of a digit, or -1; the bound for letters is one too high. */
  function DigitOf(c: char, radix: nat): int {
    if '0' <= c <= '9' && c as int < '0' as int + radix then c as int - '0' as int
    else if c >= 'a' && c as int <= 'a' as int + radix - 10 then c as int - 'a' as int + 10
    else if c >= 'A' && c as int <= 'A' as int + radix - 10 then c as int - 'A' as int + 10
    else -1
  }

  /** Reads digits from i on into acc, wrapping around. */
  function Accumulate(s: string, i: nat, radix: nat, acc: int): int
    decreases |s| - i
  {
    if i >= |s| || DigitOf(s[i], radix) < 0 then acc
    else Accumulate(s, i + 1, radix, Wrap(Wrap(acc * radix) + DigitOf(s[i], radix)))
  }

  lemma AccumulateOn(s: string, i: nat, radix: nat, acc: int)
    requires i < |s| && DigitOf(s[i], radix) >= 0
    ensures Accumulate(s, i, radix, acc) == Accumulate(s, i + 1, radix, Wrap(Wrap(acc * radix) + DigitOf(s[i], radix)))
  {
  }

  /** The same without wrapping around. */
  function Unbounded(s: string, i: nat, radix: nat, acc: int): int
    decreases |s| - i
  {
    if i >= |s| || DigitOf(s[i], radix) < 0 then acc
    else Unbounded(s, i + 1, radix, acc * radix + DigitOf(s[i], radix))
  }

  function SignEnd(s: string): nat {
    if At(s, 0) == '-' then 1 else 0
  }

  function RadixOf(s: string): nat {
    if At(s, SignEnd(s)) != '0' then 10 else if At(s, SignEnd(s) + 1) != 'x' then 8 else 16
  }

  function PrefixEnd(s: string): nat {
    SignEnd(s) + if RadixOf(s) == 10 then 0 else if RadixOf(s) == 8 then 1 else 2
  }

  /** The number read from a text. */
  function Parsed(s: string): int {
    var n := Accumulate(s, PrefixEnd(s), RadixOf(s), 0);
    if At(s, 0) == '-' then Wrap(-n) else n
  }

  lemma AccumulateStep(acc: int, radix: nat, n: int)
    ensures Wrap(Wrap(Wrap(acc) * radix) + n) == Wrap(acc * radix + n)
  {
    WrapOfProduct(acc, radix);
    WrapOfSum(acc * radix, n);
  }

  lemma {:induction false} AccumulateWraps(s: string, i: nat, radix: nat, acc: int)
    ensures Accumulate(s, i, radix, Wrap(acc)) == Wrap(Unbounded(s, i, radix, acc))
    decreases |s| - i
  {
    if i < |s| && DigitOf(s[i], radix) >= 0 {
      AccumulateStep(acc, radix, DigitOf(s[i], radix));
      AccumulateWraps(s, i + 1, radix, acc * radix + DigitOf(s[i], radix));
    }
  }

  /** A number of any length is read modulo 2^128. */
  lemma ParsedIsModular(s: string)
    ensures var n := Unbounded(s, PrefixEnd(s), RadixOf(s), 0);
      Parsed(s) == Wrap(if At(s, 0) == '-' then -n else n)
  {
    var n := Unbounded(s, PrefixEnd(s), RadixOf(s), 0);
    AccumulateWraps(s, PrefixEnd(s), RadixOf(s), 0);
    WrapOfNegated(n);
  }

  lemma WrapOfNegated(n: int)
    ensures Wrap(-Wrap(n)) == Wrap(-n)
  {
    var k := WrapOff(n);
    var m := WrapOff(-Wrap(n));
    WrapIs(Wrap(-Wrap(n)), -n, m - k);
  }

  // ---------- which characters are digits ----------

  predicate ReadRadix(radix: nat) {
    radix == 8 || radix == 10 || radix == 16
  }

  /** What a digit or a letter of either case counts, -1 for others. */
  function ProperValue(c: char): int {
    if '0' <= c <= '9' then c as int - '0' as int
    else if 'A' <= c <= 'Z' then 10 + (c as int - 'A' as int)
    else if 'a' <= c <= 'z' then 10 + (c as int - 'a' as int)
    else -1
  }

  /** The digits of a radix. */
  predicate ProperDigit(c: char, radix: nat) {
    0 <= ProperValue(c) < radix
  }

  /** The letter behind the last digit: the first one for decimal numbers, G for hexadecimal ones. */
  predicate ExtraLetter(c: char, radix: nat) {
    radix >= 10 && (c as int == 'a' as int + radix - 10 || c as int == 'A' as int + radix - 10)
  }

  /**
   What is read as a digit: the digits of the radix and, exactly from ten on, that letter, which counts as the radix.
   */
  lemma DigitReadIff(c: char, radix: nat)
    requires ReadRadix(radix)
    ensures DigitOf(c, radix) >= 0 <==> ProperDigit(c, radix) || ExtraLetter(c, radix)
    ensures 0 <= DigitOf(c, radix) < radix <==> ProperDigit(c, radix)
    ensures DigitOf(c, radix) == radix <==> ExtraLetter(c, radix)
    ensures ProperDigit(c, radix) ==> DigitOf(c, radix) == ProperValue(c)
  {
  }

  /** Where the digits of the radix end. */
  function ProperEnd(s: string, i: nat, radix: nat): (e: nat)
    requires i <= |s|
    ensures i <= e <= |s|
    decreases |s| - i
  {
    if i < |s| && ProperDigit(s[i], radix) then ProperEnd(s, i + 1, radix) else i
  }

  /** The number the digits of the radix from i on stand for, behind acc. */
  function Proper(s: string, i: nat, radix: nat, acc: int): int
    decreases |s| - i
  {
    if i >= |s| || !ProperDigit(s[i], radix) then acc
    else Proper(s, i + 1, radix, acc * radix + ProperValue(s[i]))
  }

  lemma {:induction false} ReadsMore(s: string, i: nat, radix: nat, acc: int)
    requires ReadRadix(radix) && acc >= 0
    ensures Unbounded(s, i, radix, acc) >= acc
    decreases |s| - i
  {
    if i < |s| && DigitOf(s[i], radix) >= 0 {
      Larger(acc, radix, DigitOf(s[i], radix));
      ReadsMore(s, i + 1, radix, acc * radix + DigitOf(s[i], radix));
    }
  }

  lemma Larger(acc: int, radix: int, d: int)
    requires acc >= 0 && radix >= 2 && d >= 0
    ensures acc * radix + d >= acc && (d > 0 ==> acc * radix + d > acc)
  {
    MulGrows(radix, 1, acc);
  }

  /** A text is read as its digits exactly if the character they end at is not that letter. */
  lemma {:induction false} ReadsProperlyIff(s: string, i: nat, radix: nat, acc: int)
    requires ReadRadix(radix) && i <= |s| && acc >= 0
    ensures Unbounded(s, i, radix, acc) == Proper(s, i, radix, acc) <==>
      !(ProperEnd(s, i, radix) < |s| && ExtraLetter(s[ProperEnd(s, i, radix)], radix))
    decreases |s| - i
  {
    if i < |s| {
      DigitReadIff(s[i], radix);
      var next := acc * radix + DigitOf(s[i], radix);
      if ProperDigit(s[i], radix) {
        Larger(acc, radix, DigitOf(s[i], radix));
        ReadsProperlyIff(s, i + 1, radix, next);
      } else if ExtraLetter(s[i], radix) {
        Larger(acc, radix, radix);
        ReadsMore(s, i + 1, radix, next);
      }
    }
  }

  /** The number a text should stand for. */
  function Meant(s: string): int
    requires PrefixEnd(s) <= |s|
  {
    var n := Proper(s, PrefixEnd(s), RadixOf(s), 0);
    if At(s, 0) == '-' then -n else n
  }

  /** Numbers in range are read as they should exactly if their digits do not end at that letter. */
  lemma ParsedProperlyIff(s: string)
    requires Unbounded(s, PrefixEnd(s), RadixOf(s), 0) <= INT128_MAX
    ensures PrefixEnd(s) <= |s|
    ensures var e := ProperEnd(s, PrefixEnd(s), RadixOf(s));
      Parsed(s) == Meant(s) <==> !(e < |s| && ExtraLetter(s[e], RadixOf(s)))
  {
    ReadsProperlyIff(s, PrefixEnd(s), RadixOf(s), 0);
    ReadsMore(s, PrefixEnd(s), RadixOf(s), 0);
    ParsedIsModular(s);
  }

  /** A letter alone is read as the number ten, and a hexadecimal number may have a digit of sixteen. */
  lemma ExtraLettersRead()
    ensures Parsed("a") == 10 && Meant("a") == 0
    ensures Parsed("0xg") == 16 && Meant("0xg") == 0
  {
    assert Unbounded("a", 1, 10, 10) == 10;
    assert Unbounded("0xg", 3, 16, 16) == 16;
    ParsedIsModular("a");
    ParsedIsModular("0xg");
  }

  // ---------- the round trip ----------

  lemma {:induction false} ReadsDigits(s: string, i: nat, radix: nat)
    requires ReadRadix(radix) && i <= |s| && forall j :: i <= j < |s| ==> IsPrintedDigit(s[j], radix)
    ensures Unbounded(s, i, radix, Evaluate(s[..i], radix)) == Evaluate(s, radix)
    decreases |s| - i
  {
    if i == |s| {
      assert s[..i] == s;
    } else {
      assert s[..i + 1][..i] == s[..i];
      ReadsDigits(s, i + 1, radix);
    }
  }

  /** Printed digits and letters are those read. */
  predicate IsPrintedDigit(c: char, radix: nat) {
    ('0' <= c <= '9' || 'A' <= c) && 0 <= DigitValue(c) < radix
  }

  lemma NumeralStands(n: nat, radix: nat)
    requires 0 < n <= INT128_MAX && ReadRadix(radix)
    ensures var s := Digits(n, radix);
      s != "" && IsPrintedDigit(s[0], radix) && s[0] != '0' && Unbounded(s, 0, radix, 0) == n
  {
    Pow2Of128();
    DigitsEvaluate(n, radix, 127);
    var s := Digits(n, radix);
    assert 0 <= DigitValue(s[0]) < radix;
    ReadsDigits(s, 0, radix);
    assert s[..0] == "";
  }

  /** What goes in front of the digits for a radix. */
  function Prefix(radix: nat): string
    requires ReadRadix(radix)
  {
    if radix == 10 then "" else if radix == 8 then "0" else "0x"
  }

  lemma PrefixRead(s: string, radix: nat)
    requires ReadRadix(radix) && s != "" && IsPrintedDigit(s[0], radix) && s[0] != '0'
    ensures var t := Prefix(radix) + s; RadixOf(t) == radix && PrefixEnd(t) == |Prefix(radix)| && At(t, 0) != '-'
    ensures var t := "-" + (Prefix(radix) + s);
      RadixOf(t) == radix && PrefixEnd(t) == 1 + |Prefix(radix)| && At(t, 0) == '-'
  {
    var t := Prefix(radix) + s;
    assert t[|Prefix(radix)|] == s[0];
    assert forall i :: 0 <= i < |t| ==> ("-" + t)[i + 1] == t[i];
  }

  /** A positive number or its negative is read from its digits in each radix. */
  lemma ReadsNumeral(n: nat, radix: nat)
    requires 0 < n <= INT128_MAX && ReadRadix(radix)
    ensures Parsed(Prefix(radix) + Digits(n, radix)) == n
    ensures Parsed("-" + (Prefix(radix) + Digits(n, radix))) == -(n as int)
  {
    var s := Digits(n, radix);
    var t := Prefix(radix) + s;
    NumeralStands(n, radix);
    PrefixRead(s, radix);
    Shifted(Prefix(radix), s, 0, radix, 0);
    Shifted("-", t, |Prefix(radix)|, radix, 0);
    ParsedIs(t, n);
    ParsedIs("-" + t, n);
  }

  lemma ParsedIs(s: string, n: nat)
    requires n <= INT128_MAX && Unbounded(s, PrefixEnd(s), RadixOf(s), 0) == n
    ensures Parsed(s) == if At(s, 0) == '-' then -(n as int) else n
  {
    ParsedIsModular(s);
  }

  lemma {:induction false} Shifted(t: string, s: string, i: nat, radix: nat, acc: int)
    ensures Unbounded(t + s, |t| + i, radix, acc) == Unbounded(s, i, radix, acc)
    decreases |s| - i
  {
    if i < |s| {
      assert (t + s)[|t| + i] == s[i];
      if DigitOf(s[i], radix) >= 0 { Shifted(t, s, i + 1, radix, acc * radix + DigitOf(s[i], radix)); }
    }
  }

  /** A number is read back as it was printed, except the smallest one. */
  lemma RoundTripIff(v: int)
    requires InRange(v)
    ensures Parsed(Printed(v, 10)) == v <==> v != INT128_MIN
  {
    if v == 0 || v == INT128_MIN {
      assert Accumulate("0", 1, 8, 0) == 0;
      assert Accumulate("-0", 2, 8, 0) == 0;
    } else {
      ReadsNumeral(Abs(v), 10);
      assert Prefix(10) + Digits(Abs(v), 10) == Digits(Abs(v), 10);
    }
  }
}
