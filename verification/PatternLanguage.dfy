/**
 What a list of pattern elements means, independently of how it is matched: a line belongs to the
 language of the list if it can be cut into pieces, one for each element, that suit the elements.
 */
module PatternLanguage {
  import opened CStrings

  const LONG_MAX: int := 0x7FFF_FFFF_FFFF_FFFF

  /** Elements of a tokenized pattern; setChars holds pairs of characters, range ends of -1 are unset. */
  datatype Elem =
    | Literal(text: string)
    | AnyChar
    | CommonChar
    | Set(setChars: string)
    | NegSet(setChars: string)
    | NumRange(from: int, to: int)
    | AnySeq
    | CommonSeq
    | End

  // ---------- characters and numbers ----------

  predicate IsDigit(c: char) {
    '0' <= c <= '9'
  }

  function ToUpper(c: char): char {
    if 'a' <= c <= 'z' then 'A' + (c - 'a') else c
  }

  predicate SameChar(c: char, d: char, exact: bool) {
    if exact then c == d else ToUpper(c) == ToUpper(d)
  }

  predicate SameText(s: string, t: string, exact: bool) {
    |s| == |t| && forall i :: 0 <= i < |s| ==> SameChar(s[i], t[i], exact)
  }

  predicate Digits(s: string) {
    forall i :: 0 <= i < |s| ==> IsDigit(s[i])
  }

  function Value(s: string): nat {
    if s == "" then 0 else 10 * Value(s[..|s| - 1]) + if IsDigit(s[|s| - 1]) then (s[|s| - 1] - '0') as int else 0
  }

  /** A set is a list of pairs; a character is in it if some pair spans it. */
  ghost predicate InSet(c: char, pairs: string) {
    exists i :: 0 <= i && 2 * i + 1 < |pairs| && Spans(pairs, i, c)
  }

  predicate Spans(pairs: string, i: nat, c: char)
    requires 2 * i + 1 < |pairs|
  {
    pairs[2 * i] <= c <= pairs[2 * i + 1]
  }

  /** Case-insensitive sets are stored in upper case, and compare with the upper-case character. */
  ghost predicate CharInSet(c: char, pairs: string, caseSensitive: bool) {
    InSet(if caseSensitive then c else ToUpper(c), pairs)
  }

  /** A number that does not fit a long reads as LONG_MAX, so an upper end of LONG_MAX bounds nothing. */
  predicate InRange(n: nat, from: int, to: int) {
    (from >= 0 ==> from <= n) && (to >= 0 && to < LONG_MAX ==> n <= to)
  }

  // ---------- the language ----------

  /** The piece w suits element e if next is the character behind it. */
  ghost predicate Suits(e: Elem, w: string, next: char, caseSensitive: bool, exactLiteral: bool) {
    match e
    case Literal(text) => SameText(w, text, exactLiteral)
    case AnyChar => |w| == 1
    case CommonChar => |w| == 1 && w[0] != '.'
    case Set(pairs) => |w| == 1 && CharInSet(w[0], pairs, caseSensitive)
    case NegSet(pairs) => |w| == 1 && !CharInSet(w[0], pairs, caseSensitive)
    case NumRange(from, to) => w != "" && Digits(w) && !IsDigit(next) && InRange(Value(w), from, to)
    case AnySeq => true
    case CommonSeq => '.' !in w
    case End => false
  }

  /** How literals compare, position by position. */
  type Exactness = seq<bool>

  /** Piece i of s lies between cuts[i] and cuts[i + 1] and suits element i. */
  ghost predicate Piece(es: seq<Elem>, exact: Exactness, caseSensitive: bool, s: string, cuts: seq<nat>, i: nat)
    requires |exact| == |es| && |cuts| == |es| + 1 && i < |es|
  {
    cuts[i] <= cuts[i + 1] <= |s| && First(es[i], exact[i], caseSensitive, s, cuts[i], cuts[i + 1])
  }

  ghost predicate First(e: Elem, exact: bool, caseSensitive: bool, s: string, from: nat, to: nat)
    requires from <= to <= |s|
  {
    Suits(e, s[from..to], At(s, to), caseSensitive, exact)
  }

  /** The rest of s from position from is cut into one piece for each element. */
  ghost predicate Cut(es: seq<Elem>, exact: Exactness, caseSensitive: bool, s: string, from: nat, cuts: seq<nat>)
    requires |exact| == |es|
  {
    && |cuts| == |es| + 1 && cuts[0] == from && cuts[|es|] == |s|
    && (forall i {:trigger Piece(es, exact, caseSensitive, s, cuts, i)} :: 0 <= i < |es| ==>
        Piece(es, exact, caseSensitive, s, cuts, i))
  }

  /** The rest of s from position from belongs to the language of es. */
  ghost predicate Language(es: seq<Elem>, exact: Exactness, caseSensitive: bool, s: string, from: nat)
    requires |exact| == |es|
  {
    exists cuts :: Cut(es, exact, caseSensitive, s, from, cuts)
  }

  // ---------- unfolding ----------

  lemma LanguageOfNothing(caseSensitive: bool, s: string, from: nat)
    ensures Language([], [], caseSensitive, s, from) <==> from == |s|
  {
    if from == |s| {
      assert Cut([], [], caseSensitive, s, from, [from]);
    }
  }

  /** The first piece ends at to and the rest belongs to the language of the other elements. */
  ghost predicate Begins(es: seq<Elem>, exact: Exactness, caseSensitive: bool, s: string, from: nat, to: nat)
    requires |exact| == |es| && es != []
  {
    from <= to <= |s| && First(es[0], exact[0], caseSensitive, s, from, to)
    && Language(es[1..], exact[1..], caseSensitive, s, to)
  }

  /** A line belongs to the language of a nonempty list if it begins with a suitable piece and goes on suitably. */
  lemma LanguageSteps(es: seq<Elem>, exact: Exactness, caseSensitive: bool, s: string, from: nat)
    requires |exact| == |es| && es != []
    ensures Language(es, exact, caseSensitive, s, from) <==> exists to :: Begins(es, exact, caseSensitive, s, from, to)
  {
    if Language(es, exact, caseSensitive, s, from) {
      var cuts :| Cut(es, exact, caseSensitive, s, from, cuts);
      assert Piece(es, exact, caseSensitive, s, cuts, 0);
      Behead(es, exact, caseSensitive, s, from, cuts);
      assert Begins(es, exact, caseSensitive, s, from, cuts[1]);
    }
    if to: nat :| Begins(es, exact, caseSensitive, s, from, to) {
      var cuts :| Cut(es[1..], exact[1..], caseSensitive, s, to, cuts);
      Prepend(es, exact, caseSensitive, s, from, cuts);
    }
  }

  lemma Behead(es: seq<Elem>, exact: Exactness, caseSensitive: bool, s: string, from: nat, cuts: seq<nat>)
    requires |exact| == |es| && es != [] && Cut(es, exact, caseSensitive, s, from, cuts)
    ensures Cut(es[1..], exact[1..], caseSensitive, s, cuts[1], cuts[1..])
  {
    forall i | 0 <= i < |es[1..]| ensures Piece(es[1..], exact[1..], caseSensitive, s, cuts[1..], i) {
      assert Piece(es, exact, caseSensitive, s, cuts, i + 1);
    }
  }

  lemma Prepend(es: seq<Elem>, exact: Exactness, caseSensitive: bool, s: string, from: nat, cuts: seq<nat>)
    requires |exact| == |es| && es != [] && |cuts| == |es|
    requires from <= cuts[0] <= |s| && First(es[0], exact[0], caseSensitive, s, from, cuts[0])
    requires Cut(es[1..], exact[1..], caseSensitive, s, cuts[0], cuts)
    ensures Cut(es, exact, caseSensitive, s, from, [from] + cuts)
  {
    forall i | 0 <= i < |es| ensures Piece(es, exact, caseSensitive, s, [from] + cuts, i) {
      if i > 0 { assert Piece(es[1..], exact[1..], caseSensitive, s, cuts, i - 1); }
    }
  }

  /** If the first piece can only end at to, the language is decided there. */
  lemma OnlyEnd(es: seq<Elem>, exact: Exactness, caseSensitive: bool, s: string, from: nat, to: nat)
    requires |exact| == |es| && es != []
    requires forall t :: from <= t <= |s| && First(es[0], exact[0], caseSensitive, s, from, t) ==> t == to
    ensures Language(es, exact, caseSensitive, s, from) <==> Begins(es, exact, caseSensitive, s, from, to)
  {
    LanguageSteps(es, exact, caseSensitive, s, from);
  }

  /** A sequence element takes nothing, or one more character it may take and then goes on. */
  lemma SequenceSteps(es: seq<Elem>, exact: Exactness, caseSensitive: bool, s: string, from: nat)
    requires |exact| == |es| && es != [] && (es[0].AnySeq? || es[0].CommonSeq?) && from <= |s|
    ensures Language(es, exact, caseSensitive, s, from) <==>
      || Language(es[1..], exact[1..], caseSensitive, s, from)
      || (from < |s| && (es[0].AnySeq? || s[from] != '.') && Language(es, exact, caseSensitive, s, from + 1))
  {
    LanguageSteps(es, exact, caseSensitive, s, from);
    if from < |s| { LanguageSteps(es, exact, caseSensitive, s, from + 1); }
    if to: nat :| Begins(es, exact, caseSensitive, s, from, to) {
      if from < to {
        assert s[from..to] == [s[from]] + s[from + 1..to];
        assert Begins(es, exact, caseSensitive, s, from + 1, to);
      }
    }
    if Language(es[1..], exact[1..], caseSensitive, s, from) {
      assert Begins(es, exact, caseSensitive, s, from, from);
    }
    if from < |s| && (es[0].AnySeq? || s[from] != '.') && Language(es, exact, caseSensitive, s, from + 1) {
      var to: nat :| Begins(es, exact, caseSensitive, s, from + 1, to);
      assert s[from..to] == [s[from]] + s[from + 1..to];
      assert Begins(es, exact, caseSensitive, s, from, to);
    }
  }

  /** What is cut from a line ends at or before its end. */
  lemma LanguageWithin(es: seq<Elem>, exact: Exactness, caseSensitive: bool, s: string, from: nat)
    requires |exact| == |es| && Language(es, exact, caseSensitive, s, from)
    ensures from <= |s|
  {
    if es == [] {
      LanguageOfNothing(caseSensitive, s, from);
      assert exact == [];
    } else {
      LanguageSteps(es, exact, caseSensitive, s, from);
    }
  }
}
