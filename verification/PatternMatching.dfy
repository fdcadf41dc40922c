/** Tokenized patterns, the language the matcher decides, and one step of it for each kind of element. */
module PatternMatching {
  import opened CStrings
  import opened PatternLanguage

  ghost predicate ProperElem(e: Elem) {
    match e
    case Literal(text) => NUL !in text
    case Set(pairs) => |pairs| % 2 == 0 && NUL !in pairs
    case NegSet(pairs) => |pairs| % 2 == 0 && NUL !in pairs
    case NumRange(from, to) => -1 <= from <= LONG_MAX && -1 <= to <= LONG_MAX
    case _ => true
  }

  /** A tokenized pattern: exactly one END, at the end. */
  ghost predicate Proper(pattern: seq<Elem>) {
    && pattern != [] && pattern[|pattern| - 1].End?
    && forall i {:trigger pattern[i]} :: 0 <= i < |pattern| - 1 ==> !pattern[i].End? && ProperElem(pattern[i])
  }

  function Elems(pattern: seq<Elem>): seq<Elem>
    requires pattern != []
  {
    pattern[..|pattern| - 1]
  }

  /** A last literal right behind an any-sequence is compared exactly, whatever the mode. */
  ghost predicate ComparesExactly(pattern: seq<Elem>, caseSensitive: bool, i: nat)
    requires i < |pattern|
  {
    caseSensitive || (i + 2 == |pattern| && i > 0 && pattern[i - 1].AnySeq?)
  }

  ghost function Exact(pattern: seq<Elem>, caseSensitive: bool): Exactness
    requires pattern != []
  {
    seq(|pattern| - 1, i requires 0 <= i < |pattern| - 1 => ComparesExactly(pattern, caseSensitive, i))
  }

  /** The rest of the line from s is in the language of the rest of the pattern from k. */
  ghost predicate Matching(pattern: seq<Elem>, caseSensitive: bool, line: string, s: nat, k: nat)
    requires k < |pattern|
  {
    Language(Elems(pattern)[k..], Exact(pattern, caseSensitive)[k..], caseSensitive, line, s)
  }

  // ---------- one lemma for each element ----------

  lemma Unfold(pattern: seq<Elem>, caseSensitive: bool, line: string, s: nat, k: nat)
    requires k + 1 < |pattern|
    ensures var es, exact := Elems(pattern)[k..], Exact(pattern, caseSensitive)[k..];
      es[0] == pattern[k] && exact[0] == ComparesExactly(pattern, caseSensitive, k)
      && es[1..] == Elems(pattern)[k + 1..] && exact[1..] == Exact(pattern, caseSensitive)[k + 1..]
  {
  }

  lemma AtEnd(pattern: seq<Elem>, caseSensitive: bool, line: string, s: nat, k: nat)
    requires k + 1 == |pattern|
    ensures Matching(pattern, caseSensitive, line, s, k) <==> s == |line|
  {
    assert Elems(pattern)[k..] == [] && Exact(pattern, caseSensitive)[k..] == [];
    LanguageOfNothing(caseSensitive, line, s);
  }

  /** The element can only take the text up to to. */
  ghost predicate Takes(pattern: seq<Elem>, caseSensitive: bool, line: string, s: nat, k: nat, to: nat)
    requires k < |pattern|
  {
    s <= to <= |line| && First(pattern[k], ComparesExactly(pattern, caseSensitive, k), caseSensitive, line, s, to)
  }

  lemma Step(pattern: seq<Elem>, caseSensitive: bool, line: string, s: nat, k: nat, to: nat)
    requires k + 1 < |pattern|
    requires forall t :: Takes(pattern, caseSensitive, line, s, k, t) ==> t == to
    ensures Matching(pattern, caseSensitive, line, s, k) <==>
      Takes(pattern, caseSensitive, line, s, k, to) && Matching(pattern, caseSensitive, line, to, k + 1)
  {
    Unfold(pattern, caseSensitive, line, s, k);
    var es, exact := Elems(pattern)[k..], Exact(pattern, caseSensitive)[k..];
    forall t | s <= t <= |line| && First(es[0], exact[0], caseSensitive, line, s, t) ensures t == to {
      assert Takes(pattern, caseSensitive, line, s, k, t);
    }
    OnlyEnd(es, exact, caseSensitive, line, s, to);
  }

  lemma StepSequence(pattern: seq<Elem>, caseSensitive: bool, line: string, s: nat, k: nat)
    requires k + 1 < |pattern| && (pattern[k].AnySeq? || pattern[k].CommonSeq?) && s <= |line|
    ensures Matching(pattern, caseSensitive, line, s, k) <==>
      || Matching(pattern, caseSensitive, line, s, k + 1)
      || (s < |line| && (pattern[k].AnySeq? || line[s] != '.') && Matching(pattern, caseSensitive, line, s + 1, k))
  {
    Unfold(pattern, caseSensitive, line, s, k);
    SequenceSteps(Elems(pattern)[k..], Exact(pattern, caseSensitive)[k..], caseSensitive, line, s);
  }

  lemma SequenceAtEnd(pattern: seq<Elem>, caseSensitive: bool, line: string, s: nat, k: nat)
    requires k + 2 == |pattern| && pattern[k].AnySeq? && s <= |line|
    ensures Matching(pattern, caseSensitive, line, s, k)
    decreases |line| - s
  {
    StepSequence(pattern, caseSensitive, line, s, k);
    if s < |line| {
      SequenceAtEnd(pattern, caseSensitive, line, s + 1, k);
    } else {
      AtEnd(pattern, caseSensitive, line, s, k + 1);
    }
  }

  ghost predicate EndsWith(line: string, s: nat, ending: string) {
    s + |ending| <= |line| && line[|line| - |ending|..] == ending
  }

  lemma SequenceThenLiteral(pattern: seq<Elem>, caseSensitive: bool, line: string, s: nat, k: nat)
    requires k + 3 == |pattern| && pattern[k].AnySeq? && pattern[k + 1].Literal? && s <= |line|
    ensures Matching(pattern, caseSensitive, line, s, k) <==> EndsWith(line, s, pattern[k + 1].text)
    decreases |line| - s
  {
    var text := pattern[k + 1].text;
    StepSequence(pattern, caseSensitive, line, s, k);
    LiteralStep(pattern, caseSensitive, line, s, k + 1);
    if s + |text| <= |line| { AtEnd(pattern, caseSensitive, line, s + |text|, k + 2); }
    if s < |line| { SequenceThenLiteral(pattern, caseSensitive, line, s + 1, k); }
    if s + |text| == |line| { assert line[s..s + |text|] == line[|line| - |text|..]; }
  }

  lemma LiteralStep(pattern: seq<Elem>, caseSensitive: bool, line: string, s: nat, k: nat)
    requires k + 1 < |pattern| && pattern[k].Literal? && s <= |line|
    ensures var to := s + |pattern[k].text|;
      Matching(pattern, caseSensitive, line, s, k) <==>
        to <= |line| && SameText(line[s..to], pattern[k].text, ComparesExactly(pattern, caseSensitive, k))
        && Matching(pattern, caseSensitive, line, to, k + 1)
  {
    Step(pattern, caseSensitive, line, s, k, s + |pattern[k].text|);
  }

  lemma OneCharStep(pattern: seq<Elem>, caseSensitive: bool, line: string, s: nat, k: nat)
    requires k + 1 < |pattern| && s <= |line|
    requires pattern[k].AnyChar? || pattern[k].CommonChar? || pattern[k].Set? || pattern[k].NegSet?
    ensures Matching(pattern, caseSensitive, line, s, k) <==>
      s < |line| && Takes(pattern, caseSensitive, line, s, k, s + 1) &&
          Matching(pattern, caseSensitive, line, s + 1, k + 1)
  {
    Step(pattern, caseSensitive, line, s, k, s + 1);
  }

  /** The digits from s up to to, and no more. */
  ghost predicate DigitRun(line: string, s: nat, to: nat) {
    s < to <= |line| && Digits(line[s..to]) && !IsDigit(At(line, to))
  }

  lemma RunOfDigits(line: string, s: nat, to: nat)
    requires s <= to <= |line| && Digits(line[s..to])
    ensures forall i :: s <= i < to ==> IsDigit(line[i])
  {
    forall i | s <= i < to ensures IsDigit(line[i]) { assert line[s..to][i - s] == line[i]; }
  }

  lemma DigitRunUnique(line: string, s: nat, t: nat, to: nat)
    requires DigitRun(line, s, t) && DigitRun(line, s, to)
    ensures t == to
  {
    RunOfDigits(line, s, t);
    RunOfDigits(line, s, to);
  }

  lemma NumberStep(pattern: seq<Elem>, caseSensitive: bool, line: string, s: nat, k: nat, to: nat)
    requires k + 1 < |pattern| && pattern[k].NumRange? && DigitRun(line, s, to)
    ensures Matching(pattern, caseSensitive, line, s, k) <==>
      InRange(Value(line[s..to]), pattern[k].from, pattern[k].to) && Matching(pattern, caseSensitive, line, to, k + 1)
  {
    forall t: nat | Takes(pattern, caseSensitive, line, s, k, t) ensures t == to { DigitRunUnique(line, s, t, to); }
    Step(pattern, caseSensitive, line, s, k, to);
  }

  lemma NoNumberStep(pattern: seq<Elem>, caseSensitive: bool, line: string, s: nat, k: nat)
    requires k + 1 < |pattern| && pattern[k].NumRange? && !IsDigit(At(line, s))
    ensures !Matching(pattern, caseSensitive, line, s, k)
  {
    forall t: nat | Takes(pattern, caseSensitive, line, s, k, t) ensures t == s { RunOfDigits(line, s, t); }
    Step(pattern, caseSensitive, line, s, k, s);
  }

  /** A line in the language ends with the pattern's last literal. */
  lemma LastLiteral(pattern: seq<Elem>, caseSensitive: bool, line: string, s: nat, k: nat)
    requires k + 2 <= |pattern| && pattern[|pattern| - 2].Literal? && Matching(pattern, caseSensitive, line, s, k)
    ensures var text := pattern[|pattern| - 2].text;
      s <= |line| && |text| <= |line| &&
          SameText(line[|line| - |text|..], text, ComparesExactly(pattern, caseSensitive, |pattern| - 2))
  {
    var es, exact := Elems(pattern)[k..], Exact(pattern, caseSensitive)[k..];
    var cuts :| Cut(es, exact, caseSensitive, line, s, cuts);
    assert Piece(es, exact, caseSensitive, line, cuts, |es| - 1);
    LanguageWithin(es, exact, caseSensitive, line, s);
  }

  lemma LastTwo(pattern: seq<Elem>, line: string)
    requires |pattern| >= 2 && pattern[|pattern| - 2].Literal? && Matching(pattern, true, line, 0, 0)
    ensures var text := pattern[|pattern| - 2].text; var n, m := |text|, |line|;
      n <= m && (n >= 2 ==> line[m - 1] == text[n - 1] && line[m - 2] == text[n - 2])
  {
    LastLiteral(pattern, true, line, 0, 0);
    var text := pattern[|pattern| - 2].text;
    var n, m := |text|, |line|;
    if n >= 2 {
      assert SameChar(line[m - n..][n - 1], text[n - 1], true) && SameChar(line[m - n..][n - 2], text[n - 2], true);
    }
  }

  function Min(a: nat, b: nat): nat {
    if a < b then a else b
  }
}
