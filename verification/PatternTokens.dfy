/** How a pattern text is cut into elements, as functions of the text and the position in it. */
module PatternTokens {
  import opened CStrings
  import opened PatternLanguage
  import opened PatternMatching
  import opened PatternModes

  /** Unmatched is the error the tokenizer throws; PastEnd is a backslash at the end, behind which it would read on. */
  datatype Scan<T> = Scanned(value: T, next: nat) | Unmatched | PastEnd

  datatype Range = Range(lo: int, up: int, end: nat) | NoRange

  datatype Tokenized = Tokens(elems: seq<Elem>) | UnmatchedBrace | ReadsPastEnd

  // ---------- numeric ranges ----------

  /** Where the digits from i on end. */
  function DigitsEnd(s: string, i: nat): (e: nat)
    ensures e >= i && !IsDigit(At(s, e)) && (i <= |s| ==> e <= |s|) && (e > i ==> IsDigit(At(s, i)))
    decreases |s| - i
  {
    if IsDigit(At(s, i)) then DigitsEnd(s, i + 1) else i
  }

  /** The number at i as a long, or -1 for none. */
  function NumberAt(s: string, i: nat): (n: int)
    ensures -1 <= n <= LONG_MAX
  {
    if IsDigit(At(s, i)) then Min(Value(s[i..DigitsEnd(s, i)]), LONG_MAX) else -1
  }

  /** Two optional numbers around two dots between the bracket at i and the closing one. */
  function RangeAt(s: string, i: nat, closing: char): Range
    requires i < |s|
  {
    var a := DigitsEnd(s, i + 1);
    if At(s, a) != '.' || At(s, a + 1) != '.' then NoRange else
    var b := DigitsEnd(s, a + 2);
    if At(s, b) != closing then NoRange else Range(NumberAt(s, i + 1), NumberAt(s, a + 2), b)
  }

  lemma RangeEnds(s: string, i: nat, closing: char)
    requires i < |s| && RangeAt(s, i, closing).Range? && closing != NUL
    ensures i + 3 <= RangeAt(s, i, closing).end < |s|
  {
  }

  lemma DigitsEndIsRun(s: string, i: nat)
    requires i < |s| && IsDigit(s[i])
    ensures DigitRun(s, i, DigitsEnd(s, i))
    decreases |s| - i
  {
    var e := DigitsEnd(s, i);
    if i + 1 < |s| && IsDigit(s[i + 1]) { DigitsEndIsRun(s, i + 1); }
    assert s[i..e] == [s[i]] + s[i + 1..e];
  }

  // ---------- literals, sets, elements ----------

  predicate EndsLiteral(c: char) {
    c == NUL || c == '?' || c == '{' || c == '*'
  }

  /** Puts text in front of what was scanned. */
  function Behind(text: string, r: Scan<string>): Scan<string> {
    if r.Scanned? then r.(value := text + r.value) else r
  }

  /** Where the next character of a literal is: a backslash takes away the meaning of the one behind it. */
  function Unescaped(s: string, i: nat): nat {
    if At(s, i) == '\\' then i + 1 else i
  }

  /** A literal ends at a wildcard, or with the bracket of a numeric range. */
  function LiteralAt(s: string, i: nat): Scan<string>
    decreases |s| - i
  {
    if i >= |s| || EndsLiteral(s[i]) then Scanned("", i) else
    var j := Unescaped(s, i);
    if j == |s| then PastEnd
    else if s[j] == '[' && RangeAt(s, j, ']').Range? then Scanned([s[j]], j)
    else Behind([s[j]], LiteralAt(s, j + 1))
  }

  function Stored(c: char, caseSensitive: bool): char {
    if caseSensitive then c else ToUpper(c)
  }

  predicate IsSpan(s: string, i: nat) {
    At(s, i + 1) == '-' && At(s, i + 2) != NUL && At(s, i + 2) != '}'
  }

  /** A set's characters and spans as pairs; a closing brace right at the start belongs to the set. */
  function SetAt(s: string, i: nat, start: nat, caseSensitive: bool): Scan<string>
    decreases |s| - i
  {
    if i >= |s| then Unmatched
    else if s[i] == '}' && i != start then Scanned("", i + 1)
    else if IsSpan(s, i) then
      Behind([Stored(s[i], caseSensitive), Stored(At(s, i + 2), caseSensitive)], SetAt(s, i + 3, start, caseSensitive))
    else
      Behind([Stored(s[i], caseSensitive), Stored(s[i], caseSensitive)], SetAt(s, i + 1, start, caseSensitive))
  }

  function ToElem(r: Scan<string>, make: string -> Elem): Scan<Elem> {
    match r
    case Scanned(text, next) => Scanned(make(text), next)
    case Unmatched => Unmatched
    case PastEnd => PastEnd
  }

  function LiteralElem(s: string, i: nat): Scan<Elem> {
    ToElem(LiteralAt(s, i), text => Literal(text))
  }

  function SetElem(s: string, i: nat, caseSensitive: bool): Scan<Elem> {
    if At(s, i + 1) == '^'
    then ToElem(SetAt(s, i + 2, i + 2, caseSensitive), pairs => NegSet(pairs))
    else ToElem(SetAt(s, i + 1, i + 1, caseSensitive), pairs => Set(pairs))
  }

  /** The element at i, given whether a literal is before it. */
  function ElemAt(s: string, i: nat, dottedPath: bool, caseSensitive: bool, afterLiteral: bool): Scan<Elem>
    requires i < |s|
  {
    match s[i]
    case '?' => Scanned(if dottedPath then CommonChar else AnyChar, i + 1)
    case '[' =>
      var range := RangeAt(s, i, ']');
      if afterLiteral && range.Range? then Scanned(NumRange(range.lo, range.up), range.end) else LiteralElem(s, i)
    case '{' =>
      var range := RangeAt(s, i, '}');
      if range.Range? then Scanned(NumRange(range.lo, range.up), range.end + 1) else SetElem(s, i, caseSensitive)
    case '*' =>
      if At(s, i + 1) == '*' then Scanned(AnySeq, i + 2)
      else Scanned(if dottedPath then CommonSeq else AnySeq, i + 1)
    case _ => LiteralElem(s, i)
  }

  // ---------- progress ----------

  lemma LiteralProgress(s: string, i: nat)
    requires NUL !in s && i <= |s|
    ensures var r := LiteralAt(s, i); r.Scanned? ==> i <= r.next <= |s| && NUL !in r.value
    ensures var r := LiteralAt(s, i); r.Scanned? && i < |s| && !EndsLiteral(s[i]) ==>
      r.value != "" && (r.next > i || (s[i] == '[' && RangeAt(s, i, ']').Range?))
    decreases |s| - i
  {
    if i < |s| && !EndsLiteral(s[i]) {
      var j := Unescaped(s, i);
      if j < |s| { LiteralProgress(s, j + 1); }
    }
  }

  lemma SetProgress(s: string, i: nat, start: nat, caseSensitive: bool)
    requires NUL !in s
    ensures ScannedPairs(SetAt(s, i, start, caseSensitive), i, |s|)
    decreases |s| - i
  {
    if i < |s| && !(s[i] == '}' && i != start) {
      var k := if IsSpan(s, i) then i + 3 else i + 1;
      SetProgress(s, k, start, caseSensitive);
      PairsBehind(Stored(s[i], caseSensitive), Stored(s[k - 1], caseSensitive), SetAt(s, k, start, caseSensitive), i,
          k, |s|);
    }
  }

  predicate ScannedPairs(r: Scan<string>, i: nat, end: nat) {
    r.Scanned? ==> i < r.next <= end && |r.value| % 2 == 0 && NUL !in r.value
  }

  lemma PairsBehind(a: char, b: char, r: Scan<string>, i: nat, k: nat, end: nat)
    requires ScannedPairs(r, k, end) && i <= k && a != NUL && b != NUL
    ensures ScannedPairs(Behind([a, b], r), i, end)
  {
  }

  /** Every element takes text, but for a literal that stops at the bracket of a range it begins with. */
  lemma ElemProgress(s: string, i: nat, dottedPath: bool, caseSensitive: bool, afterLiteral: bool)
    requires NUL !in s && i < |s|
    ensures var r := ElemAt(s, i, dottedPath, caseSensitive, afterLiteral); r.Scanned? ==>
      i <= r.next <= |s| && (r.next > i || (!afterLiteral && r.value.Literal?))
      && !r.value.End? && ProperElem(r.value)
  {
    LiteralProgress(s, i);
    if s[i] == '[' && RangeAt(s, i, ']').Range? { RangeEnds(s, i, ']'); }
    if s[i] == '{' {
      if RangeAt(s, i, '}').Range? { RangeEnds(s, i, '}'); }
      var start := if At(s, i + 1) == '^' then i + 2 else i + 1;
      SetProgress(s, start, start, caseSensitive);
    }
  }

  /** Puts an element in front of what was tokenized. */
  function After(e: Elem, r: Tokenized): Tokenized {
    if r.Tokens? then Tokens([e] + r.elems) else r
  }

  /** The elements from i on. */
  function Tokenize(s: string, i: nat, dottedPath: bool, caseSensitive: bool, afterLiteral: bool): Tokenized
    requires NUL !in s
    decreases |s| - i, if afterLiteral then 0 else 1
  {
    if i >= |s| then Tokens([]) else
    var r := ElemAt(s, i, dottedPath, caseSensitive, afterLiteral);
    ElemProgress(s, i, dottedPath, caseSensitive, afterLiteral);
    match r
    case Unmatched => UnmatchedBrace
    case PastEnd => ReadsPastEnd
    case Scanned(e, next) => After(e, Tokenize(s, next, dottedPath, caseSensitive, e.Literal?))
  }

  /** The whole pattern: padded for substring matching, and closed by END. */
  function PatternOf(text: string, dottedPath: bool, fullString: bool, caseSensitive: bool): Tokenized
    requires NUL !in text
  {
    var r := Tokenize(text, 0, dottedPath, caseSensitive, false);
    if r.Tokens? then Tokens((if fullString then r.elems else Pad(r.elems)) + [End]) else r
  }

  ghost predicate Elements(es: seq<Elem>) {
    forall i {:trigger es[i]} :: 0 <= i < |es| ==> !es[i].End? && ProperElem(es[i])
  }

  lemma {:induction false} TokensAreElements(s: string, i: nat, dottedPath: bool, caseSensitive: bool,
                                             afterLiteral: bool)
    requires NUL !in s
    ensures var r := Tokenize(s, i, dottedPath, caseSensitive, afterLiteral); r.Tokens? ==> Elements(r.elems)
    decreases |s| - i, if afterLiteral then 0 else 1
  {
    if i < |s| {
      var r := ElemAt(s, i, dottedPath, caseSensitive, afterLiteral);
      ElemProgress(s, i, dottedPath, caseSensitive, afterLiteral);
      if r.Scanned? { TokensAreElements(s, r.next, dottedPath, caseSensitive, r.value.Literal?); }
    }
  }

  /** Exactly one END, the last element, whatever the pattern. */
  lemma PatternIsProper(text: string, dottedPath: bool, fullString: bool, caseSensitive: bool)
    requires NUL !in text
    ensures var r := PatternOf(text, dottedPath, fullString, caseSensitive); r.Tokens? ==> Proper(r.elems)
  {
    TokensAreElements(text, 0, dottedPath, caseSensitive, false);
    var r := Tokenize(text, 0, dottedPath, caseSensitive, false);
    if r.Tokens? { EndIsLast(if fullString then r.elems else Pad(r.elems)); }
  }

  lemma EndIsLast(es: seq<Elem>)
    requires Elements(es)
    ensures Proper(es + [End])
  {
  }

  // ---------- when tokenizing fails ----------

  lemma {:induction false} LiteralFailsAtEnd(s: string, i: nat)
    requires LiteralAt(s, i).PastEnd?
    ensures i < |s| && s[|s| - 1] == '\\'
    decreases |s| - i
  {
    var j := Unescaped(s, i);
    if j < |s| { LiteralFailsAtEnd(s, j + 1); }
  }

  /** A set is unmatched exactly if no brace behind its first character closes it. */
  lemma {:induction false} SetFailsUnclosed(s: string, i: nat, start: nat, caseSensitive: bool)
    requires start <= i
    ensures !SetAt(s, i, start, caseSensitive).PastEnd?
    ensures SetAt(s, i, start, caseSensitive).Unmatched? <==> forall j :: i <= j < |s| && j != start ==> s[j] != '}'
    decreases |s| - i
  {
    if i < |s| && !(s[i] == '}' && i != start) {
      SetFailsUnclosed(s, if IsSpan(s, i) then i + 3 else i + 1, start, caseSensitive);
    }
  }

  /** The brace at k opens a set that nothing closes. */
  predicate Unclosed(s: string, k: nat)
    requires k < |s|
  {
    && s[k] == '{' && !RangeAt(s, k, '}').Range?
    && var start := if At(s, k + 1) == '^' then k + 2 else k + 1;
       (forall j :: start < j < |s| ==> s[j] != '}')
  }

  /** Tokenizing fails only at a set that is not closed or at a backslash at the end. */
  lemma {:induction false} FailureHasCause(s: string, i: nat, dottedPath: bool, caseSensitive: bool, afterLiteral: bool)
    requires NUL !in s
    ensures var r := Tokenize(s, i, dottedPath, caseSensitive, afterLiteral);
      && (r.ReadsPastEnd? ==> s != "" && s[|s| - 1] == '\\')
      && (r.UnmatchedBrace? ==> exists k :: i <= k < |s| && Unclosed(s, k))
    decreases |s| - i, if afterLiteral then 0 else 1
  {
    if i < |s| {
      var r := ElemAt(s, i, dottedPath, caseSensitive, afterLiteral);
      ElemProgress(s, i, dottedPath, caseSensitive, afterLiteral);
      match r
      case Scanned(e, next) => FailureHasCause(s, next, dottedPath, caseSensitive, e.Literal?);
      case PastEnd =>
        SetNeverPastEnd(s, i, caseSensitive);
        LiteralFailsAtEnd(s, i);
      case Unmatched =>
        LiteralNeverUnmatched(s, i);
        var start := if At(s, i + 1) == '^' then i + 2 else i + 1;
        SetFailsUnclosed(s, start, start, caseSensitive);
        assert Unclosed(s, i);
    }
  }

  lemma {:induction false} LiteralNeverUnmatched(s: string, i: nat)
    ensures !LiteralAt(s, i).Unmatched?
    decreases |s| - i
  {
    if i < |s| { LiteralNeverUnmatched(s, Unescaped(s, i) + 1); }
  }

  lemma SetNeverPastEnd(s: string, i: nat, caseSensitive: bool)
    ensures !SetElem(s, i, caseSensitive).PastEnd?
  {
    SetFailsUnclosed(s, i + 1, i + 1, caseSensitive);
    SetFailsUnclosed(s, i + 2, i + 2, caseSensitive);
  }

  // ---------- patterns without wildcards ----------

  /** Whether two dots stand next to each other. */
  predicate HasTwoDots(s: string) {
    exists i :: 0 <= i < |s| - 1 && TwoDots(s, i)
  }

  predicate TwoDots(s: string, i: nat)
    requires i + 1 < |s|
  {
    s[i] == '.' && s[i + 1] == '.'
  }

  predicate ContainsWildcards(s: string) {
    '?' in s || '*' in s || '\\' in s || '{' in s || HasTwoDots(s)
  }

  lemma {:induction false} WildcardFreeLiteral(s: string, i: nat)
    requires NUL !in s && !ContainsWildcards(s) && i <= |s|
    ensures LiteralAt(s, i) == Scanned(s[i..], |s|)
    decreases |s| - i
  {
    if i < |s| {
      assert s[i] in s;
      if s[i] == '[' && RangeAt(s, i, ']').Range? { assert TwoDots(s, DigitsEnd(s, i + 1)); }
      WildcardFreeLiteral(s, i + 1);
      assert s[i..] == [s[i]] + s[i + 1..];
    } else {
      assert s[i..] == "";
    }
  }

  /** A pattern without wildcards is one literal: matching it in full and case-sensitively is string equality. */
  lemma WildcardFreeIsEquality(text: string, dottedPath: bool, line: string)
    requires NUL !in text && !ContainsWildcards(text)
    ensures var r := PatternOf(text, dottedPath, true, true);
      r.Tokens? && (Matching(r.elems, true, line, 0, 0) <==> line == text)
  {
    if text == "" {
      assert [] + [End] == [End];
      AtEnd([End], true, line, 0, 0);
    } else {
      WildcardFreeLiteral(text, 0);
      assert text[0] in text;
      assert text[0..] == text;
      OneLiteral(text, text, dottedPath, true);
      LiteralIsEquality(text, line);
    }
  }

  lemma OneLiteral(s: string, w: string, dottedPath: bool, caseSensitive: bool)
    requires NUL !in s && s != "" && ElemAt(s, 0, dottedPath, caseSensitive, false) == Scanned(Literal(w), |s|)
    ensures PatternOf(s, dottedPath, true, caseSensitive) == Tokens([Literal(w), End])
  {
    assert Tokenize(s, |s|, dottedPath, caseSensitive, true) == Tokens([]);
    assert Tokenize(s, 0, dottedPath, caseSensitive, false) == Tokens([Literal(w)] + []);
    assert [Literal(w)] + [] + [End] == [Literal(w), End];
  }

  lemma LiteralIsEquality(text: string, line: string)
    ensures Matching([Literal(text), End], true, line, 0, 0) <==> line == text
  {
    LiteralStep([Literal(text), End], true, line, 0, 0);
    if |text| <= |line| {
      AtEnd([Literal(text), End], true, line, |text|, 1);
      SameTextExactly(line[..|text|], text);
    }
  }

  // ---------- escaping ----------

  /** Every character with a backslash in front. */
  function Escaped(w: string): string {
    if w == "" then "" else ['\\', w[0]] + Escaped(w[1..])
  }

  lemma {:induction false} EscapedIsText(w: string)
    requires NUL !in w
    ensures NUL !in Escaped(w)
  {
    if w != "" { assert w[0] in w; EscapedIsText(w[1..]); }
  }

  /**
   Behind a backslash the next character is part of the literal, and the literal goes on, exactly if it is not the
   bracket of a numeric range.
   */
  lemma EscapesIff(s: string, i: nat)
    requires NUL !in s && i + 1 < |s| && s[i] == '\\'
    ensures LiteralAt(s, i) == Behind([s[i + 1]], LiteralAt(s, i + 2)) <==>
        !(s[i + 1] == '[' && RangeAt(s, i + 1, ']').Range?)
  {
    LiteralProgress(s, i + 2);
  }

  const ESCAPED_RANGE := @"\[1..2]"

  lemma OneDigit(c: char)
    requires IsDigit(c)
    ensures Value([c]) == (c - '0') as int
  {
    assert [c][..0] == "";
  }

  lemma RangeOfDigits(s: string, i: nat, closing: char)
    requires i + 5 < |s| && s[i + 2] == s[i + 3] == '.' && IsDigit(s[i + 1]) && IsDigit(s[i + 4]) && s[i + 5] == closing
    requires !IsDigit(closing)
    ensures RangeAt(s, i, closing) == Range((s[i + 1] - '0') as int, (s[i + 4] - '0') as int, i + 5)
  {
    OneDigit(s[i + 1]);
    OneDigit(s[i + 4]);
    assert DigitsEnd(s, i + 2) == i + 2 && DigitsEnd(s, i + 5) == i + 5;
    assert s[i + 1..i + 2] == [s[i + 1]] && s[i + 4..i + 5] == [s[i + 4]];
  }

  lemma OneCharLiteral(s: string, i: nat)
    requires i + 1 == |s| && !EndsLiteral(s[i]) && s[i] != '\\' && s[i] != '['
    ensures LiteralAt(s, i) == Scanned([s[i]], i + 1)
  {
    assert LiteralAt(s, i + 1) == Scanned("", i + 1) && [s[i]] + "" == [s[i]];
  }

  lemma BracketAtEnd(s: string, i: nat, dottedPath: bool, caseSensitive: bool)
    requires NUL !in s && i + 1 == |s| && s[i] == ']'
    ensures Tokenize(s, i, dottedPath, caseSensitive, false) == Tokens([Literal("]")])
  {
    OneCharLiteral(s, i);
    assert Tokenize(s, i, dottedPath, caseSensitive, false) == After(Literal("]"), Tokens([]));
  }

  lemma RangeThenBracket(s: string, i: nat, dottedPath: bool, caseSensitive: bool)
    requires NUL !in s && i + 6 == |s| && s[i] == '[' && RangeAt(s, i, ']') == Range(1, 2, i + 5)
    requires s[i + 5] == ']' && Tokenize(s, i + 5, dottedPath, caseSensitive, false) == Tokens([Literal("]")])
    ensures Tokenize(s, i, dottedPath, caseSensitive, true) == Tokens([NumRange(1, 2), Literal("]")])
  {
  }

  /** This pattern should stand for the text behind the backslash, but has a number from one to two in brackets. */
  lemma EscapedRangeIsRange(s: string, dottedPath: bool, caseSensitive: bool)
    requires s == ESCAPED_RANGE
    ensures PatternOf(s, dottedPath, true, caseSensitive) == Tokens([Literal("["), NumRange(1, 2), Literal("]"), End])
  {
    RangeOfDigits(s, 1, ']');
    BracketAtEnd(s, 6, dottedPath, caseSensitive);
    RangeThenBracket(s, 1, dottedPath, caseSensitive);
    var last := Tokenize(s, 1, dottedPath, caseSensitive, true);
    assert Tokenize(s, 0, dottedPath, caseSensitive, false) == After(Literal("["), last);
  }

  lemma RangeNeedsBracket(pattern: seq<Elem>, line: string)
    requires |pattern| == 4 && pattern[0] == Literal("[") && pattern[1].NumRange? && pattern[2] == Literal("]")
    requires DigitRun(line, 1, 2) && 2 < |line| && line[2] != ']'
    ensures !Matching(pattern, true, line, 0, 0)
  {
    LiteralStep(pattern, true, line, 0, 0);
    NumberStep(pattern, true, line, 1, 1, 2);
    LiteralStep(pattern, true, line, 2, 2);
    assert line[2..3][0] == line[2];
  }

  /** So it does not match that text. */
  lemma EscapedRangeFails(dottedPath: bool)
    ensures var r := PatternOf(ESCAPED_RANGE, dottedPath, true, true);
      r.Tokens? && !Matching(r.elems, true, ESCAPED_RANGE[1..], 0, 0)
  {
    EscapedRangeIsRange(ESCAPED_RANGE, dottedPath, true);
    OneDigitRuns(ESCAPED_RANGE[1..]);
    RangeNeedsBracket([Literal("["), NumRange(1, 2), Literal("]"), End], ESCAPED_RANGE[1..]);
  }

  lemma OneDigitRuns(line: string)
    requires |line| > 2 && IsDigit(line[1]) && !IsDigit(line[2])
    ensures DigitRun(line, 1, 2)
  {
    assert line[1..2] == [line[1]];
  }

  /** A backslash does not take away the meaning of the bracket of a numeric range. */
  lemma BracketNotEscaped(s: string, i: nat, dottedPath: bool, caseSensitive: bool, afterLiteral: bool)
    requires NUL !in s && 0 < i < |s| && s[i - 1] == '\\' && s[i] == '[' && RangeAt(s, i, ']').Range?
    ensures Tokenize(s, i - 1, dottedPath, caseSensitive, afterLiteral) ==
        Tokenize(s, i, dottedPath, caseSensitive, false)
  {
    assert LiteralAt(s, i - 1) == Scanned("[", i) == LiteralAt(s, i);
    assert ElemAt(s, i - 1, dottedPath, caseSensitive, afterLiteral) == Scanned(Literal("["), i);
    assert ElemAt(s, i, dottedPath, caseSensitive, false) == Scanned(Literal("["), i);
  }
}
