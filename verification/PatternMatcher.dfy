/**
 The pattern matcher: tokenizer, backtracking matcher and its shortcuts, proved against the language of the pattern.
 */
module PatternMatcherModel {
  import opened CStrings
  import opened PatternLanguage
  import opened PatternMatching
  import opened PatternModes
  import opened PatternTokens

  /** Reads the number at s as a long; a larger one reads as LONG_MAX. */
  method Atol(line: string, s: nat) returns (num: nat)
    requires s < |line| && IsDigit(line[s])
    ensures forall to: nat :: DigitRun(line, s, to) ==> num == Min(Value(line[s..to]), LONG_MAX)
  {
    num := 0;
    var i := s;
    while i < |line| && IsDigit(line[i])
      invariant s <= i <= |line| && Digits(line[s..i]) && num == Min(Value(line[s..i]), LONG_MAX)
    {
      assert line[s..i + 1] == line[s..i] + [line[i]];
      assert line[s..i + 1][..i - s] == line[s..i];
      num := Min(10 * num + (line[i] - '0') as nat, LONG_MAX);
      i := i + 1;
    }
    assert DigitRun(line, s, i);
    forall to: nat | DigitRun(line, s, to) ensures to == i { DigitRunUnique(line, s, to, i); }
  }

  /** Skips the digits at s. */
  method SkipDigits(line: string, s: nat) returns (to: nat)
    requires s < |line| && IsDigit(line[s])
    ensures DigitRun(line, s, to)
  {
    to := s;
    while to < |line| && IsDigit(line[to])
      invariant s <= to <= |line| && Digits(line[s..to])
    {
      assert line[s..to + 1] == line[s..to] + [line[to]];
      to := to + 1;
    }
  }

  predicate EndsInLiteral(pattern: seq<Elem>) {
    pattern != [] && pattern[|pattern| - 1].Literal?
  }

  function Joined(es: seq<Elem>, r: Tokenized): Tokenized {
    if r.Tokens? then Tokens(es + r.elems) else r
  }

  lemma JoinedAfter(es: seq<Elem>, e: Elem, r: Tokenized)
    ensures Joined(es, After(e, r)) == Joined(es + [e], r)
  {
    if r.Tokens? { assert es + ([e] + r.elems) == es + [e] + r.elems; }
  }

  lemma JoinedNothing(r: Tokenized)
    ensures Joined([], r) == r
    ensures r.Tokens? ==> Joined(r.elems, Tokens([])) == r
  {
    if r.Tokens? { assert [] + r.elems == r.elems == r.elems + []; }
  }

  lemma BehindBehind(a: string, b: string, r: Scan<string>)
    ensures Behind(a, Behind(b, r)) == Behind(a + b, r) && Behind("", r) == r
  {
    if r.Scanned? { assert "" + r.value == r.value; }
    if r.Scanned? { assert a + (b + r.value) == a + b + r.value; }
  }

  /** The numeric range between the bracket at i and the closing character, if there is one. */
  method ParseNumRange(patt: string, i: nat, closing: char) returns (r: Range)
    requires NUL !in patt && i < |patt| && closing != NUL
    ensures r == RangeAt(patt, i, closing)
  {
    var lo: int, up: int := -1, -1;
    var s := i + 1;
    if s < |patt| && IsDigit(patt[s]) {
      DigitsEndIsRun(patt, s);
      lo := Atol(patt, s);
      s := SkipDigitsFrom(patt, s);
    }
    if At(patt, s) != '.' || At(patt, s + 1) != '.' { return NoRange; }
    s := s + 2;
    if s < |patt| && IsDigit(patt[s]) {
      DigitsEndIsRun(patt, s);
      up := Atol(patt, s);
      s := SkipDigitsFrom(patt, s);
    }
    if At(patt, s) != closing { return NoRange; }
    return Range(lo, up, s);
  }

  method SkipDigitsFrom(patt: string, s: nat) returns (to: nat)
    requires s < |patt| && IsDigit(patt[s])
    ensures to == DigitsEnd(patt, s)
  {
    to := SkipDigits(patt, s);
    DigitsEndIsRun(patt, s);
    DigitRunUnique(patt, s, to, DigitsEnd(patt, s));
  }

  /** The literal at i0. */
  method ParseLiteralString(patt: string, i0: nat) returns (r: Scan<Elem>)
    requires NUL !in patt && i0 <= |patt|
    ensures r == LiteralElem(patt, i0)
  {
    var i := i0;
    var text := "";
    BehindBehind("", "", LiteralAt(patt, i0));
    while i < |patt| && !EndsLiteral(patt[i])
      invariant i <= |patt| && LiteralAt(patt, i0) == Behind(text, LiteralAt(patt, i))
      decreases |patt| - i
    {
      if patt[i] == '\\' {
        i := i + 1;
        if i == |patt| { return PastEnd; }
      }
      BehindBehind(text, [patt[i]], LiteralAt(patt, i + 1));
      text := text + [patt[i]];
      if patt[i] == '[' {
        var range := ParseNumRange(patt, i, ']');
        if range.Range? { return Scanned(Literal(text), i); }
      }
      i := i + 1;
    }
    assert text + "" == text;
    return Scanned(Literal(text), i);
  }

  class PatternMatcher {
    var pattern: seq<Elem>
    var iscasesensitive: bool

    /** Replaces the pattern; on failure it is left with the elements before the failure. */
    method SetPattern(patt: string, dottedPath: bool, fullString: bool, caseSensitive: bool) returns (r: Tokenized)
      requires NUL !in patt
      modifies this
      ensures r == PatternOf(patt, dottedPath, fullString, caseSensitive) && iscasesensitive == caseSensitive
      ensures r.Tokens? ==> pattern == r.elems && Proper(pattern)
    {
      pattern := [];
      iscasesensitive := caseSensitive;
      r := TokenizeAll(patt, dottedPath);
      if !r.Tokens? { return; }
      if !fullString {
        if pattern == [] || !pattern[|pattern| - 1].AnySeq? { pattern := pattern + [AnySeq]; }
        if !pattern[0].AnySeq? { pattern := [AnySeq] + pattern; }
      }
      pattern := pattern + [End];
      PatternIsProper(patt, dottedPath, fullString, caseSensitive);
      return Tokens(pattern);
    }

    method TokenizeAll(patt: string, dottedPath: bool) returns (r: Tokenized)
      requires NUL !in patt && pattern == []
      modifies `pattern
      ensures r == Tokenize(patt, 0, dottedPath, iscasesensitive, false)
      ensures r.Tokens? ==> pattern == r.elems
    {
      var i := 0;
      JoinedNothing(Tokenize(patt, 0, dottedPath, iscasesensitive, false));
      while i < |patt|
        invariant 0 <= i <= |patt|
        invariant Tokenize(patt, 0, dottedPath, iscasesensitive, false)
          == Joined(pattern, Tokenize(patt, i, dottedPath, iscasesensitive, EndsInLiteral(pattern)))
        decreases |patt| - i, if EndsInLiteral(pattern) then 0 else 1
      {
        ElemProgress(patt, i, dottedPath, iscasesensitive, EndsInLiteral(pattern));
        var scanned := ScanElem(patt, i, dottedPath);
        match scanned {
          case Unmatched => return UnmatchedBrace;
          case PastEnd => return ReadsPastEnd;
          case Scanned(e, next) =>
            JoinedAfter(pattern, e, Tokenize(patt, next, dottedPath, iscasesensitive, e.Literal?));
            pattern := pattern + [e];
            i := next;
        }
      }
      JoinedNothing(Tokens(pattern));
      return Tokens(pattern);
    }

    /** The element at i. */
    method ScanElem(patt: string, i: nat, dottedPath: bool) returns (r: Scan<Elem>)
      requires NUL !in patt && i < |patt|
      ensures r == ElemAt(patt, i, dottedPath, iscasesensitive, EndsInLiteral(pattern))
    {
      match patt[i] {
        case '?' => return Scanned(if dottedPath then CommonChar else AnyChar, i + 1);
        case '[' =>
          if EndsInLiteral(pattern) {
            var range := ParseNumRange(patt, i, ']');
            if range.Range? { return Scanned(NumRange(range.lo, range.up), range.end); }
          }
          r := ParseLiteralString(patt, i);
        case '{' =>
          var range := ParseNumRange(patt, i, '}');
          if range.Range? { return Scanned(NumRange(range.lo, range.up), range.end + 1); }
          r := ParseSet(patt, i);
        case '*' =>
          if At(patt, i + 1) == '*' { return Scanned(AnySeq, i + 2); }
          return Scanned(if dottedPath then CommonSeq else AnySeq, i + 1);
        case _ => r := ParseLiteralString(patt, i);
      }
    }

    /** The set whose brace is at i0. */
    method ParseSet(patt: string, i0: nat) returns (r: Scan<Elem>)
      requires NUL !in patt && i0 < |patt|
      ensures r == SetElem(patt, i0, iscasesensitive)
    {
      var i := i0 + 1;
      var negated := false;
      if At(patt, i) == '^' {
        negated := true;
        i := i + 1;
      }
      var start := i;
      var setChars := "";
      BehindBehind("", "", SetAt(patt, start, start, iscasesensitive));
      while i < |patt| && (patt[i] != '}' || i == start)
        invariant SetAt(patt, start, start, iscasesensitive) == Behind(setChars, SetAt(patt, i, start, iscasesensitive))
        decreases |patt| - i
      {
        ghost var before, at := setChars, i;
        var range;
        if IsSpan(patt, i) {
          range := [patt[i], patt[i + 2]];
          i := i + 3;
        } else {
          range := [patt[i], patt[i]];
          i := i + 1;
        }
        if !iscasesensitive { range := [ToUpper(range[0]), ToUpper(range[1])]; }
        setChars := setChars + range;
        BehindBehind(before, range, SetAt(patt, i, start, iscasesensitive));
        assert SetAt(patt, at, start, iscasesensitive) == Behind(range, SetAt(patt, i, start, iscasesensitive));
      }
      if i >= |patt| { return Unmatched; }
      assert setChars + "" == setChars;
      return Scanned(if negated then NegSet(setChars) else Set(setChars), i + 1);
    }

    method IsInSet(ch: char, pairs: string) returns (b: bool)
      requires |pairs| % 2 == 0
      ensures b <==> CharInSet(ch, pairs, iscasesensitive)
    {
      var c := if iscasesensitive then ch else ToUpper(ch);
      var i := 0;
      while 2 * i < |pairs|
        invariant 0 <= 2 * i <= |pairs|
        invariant forall j :: 0 <= j < i ==> !Spans(pairs, j, c)
      {
        if c >= pairs[2 * i] && c <= pairs[2 * i + 1] {
          assert Spans(pairs, i, c);
          return true;
        }
        i := i + 1;
      }
      return false;
    }

    /** The matcher never comes to a last literal behind an any-sequence: the shortcut there decides. */
    ghost predicate Reached(k: nat)
      reads this
    {
      k < |pattern| && (k + 2 == |pattern| && k > 0 && pattern[k].Literal? ==> !pattern[k - 1].AnySeq?)
    }

    /** Whether the rest of the line from s matches the rest of the pattern from k. */
    method DoMatch(line: string, s0: nat, k0: nat) returns (b: bool)
      requires Proper(pattern) && Reached(k0) && s0 <= |line|
      ensures b <==> Matching(pattern, iscasesensitive, line, s0, k0)
      decreases |pattern| - k0, 1
    {
      var s, k := s0, k0;
      while true
        invariant k0 <= k < |pattern| && s0 <= s <= |line| && Reached(k)
        invariant Matching(pattern, iscasesensitive, line, s0, k0) <==> Matching(pattern, iscasesensitive, line, s, k)
        decreases |pattern| - k
      {
        match pattern[k] {
          case AnySeq =>
            b := MatchAnySeq(line, s, k);
            return;
          case CommonSeq =>
            b := MatchCommonSeq(line, s, k);
            return;
          case End =>
            AtEnd(pattern, iscasesensitive, line, s, k);
            return s == |line|;
          case _ =>
            var more;
            more, s := MatchElem(line, s, k);
            if !more { return false; }
        }
        k := k + 1;
      }
    }

    /** An element other than a sequence takes what it can only take; more tells whether it is there. */
    method MatchElem(line: string, s: nat, k: nat) returns (more: bool, to: nat)
      requires Proper(pattern) && k + 1 < |pattern| && !pattern[k].AnySeq? && !pattern[k].CommonSeq? && Reached(k) &&
          s <= |line|
      ensures Matching(pattern, iscasesensitive, line, s, k) <==>
          more && Matching(pattern, iscasesensitive, line, to, k + 1)
      ensures more ==> s <= to <= |line|
    {
      if pattern[k].NumRange? {
        more, to := MatchNumber(line, s, k);
      } else if pattern[k].Literal? {
        var text := pattern[k].text;
        LiteralStep(pattern, iscasesensitive, line, s, k);
        to := s + |text|;
        more := to <= |line| && SameText(line[s..to], text, iscasesensitive);
      } else {
        more := MatchOneChar(line, s, k);
        to := s + 1;
      }
    }

    method MatchOneChar(line: string, s: nat, k: nat) returns (more: bool)
      requires Proper(pattern) && k + 1 < |pattern| && s <= |line|
      requires pattern[k].AnyChar? || pattern[k].CommonChar? || pattern[k].Set? || pattern[k].NegSet?
      ensures Matching(pattern, iscasesensitive, line, s, k) <==>
          more && Matching(pattern, iscasesensitive, line, s + 1, k + 1)
      ensures more ==> s < |line|
    {
      OneCharStep(pattern, iscasesensitive, line, s, k);
      if s == |line| { return false; }
      if pattern[k].AnyChar? { return true; }
      if pattern[k].CommonChar? { return line[s] != '.'; }
      more := IsInSet(line[s], pattern[k].setChars);
      if pattern[k].NegSet? { more := !more; }
    }

    method MatchNumber(line: string, s: nat, k: nat) returns (more: bool, to: nat)
      requires Proper(pattern) && k + 1 < |pattern| && pattern[k].NumRange? && s <= |line|
      ensures Matching(pattern, iscasesensitive, line, s, k) <==>
          more && Matching(pattern, iscasesensitive, line, to, k + 1)
      ensures more ==> s <= to <= |line|
    {
      if s == |line| || !IsDigit(line[s]) {
        NoNumberStep(pattern, iscasesensitive, line, s, k);
        return false, s;
      }
      var e := pattern[k];
      var num := Atol(line, s);
      to := SkipDigits(line, s);
      NumberStep(pattern, iscasesensitive, line, s, k, to);
      more := !((e.from >= 0 && num < e.from) || (e.to >= 0 && num > e.to));
    }

    /** Any sequence: shortcuts at the end of the pattern, otherwise one more character at a time. */
    method MatchAnySeq(line: string, s0: nat, k: nat) returns (b: bool)
      requires Proper(pattern) && k < |pattern| && pattern[k].AnySeq? && s0 <= |line|
      ensures b <==> Matching(pattern, iscasesensitive, line, s0, k)
      decreases |pattern| - k, 0
    {
      if k + 2 == |pattern| {
        SequenceAtEnd(pattern, iscasesensitive, line, s0, k);
        return true;
      }
      if k + 3 == |pattern| && pattern[k + 1].Literal? {
        SequenceThenLiteral(pattern, iscasesensitive, line, s0, k);
        var text := pattern[k + 1].text;
        return s0 + |text| <= |line| && line[|line| - |text|..] == text;
      }
      var s := s0;
      while true
        invariant s0 <= s <= |line|
        invariant Matching(pattern, iscasesensitive, line, s0, k) <==> Matching(pattern, iscasesensitive, line, s, k)
        decreases |line| - s
      {
        StepSequence(pattern, iscasesensitive, line, s, k);
        b := DoMatch(line, s, k + 1);
        if b { return; }
        if s == |line| { return false; }
        s := s + 1;
      }
    }

    /** A sequence without dots: one more character at a time. */
    method MatchCommonSeq(line: string, s0: nat, k: nat) returns (b: bool)
      requires Proper(pattern) && k < |pattern| && pattern[k].CommonSeq? && s0 <= |line|
      ensures b <==> Matching(pattern, iscasesensitive, line, s0, k)
      decreases |pattern| - k, 0
    {
      var s := s0;
      while true
        invariant s0 <= s <= |line|
        invariant Matching(pattern, iscasesensitive, line, s0, k) <==> Matching(pattern, iscasesensitive, line, s, k)
        decreases |line| - s
      {
        StepSequence(pattern, iscasesensitive, line, s, k);
        b := DoMatch(line, s, k + 1);
        if b { return; }
        if s == |line| || line[s] == '.' { return false; }
        s := s + 1;
      }
    }

    /** Whether the line matches; in case-sensitive mode the last two characters are compared first. */
    method Matches(line: string) returns (b: bool)
      requires Proper(pattern)
      ensures b <==> Matching(pattern, iscasesensitive, line, 0, 0)
    {
      if |pattern| >= 2 && iscasesensitive {
        var e := pattern[|pattern| - 2];
        if e.Literal? {
          var n, m := |e.text|, |line|;
          if n >= 2 && m >= 2 && (line[m - 1] != e.text[n - 1] || line[m - 2] != e.text[n - 2]) {
            if Matching(pattern, iscasesensitive, line, 0, 0) { LastTwo(pattern, line); }
            return false;
          }
        }
      }
      b := DoMatch(line, 0, 0);
    }
  }
}
