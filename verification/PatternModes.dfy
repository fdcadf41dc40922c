/** Case sensitivity as documented, and substring patterns: what the matcher's language is in terms of the plain one. */
module PatternModes {
  import opened CStrings
  import opened PatternLanguage
  import opened PatternMatching

  function Uniform(n: nat, exact: bool): (r: Exactness)
    ensures |r| == n
  {
    seq(n, _ => exact)
  }

  /** The documented meaning: every literal compares in the pattern's mode. */
  ghost predicate Plain(es: seq<Elem>, caseSensitive: bool, s: string, from: nat) {
    Language(es, Uniform(|es|, caseSensitive), caseSensitive, s, from)
  }

  ghost predicate Documented(pattern: seq<Elem>, caseSensitive: bool, line: string)
    requires pattern != []
  {
    Plain(Elems(pattern), caseSensitive, line, 0)
  }

  /** In case-sensitive mode the matcher decides the documented language. */
  lemma CaseSensitiveIsDocumented(pattern: seq<Elem>, line: string)
    requires Proper(pattern)
    ensures Matching(pattern, true, line, 0, 0) <==> Documented(pattern, true, line)
  {
    assert Elems(pattern)[0..] == Elems(pattern);
    assert Exact(pattern, true)[0..] == Uniform(|pattern| - 1, true);
  }

  // ---------- case-insensitive mode ----------

  /** The guard of the shortcut that compares exactly. */
  predicate EndsInSequenceLiteral(pattern: seq<Elem>) {
    |pattern| >= 3 && pattern[|pattern| - 3].AnySeq? && pattern[|pattern| - 2].Literal?
  }

  predicate IsLetter(c: char) {
    'a' <= c <= 'z' || 'A' <= c <= 'Z'
  }

  function OtherCase(c: char): char {
    if 'a' <= c <= 'z' then 'A' + (c - 'a') else if 'A' <= c <= 'Z' then 'a' + (c - 'A') else c
  }

  lemma OtherCaseSame(c: char)
    requires IsLetter(c)
    ensures OtherCase(c) != c && ToUpper(OtherCase(c)) == ToUpper(c) && OtherCase(c) != NUL
  {
  }

  lemma ExactIsCloser(es: seq<Elem>, exact: Exactness, s: string, from: nat)
    requires |exact| == |es| && Language(es, exact, false, s, from)
    ensures Plain(es, false, s, from)
  {
    var cuts :| Cut(es, exact, false, s, from, cuts);
    var uniform := Uniform(|es|, false);
    forall i | 0 <= i < |es| ensures Piece(es, uniform, false, s, cuts, i) {
      assert Piece(es, exact, false, s, cuts, i);
    }
    assert Cut(es, uniform, false, s, from, cuts);
  }

  /** The matcher's language ignoring case: the documented one, but the shortcut wants its literal letter by letter. */
  lemma CaseInsensitiveExactly(pattern: seq<Elem>, line: string)
    requires Proper(pattern)
    ensures Matching(pattern, false, line, 0, 0) <==>
      Documented(pattern, false, line) &&
          (EndsInSequenceLiteral(pattern) ==> EndsWith(line, 0, pattern[|pattern| - 2].text))
  {
    var es, exact, uniform := Elems(pattern), Exact(pattern, false), Uniform(|pattern| - 1, false);
    assert es[0..] == es && exact[0..] == exact;
    if Matching(pattern, false, line, 0, 0) {
      ExactIsCloser(es, exact, line, 0);
      if EndsInSequenceLiteral(pattern) {
        LastLiteral(pattern, false, line, 0, 0);
        SameTextExactly(line[|line| - |pattern[|pattern| - 2].text|..], pattern[|pattern| - 2].text);
      }
    }
    if Documented(pattern, false, line) &&
        (EndsInSequenceLiteral(pattern) ==> EndsWith(line, 0, pattern[|pattern| - 2].text)) {
      var cuts :| Cut(es, uniform, false, line, 0, cuts);
      forall i | 0 <= i < |es| ensures Piece(es, exact, false, line, cuts, i) {
        assert Piece(es, uniform, false, line, cuts, i);
        if i + 2 == |pattern| && es[i].Literal? && exact[i] {
          assert line[cuts[i]..cuts[i + 1]] == line[|line| - |es[i].text|..];
        }
      }
      assert Cut(es, exact, false, line, 0, cuts);
    }
  }

  lemma SameTextExactly(s: string, t: string)
    ensures SameText(s, t, true) <==> s == t
  {
    if SameText(s, t, true) {
      forall i | 0 <= i < |s| ensures s[i] == t[i] { assert SameChar(s[i], t[i], true); }
    }
  }

  /** The line with its end replaced by the literal, one letter of it in the other case. */
  ghost function Flipped(line: string, text: string, j: nat): string
    requires |text| <= |line| && j < |text|
  {
    line[..|line| - |text|] + text[j := OtherCase(text[j])]
  }

  lemma FlippedPiece(pattern: seq<Elem>, line: string, cuts: seq<nat>, j: nat, i: nat)
    requires Proper(pattern) && EndsInSequenceLiteral(pattern) && j < |pattern[|pattern| - 2].text| && i < |pattern| - 1
    requires IsLetter(pattern[|pattern| - 2].text[j])
    requires Cut(Elems(pattern), Uniform(|pattern| - 1, false), false, line, 0, cuts)
    requires cuts[|pattern| - 2] + |pattern[|pattern| - 2].text| == |line|
    requires SameText(line[cuts[|pattern| - 2]..], pattern[|pattern| - 2].text, false)
    requires i < |pattern| - 2 ==> cuts[i + 1] <= cuts[|pattern| - 2]
    ensures Piece(Elems(pattern), Uniform(|pattern| - 1, false), false, Flipped(line, pattern[|pattern| - 2].text, j),
        cuts, i)
  {
    var es, text := Elems(pattern), pattern[|pattern| - 2].text;
    var other := Flipped(line, text, j);
    var m := cuts[|es| - 1];
    assert Piece(es, Uniform(|es|, false), false, line, cuts, i);
    OtherCaseSame(text[j]);
    if i < |es| - 1 {
      assert line[cuts[i]..cuts[i + 1]] == other[cuts[i]..cuts[i + 1]];
      if cuts[i + 1] == m && m < |line| {
        assert SameChar(line[m..][0], text[0], false);
      }
    } else {
      assert other[m..] == text[j := OtherCase(text[j])];
      assert other[cuts[i]..cuts[i + 1]] == other[m..];
    }
  }

  lemma CutsAscend(es: seq<Elem>, exact: Exactness, caseSensitive: bool, s: string, cuts: seq<nat>, i: nat, j: nat)
    requires |exact| == |es| && |cuts| == |es| + 1 && i <= j <= |es|
    requires forall k {:trigger Piece(es, exact, caseSensitive, s, cuts, k)} :: i <= k < j ==>
        Piece(es, exact, caseSensitive, s, cuts, k)
    ensures cuts[i] <= cuts[j]
    decreases j - i
  {
    if i < j {
      assert Piece(es, exact, caseSensitive, s, cuts, i);
      CutsAscend(es, exact, caseSensitive, s, cuts, i + 1, j);
    }
  }

  /**
   Flipping one letter of the literal at the end of a documented line keeps it documented, but the shortcut rejects it.
   */
  lemma FlippedIsLost(pattern: seq<Elem>, line: string, j: nat)
    requires Proper(pattern) && EndsInSequenceLiteral(pattern) && Documented(pattern, false, line)
    requires j < |pattern[|pattern| - 2].text| && IsLetter(pattern[|pattern| - 2].text[j])
    ensures |pattern[|pattern| - 2].text| <= |line|
    ensures Documented(pattern, false, Flipped(line, pattern[|pattern| - 2].text, j))
    ensures !Matching(pattern, false, Flipped(line, pattern[|pattern| - 2].text, j), 0, 0)
  {
    var es, text, uniform := Elems(pattern), pattern[|pattern| - 2].text, Uniform(|pattern| - 1, false);
    var cuts :| Cut(es, uniform, false, line, 0, cuts);
    assert Piece(es, uniform, false, line, cuts, |es| - 1);
    assert line[cuts[|es| - 1]..cuts[|es|]] == line[cuts[|es| - 1]..];
    var other := Flipped(line, text, j);
    forall i | 0 <= i < |es| ensures Piece(es, uniform, false, other, cuts, i) {
      if i < |es| - 1 { CutsAscend(es, uniform, false, line, cuts, i + 1, |es| - 1); }
      FlippedPiece(pattern, line, cuts, j, i);
    }
    assert Cut(es, uniform, false, other, 0, cuts);
    CaseInsensitiveExactly(pattern, other);
    OtherCaseSame(text[j]);
    assert other[|other| - |text|..][j] == OtherCase(text[j]);
  }

  /** Ignoring case, the documented language does not tell lines apart that differ only in case. */
  lemma CaseDoesNotMatter(es: seq<Elem>, s: string, t: string)
    requires SameText(s, t, false) && Plain(es, false, s, 0)
    ensures Plain(es, false, t, 0)
  {
    var exact := Uniform(|es|, false);
    var cuts :| Cut(es, exact, false, s, 0, cuts);
    forall i | 0 <= i < |es| ensures Piece(es, exact, false, t, cuts, i) {
      assert Piece(es, exact, false, s, cuts, i);
      CaseDoesNotMatterHere(es[i], s, t, cuts[i], cuts[i + 1]);
    }
    assert Cut(es, exact, false, t, 0, cuts);
  }

  lemma CaseDoesNotMatterHere(e: Elem, s: string, t: string, from: nat, to: nat)
    requires SameText(s, t, false) && from <= to <= |s| && First(e, false, false, s, from, to)
    ensures First(e, false, false, t, from, to)
  {
    var v, w := s[from..to], t[from..to];
    forall i | 0 <= i < |v| ensures SameChar(v[i], w[i], false) { assert SameChar(s[from + i], t[from + i], false); }
    if to < |s| { assert SameChar(s[to], t[to], false); }
    if e.NumRange? {
      assert v == w by {
        forall i | 0 <= i < |v| ensures v[i] == w[i] { assert IsDigit(v[i]) && SameChar(v[i], w[i], false); }
      }
    } else if e.CommonSeq? {
      forall i | 0 <= i < |w| ensures w[i] != '.' { assert v[i] != '.' && SameChar(v[i], w[i], false); }
    }
  }

  predicate HasLetter(s: string) {
    exists j :: 0 <= j < |s| && IsLetter(s[j])
  }

  /**
   Ignoring case works as documented for every line, unless the shortcut's guard holds for a literal with a letter.
   */
  lemma CaseInsensitiveIsDocumentedIff(pattern: seq<Elem>)
    requires Proper(pattern) && exists line :: Documented(pattern, false, line)
    ensures (forall line :: Matching(pattern, false, line, 0, 0) <==> Documented(pattern, false, line)) <==>
      !(EndsInSequenceLiteral(pattern) && HasLetter(pattern[|pattern| - 2].text))
  {
    if EndsInSequenceLiteral(pattern) && HasLetter(pattern[|pattern| - 2].text) {
      var line :| Documented(pattern, false, line);
      var j: nat :| j < |pattern[|pattern| - 2].text| && IsLetter(pattern[|pattern| - 2].text[j]);
      FlippedIsLost(pattern, line, j);
    } else {
      forall line ensures Matching(pattern, false, line, 0, 0) <==> Documented(pattern, false, line) {
        CaseInsensitiveExactly(pattern, line);
        if EndsInSequenceLiteral(pattern) && Documented(pattern, false, line) { CaselessEnding(pattern, line); }
      }
    }
  }

  lemma CaselessEnding(pattern: seq<Elem>, line: string)
    requires Proper(pattern) && EndsInSequenceLiteral(pattern) && !HasLetter(pattern[|pattern| - 2].text)
    requires Documented(pattern, false, line)
    ensures EndsWith(line, 0, pattern[|pattern| - 2].text)
  {
    var es, text := Elems(pattern), pattern[|pattern| - 2].text;
    var cuts :| Cut(es, Uniform(|es|, false), false, line, 0, cuts);
    assert Piece(es, Uniform(|es|, false), false, line, cuts, |es| - 1);
    var tail := line[cuts[|es| - 1]..cuts[|es|]];
    assert tail == line[|line| - |text|..];
    forall i | 0 <= i < |text| ensures tail[i] == text[i] {
      assert SameChar(tail[i], text[i], false) && !IsLetter(text[i]);
    }
  }

  // ---------- substring mode ----------

  /** The tokenizer adds an any-sequence at the end of a substring pattern, and then in front, unless already there. */
  function PadBack(es: seq<Elem>): (r: seq<Elem>)
    ensures r != [] && r[|r| - 1].AnySeq?
  {
    if es == [] || !es[|es| - 1].AnySeq? then es + [AnySeq] else es
  }

  function PadFront(es: seq<Elem>): seq<Elem>
    requires es != []
  {
    if es[0].AnySeq? then es else [AnySeq] + es
  }

  function Pad(es: seq<Elem>): seq<Elem> {
    PadFront(PadBack(es))
  }

  predicate MayTakeNothing(e: Elem) {
    e.AnySeq? || e.CommonSeq? || e == Literal("")
  }

  /** Whether a line can end in the number of a number range: nothing behind it must take a character. */
  predicate MayEndInNumber(es: seq<Elem>) {
    && es != []
    && (|| es[|es| - 1].NumRange?
        || (MayTakeNothing(es[|es| - 1]) && MayEndInNumber(es[..|es| - 1])))
  }

  /** The pieces of es can lie between i and j of s. */
  ghost predicate Lies(es: seq<Elem>, caseSensitive: bool, s: string, i: nat, j: nat, cuts: seq<nat>) {
    && |cuts| == |es| + 1 && cuts[0] == i && cuts[|es|] == j <= |s|
    && (forall k {:trigger Piece(es, Uniform(|es|, caseSensitive), caseSensitive, s, cuts, k)} :: 0 <= k < |es| ==>
          Piece(es, Uniform(|es|, caseSensitive), caseSensitive, s, cuts, k))
  }

  ghost predicate Between(es: seq<Elem>, caseSensitive: bool, s: string, i: nat, j: nat) {
    exists cuts :: Lies(es, caseSensitive, s, i, j, cuts)
  }

  lemma PaddedFront(es: seq<Elem>, caseSensitive: bool, s: string)
    requires es != []
    ensures Plain(PadFront(es), caseSensitive, s, 0) <==> exists i: nat :: Plain(es, caseSensitive, s, i)
  {
    var padded := PadFront(es);
    var exact := Uniform(|padded|, caseSensitive);
    LanguageSteps(padded, exact, caseSensitive, s, 0);
    assert exact[1..] == Uniform(|padded| - 1, caseSensitive);
    if i: nat :| Plain(es, caseSensitive, s, i) {
      LanguageWithin(es, Uniform(|es|, caseSensitive), caseSensitive, s, i);
      if es[0].AnySeq? {
        LanguageSteps(es, exact, caseSensitive, s, i);
        var to: nat :| Begins(es, exact, caseSensitive, s, i, to);
        assert Begins(es, exact, caseSensitive, s, 0, to);
      } else {
        assert padded[1..] == es;
        assert Begins(padded, exact, caseSensitive, s, 0, i);
      }
    }
    if Plain(padded, caseSensitive, s, 0) && !es[0].AnySeq? {
      var to: nat :| Begins(padded, exact, caseSensitive, s, 0, to);
      assert padded[1..] == es;
      assert Plain(es, caseSensitive, s, to);
    }
  }

  lemma PaddedBack(es: seq<Elem>, caseSensitive: bool, s: string, i: nat)
    ensures Plain(PadBack(es), caseSensitive, s, i) <==> exists j: nat :: Between(es, caseSensitive, s, i, j)
  {
    var padded := PadBack(es);
    var exact := Uniform(|padded|, caseSensitive);
    if j: nat :| Between(es, caseSensitive, s, i, j) {
      var cuts :| Lies(es, caseSensitive, s, i, j, cuts);
      var more := cuts[..|padded|] + [|s|];
      forall k | 0 <= k < |padded| ensures Piece(padded, exact, caseSensitive, s, more, k) {
        if k < |es| { assert Piece(es, Uniform(|es|, caseSensitive), caseSensitive, s, cuts, k); }
      }
      assert Cut(padded, exact, caseSensitive, s, i, more);
    }
    if Plain(padded, caseSensitive, s, i) {
      var cuts :| Cut(padded, exact, caseSensitive, s, i, cuts);
      var fewer := cuts[..|es| + 1];
      forall k | 0 <= k < |es| ensures Piece(es, Uniform(|es|, caseSensitive), caseSensitive, s, fewer, k) {
        assert Piece(padded, exact, caseSensitive, s, cuts, k);
      }
      assert Piece(padded, exact, caseSensitive, s, cuts, |padded| - 1);
      assert Lies(es, caseSensitive, s, i, fewer[|es|], fewer);
      assert Between(es, caseSensitive, s, i, fewer[|es|]);
    }
  }

  /** A number piece ends before the last piece does, if something behind it must take a character. */
  lemma NumberEndsEarlier(es: seq<Elem>, caseSensitive: bool, s: string, cuts: seq<nat>, k: nat)
    requires k < |es| && es[k].NumRange? && !MayEndInNumber(es)
    requires |cuts| == |es| + 1 && Lies(es, caseSensitive, s, cuts[0], cuts[|es|], cuts)
    ensures cuts[k + 1] < cuts[|es|]
  {
    var n := |es| - 1;
    assert Piece(es, Uniform(|es|, caseSensitive), caseSensitive, s, cuts, n);
    if k < n {
      CutsAscend(es, Uniform(|es|, caseSensitive), caseSensitive, s, cuts, k + 1, n);
      if !MayEndInNumber(es[..n]) {
        Shorter(es, caseSensitive, s, cuts);
        NumberEndsEarlier(es[..n], caseSensitive, s, cuts[..|es|], k);
      }
    }
  }

  lemma Shorter(es: seq<Elem>, caseSensitive: bool, s: string, cuts: seq<nat>)
    requires es != [] && |cuts| == |es| + 1 && Lies(es, caseSensitive, s, cuts[0], cuts[|es|], cuts)
    ensures Lies(es[..|es| - 1], caseSensitive, s, cuts[0], cuts[|es| - 1], cuts[..|es|])
  {
    var n := |es| - 1;
    forall k | 0 <= k < n ensures Piece(es[..n], Uniform(n, caseSensitive), caseSensitive, s, cuts[..|es|], k) {
      assert Piece(es, Uniform(|es|, caseSensitive), caseSensitive, s, cuts, k);
    }
    assert Piece(es, Uniform(|es|, caseSensitive), caseSensitive, s, cuts, n);
  }

  /** A piece of a line is a piece of the part of the line around it. */
  lemma PieceOfPart(e: Elem, caseSensitive: bool, s: string, i: nat, j: nat, from: nat, to: nat)
    requires i <= from <= to <= j <= |s| && First(e, caseSensitive, caseSensitive, s, from, to)
    ensures First(e, caseSensitive, caseSensitive, s[i..j], from - i, to - i)
  {
    SliceOfSlice(s, i, j, from - i, to - i);
  }

  /** And the other way round, unless it is a number that goes on behind the part. */
  lemma PieceOfWhole(e: Elem, caseSensitive: bool, s: string, i: nat, j: nat, from: nat, to: nat)
    requires i <= from <= to <= j <= |s| && First(e, caseSensitive, caseSensitive, s[i..j], from - i, to - i)
    requires e.NumRange? && to == j ==> !IsDigit(At(s, j))
    ensures First(e, caseSensitive, caseSensitive, s, from, to)
  {
    SliceOfSlice(s, i, j, from - i, to - i);
  }

  lemma SliceOfSlice(s: string, i: nat, j: nat, from: nat, to: nat)
    requires i <= j <= |s| && from <= to <= j - i
    ensures s[i..j][from..to] == s[i + from..i + to]
  {
    var a, b := s[i..j][from..to], s[i + from..i + to];
    forall k | 0 <= k < |a| ensures a[k] == b[k] { assert a[k] == s[i..j][from + k]; }
  }

  /** Where pieces lie in a line, they make up that part of it. */
  lemma BetweenIsPart(es: seq<Elem>, caseSensitive: bool, s: string, i: nat, j: nat)
    requires Between(es, caseSensitive, s, i, j)
    ensures i <= j <= |s| && Plain(es, caseSensitive, s[i..j], 0)
  {
    var exact := Uniform(|es|, caseSensitive);
    var cuts :| Lies(es, caseSensitive, s, i, j, cuts);
    CutsAscend(es, exact, caseSensitive, s, cuts, 0, |es|);
    forall k | 0 <= k <= |es| ensures i <= cuts[k] <= j {
      CutsAscend(es, exact, caseSensitive, s, cuts, 0, k);
      CutsAscend(es, exact, caseSensitive, s, cuts, k, |es|);
    }
    var part, moved := s[i..j], seq(|cuts|, k requires 0 <= k < |cuts| => cuts[k] - i);
    forall k | 0 <= k < |es| ensures Piece(es, exact, caseSensitive, part, moved, k) {
      assert Piece(es, exact, caseSensitive, s, cuts, k);
      PieceOfPart(es[k], caseSensitive, s, i, j, cuts[k], cuts[k + 1]);
    }
    assert Cut(es, exact, caseSensitive, part, 0, moved);
  }

  /** The pieces of a part of a line lie there in the line, unless a number would go on behind it. */
  lemma PartIsBetween(es: seq<Elem>, caseSensitive: bool, s: string, i: nat, j: nat)
    requires i <= j <= |s| && Plain(es, caseSensitive, s[i..j], 0)
    requires MayEndInNumber(es) ==> !IsDigit(At(s, j))
    ensures Between(es, caseSensitive, s, i, j)
  {
    var exact, part := Uniform(|es|, caseSensitive), s[i..j];
    var cuts :| Cut(es, exact, caseSensitive, part, 0, cuts);
    var moved := seq(|cuts|, k requires 0 <= k < |cuts| => cuts[k] + i);
    assert Lies(es, caseSensitive, part, 0, |part|, cuts);
    forall k | 0 <= k < |es| ensures Piece(es, exact, caseSensitive, s, moved, k) {
      assert Piece(es, exact, caseSensitive, part, cuts, k);
      if es[k].NumRange? && !MayEndInNumber(es) { NumberEndsEarlier(es, caseSensitive, part, cuts, k); }
      PieceOfWhole(es[k], caseSensitive, s, i, j, moved[k], moved[k + 1]);
    }
    assert Lies(es, caseSensitive, s, i, j, moved);
  }

  /** If a line may end in a number, the pieces can lie so that no digit follows them. */
  lemma NoDigitFollows(es: seq<Elem>, caseSensitive: bool, s: string, i: nat, j: nat) returns (e: nat)
    requires MayEndInNumber(es) && Between(es, caseSensitive, s, i, j)
    ensures Between(es, caseSensitive, s, i, e) && !IsDigit(At(s, e))
  {
    var n := |es| - 1;
    var cuts :| Lies(es, caseSensitive, s, i, j, cuts);
    assert Piece(es, Uniform(|es|, caseSensitive), caseSensitive, s, cuts, n);
    if es[n].NumRange? { return j; }
    Shorter(es, caseSensitive, s, cuts);
    assert Between(es[..n], caseSensitive, s, i, cuts[n]);
    e := NoDigitFollows(es[..n], caseSensitive, s, i, cuts[n]);
    var fewer :| Lies(es[..n], caseSensitive, s, i, e, fewer);
    var more := fewer + [e];
    forall k | 0 <= k < |es| ensures Piece(es, Uniform(|es|, caseSensitive), caseSensitive, s, more, k) {
      if k < n { assert Piece(es[..n], Uniform(n, caseSensitive), caseSensitive, s, fewer, k); }
    }
    assert Lies(es, caseSensitive, s, i, e, more);
  }

  /** The part of the line from i up to j matches, and no digit behind it would belong to its last number. */
  ghost predicate PartMatches(es: seq<Elem>, caseSensitive: bool, line: string, i: nat, j: nat) {
    && i <= j <= |line| && Plain(es, caseSensitive, line[i..j], 0)
    && (MayEndInNumber(es) ==> !IsDigit(At(line, j)))
  }

  /** The padded pattern is the language of lines with a part in the language of the pattern. */
  lemma PaddedMeansPart(es: seq<Elem>, caseSensitive: bool, line: string)
    ensures Plain(Pad(es), caseSensitive, line, 0) <==>
      exists i: nat, j: nat :: PartMatches(es, caseSensitive, line, i, j)
  {
    var back := PadBack(es);
    PaddedFront(back, caseSensitive, line);
    if Plain(Pad(es), caseSensitive, line, 0) {
      var i: nat :| Plain(back, caseSensitive, line, i);
      PaddedBack(es, caseSensitive, line, i);
      var j: nat :| Between(es, caseSensitive, line, i, j);
      if MayEndInNumber(es) { j := NoDigitFollows(es, caseSensitive, line, i, j); }
      BetweenIsPart(es, caseSensitive, line, i, j);
      assert PartMatches(es, caseSensitive, line, i, j);
    }
    if i: nat, j: nat :| PartMatches(es, caseSensitive, line, i, j) {
      PartIsBetween(es, caseSensitive, line, i, j);
      PaddedBack(es, caseSensitive, line, i);
    }
  }

  /** In substring mode the matcher decides, in both modes of case, whether some part of the line matches. */
  lemma SubstringIsDocumented(es: seq<Elem>, caseSensitive: bool, line: string)
    requires Proper(Pad(es) + [End])
    ensures Matching(Pad(es) + [End], caseSensitive, line, 0, 0) <==>
      exists i: nat, j: nat :: PartMatches(es, caseSensitive, line, i, j)
  {
    var pattern := Pad(es) + [End];
    assert Elems(pattern) == Pad(es);
    assert pattern[|pattern| - 2].AnySeq?;
    if caseSensitive { CaseSensitiveIsDocumented(pattern, line); } else { CaseInsensitiveExactly(pattern, line); }
    PaddedMeansPart(es, caseSensitive, line);
  }
}
