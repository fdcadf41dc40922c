/** Element lists written as pattern texts, and read back by the tokenizer. */
module PatternRendering {
  import opened CStrings
  import opened PatternLanguage
  import opened PatternMatching
  import opened PatternModes
  import opened PatternTokens

  // ---------- numbers ----------

  function DigitOf(d: nat): char
    requires d < 10
  {
    '0' + d as char
  }

  function Decimal(n: nat): string {
    (if n < 10 then "" else Decimal(n / 10)) + [DigitOf(n % 10)]
  }

  lemma DigitBehind(s: string, d: nat)
    requires Digits(s) && d < 10
    ensures Digits(s + [DigitOf(d)]) && Value(s + [DigitOf(d)]) == 10 * Value(s) + d
  {
    var c := DigitOf(d);
    assert IsDigit(c) && (c - '0') as int == d;
    assert (s + [c])[..|s|] == s;
  }

  lemma {:induction false} DecimalStands(n: nat)
    ensures Decimal(n) != "" && Digits(Decimal(n)) && Value(Decimal(n)) == n
    decreases n
  {
    if n >= 10 {
      DecimalStands(n / 10);
      DigitBehind(Decimal(n / 10), n % 10);
    } else {
      DigitBehind("", n % 10);
    }
  }

  /** An end of a range as it is written; -1 is left out. */
  function Bound(n: int): string {
    if n < 0 then "" else Decimal(n)
  }

  predicate IsBound(w: string, n: int) {
    Digits(w) && if w == "" then n == -1 else n == Min(Value(w), LONG_MAX)
  }

  lemma BoundStands(n: int)
    requires -1 <= n <= LONG_MAX
    ensures IsBound(Bound(n), n)
  {
    if n >= 0 { DecimalStands(n); }
  }

  /** A text starts with w, and more follows. */
  predicate Follows(s: string, i: nat, w: string, rest: string) {
    i <= |s| && s[i..] == w + rest
  }

  lemma FollowsAt(s: string, i: nat, w: string, rest: string, k: nat)
    requires Follows(s, i, w, rest) && k <= |w|
    ensures At(s, i + k) == if k < |w| then w[k] else At(rest, 0)
    ensures i + |w| <= |s|
  {
    if i + k < |s| { assert s[i..][k] == s[i + k]; }
  }

  lemma FollowsBehind(s: string, i: nat, v: string, w: string, rest: string)
    requires Follows(s, i, v + w, rest)
    ensures Follows(s, i, v, w + rest) && Follows(s, i + |v|, w, rest)
  {
    assert v + w + rest == v + (w + rest);
    assert s[i..][|v|..] == s[i + |v|..];
  }

  lemma Behead(s: string, i: nat, w: string, rest: string)
    requires i <= |s| && s[i..] == w + rest
    ensures Follows(s, i, w, rest) && i + |w| <= |s| && s[i + |w|..] == rest
  {
    assert s[i..][|w|..] == s[i + |w|..];
  }

  lemma {:induction false} DigitsEndAt(s: string, i: nat, w: string, rest: string)
    requires Follows(s, i, w, rest) && Digits(w) && !IsDigit(At(rest, 0))
    ensures DigitsEnd(s, i) == i + |w| <= |s| && s[i..i + |w|] == w
    decreases |w|
  {
    FollowsAt(s, i, w, rest, 0);
    if w != "" {
      assert w == w[..1] + w[1..];
      FollowsBehind(s, i, w[..1], w[1..], rest);
      DigitsEndAt(s, i + 1, w[1..], rest);
      assert s[i..i + |w|] == [s[i]] + s[i + 1..i + |w|];
    }
  }

  lemma NumberAtBound(s: string, i: nat, w: string, n: int, rest: string)
    requires IsBound(w, n) && Follows(s, i, w, rest) && !IsDigit(At(rest, 0))
    ensures NumberAt(s, i) == n && DigitsEnd(s, i) == i + |w|
  {
    FollowsAt(s, i, w, rest, 0);
    assert w != "" ==> IsDigit(w[0]);
    DigitsEndAt(s, i, w, rest);
  }

  lemma RangeAtBounds(s: string, i: nat, a: string, b: string, from: int, to: int, closing: char, rest: string)
    requires IsBound(a, from) && IsBound(b, to) && !IsDigit(closing)
    requires i < |s| && Follows(s, i + 1, a + (".." + (b + [closing])), rest)
    ensures RangeAt(s, i, closing) == Range(from, to, i + 3 + |a| + |b|)
  {
    FollowsBehind(s, i + 1, a, ".." + (b + [closing]), rest);
    NumberAtBound(s, i + 1, a, from, ".." + (b + [closing]) + rest);
    UpperBound(s, i + 1 + |a|, b, to, closing, rest);
    RangeFromParts(s, i, i + 1 + |a|, i + 3 + |a| + |b|, closing);
  }

  lemma UpperBound(s: string, k: nat, b: string, to: int, closing: char, rest: string)
    requires IsBound(b, to) && !IsDigit(closing) && Follows(s, k, ".." + (b + [closing]), rest)
    ensures At(s, k) == At(s, k + 1) == '.' && NumberAt(s, k + 2) == to
    ensures DigitsEnd(s, k + 2) == k + 2 + |b| && At(s, k + 2 + |b|) == closing
  {
    FollowsBehind(s, k, "..", b + [closing], rest);
    FollowsAt(s, k, "..", b + [closing] + rest, 0);
    FollowsAt(s, k, "..", b + [closing] + rest, 1);
    FollowsBehind(s, k + 2, b, [closing], rest);
    NumberAtBound(s, k + 2, b, to, [closing] + rest);
    FollowsAt(s, k + 2, b, [closing] + rest, |b|);
  }

  lemma RangeFromParts(s: string, i: nat, a: nat, b: nat, closing: char)
    requires i < |s| && DigitsEnd(s, i + 1) == a && At(s, a) == At(s, a + 1) == '.'
    requires DigitsEnd(s, a + 2) == b && At(s, b) == closing
    ensures RangeAt(s, i, closing) == Range(NumberAt(s, i + 1), NumberAt(s, a + 2), b)
  {
  }

  lemma RangeInside(s: string, k: nat, open: char, a: string, b: string, from: int, to: int, closing: char,
                    rest: string)
    requires IsBound(a, from) && IsBound(b, to) && !IsDigit(closing)
    requires Follows(s, k, [open] + (a + (".." + (b + [closing]))), rest)
    ensures var end := k + 3 + |a| + |b|;
      k < end < |s| && s[k] == open && s[end] == closing && RangeAt(s, k, closing) == Range(from, to, end)
  {
    var body := a + (".." + (b + [closing]));
    FollowsBehind(s, k, [open], body, rest);
    FollowsAt(s, k, [open], body + rest, 0);
    FollowsAt(s, k + 1, body, rest, |body| - 1);
    RangeAtBounds(s, k, a, b, from, to, closing, rest);
  }

  // ---------- sets ----------

  /** What stands in a set: characters and spans of characters. */
  datatype Item = Single(c: char) | Span(lo: char, up: char) {
    function From(): char {
      if Single? then c else lo
    }

    function To(): char {
      if Single? then c else up
    }

    function Text(): string {
      if Single? then [c] else [lo, '-', up]
    }
  }

  function ItemsText(items: seq<Item>): string {
    if items == [] then "" else items[0].Text() + ItemsText(items[1..])
  }

  /** The characters an item stands for, those of both cases if case is ignored. */
  predicate InItem(c: char, item: Item, caseSensitive: bool) {
    match item
    case Single(d) => if caseSensitive then c == d else ToUpper(c) == ToUpper(d)
    case Span(lo, up) => if caseSensitive then lo <= c <= up else ToUpper(lo) <= ToUpper(c) <= ToUpper(up)
  }

  predicate InItems(c: char, items: seq<Item>, caseSensitive: bool) {
    exists k :: 0 <= k < |items| && InItem(c, items[k], caseSensitive)
  }

  /** A closing brace can only stand first, and a hyphen behind a character only last. */
  predicate Spellable(items: seq<Item>, first: bool) {
    && (forall k :: 0 <= k < |items| ==> SpellableItem(items[k], first && k == 0))
    && (forall k :: 0 <= k < |items| - 1 ==> HyphenApart(items, k))
  }

  predicate HyphenApart(items: seq<Item>, k: nat)
    requires k + 1 < |items|
  {
    items[k].Single? && items[k + 1].From() == '-' ==> items[k + 1].Single? && k + 2 == |items|
  }

  predicate SpellableItem(item: Item, first: bool) {
    && item.From() != NUL && item.To() != NUL && (item.From() == '}' ==> first) && (item.Span? ==> item.up != '}')
  }

  /** The pairs stored for them. */
  function Pairs(items: seq<Item>, caseSensitive: bool): string {
    if items == [] then ""
    else [Stored(items[0].From(), caseSensitive), Stored(items[0].To(), caseSensitive)]
         + Pairs(items[1..], caseSensitive)
  }

  lemma {:induction false} PairAt(items: seq<Item>, k: nat, caseSensitive: bool)
    requires k < |items|
    ensures |Pairs(items, caseSensitive)| == 2 * |items|
    ensures Pairs(items, caseSensitive)[2 * k] == Stored(items[k].From(), caseSensitive)
    ensures Pairs(items, caseSensitive)[2 * k + 1] == Stored(items[k].To(), caseSensitive)
  {
    if k > 0 {
      PairAt(items[1..], k - 1, caseSensitive);
    } else if |items| > 1 {
      PairAt(items[1..], 0, caseSensitive);
    }
  }

  /** A character is in a set exactly if it is one of the characters or lies in one of the spans. */
  lemma PairsSpanItems(c: char, items: seq<Item>, caseSensitive: bool)
    ensures CharInSet(c, Pairs(items, caseSensitive), caseSensitive) <==> InItems(c, items, caseSensitive)
  {
    var pairs, d := Pairs(items, caseSensitive), if caseSensitive then c else ToUpper(c);
    if items != [] { PairAt(items, 0, caseSensitive); }
    forall k | 0 <= k < |items|
      ensures 2 * k + 1 < |pairs| && (Spans(pairs, k, d) <==> InItem(c, items[k], caseSensitive))
    {
      PairAt(items, k, caseSensitive);
    }
  }

  lemma TailSpellable(items: seq<Item>, first: bool)
    requires Spellable(items, first) && items != []
    ensures Spellable(items[1..], false)
  {
    var tail := items[1..];
    forall k | 0 <= k < |tail| ensures SpellableItem(tail[k], false) { assert SpellableItem(items[k + 1], false); }
    forall k | 0 <= k < |tail| - 1 ensures HyphenApart(tail, k) { assert HyphenApart(items, k + 1); }
  }

  /** Items are read back from their text, as the pairs stored for them. */
  lemma {:induction false} ItemsRead(s: string, i: nat, start: nat, items: seq<Item>, rest: string, caseSensitive: bool)
    requires Spellable(items, i == start) && Follows(s, i, ItemsText(items) + "}", rest)
    requires start <= i && (i == start ==> items != [])
    ensures SetAt(s, i, start, caseSensitive) == Scanned(Pairs(items, caseSensitive), i + |ItemsText(items)| + 1)
    decreases |items|
  {
    if items == [] {
      FollowsAt(s, i, "}", rest, 0);
    } else {
      var text, more := items[0].Text(), items[1..];
      FirstItemRead(s, i, items, rest);
      TailSpellable(items, i == start);
      ItemsRead(s, i + |text|, start, more, rest, caseSensitive);
    }
  }

  lemma FirstItemRead(s: string, i: nat, items: seq<Item>, rest: string)
    requires items != [] && Follows(s, i, ItemsText(items) + "}", rest)
    requires Spellable(items, true)
    ensures i < |s| && s[i] == items[0].From() && (IsSpan(s, i) <==> items[0].Span?)
    ensures items[0].Span? ==> At(s, i + 2) == items[0].up
    ensures Follows(s, i + |items[0].Text()|, ItemsText(items[1..]) + "}", rest)
  {
    var text, more := items[0].Text(), ItemsText(items[1..]) + "}";
    assert SpellableItem(items[0], true);
    assert ItemsText(items) + "}" == text + more;
    FollowsBehind(s, i, text, more, rest);
    FollowsAt(s, i, text, more + rest, 0);
    FollowsAt(s, i + |text|, more, rest, 0);
    FollowsAt(s, i + |text|, more, rest, 1);
    if items[0].Span? {
      FollowsAt(s, i, text, more + rest, 1);
      FollowsAt(s, i, text, more + rest, 2);
    } else {
      HyphenBehind(items);
    }
  }

  /** Behind a single character a hyphen is followed by the closing brace. */
  lemma HyphenBehind(items: seq<Item>)
    requires Spellable(items, true) && items != [] && items[0].Single?
    ensures var more := ItemsText(items[1..]) + "}"; more[0] == '-' ==> |more| == 2 && more[1] == '}'
  {
    if |items| > 1 && items[1].From() == '-' {
      var last := items[1..];
      assert HyphenApart(items, 0);
      assert last[0] == items[1] && last[1..] == [];
      assert ItemsText(last) == "-";
    }
  }

  /** And every set that is closed was written as some items. */
  lemma {:induction false} SetIsItems(s: string, i: nat, start: nat, caseSensitive: bool) returns (items: seq<Item>)
    requires NUL !in s && start <= i && SetAt(s, i, start, caseSensitive).Scanned?
    ensures var r := SetAt(s, i, start, caseSensitive); r.next <= |s| && IsWritten(s, i, items, i == start, s[r.next..])
    ensures SetAt(s, i, start, caseSensitive).value == Pairs(items, caseSensitive)
    decreases |s| - i
  {
    if SetEnds(s, i, start) {
      items := [];
    } else {
      var item := FirstItem(s, i, start, caseSensitive);
      var k := i + |item.Text()|;
      var tail := SetIsItems(s, k, start, caseSensitive);
      items := [item] + tail;
      assert items[1..] == tail;
      WrittenInFront(s, i, item, tail, i == start, s[SetAt(s, k, start, caseSensitive).next..]);
    }
  }

  predicate SetEnds(s: string, i: nat, start: nat) {
    i < |s| && s[i] == '}' && i != start
  }

  lemma FirstItem(s: string, i: nat, start: nat, caseSensitive: bool) returns (item: Item)
    requires NUL !in s && start <= i && SetAt(s, i, start, caseSensitive).Scanned? && !SetEnds(s, i, start)
    ensures var k := i + |item.Text()|;
      && k <= |s| && s[i..k] == item.Text() && SpellableItem(item, i == start) && (item.Single? ==> !IsSpan(s, i))
      && SetAt(s, k, start, caseSensitive).Scanned?
      && SetAt(s, i, start, caseSensitive)
         == Behind([Stored(item.From(), caseSensitive), Stored(item.To(), caseSensitive)],
                   SetAt(s, k, start, caseSensitive))
  {
    item := if IsSpan(s, i) then Span(s[i], s[i + 2]) else Single(s[i]);
  }

  /** The text of these items and a closing brace stand at i. */
  predicate IsWritten(s: string, i: nat, items: seq<Item>, first: bool, rest: string) {
    Spellable(items, first) && (first ==> items != []) && Follows(s, i, ItemsText(items) + "}", rest)
  }

  lemma WrittenInFront(s: string, i: nat, item: Item, tail: seq<Item>, first: bool, rest: string)
    requires NUL !in s && i + |item.Text()| <= |s| && s[i..i + |item.Text()|] == item.Text()
    requires IsWritten(s, i + |item.Text()|, tail, false, rest)
    requires SpellableItem(item, first) && (item.Single? ==> !IsSpan(s, i))
    ensures IsWritten(s, i, [item] + tail, first, rest)
  {
    FollowsFront(s, i, item, tail, rest);
    ItemInFront(s, i, item, tail, rest, first);
  }

  lemma FollowsFront(s: string, i: nat, item: Item, tail: seq<Item>, rest: string)
    requires i + |item.Text()| <= |s| && s[i..i + |item.Text()|] == item.Text()
    requires Follows(s, i + |item.Text()|, ItemsText(tail) + "}", rest)
    ensures Follows(s, i, ItemsText([item] + tail) + "}", rest)
  {
    var k := i + |item.Text()|;
    assert ([item] + tail)[1..] == tail;
    assert s[i..] == s[i..k] + s[k..];
  }

  /** Behind a character that starts no span, a hyphen is the last item. */
  lemma ItemInFront(s: string, i: nat, item: Item, tail: seq<Item>, rest: string, first: bool)
    requires SpellableItem(item, first) && Spellable(tail, false)
    requires Follows(s, i + |item.Text()|, ItemsText(tail) + "}", rest) && NUL !in s
    requires item.Single? ==> !IsSpan(s, i)
    ensures Spellable([item] + tail, first)
  {
    var items := [item] + tail;
    forall k | 0 <= k < |items| ensures SpellableItem(items[k], first && k == 0) {
      if k > 0 { assert SpellableItem(tail[k - 1], false); }
    }
    if item.Single? && tail != [] && tail[0].From() == '-' { HyphenIsLast(s, i + 1, tail, rest); }
    forall k | 0 <= k < |items| - 1 ensures HyphenApart(items, k) {
      if k > 0 { assert HyphenApart(tail, k - 1); }
    }
  }

  lemma HyphenIsLast(s: string, i: nat, items: seq<Item>, rest: string)
    requires Spellable(items, false) && items != [] && items[0].From() == '-' && NUL !in s
    requires Follows(s, i, ItemsText(items) + "}", rest) && (At(s, i + 1) == NUL || At(s, i + 1) == '}')
    ensures items[0].Single? && |items| == 1
  {
    assert |items| > 1 ==> SpellableItem(items[1], false);
    var text, more := items[0].Text(), ItemsText(items[1..]) + "}";
    assert ItemsText(items) + "}" == text + more;
    FollowsAt(s, i, text + more, rest, 1);
  }

  /** Two optional numbers around two dots: in braces, a numeric range and no set. */
  predicate IsRangeText(w: string) {
    exists k :: 0 <= k && k + 2 <= |w| && Digits(w[..k]) && w[k] == w[k + 1] == '.' && Digits(w[k + 2..])
  }

  lemma DigitsBefore(s: string, i: nat, k: nat)
    requires i <= k < DigitsEnd(s, i)
    ensures k < |s| && IsDigit(s[k])
    decreases k - i
  {
    if k > i { DigitsBefore(s, i + 1, k); }
  }

  lemma RangeIsText(s: string, i: nat, closing: char)
    requires i < |s| && RangeAt(s, i, closing).Range? && closing != NUL
    ensures var e := RangeAt(s, i, closing).end;
      i + 3 <= e < |s| && s[e] == closing && IsRangeText(s[i + 1..e])
  {
    RangeEnds(s, i, closing);
    var a, e := DigitsEnd(s, i + 1), RangeAt(s, i, closing).end;
    var w, k := s[i + 1..e], a - (i + 1);
    forall j | 0 <= j < k ensures IsDigit(w[j]) { DigitsBefore(s, i + 1, i + 1 + j); }
    forall j | k + 2 <= j < |w| ensures IsDigit(w[j]) { DigitsBefore(s, a + 2, i + 1 + j); }
    assert Digits(w[..k]) && w[k] == w[k + 1] == '.' && Digits(w[k + 2..]);
  }

  lemma {:induction false} BraceOnlyFirst(items: seq<Item>, first: bool, j: nat)
    requires Spellable(items, first) && j < |ItemsText(items)| && ItemsText(items)[j] == '}'
    ensures first && j == 0
  {
    if items != [] {
      assert SpellableItem(items[0], first && 0 == 0);
      if j >= |items[0].Text()| {
        TailSpellable(items, first);
        BraceOnlyFirst(items[1..], false, j - |items[0].Text()|);
      }
    }
  }

  lemma RangeTextChar(w: string, j: nat)
    requires IsRangeText(w) && j < |w|
    ensures |w| >= 2 && (IsDigit(w[j]) || w[j] == '.')
  {
    var k :| 0 <= k && k + 2 <= |w| && Digits(w[..k]) && w[k] == w[k + 1] == '.' && Digits(w[k + 2..]);
    if j < k { assert w[..k][j] == w[j]; }
    if j >= k + 2 { assert w[k + 2..][j - (k + 2)] == w[j]; }
  }

  /** The first closing brace behind the first character is the one of the set. */
  lemma BraceEndsItems(s: string, i: nat, items: seq<Item>, rest: string, e: nat)
    requires Follows(s, i, ItemsText(items) + "}", rest) && Spellable(items, true)
    requires i < e < |s| && s[e] == '}' && forall j :: i < j < e ==> s[j] != '}'
    ensures ItemsText(items) != "" ==> s[i..e] == ItemsText(items)
  {
    var body := ItemsText(items) + "}";
    FollowsAt(s, i, body, rest, |body| - 1);
    if e < i + |body| - 1 {
      FollowsAt(s, i, body, rest, e - i);
      BraceOnlyFirst(items, true, e - i);
    }
    FollowsBehind(s, i, ItemsText(items), "}", rest);
    assert s[i..][..|body| - 1] == ItemsText(items);
  }

  /** Items that are taken for a range are written like one. */
  lemma RangeIsItems(s: string, i: nat, items: seq<Item>, rest: string)
    requires i < |s| && Follows(s, i + 1, ItemsText(items) + "}", rest) && Spellable(items, true) && items != []
    requires RangeAt(s, i, '}').Range?
    ensures IsRangeText(ItemsText(items))
  {
    RangeIsText(s, i, '}');
    var e := RangeAt(s, i, '}').end;
    forall j | i + 1 < j < e ensures s[j] != '}' {
      RangeTextChar(s[i + 1..e], j - (i + 1));
      assert s[i + 1..e][j - (i + 1)] == s[j];
    }
    BraceEndsItems(s, i + 1, items, rest, e);
  }

  /** Items that are not written like a range are not taken for one, nor is a negated set. */
  lemma ItemsAreNoRange(s: string, i: nat, open: string, items: seq<Item>, rest: string)
    requires i < |s| && (open == "{" || open == "{^") && Follows(s, i, open + (ItemsText(items) + "}"), rest)
    requires Spellable(items, true) && items != [] && (open == "{" ==> !IsRangeText(ItemsText(items)))
    ensures RangeAt(s, i, '}') == NoRange
  {
    var body := ItemsText(items) + "}";
    FollowsBehind(s, i, open, body, rest);
    if open == "{" {
      if RangeAt(s, i, '}').Range? { RangeIsItems(s, i, items, rest); }
    } else {
      FollowsAt(s, i, open, body + rest, 1);
    }
  }

  // ---------- literals ----------

  /** A character of a literal, with a backslash in front or without. */
  datatype Letter = Letter(c: char, escaped: bool) {
    function Text(): string {
      if escaped then ['\\', c] else [c]
    }
  }

  function LettersText(letters: seq<Letter>): string {
    if letters == [] then "" else letters[0].Text() + LettersText(letters[1..])
  }

  function Chars(letters: seq<Letter>): string {
    if letters == [] then "" else [letters[0].c] + Chars(letters[1..])
  }

  /** Wildcards and backslashes are escaped, and so is what stands behind a bracket. */
  predicate Legible(letters: seq<Letter>) {
    && (forall k :: 0 <= k < |letters| ==> LegibleLetter(letters[k]))
    && (forall k :: 0 <= k < |letters| - 1 ==> BracketApart(letters, k))
  }

  predicate BracketApart(letters: seq<Letter>, k: nat)
    requires k + 1 < |letters|
  {
    letters[k].c == '[' ==> letters[k + 1].escaped
  }

  predicate LegibleLetter(l: Letter) {
    l.c != NUL && (!l.escaped ==> !EndsLiteral(l.c) && l.c != '\\')
  }

  lemma TailLegible(letters: seq<Letter>)
    requires Legible(letters) && letters != []
    ensures Legible(letters[1..]) && LegibleLetter(letters[0])
  {
    var tail := letters[1..];
    forall k | 0 <= k < |tail| ensures LegibleLetter(tail[k]) { assert LegibleLetter(letters[k + 1]); }
    forall k | 0 <= k < |tail| - 1 ensures BracketApart(tail, k) { assert BracketApart(letters, k + 1); }
  }

  /** The literal at i is the text and what is read from k on. */
  predicate ReadsOn(s: string, i: nat, text: string, k: nat) {
    LiteralAt(s, i) == Behind(text, LiteralAt(s, k))
  }

  /** Letters are read in front of the rest of a literal, unless a bracket at their end runs into it. */
  lemma {:induction false} LettersInFront(s: string, i: nat, letters: seq<Letter>, rest: string)
      returns (text: string, end: nat)
    requires Legible(letters) && Follows(s, i, LettersText(letters), rest)
    requires EndsInBracket(letters) ==> EndsLiteral(At(rest, 0))
    ensures text == Chars(letters) && end == i + |LettersText(letters)| && ReadsOn(s, i, text, end)
    decreases |letters|
  {
    if letters == [] {
      text, end := "", i;
      ReadsNothing(s, i);
    } else {
      var k, tail := i + |letters[0].Text()|, "";
      LettersSplit(s, i, letters, rest);
      tail, end := LettersInFront(s, k, letters[1..], rest);
      text := [letters[0].c] + tail;
      LetterInFront(s, i, letters, rest);
      ReadsTwice(s, i, [letters[0].c], k, tail, end, text);
    }
  }

  lemma ReadsNothing(s: string, i: nat)
    ensures ReadsOn(s, i, "", i)
  {
    var r := LiteralAt(s, i);
    if r.Scanned? { assert "" + r.value == r.value; }
  }

  lemma ReadsTwice(s: string, i: nat, a: string, k: nat, b: string, end: nat, text: string)
    requires ReadsOn(s, i, a, k) && ReadsOn(s, k, b, end) && text == a + b
    ensures ReadsOn(s, i, text, end)
  {
    BehindTwice(LiteralAt(s, i), a, LiteralAt(s, k), b, LiteralAt(s, end), text);
  }

  lemma BehindTwice(r: Scan<string>, a: string, q: Scan<string>, b: string, p: Scan<string>, text: string)
    requires r == Behind(a, q) && q == Behind(b, p) && text == a + b
    ensures r == Behind(text, p)
  {
    if p.Scanned? { assert a + (b + p.value) == a + b + p.value; }
  }

  predicate EndsInBracket(letters: seq<Letter>) {
    letters != [] && letters[|letters| - 1].c == '['
  }

  lemma LettersSplit(s: string, i: nat, letters: seq<Letter>, rest: string)
    requires Legible(letters) && letters != [] && Follows(s, i, LettersText(letters), rest)
    ensures Legible(letters[1..]) && Follows(s, i + |letters[0].Text()|, LettersText(letters[1..]), rest)
    ensures |LettersText(letters)| == |letters[0].Text()| + |LettersText(letters[1..])|
    ensures EndsInBracket(letters[1..]) ==> EndsInBracket(letters)
    ensures |letters| == 1 && letters[0].c == '[' ==> EndsInBracket(letters)
  {
    TailLegible(letters);
    FollowsBehind(s, i, letters[0].Text(), LettersText(letters[1..]), rest);
  }

  lemma LetterInFront(s: string, i: nat, letters: seq<Letter>, rest: string)
    requires letters != [] && Legible(letters) && Follows(s, i, LettersText(letters), rest)
    requires |letters| == 1 && letters[0].c == '[' ==> EndsLiteral(At(rest, 0))
    ensures ReadsOn(s, i, [letters[0].c], i + |letters[0].Text()|)
  {
    LetterRead(s, i, letters, rest);
  }

  /** A literal is read up to the end of the pattern or a wildcard. */
  lemma LettersRead(s: string, i: nat, letters: seq<Letter>, rest: string)
    requires Legible(letters) && Follows(s, i, LettersText(letters), rest) && EndsLiteral(At(rest, 0))
    ensures LiteralAt(s, i) == Scanned(Chars(letters), i + |LettersText(letters)|)
  {
    FollowsAt(s, i, LettersText(letters), rest, |LettersText(letters)|);
    var text, end := LettersInFront(s, i, letters, rest);
    assert Chars(letters) + "" == Chars(letters);
  }

  function Bracketed(a: string, b: string): string {
    ['['] + (a + (".." + (b + [']'])))
  }

  /** A range in brackets behind a literal is an element that ends before the closing one. */
  lemma BracketedRead(s: string, k: nat, a: string, b: string, from: int, to: int, rest: string, dottedPath: bool,
                      caseSensitive: bool)
    requires IsBound(a, from) && IsBound(b, to) && Follows(s, k, Bracketed(a, b), rest)
    ensures var end := k + 3 + |a| + |b|;
      && k < end < |s| && s[end] == ']'
      && ElemAt(s, k, dottedPath, caseSensitive, true) == Scanned(NumRange(from, to), end)
  {
    RangeInside(s, k, '[', a, b, from, to, ']', rest);
  }

  /** A literal ends with that opening bracket. */
  lemma BracketEndsLiteral(s: string, k: nat)
    requires k < |s| && s[k] == '[' && RangeAt(s, k, ']').Range?
    ensures LiteralAt(s, k) == Scanned("[", k)
  {
    assert [s[k]] == "[";
  }

  lemma LetterRead(s: string, i: nat, letters: seq<Letter>, rest: string)
    requires letters != [] && Legible(letters) && Follows(s, i, LettersText(letters), rest)
    requires |letters| == 1 && letters[0].c == '[' ==> EndsLiteral(At(rest, 0))
    ensures var j := Unescaped(s, i);
      && i <= j < |s| && !EndsLiteral(s[i]) && j + 1 == i + |letters[0].Text()| && s[j] == letters[0].c
      && (s[j] == '[' ==> RangeAt(s, j, ']') == NoRange)
  {
    var l, tail := letters[0], letters[1..];
    TailLegible(letters);
    FollowsBehind(s, i, l.Text(), LettersText(tail), rest);
    FollowsAt(s, i, l.Text(), LettersText(tail) + rest, 0);
    if l.escaped { FollowsAt(s, i, l.Text(), LettersText(tail) + rest, 1); }
    var k := i + |l.Text()|;
    FollowsAt(s, k, LettersText(tail), rest, 0);
    if l.c == '[' {
      assert tail != [] ==> BracketApart(letters, 0) && tail[0] == letters[1];
      assert DigitsEnd(s, k) == k && At(s, k) != '.';
    }
  }

  // ---------- elements ----------

  /** What stands in a pattern text. */
  datatype Written =
    | Text(letters: seq<Letter>)
    | Question
    | OneOf(items: seq<Item>)
    | NoneOf(items: seq<Item>)
    | Numbers(from: int, to: int)
    | Star
    | DoubleStar

  function Rendered(w: Written): string {
    match w
    case Text(letters) => LettersText(letters)
    case Question => "?"
    case OneOf(items) => "{" + (ItemsText(items) + "}")
    case NoneOf(items) => "{^" + (ItemsText(items) + "}")
    case Numbers(from, to) => ['{'] + (Bound(from) + (".." + (Bound(to) + ['}'])))
    case Star => "*"
    case DoubleStar => "**"
  }

  /** The element it becomes. */
  function Meaning(w: Written, dottedPath: bool, caseSensitive: bool): Elem {
    match w
    case Text(letters) => Literal(Chars(letters))
    case Question => if dottedPath then CommonChar else AnyChar
    case OneOf(items) => Set(Pairs(items, caseSensitive))
    case NoneOf(items) => NegSet(Pairs(items, caseSensitive))
    case Numbers(from, to) => NumRange(from, to)
    case Star => if dottedPath then CommonSeq else AnySeq
    case DoubleStar => AnySeq
  }

  /** What it stands for, in terms of what is written: the piece v suits it if next is the character behind. */
  predicate Means(w: Written, v: string, next: char, dottedPath: bool, caseSensitive: bool) {
    match w
    case Text(letters) =>
      |v| == |letters| && forall k :: 0 <= k < |v| ==> SameChar(v[k], letters[k].c, caseSensitive)
    case Question => |v| == 1 && (dottedPath ==> v[0] != '.')
    case OneOf(items) => |v| == 1 && InItems(v[0], items, caseSensitive)
    case NoneOf(items) => |v| == 1 && !InItems(v[0], items, caseSensitive)
    case Numbers(from, to) => v != "" && Digits(v) && !IsDigit(next) && InRange(Value(v), from, to)
    case Star => dottedPath ==> '.' !in v
    case DoubleStar => true
  }

  predicate Writable(w: Written) {
    match w
    case Text(letters) => letters != [] && Legible(letters)
    case OneOf(items) =>
      items != [] && Spellable(items, true) && items[0].From() != '^' && !IsRangeText(ItemsText(items))
    case NoneOf(items) => items != [] && Spellable(items, true)
    case Numbers(from, to) => -1 <= from <= LONG_MAX && -1 <= to <= LONG_MAX
    case _ => true
  }

  /** What may stand next to each other: literals would be one, and so would a star and another one. */
  predicate Apart(w: Written, next: Written) {
    && !(w.Text? && next.Text?)
    && !(w.Star? && (next.Star? || next.DoubleStar?))
  }

  predicate WritableAll(ws: seq<Written>) {
    && (forall i :: 0 <= i < |ws| ==> Writable(ws[i]))
    && (forall i :: 0 <= i < |ws| - 1 ==> ApartAt(ws, i))
  }

  predicate ApartAt(ws: seq<Written>, i: nat)
    requires i + 1 < |ws|
  {
    Apart(ws[i], ws[i + 1])
  }

  function RenderedAll(ws: seq<Written>): string {
    if ws == [] then "" else Rendered(ws[0]) + RenderedAll(ws[1..])
  }

  function Meanings(ws: seq<Written>, dottedPath: bool, caseSensitive: bool): seq<Elem> {
    if ws == [] then [] else [Meaning(ws[0], dottedPath, caseSensitive)] + Meanings(ws[1..], dottedPath, caseSensitive)
  }

  lemma {:induction false} CharAt(letters: seq<Letter>, k: nat)
    requires k < |letters|
    ensures |Chars(letters)| == |letters| && Chars(letters)[k] == letters[k].c
  {
    if k > 0 {
      CharAt(letters[1..], k - 1);
    } else if |letters| > 1 {
      CharAt(letters[1..], 0);
    }
  }

  /** The element means what is written. */
  lemma MeaningMeans(w: Written, v: string, next: char, dottedPath: bool, caseSensitive: bool)
    ensures Suits(Meaning(w, dottedPath, caseSensitive), v, next, caseSensitive, caseSensitive) <==>
      Means(w, v, next, dottedPath, caseSensitive)
  {
    match w
    case Text(letters) =>
      if letters != [] { CharAt(letters, 0); }
      forall k | 0 <= k < |letters| ensures Chars(letters)[k] == letters[k].c { CharAt(letters, k); }
    case OneOf(items) => if |v| == 1 { PairsSpanItems(v[0], items, caseSensitive); }
    case NoneOf(items) => if |v| == 1 { PairsSpanItems(v[0], items, caseSensitive); }
    case _ =>
  }

  lemma StartsWith(w: Written)
    requires Writable(w)
    ensures Rendered(w) != "" && NUL !in Rendered(w)
    ensures !w.Text? ==> Rendered(w)[0] == if w.Question? then '?' else if w.Star? || w.DoubleStar? then '*' else '{'
  {
    match w
    case Text(letters) => LettersAreText(letters);
    case OneOf(items) => ItemsAreText(items, true);
    case NoneOf(items) => ItemsAreText(items, true);
    case Numbers(from, to) =>
      BoundIsText(from);
      BoundIsText(to);
    case _ =>
  }

  lemma {:induction false} LettersAreText(letters: seq<Letter>)
    requires Legible(letters)
    ensures NUL !in LettersText(letters) && (letters != [] ==> LettersText(letters) != "")
  {
    if letters != [] {
      TailLegible(letters);
      LettersAreText(letters[1..]);
    }
  }

  lemma {:induction false} ItemsAreText(items: seq<Item>, first: bool)
    requires Spellable(items, first)
    ensures NUL !in ItemsText(items)
  {
    if items != [] {
      assert SpellableItem(items[0], first && 0 == 0);
      TailSpellable(items, first);
      ItemsAreText(items[1..], false);
    }
  }

  lemma BoundIsText(n: int)
    ensures NUL !in Bound(n)
  {
    if n >= 0 { DecimalStands(n); }
  }

  lemma SetRead(s: string, i: nat, w: Written, rest: string, dottedPath: bool, caseSensitive: bool, afterLiteral: bool)
    requires Writable(w) && (w.OneOf? || w.NoneOf?) && i < |s| && Follows(s, i, Rendered(w), rest)
    ensures ElemAt(s, i, dottedPath, caseSensitive, afterLiteral)
         == Scanned(Meaning(w, dottedPath, caseSensitive), i + |Rendered(w)|)
  {
    var open := if w.OneOf? then "{" else "{^";
    SetOpens(s, i, open, w.items, rest);
    ItemsRead(s, i + |open|, i + |open|, w.items, rest, caseSensitive);
    ItemsAreNoRange(s, i, open, w.items, rest);
  }

  lemma SetOpens(s: string, i: nat, open: string, items: seq<Item>, rest: string)
    requires items != [] && (open == "{^" || (open == "{" && items[0].From() != '^'))
    requires Follows(s, i, open + (ItemsText(items) + "}"), rest)
    ensures At(s, i) == '{' && (At(s, i + 1) == '^' <==> open == "{^")
    ensures Follows(s, i + |open|, ItemsText(items) + "}", rest)
  {
    var body := ItemsText(items) + "}";
    FollowsBehind(s, i, open, body, rest);
    FollowsAt(s, i, open, body + rest, 0);
    FollowsAt(s, i, open, body + rest, 1);
    FollowsAt(s, i + |open|, body, rest, 0);
  }

  lemma NumbersRead(s: string, i: nat, w: Written, rest: string, dottedPath: bool, caseSensitive: bool,
                    afterLiteral: bool)
    requires Writable(w) && w.Numbers? && i < |s| && Follows(s, i, Rendered(w), rest)
    ensures ElemAt(s, i, dottedPath, caseSensitive, afterLiteral)
         == Scanned(Meaning(w, dottedPath, caseSensitive), i + |Rendered(w)|)
  {
    NumbersInside(s, i, w.from, w.to, rest);
    BracedElem(s, i, w.from, w.to, i + |Rendered(w)| - 1, dottedPath, caseSensitive, afterLiteral);
  }

  lemma NumbersInside(s: string, i: nat, from: int, to: int, rest: string)
    requires Writable(Numbers(from, to)) && Follows(s, i, Rendered(Numbers(from, to)), rest)
    ensures var end := i + |Rendered(Numbers(from, to))| - 1;
      i < end < |s| && s[i] == '{' && RangeAt(s, i, '}') == Range(from, to, end)
  {
    BoundStands(from);
    BoundStands(to);
    RangeInside(s, i, '{', Bound(from), Bound(to), from, to, '}', rest);
  }

  lemma BracedElem(s: string, i: nat, from: int, to: int, end: nat, dottedPath: bool, caseSensitive: bool,
                   afterLiteral: bool)
    requires i < |s| && s[i] == '{' && RangeAt(s, i, '}') == Range(from, to, end)
    ensures ElemAt(s, i, dottedPath, caseSensitive, afterLiteral) == Scanned(NumRange(from, to), end + 1)
  {
  }

  lemma TextRead(s: string, i: nat, w: Written, rest: string, dottedPath: bool, caseSensitive: bool, afterLiteral: bool)
    requires Writable(w) && w.Text? && Follows(s, i, Rendered(w), rest) && EndsLiteral(At(rest, 0))
    ensures i < |s| && ElemAt(s, i, dottedPath, caseSensitive, afterLiteral)
         == Scanned(Meaning(w, dottedPath, caseSensitive), i + |Rendered(w)|)
  {
    LettersRead(s, i, w.letters, rest);
    LetterRead(s, i, w.letters, rest);
  }

  /** What is written is read back if it does not run into what follows. */
  lemma WrittenRead(s: string, i: nat, w: Written, rest: string, dottedPath: bool, caseSensitive: bool,
                    afterLiteral: bool)
    requires Writable(w) && Follows(s, i, Rendered(w), rest)
    requires w.Text? ==> EndsLiteral(At(rest, 0))
    requires w.Star? ==> At(rest, 0) != '*'
    ensures i < |s| && ElemAt(s, i, dottedPath, caseSensitive, afterLiteral)
         == Scanned(Meaning(w, dottedPath, caseSensitive), i + |Rendered(w)|)
  {
    StartsWith(w);
    FollowsAt(s, i, Rendered(w), rest, 0);
    if w.Text? {
      TextRead(s, i, w, rest, dottedPath, caseSensitive, afterLiteral);
    } else if w.OneOf? || w.NoneOf? {
      SetRead(s, i, w, rest, dottedPath, caseSensitive, afterLiteral);
    } else if w.Numbers? {
      NumbersRead(s, i, w, rest, dottedPath, caseSensitive, afterLiteral);
    } else {
      FollowsAt(s, i, Rendered(w), rest, 1);
    }
  }

  lemma TailWritable(ws: seq<Written>)
    requires WritableAll(ws) && ws != []
    ensures WritableAll(ws[1..])
  {
    var tail := ws[1..];
    forall i | 0 <= i < |tail| ensures Writable(tail[i]) { assert tail[i] == ws[i + 1]; }
    forall i | 0 <= i < |tail| - 1 ensures ApartAt(tail, i) { assert ApartAt(ws, i + 1); }
  }

  lemma {:induction false} RenderedIsText(ws: seq<Written>)
    requires WritableAll(ws)
    ensures NUL !in RenderedAll(ws)
  {
    if ws != [] {
      StartsWith(ws[0]);
      TailWritable(ws);
      RenderedIsText(ws[1..]);
    }
  }

  /** What is written next does not run into the first. */
  lemma NextStarts(ws: seq<Written>)
    requires WritableAll(ws) && ws != []
    ensures var next := At(RenderedAll(ws[1..]), 0);
      (ws[0].Text? ==> EndsLiteral(next)) && (ws[0].Star? ==> next != '*')
  {
    if |ws| > 1 {
      assert ApartAt(ws, 0);
      StartsWith(ws[1]);
      assert ws[1..][0] == ws[1];
      if ws[1].Text? { FirstLetter(ws[1].letters); }
    }
  }

  lemma FirstLetter(letters: seq<Letter>)
    requires Legible(letters) && letters != []
    ensures !EndsLiteral(LettersText(letters)[0])
  {
    TailLegible(letters);
  }

  lemma {:induction false} TokensReadFrom(s: string, i: nat, ws: seq<Written>, dottedPath: bool, caseSensitive: bool,
                                          afterLiteral: bool)
    requires WritableAll(ws) && NUL !in s && i <= |s| && s[i..] == RenderedAll(ws)
    ensures Tokenize(s, i, dottedPath, caseSensitive, afterLiteral) == Tokens(Meanings(ws, dottedPath, caseSensitive))
    decreases |ws|
  {
    if ws != [] {
      TailWritable(ws);
      var next := FirstRead(s, i, ws, dottedPath, caseSensitive, afterLiteral);
      TokensReadFrom(s, next, ws[1..], dottedPath, caseSensitive, ws[0].Text?);
      TokenizeStep(s, i, Meaning(ws[0], dottedPath, caseSensitive), next,
                   Meanings(ws[1..], dottedPath, caseSensitive), dottedPath, caseSensitive, afterLiteral);
    }
  }

  lemma FirstRead(s: string, i: nat, ws: seq<Written>, dottedPath: bool, caseSensitive: bool, afterLiteral: bool)
    returns (next: nat)
    requires WritableAll(ws) && ws != [] && i <= |s| && s[i..] == RenderedAll(ws)
    ensures i < |s| && next <= |s| && s[next..] == RenderedAll(ws[1..])
    ensures ElemAt(s, i, dottedPath, caseSensitive, afterLiteral)
         == Scanned(Meaning(ws[0], dottedPath, caseSensitive), next)
  {
    var text, rest := Rendered(ws[0]), RenderedAll(ws[1..]);
    assert RenderedAll(ws) == text + rest;
    Behead(s, i, text, rest);
    NextStarts(ws);
    next := i + |text|;
    WrittenRead(s, i, ws[0], rest, dottedPath, caseSensitive, afterLiteral);
  }

  lemma TokenizeStep(s: string, i: nat, e: Elem, next: nat, tail: seq<Elem>, dottedPath: bool, caseSensitive: bool,
                     afterLiteral: bool)
    requires NUL !in s && i < |s| && ElemAt(s, i, dottedPath, caseSensitive, afterLiteral) == Scanned(e, next)
    requires Tokenize(s, next, dottedPath, caseSensitive, e.Literal?) == Tokens(tail)
    ensures Tokenize(s, i, dottedPath, caseSensitive, afterLiteral) == Tokens([e] + tail)
  {
  }

  /** A text is tokenized to the elements for what is written in it. */
  lemma RenderedTokenizes(ws: seq<Written>, dottedPath: bool, caseSensitive: bool)
    requires WritableAll(ws)
    ensures NUL !in RenderedAll(ws)
    ensures PatternOf(RenderedAll(ws), dottedPath, true, caseSensitive)
         == Tokens(Meanings(ws, dottedPath, caseSensitive) + [End])
  {
    RenderedIsText(ws);
    assert RenderedAll(ws)[0..] == RenderedAll(ws);
    TokensReadFrom(RenderedAll(ws), 0, ws, dottedPath, caseSensitive, false);
  }

  /** The line is cut into one piece for each part that is written, which means the piece. */
  ghost predicate CutAs(ws: seq<Written>, line: string, cuts: seq<nat>, dottedPath: bool, caseSensitive: bool) {
    && |cuts| == |ws| + 1 && cuts[0] == 0 && cuts[|ws|] == |line|
    && (forall i {:trigger PieceAs(ws, line, cuts, i, dottedPath, caseSensitive)} :: 0 <= i < |ws| ==>
          PieceAs(ws, line, cuts, i, dottedPath, caseSensitive))
  }

  predicate PieceAs(ws: seq<Written>, line: string, cuts: seq<nat>, i: nat, dottedPath: bool, caseSensitive: bool)
    requires |cuts| == |ws| + 1 && i < |ws|
  {
    && cuts[i] <= cuts[i + 1] <= |line|
    && Means(ws[i], line[cuts[i]..cuts[i + 1]], At(line, cuts[i + 1]), dottedPath, caseSensitive)
  }

  lemma {:induction false} MeaningAt(ws: seq<Written>, i: nat, dottedPath: bool, caseSensitive: bool)
    requires i < |ws|
    ensures |Meanings(ws, dottedPath, caseSensitive)| == |ws|
    ensures Meanings(ws, dottedPath, caseSensitive)[i] == Meaning(ws[i], dottedPath, caseSensitive)
  {
    if i > 0 {
      MeaningAt(ws[1..], i - 1, dottedPath, caseSensitive);
    } else if |ws| > 1 {
      MeaningAt(ws[1..], 0, dottedPath, caseSensitive);
    }
  }

  lemma PiecesAgree(ws: seq<Written>, line: string, cuts: seq<nat>, i: nat, dottedPath: bool, caseSensitive: bool)
    requires |cuts| == |ws| + 1 && i < |ws|
    ensures var es := Meanings(ws, dottedPath, caseSensitive);
      |es| == |ws| && (Piece(es, Uniform(|es|, caseSensitive), caseSensitive, line, cuts, i) <==>
                       PieceAs(ws, line, cuts, i, dottedPath, caseSensitive))
  {
    MeaningAt(ws, i, dottedPath, caseSensitive);
    if cuts[i] <= cuts[i + 1] <= |line| {
      MeaningMeans(ws[i], line[cuts[i]..cuts[i + 1]], At(line, cuts[i + 1]), dottedPath, caseSensitive);
    }
  }

  lemma MeaningsCount(ws: seq<Written>, dottedPath: bool, caseSensitive: bool)
    ensures |Meanings(ws, dottedPath, caseSensitive)| == |ws|
  {
    if ws != [] { MeaningAt(ws, 0, dottedPath, caseSensitive); }
  }

  lemma CutsAgree(ws: seq<Written>, line: string, cuts: seq<nat>, dottedPath: bool, caseSensitive: bool)
    ensures var es := Meanings(ws, dottedPath, caseSensitive);
      |es| == |ws| && (Cut(es, Uniform(|es|, caseSensitive), caseSensitive, line, 0, cuts) <==>
                       CutAs(ws, line, cuts, dottedPath, caseSensitive))
  {
    MeaningsCount(ws, dottedPath, caseSensitive);
    if |cuts| == |ws| + 1 {
      forall i | 0 <= i < |ws|
        ensures var es := Meanings(ws, dottedPath, caseSensitive);
          Piece(es, Uniform(|es|, caseSensitive), caseSensitive, line, cuts, i) <==>
          PieceAs(ws, line, cuts, i, dottedPath, caseSensitive)
      {
        PiecesAgree(ws, line, cuts, i, dottedPath, caseSensitive);
      }
    }
  }

  /** Some part of the line is cut so. */
  ghost predicate PartCutAs(ws: seq<Written>, line: string, cuts: seq<nat>, dottedPath: bool, caseSensitive: bool) {
    && |cuts| == |ws| + 1 && cuts[|ws|] <= |line|
    && (forall i {:trigger PieceAs(ws, line, cuts, i, dottedPath, caseSensitive)} :: 0 <= i < |ws| ==>
          PieceAs(ws, line, cuts, i, dottedPath, caseSensitive))
  }

  lemma PartsAgree(ws: seq<Written>, line: string, cuts: seq<nat>, dottedPath: bool, caseSensitive: bool)
    requires |cuts| == |ws| + 1
    ensures Lies(Meanings(ws, dottedPath, caseSensitive), caseSensitive, line, cuts[0], cuts[|ws|], cuts) <==>
      PartCutAs(ws, line, cuts, dottedPath, caseSensitive)
  {
    MeaningsCount(ws, dottedPath, caseSensitive);
    forall i | 0 <= i < |ws|
      ensures var es := Meanings(ws, dottedPath, caseSensitive);
        Piece(es, Uniform(|es|, caseSensitive), caseSensitive, line, cuts, i) <==>
        PieceAs(ws, line, cuts, i, dottedPath, caseSensitive)
    {
      PiecesAgree(ws, line, cuts, i, dottedPath, caseSensitive);
    }
  }

  /** In substring mode a text matches the lines with a part that it means. */
  lemma WrittenMatchesPart(ws: seq<Written>, dottedPath: bool, caseSensitive: bool, line: string)
    requires WritableAll(ws)
    ensures NUL !in RenderedAll(ws)
    ensures var r := PatternOf(RenderedAll(ws), dottedPath, false, caseSensitive);
      && r.Tokens? && Proper(r.elems)
      && (Matching(r.elems, caseSensitive, line, 0, 0) <==>
            exists cuts :: PartCutAs(ws, line, cuts, dottedPath, caseSensitive))
  {
    RenderedTokenizes(ws, dottedPath, caseSensitive);
    PatternIsProper(RenderedAll(ws), dottedPath, false, caseSensitive);
    var es := Meanings(ws, dottedPath, caseSensitive);
    var s := RenderedAll(ws);
    assert (es + [End])[..|es|] == es;
    assert Tokenize(s, 0, dottedPath, caseSensitive, false).elems + [End] == es + [End];
    assert Tokenize(s, 0, dottedPath, caseSensitive, false).elems == es;
    PaddedMatches(es, caseSensitive, line);
    MeaningsCount(ws, dottedPath, caseSensitive);
    if i: nat, j: nat :| Between(es, caseSensitive, line, i, j) {
      var cuts :| Lies(es, caseSensitive, line, i, j, cuts);
      PartsAgree(ws, line, cuts, dottedPath, caseSensitive);
    }
    if cuts :| PartCutAs(ws, line, cuts, dottedPath, caseSensitive) {
      PartsAgree(ws, line, cuts, dottedPath, caseSensitive);
      assert Between(es, caseSensitive, line, cuts[0], cuts[|ws|]);
    }
  }

  lemma PaddedMatches(es: seq<Elem>, caseSensitive: bool, line: string)
    requires Proper(Pad(es) + [End])
    ensures Matching(Pad(es) + [End], caseSensitive, line, 0, 0) <==>
      exists i: nat, j: nat :: Between(es, caseSensitive, line, i, j)
  {
    SubstringIsDocumented(es, caseSensitive, line);
    PaddedMeansPart(es, caseSensitive, line);
    var back := PadBack(es);
    PaddedFront(back, caseSensitive, line);
    if i: nat :| Plain(back, caseSensitive, line, i) { PaddedBack(es, caseSensitive, line, i); }
    if i: nat, j: nat :| Between(es, caseSensitive, line, i, j) { PaddedBack(es, caseSensitive, line, i); }
  }

  /** What a pattern text documents, in both modes of case; in case-sensitive mode it is what the text matches. */
  lemma WrittenIsDocumented(ws: seq<Written>, dottedPath: bool, caseSensitive: bool, line: string)
    requires WritableAll(ws)
    ensures NUL !in RenderedAll(ws)
    ensures var r := PatternOf(RenderedAll(ws), dottedPath, true, caseSensitive);
      && r.Tokens? && Proper(r.elems)
      && (Documented(r.elems, caseSensitive, line) <==>
            exists cuts :: CutAs(ws, line, cuts, dottedPath, caseSensitive))
      && (caseSensitive ==> (Matching(r.elems, true, line, 0, 0) <==>
            exists cuts :: CutAs(ws, line, cuts, dottedPath, true)))
  {
    RenderedTokenizes(ws, dottedPath, caseSensitive);
    PatternIsProper(RenderedAll(ws), dottedPath, true, caseSensitive);
    var es := Meanings(ws, dottedPath, caseSensitive);
    assert Elems(es + [End]) == es;
    forall cuts ensures Cut(es, Uniform(|es|, caseSensitive), caseSensitive, line, 0, cuts) <==>
      CutAs(ws, line, cuts, dottedPath, caseSensitive)
    {
      CutsAgree(ws, line, cuts, dottedPath, caseSensitive);
    }
    if caseSensitive { CaseSensitiveIsDocumented(es + [End], line); }
  }

  // ---------- every element can be written ----------

  function EscapedLetters(w: string): seq<Letter> {
    if w == "" then [] else [Letter(w[0], true)] + EscapedLetters(w[1..])
  }

  lemma {:induction false} EscapedStands(w: string)
    requires NUL !in w
    ensures |EscapedLetters(w)| == |w| && Legible(EscapedLetters(w)) && Chars(EscapedLetters(w)) == w
    ensures (forall k :: 0 <= k < |w| ==> EscapedLetters(w)[k].escaped) && LettersText(EscapedLetters(w)) == Escaped(w)
  {
    if w != "" {
      var l, tail := Letter(w[0], true), EscapedLetters(w[1..]);
      assert w[0] in w && ([l] + tail)[1..] == tail;
      EscapedStands(w[1..]);
    }
  }

  function SpansOf(pairs: string): seq<Item> {
    if |pairs| < 2 then [] else [Span(pairs[0], pairs[1])] + SpansOf(pairs[2..])
  }

  /** A closing brace can only be the first character of a set. */
  predicate SpelledSet(pairs: string, caseSensitive: bool) {
    && |pairs| % 2 == 0 && NUL !in pairs
    && (forall i :: 0 < i < |pairs| ==> pairs[i] != '}')
    && (forall i :: 0 <= i < |pairs| ==> Stored(pairs[i], caseSensitive) == pairs[i])
  }

  lemma {:induction false} SpansStand(pairs: string, first: bool, caseSensitive: bool)
    requires SpelledSet(pairs, caseSensitive) && (pairs != "" && pairs[0] == '}' ==> first)
    ensures var items := SpansOf(pairs);
      && Spellable(items, first) && Pairs(items, caseSensitive) == pairs && (items == [] <==> pairs == "")
      && forall k :: 0 <= k < |items| ==> items[k].Span?
    decreases |pairs|
  {
    if pairs != "" {
      var span, more := Span(pairs[0], pairs[1]), pairs[2..];
      assert pairs[0] in pairs && pairs[1] in pairs;
      assert forall k :: 0 <= k < |more| ==> more[k] == pairs[k + 2];
      SpansStand(more, false, caseSensitive);
      var tail := SpansOf(more);
      var items := [span] + tail;
      assert items[1..] == tail && SpellableItem(span, first);
      forall k | 0 <= k < |items| ensures SpellableItem(items[k], first && k == 0) {
        if k > 0 { assert SpellableItem(tail[k - 1], false); }
      }
      forall k | 0 <= k < |items| - 1 ensures HyphenApart(items, k) { assert items[k].Span?; }
      assert [pairs[0], pairs[1]] + more == pairs;
    }
  }

  /** Which elements a pattern can have: those of the mode, and sets the syntax has a place for. */
  ghost predicate CanBeWritten(e: Elem, dottedPath: bool, caseSensitive: bool) {
    && ProperElem(e)
    && match e
       case Literal(text) => text != ""
       case AnyChar => !dottedPath
       case CommonChar => dottedPath
       case Set(pairs) => SpelledSet(pairs, caseSensitive) && pairs != "" && pairs[0] != '^'
       case NegSet(pairs) => SpelledSet(pairs, caseSensitive) && pairs != ""
       case CommonSeq => dottedPath
       case End => false
       case _ => true
  }

  function WrittenAs(e: Elem): Written {
    match e
    case Literal(text) => Text(EscapedLetters(text))
    case AnyChar => Question
    case CommonChar => Question
    case Set(pairs) => OneOf(SpansOf(pairs))
    case NegSet(pairs) => NoneOf(SpansOf(pairs))
    case NumRange(from, to) => Numbers(from, to)
    case AnySeq => DoubleStar
    case CommonSeq => Star
    case End => Text([])
  }

  lemma SpansAreNoRange(items: seq<Item>)
    requires items != [] && items[0].Span?
    ensures !IsRangeText(ItemsText(items))
  {
    var w := ItemsText(items);
    assert w[1] == '-';
    if IsRangeText(w) { RangeTextChar(w, 1); }
  }

  lemma ElementStands(e: Elem, dottedPath: bool, caseSensitive: bool)
    requires CanBeWritten(e, dottedPath, caseSensitive)
    ensures Writable(WrittenAs(e)) && Meaning(WrittenAs(e), dottedPath, caseSensitive) == e
  {
    match e
    case Literal(text) => EscapedStands(text);
    case Set(pairs) =>
      SpansStand(pairs, true, caseSensitive);
      SpansAreNoRange(SpansOf(pairs));
    case NegSet(pairs) => SpansStand(pairs, true, caseSensitive);
    case _ =>
  }

  ghost predicate CanBeWrittenAll(es: seq<Elem>, dottedPath: bool, caseSensitive: bool) {
    && (forall i {:trigger es[i]} :: 0 <= i < |es| ==> CanBeWritten(es[i], dottedPath, caseSensitive))
    && (forall i :: 0 <= i < |es| - 1 ==> ElementsApart(es, i))
  }

  predicate ElementsApart(es: seq<Elem>, i: nat)
    requires i + 1 < |es|
  {
    Apart(WrittenAs(es[i]), WrittenAs(es[i + 1]))
  }

  lemma TailCanBeWritten(es: seq<Elem>, dottedPath: bool, caseSensitive: bool)
    requires CanBeWrittenAll(es, dottedPath, caseSensitive) && es != []
    ensures CanBeWrittenAll(es[1..], dottedPath, caseSensitive)
  {
    var tail := es[1..];
    forall i | 0 <= i < |tail| ensures CanBeWritten(tail[i], dottedPath, caseSensitive) { assert tail[i] == es[i + 1]; }
    forall i | 0 <= i < |tail| - 1 ensures ElementsApart(tail, i) { assert ElementsApart(es, i + 1); }
  }

  function WrittenAll(es: seq<Elem>): seq<Written> {
    if es == [] then [] else [WrittenAs(es[0])] + WrittenAll(es[1..])
  }

  lemma {:induction false} ElementsStand(es: seq<Elem>, dottedPath: bool, caseSensitive: bool)
    requires CanBeWrittenAll(es, dottedPath, caseSensitive)
    ensures WritableAll(WrittenAll(es)) && Meanings(WrittenAll(es), dottedPath, caseSensitive) == es
  {
    if es != [] {
      TailCanBeWritten(es, dottedPath, caseSensitive);
      ElementsStand(es[1..], dottedPath, caseSensitive);
      ElementStands(es[0], dottedPath, caseSensitive);
      var ws := WrittenAll(es);
      assert ws[1..] == WrittenAll(es[1..]);
      if |es| > 1 { assert es[1..][0] == es[1] && ElementsApart(es, 0); }
      WritableFront(ws);
    }
  }

  /** A list of such elements, literals apart and stars apart, is what its text is tokenized to. */
  lemma ElementsCanBeWritten(es: seq<Elem>, dottedPath: bool, caseSensitive: bool)
    requires CanBeWrittenAll(es, dottedPath, caseSensitive)
    ensures NUL !in RenderedAll(WrittenAll(es))
    ensures PatternOf(RenderedAll(WrittenAll(es)), dottedPath, true, caseSensitive) == Tokens(es + [End])
  {
    ElementsStand(es, dottedPath, caseSensitive);
    RenderedTokenizes(WrittenAll(es), dottedPath, caseSensitive);
  }

  lemma WritableFront(ws: seq<Written>)
    requires ws != [] && Writable(ws[0]) && WritableAll(ws[1..]) && (|ws| > 1 ==> Apart(ws[0], ws[1]))
    ensures WritableAll(ws)
  {
    var tail := ws[1..];
    forall i | 0 <= i < |ws| ensures Writable(ws[i]) { if i > 0 { assert Writable(tail[i - 1]); } }
    forall i | 0 <= i < |ws| - 1 ensures ApartAt(ws, i) {
      if i > 0 { assert ApartAt(tail, i - 1); }
    }
  }

  /** A text with every character escaped matches that text only. */
  lemma EscapedMatchesItself(w: string, dottedPath: bool, line: string)
    requires NUL !in w
    ensures NUL !in Escaped(w)
    ensures var r := PatternOf(Escaped(w), dottedPath, true, true);
      r.Tokens? && (Matching(r.elems, true, line, 0, 0) <==> line == w)
  {
    EscapedIsText(w);
    if w == "" {
      assert [] + [End] == [End];
      AtEnd([End], true, line, 0, 0);
    } else {
      EscapedStands(w);
      var ws := [Text(EscapedLetters(w))];
      RenderedTokenizes(ws, dottedPath, true);
      assert RenderedAll(ws) == Escaped(w) + RenderedAll(ws[1..]) == Escaped(w);
      assert Meanings(ws, dottedPath, true) == [Literal(w)];
      assert [Literal(w)] + [End] == [Literal(w), End];
      LiteralIsEquality(w, line);
    }
  }
}
