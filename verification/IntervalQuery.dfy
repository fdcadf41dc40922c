/** What a query visits, over the abstract tree, and when that is what a linear scan would find. */
module IntervalQuery {
  import MachineWords
  import opened IntervalLists
  import opened IntervalNodes
  import opened IntervalInsertion

  datatype Tree = Leaf | Branch(red: bool, l: Tree, n: Node, r: Tree)

  ghost function Listing(t: Tree): seq<Node> {
    if t.Leaf? then [] else Listing(t.l) + [t.n] + Listing(t.r)
  }

  ghost function Preorder(t: Tree): seq<Node> {
    if t.Leaf? then [] else [t.n] + Preorder(t.l) + Preorder(t.r)
  }

  ghost function Highest(t: Tree): SimTime {
    if t.Leaf? then -MAX_TIME else Max(t.n.high, Max(Highest(t.l), Highest(t.r)))
  }

  ghost function Height(t: Tree): nat {
    if t.Leaf? then 0 else 1 + if Height(t.l) < Height(t.r) then Height(t.r) else Height(t.l)
  }

  ghost function Size(t: Tree): nat {
    if t.Leaf? then 0 else 1 + Size(t.l) + Size(t.r)
  }

  /** Black nodes on the leftmost path; on every path when the tree is even. */
  ghost function Blacks(t: Tree): nat {
    if t.Leaf? then 0 else Blacks(t.l) + if t.red then 0 else 1
  }

  ghost predicate Even(t: Tree) {
    t.Branch? ==> Blacks(t.l) == Blacks(t.r) && Even(t.l) && Even(t.r)
  }

  ghost predicate NoRedRed(t: Tree) {
    t.Branch? ==>
      && (t.red ==> (t.l.Branch? ==> !t.l.red) && (t.r.Branch? ==> !t.r.red))
      && NoRedRed(t.l) && NoRedRed(t.r)
  }

  // ---------- height ----------

  lemma {:induction false} BlackHeightBounds(t: Tree)
    requires Even(t) && NoRedRed(t)
    ensures MachineWords.Pow2(Blacks(t)) <= Size(t) + 1
    ensures Height(t) <= 2 * Blacks(t) + if t.Branch? && t.red then 1 else 0
  {
    if t.Branch? {
      BlackHeightBounds(t.l);
      BlackHeightBounds(t.r);
    }
  }

  /** A red-black tree with a black top has height at most twice the logarithm of its size plus one. */
  lemma HeightBound(t: Tree)
    requires Even(t) && NoRedRed(t) && (t.Branch? ==> !t.red)
    ensures MachineWords.Pow2((Height(t) + 1) / 2) <= Size(t) + 1
  {
    BlackHeightBounds(t);
    PowerBelow((Height(t) + 1) / 2, Blacks(t), Size(t) + 1);
  }

  lemma PowerBelow(h: nat, blacks: nat, size: nat)
    requires h <= blacks && MachineWords.Pow2(blacks) <= size
    ensures MachineWords.Pow2(h) <= size
  {
    if h < blacks { MachineWords.Pow2Grows(h, blacks); }
  }

  lemma {:induction false} SizeOfListing(t: Tree)
    ensures Size(t) == |Listing(t)|
  {
    if t.Branch? {
      SizeOfListing(t.l);
      SizeOfListing(t.r);
    }
  }

  // ---------- overlap ----------

  predicate Overlap(a1: SimTime, a2: SimTime, b1: SimTime, b2: SimTime) {
    if a1 <= b1 then b1 <= a2 else a1 <= b2
  }

  predicate Within(t: SimTime, low: SimTime, high: SimTime) {
    low <= t <= high
  }

  /** For proper intervals, overlap is having a point in common. */
  lemma OverlapIsCommonPoint(a1: SimTime, a2: SimTime, b1: SimTime, b2: SimTime)
    requires a1 <= a2 && b1 <= b2
    ensures Overlap(a1, a2, b1, b2) <==> exists t: SimTime :: Within(t, a1, a2) && Within(t, b1, b2)
  {
    if Overlap(a1, a2, b1, b2) {
      assert Within(Max(a1, b1), a1, a2) && Within(Max(a1, b1), b1, b2);
    }
  }

  ghost predicate Hit(n: Node, low: SimTime, high: SimTime) {
    Overlap(low, high, n.key, n.high)
  }

  /** The linear scan. */
  ghost function Hits(s: seq<Node>, low: SimTime, high: SimTime): seq<Node> {
    if s == [] then [] else (if Hit(s[0], low, high) then [s[0]] else []) + Hits(s[1..], low, high)
  }

  lemma {:induction false} HitsConcat(a: seq<Node>, b: seq<Node>, low: SimTime, high: SimTime)
    ensures Hits(a + b, low, high) == Hits(a, low, high) + Hits(b, low, high)
  {
    if a == [] {
      assert a + b == b;
    } else {
      var head := if Hit(a[0], low, high) then [a[0]] else [];
      HitsConcat(a[1..], b, low, high);
      assert (a + b)[1..] == a[1..] + b && (a + b)[0] == a[0];
      assert head + (Hits(a[1..], low, high) + Hits(b, low, high))
          == head + Hits(a[1..], low, high) + Hits(b, low, high);
    }
  }

  lemma {:induction false} NoHits(s: seq<Node>, low: SimTime, high: SimTime)
    ensures Hits(s, low, high) == [] <==> forall n :: n in s ==> !Hit(n, low, high)
  {
    if s != [] { NoHits(s[1..], low, high); }
  }

  lemma HitsOfTree(t: Tree, low: SimTime, high: SimTime)
    requires t.Branch?
    ensures Hits(Preorder(t), low, high)
         == (if Hit(t.n, low, high) then [t.n] else [])
            + Hits(Preorder(t.l), low, high) + Hits(Preorder(t.r), low, high)
  {
    HitsConcat([t.n] + Preorder(t.l), Preorder(t.r), low, high);
    HitsConcat([t.n], Preorder(t.l), low, high);
    assert [t.n][1..] == [];
  }

  ghost function Stored(s: seq<Node>): (r: seq<Interval?>)
    ensures |r| == |s|
  {
    seq(|s|, i requires 0 <= i < |s| => s[i].storedInterval)
  }

  lemma {:induction false} HitsAreThose(s: seq<Node>, low: SimTime, high: SimTime, n: Node)
    ensures n in Hits(s, low, high) <==> n in s && Hit(n, low, high)
  {
    if s != [] {
      HitsAreThose(s[1..], low, high, n);
      assert n in s <==> n == s[0] || n in s[1..];
    }
  }

  lemma StoredAreThose(s: seq<Node>, ivl: Interval)
    ensures ivl in Stored(s) <==> exists n :: n in s && n.storedInterval == ivl
  {
    if ivl in Stored(s) {
      var i :| 0 <= i < |s| && Stored(s)[i] == ivl;
      assert s[i] in s && s[i].storedInterval == ivl;
    }
    if n :| n in s && n.storedInterval == ivl {
      var i :| 0 <= i < |s| && s[i] == n;
      assert Stored(s)[i] == ivl;
    }
  }

  lemma StoredOneMore(s: seq<Node>, n: Node)
    ensures Stored(s + [n]) == Stored(s) + [n.storedInterval]
  {
  }

  // ---------- the traversal ----------

  /** The right side is visited if the left one was skipped or had a hit. */
  ghost function Visit(t: Tree, low: SimTime, high: SimTime): seq<Node> {
    if t.Leaf? then []
    else
      (if Hit(t.n, low, high) then [t.n] else []) +
      if Highest(t.l) >= low then
        var hits := Visit(t.l, low, high);
        hits + if hits != [] then Visit(t.r, low, high) else []
      else
        Visit(t.r, low, high)
  }

  /** Nothing is lost where the left side is skipped, and nothing where it is a leaf that is entered. */
  ghost predicate NothingLost(t: Tree, low: SimTime, high: SimTime) {
    t.Branch? ==>
      && (if Highest(t.l) < low then Hits(Preorder(t.l), low, high) == []
          else t.l.Leaf? ==> Hits(Preorder(t.r), low, high) == [])
      && NothingLost(t.l, low, high) && NothingLost(t.r, low, high)
  }

  lemma {:induction false} SameNodes(t: Tree)
    ensures multiset(Preorder(t)) == multiset(Listing(t))
    ensures forall n :: n in Preorder(t) ==> n in Listing(t)
    ensures forall n :: n in Listing(t) ==> n in Preorder(t)
  {
    if t.Branch? {
      SameNodes(t.l);
      SameNodes(t.r);
    }
  }

  lemma {:induction false} HighestAttained(t: Tree) returns (m: Node)
    requires t.Branch?
    ensures m in Preorder(t) && m.high == Highest(t)
  {
    var h: SimTime := t.n.high;
    if t.l.Branch? && h < Highest(t.l) && Highest(t.r) <= Highest(t.l) {
      m := HighestAttained(t.l);
    } else if t.r.Branch? && h < Highest(t.r) {
      m := HighestAttained(t.r);
    } else {
      m := t.n;
      assert -MAX_TIME <= h;
    }
  }

  lemma SortedParts(t: Tree)
    requires t.Branch? && Sorted(Listing(t))
    ensures Sorted(Listing(t.l)) && Sorted(Listing(t.r))
    ensures forall m, n :: m in Preorder(t.l) && n in Preorder(t.r) ==> m.key <= n.key
  {
    var l, r, s := Listing(t.l), Listing(t.r), Listing(t);
    forall i, j | 0 <= i <= j < |l| ensures l[i].key <= l[j].key { assert s[i].key <= s[j].key; }
    forall i, j | 0 <= i <= j < |r| ensures r[i].key <= r[j].key { assert s[|l| + 1 + i].key <= s[|l| + 1 + j].key; }
    forall i, j | 0 <= i < |l| && 0 <= j < |r| ensures l[i].key <= r[j].key { assert s[i].key <= s[|l| + 1 + j].key; }
    SameNodes(t.l);
    SameNodes(t.r);
  }

  /** A left side that reaches low without a hit lies behind high, and so does everything to its right. */
  lemma NoHitOnTheRight(t: Tree, low: SimTime, high: SimTime)
    requires t.Branch? && Sorted(Listing(t))
    requires t.l.Branch? && Highest(t.l) >= low && Hits(Preorder(t.l), low, high) == []
    ensures Hits(Preorder(t.r), low, high) == []
  {
    var m := HighestAttained(t.l);
    SortedParts(t);
    NoHits(Preorder(t.l), low, high);
    NoHits(Preorder(t.r), low, high);
    assert !Hit(m, low, high);
  }

  ghost predicate Agrees(t: Tree, low: SimTime, high: SimTime) {
    if NothingLost(t, low, high) then Visit(t, low, high) == Hits(Preorder(t), low, high)
    else |Visit(t, low, high)| < |Hits(Preorder(t), low, high)|
  }

  lemma AgreesSkipping(t: Tree, low: SimTime, high: SimTime)
    requires t.Branch? && Highest(t.l) < low && Agrees(t.l, low, high) && Agrees(t.r, low, high)
    ensures Agrees(t, low, high)
  {
    HitsOfTree(t, low, high);
    CombinedSkipping(
      if Hit(t.n, low, high) then [t.n] else [], Hits(Preorder(t.l), low, high), NothingLost(t.l, low, high),
      Visit(t.r, low, high), Hits(Preorder(t.r), low, high), NothingLost(t.r, low, high));
  }

  lemma CombinedSkipping(head: seq<Node>, hl: seq<Node>, al: bool, vr: seq<Node>, hr: seq<Node>, ar: bool)
    requires hl == [] ==> al
    requires if ar then vr == hr else |vr| < |hr|
    ensures if hl == [] && al && ar then head + vr == head + hl + hr else |head + vr| < |head + hl + hr|
  {
  }

  lemma AgreesEntering(t: Tree, low: SimTime, high: SimTime)
    requires t.Branch? && Highest(t.l) >= low && Agrees(t.l, low, high) && Agrees(t.r, low, high)
    requires t.l.Branch? && Hits(Preorder(t.l), low, high) == [] ==> Hits(Preorder(t.r), low, high) == []
    ensures Agrees(t, low, high)
  {
    HitsOfTree(t, low, high);
    Combined(if Hit(t.n, low, high) then [t.n] else [], t.l.Leaf?,
      Visit(t.l, low, high), Hits(Preorder(t.l), low, high), NothingLost(t.l, low, high),
      Visit(t.r, low, high), Hits(Preorder(t.r), low, high), NothingLost(t.r, low, high));
  }

  lemma Combined(head: seq<Node>, leaf: bool, vl: seq<Node>, hl: seq<Node>, al: bool, vr: seq<Node>, hr: seq<Node>,
                 ar: bool)
    requires if al then vl == hl else |vl| < |hl|
    requires if ar then vr == hr else |vr| < |hr|
    requires leaf ==> al && hl == []
    requires !leaf && hl == [] ==> hr == []
    ensures var v := head + (vl + if vl != [] then vr else []);
      if al && ar && (leaf ==> hr == []) then v == head + hl + hr else |v| < |head + hl + hr|
  {
  }

  /** For every query, the traversal agrees with the linear scan if nothing is lost, and finds less otherwise. */
  lemma {:induction false} VisitAgrees(t: Tree, low: SimTime, high: SimTime)
    requires Sorted(Listing(t))
    ensures Agrees(t, low, high)
  {
    if t.Branch? {
      SortedParts(t);
      VisitAgrees(t.l, low, high);
      VisitAgrees(t.r, low, high);
      if Highest(t.l) < low {
        AgreesSkipping(t, low, high);
      } else {
        if t.l.Branch? && Hits(Preorder(t.l), low, high) == [] { NoHitOnTheRight(t, low, high); }
        AgreesEntering(t, low, high);
      }
    }
  }

  /** So the traversal is the linear scan exactly if nothing is lost. */
  lemma VisitIsScan(t: Tree, low: SimTime, high: SimTime)
    requires Sorted(Listing(t))
    ensures Visit(t, low, high) == Hits(Preorder(t), low, high) <==> NothingLost(t, low, high)
  {
    VisitAgrees(t, low, high);
  }

  /** With proper stored intervals and a low end above the sentinel's, nothing is ever lost. */
  lemma {:induction false} ProperLosesNothing(t: Tree, low: SimTime, high: SimTime)
    requires forall n :: n in Preorder(t) ==> n.key <= n.high
    requires low > -MAX_TIME
    ensures KeysReached(t) && NothingLost(t, low, high)
  {
    if t.Branch? {
      assert forall n :: n in Preorder(t.l) || n in Preorder(t.r) ==> n in Preorder(t);
      ProperLosesNothing(t.l, low, high);
      ProperLosesNothing(t.r, low, high);
      BelowHighest(t.l);
      ReachedLosesNothing(t, low, high);
    }
  }

  // ---------- which trees answer which queries ----------

  /** No left side stores an interval that starts behind everything stored there ends. */
  ghost predicate KeysReached(t: Tree) {
    t.Branch? ==> (forall n :: n in Preorder(t.l) ==> n.key <= Highest(t.l)) && KeysReached(t.l) && KeysReached(t.r)
  }

  lemma {:induction false} ReachedLosesNothing(t: Tree, low: SimTime, high: SimTime)
    requires KeysReached(t) && low > -MAX_TIME
    ensures NothingLost(t, low, high)
  {
    if t.Branch? {
      ReachedLosesNothing(t.l, low, high);
      ReachedLosesNothing(t.r, low, high);
      if Highest(t.l) < low {
        BelowHighest(t.l);
        NoHits(Preorder(t.l), low, high);
      }
    }
  }

  /** A key beyond its side's highest end is lost to the query of just that time. */
  lemma {:induction false} UnreachedIsLost(t: Tree) returns (time: SimTime)
    requires !KeysReached(t)
    ensures time > -MAX_TIME && !NothingLost(t, time, time)
  {
    if n :| n in Preorder(t.l) && n.key > Highest(t.l) {
      time := n.key;
      BelowHighest(t.l);
      NoHits(Preorder(t.l), time, time);
      assert Hit(n, time, time);
      HighestInRange(t.l);
    } else if !KeysReached(t.l) {
      time := UnreachedIsLost(t.l);
    } else {
      time := UnreachedIsLost(t.r);
    }
  }

  lemma HighestInRange(t: Tree)
    ensures Highest(t) >= -MAX_TIME
  {
  }

  /** A tree answers all queries above the smallest time exactly if no left side has a key beyond its highest end. */
  lemma AnswersAllIff(t: Tree)
    requires Sorted(Listing(t))
    ensures (forall low: SimTime, high: SimTime {:trigger Visit(t, low, high)} :: low > -MAX_TIME ==>
               Visit(t, low, high) == Hits(Preorder(t), low, high)) <==> KeysReached(t)
  {
    if KeysReached(t) {
      forall low: SimTime, high: SimTime {:trigger Visit(t, low, high)} | low > -MAX_TIME
        ensures Visit(t, low, high) == Hits(Preorder(t), low, high)
      {
        ReachedLosesNothing(t, low, high);
        VisitIsScan(t, low, high);
      }
    } else {
      var time := UnreachedIsLost(t);
      VisitIsScan(t, time, time);
    }
  }

  /** Nothing to the right of a node without a left side starts within the query. */
  ghost predicate RightsBehind(t: Tree, high: SimTime) {
    t.Branch? ==>
      && (t.l.Leaf? ==> forall m :: m in Preorder(t.r) ==> m.key > high)
      && RightsBehind(t.l, high) && RightsBehind(t.r, high)
  }

  /**
   From the smallest time on, a query is answered exactly if that is so: the nil sentinel is entered and has no hit.
   */
  lemma {:induction false} AnswersFromMinimumIff(t: Tree, high: SimTime)
    requires Sorted(Listing(t))
    ensures Visit(t, -MAX_TIME, high) == Hits(Preorder(t), -MAX_TIME, high) <==> RightsBehind(t, high)
  {
    VisitIsScan(t, -MAX_TIME, high);
    LosesNothingIff(t, high);
  }

  lemma {:induction false} LosesNothingIff(t: Tree, high: SimTime)
    ensures NothingLost(t, -MAX_TIME, high) <==> RightsBehind(t, high)
  {
    if t.Branch? {
      LosesNothingIff(t.l, high);
      LosesNothingIff(t.r, high);
      HighestInRange(t.l);
      NoHits(Preorder(t.r), -MAX_TIME, high);
    }
  }

  /** A query from the sentinel's own time on enters the empty left side, finds nothing there and skips m. */
  lemma LostAtMinimum(n: Node, m: Node, high: SimTime)
    requires n.key <= m.key <= high && n.key <= n.high && m.key <= m.high
    ensures var t := Branch(false, Leaf, n, Branch(true, Leaf, m, Leaf));
      && Sorted(Listing(t)) && Even(t) && NoRedRed(t)
      && Visit(t, -MAX_TIME, high) == [n] && Hits(Preorder(t), -MAX_TIME, high) == [n, m]
  {
    var r := Branch(true, Leaf, m, Leaf);
    HitsOfTree(r, -MAX_TIME, high);
    HitsOfTree(Branch(false, Leaf, n, r), -MAX_TIME, high);
  }

  /** An interval stored with its ends swapped reaches less far than it overlaps, and is skipped. */
  lemma LostWhenInverted(n: Node, m: Node, low: SimTime, high: SimTime)
    requires m.high < low <= m.key <= n.key && m.key <= high < n.key
    ensures var t := Branch(false, Branch(true, Leaf, m, Leaf), n, Leaf);
      && Sorted(Listing(t)) && Even(t) && NoRedRed(t)
      && Visit(t, low, high) == [] && Hits(Preorder(t), low, high) == [m]
  {
    var l := Branch(true, Leaf, m, Leaf);
    HitsOfTree(l, low, high);
    HitsOfTree(Branch(false, l, n, Leaf), low, high);
  }

  lemma {:induction false} BelowHighest(t: Tree)
    ensures forall n :: n in Preorder(t) ==> n.high <= Highest(t)
  {
    if t.Branch? {
      BelowHighest(t.l);
      BelowHighest(t.r);
    }
  }

  // ---------- the explicit stack ----------

  /** One stack entry: the subtree to try later, and whether its left sibling had a hit. */
  datatype Level = Level(right: Tree, hit: bool)

  /** What is still visited after the current subtree; hit tells whether anything below the top entry was found. */
  ghost function Pending(levels: seq<Level>, hit: bool, low: SimTime, high: SimTime): seq<Node> {
    if |levels| <= 1 then []
    else
      var up := levels[..|levels| - 1];
      if hit then Visit(levels[|levels| - 1].right, low, high) + Pending(up, true, low, high)
      else Pending(up, up[|up| - 1].hit, low, high)
  }

  ghost function Work(levels: seq<Level>): nat {
    if levels == [] then 0 else Size(levels[|levels| - 1].right) + Work(levels[..|levels| - 1])
  }

  ghost function TopHit(levels: seq<Level>): bool {
    levels != [] && levels[|levels| - 1].hit
  }

  /** All that is visited from here on, when t is the current subtree. */
  ghost function Rest(t: Tree, levels: seq<Level>, low: SimTime, high: SimTime): seq<Node> {
    var hits := Visit(t, low, high);
    hits + Pending(levels, TopHit(levels) || hits != [], low, high)
  }

  ghost function Noted(levels: seq<Level>, hit: bool): (r: seq<Level>)
    requires levels != []
    ensures |r| == |levels|
  {
    if hit then levels[|levels| - 1 := levels[|levels| - 1].(hit := true)] else levels
  }

  lemma NotedKeeps(levels: seq<Level>, hit: bool, low: SimTime, high: SimTime)
    requires levels != []
    ensures TopHit(Noted(levels, hit)) == (TopHit(levels) || hit)
    ensures Work(Noted(levels, hit)) == Work(levels)
    ensures forall b :: Pending(Noted(levels, hit), b, low, high) == Pending(levels, b, low, high)
  {
    assert Noted(levels, hit)[..|levels| - 1] == levels[..|levels| - 1];
  }

  /** Entering the left side pushes the right one. */
  lemma Enter(t: Tree, levels: seq<Level>, low: SimTime, high: SimTime)
    requires levels != [] && t.Branch? && Highest(t.l) >= low
    ensures var noted := Noted(levels, Hit(t.n, low, high));
      Rest(t, levels, low, high) ==
          (if Hit(t.n, low, high) then [t.n] else []) + Rest(t.l, noted + [Level(t.r, false)], low, high)
    ensures Work(Noted(levels, Hit(t.n, low, high)) + [Level(t.r, false)]) == Work(levels) + Size(t.r)
  {
    var hit := Hit(t.n, low, high);
    var noted := Noted(levels, hit);
    NotedKeeps(levels, hit, low, high);
    var pushed := noted + [Level(t.r, false)];
    assert pushed[..|pushed| - 1] == noted;
    if Visit(t.l, low, high) != [] {
      EnteredHits(t, noted, pushed, levels, low, high);
    } else {
      EnteredNothing(t, noted, pushed, levels, low, high);
    }
  }

  /** The stack with the right side pushed on it. */
  ghost predicate Pushed(t: Tree, noted: seq<Level>, pushed: seq<Level>, levels: seq<Level>, low: SimTime,
                         high: SimTime) {
    && t.Branch? && Highest(t.l) >= low
    && noted != [] && pushed == noted + [Level(t.r, false)] && pushed[..|pushed| - 1] == noted
    && TopHit(noted) == (TopHit(levels) || Hit(t.n, low, high))
    && forall b :: Pending(noted, b, low, high) == Pending(levels, b, low, high)
  }

  lemma EnteredHits(t: Tree, noted: seq<Level>, pushed: seq<Level>, levels: seq<Level>, low: SimTime, high: SimTime)
    requires Pushed(t, noted, pushed, levels, low, high) && Visit(t.l, low, high) != []
    ensures Rest(t, levels, low, high) == (if Hit(t.n, low, high) then [t.n] else []) + Rest(t.l, pushed, low, high)
  {
    var pending := Pending(levels, true, low, high);
    VisitedLeft(t, low, high);
    PendingPushed(noted, pushed, t.r, low, high);
    assert Pending(noted, true, low, high) == pending;
    Rejoin(Rest(t, levels, low, high), Visit(t, low, high), if Hit(t.n, low, high) then [t.n] else [],
           Visit(t.l, low, high), Visit(t.r, low, high), pending);
  }

  lemma EnteredNothing(t: Tree, noted: seq<Level>, pushed: seq<Level>, levels: seq<Level>, low: SimTime, high: SimTime)
    requires Pushed(t, noted, pushed, levels, low, high) && Visit(t.l, low, high) == []
    ensures Rest(t, levels, low, high) == (if Hit(t.n, low, high) then [t.n] else []) + Rest(t.l, pushed, low, high)
  {
    var hit := TopHit(noted);
    VisitedNothing(t, low, high);
    PendingPushed(noted, pushed, t.r, low, high);
    assert Pending(noted, hit, low, high) == Pending(levels, hit, low, high);
    RestOf(t.l, pushed, [], false, low, high);
    RestOf(t, levels, if Hit(t.n, low, high) then [t.n] else [], hit, low, high);
  }

  lemma PendingPushed(noted: seq<Level>, pushed: seq<Level>, r: Tree, low: SimTime, high: SimTime)
    requires noted != [] && pushed == noted + [Level(r, false)]
    ensures !TopHit(pushed) && Pending(pushed, false, low, high) == Pending(noted, TopHit(noted), low, high)
    ensures Pending(pushed, true, low, high) == Visit(r, low, high) + Pending(noted, true, low, high)
  {
    assert pushed[..|pushed| - 1] == noted;
  }

  lemma RestOf(t: Tree, levels: seq<Level>, visit: seq<Node>, hit: bool, low: SimTime, high: SimTime)
    requires Visit(t, low, high) == visit && hit == (TopHit(levels) || visit != [])
    ensures Rest(t, levels, low, high) == visit + Pending(levels, hit, low, high)
  {
  }

  lemma VisitedLeft(t: Tree, low: SimTime, high: SimTime)
    requires t.Branch? && Highest(t.l) >= low && Visit(t.l, low, high) != []
    ensures Visit(t, low, high) ==
        (if Hit(t.n, low, high) then [t.n] else []) + (Visit(t.l, low, high) + Visit(t.r, low, high)) != []
  {
  }

  lemma VisitedNothing(t: Tree, low: SimTime, high: SimTime)
    requires t.Branch? && Highest(t.l) >= low && Visit(t.l, low, high) == []
    ensures Visit(t, low, high) == if Hit(t.n, low, high) then [t.n] else []
  {
  }

  lemma Rejoin<T>(rest: seq<T>, visit: seq<T>, own: seq<T>, hits: seq<T>, right: seq<T>, pending: seq<T>)
    requires rest == visit + pending && visit == own + (hits + right)
    ensures rest == own + (hits + (right + pending))
  {
  }

  /** Skipping the left side goes right at once. */
  lemma Skip(t: Tree, levels: seq<Level>, low: SimTime, high: SimTime)
    requires levels != [] && t.Branch? && Highest(t.l) < low
    ensures var noted := Noted(levels, Hit(t.n, low, high));
      Rest(t, levels, low, high) == (if Hit(t.n, low, high) then [t.n] else []) + Rest(t.r, noted, low, high)
      && Work(noted) == Work(levels)
  {
    NotedKeeps(levels, Hit(t.n, low, high), low, high);
  }

  /** One visit: t with these levels becomes t' with those. */
  ghost predicate Step(t: Tree, levels: seq<Level>, t': Tree, levels': seq<Level>, low: SimTime, high: SimTime)
    requires t.Branch? && levels != []
  {
    var noted := Noted(levels, Hit(t.n, low, high));
    if Highest(t.l) >= low then t' == t.l && levels' == noted + [Level(t.r, false)] else t' == t.r && levels' == noted
  }

  /** How deep the stack can get: entry i still has a subtree of limited height to visit. */
  ghost predicate Bounded(levels: seq<Level>, h: nat) {
    forall i {:trigger levels[i]} :: 1 <= i < |levels| ==> i + Height(levels[i].right) <= h
  }

  lemma StepBounded(t: Tree, levels: seq<Level>, t': Tree, levels': seq<Level>, low: SimTime, high: SimTime, h: nat)
    requires t.Branch? && levels != [] && Step(t, levels, t', levels', low, high)
    requires Bounded(levels, h) && |levels| - 1 + Height(t) <= h
    ensures Bounded(levels', h) && |levels'| - 1 + Height(t') <= h
  {
    var noted := Noted(levels, Hit(t.n, low, high));
    forall i | 1 <= i < |levels'| ensures i + Height(levels'[i].right) <= h {
      if i < |levels| { assert levels'[i].right == levels[i].right; }
    }
  }

  lemma PopBounded(levels: seq<Level>, h: nat)
    requires |levels| > 1 && Bounded(levels, h)
    ensures var up := levels[..|levels| - 1];
      Bounded(up, h) && Bounded(Noted(up, true), h) && |up| - 1 + Height(levels[|levels| - 1].right) <= h &&
          |up| - 1 <= h
  {
    var up := levels[..|levels| - 1];
    assert levels[|levels| - 1] == levels[|up|];
    forall i | 1 <= i < |up| ensures i + Height(up[i].right) <= h && i + Height(Noted(up, true)[i].right) <= h {
      assert up[i] == levels[i];
    }
  }

  /** A visit adds its own hit to what is still to come, and leaves less work. */
  lemma StepProgress(t: Tree, levels: seq<Level>, t': Tree, levels': seq<Level>, low: SimTime, high: SimTime)
    requires t.Branch? && levels != [] && Step(t, levels, t', levels', low, high)
    ensures Rest(t, levels, low, high) == (if Hit(t.n, low, high) then [t.n] else []) + Rest(t', levels', low, high)
    ensures Work(levels') + Size(t') < Work(levels) + Size(t)
  {
    if Highest(t.l) >= low { Enter(t, levels, low, high); } else { Skip(t, levels, low, high); }
  }

  /** A visit keeps: what was found, then what is still to come, is the whole traversal. */
  lemma VisitedSoFar(t: Tree, levels: seq<Level>, t': Tree, levels': seq<Level>, found: seq<Node>, total: seq<Node>,
      low: SimTime, high: SimTime, h: nat)
    requires t.Branch? && levels != [] && Step(t, levels, t', levels', low, high)
    requires Bounded(levels, h) && |levels| - 1 + Height(t) <= h
    requires found + Rest(t, levels, low, high) == total
    ensures Bounded(levels', h) && |levels'| - 1 + Height(t') <= h
    ensures Work(levels') + Size(t') < Work(levels) + Size(t)
    ensures (if Hit(t.n, low, high) then found + [t.n] else found) + Rest(t', levels', low, high) == total
  {
    StepProgress(t, levels, t', levels', low, high);
    StepBounded(t, levels, t', levels', low, high, h);
    Found(Hit(t.n, low, high), t.n, found, Rest(t, levels, low, high), Rest(t', levels', low, high));
  }

  lemma Found(hit: bool, n: Node, found: seq<Node>, rest: seq<Node>, rest': seq<Node>)
    requires rest == (if hit then [n] else []) + rest'
    ensures (if hit then found + [n] else found) + rest' == found + rest
  {
  }

  /** Popping an entry resumes at its right side if it was hit, and drops it otherwise. */
  lemma Pop(levels: seq<Level>, low: SimTime, high: SimTime)
    requires |levels| > 1
    ensures var up, top := levels[..|levels| - 1], levels[|levels| - 1];
      Rest(Leaf, levels, low, high) ==
          (if top.hit then Rest(top.right, Noted(up, true), low, high) else Rest(Leaf, up, low, high))
      && Work(levels) == Work(up) + Size(top.right) && Work(Noted(up, true)) == Work(up)
  {
    NotedKeeps(levels[..|levels| - 1], true, low, high);
  }

  /** After popping entries, what is left to visit is the same, and neither more work nor a deeper stack is ahead. */
  ghost predicate Remains(levels: seq<Level>, t: Tree, rest: seq<Level>, low: SimTime, high: SimTime, h: nat) {
    && Rest(Leaf, levels, low, high) == Rest(t, rest, low, high)
    && Work(rest) + Size(t) <= Work(levels) && Bounded(rest, h) && (t.Branch? ==> |rest| - 1 + Height(t) <= h)
  }

  lemma RemainsPopped(levels: seq<Level>, rest: seq<Level>, low: SimTime, high: SimTime, h: nat)
    requires |rest| > 1 && Remains(levels, Leaf, rest, low, high, h)
    ensures var up, top := rest[..|rest| - 1], rest[|rest| - 1];
      if top.hit then Remains(levels, top.right, Noted(up, true), low, high, h)
          else Remains(levels, Leaf, up, low, high, h)
  {
    Pop(rest, low, high);
    PopBounded(rest, h);
  }

  // ---------- searching for an interval object ----------

  /** r is the first node of s that stores ivl, or none if no node does. */
  ghost predicate FirstWith(s: seq<Node>, ivl: Interval, r: Node, none: Node) {
    if r == none then forall n :: n in s ==> n.storedInterval != ivl
    else
      exists k :: 0 <= k < |s| && s[k] == r && r.storedInterval == ivl &&
                  forall i :: 0 <= i < k ==> s[i].storedInterval != ivl
  }

  lemma FirstOfThree(n: Node, l: seq<Node>, r: seq<Node>, ivl: Interval, left: Node, right: Node, none: Node)
    requires n.storedInterval != ivl && FirstWith(l, ivl, left, none) && FirstWith(r, ivl, right, none)
    ensures FirstWith([n] + l + r, ivl, if left != none then left else right, none)
  {
    var s := [n] + l + r;
    if left != none {
      var k :| 0 <= k < |l| && l[k] == left && left.storedInterval == ivl &&
          forall i :: 0 <= i < k ==> l[i].storedInterval != ivl;
      assert s[1 + k] == left;
      forall i | 0 <= i < 1 + k ensures s[i].storedInterval != ivl { assert s[i] == if i == 0 then n else l[i - 1]; }
    } else if right != none {
      var k :| 0 <= k < |r| && r[k] == right && right.storedInterval == ivl &&
          forall i :: 0 <= i < k ==> r[i].storedInterval != ivl;
      assert s[1 + |l| + k] == right;
      forall i | 0 <= i < 1 + |l| + k ensures s[i].storedInterval != ivl {
        assert s[i] == if i == 0 then n else if i <= |l| then l[i - 1] else r[i - 1 - |l|];
      }
    }
  }
}
