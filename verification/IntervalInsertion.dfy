/** Where a new node goes, and why the tree conditions survive linking, recolouring and rotating. */
module IntervalInsertion {
  import opened IntervalLists
  import opened IntervalNodes
  import opened IntervalRotations

  ghost predicate Sorted(s: seq<Node>) {
    forall i, j :: 0 <= i <= j < |s| ==> s[i].key <= s[j].key
  }

  /** s with z put behind every node whose key is not larger. */
  ghost function Inserted(s: seq<Node>, z: Node): seq<Node> {
    if s == [] || s[0].key > z.key then [z] + s
    else [s[0]] + Inserted(s[1..], z)
  }

  lemma {:induction false} InsertedBetween(a: seq<Node>, b: seq<Node>, z: Node)
    requires forall e :: e in a ==> e.key <= z.key
    requires b == [] || b[0].key > z.key
    ensures Inserted(a + b, z) == a + [z] + b
  {
    if a == [] {
      assert a + b == b;
    } else {
      assert a[0] in a;
      assert forall e :: e in a[1..] ==> e in a;
      InsertedBetween(a[1..], b, z);
      assert (a + b)[1..] == a[1..] + b;
    }
  }

  /** The place of z: everything before it has a key up to z's, everything behind a larger one. */
  lemma {:induction false} InsertedPlace(s: seq<Node>, z: Node) returns (k: nat)
    requires Sorted(s)
    ensures k <= |s| && Inserted(s, z) == s[..k] + [z] + s[k..]
    ensures forall i :: 0 <= i < k ==> s[i].key <= z.key
    ensures forall i :: k <= i < |s| ==> s[i].key > z.key
  {
    if s == [] || s[0].key > z.key {
      k := 0;
    } else {
      k := InsertedPlace(s[1..], z);
      assert s == [s[0]] + s[1..];
      k := k + 1;
    }
  }

  /** Inserting keeps the list sorted and adds exactly z. */
  lemma InsertedSorted(s: seq<Node>, z: Node)
    requires Sorted(s)
    ensures Sorted(Inserted(s, z))
    ensures multiset(Inserted(s, z)) == multiset(s) + multiset{z}
  {
    var k := InsertedPlace(s, z);
    assert s == s[..k] + s[k..];
    SortedBetween(s[..k], z, s[k..]);
  }

  lemma SortedBetween(a: seq<Node>, z: Node, b: seq<Node>)
    requires Sorted(a + b) && (forall e :: e in a ==> e.key <= z.key) && forall e :: e in b ==> e.key > z.key
    ensures Sorted(a + [z] + b)
  {
    var s, t := a + [z] + b, a + b;
    forall i, j | 0 <= i <= j < |s| ensures s[i].key <= s[j].key {
      var i', j' := if i <= |a| then i else i - 1, if j <= |a| then j else j - 1;
      if i != |a| && j != |a| { assert t[i'] == s[i] && t[j'] == s[j]; }
      if i < |a| { assert s[i] in a; }
      if j > |a| { assert s[j] in b; }
    }
  }

  /** The place for a key is between lo and hi. */
  ghost predicate Around(e: seq<Node>, lo: nat, hi: nat, key: SimTime) {
    && (forall i :: 0 <= i < lo && i < |e| ==> e[i].key <= key)
    && (forall i :: hi <= i < |e| ==> e[i].key > key)
  }

  /** A search that has narrowed e to x's subtree finds x and its two sides at known places, and narrows on. */
  lemma SearchStep(e: seq<Node>, lo: nat, hi: nat, l: seq<Node>, x: Node, r: seq<Node>, key: SimTime)
    requires Sorted(e) && lo <= hi <= |e| && e[lo..hi] == l + [x] + r && Around(e, lo, hi, key)
    ensures lo + |l| + 1 + |r| == hi && e[lo + |l|] == x
    ensures e[lo..lo + |l|] == l && e[lo + |l| + 1..hi] == r
    ensures x.key > key ==> Around(e, lo, lo + |l|, key)
    ensures x.key <= key ==> Around(e, lo + |l| + 1, hi, key)
  {
    var s := e[lo..hi];
    assert s[|l|] == x && s[..|l|] == l && s[|l| + 1..] == r;
  }

  /** z becomes a leaf below y, on the side where y has no child; in the list it goes between before and behind. */
  datatype Attachment = Attachment(a: Region, y: Node, z: Node, onLeft: bool, before: seq<Node>, behind: seq<Node>) {

    ghost function Edit(): map<Node, seq<Node>> {
      map[y := if onLeft then [z, y] else [y, z]]
    }

    ghost function After(): Region {
      a.(nodes := a.nodes + {z})
    }

    ghost predicate Before()
      reads y
    {
      && y in a.nodes && z !in a.nodes && z != a.root && z != a.nil
      && (if onLeft then y.left == a.nil else y.right == a.nil)
    }

    ghost predicate Placed(e: seq<Node>) {
      && e == before + behind
      && (forall n :: n in before ==> n.key <= z.key)
      && (forall n :: n in behind ==> n.key > z.key)
      && if onLeft then behind != [] && behind[0] == y else before != [] && before[|before| - 1] == y
    }

    twostate predicate Hung()
      reads a.nodes, a.root, z
    {
      && z.left == a.nil && z.right == a.nil && z.parent == y
      && (forall n {:trigger n.left} :: n in a.nodes ==> n.left == if n == y && onLeft then z else old(n.left))
      && (forall n {:trigger n.right} :: n in a.nodes ==> n.right == if n == y && !onLeft then z else old(n.right))
      && (forall n {:trigger n.parent} :: n in a.nodes ==> n.parent == old(n.parent))
      && a.root.left == old(a.root.left)
    }

    twostate predicate Linked()
      reads a.nodes, a.root, z
    {
      && Hung() && z.elems == [z]
      && (forall n {:trigger n.elems} :: n in a.nodes ==> n.elems == Subst(old(n.elems), Edit()))
    }

    twostate lemma Links()
      requires old(a.Shape()) && old(Before()) && Linked() && a.Sentinels()
      ensures After().LinksAll()
    {
      assert old(a.Linked(y));
      forall n | n in After().nodes ensures After().Linked(n) {
        if n == z {} else { assert old(a.Linked(n)); }
      }
    }

    twostate lemma ListOf(n: Node)
      requires old(a.Shape()) && old(Before()) && Linked() && a.Sentinels()
      requires n in a.nodes
      ensures After().Listed(n)
    {
      assert old(a.Linked(n)) && old(a.Listed(n));
      SubstNode(old(n.left.elems), n, old(n.right.elems), Edit());
      assert n.left.elems == if n == y && onLeft then [z] else Subst(old(n.left.elems), Edit());
      assert n.right.elems == if n == y && !onLeft then [z] else Subst(old(n.right.elems), Edit());
    }

    twostate lemma Shaped()
      requires old(a.Shape()) && old(Before()) && Linked() && a.Sentinels()
      ensures After().Shape()
    {
      Links();
      forall n | n in After().nodes ensures After().Listed(n) {
        if n != z { ListOf(n); }
      }
    }

    /** Only ancestors of y may now have a wrong maxHigh. */
    twostate lemma MaxHighs()
      requires old(a.Shape()) && old(Before()) && Linked() && a.Sentinels()
      requires old(a.MaxAll()) && z.maxHigh == z.high
      requires forall n {:trigger n.maxHigh} :: n in a.nodes ==> n.maxHigh == old(n.maxHigh)
      ensures forall n {:trigger After().MaxExact(n)} :: n in After().nodes && n != y ==> After().MaxExact(n)
    {
      forall n | n in After().nodes && n != y ensures After().MaxExact(n) {
        if n != z { assert old(a.Linked(n)) && old(a.MaxExact(n)); }
      }
    }

    /** A new leaf of black height 0 changes nobody's balance, and only z may be a red child of a red node. */
    twostate lemma Colours()
      requires old(a.Shape()) && old(Before()) && Linked() && a.Sentinels()
      requires old(a.BalancedAll()) && old(a.RedAll()) && z.blackHeight == 0
      requires forall n {:trigger n.red} {:trigger n.blackHeight} :: n in a.nodes ==>
        n.red == old(n.red) && n.blackHeight == old(n.blackHeight)
      ensures forall n {:trigger After().Balanced(n)} :: n in a.nodes ==> After().Balanced(n)
      ensures forall n {:trigger After().RedOkExcept(n, z)} :: n in a.nodes ==> After().RedOkExcept(n, z)
    {
      forall n | n in a.nodes ensures After().Balanced(n) && After().RedOkExcept(n, z) {
        assert old(a.Linked(n)) && old(a.Balanced(n)) && old(a.RedOk(n));
      }
    }

    /** The order is kept. */
    twostate lemma Order()
      requires old(a.Shape()) && old(a.Covered()) && old(Before()) && Linked() && a.Sentinels()
      requires Placed(old(a.root.left.elems))
      ensures a.root.left.elems == Inserted(old(a.root.left.elems), z)
      ensures After().Covered()
    {
      assert y in before + behind;
      assert a.root.left in a.nodes;
      if onLeft { EditLeft(before, behind, y, z, Edit()); } else { EditRight(before, behind, y, z, Edit()); }
      assert a.root.left.elems == Subst(before + behind, Edit());
      InsertedBetween(before, behind, z);
      assert forall e :: e in before + behind ==> e in a.nodes;
      CoverGrows(before, behind, z);
    }
  
    twostate lemma Done()
      requires old(a.Shape()) && old(a.Covered()) && old(a.MaxAll()) && old(a.BalancedAll()) && old(a.RedAll())
      requires old(Before()) && Linked() && a.Sentinels()
      requires Placed(old(a.root.left.elems))
      requires z.maxHigh == z.high && z.blackHeight == 0
      requires forall n {:trigger n.maxHigh} {:trigger n.red} {:trigger n.blackHeight} :: n in a.nodes ==>
        n.maxHigh == old(n.maxHigh) && n.red == old(n.red) && n.blackHeight == old(n.blackHeight)
      ensures After().Shape() && After().Covered()
      ensures a.root.left.elems == Inserted(old(a.root.left.elems), z)
      ensures forall n {:trigger After().MaxExact(n)} :: n in After().nodes && n != y ==> After().MaxExact(n)
      ensures forall n {:trigger After().Balanced(n)} :: n in a.nodes ==> After().Balanced(n)
      ensures forall n {:trigger After().RedOkExcept(n, z)} :: n in a.nodes ==> After().RedOkExcept(n, z)
    {
      Shaped();
      Order();
      MaxHighs();
      Colours();
    }
  }

  lemma EditLeft(before: seq<Node>, behind: seq<Node>, y: Node, z: Node, m: map<Node, seq<Node>>)
    requires NoDup(before + behind) && behind != [] && behind[0] == y
    requires m.Keys == {y} && m[y] == [z, y]
    ensures Subst(before + behind, m) == before + [z] + behind
  {
    var rest := behind[1..];
    assert before + behind == before + [y] + rest;
    Apart(before, y, rest);
    SubstOne(before, y, rest, m);
    assert before + [z, y] + rest == before + [z] + behind;
  }

  lemma Apart(a: seq<Node>, y: Node, b: seq<Node>)
    requires NoDup(a + [y] + b)
    ensures y !in a && y !in b
  {
    NoDupAppend(a + [y], b);
    NoDupAppend(a, [y]);
    assert y in a + [y] && y in [y];
  }

  lemma SubstOne(a: seq<Node>, y: Node, b: seq<Node>, m: map<Node, seq<Node>>)
    requires y !in a && y !in b && m.Keys == {y}
    ensures Subst(a + [y] + b, m) == a + m[y] + b
  {
    SubstUntouched(a, m);
    SubstUntouched(b, m);
    SubstNode(a, y, b, m);
  }

  lemma EditRight(before: seq<Node>, behind: seq<Node>, y: Node, z: Node, m: map<Node, seq<Node>>)
    requires NoDup(before + behind) && before != [] && before[|before| - 1] == y
    requires m.Keys == {y} && m[y] == [y, z]
    ensures Subst(before + behind, m) == before + [z] + behind
  {
    var front := before[..|before| - 1];
    assert before + behind == front + [y] + behind;
    Apart(front, y, behind);
    SubstOne(front, y, behind, m);
    assert front + [y, z] + behind == before + [z] + behind;
  }

  lemma CoverGrows(before: seq<Node>, behind: seq<Node>, z: Node)
    requires NoDup(before + behind) && z !in before + behind
    ensures NoDup(before + [z] + behind)
    ensures forall e :: e in before + [z] + behind ==> e == z || e in before + behind
    ensures forall e :: e in before + behind ==> e in before + [z] + behind
    ensures z in before + [z] + behind
  {
    NoDupAppend(before, behind);
    assert forall e :: e in before ==> e in before + behind;
    assert forall e :: e in behind ==> e in before + behind;
    NoDupJoin(before, [z]);
    NoDupJoin(before + [z], behind);
  }
}
