/**
 The nodes of the interval tree and what it means for them to be linked into a red-black
 tree with exact maxHigh fields. Every condition is local to a node and its neighbours; two
 ghost fields make that possible: elems, the in-order list of the subtree, and blackHeight.
 */
module IntervalNodes {
  import opened IntervalLists

  const MAX_TIME: int := 0x7FFF_FFFF_FFFF_FFFF

  type SimTime = t: int | -MAX_TIME <= t <= MAX_TIME

  function Max(a: SimTime, b: SimTime): SimTime {
    if a < b then b else a
  }

  class Interval {
    const low: SimTime
    const high: SimTime

    constructor (low: SimTime, high: SimTime)
      ensures this.low == low && this.high == high
    {
      this.low := low;
      this.high := high;
    }
  }

  class Node {
    const storedInterval: Interval?
    const key: SimTime
    const high: SimTime
    var maxHigh: SimTime
    var red: bool
    var left: Node
    var right: Node
    var parent: Node
    ghost var elems: seq<Node>
    ghost var blackHeight: nat

    constructor (newInterval: Interval)
      ensures storedInterval == newInterval
      ensures key == newInterval.low && high == newInterval.high && maxHigh == newInterval.high
      ensures !red && elems == [] && blackHeight == 0
    {
      storedInterval := newInterval;
      key, high, maxHigh := newInterval.low, newInterval.high, newInterval.high;
      red := false;
      left, right, parent := this, this, this;
      elems, blackHeight := [], 0;
    }

    constructor Sentinel(time: SimTime)
      ensures storedInterval == null && key == time && high == time && maxHigh == time
      ensures left == this && right == this && parent == this
      ensures !red && elems == [] && blackHeight == 0
    {
      storedInterval := null;
      key, high, maxHigh := time, time, time;
      red := false;
      left, right, parent := this, this, this;
      elems, blackHeight := [], 0;
    }
  }

  /** The two sentinels and the nodes of one tree; the top node is root.left. */
  datatype Region = Region(root: Node, nil: Node, nodes: set<Node>) {

    // ---------- conditions on a single node ----------

    ghost predicate Linked(n: Node)
      reads n`left, n`right, n`parent, n.left`parent, n.right`parent, n.parent`left, n.parent`right, root`left
    {
      && (n.left == nil || (n.left in nodes && n.left.parent == n))
      && (n.right == nil || (n.right in nodes && n.right.parent == n))
      && (n.left == n.right ==> n.left == nil)
      && (n.parent == root ==> root.left == n)
      && (n.parent != root ==> n.parent in nodes && (n.parent.left == n || n.parent.right == n))
    }

    ghost predicate Listed(n: Node)
      reads n`left, n`right, n`elems, n.left`elems, n.right`elems
    {
      n.elems == n.left.elems + [n] + n.right.elems
    }

    ghost predicate MaxExact(n: Node)
      reads n`left, n`right, n`maxHigh, n.left`maxHigh, n.right`maxHigh
    {
      n.maxHigh == Max(n.high, Max(n.left.maxHigh, n.right.maxHigh))
    }

    ghost predicate Balanced(n: Node)
      reads n`left, n`right, n`red, n`blackHeight, n.left`blackHeight, n.right`blackHeight
    {
      && n.left.blackHeight == n.right.blackHeight
      && n.blackHeight == n.left.blackHeight + if n.red then 0 else 1
    }

    /** A red node has black children, x excepted. */
    ghost predicate RedOkExcept(n: Node, x: Node)
      reads n`left, n`right, n`red, n.left`red, n.right`red
    {
      n.red ==> (n.left.red ==> n.left == x) && (n.right.red ==> n.right == x)
    }

    ghost predicate RedOk(n: Node)
      reads n`left, n`right, n`red, n.left`red, n.right`red
    {
      n.red ==> !n.left.red && !n.right.red
    }

    // ---------- conditions on the whole tree ----------

    ghost function Footprint(): set<Node>
      reads nodes`left, nodes`right, nodes`parent
    {
      nodes + {root, nil} + (set n | n in nodes :: n.left) + (set n | n in nodes :: n.right) +
      (set n | n in nodes :: n.parent)
    }

    ghost predicate Sentinels()
      reads root`right, root`red, nil`elems, nil`blackHeight, nil`red, nil`maxHigh
    {
      && root !in nodes && nil !in nodes && root != nil
      && root.right == nil && !root.red
      && nil.elems == [] && nil.blackHeight == 0 && !nil.red && nil.maxHigh == -MAX_TIME
    }

    ghost predicate LinksAll()
      reads Footprint()`left, Footprint()`right, Footprint()`parent
    {
      forall n {:trigger Linked(n)} :: n in nodes ==> Linked(n)
    }

    ghost predicate ListsAll()
      reads Footprint()`left, Footprint()`right, Footprint()`parent, Footprint()`elems
    {
      forall n {:trigger Listed(n)} :: n in nodes ==> Listed(n)
    }

    ghost predicate Shape()
      reads Footprint()`left, Footprint()`right, Footprint()`parent, Footprint()`elems
      reads root.left`parent, root`red, nil`blackHeight, nil`red, nil`maxHigh
    {
      && Sentinels()
      && (root.left == nil || (root.left in nodes && root.left.parent == root))
      && LinksAll() && ListsAll()
    }

    ghost predicate MaxAll()
      reads Footprint()`left, Footprint()`right, Footprint()`parent, Footprint()`maxHigh
    {
      forall n {:trigger MaxExact(n)} :: n in nodes ==> MaxExact(n)
    }

    ghost predicate BalancedAll()
      reads Footprint()`left, Footprint()`right, Footprint()`parent, Footprint()`red, Footprint()`blackHeight
    {
      forall n {:trigger Balanced(n)} :: n in nodes ==> Balanced(n)
    }

    ghost predicate RedAll()
      reads Footprint()`left, Footprint()`right, Footprint()`parent, Footprint()`red
    {
      forall n {:trigger RedOk(n)} :: n in nodes ==> RedOk(n)
    }

    ghost predicate RedAllExcept(x: Node)
      reads Footprint()`left, Footprint()`right, Footprint()`parent, Footprint()`red
    {
      forall n {:trigger RedOkExcept(n, x)} :: n in nodes ==> RedOkExcept(n, x)
    }

    /** The tree holds exactly the region's nodes, each once. */
    ghost predicate Covered()
      reads root`left, root.left`elems
    {
      && NoDup(root.left.elems)
      && (forall n {:trigger n in root.left.elems} :: n in nodes ==> n in root.left.elems)
      && (forall n {:trigger n in root.left.elems} :: n in root.left.elems ==> n in nodes)
    }

    // ---------- consequences ----------

    lemma Around(x: Node)
      requires Shape() && x in nodes
      ensures Linked(x) && Listed(x) && x in x.elems
      ensures var p := x.parent;
        && x.left != x && x.right != x && p != x && p != nil
        && (p == root || p in nodes)
        && (p.left == x || p.right == x) && (p.left == x ==> p.right != x)
        && (x.left == nil || (x.left in nodes && x.left.parent == x && x.left != p && x.left != x.right))
        && (x.right == nil || (x.right in nodes && x.right.parent == x && x.right != p))
    {
      var p := x.parent;
      assert Linked(x) && Listed(x);
      if p != root {
        assert Linked(p) && Listed(p);
      }
      if x.left != nil { assert Linked(x.left) && Listed(x.left); }
      if x.right != nil { assert Linked(x.right) && Listed(x.right); }
    }

    /** Writing to objects outside the tree disturbs nothing. */
    twostate lemma Outside()
      requires old(Shape()) && old(MaxAll()) && old(BalancedAll()) && old(RedAll())
      requires Sentinels() && root.left == old(root.left)
      requires forall n {:trigger n.left} {:trigger n.right} {:trigger n.parent} :: n in nodes ==>
        n.left == old(n.left) && n.right == old(n.right) && n.parent == old(n.parent)
      requires forall n {:trigger n.elems} {:trigger n.maxHigh} :: n in nodes ==>
          n.elems == old(n.elems) && n.maxHigh == old(n.maxHigh)
      requires forall n {:trigger n.red} {:trigger n.blackHeight} :: n in nodes ==>
          n.red == old(n.red) && n.blackHeight == old(n.blackHeight)
      ensures Shape() && MaxAll() && BalancedAll() && RedAll()
    {
      forall n | n in nodes ensures Linked(n) && Listed(n) && MaxExact(n) && Balanced(n) && RedOk(n) {
        assert old(Linked(n)) && old(Listed(n)) && old(MaxExact(n)) && old(Balanced(n)) && old(RedOk(n));
      }
    }

    lemma Empty()
      requires Shape() && Covered() && root.left == nil
      ensures nodes == {}
    {
      assert forall n :: n in nodes ==> n in root.left.elems;
    }

    lemma Single(z: Node)
      requires Sentinels() && nodes == {z} && root.left == z && z.parent == root
      requires z.left == nil && z.right == nil && z.elems == [z]
      ensures Shape() && Covered()
    {
      assert Linked(z) && Listed(z);
    }

    /** Nobody but its parent and its children is linked to z. */
    lemma OnlyKin(z: Node)
      requires Shape() && z in nodes
      ensures forall n {:trigger n.left} {:trigger n.right} :: n in nodes && (n.left == z || n.right == z) ==>
          n == z.parent
      ensures forall n {:trigger n.parent} :: n in nodes ==> (n.parent == z <==> n == z.left || n == z.right)
    {
      Around(z);
      forall n | n in nodes
        ensures (n.left == z || n.right == z) ==> n == z.parent
        ensures n.parent == z <==> n == z.left || n == z.right
      {
        assert Linked(n);
      }
    }

    /** A proper descendant's parent is in the same subtree. */
    lemma {:induction false} ParentListed(n: Node, c: Node)
      requires Shape() && n in nodes && c in n.elems && c != n
      ensures c in nodes && c.parent in n.elems
      decreases |n.elems|
    {
      Around(n);
      if c in n.left.elems {
        Around(n.left);
        if c != n.left { ParentListed(n.left, c); }
      } else {
        Around(n.right);
        if c != n.right { ParentListed(n.right, c); }
      }
    }

    /** The list of a descendant is a slice of the list of its ancestor. */
    lemma {:induction false} Slice(n: Node, c: Node) returns (a: seq<Node>, b: seq<Node>)
      requires Shape() && n in nodes && c in n.elems
      ensures c in nodes && n.elems == a + c.elems + b
      decreases |n.elems|
    {
      Around(n);
      if c == n {
        a, b := [], [];
      } else if c in n.left.elems {
        var a', b' := Slice(n.left, c);
        a, b := a', b' + [n] + n.right.elems;
        assert n.elems == a + c.elems + b;
      } else {
        var a', b' := Slice(n.right, c);
        a, b := n.left.elems + [n] + a', b';
        assert n.elems == a + c.elems + b;
      }
    }

    lemma SubtreeFacts(c: Node)
      requires Shape() && Covered() && c in nodes
      ensures root.left in nodes && |c.elems| <= |root.left.elems| && NoDup(c.elems)
      ensures forall e :: e in c.elems ==> e in nodes
    {
      assert c in root.left.elems;
      var a, b := Slice(root.left, c);
      NoDupAppend(a + c.elems, b);
      NoDupAppend(a, c.elems);
      assert forall e :: e in c.elems ==> e in a + c.elems + b;
    }
  }

  /** One step of a walk that repairs maxHigh on the way up. */
  datatype Climb = Climb(a: Region, x: Node) {
    twostate lemma Up()
      requires a.Shape() && a.Covered() && old(a.Shape()) && x in a.nodes
      requires old(forall n {:trigger a.MaxExact(n)} :: n in a.nodes && x !in n.elems ==> a.MaxExact(n))
      requires forall n {:trigger n.maxHigh} :: n in a.nodes && n != x ==> n.maxHigh == old(n.maxHigh)
      requires forall n {:trigger n.elems} :: n in a.nodes ==>
          n.elems == old(n.elems) && n.left == old(n.left) && n.right == old(n.right)
      requires a.MaxExact(x)
      ensures forall n {:trigger a.MaxExact(n)} :: n in a.nodes && x.parent !in n.elems ==> a.MaxExact(n)
    {
      forall n | n in a.nodes && x.parent !in n.elems ensures a.MaxExact(n) {
        a.Around(n);
        if n != x {
          if x in n.elems { a.ParentListed(n, x); }
          assert old(a.MaxExact(n));
          if n.left != a.nil { a.Around(n.left); }
          if n.right != a.nil { a.Around(n.right); }
        }
      }
    }
  }
}
