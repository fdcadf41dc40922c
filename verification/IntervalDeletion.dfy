/** Taking a node out of the links and lists, and moving another node into its place. */
module IntervalDeletion {
  import opened IntervalLists
  import opened IntervalNodes
  import opened IntervalInsertion

  /** x hangs below x.parent; x may be the nil sentinel, whose parent field is written during a deletion. */
  ghost predicate Hangs(a: Region, x: Node)
    reads x`parent, x.parent`left, x.parent`right, a.root`left
  {
    && (x == a.nil || x in a.nodes) && x.parent != x
    && (x.parent == a.root || x.parent in a.nodes)
    && (x.parent.left == x || x.parent.right == x) && (x.parent == a.root ==> a.root.left == x)
  }

  /** Node n is balanced if the subtree below x counts one black node more than it has. */
  ghost predicate BalancedButFor(a: Region, n: Node, x: Node)
    reads n`left, n`right, n`red, n`blackHeight, n.left`blackHeight, n.right`blackHeight, x`parent
  {
    var onLeft := n == x.parent && n.left == x;
    var onRight := n == x.parent && n.left != x && n.right == x;
    var l := n.left.blackHeight + if onLeft then 1 else 0;
    var r := n.right.blackHeight + if onRight then 1 else 0;
    l == r && n.blackHeight == l + if n.red then 0 else 1
  }

  /** One black node is missing below x; x itself may be red anywhere. Nothing else is wrong. */
  ghost predicate Deficit(a: Region, x: Node)
    reads a.Footprint()`left, a.Footprint()`right, a.Footprint()`parent, a.Footprint()`red, a.Footprint()`blackHeight
    reads a.root.left`red, x`parent, x.parent`left, x.parent`right
  {
    && Hangs(a, x)
    && (forall n {:trigger BalancedButFor(a, n, x)} :: n in a.nodes ==> BalancedButFor(a, n, x))
    && (forall n {:trigger a.RedOkExcept(n, x)} :: n in a.nodes && n != x ==> a.RedOkExcept(n, x))
    && (a.root.left.red ==> a.root.left == x)
  }

  ghost predicate Sound(a: Region)
    reads a.Footprint()`left, a.Footprint()`right, a.Footprint()`parent, a.Footprint()`red, a.Footprint()`blackHeight
    reads a.root.left`red
  {
    a.BalancedAll() && a.RedAll() && !a.root.left.red
  }

  /** y, with at most one child x, is taken out: x is hung below y's parent q. */
  datatype Splice = Splice(a: Region, y: Node, x: Node, q: Node) {

    ghost function Edit(): map<Node, seq<Node>> {
      map[y := []]
    }

    ghost function After(): Region {
      a.(nodes := a.nodes - {y})
    }

    ghost predicate Before()
      reads y, q, a.root
    {
      && y in a.nodes && q == y.parent && (q == a.root || q in a.nodes) && q != y && x != y && x != q
      && (y.left == a.nil || y.right == a.nil)
      && x == (if y.left == a.nil then y.right else y.left)
      && (x == a.nil || x in a.nodes)
      && (q.left == y || q.right == y) && (q == a.root ==> q.left == y) && (q.left == y ==> q.right != y)
    }

    lemma Start()
      requires a.Shape() && y in a.nodes && q == y.parent && (y.left == a.nil || y.right == a.nil)
      requires x == (if y.left == a.nil then y.right else y.left)
      ensures Before()
    {
      a.Around(y);
    }

    twostate predicate Unlinked()
      reads a.nodes, a.root, x
    {
      && (forall n {:trigger n.left} :: n in a.nodes && n != y ==>
          n.left == if n == q && old(q.left) == y then x else old(n.left))
      && (forall n {:trigger n.right} :: n in a.nodes && n != y ==>
          n.right == if n == q && old(q.left) != y then x else old(n.right))
      && (forall n {:trigger n.parent} :: n in a.nodes && n != y ==> n.parent == if n == x then q else old(n.parent))
      && x.parent == q
      && a.root.left == if q == a.root then x else old(a.root.left)
    }

    twostate predicate Delisted()
      reads a.nodes`elems
    {
      forall n {:trigger n.elems} :: n in a.nodes && n != y ==> n.elems == Subst(old(n.elems), Edit())
    }

    twostate lemma Links()
      requires old(a.Shape()) && old(Before()) && Unlinked() && a.Sentinels()
      ensures After().LinksAll() && Hangs(After(), x)
    {
      assert old(a.Linked(y));
      assert x != a.nil ==> old(a.Linked(x));
      forall n | n in After().nodes ensures After().Linked(n) {
        assert old(a.Linked(n));
        if n == q {} else if n == x {} else {}
      }
    }

    twostate lemma ListOf(n: Node)
      requires old(a.Shape()) && old(a.Covered()) && old(Before()) && Unlinked() && Delisted() && a.Sentinels()
      requires n in a.nodes && n != y
      ensures After().Listed(n)
    {
      assert old(a.Linked(n)) && old(a.Listed(n)) && old(a.Listed(y)) && old(a.Linked(y));
      SubstNode(old(n.left.elems), n, old(n.right.elems), Edit());
      SubstNode(old(y.left.elems), y, old(y.right.elems), Edit());
      assert Subst(old(y.elems), Edit()) == Subst(old(x.elems), Edit());
      assert n.left.elems == Subst(old(n.left.elems), Edit());
      assert n.right.elems == Subst(old(n.right.elems), Edit());
    }

    twostate lemma Order()
      requires old(a.Shape()) && old(a.Covered()) && old(Before()) && Unlinked() && Delisted() && a.Sentinels()
      ensures After().Covered() && a.root.left.elems == Without(old(a.root.left.elems), y)
    {
      assert old(a.Linked(y)) && old(a.Listed(y));
      assert y in old(a.root.left.elems);
      if q == a.root {
        SubstNode(old(y.left.elems), y, old(y.right.elems), Edit());
        assert Subst(old(y.elems), Edit()) == Subst(old(x.elems), Edit());
      } else {
        assert old(a.root.left.parent) == a.root;
      }
      CoverShrinks(old(a.root.left.elems), y);
    }

    /** Only ancestors of q, and q itself, may now have a wrong maxHigh. */
    twostate lemma MaxHighs()
      requires old(a.Shape()) && old(Before()) && Unlinked() && old(a.MaxAll())
      requires forall n {:trigger n.maxHigh} :: n in a.nodes ==> n.maxHigh == old(n.maxHigh)
      requires a.nil.maxHigh == old(a.nil.maxHigh)
      ensures forall n {:trigger After().MaxExact(n)} :: n in After().nodes && n != q ==> After().MaxExact(n)
    {
      forall n | n in After().nodes && n != q ensures After().MaxExact(n) {
        assert old(a.Linked(n)) && old(a.MaxExact(n));
      }
    }

    /** Taking out a red node does no harm; taking out a black one leaves a deficit at x. */
    twostate lemma Colours()
      requires old(a.Shape()) && old(Before()) && Unlinked() && old(Sound(a)) && a.Sentinels()
      requires forall n {:trigger n.red} {:trigger n.blackHeight} :: n in a.nodes ==>
        n.red == old(n.red) && n.blackHeight == old(n.blackHeight)
      ensures if old(y.red) then Sound(After()) else Deficit(After(), x)
    {
      assert old(a.Linked(y)) && old(a.Balanced(y)) && old(a.RedOk(y));
      assert q != a.root ==> old(a.Linked(q)) && old(a.Balanced(q));
      assert x != a.nil ==> old(a.Linked(x));
      if old(y.red) {
        forall n | n in After().nodes ensures After().Balanced(n) && After().RedOk(n) {
          assert old(a.Linked(n)) && old(a.Balanced(n)) && old(a.RedOk(n));
        }
      } else {
        forall n | n in After().nodes ensures BalancedButFor(After(), n, x) && (n != x ==> After().RedOkExcept(n, x)) {
          assert old(a.Linked(n)) && old(a.Balanced(n)) && old(a.RedOk(n));
        }
      }
    }

    twostate lemma Done()
      requires old(a.Shape()) && old(a.Covered()) && old(a.MaxAll()) && old(Sound(a))
      requires old(Before()) && Unlinked() && Delisted() && a.Sentinels()
      requires forall n {:trigger n.maxHigh} {:trigger n.red} {:trigger n.blackHeight} :: n in a.nodes ==>
        n.maxHigh == old(n.maxHigh) && n.red == old(n.red) && n.blackHeight == old(n.blackHeight)
      ensures After().Shape() && After().Covered() && Hangs(After(), x)
      ensures a.root.left.elems == Without(old(a.root.left.elems), y)
      ensures forall n {:trigger After().MaxExact(n)} :: n in After().nodes && n != q ==> After().MaxExact(n)
      ensures if old(y.red) then Sound(After()) else Deficit(After(), x)
    {
      Links();
      forall n | n in After().nodes ensures After().Listed(n) { ListOf(n); }
      Order();
      MaxHighs();
      Colours();
      assert x != a.nil && q == a.root ==> a.root.left.parent == a.root;
      assert old(a.Linked(y));
    }

    /** What is left below a node z whose successor y was taken out. */
    twostate lemma KeepsChildren(z: Node)
      requires old(Before()) && Unlinked() && z in a.nodes && z != y
      requires old(z.left != a.nil && z.left != y && z.right != a.nil && (q == z ==> z.right == y))
      ensures z.left != a.nil && (z.right == a.nil <==> x == a.nil && x.parent == z)
    {
    }
  }

  /** y, not in the tree, takes the place of z; x is where a deficit may be, below q. */
  datatype Replacement = Replacement(a: Region, z: Node, y: Node, x: Node, q: Node) {

    ghost function Edit(): map<Node, seq<Node>> {
      map[z := [y]]
    }

    ghost function After(): Region {
      a.(nodes := a.nodes - {z} + {y})
    }

    ghost predicate Before()
      reads z, x`parent, x.parent`left, x.parent`right, a.root`left
    {
      && z in a.nodes && y !in a.nodes && y != a.root && y != a.nil && x != z
      && Hangs(a, x) && q == x.parent && q in z.elems
      && z.left != z && z.right != z && z.parent != z
    }

    twostate predicate Relinked()
      reads a.nodes, a.root, x, y
    {
      && y.left == old(z.left) && y.right == old(z.right) && y.parent == old(z.parent)
      && (forall n {:trigger n.left} :: n in a.nodes && n != z ==>
          n.left == if old(n.left) == z then y else old(n.left))
      && (forall n {:trigger n.right} :: n in a.nodes && n != z ==>
          n.right == if old(n.right) == z then y else old(n.right))
      && (forall n {:trigger n.parent} :: n in a.nodes && n != z ==>
          n.parent == if old(n.parent) == z then y else old(n.parent))
      && x.parent == (if q == z then y else q)
      && a.root.left == if old(a.root.left) == z then y else old(a.root.left)
    }

    twostate predicate Relisted()
      reads a.nodes`elems, y`elems
    {
      && (forall n {:trigger n.elems} :: n in a.nodes && n != z ==> n.elems == Subst(old(n.elems), Edit()))
      && y.elems == Subst(old(z.elems), Edit())
    }

    twostate lemma Links()
      requires old(a.Shape()) && old(Before()) && Relinked() && a.Sentinels()
      ensures After().LinksAll() && Hangs(After(), x)
    {
      assert old(a.Linked(z));
      forall n | n in After().nodes ensures After().Linked(n) {
        if n == y {} else { assert old(a.Linked(n)); }
      }
    }

    twostate lemma ListOf(n: Node)
      requires old(a.Shape()) && old(a.Covered()) && old(Before()) && Relinked() && Relisted() && a.Sentinels()
      requires n in a.nodes && n != z
      ensures After().Listed(n)
    {
      assert old(a.Linked(n)) && old(a.Listed(n));
      SubstNode(old(n.left.elems), n, old(n.right.elems), Edit());
      assert n.left.elems == Subst(old(n.left.elems), Edit());
      assert n.right.elems == Subst(old(n.right.elems), Edit());
    }

    twostate lemma ListOfNew()
      requires old(a.Shape()) && old(a.Covered()) && old(Before()) && Relinked() && Relisted() && a.Sentinels()
      ensures After().Listed(y)
    {
      assert old(a.Linked(z)) && old(a.Listed(z));
      SubstNode(old(z.left.elems), z, old(z.right.elems), Edit());
      assert y.left.elems == Subst(old(z.left.elems), Edit());
      assert y.right.elems == Subst(old(z.right.elems), Edit());
    }

    twostate lemma Order()
      requires old(a.Shape()) && old(a.Covered()) && old(Before()) && Relinked() && Relisted() && a.Sentinels()
      ensures After().Covered() && a.root.left.elems == Subst(old(a.root.left.elems), Edit())
    {
      assert z in old(a.root.left.elems);
      assert forall n :: n in old(a.root.left.elems) ==> n in a.nodes;
      CoverRenamed(old(a.root.left.elems), z, y, Edit());
    }

    /** Only ancestors of the place of x may now have a wrong maxHigh. */
    twostate lemma MaxHighs()
      requires old(a.Shape()) && old(Before()) && Relinked() && Relisted() && a.Sentinels() && After().ListsAll()
      requires old(forall n {:trigger a.MaxExact(n)} :: n in a.nodes && n != q ==> a.MaxExact(n))
      requires forall n {:trigger n.maxHigh} :: n in a.nodes ==> n.maxHigh == old(n.maxHigh)
      requires a.nil.maxHigh == old(a.nil.maxHigh)
      ensures forall n {:trigger After().MaxExact(n)} :: n in After().nodes && x.parent !in n.elems ==>
          After().MaxExact(n)
    {
      Renamed(old(z.elems), q, z, y, Edit());
      forall n | n in After().nodes && x.parent !in n.elems ensures After().MaxExact(n) {
        assert After().Listed(n);
        if n != y { assert old(a.Linked(n)) && old(a.MaxExact(n)); }
      }
    }

    twostate predicate Recoloured()
      reads a.nodes, y
    {
      && y.red == old(z.red) && y.blackHeight == old(z.blackHeight)
      && (forall n {:trigger n.red} {:trigger n.blackHeight} :: n in a.nodes && n != z ==>
            n.red == old(n.red) && n.blackHeight == old(n.blackHeight))
    }

    /** With z's colour, y fits in where z was. */
    twostate lemma StaysSound()
      requires old(a.Shape()) && old(Before()) && Relinked() && a.Sentinels() && Recoloured()
      requires old(Sound(a))
      ensures Sound(After())
    {
      assert old(a.Linked(z));
      forall n | n in After().nodes ensures After().Balanced(n) && After().RedOk(n) {
        var m := if n == y then z else n;
        assert old(a.Linked(m)) && old(a.Balanced(m)) && old(a.RedOk(m));
      }
    }

    twostate lemma StaysDeficit()
      requires old(a.Shape()) && old(Before()) && Relinked() && a.Sentinels() && Recoloured()
      requires old(Deficit(a, x))
      ensures Deficit(After(), x)
    {
      assert old(a.Linked(z));
      forall n | n in After().nodes ensures BalancedButFor(After(), n, x) && (n != x ==> After().RedOkExcept(n, x)) {
        var m := if n == y then z else n;
        assert old(a.Linked(m)) && old(BalancedButFor(a, m, x)) && (m != x ==> old(a.RedOkExcept(m, x)));
      }
      Links();
    }

    twostate lemma Stays()
      requires old(a.Shape()) && old(Before()) && Relinked() && a.Sentinels() && Recoloured()
      ensures old(Sound(a)) ==> Sound(After())
      ensures old(Deficit(a, x)) ==> Deficit(After(), x)
    {
      if old(Sound(a)) { StaysSound(); }
      if old(Deficit(a, x)) { StaysDeficit(); }
    }

    twostate lemma Done()
      requires old(a.Shape()) && old(a.Covered()) && old(Before()) && Relinked() && Relisted() && a.Sentinels()
      requires old(forall n {:trigger a.MaxExact(n)} :: n in a.nodes && n != q ==> a.MaxExact(n))
      requires forall n {:trigger n.maxHigh} :: n in a.nodes ==> n.maxHigh == old(n.maxHigh)
      ensures After().Shape() && After().Covered() && Hangs(After(), x)
      ensures a.root.left.elems == Subst(old(a.root.left.elems), Edit())
      ensures forall n {:trigger After().MaxExact(n)} :: n in After().nodes && x.parent !in n.elems ==>
          After().MaxExact(n)
    {
      Links();
      forall n | n in After().nodes ensures After().Listed(n) {
        if n == y { ListOfNew(); } else { ListOf(n); }
      }
      Order();
      MaxHighs();
      assert old(a.Linked(z));
    }
  }

  lemma WithoutSorted(e: seq<Node>, z: Node)
    requires Sorted(e) && NoDup(e) && z in e
    ensures Sorted(Without(e, z))
  {
    var k :| 0 <= k < |e| && e[k] == z;
    WithoutAt(e, k);
  }

  lemma WithoutAt<T>(e: seq<T>, k: nat)
    requires NoDup(e) && k < |e|
    ensures Without(e, e[k]) == e[..k] + e[k + 1..]
  {
    var f, b := e[..k], e[k + 1..];
    forall i | 0 <= i < |f| ensures f[i] != e[k] { assert e[i] == f[i]; }
    forall i | 0 <= i < |b| ensures b[i] != e[k] { assert e[k + 1 + i] == b[i]; }
    assert e == f + [e[k]] + b;
    WithoutCut(f, e[k], b);
  }

  /** An element that is not taken out stays. */
  lemma {:induction false} Kept(s: seq<Node>, e: Node, y: Node)
    requires e in s && e != y
    ensures e in Without(s, y)
  {
    if s[0] != e { Kept(s[1..], e, y); }
  }

  lemma {:induction false} Renamed(s: seq<Node>, e: Node, z: Node, y: Node, m: map<Node, seq<Node>>)
    requires e in s && m.Keys == {z} && m[z] == [y]
    ensures (if e == z then y else e) in Subst(s, m)
  {
    if s[0] != e { Renamed(s[1..], e, z, y, m); }
  }

  lemma CoverRenamed(e: seq<Node>, z: Node, y: Node, m: map<Node, seq<Node>>)
    requires NoDup(e) && z in e && y !in e && m.Keys == {z} && m[z] == [y]
    ensures NoDup(Subst(e, m))
    ensures forall n :: n in Subst(e, m) ==> n == y || (n in e && n != z)
    ensures forall n :: n in e && n != z ==> n in Subst(e, m)
    ensures y in Subst(e, m)
  {
    var k :| 0 <= k < |e| && e[k] == z;
    var f, b := e[..k], e[k + 1..];
    assert e == f + [z] + b;
    NoDupAppend(f + [z], b);
    NoDupAppend(f, [z]);
    assert z in [z] && z in f + [z];
    SubstNode(f, z, b, m);
    SubstUntouched(f, m);
    SubstUntouched(b, m);
    assert forall n :: n in f ==> n in f + [z];
    NoDupJoin(f, [y]);
    NoDupJoin(f + [y], b);
  }

  /** Taking out z's successor y and then putting it in z's place takes out z. */
  lemma SuccessorMoves(e: seq<Node>, z: Node, y: Node, k: nat, m: map<Node, seq<Node>>)
    requires NoDup(e) && k + 1 < |e| && e[k] == z && e[k + 1] == y
    requires m.Keys == {z} && m[z] == [y]
    ensures Subst(Without(e, y), m) == Without(e, z)
  {
    var f, b := e[..k], e[k + 2..];
    forall i | 0 <= i < |f| ensures f[i] != z && f[i] != y { assert e[i] == f[i]; }
    forall i | 0 <= i < |b| ensures b[i] != z && b[i] != y { assert e[k + 2 + i] == b[i]; }
    assert e == f + [z] + [y] + b;
    MovesBetween(f, z, y, b, m);
  }

  lemma MovesBetween(f: seq<Node>, z: Node, y: Node, b: seq<Node>, m: map<Node, seq<Node>>)
    requires z !in f && z !in b && y !in f && y !in b && z != y && m.Keys == {z} && m[z] == [y]
    ensures Subst(Without(f + [z] + [y] + b, y), m) == Without(f + [z] + [y] + b, z)
  {
    WithoutCut(f + [z], y, b);
    TakenOut(f, z, y, b);
    SubstNode(f, z, b, m);
    SubstUntouched(f, m);
    SubstUntouched(b, m);
  }

  lemma TakenOut(f: seq<Node>, z: Node, y: Node, b: seq<Node>)
    requires z !in f && z !in b && z != y
    ensures Without(f + [z] + [y] + b, z) == f + [y] + b
  {
    WithoutCut(f, z, [y] + b);
    assert f + [z] + ([y] + b) == f + [z] + [y] + b && f + ([y] + b) == f + [y] + b;
  }

  lemma CoverShrinks(e: seq<Node>, y: Node)
    requires NoDup(e) && y in e
    ensures NoDup(Without(e, y))
    ensures forall n :: n in Without(e, y) ==> n in e && n != y
    ensures forall n :: n in e && n != y ==> n in Without(e, y)
  {
    var k :| 0 <= k < |e| && e[k] == y;
    var f, b := e[..k], e[k + 1..];
    assert e == f + [y] + b;
    NoDupAppend(f + [y], b);
    NoDupAppend(f, [y]);
    WithoutCut(f, y, b);
    assert y in [y] && y in f + [y];
    assert forall n :: n in f ==> n in f + [y];
    NoDupJoin(f, b);
  }
}
