/** What leftRotate and rightRotate do to the links, and why the tree conditions survive. */
module IntervalRotations {
  import opened IntervalNodes

  /** x's right child y takes x's place under p, x becomes y's left child and y's left child b moves under x. */
  datatype LeftTurn = LeftTurn(a: Region, x: Node, y: Node, b: Node, p: Node) {

    ghost predicate Apart() {
      && x in a.nodes && y in a.nodes && (b == a.nil || b in a.nodes) && (p == a.root || p in a.nodes)
      && x != y && b != x && b != y && p != x && p != y && b != p
    }

    ghost predicate Before()
      reads x, y, p, a.root
    {
      && Apart() && x.right == y && y.left == b && x.parent == p
      && x.left != x && x.left != y && y.right != x && y.right != y
      && (p == a.root ==> a.root.left == x) && (p.left == x || p.right == x)
    }

    lemma Start()
      requires a.Shape() && x in a.nodes && x.right != a.nil
      requires x.right == y && y.left == b && x.parent == p
      ensures Before()
    {
      a.Around(x);
      a.Around(y);
      if b != a.nil { a.Around(b); }
      assert p in a.nodes ==> a.Listed(p);
    }

    twostate predicate Relinked()
      reads a.nodes, a.root
    {
      && (forall n {:trigger n.left} :: n in a.nodes ==>
            n.left == if n == y then x else if n == p && old(p.left) == x then y else old(n.left))
      && (forall n {:trigger n.right} :: n in a.nodes ==>
            n.right == if n == x then b else if n == p && old(p.left) != x then y else old(n.right))
      && (forall n {:trigger n.parent} :: n in a.nodes ==>
            n.parent == if n == x then y else if n == y then p else if n == b then x else old(n.parent))
      && a.root.left == if p == a.root then y else old(a.root.left)
    }

    twostate lemma Links()
      requires old(Before()) && old(a.Sentinels()) && old(a.LinksAll()) && Relinked()
      ensures a.LinksAll()
    {
      assert old(a.Linked(x)) && old(a.Linked(y));
      assert b != a.nil ==> old(a.Linked(b));
      assert p != a.root ==> old(a.Linked(p));
      forall n | n in a.nodes ensures a.Linked(n) {
        assert old(a.Linked(n));
        if n == x {} else if n == y {} else if n == b {} else if n == p {} else {}
      }
    }

    twostate lemma Lists()
      requires old(Before()) && old(a.Sentinels()) && old(a.LinksAll()) && old(a.ListsAll()) && Relinked()
      requires a.Listed(x) && a.Listed(y) && a.nil.elems == []
      requires forall n {:trigger n.elems} :: n in a.nodes && n != x && n != y ==> n.elems == old(n.elems)
      ensures y.elems == old(x.elems)
      ensures a.ListsAll()
    {
      assert old(a.Linked(x)) && old(a.Linked(y));
      assert old(a.Listed(x)) && old(a.Listed(y));
      assert y.elems == old(x.elems);
      forall n | n in a.nodes ensures a.Listed(n) {
        assert old(a.Linked(n)) && old(a.Listed(n));
        if n == x {} else if n == y {} else if n == p {} else {}
      }
    }

    twostate lemma MaxHighs()
      requires old(Before()) && old(a.Sentinels()) && old(a.LinksAll()) && old(a.MaxAll()) && Relinked()
      requires a.MaxExact(x) && a.MaxExact(y) && a.nil.maxHigh == -MAX_TIME
      requires forall n {:trigger n.maxHigh} :: n in a.nodes && n != x && n != y ==> n.maxHigh == old(n.maxHigh)
      ensures a.MaxAll()
    {
      assert old(a.Linked(x)) && old(a.Linked(y));
      assert old(a.MaxExact(x)) && old(a.MaxExact(y));
      assert y.maxHigh == old(x.maxHigh);
      forall n | n in a.nodes ensures a.MaxExact(n) {
        assert old(a.Linked(n)) && old(a.MaxExact(n));
        if n == x {} else if n == y {} else if n == p {} else {}
      }
    }

    twostate lemma Done()
      requires old(a.Shape()) && old(a.MaxAll()) && old(Before())
      requires Relinked() && a.Sentinels()
      requires a.Listed(x) && a.Listed(y) && a.MaxExact(x) && a.MaxExact(y)
      requires forall n {:trigger n.elems} :: n in a.nodes && n != x && n != y ==> n.elems == old(n.elems)
      requires forall n {:trigger n.maxHigh} :: n in a.nodes && n != x && n != y ==> n.maxHigh == old(n.maxHigh)
      ensures a.Shape() && a.MaxAll()
      ensures y.elems == old(x.elems) && a.root.left.elems == old(a.root.left.elems)
    {
      assert old(a.Linked(x)) && old(a.Linked(y));
      Links();
      Lists();
      MaxHighs();
      assert p != a.root ==> a.Linked(p);
      assert a.Linked(y);
    }
  }

  /** x's left child y takes x's place under p, x becomes y's right child and y's right child b moves under x. */
  datatype RightTurn = RightTurn(a: Region, x: Node, y: Node, b: Node, p: Node) {

    ghost predicate Apart() {
      && x in a.nodes && y in a.nodes && (b == a.nil || b in a.nodes) && (p == a.root || p in a.nodes)
      && x != y && b != x && b != y && p != x && p != y && b != p
    }

    ghost predicate Before()
      reads x, y, p, a.root
    {
      && Apart() && x.left == y && y.right == b && x.parent == p
      && x.right != x && x.right != y && y.left != x && y.left != y
      && (p == a.root ==> a.root.left == x) && (p.left == x || p.right == x)
    }

    lemma Start()
      requires a.Shape() && x in a.nodes && x.left != a.nil
      requires x.left == y && y.right == b && x.parent == p
      ensures Before()
    {
      a.Around(x);
      a.Around(y);
      if b != a.nil { a.Around(b); }
      assert p in a.nodes ==> a.Listed(p);
    }

    twostate predicate Relinked()
      reads a.nodes, a.root
    {
      && (forall n {:trigger n.right} :: n in a.nodes ==>
            n.right == if n == y then x else if n == p && old(p.left) != x then y else old(n.right))
      && (forall n {:trigger n.left} :: n in a.nodes ==>
            n.left == if n == x then b else if n == p && old(p.left) == x then y else old(n.left))
      && (forall n {:trigger n.parent} :: n in a.nodes ==>
            n.parent == if n == x then y else if n == y then p else if n == b then x else old(n.parent))
      && a.root.left == if p == a.root then y else old(a.root.left)
    }

    twostate lemma Links()
      requires old(Before()) && old(a.Sentinels()) && old(a.LinksAll()) && Relinked()
      ensures a.LinksAll()
    {
      assert old(a.Linked(x)) && old(a.Linked(y));
      assert b != a.nil ==> old(a.Linked(b));
      assert p != a.root ==> old(a.Linked(p));
      forall n | n in a.nodes ensures a.Linked(n) {
        assert old(a.Linked(n));
        if n == x {} else if n == y {} else if n == b {} else if n == p {} else {}
      }
    }

    twostate lemma Lists()
      requires old(Before()) && old(a.Sentinels()) && old(a.LinksAll()) && old(a.ListsAll()) && Relinked()
      requires a.Listed(x) && a.Listed(y) && a.nil.elems == []
      requires forall n {:trigger n.elems} :: n in a.nodes && n != x && n != y ==> n.elems == old(n.elems)
      ensures y.elems == old(x.elems)
      ensures a.ListsAll()
    {
      assert old(a.Linked(x)) && old(a.Linked(y));
      assert old(a.Listed(x)) && old(a.Listed(y));
      assert y.elems == old(x.elems);
      forall n | n in a.nodes ensures a.Listed(n) {
        assert old(a.Linked(n)) && old(a.Listed(n));
        if n == x {} else if n == y {} else if n == p {} else {}
      }
    }

    twostate lemma MaxHighs()
      requires old(Before()) && old(a.Sentinels()) && old(a.LinksAll()) && old(a.MaxAll()) && Relinked()
      requires a.MaxExact(x) && a.MaxExact(y) && a.nil.maxHigh == -MAX_TIME
      requires forall n {:trigger n.maxHigh} :: n in a.nodes && n != x && n != y ==> n.maxHigh == old(n.maxHigh)
      ensures a.MaxAll()
    {
      assert old(a.Linked(x)) && old(a.Linked(y));
      assert old(a.MaxExact(x)) && old(a.MaxExact(y));
      assert y.maxHigh == old(x.maxHigh);
      forall n | n in a.nodes ensures a.MaxExact(n) {
        assert old(a.Linked(n)) && old(a.MaxExact(n));
        if n == x {} else if n == y {} else if n == p {} else {}
      }
    }

    twostate lemma Done()
      requires old(a.Shape()) && old(a.MaxAll()) && old(Before())
      requires Relinked() && a.Sentinels()
      requires a.Listed(x) && a.Listed(y) && a.MaxExact(x) && a.MaxExact(y)
      requires forall n {:trigger n.elems} :: n in a.nodes && n != x && n != y ==> n.elems == old(n.elems)
      requires forall n {:trigger n.maxHigh} :: n in a.nodes && n != x && n != y ==> n.maxHigh == old(n.maxHigh)
      ensures a.Shape() && a.MaxAll()
      ensures y.elems == old(x.elems) && a.root.left.elems == old(a.root.left.elems)
    {
      assert old(a.Linked(x)) && old(a.Linked(y));
      Links();
      Lists();
      MaxHighs();
      assert p != a.root ==> a.Linked(p);
      assert a.Linked(y);
    }
  }
}
