/** Recolouring and rotating after an insertion: x is red and may have a red parent, nothing else is wrong. */
module IntervalInsertFixup {
  import opened IntervalNodes
  import opened IntervalRotations

  ghost predicate RedHole(a: Region, x: Node)
    reads a.Footprint(), a.root.left, x
  {
    && a.BalancedAll() && x in a.nodes && x.red && a.RedAllExcept(x)
    && (a.root.left.red ==> a.root.left == x)
  }

  /** The repair is over. */
  ghost predicate Settled(a: Region, x: Node)
    reads a.Footprint(), a.root.left, x, x.parent
  {
    !x.parent.red && a.BalancedAll() && a.RedAll() && !a.root.left.red
  }

  /** p is x's red parent, g its parent. */
  lemma Grandparent(a: Region, x: Node)
    requires a.Shape() && RedHole(a, x) && x.parent.red
    ensures x.parent in a.nodes && x.parent.parent in a.nodes && !x.parent.parent.red
    ensures x.parent.parent.left == x.parent || x.parent.parent.right == x.parent
    ensures |x.elems| < |x.parent.parent.elems|
  {
    a.Around(x);
    var p := x.parent;
    a.Around(p);
    assert a.Listed(p) && a.Listed(x);
    if p.parent != a.root {
      assert a.RedOkExcept(p.parent, x);
      assert a.Listed(p.parent);
    }
  }

  /** Red parent p, red uncle y: both turn black, the grandparent g turns red and takes over the hole. */
  datatype Recolouring = Recolouring(a: Region, x: Node, p: Node, y: Node, g: Node) {

    ghost predicate Before()
      reads a.Footprint(), a.root.left, x, p, y
    {
      && a.Shape() && RedHole(a, x) && x.parent == p && p.parent == g && p in a.nodes && g in a.nodes
      && p.red && y.red && y in a.nodes && y.parent == g && y != p && !g.red
    }

    twostate predicate Recoloured()
      reads a.nodes
    {
      && (forall n {:trigger n.red} :: n in a.nodes ==>
            n.red == if n == p || n == y then false else if n == g then true else old(n.red))
      && (forall n {:trigger n.blackHeight} :: n in a.nodes ==>
            n.blackHeight == if n == p || n == y then old(n.blackHeight) + 1 else old(n.blackHeight))
      && (forall n {:trigger n.left} {:trigger n.right} :: n in a.nodes ==>
          n.left == old(n.left) && n.right == old(n.right))
    }

    twostate lemma Done()
      requires old(Before()) && Recoloured() && a.Sentinels() && a.root.left == old(a.root.left)
      ensures RedHole(a, g)
    {
      assert old(a.Linked(p)) && old(a.Linked(y)) && old(a.Linked(g));
      assert old(a.Balanced(g));
      forall n | n in a.nodes ensures a.Balanced(n) && a.RedOkExcept(n, g) {
        assert old(a.Linked(n)) && old(a.Balanced(n)) && old(a.RedOkExcept(n, x));
        if n == g {} else if n == p {} else if n == y {} else {
          assert n.left != p && n.left != y && n.right != p && n.right != y;
        }
      }
    }
  }

  /** The new leaf x turns red. */
  datatype NewRed = NewRed(a: Region, x: Node) {

    twostate lemma Done()
      requires a.Shape() && x in a.nodes && x.red && x.left == a.nil && x.right == a.nil && x.blackHeight == 0
      requires old(forall n {:trigger a.Balanced(n)} :: n in a.nodes && n != x ==> a.Balanced(n))
      requires old(forall n {:trigger a.RedOkExcept(n, x)} :: n in a.nodes && n != x ==> a.RedOkExcept(n, x))
      requires forall n {:trigger n.left} {:trigger n.right} :: n in a.nodes ==>
          n.left == old(n.left) && n.right == old(n.right)
      requires forall n {:trigger n.red} :: n in a.nodes && n != x ==> n.red == old(n.red)
      requires forall n {:trigger n.blackHeight} :: n in a.nodes ==> n.blackHeight == old(n.blackHeight)
      requires old(!a.nil.red && a.nil.blackHeight == 0)
      ensures a.BalancedAll() && a.RedAllExcept(x)
    {
      forall n | n in a.nodes ensures a.Balanced(n) && a.RedOkExcept(n, x) {
        a.Around(n);
        if n != x { assert old(a.Balanced(n)) && old(a.RedOkExcept(n, x)); }
      }
    }
  }

  /** Blackening the top node t changes nobody's balance but t's own. */
  datatype TopBlack = TopBlack(a: Region, x: Node, t: Node) {

    ghost predicate Before()
      reads a.Footprint(), a.root.left, x, x.parent
    {
      a.Shape() && t == a.root.left && t in a.nodes && !x.parent.red && (RedHole(a, x) || Settled(a, x))
    }

    twostate lemma Done()
      requires old(Before()) && a.Sentinels()
      requires forall n {:trigger n.left} {:trigger n.right} :: n in a.nodes ==>
          n.left == old(n.left) && n.right == old(n.right)
      requires a.root.left == t
      requires forall n {:trigger n.red} :: n in a.nodes ==> n.red == if n == t then false else old(n.red)
      requires forall n {:trigger n.blackHeight} :: n in a.nodes ==>
        n.blackHeight == if n == t && old(t.red) then old(n.blackHeight) + 1 else old(n.blackHeight)
      ensures a.BalancedAll() && a.RedAll() && !t.red
    {
      forall n | n in a.nodes ensures a.Balanced(n) && a.RedOk(n) {
        assert old(a.Linked(n)) && old(a.Balanced(n));
        assert old(RedHole(a, x)) ==> old(a.RedOkExcept(n, x));
        assert old(Settled(a, x)) ==> old(a.RedOk(n));
      }
    }
  }

  /** Black uncle, p == g.left and x == p.right: the left rotation of p makes p the hole, on the outer side. */
  datatype InnerLeft = InnerLeft(a: Region, x: Node, p: Node, g: Node) {

    ghost predicate Before()
      reads a.Footprint(), a.root.left, x, p, g
    {
      && a.Shape() && RedHole(a, x) && x == p.right && x.parent == p && p.parent == g
      && p in a.nodes && g in a.nodes && g.left == p && p.red && !g.red
    }

    twostate lemma Done(turn: LeftTurn)
      requires old(Before()) && turn.a == a && turn.x == p && turn.y == x && turn.p == g
      requires old(turn.Before()) && turn.Relinked() && a.Sentinels()
      requires forall n {:trigger n.red} :: n in a.nodes ==> n.red == old(n.red)
      requires forall n {:trigger n.blackHeight} :: n in a.nodes ==> n.blackHeight == old(n.blackHeight)
      ensures RedHole(a, p)
      ensures p.parent == x && x.left == p && x.parent == g && g.left == x && g.right == old(g.right)
    {
      assert old(a.Linked(p)) && old(a.Linked(x)) && old(a.Linked(g));
      assert old(a.Balanced(p)) && old(a.Balanced(x));
      assert old(a.RedOkExcept(p, x)) && old(a.RedOkExcept(x, x));
      forall n | n in a.nodes ensures a.Balanced(n) && a.RedOkExcept(n, p) {
        assert old(a.Linked(n)) && old(a.Balanced(n)) && old(a.RedOkExcept(n, x));
        if n == g {} else if n == p {} else if n == x {} else {}
      }
    }
  }

  /** Black uncle, p == g.left and x == p.left: p turns black, g red, and the right rotation of g ends the repair. */
  datatype OuterLeft = OuterLeft(a: Region, x: Node, p: Node, g: Node) {

    ghost predicate Before()
      reads a.Footprint(), a.root.left, x, p, g, g.right
    {
      && a.Shape() && RedHole(a, x) && x == p.left && x.parent == p && p.parent == g
      && p in a.nodes && g in a.nodes && g.left == p && p.red && !g.red && !g.right.red
    }

    twostate lemma Done(turn: RightTurn)
      requires old(Before()) && turn.a == a && turn.x == g && turn.y == p
      requires old(turn.Before()) && turn.Relinked() && a.Sentinels()
      requires forall n {:trigger n.red} :: n in a.nodes ==>
        n.red == if n == p then false else if n == g then true else old(n.red)
      requires forall n {:trigger n.blackHeight} :: n in a.nodes ==>
        n.blackHeight == if n == p then old(g.blackHeight) else if n == g then old(p.blackHeight)
            else old(n.blackHeight)
      ensures a.BalancedAll() && a.RedAll() && !x.parent.red && !a.root.left.red
    {
      assert old(a.Linked(p)) && old(a.Linked(x)) && old(a.Linked(g));
      assert old(a.Balanced(p)) && old(a.Balanced(g)) && old(a.Balanced(x));
      assert old(a.RedOkExcept(p, x));
      forall n | n in a.nodes ensures a.Balanced(n) && a.RedOk(n) {
        assert old(a.Linked(n)) && old(a.Balanced(n)) && old(a.RedOkExcept(n, x));
        if n == g {} else if n == p {} else if n == turn.p {} else {}
      }
      assert old(!a.root.left.red);
    }
  }

  /** Black uncle, p == g.right and x == p.left: the right rotation of p makes p the hole, on the outer side. */
  datatype InnerRight = InnerRight(a: Region, x: Node, p: Node, g: Node) {

    ghost predicate Before()
      reads a.Footprint(), a.root.left, x, p, g
    {
      && a.Shape() && RedHole(a, x) && x == p.left && x.parent == p && p.parent == g
      && p in a.nodes && g in a.nodes && g.right == p && p.red && !g.red
    }

    twostate lemma Done(turn: RightTurn)
      requires old(Before()) && turn.a == a && turn.x == p && turn.y == x && turn.p == g
      requires old(turn.Before()) && turn.Relinked() && a.Sentinels()
      requires forall n {:trigger n.red} :: n in a.nodes ==> n.red == old(n.red)
      requires forall n {:trigger n.blackHeight} :: n in a.nodes ==> n.blackHeight == old(n.blackHeight)
      ensures RedHole(a, p)
      ensures p.parent == x && x.right == p && x.parent == g && g.right == x && g.left == old(g.left)
    {
      assert old(a.Linked(p)) && old(a.Linked(x)) && old(a.Linked(g));
      assert old(a.Balanced(p)) && old(a.Balanced(x));
      assert old(a.RedOkExcept(p, x)) && old(a.RedOkExcept(x, x));
      forall n | n in a.nodes ensures a.Balanced(n) && a.RedOkExcept(n, p) {
        assert old(a.Linked(n)) && old(a.Balanced(n)) && old(a.RedOkExcept(n, x));
        if n == g {} else if n == p {} else if n == x {} else {}
      }
    }
  }

  /** Black uncle, p == g.right and x == p.right: p turns black, g red, and the left rotation of g ends the repair. */
  datatype OuterRight = OuterRight(a: Region, x: Node, p: Node, g: Node) {

    ghost predicate Before()
      reads a.Footprint(), a.root.left, x, p, g, g.left
    {
      && a.Shape() && RedHole(a, x) && x == p.right && x.parent == p && p.parent == g
      && p in a.nodes && g in a.nodes && g.right == p && p.red && !g.red && !g.left.red
    }

    twostate lemma Done(turn: LeftTurn)
      requires old(Before()) && turn.a == a && turn.x == g && turn.y == p
      requires old(turn.Before()) && turn.Relinked() && a.Sentinels()
      requires forall n {:trigger n.red} :: n in a.nodes ==>
        n.red == if n == p then false else if n == g then true else old(n.red)
      requires forall n {:trigger n.blackHeight} :: n in a.nodes ==>
        n.blackHeight == if n == p then old(g.blackHeight) else if n == g then old(p.blackHeight)
            else old(n.blackHeight)
      ensures a.BalancedAll() && a.RedAll() && !x.parent.red && !a.root.left.red
    {
      assert old(a.Linked(p)) && old(a.Linked(x)) && old(a.Linked(g));
      assert old(a.Balanced(p)) && old(a.Balanced(g)) && old(a.Balanced(x));
      assert old(a.RedOkExcept(p, x));
      forall n | n in a.nodes ensures a.Balanced(n) && a.RedOk(n) {
        assert old(a.Linked(n)) && old(a.Balanced(n)) && old(a.RedOkExcept(n, x));
        if n == g {} else if n == p {} else if n == turn.p {} else {}
      }
      assert old(!a.root.left.red);
    }
  }
}
