/** Repairing a deficit: the four cases of the deletion fix-up, on either side. */
module IntervalDeleteFixup {
  import opened IntervalNodes
  import opened IntervalRotations
  import opened IntervalDeletion

  /** Blackening a red x fills its deficit; a deficit at the top is none. */
  datatype Fill = Fill(a: Region, x: Node) {

    ghost predicate Before()
      reads a.Footprint(), a.root.left, x, x.parent
    {
      a.Shape() && Deficit(a, x) && (x.red || (a.root.left == x && (x in a.nodes || a.nodes == {})))
    }

    twostate lemma Done()
      requires old(Before()) && a.Sentinels() && a.root.left == old(a.root.left)
      requires forall n {:trigger n.left} {:trigger n.right} :: n in a.nodes ==>
          n.left == old(n.left) && n.right == old(n.right)
      requires forall n {:trigger n.red} :: n in a.nodes ==> n.red == if n == x then false else old(n.red)
      requires forall n {:trigger n.blackHeight} :: n in a.nodes ==>
        n.blackHeight == if n == x && old(x.red) then old(n.blackHeight) + 1 else old(n.blackHeight)
      ensures Sound(a)
    {
      forall n | n in a.nodes ensures a.Balanced(n) && a.RedOk(n) {
        assert old(a.Linked(n)) && old(BalancedButFor(a, n, x)) && (n != x ==> old(a.RedOkExcept(n, x)));
        assert x in a.nodes ==> old(a.Linked(x));
      }
    }
  }

  // ---------- x is the left child of q and its sibling w is q's right child ----------

  ghost predicate SiblingRight(a: Region, x: Node, q: Node, w: Node)
    reads a.Footprint(), a.root.left, x, x.parent, q
  {
    && a.Shape() && Deficit(a, x) && !x.red && q in a.nodes && x.parent == q && q.left == x && q.right == w
  }

  lemma SiblingRightFacts(a: Region, x: Node, q: Node, w: Node)
    requires SiblingRight(a, x, q, w)
    ensures q.parent != q && w in a.nodes && w != x && w != q && w.parent == q &&
        w.blackHeight == x.blackHeight + 1 && q.blackHeight >= 1
    ensures (w.left != x && w.right != x) || x == a.nil
    ensures w.red ==> !q.red && w.left in a.nodes && !w.left.red
    ensures w.left.red ==> w.left in a.nodes
    ensures w.right.red ==> w.right in a.nodes
    ensures !a.root.left.red && |x.elems| < |q.elems|
  {
    a.Around(q);
    assert a.Listed(q);
    assert BalancedButFor(a, q, x) && a.RedOkExcept(q, x);
    a.Around(w);
    assert BalancedButFor(a, w, x) && a.RedOkExcept(w, x);
  }

  /** Red sibling: after recolouring and a left rotation of q the sibling is black. */
  datatype RedSiblingRight = RedSiblingRight(a: Region, x: Node, q: Node, w: Node) {

    ghost predicate Before()
      reads a.Footprint(), a.root.left, x, x.parent, q, w
    {
      SiblingRight(a, x, q, w) && w.red
    }

    twostate lemma Done(turn: LeftTurn)
      requires old(Before()) && turn.a == a && turn.x == q && turn.y == w
      requires old(turn.Before()) && turn.Relinked() && a.Sentinels()
      requires x.parent == q && x.red == old(x.red)
      requires forall n {:trigger n.red} :: n in a.nodes ==>
        n.red == if n == w then false else if n == q then true else old(n.red)
      requires forall n {:trigger n.blackHeight} :: n in a.nodes ==>
        n.blackHeight == if n == w then old(q.blackHeight) else if n == q then old(w.blackHeight)
            else old(n.blackHeight)
      ensures Deficit(a, x) && q.left == x && q.red && q.right == old(w.left) && !q.right.red
      ensures a.root.left == if old(a.root.left) == q then w else old(a.root.left)
    {
      assert old(a.Linked(q)) && old(a.Linked(w));
      assert old(BalancedButFor(a, q, x)) && old(BalancedButFor(a, w, x));
      assert old(a.RedOkExcept(q, x)) && old(a.RedOkExcept(w, x));
      forall n | n in a.nodes ensures BalancedButFor(a, n, x) && (n != x ==> a.RedOkExcept(n, x)) {
        assert old(a.Linked(n)) && old(BalancedButFor(a, n, x)) && (n != x ==> old(a.RedOkExcept(n, x)));
        if n == q {} else if n == w {} else if n == turn.p {} else {}
      }
    }
  }

  /** Black sibling with black children: it turns red, and the deficit moves up to q. */
  datatype BlackNephewsRight = BlackNephewsRight(a: Region, x: Node, q: Node, w: Node) {

    ghost predicate Before()
      reads a.Footprint(), a.root.left, x, x.parent, q, w, w.left, w.right
    {
      SiblingRight(a, x, q, w) && !w.red && !w.left.red && !w.right.red && q.parent != q && w != q && w in a.nodes
    }

    twostate lemma Done()
      requires old(Before()) && a.Sentinels() && a.root.left == old(a.root.left)
      requires forall n {:trigger n.left} {:trigger n.right} {:trigger n.parent} :: n in a.nodes ==>
        n.left == old(n.left) && n.right == old(n.right) && n.parent == old(n.parent)
      requires forall n {:trigger n.red} :: n in a.nodes ==> n.red == if n == w then true else old(n.red)
      requires forall n {:trigger n.blackHeight} :: n in a.nodes ==>
        n.blackHeight == if n == w || n == q then old(n.blackHeight) - 1 else old(n.blackHeight)
      ensures Deficit(a, q)
    {
      assert old(a.Linked(q)) && old(a.Linked(w));
      assert old(BalancedButFor(a, q, x)) && old(BalancedButFor(a, w, x));
      forall n | n in a.nodes ensures BalancedButFor(a, n, q) && (n != q ==> a.RedOkExcept(n, q)) {
        assert old(a.Linked(n)) && old(BalancedButFor(a, n, x)) && (n != x ==> old(a.RedOkExcept(n, x)));
        if n == q {} else if n == w {} else if n == q.parent {} else {}
      }
      assert a.root.left != w;
    }
  }

  /**
   Black sibling whose inner child l is red and outer child black: a right rotation of w makes the outer child red.
   */
  datatype InnerNephewRight = InnerNephewRight(a: Region, x: Node, q: Node, w: Node, l: Node) {

    ghost predicate Before()
      reads a.Footprint(), a.root.left, x, x.parent, q, w, w.left, w.right
    {
      SiblingRight(a, x, q, w) && !w.red && !w.right.red && l == w.left && l.red
    }

    twostate lemma Done(turn: RightTurn)
      requires old(Before()) && turn.a == a && turn.x == w && turn.y == l && turn.p == q
      requires old(turn.Before()) && turn.Relinked() && a.Sentinels()
      requires x.parent == q && x.red == old(x.red)
      requires forall n {:trigger n.red} :: n in a.nodes ==>
        n.red == if n == l then false else if n == w then true else old(n.red)
      requires forall n {:trigger n.blackHeight} :: n in a.nodes ==>
        n.blackHeight == if n == l then old(w.blackHeight) else if n == w then old(l.blackHeight)
            else old(n.blackHeight)
      ensures Deficit(a, x) && q.left == x && q.right == l && !l.red && l.right == w && w.red
      ensures a.root.left == old(a.root.left)
    {
      assert old(a.Linked(q)) && old(a.Linked(w)) && old(a.Linked(l));
      assert old(BalancedButFor(a, q, x)) && old(BalancedButFor(a, w, x)) && old(BalancedButFor(a, l, x));
      assert old(a.RedOkExcept(l, x));
      forall n | n in a.nodes ensures BalancedButFor(a, n, x) && (n != x ==> a.RedOkExcept(n, x)) {
        assert old(a.Linked(n)) && old(BalancedButFor(a, n, x)) && (n != x ==> old(a.RedOkExcept(n, x)));
        if n == q {} else if n == w {} else if n == l {} else {}
      }
    }
  }

  /** Black sibling whose outer child r is red: recolouring and a left rotation of q fill the deficit. */
  datatype OuterNephewRight = OuterNephewRight(a: Region, x: Node, q: Node, w: Node, r: Node) {

    ghost predicate Before()
      reads a.Footprint(), a.root.left, x, x.parent, q, w, w.right
    {
      SiblingRight(a, x, q, w) && !w.red && r == w.right && r.red
    }

    twostate lemma Done(turn: LeftTurn)
      requires old(Before()) && turn.a == a && turn.x == q && turn.y == w
      requires old(turn.Before()) && turn.Relinked() && a.Sentinels()
      requires forall n {:trigger n.red} :: n in a.nodes ==>
        n.red == if n == w then old(q.red) else if n == q || n == r then false else old(n.red)
      requires forall n {:trigger n.blackHeight} :: n in a.nodes ==>
        n.blackHeight == if n == w then old(q.blackHeight) else if n == q then old(w.blackHeight)
                         else if n == r then old(r.blackHeight) + 1 else old(n.blackHeight)
      ensures Sound(a) && !q.red
      ensures a.root.left == if old(a.root.left) == q then w else old(a.root.left)
    {
      assert old(a.Linked(q)) && old(a.Linked(w)) && old(a.Linked(r));
      assert old(BalancedButFor(a, q, x)) && old(BalancedButFor(a, w, x)) && old(BalancedButFor(a, r, x));
      forall n | n in a.nodes ensures a.Balanced(n) && a.RedOk(n) {
        assert old(a.Linked(n)) && old(BalancedButFor(a, n, x)) && (n != x ==> old(a.RedOkExcept(n, x)));
        if n == q {} else if n == w {} else if n == r {} else if n == turn.p {} else {}
      }
    }
  }

  // ---------- x is the right child of q and its sibling w is q's left child ----------

  ghost predicate SiblingLeft(a: Region, x: Node, q: Node, w: Node)
    reads a.Footprint(), a.root.left, x, x.parent, q
  {
    && a.Shape() && Deficit(a, x) && !x.red && q in a.nodes && x.parent == q && q.right == x && q.left == w
  }

  lemma SiblingLeftFacts(a: Region, x: Node, q: Node, w: Node)
    requires SiblingLeft(a, x, q, w)
    ensures q.parent != q && w in a.nodes && w != x && w != q && w.parent == q &&
        w.blackHeight == x.blackHeight + 1 && q.blackHeight >= 1
    ensures (w.right != x && w.left != x) || x == a.nil
    ensures w.red ==> !q.red && w.right in a.nodes && !w.right.red
    ensures w.right.red ==> w.right in a.nodes
    ensures w.left.red ==> w.left in a.nodes
    ensures !a.root.left.red && |x.elems| < |q.elems|
  {
    a.Around(q);
    assert a.Listed(q);
    assert BalancedButFor(a, q, x) && a.RedOkExcept(q, x);
    a.Around(w);
    assert BalancedButFor(a, w, x) && a.RedOkExcept(w, x);
  }

  /** Red sibling: after recolouring and a right rotation of q the sibling is black. */
  datatype RedSiblingLeft = RedSiblingLeft(a: Region, x: Node, q: Node, w: Node) {

    ghost predicate Before()
      reads a.Footprint(), a.root.left, x, x.parent, q, w
    {
      SiblingLeft(a, x, q, w) && w.red
    }

    twostate lemma Done(turn: RightTurn)
      requires old(Before()) && turn.a == a && turn.x == q && turn.y == w
      requires old(turn.Before()) && turn.Relinked() && a.Sentinels()
      requires x.parent == q && x.red == old(x.red)
      requires forall n {:trigger n.red} :: n in a.nodes ==>
        n.red == if n == w then false else if n == q then true else old(n.red)
      requires forall n {:trigger n.blackHeight} :: n in a.nodes ==>
        n.blackHeight == if n == w then old(q.blackHeight) else if n == q then old(w.blackHeight)
            else old(n.blackHeight)
      ensures Deficit(a, x) && q.right == x && q.red && q.left == old(w.right) && !q.left.red
      ensures a.root.left == if old(a.root.left) == q then w else old(a.root.left)
    {
      assert old(a.Linked(q)) && old(a.Linked(w));
      assert old(BalancedButFor(a, q, x)) && old(BalancedButFor(a, w, x));
      assert old(a.RedOkExcept(q, x)) && old(a.RedOkExcept(w, x));
      forall n | n in a.nodes ensures BalancedButFor(a, n, x) && (n != x ==> a.RedOkExcept(n, x)) {
        assert old(a.Linked(n)) && old(BalancedButFor(a, n, x)) && (n != x ==> old(a.RedOkExcept(n, x)));
        if n == q {} else if n == w {} else if n == turn.p {} else {}
      }
    }
  }

  /** Black sibling with black children: it turns red, and the deficit moves up to q. */
  datatype BlackNephewsLeft = BlackNephewsLeft(a: Region, x: Node, q: Node, w: Node) {

    ghost predicate Before()
      reads a.Footprint(), a.root.left, x, x.parent, q, w, w.right, w.left
    {
      SiblingLeft(a, x, q, w) && !w.red && !w.right.red && !w.left.red && q.parent != q && w != q && w in a.nodes
    }

    twostate lemma Done()
      requires old(Before()) && a.Sentinels() && a.root.left == old(a.root.left)
      requires forall n {:trigger n.right} {:trigger n.left} {:trigger n.parent} :: n in a.nodes ==>
        n.right == old(n.right) && n.left == old(n.left) && n.parent == old(n.parent)
      requires forall n {:trigger n.red} :: n in a.nodes ==> n.red == if n == w then true else old(n.red)
      requires forall n {:trigger n.blackHeight} :: n in a.nodes ==>
        n.blackHeight == if n == w || n == q then old(n.blackHeight) - 1 else old(n.blackHeight)
      ensures Deficit(a, q)
    {
      assert old(a.Linked(q)) && old(a.Linked(w));
      assert old(BalancedButFor(a, q, x)) && old(BalancedButFor(a, w, x));
      forall n | n in a.nodes ensures BalancedButFor(a, n, q) && (n != q ==> a.RedOkExcept(n, q)) {
        assert old(a.Linked(n)) && old(BalancedButFor(a, n, x)) && (n != x ==> old(a.RedOkExcept(n, x)));
        if n == q {} else if n == w {} else if n == q.parent {} else {}
      }
      assert a.root.left != w;
    }
  }

  /** Black sibling whose inner child l is red and outer child black: a left rotation of w makes the outer child red. */
  datatype InnerNephewLeft = InnerNephewLeft(a: Region, x: Node, q: Node, w: Node, l: Node) {

    ghost predicate Before()
      reads a.Footprint(), a.root.left, x, x.parent, q, w, w.right, w.left
    {
      SiblingLeft(a, x, q, w) && !w.red && !w.left.red && l == w.right && l.red
    }

    twostate lemma Done(turn: LeftTurn)
      requires old(Before()) && turn.a == a && turn.x == w && turn.y == l && turn.p == q
      requires old(turn.Before()) && turn.Relinked() && a.Sentinels()
      requires x.parent == q && x.red == old(x.red)
      requires forall n {:trigger n.red} :: n in a.nodes ==>
        n.red == if n == l then false else if n == w then true else old(n.red)
      requires forall n {:trigger n.blackHeight} :: n in a.nodes ==>
        n.blackHeight == if n == l then old(w.blackHeight) else if n == w then old(l.blackHeight)
            else old(n.blackHeight)
      ensures Deficit(a, x) && q.right == x && q.left == l && !l.red && l.left == w && w.red
      ensures a.root.left == old(a.root.left)
    {
      assert old(a.Linked(q)) && old(a.Linked(w)) && old(a.Linked(l));
      assert old(BalancedButFor(a, q, x)) && old(BalancedButFor(a, w, x)) && old(BalancedButFor(a, l, x));
      assert old(a.RedOkExcept(l, x));
      forall n | n in a.nodes ensures BalancedButFor(a, n, x) && (n != x ==> a.RedOkExcept(n, x)) {
        assert old(a.Linked(n)) && old(BalancedButFor(a, n, x)) && (n != x ==> old(a.RedOkExcept(n, x)));
        if n == q {} else if n == w {} else if n == l {} else {}
      }
    }
  }

  /** Black sibling whose outer child r is red: recolouring and a right rotation of q fill the deficit. */
  datatype OuterNephewLeft = OuterNephewLeft(a: Region, x: Node, q: Node, w: Node, r: Node) {

    ghost predicate Before()
      reads a.Footprint(), a.root.left, x, x.parent, q, w, w.left
    {
      SiblingLeft(a, x, q, w) && !w.red && r == w.left && r.red
    }

    twostate lemma Done(turn: RightTurn)
      requires old(Before()) && turn.a == a && turn.x == q && turn.y == w
      requires old(turn.Before()) && turn.Relinked() && a.Sentinels()
      requires forall n {:trigger n.red} :: n in a.nodes ==>
        n.red == if n == w then old(q.red) else if n == q || n == r then false else old(n.red)
      requires forall n {:trigger n.blackHeight} :: n in a.nodes ==>
        n.blackHeight == if n == w then old(q.blackHeight) else if n == q then old(w.blackHeight)
                         else if n == r then old(r.blackHeight) + 1 else old(n.blackHeight)
      ensures Sound(a) && !q.red
      ensures a.root.left == if old(a.root.left) == q then w else old(a.root.left)
    {
      assert old(a.Linked(q)) && old(a.Linked(w)) && old(a.Linked(r));
      assert old(BalancedButFor(a, q, x)) && old(BalancedButFor(a, w, x)) && old(BalancedButFor(a, r, x));
      forall n | n in a.nodes ensures a.Balanced(n) && a.RedOk(n) {
        assert old(a.Linked(n)) && old(BalancedButFor(a, n, x)) && (n != x ==> old(a.RedOkExcept(n, x)));
        if n == q {} else if n == w {} else if n == r {} else if n == turn.p {} else {}
      }
    }
  }
}
