/** The interval tree: a red-black tree of intervals ordered by low end, with two sentinels. */
module IntervalTreeModel {
  import MachineWords
  import opened IntervalLists
  import opened IntervalNodes
  import opened IntervalRotations
  import opened IntervalInsertion
  import opened IntervalInsertFixup
  import opened IntervalDeletion
  import opened IntervalDeleteFixup
  import opened IntervalQuery

  /** An entry of the query's own stack. */
  datatype RecursionNode = RecursionNode(startNode: Node?, parentIndex: nat, tryRightBranch: bool)

  /** A stack and the levels it stands for. */
  datatype TrackOf = TrackOf(stack: seq<RecursionNode>, levels: seq<Level>)

  class IntervalTree {
    const root: Node
    const nil: Node
    ghost var nodes: set<Node>

    // the stack of the query function; entry 0 is never popped
    var recursionNodeStack: seq<RecursionNode>
    var recursionNodeStackTop: nat
    var currentParent: nat

    ghost function Here(): Region
      reads this`nodes
    {
      Region(root, nil, nodes)
    }

    ghost function InOrder(): seq<Node>
      reads root, root.left
    {
      root.left.elems
    }

    ghost predicate Valid()
      reads this, root, root.left, Here().Footprint()
    {
      ValidTree() && recursionNodeStackTop == 1 <= |recursionNodeStack|
    }

    ghost predicate ValidTree()
      reads this`nodes, root, root.left, Here().Footprint()
    {
      && Here().Shape() && Here().Covered() && Here().MaxAll()
      && Here().BalancedAll() && Here().RedAll() && !root.left.red
      && Sorted(InOrder())
      && (forall n {:trigger n.storedInterval} :: n in nodes ==>
            n.storedInterval != null && n.key == n.storedInterval.low && n.high == n.storedInterval.high)
    }

    constructor ()
      ensures Valid() && InOrder() == [] && nodes == {}
      ensures fresh(root) && fresh(nil)
    {
      nil := new Node.Sentinel(-MAX_TIME);
      root := new Node.Sentinel(MAX_TIME);
      nodes := {};
      recursionNodeStack := [RecursionNode(null, 0, false)];
      recursionNodeStackTop, currentParent := 1, 0;
      new;
      root.parent, root.left, root.right := nil, nil, nil;
    }

    // ---------- rotations ----------

    method RelinkLeft(x: Node) returns (ghost turn: LeftTurn)
      requires Here().Shape() && x in nodes && x.right != nil
      modifies nodes`left, nodes`right, nodes`parent, root`left
      ensures turn == LeftTurn(Here(), x, old(x.right), old(x.right.left), old(x.parent))
      ensures old(turn.Before()) && turn.Relinked() && Here().Sentinels()
    {
      turn := LeftTurn(Here(), x, x.right, x.right.left, x.parent);
      turn.Start();
      var y := x.right;
      x.right := y.left;
      if y.left != nil {
        y.left.parent := x;
      }
      y.parent := x.parent;
      if x == x.parent.left {
        x.parent.left := y;
      } else {
        x.parent.right := y;
      }
      y.left := x;
      x.parent := y;
    }

    method LeftRotate(x: Node) returns (ghost turn: LeftTurn)
      requires Here().Shape() && Here().MaxAll() && x in nodes && x.right != nil
      modifies nodes`left, nodes`right, nodes`parent, root`left, nodes`maxHigh, nodes`elems
      ensures turn == LeftTurn(Here(), x, old(x.right), old(x.right.left), old(x.parent))
      ensures old(turn.Before()) && turn.Relinked()
      ensures Here().Shape() && Here().MaxAll()
      ensures root.left.elems == old(root.left.elems)
      ensures x.elems == x.left.elems + [x] + x.right.elems
      ensures forall n {:trigger n.elems} :: n in nodes && n != x && n != turn.y ==> n.elems == old(n.elems)
    {
      turn := RelinkLeft(x);
      var y := x.parent;
      x.elems := x.left.elems + [x] + x.right.elems;
      y.elems := x.elems + [y] + y.right.elems;
      x.maxHigh := Max(x.left.maxHigh, Max(x.right.maxHigh, x.high));
      y.maxHigh := Max(x.maxHigh, Max(y.right.maxHigh, y.high));
      turn.Done();
    }

    method RelinkRight(x: Node) returns (ghost turn: RightTurn)
      requires Here().Shape() && x in nodes && x.left != nil
      modifies nodes`right, nodes`left, nodes`parent, root`left
      ensures turn == RightTurn(Here(), x, old(x.left), old(x.left.right), old(x.parent))
      ensures old(turn.Before()) && turn.Relinked() && Here().Sentinels()
    {
      turn := RightTurn(Here(), x, x.left, x.left.right, x.parent);
      turn.Start();
      var y := x.left;
      x.left := y.right;
      if y.right != nil {
        y.right.parent := x;
      }
      y.parent := x.parent;
      if x == x.parent.left {
        x.parent.left := y;
      } else {
        x.parent.right := y;
      }
      y.right := x;
      x.parent := y;
    }

    method RightRotate(x: Node) returns (ghost turn: RightTurn)
      requires Here().Shape() && Here().MaxAll() && x in nodes && x.left != nil
      modifies nodes`right, nodes`left, nodes`parent, root`left, nodes`maxHigh, nodes`elems
      ensures turn == RightTurn(Here(), x, old(x.left), old(x.left.right), old(x.parent))
      ensures old(turn.Before()) && turn.Relinked()
      ensures Here().Shape() && Here().MaxAll()
      ensures root.left.elems == old(root.left.elems)
      ensures x.elems == x.left.elems + [x] + x.right.elems
      ensures forall n {:trigger n.elems} :: n in nodes && n != x && n != turn.y ==> n.elems == old(n.elems)
    {
      turn := RelinkRight(x);
      var y := x.parent;
      x.elems := x.left.elems + [x] + x.right.elems;
      y.elems := y.left.elems + [y] + x.elems;
      x.maxHigh := Max(x.left.maxHigh, Max(x.right.maxHigh, x.high));
      y.maxHigh := Max(y.left.maxHigh, Max(x.maxHigh, y.high));
      turn.Done();
    }

    // ---------- insertion ----------

    /** What a search for a key knows when it has come from y to x: the place is between lo and hi of the list e. */
    ghost predicate Searching(e: seq<Node>, y: Node, x: Node, lo: nat, hi: nat, key: SimTime)
      reads this`nodes, root, x, y
    {
      && (x == nil || x in nodes) && (y == root || y in nodes)
      && lo <= hi <= |e| && e[lo..hi] == x.elems && Around(e, lo, hi, key)
      && (y == root ==> x == root.left)
      && (y != root && y.key > key ==> x == y.left && hi < |e| && e[hi] == y)
      && (y != root && y.key <= key ==> x == y.right && 0 < lo && e[lo - 1] == y)
    }

    /** One step of the search. */
    method SearchDown(x: Node, key: SimTime, ghost e: seq<Node>, ghost y: Node, ghost lo: nat, ghost hi: nat)
      returns (x': Node, ghost lo': nat, ghost hi': nat)
      requires Here().Shape() && Sorted(e) && x in nodes && Searching(e, y, x, lo, hi, key)
      ensures Searching(e, x, x', lo', hi', key) && |x'.elems| < |x.elems|
    {
      assert Here().Linked(x) && Here().Listed(x);
      SearchStep(e, lo, hi, x.left.elems, x, x.right.elems, key);
      if x.key > key {
        x', lo', hi' := x.left, lo, lo + |x.left.elems|;
      } else {
        x', lo', hi' := x.right, lo + |x.left.elems| + 1, hi;
      }
    }

    /** Where a search for z's key ends: the node to put it under, and its place in the list. */
    method FindPlace(z: Node) returns (y: Node, ghost lo: nat)
      requires Here().Shape() && Sorted(InOrder())
      ensures Searching(InOrder(), y, nil, lo, lo, z.key)
    {
      ghost var hi: nat := |InOrder()|;
      lo := 0;
      y := root;
      var x := root.left;
      while x != nil
        invariant Searching(InOrder(), y, x, lo, hi, z.key)
        decreases |x.elems|
      {
        var next;
        next, lo, hi := SearchDown(x, z.key, InOrder(), y, lo, hi);
        y := x;
        x := next;
      }
    }

    /** Links z as a leaf at the end of a search by key; keys equal to z's are passed on the right. */
    method HangLeaf(z: Node) returns (ghost grown: Attachment)
      requires Here().Shape() && Here().MaxAll() && Here().BalancedAll() && Here().RedAll()
      requires Here().Covered() && Sorted(InOrder())
      requires z !in nodes && z != root && z != nil
      modifies nodes`left, nodes`right, root`left, z`left, z`right, z`parent
      ensures old(allocated(grown)) && grown.a == Here() && grown.z == z && grown.y == z.parent && z.left == nil &&
          z.right == nil
      ensures z.parent == root ==> nodes == {} && root.left == z
      ensures z.parent != root ==> z.parent in nodes && grown.Hung() && grown.Placed(old(InOrder()))
      ensures z.parent != root ==> old(grown.Before())
      ensures Here().Sentinels()
    {
      ghost var a := Here();
      ghost var e := InOrder();
      z.left, z.right := nil, nil;
      a.Outside();
      var y;
      ghost var lo;
      y, lo := FindPlace(z);
      if y == root { a.Empty(); }
      grown := Attachment(a, y, z, y.key > z.key, e[..lo], e[lo..]);
      z.parent := y;
      if y == root || y.key > z.key {
        y.left := z;
      } else {
        y.right := z;
      }
    }

    method RecursiveInsert(z: Node)
      requires Here().Shape() && Here().MaxAll() && Here().BalancedAll() && Here().RedAll()
      requires Here().Covered() && Sorted(InOrder())
      requires z !in nodes && z != root && z != nil && z.maxHigh == z.high && z.blackHeight == 0
      modifies this`nodes, nodes`left, nodes`right, nodes`elems, root`left, z`left, z`right, z`parent, z`elems
      ensures nodes == old(nodes) + {z}
      ensures Here().Shape() && Here().Covered()
      ensures z.left == nil && z.right == nil
      ensures InOrder() == Inserted(old(InOrder()), z)
      ensures forall n {:trigger Here().MaxExact(n)} :: n in nodes && n != z.parent ==> Here().MaxExact(n)
      ensures forall n {:trigger Here().Balanced(n)} :: n in nodes && n != z ==> Here().Balanced(n)
      ensures forall n {:trigger Here().RedOkExcept(n, z)} :: n in nodes && n != z ==> Here().RedOkExcept(n, z)
      ensures root.left == z || root.left == old(root.left)
    {
      ghost var grown := HangLeaf(z);
      z.elems := [z];
      nodes := nodes + {z};
      if z.parent == root {
        Here().Single(z);
      } else {
        forall n | n in grown.a.nodes { n.elems := Subst(n.elems, grown.Edit()); }
        grown.Done();
      }
    }

    /** Recomputes maxHigh from a node up to the top; only its ancestors may be wrong before. */
    method FixupMaxHigh(from: Node)
      requires Here().Shape() && Here().Covered()
      requires from == root || from in nodes
      requires forall n {:trigger Here().MaxExact(n)} :: n in nodes && from !in n.elems ==> Here().MaxExact(n)
      modifies nodes`maxHigh
      ensures Here().MaxAll()
    {
      var x := from;
      if x != root { Here().SubtreeFacts(x); }
      while x != root
        invariant x == root || x in nodes
        invariant Here().Shape() && Here().Covered()
        invariant x != root ==> |x.elems| <= |InOrder()|
        invariant forall n {:trigger Here().MaxExact(n)} :: n in nodes && x !in n.elems ==> Here().MaxExact(n)
        decreases if x == root then 0 else 1 + |InOrder()| - |x.elems|
      {
        label Before:
        Here().Around(x);
        x.maxHigh := Max(x.high, Max(x.left.maxHigh, x.right.maxHigh));
        Climb(Here(), x).Up@Before();
        x := x.parent;
        if x != root {
          assert Here().Listed(x);
          Here().SubtreeFacts(x);
        }
      }
      forall n | n in nodes ensures Here().MaxExact(n) {
        Here().SubtreeFacts(n);
      }
    }

    /** Red parent and red uncle y: the hole moves up to the grandparent. */
    method Recolour(x: Node, y: Node) returns (g: Node)
      requires Here().Shape() && RedHole(Here(), x) && x.parent.red
      requires y.red && y in nodes && y != x.parent && y.parent == x.parent.parent
      modifies nodes`red, nodes`blackHeight
      ensures g == x.parent.parent && RedHole(Here(), g) && |x.elems| < |g.elems|
    {
      Grandparent(Here(), x);
      ghost var step := Recolouring(Here(), x, x.parent, y, x.parent.parent);
      x.parent.red := false;
      y.red := false;
      x.parent.parent.red := true;
      x.parent.blackHeight := x.parent.blackHeight + 1;
      y.blackHeight := y.blackHeight + 1;
      step.Done();
      g := x.parent.parent;
    }

    method SwapColours(p: Node, g: Node)
      requires p in nodes && g in nodes && p != g
      modifies nodes`red, nodes`blackHeight
      ensures forall n {:trigger n.red} :: n in nodes ==>
        n.red == if n == p then false else if n == g then true else old(n.red)
      ensures forall n {:trigger n.blackHeight} :: n in nodes ==>
        n.blackHeight == if n == p then old(g.blackHeight) else if n == g then old(p.blackHeight)
            else old(n.blackHeight)
      ensures root !in nodes ==> root.red == old(root.red)
      ensures nil !in nodes ==> nil.red == old(nil.red) && nil.blackHeight == old(nil.blackHeight)
    {
      p.red := false;
      g.red := true;
      p.blackHeight, g.blackHeight := g.blackHeight, p.blackHeight;
    }

    /** Black uncle and x on the inner side: rotating the parent p makes p the hole, on the outer side. */
    method LineUpLeft(p: Node)
      requires Here().Shape() && Here().MaxAll() && p in nodes && p.right != nil && RedHole(Here(), p.right)
      requires p.red && p.parent in nodes && p.parent.left == p && !p.parent.red && !p.parent.right.red
      modifies nodes`left, nodes`right, nodes`parent, root`left, nodes`maxHigh, nodes`elems
      ensures Here().Shape() && Here().MaxAll() && RedHole(Here(), p)
      ensures root.left.elems == old(root.left.elems)
      ensures p.parent == old(p.right) && p.parent.left == p && p.parent.parent == old(p.parent)
      ensures p.parent.red && p.parent.parent.left == p.parent && p.parent.parent.right == old(p.parent.right)
    {
      Here().Around(p);
      ghost var step := InnerLeft(Here(), p.right, p, p.parent);
      ghost var turn := LeftRotate(p);
      step.Done(turn);
    }

    /** Black uncle and x on the outer side: recolouring and rotating the grandparent ends the repair. */
    method LiftLeft(x: Node)
      requires Here().Shape() && Here().MaxAll() && RedHole(Here(), x) && x.parent.red
      requires x == x.parent.left && x.parent == x.parent.parent.left && !x.parent.parent.right.red
      modifies nodes`left, nodes`right, nodes`parent, root`left, nodes`maxHigh, nodes`elems, nodes`red,
               nodes`blackHeight
      ensures Here().Shape() && Here().MaxAll() && Here().BalancedAll() && Here().RedAll()
      ensures !root.left.red && !x.parent.red && x.red
      ensures root.left.elems == old(root.left.elems)
    {
      Grandparent(Here(), x);
      Here().Around(x.parent);
      ghost var step := OuterLeft(Here(), x, x.parent, x.parent.parent);
      SwapColours(x.parent, x.parent.parent);
      ghost var turn := RightRotate(x.parent.parent);
      step.Done(turn);
    }

    /** Black uncle and x on the inner side: rotating the parent p makes p the hole, on the outer side. */
    method LineUpRight(p: Node)
      requires Here().Shape() && Here().MaxAll() && p in nodes && p.left != nil && RedHole(Here(), p.left)
      requires p.red && p.parent in nodes && p.parent.right == p && !p.parent.red && !p.parent.left.red
      modifies nodes`right, nodes`left, nodes`parent, root`left, nodes`maxHigh, nodes`elems
      ensures Here().Shape() && Here().MaxAll() && RedHole(Here(), p)
      ensures root.left.elems == old(root.left.elems)
      ensures p.parent == old(p.left) && p.parent.right == p && p.parent.parent == old(p.parent)
      ensures p.parent.red && p.parent.parent.right == p.parent && p.parent.parent.left == old(p.parent.left)
    {
      Here().Around(p);
      ghost var step := InnerRight(Here(), p.left, p, p.parent);
      ghost var turn := RightRotate(p);
      step.Done(turn);
    }

    /** Black uncle and x on the outer side: recolouring and rotating the grandparent ends the repair. */
    method LiftRight(x: Node)
      requires Here().Shape() && Here().MaxAll() && RedHole(Here(), x) && x.parent.red
      requires x == x.parent.right && x.parent == x.parent.parent.right && !x.parent.parent.left.red
      modifies nodes`right, nodes`left, nodes`parent, root`left, nodes`maxHigh, nodes`elems, nodes`red,
               nodes`blackHeight
      ensures Here().Shape() && Here().MaxAll() && Here().BalancedAll() && Here().RedAll()
      ensures !root.left.red && !x.parent.red && x.red
      ensures root.left.elems == old(root.left.elems)
    {
      Grandparent(Here(), x);
      Here().Around(x.parent);
      ghost var step := OuterRight(Here(), x, x.parent, x.parent.parent);
      SwapColours(x.parent, x.parent.parent);
      ghost var turn := LeftRotate(x.parent.parent);
      step.Done(turn);
    }

    /** One round of the loop for a red parent on the left side of the grandparent. */
    method RepairLeft(x: Node) returns (x': Node)
      requires Here().Shape() && Here().MaxAll() && RedHole(Here(), x) && x.parent.red
      requires x.parent == x.parent.parent.left
      modifies nodes`left, nodes`right, nodes`parent, root`left, nodes`maxHigh, nodes`elems, nodes`red,
               nodes`blackHeight
      ensures Here().Shape() && Here().MaxAll() && x' in nodes && x'.red
      ensures root.left.elems == old(root.left.elems)
      ensures (RedHole(Here(), x') && |old(x.elems)| < |x'.elems|) || Settled(Here(), x')
    {
      Grandparent(Here(), x);
      Here().Around(x.parent.parent);
      Here().Around(x);
      x' := x;
      var y := x.parent.parent.right;
      if y.red {
        x' := Recolour(x, y);
      } else {
        if x' == x'.parent.right {
          x' := x'.parent;
          LineUpLeft(x');
        }
        LiftLeft(x');
      }
    }

    /** One round of the loop for a red parent on the right side of the grandparent. */
    method RepairRight(x: Node) returns (x': Node)
      requires Here().Shape() && Here().MaxAll() && RedHole(Here(), x) && x.parent.red
      requires x.parent == x.parent.parent.right
      modifies nodes`right, nodes`left, nodes`parent, root`left, nodes`maxHigh, nodes`elems, nodes`red,
               nodes`blackHeight
      ensures Here().Shape() && Here().MaxAll() && x' in nodes && x'.red
      ensures root.left.elems == old(root.left.elems)
      ensures (RedHole(Here(), x') && |old(x.elems)| < |x'.elems|) || Settled(Here(), x')
    {
      Grandparent(Here(), x);
      Here().Around(x.parent.parent);
      Here().Around(x);
      x' := x;
      var y := x.parent.parent.left;
      if y.red {
        x' := Recolour(x, y);
      } else {
        if x' == x'.parent.left {
          x' := x'.parent;
          LineUpRight(x');
        }
        LiftRight(x');
      }
    }

    method TurnRed(x: Node)
      requires Here().Shape() && x in nodes && x.left == nil && x.right == nil && x.blackHeight == 0
      requires forall n {:trigger Here().Balanced(n)} :: n in nodes && n != x ==> Here().Balanced(n)
      requires forall n {:trigger Here().RedOkExcept(n, x)} :: n in nodes && n != x ==> Here().RedOkExcept(n, x)
      modifies x`red
      ensures x.red && Here().BalancedAll() && Here().RedAllExcept(x)
    {
      ghost var step := NewRed(Here(), x);
      x.red := true;
      step.Done();
    }

    /** Linking the new node and repairing the maxHigh fields leaves only a possible red-red edge at x. */
    lemma LeafLinked(x: Node)
      requires Here().Shape() && x in nodes
      ensures (x.parent == root || x.parent in nodes) && x.parent != x &&
          (x.parent in nodes ==> x.parent in x.parent.elems)
    {
      Here().Around(x);
      if x.parent != root { Here().Around(x.parent); }
    }

    method AddLeaf(x: Node)
      requires Here().Shape() && Here().MaxAll() && Here().BalancedAll() && Here().RedAll() && !root.left.red
      requires Here().Covered() && Sorted(InOrder())
      requires x !in nodes && x != root && x != nil && x.maxHigh == x.high && x.blackHeight == 0 && !x.red
      modifies this`nodes, nodes`left, nodes`right, nodes`elems, nodes`maxHigh, root`left, x
      ensures nodes == old(nodes) + {x}
      ensures Here().Shape() && Here().Covered() && Here().MaxAll() && RedHole(Here(), x)
      ensures InOrder() == Inserted(old(InOrder()), x)
    {
      RecursiveInsert(x);
      LeafLinked(x);
      FixupMaxHigh(x.parent);
      TurnRed(x);
    }

    method BlackenTop(ghost x: Node)
      requires Here().Shape() && Here().MaxAll() && root.left in nodes && !x.parent.red
      requires RedHole(Here(), x) || Settled(Here(), x)
      modifies nodes`red, nodes`blackHeight
      ensures Here().BalancedAll() && Here().RedAll() && !root.left.red
    {
      ghost var step := TopBlack(Here(), x, root.left);
      if root.left.red { root.left.blackHeight := root.left.blackHeight + 1; }
      root.left.red := false;
      step.Done();
    }

    /** Repairs the red-red edge, walking up from x. */
    method RepairUp(from: Node)
      requires Here().Shape() && Here().Covered() && Here().MaxAll() && RedHole(Here(), from)
      modifies nodes`left, nodes`right, nodes`parent, root`left, nodes`maxHigh, nodes`elems, nodes`red,
               nodes`blackHeight
      ensures Here().Shape() && Here().Covered() && Here().MaxAll() && Here().BalancedAll() && Here().RedAll() &&
          !root.left.red
      ensures InOrder() == old(InOrder())
    {
      var x := from;
      while x.parent.red
        invariant x in nodes && x.red
        invariant Here().Shape() && Here().Covered() && Here().MaxAll()
        invariant RedHole(Here(), x) || Settled(Here(), x)
        invariant InOrder() == old(InOrder())
        decreases x.parent.red, |InOrder()| - |x.elems|
      {
        Here().SubtreeFacts(x);
        Grandparent(Here(), x);
        if x.parent == x.parent.parent.left {
          x := RepairLeft(x);
        } else {
          x := RepairRight(x);
        }
        Here().SubtreeFacts(x);
      }
      Here().SubtreeFacts(x);
      BlackenTop(x);
    }

    method Insert(newInterval: Interval) returns (newNode: Node)
      requires Valid()
      modifies this`nodes, nodes, root`left
      ensures Valid() && fresh(newNode) && newNode.storedInterval == newInterval
      ensures nodes == old(nodes) + {newNode}
      ensures InOrder() == Inserted(old(InOrder()), newNode)
    {
      newNode := new Node(newInterval);
      AddLeaf(newNode);
      RepairUp(newNode);
      InsertedSorted(old(InOrder()), newNode);
    }

    // ---------- deletion fix-up ----------

    /** Red sibling w of x: afterwards x has a black sibling. */
    method FixRedSiblingRight(x: Node)
      requires Here().MaxAll() && SiblingRight(Here(), x, x.parent, x.parent.right) && x.parent.right.red
      modifies nodes`left, nodes`right, nodes`parent, root`left, nodes`maxHigh, nodes`elems, nodes`red,
               nodes`blackHeight
      ensures Here().MaxAll() && x.parent == old(x.parent) && SiblingRight(Here(), x, x.parent, x.parent.right)
      ensures x.parent.red && !x.parent.right.red && x.elems == old(x.elems)
      ensures root.left.elems == old(root.left.elems)
      ensures root.left == old(root.left) || x.parent == old(root.left)
    {
      ghost var a, q, w := Here(), x.parent, x.parent.right;
      SiblingRightFacts(a, x, q, w);
      ghost var step := RedSiblingRight(a, x, q, w);
      SwapColours(x.parent.right, x.parent);
      ghost var turn := LeftRotate(x.parent);
      step.Done(turn);
    }

    /** Black sibling with black children: the deficit moves up to x's parent. */
    method FixBlackNephewsRight(x: Node) returns (q: Node)
      requires SiblingRight(Here(), x, x.parent, x.parent.right) && !x.parent.right.red
      requires !x.parent.right.left.red && !x.parent.right.right.red
      modifies nodes`red, nodes`blackHeight
      ensures q == x.parent && Deficit(Here(), q) && q.red == old(x.parent.red)
    {
      q := x.parent;
      var w := x.parent.right;
      SiblingRightFacts(Here(), x, q, w);
      ghost var step := BlackNephewsRight(Here(), x, q, w);
      w.red := true;
      w.blackHeight := w.blackHeight - 1;
      q.blackHeight := q.blackHeight - 1;
      step.Done();
    }

    /** Black sibling, inner child red, outer child black: afterwards the outer child is red. */
    method FixInnerNephewRight(x: Node)
      requires Here().MaxAll() && SiblingRight(Here(), x, x.parent, x.parent.right) && !x.parent.right.red
      requires x.parent.right.left.red && !x.parent.right.right.red
      modifies nodes`left, nodes`right, nodes`parent, root`left, nodes`maxHigh, nodes`elems, nodes`red,
               nodes`blackHeight
      ensures Here().MaxAll() && x.parent == old(x.parent) && SiblingRight(Here(), x, x.parent, x.parent.right)
      ensures !x.parent.right.red && x.parent.right.right.red
      ensures root.left.elems == old(root.left.elems) && root.left == old(root.left)
    {
      ghost var a, q, w := Here(), x.parent, x.parent.right;
      SiblingRightFacts(a, x, q, w);
      ghost var step := InnerNephewRight(a, x, q, w, w.left);
      a.Around(w);
      a.Around(w.left);
      SwapColours(x.parent.right.left, x.parent.right);
      ghost var turn := RightRotate(x.parent.right);
      step.Done(turn);
    }

    /** The colours for the last rotation: w takes q's, q and the outer child r turn black. */
    method PassColours(w: Node, q: Node, r: Node)
      requires w in nodes && q in nodes && r in nodes && w != q && w != r && q != r
      modifies nodes`red, nodes`blackHeight
      ensures forall n {:trigger n.red} :: n in nodes ==>
        n.red == if n == w then old(q.red) else if n == q || n == r then false else old(n.red)
      ensures forall n {:trigger n.blackHeight} :: n in nodes ==>
        n.blackHeight == if n == w then old(q.blackHeight) else if n == q then old(w.blackHeight)
                         else if n == r then old(r.blackHeight) + 1 else old(n.blackHeight)
    {
      w.red := q.red;
      q.red := false;
      r.red := false;
      w.blackHeight, q.blackHeight, r.blackHeight := q.blackHeight, w.blackHeight, r.blackHeight + 1;
    }

    /** Black sibling, outer child red: recolouring and rotating fill the deficit. */
    method FixOuterNephewRight(x: Node)
      requires Here().MaxAll() && SiblingRight(Here(), x, x.parent, x.parent.right) && !x.parent.right.red
      requires x.parent.right.right.red
      modifies nodes`left, nodes`right, nodes`parent, root`left, nodes`maxHigh, nodes`elems, nodes`red,
               nodes`blackHeight
      ensures Here().Shape() && Here().MaxAll() && Sound(Here()) && !old(x.parent).red
      ensures root.left.elems == old(root.left.elems)
      ensures root.left == old(root.left) || old(root.left) == old(x.parent)
    {
      ghost var a, q, w := Here(), x.parent, x.parent.right;
      SiblingRightFacts(a, x, q, w);
      a.Around(w);
      ghost var step := OuterNephewRight(a, x, q, w, w.right);
      PassColours(x.parent.right, x.parent, x.parent.right.right);
      ghost var turn := LeftRotate(x.parent);
      step.Done(turn);
    }

    /** One round of the loop when x is a left child; top is the node that was on top when the loop began. */
    method FillLeft(x: Node, top: Node) returns (x': Node)
      requires Here().MaxAll() && SiblingRight(Here(), x, x.parent, x.parent.right) && top == root.left
      modifies nodes`left, nodes`right, nodes`parent, root`left, nodes`maxHigh, nodes`elems, nodes`red,
               nodes`blackHeight
      ensures Here().Shape() && Here().MaxAll() && root.left.elems == old(root.left.elems)
      ensures (Deficit(Here(), x') && x' in nodes && |x'.elems| > |old(x.elems)| && (x'.red || root.left == top))
           || (Sound(Here()) && x' == top && !top.red)
    {
      SiblingRightFacts(Here(), x, x.parent, x.parent.right);
      var w := x.parent.right;
      if w.red {
        FixRedSiblingRight(x);
        w := x.parent.right;
        SiblingRightFacts(Here(), x, x.parent, w);
      }
      if !w.right.red && !w.left.red {
        x' := FixBlackNephewsRight(x);
      } else {
        if !w.right.red {
          FixInnerNephewRight(x);
          w := x.parent.right;
        }
        FixOuterNephewRight(x);
        x' := top;
      }
    }

    /** Red sibling w of x: afterwards x has a black sibling. */
    method FixRedSiblingLeft(x: Node)
      requires Here().MaxAll() && SiblingLeft(Here(), x, x.parent, x.parent.left) && x.parent.left.red
      modifies nodes`right, nodes`left, nodes`parent, root`left, nodes`maxHigh, nodes`elems, nodes`red,
               nodes`blackHeight
      ensures Here().MaxAll() && x.parent == old(x.parent) && SiblingLeft(Here(), x, x.parent, x.parent.left)
      ensures x.parent.red && !x.parent.left.red && x.elems == old(x.elems)
      ensures root.left.elems == old(root.left.elems)
      ensures root.left == old(root.left) || x.parent == old(root.left)
    {
      ghost var a, q, w := Here(), x.parent, x.parent.left;
      SiblingLeftFacts(a, x, q, w);
      ghost var step := RedSiblingLeft(a, x, q, w);
      SwapColours(x.parent.left, x.parent);
      ghost var turn := RightRotate(x.parent);
      step.Done(turn);
    }

    /** Black sibling with black children: the deficit moves up to x's parent. */
    method FixBlackNephewsLeft(x: Node) returns (q: Node)
      requires SiblingLeft(Here(), x, x.parent, x.parent.left) && !x.parent.left.red
      requires !x.parent.left.right.red && !x.parent.left.left.red
      modifies nodes`red, nodes`blackHeight
      ensures q == x.parent && Deficit(Here(), q) && q.red == old(x.parent.red)
    {
      q := x.parent;
      var w := x.parent.left;
      SiblingLeftFacts(Here(), x, q, w);
      ghost var step := BlackNephewsLeft(Here(), x, q, w);
      w.red := true;
      w.blackHeight := w.blackHeight - 1;
      q.blackHeight := q.blackHeight - 1;
      step.Done();
    }

    /** Black sibling, inner child red, outer child black: afterwards the outer child is red. */
    method FixInnerNephewLeft(x: Node)
      requires Here().MaxAll() && SiblingLeft(Here(), x, x.parent, x.parent.left) && !x.parent.left.red
      requires x.parent.left.right.red && !x.parent.left.left.red
      modifies nodes`right, nodes`left, nodes`parent, root`left, nodes`maxHigh, nodes`elems, nodes`red,
               nodes`blackHeight
      ensures Here().MaxAll() && x.parent == old(x.parent) && SiblingLeft(Here(), x, x.parent, x.parent.left)
      ensures !x.parent.left.red && x.parent.left.left.red
      ensures root.left.elems == old(root.left.elems) && root.left == old(root.left)
    {
      ghost var a, q, w := Here(), x.parent, x.parent.left;
      SiblingLeftFacts(a, x, q, w);
      ghost var step := InnerNephewLeft(a, x, q, w, w.right);
      a.Around(w);
      a.Around(w.right);
      SwapColours(x.parent.left.right, x.parent.left);
      ghost var turn := LeftRotate(x.parent.left);
      step.Done(turn);
    }

    /** Black sibling, outer child red: recolouring and rotating fill the deficit. */
    method FixOuterNephewLeft(x: Node)
      requires Here().MaxAll() && SiblingLeft(Here(), x, x.parent, x.parent.left) && !x.parent.left.red
      requires x.parent.left.left.red
      modifies nodes`right, nodes`left, nodes`parent, root`left, nodes`maxHigh, nodes`elems, nodes`red,
               nodes`blackHeight
      ensures Here().Shape() && Here().MaxAll() && Sound(Here()) && !old(x.parent).red
      ensures root.left.elems == old(root.left.elems)
      ensures root.left == old(root.left) || old(root.left) == old(x.parent)
    {
      ghost var a, q, w := Here(), x.parent, x.parent.left;
      SiblingLeftFacts(a, x, q, w);
      a.Around(w);
      ghost var step := OuterNephewLeft(a, x, q, w, w.left);
      PassColours(x.parent.left, x.parent, x.parent.left.left);
      ghost var turn := RightRotate(x.parent);
      step.Done(turn);
    }

    /** One round of the loop when x is a right child; top is the node that was on top when the loop began. */
    method FillRight(x: Node, top: Node) returns (x': Node)
      requires Here().MaxAll() && SiblingLeft(Here(), x, x.parent, x.parent.left) && top == root.left
      modifies nodes`right, nodes`left, nodes`parent, root`left, nodes`maxHigh, nodes`elems, nodes`red,
               nodes`blackHeight
      ensures Here().Shape() && Here().MaxAll() && root.left.elems == old(root.left.elems)
      ensures (Deficit(Here(), x') && x' in nodes && |x'.elems| > |old(x.elems)| && (x'.red || root.left == top))
           || (Sound(Here()) && x' == top && !top.red)
    {
      SiblingLeftFacts(Here(), x, x.parent, x.parent.left);
      var w := x.parent.left;
      if w.red {
        FixRedSiblingLeft(x);
        w := x.parent.left;
        SiblingLeftFacts(Here(), x, x.parent, w);
      }
      if !w.left.red && !w.right.red {
        x' := FixBlackNephewsLeft(x);
      } else {
        if !w.left.red {
          FixInnerNephewLeft(x);
          w := x.parent.left;
        }
        FixOuterNephewLeft(x);
        x' := top;
      }
    }

    /** Away from the top, x hangs below a node of the tree, on one side. */
    lemma HoleBelow(x: Node, top: Node)
      requires Here().Shape() && Here().Covered() && Deficit(Here(), x) && !x.red && top == root.left && x != top
      ensures x.parent in nodes && |x.elems| <= |InOrder()|
      ensures if x == x.parent.left then SiblingRight(Here(), x, x.parent, x.parent.right)
              else SiblingLeft(Here(), x, x.parent, x.parent.left)
    {
      if x != nil { Here().SubtreeFacts(x); }
    }

    /** The last statement of the fix-up: x turns black. */
    method FinishFill(x: Node, top: Node)
      requires Here().Shape() && Here().Covered() && (x == nil || x in nodes)
      requires (Deficit(Here(), x) && (x.red || (root.left == top && x == top))) ||
               (Sound(Here()) && x == top && !x.red)
      modifies nodes`red, nodes`blackHeight, nil`red
      ensures Here().Sentinels() && Sound(Here())
    {
      ghost var step := Fill(Here(), x);
      if x == nil && root.left == nil { Here().Empty(); }
      if x.red { x.blackHeight := x.blackHeight + 1; }
      x.red := false;
      if old(step.Before()) { step.Done(); }
    }

    /** Fills the deficit at x; the node on top is read once, before any rotation. */
    method DeleteFixup(from: Node)
      requires Here().Shape() && Here().Covered() && Here().MaxAll() && Deficit(Here(), from)
      modifies nodes`left, nodes`right, nodes`parent, root`left, nodes`maxHigh, nodes`elems, nodes`red,
               nodes`blackHeight, nil`red
      ensures Here().Shape() && Here().Covered() && Here().MaxAll() && Sound(Here())
      ensures InOrder() == old(InOrder())
    {
      var x := from;
      var rootLeftNode := root.left;
      while !x.red && rootLeftNode != x
        invariant Here().Shape() && Here().Covered() && Here().MaxAll()
        invariant InOrder() == old(InOrder())
        invariant x == nil || x in nodes
        invariant (Deficit(Here(), x) && (x.red || root.left == rootLeftNode))
               || (Sound(Here()) && x == rootLeftNode && !x.red)
        decreases if rootLeftNode == x then 0 else 1 + |InOrder()| - |x.elems|
      {
        HoleBelow(x, rootLeftNode);
        if x == x.parent.left {
          x := FillLeft(x, rootLeftNode);
        } else {
          x := FillRight(x, rootLeftNode);
        }
      }
      FinishFill(x, rootLeftNode);
    }

    // ---------- deletion ----------

    method GetMinimum(from: Node) returns (x: Node)
      requires Here().Shape() && from in nodes
      ensures x in nodes && x.left == nil && from.elems != [] && from.elems[0] == x
    {
      x := from;
      Here().Around(x);
      while x.left != nil
        invariant x in nodes && x.elems != [] && x.elems[0] == from.elems[0] && Here().Listed(x)
        decreases |x.elems|
      {
        Here().Around(x);
        x := x.left;
        Here().Around(x);
      }
    }

    /** Up from x until a step goes up from a left child. */
    method ClimbFromRight(x: Node) returns (ghost c: Node, y: Node)
      requires Here().Shape() && Here().Covered() && x in nodes && x.right == nil
      ensures c in nodes && y == c.parent && c.elems != [] && c.elems[|c.elems| - 1] == x
      ensures y == root || (y in nodes && c == y.left)
    {
      Here().Around(x);
      Here().SubtreeFacts(x);
      y := x.parent;
      var d := x;
      while y != nil && d == y.right
        invariant d in nodes && y == d.parent && |d.elems| <= |InOrder()|
        invariant d.elems != [] && d.elems[|d.elems| - 1] == x
        decreases |InOrder()| - |d.elems|
      {
        Here().Around(d);
        Here().Around(y);
        d := y;
        y := y.parent;
        Here().SubtreeFacts(d);
      }
      c := d;
      Here().Around(c);
    }

    /** The node that follows x in the list; the root sentinel when x is the last. */
    method GetSuccessor(x: Node) returns (y: Node)
      requires Here().Shape() && Here().Covered() && x in nodes
      ensures forall i {:trigger InOrder()[i]} :: 0 <= i < |InOrder()| && InOrder()[i] == x ==>
        y == if i + 1 < |InOrder()| then InOrder()[i + 1] else root
      ensures x.right != nil ==> y in nodes && y.left == nil && y in x.right.elems
    {
      Here().SubtreeFacts(x);
      Here().Around(x);
      if x.right != nil {
        y := GetMinimum(x.right);
        NextBelow(x, y);
      } else {
        ghost var c;
        c, y := ClimbFromRight(x);
        NextAbove(x, c);
      }
    }

    lemma NextBelow(x: Node, y: Node)
      requires Here().Shape() && Here().Covered() && x in nodes && root.left in nodes && x.right in nodes
      requires x.right.elems != [] && x.right.elems[0] == y
      ensures forall i {:trigger InOrder()[i]} :: 0 <= i < |InOrder()| && InOrder()[i] == x ==>
        i + 1 < |InOrder()| && y == InOrder()[i + 1]
    {
      assert x in InOrder();
      Here().Around(x);
      var a, b := Here().Slice(root.left, x);
      assert x.right.elems == [y] + x.right.elems[1..];
      assert x.left.elems + [x] + x.right.elems == x.left.elems + [x] + [y] + x.right.elems[1..];
      NextInSlice(InOrder(), a, x.elems, b, x.left.elems, x, y, x.right.elems[1..]);
    }

    lemma NextAbove(x: Node, c: Node)
      requires Here().Shape() && Here().Covered() && root.left in nodes
      requires c in nodes && c.elems != [] && c.elems[|c.elems| - 1] == x
      requires c.parent == root || (c.parent in nodes && c == c.parent.left)
      ensures forall i {:trigger InOrder()[i]} :: 0 <= i < |InOrder()| && InOrder()[i] == x ==>
        c.parent == if i + 1 < |InOrder()| then InOrder()[i + 1] else root
    {
      var y := c.parent;
      var front := c.elems[..|c.elems| - 1];
      Here().Around(c);
      if y == root {
        LastInSlice(InOrder(), front, x);
      } else {
        assert y in InOrder();
        Here().Around(y);
        var a, b := Here().Slice(root.left, y);
        assert c.elems == front + [x];
        NextInSlice(InOrder(), a, y.elems, b, front, x, y, y.right.elems);
      }
    }

    /** Unhooks y, which has at most one child: that child x is hung below y's parent. */
    method Unhook(y: Node) returns (x: Node, ghost step: Splice)
      requires Here().Shape() && y in nodes && (y.left == nil || y.right == nil)
      modifies nodes`left, nodes`right, nodes`parent, root`left, nil`parent
      ensures old(allocated(step)) && step == Splice(Here(), y, x, old(y.parent))
      ensures old(step.Before()) && step.Unlinked() && Here().Sentinels()
      ensures y.left == old(y.left) && y.right == old(y.right)
    {
      x := if y.left == nil then y.right else y.left;
      step := Splice(Here(), y, x, y.parent);
      step.Start();
      x.parent := y.parent;
      if root == x.parent {
        root.left := x;
      } else {
        if y == y.parent.left {
          y.parent.left := x;
        } else {
          y.parent.right := x;
        }
      }
    }

    method SpliceOut(y: Node) returns (x: Node, ghost step: Splice)
      requires Here().Shape() && Here().Covered() && Here().MaxAll() && Sound(Here())
      requires y in nodes && (y.left == nil || y.right == nil)
      modifies this`nodes, nodes`left, nodes`right, nodes`parent, nodes`elems, root`left, nil`parent
      ensures old(allocated(step)) && step == Splice(old(Here()), y, x, x.parent)
      ensures old(step.Before()) && step.Unlinked() && step.Delisted()
      ensures nodes == old(nodes) - {y} && Here().Shape() && Here().Covered() && Hangs(Here(), x)
      ensures InOrder() == Without(old(InOrder()), y)
      ensures forall n {:trigger Here().MaxExact(n)} :: n in nodes && n != x.parent ==> Here().MaxExact(n)
      ensures if y.red then Sound(Here()) else Deficit(Here(), x)
    {
      x, step := Unhook(y);
      forall n | n in nodes && n != y { n.elems := Subst(n.elems, step.Edit()); }
      nodes := nodes - {y};
      step.Done();
    }

    /** The links of z are taken over by y; x is where a deficit may be. */
    method TakeOver(z: Node, y: Node, ghost x: Node) returns (ghost step: Replacement)
      requires Here().Shape() && z in nodes && y !in nodes && y != root && y != nil
      requires Hangs(Here(), x) && x.parent in z.elems && x != z
      requires z.left != nil && (z.right == nil <==> x == nil && x.parent == z)
      modifies nodes`left, nodes`right, nodes`parent, root`left, nil`parent, y`left, y`right, y`parent, y`maxHigh
      ensures step == Replacement(Here(), z, y, x, old(x.parent))
      ensures old(step.Before()) && step.Relinked() && Here().Sentinels()
    {
      Here().Around(z);
      Here().OnlyKin(z);
      step := Replacement(Here(), z, y, x, x.parent);
      y.maxHigh := -MAX_TIME;
      y.left := z.left;
      y.right := z.right;
      y.parent := z.parent;
      z.left.parent, z.right.parent := y, y;
      if z == z.parent.left {
        z.parent.left := y;
      } else {
        z.parent.right := y;
      }
    }

    method MoveInto(z: Node, y: Node, ghost x: Node) returns (ghost step: Replacement)
      requires Here().Shape() && Here().Covered() && z in nodes && y !in nodes && y != root && y != nil
      requires Hangs(Here(), x) && x.parent in z.elems && x != z
      requires z.left != nil && (z.right == nil <==> x == nil && x.parent == z)
      requires forall n {:trigger Here().MaxExact(n)} :: n in nodes && n != x.parent ==> Here().MaxExact(n)
      modifies this`nodes, nodes`left, nodes`right, nodes`parent, nodes`elems, root`left, nil`parent
      modifies y`left, y`right, y`parent, y`maxHigh, y`elems
      ensures step == Replacement(old(Here()), z, y, x, old(x.parent))
      ensures old(step.Before()) && step.Relinked()
      ensures nodes == old(nodes) - {z} + {y} && Here().Shape() && Here().Covered() && Hangs(Here(), x)
      ensures InOrder() == Subst(old(InOrder()), step.Edit())
      ensures forall n {:trigger Here().MaxExact(n)} :: n in nodes && x.parent !in n.elems ==> Here().MaxExact(n)
    {
      step := TakeOver(z, y, x);
      y.elems := Subst(z.elems, step.Edit());
      forall n | n in nodes && n != z { n.elems := Subst(n.elems, step.Edit()); }
      nodes := nodes - {z} + {y};
      step.Done();
    }

    /** y takes z's place and colour; whatever held for the tree without y still holds. */
    method ReplaceBy(z: Node, y: Node, ghost x: Node) returns (ghost step: Replacement)
      requires Here().Shape() && Here().Covered() && z in nodes && y !in nodes && y != root && y != nil
      requires Hangs(Here(), x) && x.parent in z.elems && x != z
      requires z.left != nil && (z.right == nil <==> x == nil && x.parent == z)
      requires forall n {:trigger Here().MaxExact(n)} :: n in nodes && n != x.parent ==> Here().MaxExact(n)
      modifies this`nodes, nodes`left, nodes`right, nodes`parent, nodes`elems, root`left, nil`parent
      modifies y`left, y`right, y`parent, y`maxHigh, y`elems, y`red, y`blackHeight
      ensures step == Replacement(old(Here()), z, y, x, old(x.parent))
      ensures nodes == old(nodes) - {z} + {y} && Here().Shape() && Here().Covered() && Hangs(Here(), x)
      ensures InOrder() == Subst(old(InOrder()), step.Edit())
      ensures forall n {:trigger Here().MaxExact(n)} :: n in nodes && x.parent !in n.elems ==> Here().MaxExact(n)
      ensures old(Sound(Here())) ==> Sound(Here())
      ensures old(Deficit(Here(), x)) ==> Deficit(Here(), x)
    {
      step := MoveInto(z, y, x);
      y.red := z.red;
      y.blackHeight := z.blackHeight;
      step.Stays();
    }

    /** Repairs the maxHigh fields above the place of x, and the deficit there if a black node was taken out. */
    method Mend(x: Node, fill: bool)
      requires Here().Shape() && Here().Covered() && Hangs(Here(), x)
      requires if fill then Deficit(Here(), x) else Sound(Here())
      requires forall n {:trigger Here().MaxExact(n)} :: n in nodes && x.parent !in n.elems ==> Here().MaxExact(n)
      modifies nodes`left, nodes`right, nodes`parent, root`left, nodes`maxHigh, nodes`elems, nodes`red,
               nodes`blackHeight, nil`red
      ensures Here().Shape() && Here().Covered() && Here().MaxAll() && Sound(Here())
      ensures InOrder() == old(InOrder())
    {
      FixupMaxHigh(x.parent);
      if fill {
        DeleteFixup(x);
      }
    }

    /** z has at most one child and is taken out itself. */
    method DeleteInPlace(z: Node)
      requires Here().Shape() && Here().Covered() && Here().MaxAll() && Sound(Here())
      requires z in nodes && (z.left == nil || z.right == nil)
      modifies this`nodes, nodes, root`left, nil`parent, nil`red
      ensures nodes == old(nodes) - {z} && Here().Shape() && Here().Covered() && Here().MaxAll() && Sound(Here())
      ensures InOrder() == Without(old(InOrder()), z)
    {
      ghost var step;
      var x;
      x, step := SpliceOut(z);
      if x.parent != root { Here().Around(x.parent); }
      Mend(x, !z.red);
    }

    /** What the successor of a node with two children looks like before it is taken out. */
    lemma SuccessorFacts(z: Node, y: Node)
      requires Here().Shape() && Here().Covered() && z in nodes && z.left != nil && z.right != nil
      requires y in nodes && y in z.right.elems
      ensures y != z && y != z.left && y.right != z && y.parent in z.elems && (y.parent == z ==> z.right == y)
    {
      Here().Around(z);
      Here().Around(y);
      Here().Around(z.left);
      Here().SubtreeFacts(z);
      NoDupAppend(z.left.elems + [z], z.right.elems);
      assert z in z.left.elems + [z];
      Here().ParentListed(z, y);
      var a, b := Here().Slice(z.right, y);
      assert Here().Listed(y);
    }

    /** z has two children: its successor y is taken out first. */
    method TakeOutSuccessor(z: Node, y: Node) returns (x: Node)
      requires Here().Shape() && Here().Covered() && Here().MaxAll() && Sound(Here())
      requires z in nodes && z.left != nil && z.right != nil
      requires y in nodes && y.left == nil && y in z.right.elems
      modifies this`nodes, nodes`left, nodes`right, nodes`parent, nodes`elems, root`left, nil`parent
      ensures nodes == old(nodes) - {y} && Here().Shape() && Here().Covered() && Hangs(Here(), x)
      ensures z in nodes && x.parent in z.elems && x != z && z.left != nil &&
          (z.right == nil <==> x == nil && x.parent == z)
      ensures InOrder() == Without(old(InOrder()), y)
      ensures forall n {:trigger Here().MaxExact(n)} :: n in nodes && n != x.parent ==> Here().MaxExact(n)
      ensures if y.red then Sound(Here()) else Deficit(Here(), x)
    {
      SuccessorFacts(z, y);
      ghost var splice;
      x, splice := SpliceOut(y);
      Kept(old(z.elems), x.parent, y);
      assert splice.Edit() == map[y := []];
      assert x.parent in z.elems;
      splice.KeepsChildren(z);
    }

    /** Then y is moved into z's place, which takes z out of the original list e. */
    method PutInPlace(z: Node, y: Node, ghost x: Node, ghost e: seq<Node>, ghost k: nat)
      requires Here().Shape() && Here().Covered() && z in nodes && y !in nodes && y != root && y != nil
      requires Hangs(Here(), x) && x.parent in z.elems && x != z
      requires z.left != nil && (z.right == nil <==> x == nil && x.parent == z)
      requires forall n {:trigger Here().MaxExact(n)} :: n in nodes && n != x.parent ==> Here().MaxExact(n)
      requires NoDup(e) && k + 1 < |e| && e[k] == z && e[k + 1] == y && InOrder() == Without(e, y)
      modifies this`nodes, nodes`left, nodes`right, nodes`parent, nodes`elems, root`left, nil`parent
      modifies y`left, y`right, y`parent, y`maxHigh, y`elems, y`red, y`blackHeight
      ensures nodes == old(nodes) - {z} + {y} && Here().Shape() && Here().Covered() && Hangs(Here(), x)
      ensures InOrder() == Without(e, z)
      ensures forall n {:trigger Here().MaxExact(n)} :: n in nodes && x.parent !in n.elems ==> Here().MaxExact(n)
      ensures old(Sound(Here())) ==> Sound(Here())
      ensures old(Deficit(Here(), x)) ==> Deficit(Here(), x)
    {
      ghost var step := ReplaceBy(z, y, x);
      SuccessorMoves(e, z, y, k, step.Edit());
    }

    method DeleteThroughSuccessor(z: Node, y: Node, ghost k: nat)
      requires Here().Shape() && Here().Covered() && Here().MaxAll() && Sound(Here())
      requires z in nodes && z.left != nil && z.right != nil
      requires y in nodes && y.left == nil && y in z.right.elems
      requires k + 1 < |InOrder()| && InOrder()[k] == z && InOrder()[k + 1] == y
      modifies this`nodes, nodes, root`left, nil`parent, nil`red
      ensures nodes == old(nodes) - {z} && Here().Shape() && Here().Covered() && Here().MaxAll() && Sound(Here())
      ensures InOrder() == Without(old(InOrder()), z)
    {
      var fill := !y.red;
      var x := TakeOutSuccessor(z, y);
      PutInPlace(z, y, x, old(InOrder()), k);
      Mend(x, fill);
    }

    method DeleteNode(z: Node) returns (nodeToDelete: Interval?)
      requires Valid() && z in nodes
      modifies this`nodes, nodes, root`left, nil`parent, nil`red
      ensures Valid() && nodes == old(nodes) - {z} && nodeToDelete == z.storedInterval
      ensures InOrder() == Without(old(InOrder()), z)
    {
      nodeToDelete := z.storedInterval;
      ghost var e := InOrder();
      assert z in e;
      WithoutSorted(e, z);
      if z.left == nil || z.right == nil {
        DeleteInPlace(z);
      } else {
        var y := GetSuccessor(z);
        ghost var k :| 0 <= k < |e| && e[k] == z;
        Here().SubtreeFacts(y);
        DeleteThroughSuccessor(z, y, k);
      }
    }

    // ---------- the tree as a whole ----------

    ghost function ToTree(n: Node): Tree
      requires Here().Shape() && (n == nil || n in nodes)
      reads this`nodes, Here().Footprint(), root, root.left
      decreases |n.elems|
    {
      if n == nil then Leaf
      else
        assert Here().Linked(n) && Here().Listed(n);
        Branch(n.red, ToTree(n.left), n, ToTree(n.right))
    }

    ghost function Top(): Tree
      requires Here().Shape()
      reads this`nodes, Here().Footprint(), root, root.left
    {
      ToTree(root.left)
    }

    /** The conditions on single nodes add up to the usual ones on the tree. */
    lemma {:induction false} GlobalFacts(n: Node)
      requires Here().Shape() && Here().MaxAll() && Here().BalancedAll() && Here().RedAll()
      requires n == nil || n in nodes
      ensures Listing(ToTree(n)) == n.elems
      ensures n.maxHigh == Highest(ToTree(n))
      ensures Even(ToTree(n)) && Blacks(ToTree(n)) == n.blackHeight
      ensures NoRedRed(ToTree(n))
      decreases |n.elems|
    {
      if n != nil {
        Here().Around(n);
        assert Here().MaxExact(n) && Here().Balanced(n) && Here().RedOk(n);
        GlobalFacts(n.left);
        GlobalFacts(n.right);
      }
    }

    // ---------- query ----------

    /** Moving the query's own fields leaves the tree alone. */
    twostate lemma TreeStays(n: Node)
      requires old(Here().Shape()) && nodes == old(nodes)
      requires unchanged(old(Here().Footprint())) && unchanged(old(root.left))
      requires n == nil || n in nodes
      ensures Here().Shape() && ToTree(n) == old(ToTree(n))
    {
      assert Here().Footprint() == old(Here().Footprint());
    }

    ghost predicate StandsFor(e: RecursionNode, level: Level)
      requires Here().Shape()
      reads this`nodes, Here().Footprint(), root, root.left
    {
      && e.startNode != null && e.startNode in nodes
      && (e.startNode.right == nil || e.startNode.right in nodes) && ToTree(e.startNode.right) == level.right
    }

    twostate lemma ValidStays()
      requires old(ValidTree()) && nodes == old(nodes)
      requires unchanged(old(Here().Footprint())) && unchanged(old(root.left))
      ensures ValidTree() && Top() == old(Top())
    {
      TreeStays(root.left);
    }

    /** The stack entries in use stand for these levels. */
    ghost predicate Tracks(levels: seq<Level>)
      requires Here().Shape()
      reads this, Here().Footprint(), root, root.left
    {
      Track(recursionNodeStack, recursionNodeStackTop, levels)
    }

    ghost predicate Track(stack: seq<RecursionNode>, top: nat, levels: seq<Level>)
      requires Here().Shape()
      reads this`nodes, Here().Footprint(), root, root.left
    {
      && |levels| == top && 1 <= top <= |stack|
      && (forall i {:trigger levels[i]} {:trigger stack[i]} :: 0 <= i < |levels| ==>
          stack[i].tryRightBranch == levels[i].hit)
      && (forall i {:trigger levels[i]} {:trigger stack[i]} :: 1 <= i < |levels| ==>
            stack[i].parentIndex == i - 1 && StandsFor(stack[i], levels[i]))
    }

    twostate lemma TrackStays(t: TrackOf)
      requires old(Here().Shape()) && nodes == old(nodes)
      requires unchanged(old(Here().Footprint())) && unchanged(old(root.left))
      requires old(Track(t.stack, |t.levels|, t.levels))
      ensures Here().Shape() && Track(t.stack, |t.levels|, t.levels)
    {
      assert Here().Footprint() == old(Here().Footprint());
    }

    /** The entry on top is marked. */
    lemma TrackMarked(stack: seq<RecursionNode>, levels: seq<Level>)
      requires Here().Shape() && Track(stack, |levels|, levels)
      ensures Track(stack[|levels| - 1 := stack[|levels| - 1].(tryRightBranch := true)], |levels|, Noted(levels, true))
    {
      var marked, noted := stack[|levels| - 1 := stack[|levels| - 1].(tryRightBranch := true)], Noted(levels, true);
      forall i | 1 <= i < |levels| ensures marked[i].parentIndex == i - 1 && StandsFor(marked[i], noted[i]) {
        assert StandsFor(stack[i], levels[i]);
      }
    }

    /** An entry is put on top, in place of an old one or behind the last. */
    lemma TrackPushed(stack: seq<RecursionNode>, levels: seq<Level>, more: seq<RecursionNode>, x: Node)
      requires Here().Shape() && Track(stack, |levels|, levels) && x in nodes && Here().Linked(x)
      requires |more| > |levels| && more[..|levels|] == stack[..|levels|]
      requires more[|levels|] == RecursionNode(x, |levels| - 1, false)
      ensures Track(more, |levels| + 1, levels + [Level(ToTree(x.right), false)])
    {
      var pushed := levels + [Level(ToTree(x.right), false)];
      forall i | 0 <= i < |levels| ensures more[i] == stack[i] { assert more[..|levels|][i] == stack[..|levels|][i]; }
      forall i | 1 <= i < |pushed| ensures more[i].parentIndex == i - 1 && StandsFor(more[i], pushed[i]) {
        if i < |levels| { assert StandsFor(stack[i], levels[i]); }
      }
    }

    method MarkHit(ghost levels: seq<Level>, hit: bool)
      requires Here().Shape() && Tracks(levels) && currentParent == recursionNodeStackTop - 1
      modifies this`recursionNodeStack
      ensures Here().Shape() && Tracks(Noted(levels, hit)) && |recursionNodeStack| == |old(recursionNodeStack)|
    {
      if hit {
        TrackMarked(recursionNodeStack, levels);
        recursionNodeStack :=
          recursionNodeStack[currentParent := recursionNodeStack[currentParent].(tryRightBranch := true)];
      }
      TrackStays(TrackOf(recursionNodeStack, Noted(levels, hit)));
    }

    /** Goes back to the entry on top and marks it. */
    method BackTo(parentIndex: nat, ghost levels: seq<Level>)
      requires Here().Shape() && Tracks(levels) && parentIndex == recursionNodeStackTop - 1
      modifies this`recursionNodeStack, this`currentParent
      ensures Here().Shape() && Tracks(Noted(levels, true)) && |recursionNodeStack| == |old(recursionNodeStack)|
      ensures currentParent == parentIndex
    {
      TrackMarked(recursionNodeStack, levels);
      currentParent := parentIndex;
      recursionNodeStack :=
        recursionNodeStack[currentParent := recursionNodeStack[currentParent].(tryRightBranch := true)];
      TrackStays(TrackOf(recursionNodeStack, Noted(levels, true)));
    }

    method PushNode(x: Node, ghost levels: seq<Level>)
      requires Here().Shape() && Tracks(levels) && currentParent == recursionNodeStackTop - 1 && x in nodes
      modifies this`recursionNodeStack, this`recursionNodeStackTop, this`currentParent
      ensures Here().Shape() && Here().Linked(x) && Tracks(levels + [Level(ToTree(x.right), false)])
      ensures currentParent == recursionNodeStackTop - 1
      ensures |recursionNodeStack| == if |levels| == |old(recursionNodeStack)| then |levels| + 1
          else |old(recursionNodeStack)|
    {
      assert Here().Linked(x);
      var entry := RecursionNode(x, currentParent, false);
      var more := if recursionNodeStackTop == |recursionNodeStack| then recursionNodeStack + [entry]
                  else recursionNodeStack[recursionNodeStackTop := entry];
      TrackPushed(recursionNodeStack, levels, more, x);
      ghost var pushed := levels + [Level(ToTree(x.right), false)];
      recursionNodeStack := more;
      currentParent := recursionNodeStackTop;
      recursionNodeStackTop := recursionNodeStackTop + 1;
      TrackStays(TrackOf(more, pushed));
      TreeStays(x.right);
    }

    /** Takes the top entry off. */
    method PopNode(ghost levels: seq<Level>) returns (entry: RecursionNode)
      requires Here().Shape() && Tracks(levels) && recursionNodeStackTop > 1
      modifies this`recursionNodeStackTop
      ensures Here().Shape() && |levels| > 1 && Tracks(levels[..|levels| - 1]) &&
          recursionNodeStackTop == old(recursionNodeStackTop) - 1
      ensures entry.tryRightBranch == levels[|levels| - 1].hit && entry.parentIndex == recursionNodeStackTop - 1
      ensures StandsFor(entry, levels[|levels| - 1])
    {
      entry := recursionNodeStack[recursionNodeStackTop - 1];
      assert StandsFor(entry, levels[|levels| - 1]);
      assert Track(recursionNodeStack, recursionNodeStackTop - 1, levels[..|levels| - 1]);
      recursionNodeStackTop := recursionNodeStackTop - 1;
      TrackStays(TrackOf(recursionNodeStack, levels[..|levels| - 1]));
      TreeStays(entry.startNode.right);
    }

    /** Pops entries until one with a hit on its left side has a right side to visit. */
    method Resume(ghost levels: seq<Level>, ghost low: SimTime, ghost high: SimTime, ghost h: nat)
      returns (x: Node, run: bool, ghost t: Tree, ghost rest: seq<Level>)
      requires Here().Shape() && Tracks(levels) && Bounded(levels, h)
      modifies this`recursionNodeStack, this`recursionNodeStackTop, this`currentParent
      ensures (x == nil || x in nodes) && t == ToTree(x) && (run <==> x != nil)
      ensures Tracks(rest) && |recursionNodeStack| == |old(recursionNodeStack)|
      ensures if run then currentParent == recursionNodeStackTop - 1 else recursionNodeStackTop == 1
      ensures Remains(levels, t, rest, low, high, h) && (run <==> t.Branch?)
    {
      x, run, t, rest := nil, false, Leaf, levels;
      while !run && recursionNodeStackTop > 1
        invariant Here().Shape() && (x == nil || x in nodes) && t == ToTree(x) && (run <==> x != nil)
        invariant Tracks(rest) && |recursionNodeStack| == |old(recursionNodeStack)|
        invariant run ==> currentParent == recursionNodeStackTop - 1
        invariant Remains(levels, t, rest, low, high, h) && (run <==> t.Branch?)
        decreases !run, recursionNodeStackTop
      {
        RemainsPopped(levels, rest, low, high, h);
        x, t, rest := ResumeAt(rest, x);
        run := x != nil;
      }
    }

    /** Takes the top entry off; if it was hit, its right side comes next and the entry below it is marked. */
    method ResumeAt(ghost levels: seq<Level>, current: Node) returns (x: Node, ghost t: Tree, ghost rest: seq<Level>)
      requires Here().Shape() && Tracks(levels) && recursionNodeStackTop > 1 && current == nil
      modifies this`recursionNodeStack, this`recursionNodeStackTop, this`currentParent
      ensures Here().Shape() && (x == nil || x in nodes) && t == ToTree(x)
      ensures |levels| > 1 && recursionNodeStackTop == old(recursionNodeStackTop) - 1
      ensures Tracks(rest) && |recursionNodeStack| == |old(recursionNodeStack)|
      ensures var up, top := levels[..|levels| - 1], levels[|levels| - 1];
        if top.hit then t == top.right && rest == Noted(up, true) && currentParent == recursionNodeStackTop - 1
        else t == Leaf && rest == up
    {
      ghost var up := levels[..|levels| - 1];
      var entry := PopNode(levels);
      if entry.tryRightBranch {
        x := entry.startNode.right;
        t := ToTree(x);
        label Back:
        BackTo(entry.parentIndex, up);
        TreeStays@Back(x);
        rest := Noted(up, true);
      } else {
        x, t, rest := current, Leaf, up;
      }
    }

    /** Goes left, to be continued on the right, or right at once. */
    method Descend(n: Node, low: SimTime, ghost t: Tree, ghost noted: seq<Level>)
      returns (x: Node, ghost t': Tree, ghost rest: seq<Level>)
      requires Here().Shape() && n in nodes && t.Branch?
      requires (n.left == nil || n.left in nodes) && (n.right == nil || n.right in nodes)
      requires t.l == ToTree(n.left) && t.r == ToTree(n.right)
      requires n.left.maxHigh == Highest(t.l)
      requires Tracks(noted) && currentParent == recursionNodeStackTop - 1
      modifies this`recursionNodeStack, this`recursionNodeStackTop, this`currentParent
      ensures (x == nil || x in nodes) && t' == ToTree(x)
      ensures Tracks(rest) && currentParent == recursionNodeStackTop - 1
      ensures if Highest(t.l) >= low then t' == t.l && rest == noted + [Level(t.r, false)]
          else t' == t.r && rest == noted
      ensures |recursionNodeStack| <= |old(recursionNodeStack)| || |recursionNodeStack| == |rest|
    {
      assert Here().Linked(n);
      if n.left.maxHigh >= low {
        x, t' := n.left, t.l;
        PushNode(n, noted);
        rest := noted + [Level(t.r, false)];
      } else {
        x, t', rest := n.right, t.r, noted;
      }
      TreeStays(x);
    }

    /** Visits one node: notes a hit and descends. */
    method VisitNode(n: Node, low: SimTime, high: SimTime, ghost t: Tree, ghost levels: seq<Level>)
      returns (x: Node, hit: bool, ghost t': Tree, ghost rest: seq<Level>)
      requires Here().Shape() && Here().MaxAll() && Here().BalancedAll() && Here().RedAll()
      requires n in nodes && t == ToTree(n) && Tracks(levels) && currentParent == recursionNodeStackTop - 1
      modifies this`recursionNodeStack, this`recursionNodeStackTop, this`currentParent
      ensures (x == nil || x in nodes) && t' == ToTree(x)
      ensures hit <==> Hit(n, low, high)
      ensures Tracks(rest) && currentParent == recursionNodeStackTop - 1
      ensures t.Branch? && t.n == n && Step(t, levels, t', rest, low, high)
      ensures |recursionNodeStack| <= |old(recursionNodeStack)| || |recursionNodeStack| == |rest|
    {
      assert Here().Linked(n);
      assert t == Branch(n.red, ToTree(n.left), n, ToTree(n.right));
      GlobalFacts(n.left);
      hit := Overlap(low, high, n.key, n.high);
      label Marking:
      MarkHit(levels, hit);
      TreeStays@Marking(n);
      x, t', rest := Descend(n, low, t, Noted(levels, hit));
    }

    /** What the query has found and what it still has to visit make up the whole traversal. */
    ghost predicate Ongoing(x: Node, t: Tree, levels: seq<Level>, found: seq<Node>, low: SimTime, high: SimTime)
      requires Here().Shape()
      reads this, Here().Footprint(), root, root.left
    {
      && (x == nil || x in nodes) && t == ToTree(x) && Tracks(levels)
      && Bounded(levels, Height(Top())) && |levels| <= 1 + Height(Top())
      && found + Rest(t, levels, low, high) == Visit(Top(), low, high)
    }

    ghost predicate Halfway(x: Node, run: bool, t: Tree, levels: seq<Level>, found: seq<Node>, low: SimTime,
                            high: SimTime)
      requires Here().Shape()
      reads this, Here().Footprint(), root, root.left
    {
      && Ongoing(x, t, levels, found, low, high) && (run <==> x != nil)
      && if run then currentParent == recursionNodeStackTop - 1 && |levels| - 1 + Height(t) <= Height(Top())
         else recursionNodeStackTop == 1
    }

    /** The first part of a round: a node is visited. */
    method VisitRound(n: Node, low: SimTime, high: SimTime, ghost t: Tree, ghost levels: seq<Level>,
                      ghost found: seq<Node>)
      returns (x: Node, hit: bool, ghost t': Tree, ghost levels': seq<Level>)
      requires ValidTree() && Halfway(n, true, t, levels, found, low, high)
      modifies this`recursionNodeStack, this`recursionNodeStackTop, this`currentParent
      ensures ValidTree() && Top() == old(Top())
      ensures Ongoing(x, t', levels', if hit then found + [n] else found, low, high)
      ensures currentParent == recursionNodeStackTop - 1 && |levels'| - 1 + Height(t') <= Height(Top())
      ensures Work(levels') + Size(t') < Work(levels) + Size(t)
      ensures |recursionNodeStack| <= |old(recursionNodeStack)| || |recursionNodeStack| <= 1 + Height(Top())
    {
      ghost var total, h := Visit(Top(), low, high), Height(Top());
      x, hit, t', levels' := VisitNode(n, low, high, t, levels);
      VisitedSoFar(t, levels, t', levels', found, total, low, high, h);
      ValidStays();
    }

    /** The second part of a round: at the end of a branch, the stack tells where to go on. */
    method ResumeRound(n: Node, ghost levels: seq<Level>, ghost found: seq<Node>, ghost low: SimTime,
                       ghost high: SimTime)
      returns (x: Node, run: bool, ghost t': Tree, ghost levels': seq<Level>)
      requires ValidTree() && n == nil && Ongoing(n, Leaf, levels, found, low, high)
      modifies this`recursionNodeStack, this`recursionNodeStackTop, this`currentParent
      ensures ValidTree() && Top() == old(Top())
      ensures Halfway(x, run, t', levels', found, low, high)
      ensures Work(levels') + Size(t') <= Work(levels)
      ensures |recursionNodeStack| == |old(recursionNodeStack)|
    {
      x, run, t', levels' := Resume(levels, low, high, Height(Top()));
      ValidStays();
    }

    /** One round of the outer loop. */
    method QueryRound(n: Node, low: SimTime, high: SimTime, resultStack: seq<Interval?>,
        ghost t: Tree, ghost levels: seq<Level>, ghost found: seq<Node>)
      returns (x: Node, run: bool, result': seq<Interval?>, ghost t': Tree, ghost levels': seq<Level>,
          ghost found': seq<Node>)
      requires ValidTree() && Halfway(n, true, t, levels, found, low, high) && resultStack == Stored(found)
      modifies this`recursionNodeStack, this`recursionNodeStackTop, this`currentParent
      ensures ValidTree() && Top() == old(Top())
      ensures Halfway(x, run, t', levels', found', low, high) && result' == Stored(found')
      ensures Work(levels') + Size(t') < Work(levels) + Size(t)
      ensures |recursionNodeStack| <= |old(recursionNodeStack)| || |recursionNodeStack| <= 1 + Height(Top())
    {
      var hit;
      x, hit, t', levels' := VisitRound(n, low, high, t, levels, found);
      found' := if hit then found + [n] else found;
      StoredOneMore(found, n);
      result' := if hit then resultStack + [n.storedInterval] else resultStack;
      run := x != nil;
      if !run {
        x, run, t', levels' := ResumeRound(x, levels', found', low, high);
      }
    }

    lemma QueryStart(low: SimTime, high: SimTime, hit: bool)
      requires ValidTree() && recursionNodeStackTop == 1 <= |recursionNodeStack| && currentParent == 0
      requires recursionNodeStack[0].tryRightBranch == hit
      ensures Halfway(root.left, root.left != nil, Top(), [Level(Leaf, hit)], [], low, high)
    {
      assert [] + Rest(Top(), [Level(Leaf, hit)], low, high) == Visit(Top(), low, high);
    }

    method Query(low: SimTime, high: SimTime) returns (resultStack: seq<Interval?>)
      requires Valid()
      modifies this`recursionNodeStack, this`recursionNodeStackTop, this`currentParent
      ensures Valid() && Top() == old(Top())
      ensures resultStack == Stored(Visit(Top(), low, high))
      ensures |recursionNodeStack| <= |old(recursionNodeStack)| || |recursionNodeStack| <= 1 + Height(Top())
    {
      ghost var t, levels, found := Top(), [Level(Leaf, recursionNodeStack[0].tryRightBranch)], [];
      resultStack := [];
      var x := root.left;
      var run := x != nil;
      currentParent := 0;
      ValidStays();
      QueryStart(low, high, recursionNodeStack[0].tryRightBranch);
      while run
        invariant ValidTree() && Top() == old(Top())
        invariant Halfway(x, run, t, levels, found, low, high) && resultStack == Stored(found)
        invariant |recursionNodeStack| <= |old(recursionNodeStack)| || |recursionNodeStack| <= 1 + Height(Top())
        decreases if run then 1 + Work(levels) + Size(t) else 0
      {
        x, run, resultStack, t, levels, found := QueryRound(x, low, high, resultStack, t, levels, found);
      }
    }

    /**
     What a query means to its caller: if nothing is lost, it lists, in
     preorder, exactly the stored intervals a linear scan finds.
     */
    lemma QueryIsScan(low: SimTime, high: SimTime)
      requires Valid()
      ensures Stored(Visit(Top(), low, high)) == Stored(Hits(Preorder(Top()), low, high)) <==>
          NothingLost(Top(), low, high)
      ensures multiset(Preorder(Top())) == multiset(InOrder())
      ensures low > -MAX_TIME && (forall n :: n in nodes ==> n.key <= n.high) ==> NothingLost(Top(), low, high)
    {
      GlobalFacts(root.left);
      VisitAgrees(Top(), low, high);
      SameNodes(Top());
      if low > -MAX_TIME && (forall n :: n in nodes ==> n.key <= n.high) {
        ProperLosesNothing(Top(), low, high);
      }
    }

    /** The hits of a linear scan are the nodes that overlap, wherever they stand. */
    lemma ScanFinds(low: SimTime, high: SimTime, n: Node)
      requires Valid()
      ensures n in Hits(Preorder(Top()), low, high) <==> n in nodes && Hit(n, low, high)
    {
      GlobalFacts(root.left);
      SameNodes(Top());
      HitsAreThose(Preorder(Top()), low, high, n);
      assert n in multiset(Preorder(Top())) <==> n in multiset(InOrder());
      assert n in InOrder() <==> n in nodes;
    }

    lemma ProperHit(low: SimTime, high: SimTime, n: Node)
      requires Valid() && n in nodes && low <= high && n.key <= n.high
      ensures n.storedInterval != null
      ensures Hit(n, low, high) <==>
        exists t: SimTime :: Within(t, low, high) && Within(t, n.storedInterval.low, n.storedInterval.high)
    {
      OverlapIsCommonPoint(low, high, n.key, n.high);
    }

    /** In a tree of proper intervals a query finds exactly the stored intervals that have a time in common with it. */
    lemma QueryFinds(low: SimTime, high: SimTime, ivl: Interval)
      requires Valid() && -MAX_TIME < low <= high && forall n :: n in nodes ==> n.key <= n.high
      ensures ivl in Stored(Visit(Top(), low, high)) <==>
        && (exists n :: n in nodes && n.storedInterval == ivl)
        && (exists t: SimTime :: Within(t, low, high) && Within(t, ivl.low, ivl.high))
    {
      var hits := Hits(Preorder(Top()), low, high);
      QueryIsScan(low, high);
      StoredAreThose(hits, ivl);
      if n :| n in hits && n.storedInterval == ivl {
        ScanFinds(low, high, n);
        ProperHit(low, high, n);
      }
      if n :| n in nodes && n.storedInterval == ivl {
        ScanFinds(low, high, n);
        ProperHit(low, high, n);
      }
    }

    /**
     Which trees answer their queries: a condition on the tree for all, and one with the high end for the smallest time.
     */
    lemma QueriesAreScansIff()
      requires Valid()
      ensures (forall low: SimTime, high: SimTime {:trigger Visit(Top(), low, high)} :: low > -MAX_TIME ==>
                 Stored(Visit(Top(), low, high)) == Stored(Hits(Preorder(Top()), low, high))) <==> KeysReached(Top())
      ensures forall high: SimTime {:trigger RightsBehind(Top(), high)} ::
                Stored(Visit(Top(), -MAX_TIME, high)) == Stored(Hits(Preorder(Top()), -MAX_TIME, high))
                <==> RightsBehind(Top(), high)
    {
      GlobalFacts(root.left);
      AnswersAllIff(Top());
      forall low: SimTime, high: SimTime {:trigger Visit(Top(), low, high)}
        ensures Stored(Visit(Top(), low, high)) == Stored(Hits(Preorder(Top()), low, high))
           <==> Visit(Top(), low, high) == Hits(Preorder(Top()), low, high)
      {
        VisitAgrees(Top(), low, high);
      }
      forall high: SimTime {:trigger RightsBehind(Top(), high)}
        ensures Visit(Top(), -MAX_TIME, high) == Hits(Preorder(Top()), -MAX_TIME, high) <==> RightsBehind(Top(), high)
      {
        AnswersFromMinimumIff(Top(), high);
      }
    }

    // ---------- deletion of an interval ----------

    /** The first node in preorder that stores the interval, nil if there is none. */
    function RecursiveSearch(node: Node, ivl: Interval): (r: Node)
      requires Here().Shape() && (node == nil || node in nodes)
      reads this`nodes, Here().Footprint(), root, root.left
      ensures r == nil || r in nodes
      ensures FirstWith(Preorder(ToTree(node)), ivl, r, nil)
      decreases |node.elems|
    {
      if node != nil then
        assert Here().Linked(node) && Here().Listed(node);
        if node.storedInterval == ivl then
          assert Preorder(ToTree(node))[0] == node;
          node
        else
          var left := RecursiveSearch(node.left, ivl);
          FirstOfThree(node, Preorder(ToTree(node.left)), Preorder(ToTree(node.right)), ivl, left,
              RecursiveSearch(node.right, ivl), nil);
          if left != nil then left
          else
            var right := RecursiveSearch(node.right, ivl);
            if right != nil then right else nil
      else nil
    }

    /** Deletes the first node in preorder that stores the interval; does nothing if there is none. */
    method DeleteInterval(ivl: Interval) returns (ghost gone: Node)
      requires Valid()
      modifies this`nodes, nodes, root`left, nil`parent, nil`red
      ensures Valid() && FirstWith(old(Preorder(Top())), ivl, gone, nil)
      ensures nodes == old(nodes) - {gone}
      ensures InOrder() == if gone == nil then old(InOrder()) else Without(old(InOrder()), gone)
    {
      // the search starts at the root sentinel, which stores no interval and has nothing on its right
      var node := RecursiveSearch(root.left, ivl);
      gone := node;
      if node != nil {
        var removed := DeleteNode(node);
      }
    }

    // ---------- height ----------

    /** However it was built, the tree's height is at most twice the logarithm of its size plus one. */
    lemma TreeHeight()
      requires Valid()
      ensures MachineWords.Pow2((Height(Top()) + 1) / 2) <= |nodes| + 1
    {
      GlobalFacts(root.left);
      HeightBound(Top());
      SizeOfListing(Top());
      assert (set n | n in InOrder()) == nodes;
      SetOfList(InOrder());
    }
  }
}
