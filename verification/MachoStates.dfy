/** The state tree of a hierarchical state machine, and what a transition between two of its states exits and enters. */
module MachoStates {
  import opened Options

  /** Whether a superstate keeps no history, its last direct substate, or its last state. */
  datatype HistoryKind = NoHistory | Shallow | Deep

  /** Boxes deleted on exit, boxes that survive transitions, and the shared box of states without one. */
  datatype BoxKind = OwnBox | PersistentBox | EmptyBox

  /** States are named classes derived from their superstates; all derive from Root. */
  datatype State = Root | Sub(name: nat, super: State, keeps: HistoryKind, box: BoxKind)

  datatype Action = Entered(s: State) | Exited(s: State) | Initialized(s: State)

  predicate IsChild(s: State, of: State) {
    s == of || (s.Sub? && IsChild(s.super, of))
  }

  predicate ProperChild(s: State, of: State) {
    IsChild(s, of) && s != of
  }

  /** The states that are active in s, outermost first. */
  function Path(s: State): seq<State> {
    if s.Root? then [] else Path(s.super) + [s]
  }

  function Depth(s: State): nat {
    if s.Root? then 0 else 1 + Depth(s.super)
  }

  lemma {:induction false} ChildIsDeeper(s: State, of: State)
    requires IsChild(s, of)
    ensures Depth(s) >= Depth(of) && (Depth(s) == Depth(of) ==> s == of)
  {
    if s != of { ChildIsDeeper(s.super, of); }
  }

  lemma {:induction false} ChildTransitive(s: State, t: State, u: State)
    requires IsChild(s, t) && IsChild(t, u)
    ensures IsChild(s, u)
  {
    if s != t { ChildTransitive(s.super, t, u); }
  }

  lemma ChildAntisymmetric(s: State, t: State)
    requires IsChild(s, t) && IsChild(t, s)
    ensures s == t
  {
    ChildIsDeeper(s, t);
    ChildIsDeeper(t, s);
  }

  lemma {:induction false} RootOfAll(s: State)
    ensures IsChild(s, Root)
  {
    if s.Sub? { RootOfAll(s.super); }
  }

  /** Active are a state and its superstates, but Root. */
  lemma {:induction false} PathIsSuperstates(s: State, t: State)
    ensures t in Path(s) <==> t.Sub? && IsChild(s, t)
  {
    if s.Sub? { PathIsSuperstates(s.super, t); }
  }

  // ---------- transitions ----------

  /** Exits go up from s to the first state that next is properly inside of. */
  function ExitsUpTo(s: State, next: State): State {
    if s.Root? then Root
    else if s == next || !IsChild(next, s) then ExitsUpTo(s.super, next)
    else s
  }

  /** Entries come down from the first superstate of s that previous is inside of. */
  function EntersFrom(s: State, previous: State, first: bool): State {
    if s.Root? then Root
    else if first || !IsChild(previous, s) then EntersFrom(s.super, previous, false)
    else s
  }

  /** The innermost state that both the state left and, properly, the state entered are inside of. */
  ghost predicate Innermost(q: State, s: State, next: State) {
    && IsChild(s, q) && IsChild(next, q) && (q == next ==> q.Root?)
    && forall p :: IsChild(s, p) && ProperChild(next, p) ==> IsChild(q, p)
  }

  lemma {:induction false} ExitsAreInnermost(s: State, next: State)
    ensures Innermost(ExitsUpTo(s, next), s, next)
  {
    RootOfAll(s);
    RootOfAll(next);
    if s.Sub? && (s == next || !IsChild(next, s)) {
      ExitsAreInnermost(s.super, next);
      assert forall p :: IsChild(s, p) && ProperChild(next, p) ==> IsChild(s.super, p);
    }
  }

  lemma {:induction false} EntersAtSuperstate(s: State, previous: State)
    ensures var q := EntersFrom(s, previous, false);
      && IsChild(s, q) && IsChild(previous, q)
      && forall p :: IsChild(s, p) && IsChild(previous, p) ==> IsChild(q, p)
  {
    RootOfAll(previous);
    if s.Sub? && !IsChild(previous, s) { EntersAtSuperstate(s.super, previous); }
  }

  /** What is exited and what is entered meet in the same state. */
  lemma ExitsMeetEntries(s: State, next: State)
    ensures EntersFrom(next, s, true) == ExitsUpTo(s, next)
  {
    var q, e := ExitsUpTo(s, next), EntersFrom(next, s, true);
    ExitsAreInnermost(s, next);
    RootOfAll(q);
    RootOfAll(e);
    if next.Sub? {
      EntersAtSuperstate(next.super, s);
      assert ProperChild(next, e) by { ChildIsDeeper(next.super, e); }
      assert IsChild(next.super, q);
      ChildAntisymmetric(q, e);
    }
  }

  function Exits(s: State, q: State): seq<Action>
    requires IsChild(s, q)
  {
    if s == q then [] else [Exited(s)] + Exits(s.super, q)
  }

  function Entries(s: State, q: State): seq<Action>
    requires IsChild(s, q)
  {
    if s == q then [] else Entries(s.super, q) + [Entered(s)]
  }

  /** The states from s up to, but without, q. */
  function Segment(s: State, q: State): set<State>
    requires IsChild(s, q)
  {
    if s == q then {} else Segment(s.super, q) + {s}
  }

  lemma {:induction false} SegmentIs(s: State, q: State, t: State)
    requires IsChild(s, q)
    ensures t in Segment(s, q) <==> IsChild(s, t) && ProperChild(t, q)
  {
    if s != q {
      SegmentIs(s.super, q, t);
    } else if IsChild(s, t) && IsChild(t, q) {
      ChildAntisymmetric(s, t);
    }
  }

  // ---------- logs ----------

  /** The stack of active states after one more action, if it is well nested. */
  function Then(stack: Option<seq<State>>, a: Action): Option<seq<State>> {
    if stack.None? then None else
    var active := stack.value;
    var top := if active == [] then Root else active[|active| - 1];
    match a
    case Entered(s) => if s.Sub? && s.super == top then Some(active + [s]) else None
    case Exited(s) => if active != [] && s == top then Some(active[..|active| - 1]) else None
    case Initialized(s) => if s == top then Some(active) else None
  }

  /**
   The active states after the actions of a log: states are entered below the innermost active state only,
   only the innermost active state is exited, and only it is initialized.
   */
  function Replay(log: seq<Action>): Option<seq<State>> {
    if log == [] then Some([]) else Then(Replay(log[..|log| - 1]), log[|log| - 1])
  }

  lemma ReplayOne(log: seq<Action>, a: Action)
    ensures Replay(log + [a]) == Then(Replay(log), a)
  {
    assert (log + [a])[..|log|] == log;
  }

  lemma {:induction false} ReplayExits(log: seq<Action>, s: State, q: State)
    requires IsChild(s, q) && Replay(log) == Some(Path(s))
    ensures Replay(log + Exits(s, q)) == Some(Path(q))
    decreases s
  {
    if s == q {
      assert log + Exits(s, q) == log;
    } else {
      ReplayOne(log, Exited(s));
      assert (Path(s.super) + [s])[..|Path(s.super)|] == Path(s.super);
      ReplayExits(log + [Exited(s)], s.super, q);
      assert log + Exits(s, q) == log + [Exited(s)] + Exits(s.super, q);
    }
  }

  lemma {:induction false} PathTop(s: State)
    ensures s.Root? <==> Path(s) == []
    ensures s.Sub? ==> Path(s)[|Path(s)| - 1] == s
  {
  }

  lemma {:induction false} ReplayEntries(log: seq<Action>, s: State, q: State)
    requires IsChild(s, q) && Replay(log) == Some(Path(q))
    ensures Replay(log + Entries(s, q)) == Some(Path(s))
  {
    if s == q {
      assert log + Entries(s, q) == log;
    } else {
      ReplayEntries(log, s.super, q);
      ReplayOne(log + Entries(s.super, q), Entered(s));
      PathTop(s.super);
      assert log + Entries(s, q) == log + Entries(s.super, q) + [Entered(s)];
    }
  }

  lemma ReplayInit(log: seq<Action>, s: State)
    requires Replay(log) == Some(Path(s))
    ensures Replay(log + [Initialized(s)]) == Some(Path(s))
  {
    PathTop(s);
    ReplayOne(log, Initialized(s));
  }

  /** The actions of a transition from s to next: exits up to where they meet, then entries down. */
  function Moves(s: State, next: State): seq<Action> {
    ExitsAreInnermost(s, next);
    Exits(s, ExitsUpTo(s, next)) + Entries(next, ExitsUpTo(s, next))
  }

  /** They lead from the one state's path to the other's. */
  lemma ReplayMoves(log: seq<Action>, s: State, next: State)
    requires Replay(log) == Some(Path(s))
    ensures Replay(log + Moves(s, next)) == Some(Path(next))
  {
    var q := ExitsUpTo(s, next);
    ExitsAreInnermost(s, next);
    ReplayExits(log, s, q);
    ReplayEntries(log + Exits(s, q), next, q);
    assert log + Moves(s, next) == log + Exits(s, q) + Entries(next, q);
  }

  /** The exits and entries of a log, without the init actions. */
  function Motions(log: seq<Action>): seq<Action> {
    if log == [] then []
    else
      var last := log[|log| - 1];
      if last.Initialized? then Motions(log[..|log| - 1]) else Motions(log[..|log| - 1]) + [last]
  }

  lemma MotionsOne(log: seq<Action>, a: Action)
    ensures Motions(log + [a]) == if a.Initialized? then Motions(log) else Motions(log) + [a]
  {
    assert (log + [a])[..|log|] == log;
  }

  lemma {:induction false} MotionsOfMotions(log: seq<Action>, more: seq<Action>)
    requires forall a :: a in more ==> !a.Initialized?
    ensures Motions(log + more) == Motions(log) + more
  {
    if more == [] {
      assert log + more == log;
    } else {
      var n := |more| - 1;
      MotionsOfMotions(log, more[..n]);
      MotionsOne(log + more[..n], more[n]);
      assert log + more == log + more[..n] + [more[n]];
    }
  }

  lemma {:induction false} ExitsAreMotions(s: State, q: State)
    requires IsChild(s, q)
    ensures forall a :: a in Exits(s, q) ==> a.Exited?
  {
    if s != q { ExitsAreMotions(s.super, q); }
  }

  lemma {:induction false} EntriesAreMotions(s: State, q: State)
    requires IsChild(s, q)
    ensures forall a :: a in Entries(s, q) ==> a.Entered?
  {
    if s != q { EntriesAreMotions(s.super, q); }
  }

  lemma MovesAreMotions(log: seq<Action>, s: State, next: State)
    ensures Motions(log + Moves(s, next)) == Motions(log) + Moves(s, next)
  {
    ExitsAreInnermost(s, next);
    ExitsAreMotions(s, ExitsUpTo(s, next));
    EntriesAreMotions(next, ExitsUpTo(s, next));
    MotionsOfMotions(log, Moves(s, next));
  }

  /** Of two superstates of a state one is inside of the other. */
  lemma {:induction false} Comparable(s: State, t: State, u: State)
    requires IsChild(s, t) && IsChild(s, u)
    ensures IsChild(t, u) || ProperChild(u, t)
  {
    if s != t && s != u { Comparable(s.super, t, u); }
  }

  /** What stays, with what is entered, is the path of the next state. */
  lemma SegmentsMakePath(s: State, next: State, t: State)
    requires t.Sub?
    ensures IsChild(s, ExitsUpTo(s, next)) && IsChild(next, ExitsUpTo(s, next))
    ensures var q := ExitsUpTo(s, next);
      t in Path(next) <==> (t in Path(s) && t !in Segment(s, q)) || t in Segment(next, q)
  {
    var q := ExitsUpTo(s, next);
    ExitsAreInnermost(s, next);
    PathIsSuperstates(s, t);
    PathIsSuperstates(next, t);
    SegmentIs(s, q, t);
    SegmentIs(next, q, t);
    if IsChild(next, t) {
      Comparable(next, t, q);
      if IsChild(q, t) { ChildTransitive(s, q, t); }
    }
    if IsChild(s, t) {
      Comparable(s, t, q);
      if IsChild(q, t) { ChildTransitive(next, q, t); }
    }
    if IsChild(q, t) && IsChild(t, q) { ChildAntisymmetric(q, t); }
  }

  // ---------- what a well-nested log says ----------

  function Count(log: seq<Action>, a: Action): nat {
    if log == [] then 0 else Count(log[..|log| - 1], a) + if log[|log| - 1] == a then 1 else 0
  }

  predicate IsPath(active: seq<State>) {
    active == [] || active == Path(active[|active| - 1])
  }

  lemma {:induction false} ReplayIsPath(log: seq<Action>)
    ensures Replay(log).Some? ==> IsPath(Replay(log).value)
  {
    if log != [] {
      ReplayIsPath(log[..|log| - 1]);
      var before := Replay(log[..|log| - 1]);
      if before.Some? && before.value != [] {
        var top := before.value[|before.value| - 1];
        PathTop(top);
        if top.Sub? { PathTop(top.super); assert before.value[..|before.value| - 1] == Path(top.super); }
      }
    }
  }

  /** Every state was entered once more than exited if it is active, and as often otherwise. */
  lemma {:induction false} EntriesBalanceExits(log: seq<Action>, s: State)
    requires Replay(log).Some?
    ensures Count(log, Entered(s)) - Count(log, Exited(s)) == if s in Replay(log).value then 1 else 0
  {
    if log != [] {
      var before := log[..|log| - 1];
      EntriesBalanceExits(before, s);
      ReplayIsPath(before);
      ReplayIsPath(log);
      LeavesOnce(Replay(before).value, log[|log| - 1], s);
    }
  }

  lemma LeavesOnce(active: seq<State>, a: Action, s: State)
    requires IsPath(active) && Then(Some(active), a).Some?
    ensures var after := Then(Some(active), a).value;
      (if s in after then 1 else 0) == (if s in active then 1 else 0)
        + (if a == Entered(s) then 1 else 0) - (if a == Exited(s) then 1 else 0)
  {
    var n := |active|;
    if active != [] {
      var top := active[n - 1];
      PathTop(top);
      PathIsSuperstates(top, s);
      if a == Exited(top) {
        assert active[..n - 1] == Path(top.super);
        PathIsSuperstates(top.super, s);
        if IsChild(top.super, top) { ChildIsDeeper(top.super, top); }
      } else if a.Entered? {
        if a.s == s && IsChild(top, s) { ChildIsDeeper(top, s); }
      }
    }
  }
}
