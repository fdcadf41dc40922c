/** The transition engine of a hierarchical state machine. */
module MachoMachine {
  import opened Options
  import opened MachoStates
  import opened MachoHistory

  /** What init actions do: the transition the n-th action may ask for, as any function of the state and n. */
  type InitActions = (State, nat) -> Option<Request>

  /** Recorded histories are what the run says. */
  ghost predicate HistoryKept(states: set<State>, history: map<State, State>, run: seq<Step>) {
    && (forall p :: p in history ==> p in states && history[p] in states)
    && (forall p :: p in states ==> Lookup(history, p) == Recalled(run, p))
  }

  /** Every active state has a box. */
  ghost predicate BoxesFor(states: set<State>, boxes: set<State>, s: State) {
    forall t :: t in states && t in Path(s) ==> t in boxes
  }

  /** Boxes deleted on exit exist for active states only. */
  ghost predicate BoxesOnlyFor(states: set<State>, boxes: set<State>, s: State) {
    forall t :: t in states && t.Sub? && t.box == OwnBox && t in boxes ==> t in Path(s)
  }

  lemma NothingOwned(states: set<State>, boxes: set<State>)
    requires BoxesOnlyFor(states, boxes, Root)
    ensures forall s :: s in states && s.Sub? && s.box == OwnBox ==> s !in boxes
  {
  }

  /** Boxes that transitions do not delete are still there. */
  ghost predicate Survive(before: set<State>, after: set<State>) {
    forall s :: s in before && s.Sub? && s.box != OwnBox ==> s in after
  }

  lemma BoxesMoved(states: set<State>, boxes: set<State>, s: State, next: State)
    requires BoxesFor(states, boxes, s) && BoxesOnlyFor(states, boxes, s)
    ensures IsChild(s, ExitsUpTo(s, next)) && IsChild(next, ExitsUpTo(s, next))
    ensures var q := ExitsUpTo(s, next);
            var moved := boxes - (set t | t in Segment(s, q) && t.Sub? && t.box == OwnBox) + Segment(next, q);
            BoxesFor(states, moved, next) && BoxesOnlyFor(states, moved, next)
  {
    ExitsAreInnermost(s, next);
    forall t: State | t.Sub? ensures t in Path(next) <==>
      (t in Path(s) && t !in Segment(s, ExitsUpTo(s, next))) || t in Segment(next, ExitsUpTo(s, next))
    {
      SegmentsMakePath(s, next, t);
    }
    forall t | t in Path(next) ensures t.Sub? { PathIsSuperstates(next, t); }
  }

  lemma HistoryMoved(states: set<State>, history: map<State, State>, moved: map<State, State>, run: seq<Step>,
                     step: Step)
    requires HistoryKept(states, history, run) && step.Moved? && step.from in states
    requires forall p :: Lookup(moved, p) == AfterLeaving(Lookup(history, p), p, step.from)
    requires forall s :: s in states && s.Sub? ==> s.super in states
    ensures HistoryKept(states, if step.initializer == Parametrised then moved else moved - {step.to}, run + [step])
    ensures forall p :: p in moved ==> p in states && moved[p] in states
    ensures step.to in states ==> Lookup(moved, step.to) == AfterLeaving(Recalled(run, step.to), step.to, step.from)
  {
    forall p | p in moved ensures p in states && moved[p] in states {
      assert Lookup(moved, p) == AfterLeaving(Lookup(history, p), p, step.from);
      if Records(p, step.from) { SuperstatesWithin(states, step.from, p); }
    }
    forall p | p in states
      ensures Lookup(if step.initializer == Parametrised then moved else moved - {step.to}, p) ==
          Recalled(run + [step], p)
    {
      RecalledOne(run, step, p);
    }
  }

  lemma RunGoesOn(log: seq<Action>, run: seq<Step>, step: Step)
    requires Motions(log) == Trace(run) && step.Moved?
    ensures Motions(log + Moves(step.from, step.to)) == Trace(run + [step])
  {
    MovesAreMotions(log, step.from, step.to);
    TraceOne(run, step);
  }

  lemma HistoryCleared(states: set<State>, history: map<State, State>, cleared: map<State, State>, run: seq<Step>,
                       step: Step)
    requires HistoryKept(states, history, run) && !step.Moved?
    requires forall p :: Lookup(cleared, p) == AfterStep(Lookup(history, p), p, step)
    ensures HistoryKept(states, cleared, run + [step])
  {
    forall p | p in states ensures Lookup(cleared, p) == Recalled(run + [step], p) { RecalledOne(run, step, p); }
    forall p | p in cleared ensures p in history && cleared[p] == history[p] {
      assert Lookup(cleared, p) == AfterStep(Lookup(history, p), p, step);
    }
  }

  lemma LookupWithout(history: map<State, State>, s: State)
    ensures forall p :: Lookup(history - {s}, p) == AfterStep(Lookup(history, p), p, Cleared(s))
  {
  }

  lemma LookupOutside(history: map<State, State>, cleared: map<State, State>, s: State)
    requires cleared == map p | p in history && !IsChild(p, s) :: history[p]
    ensures forall p :: Lookup(cleared, p) == AfterStep(Lookup(history, p), p, ClearedDeep(s))
  {
  }

  lemma RunCleared(states: set<State>, history: map<State, State>, cleared: map<State, State>, log: seq<Action>,
                   run: seq<Step>, step: Step)
    requires HistoryKept(states, history, run) && !step.Moved? && Motions(log) == Trace(run)
    requires forall p :: Lookup(cleared, p) == AfterStep(Lookup(history, p), p, step)
    ensures HistoryKept(states, cleared, run + [step]) && Motions(log) == Trace(run + [step])
  {
    HistoryCleared(states, history, cleared, run, step);
    TraceOne(run, step);
  }

  lemma {:induction false} SuperstatesWithin(states: set<State>, s: State, p: State)
    requires (forall t :: t in states && t.Sub? ==> t.super in states) && s in states && ProperChild(s, p)
    ensures p in states && ChildToward(p, s) in states
  {
    if s.super != p { SuperstatesWithin(states, s.super, p); }
  }

  class Machine {
    const states: set<State>
    var current: Option<State>
    var pending: Option<Request>
    var history: map<State, State>
    var boxes: set<State>
    var log: seq<Action>
    ghost var run: seq<Step>

    /** Init actions may only ask for transitions to proper substates. */
    ghost predicate Allowed(inits: InitActions) {
      forall s, n :: s in states && inits(s, n).Some? ==>
        inits(s, n).value.target in states && ProperChild(inits(s, n).value.target, s)
    }

    ghost predicate Closed() {
      Root in states && forall s :: s in states && s.Sub? ==> s.super in states
    }

    function Current(): State
      reads this
    {
      if current.Some? then current.value else Root
    }

    /**
     The log is that of the run and replays to the superstates of the current state, which all have boxes and alone
     have boxes of their own; recorded histories are what the run says.
     */
    ghost predicate Stable()
      reads this
    {
      && Closed() && HistoryKept(states, history, run) && Current() in states && Replay(log) == Some(Path(Current()))
      && BoxesFor(states, boxes, Current()) && BoxesOnlyFor(states, boxes, Current())
      && Motions(log) == Trace(run)
    }

    /** Between transitions. */
    ghost predicate Valid()
      reads this
    {
      Stable() && pending.None?
    }

    // ---------- exit and entry ----------

    method Exit(s: State, next: State)
      requires Closed() && s in states && BoxesFor(states, boxes, s)
      modifies `log, `boxes
      ensures IsChild(s, ExitsUpTo(s, next)) && log == old(log) + Exits(s, ExitsUpTo(s, next))
      ensures boxes == old(boxes) - (set t | t in Segment(s, ExitsUpTo(s, next)) && t.Sub? && t.box == OwnBox)
      decreases s
    {
      if s.Root? { return; }
      if s == next || !IsChild(next, s) {
        ExitsAreInnermost(s.super, next);
        ChildIsDeeper(s.super, ExitsUpTo(s.super, next));
        log := log + [Exited(s)];
        assert s in Path(s);
        if s.box != EmptyBox { DeleteBox(s); }
        forall t | t in states && t in Path(s.super) ensures t in boxes {
          PathIsSuperstates(s.super, t);
          if t == s { ChildIsDeeper(s.super, s); }
        }
        Exit(s.super, next);
      }
    }

    /** Persistent boxes are not deleted. */
    method DeleteBox(s: State)
      requires s.Sub? && s in boxes
      modifies `boxes
      ensures boxes == if s.box == PersistentBox then old(boxes) else old(boxes) - {s}
    {
      if s.box != PersistentBox { boxes := boxes - {s}; }
    }

    method Entry(s: State, previous: State, first: bool)
      modifies `log, `boxes
      ensures IsChild(s, EntersFrom(s, previous, first)) && log == old(log) + Entries(s, EntersFrom(s, previous, first))
      ensures boxes == old(boxes) + Segment(s, EntersFrom(s, previous, first))
      decreases s
    {
      if s.Root? { return; }
      if first || !IsChild(previous, s) {
        EntersAtSuperstate(s.super, previous);
        ChildIsDeeper(s.super, EntersFrom(s.super, previous, false));
        Entry(s.super, previous, false);
        if s !in boxes { boxes := boxes + {s}; }
        log := log + [Entered(s)];
      }
    }

    // ---------- history ----------

    /** Tells the superstate of s that s is left, deep being the innermost state left. */
    method SetHistorySuper(s: State, deep: State)
      requires IsChild(deep, s)
      modifies `history
      ensures forall p :: Lookup(history, p)
                       == if ProperChild(s, p) && Records(p, deep) then Some(Record(p, deep))
                           else Lookup(old(history), p)
      ensures forall p {:trigger Lookup(history, p)} :: ProperChild(s, p) && p.Sub? && p.keeps == Deep ==>
        Lookup(history, p) == Some(deep)
      ensures forall p {:trigger Lookup(history, p)} :: ProperChild(s, p) && p.Sub? && p.keeps == Shallow ==>
        var c := Lookup(history, p); c.Some? && c.value.Sub? && c.value.super == p && IsChild(deep, c.value)
      ensures forall p {:trigger Lookup(history, p)} :: !ProperChild(s, p) || p.Root? || p.keeps == NoHistory ==>
        Lookup(history, p) == Lookup(old(history), p)
      decreases s, 0
    {
      if s.Sub? { SaveHistory(s.super, s, deep); }
      forall p | ProperChild(s, p) ensures s.Sub? && IsChild(s.super, p) {}
      forall p | s.Sub? && IsChild(s.super, p) ensures ProperChild(s, p) { ChildIsDeeper(s.super, p); }
    }

    /** Keeps the substate left, or the innermost state left, and passes them on if any superstate keeps history. */
    method SaveHistory(p: State, shallow: State, deep: State)
      requires shallow.Sub? && shallow.super == p && IsChild(deep, shallow)
      modifies `history
      ensures forall r :: Lookup(history, r)
                       == if IsChild(p, r) && Records(r, deep) then Some(Record(r, deep)) else Lookup(old(history), r)
      ensures forall r {:trigger Lookup(history, r)} :: IsChild(p, r) && r.Sub? && r.keeps == Deep ==>
        Lookup(history, r) == Some(deep)
      ensures forall r {:trigger Lookup(history, r)} :: IsChild(p, r) && r.Sub? && r.keeps == Shallow ==>
        var c := Lookup(history, r); c.Some? && c.value.Sub? && c.value.super == r && IsChild(deep, c.value)
      ensures forall r {:trigger Lookup(history, r)} :: !IsChild(p, r) || r.Root? || r.keeps == NoHistory ==>
        Lookup(history, r) == Lookup(old(history), r)
      decreases p, 1
    {
      if p.Root? { return; }
      ChildTowardOnly(p, deep, shallow);
      match p.keeps {
        case NoHistory =>
        case Shallow => history := history[p := shallow];
        case Deep => history := history[p := deep];
      }
      if AnyKeeps(p.super) {
        SetHistorySuper(p, deep);
      } else {
        forall r | IsChild(p.super, r) ensures r.Root? || r.keeps == NoHistory { NoneKeeps(p.super, r); }
      }
    }

    // ---------- init ----------

    /** The same transition may be asked for again; two sets of parameters are never the same. */
    method SetPending(request: Request)
      requires pending.None? || (pending == Some(request) && request.initializer != Parametrised)
      modifies `pending
      ensures pending == Some(request)
    {
      pending := Some(request);
    }

    /** The state's own init action, which may ask for a transition to a proper substate. */
    method InitAction(s: State, inits: InitActions)
      requires s in states && Allowed(inits) && pending.None?
      modifies `pending, `log
      ensures pending == if s.Sub? then inits(s, |old(log)|) else None
      ensures log == if s.Sub? then old(log) + [Initialized(s)] else old(log)
    {
      if s.Root? { return; }
      var request := inits(s, |log|);
      log := log + [Initialized(s)];
      if request.Some? { SetPending(request.value); }
    }

    /** History is used up. */
    method Init(s: State, viaHistory: bool, inits: InitActions)
      requires s in states && Allowed(inits) && pending.None?
      modifies `pending, `log, `history
      ensures history == old(history) - {s}
      ensures viaHistory && s in old(history) ==> pending == Some(Request(old(history)[s], Default)) && log == old(log)
      ensures !(viaHistory && s in old(history)) ==> pending == if s.Sub? then inits(s, |old(log)|) else None
      ensures !(viaHistory && s in old(history)) ==> log == if s.Sub? then old(log) + [Initialized(s)] else old(log)
    {
      if viaHistory && s in history {
        SetPending(Request(history[s], Default));
      } else {
        InitAction(s, inits);
      }
      history := history - {s};
    }

    // ---------- transitions ----------

    /** The record a transition from the current state to s would find in s. */
    ghost function Found(s: State): Option<State>
      reads this
    {
      AfterLeaving(Recalled(run, s), s, Current())
    }

    /** What the history of s should resume after left was left: left itself, or the direct substate it is in. */
    static predicate Resumes(request: Option<Request>, s: State, left: State) {
      && request.Some? && request.value.initializer == Default
      && (s.Sub? && s.keeps == Deep ==> request.value.target == left)
      && (s.Sub? && s.keeps == Shallow ==>
            var c := request.value.target; c.Sub? && c.super == s && IsChild(left, c))
    }

    /** The record that is found is that of the state left last, which may be the current one. */
    lemma LastLeftIsResumed(s: State)
      requires s.Sub? && s.keeps != NoHistory
      ensures ProperChild(Current(), s) ==>
        Found(s).Some? && Resumes(Some(Request(Found(s).value, Default)), s, Current())
      ensures !ProperChild(Current(), s) ==>
        forall n: nat :: LastLeft(run, n, s) ==>
          Found(s).Some? && Resumes(Some(Request(Found(s).value, Default)), s, run[n].from)
    {
      ResumesLastLeft(run, s, Current());
      if !ProperChild(Current(), s) {
        forall n: nat | LastLeft(run, n, s)
          ensures Found(s).Some? && Resumes(Some(Request(Found(s).value, Default)), s, run[n].from)
        {
          RecordIsFound(run, n, s);
        }
      }
    }

    /** Exits, then entries, then the initialization of the target alone. */
    method Transition(inits: InitActions)
      requires current.Some? && Stable() && pending.Some? && pending.value.target in states && Allowed(inits)
      modifies this
      ensures Stable() && current == Some(old(pending).value.target)
      ensures run == old(run) + [Moved(old(Current()), Current(), old(pending).value.initializer)]
      ensures pending.Some? ==> pending.value.target in states && ProperChild(pending.value.target, Current())
      ensures old(pending).value.initializer == ViaHistory && old(Found(pending.value.target)).Some? ==>
        && pending == Some(Request(old(Found(pending.value.target)).value, Default))
        && log == old(log) + Moves(old(Current()), Current())
      ensures
        !(old(pending).value.initializer == ViaHistory && old(Found(pending.value.target)).Some?) && Current().Sub? ==>
          && pending == inits(Current(), |old(log) + Moves(old(Current()), Current())|)
          && log == old(log) + Moves(old(Current()), Current()) + [Initialized(Current())]
      ensures
        !(old(pending).value.initializer == ViaHistory && old(Found(pending.value.target)).Some?) && Current().Root? ==>
          && pending.None? && log == old(log) + Moves(old(Current()), Current())
      ensures Survive(old(boxes), boxes)
      ensures old(pending).value.initializer == ViaHistory && Current().Sub? && Current().keeps != NoHistory ==>
        && (ProperChild(old(Current()), Current()) ==> Resumes(pending, Current(), old(Current())))
        && (!ProperChild(old(Current()), Current()) ==>
              forall n: nat :: LastLeft(old(run), n, Current()) ==> Resumes(pending, Current(), old(run)[n].from))
    {
      var target, initializer := pending.value.target, pending.value.initializer;
      ghost var found := Found(target);
      if target.Sub? && target.keeps != NoHistory { LastLeftIsResumed(target); }
      pending := None;
      MoveOn(target, initializer);
      if found.Some? { FoundInside(old(run), target, old(Current())); }
      Initialize(target, initializer, inits);
    }

    /** Initializes the target, which uses up its history unless there are parameters. */
    method Initialize(s: State, initializer: Initializer, inits: InitActions)
      requires s in states && Allowed(inits) && pending.None? && Replay(log) == Some(Path(s))
      modifies `pending, `log, `history
      ensures Replay(log) == Some(Path(s)) && Motions(log) == old(Motions(log))
      ensures history == if initializer == Parametrised then old(history) else old(history) - {s}
      ensures var resumes := initializer == ViaHistory && s in old(history);
        && pending ==
            (if resumes then Some(Request(old(history)[s], Default)) else if s.Sub? then inits(s, |old(log)|) else None)
        && log == if !resumes && s.Sub? then old(log) + [Initialized(s)] else old(log)
    {
      ReplayInit(log, s);
      MotionsOne(log, Initialized(s));
      match initializer {
        case Default => Init(s, false, inits);
        case ViaHistory => Init(s, true, inits);
        case Parametrised => InitAction(s, inits);
      }
    }

    method MoveOn(target: State, initializer: Initializer)
      requires current.Some? && Stable() && target in states
      modifies `current, `history, `boxes, `log, `run
      ensures current == Some(target) && log == old(log) + Moves(old(Current()), target)
      ensures Replay(log) == Some(Path(target))
      ensures BoxesFor(states, boxes, target) && BoxesOnlyFor(states, boxes, target)
      ensures run == old(run) + [Moved(old(Current()), target, initializer)] && Motions(log) == Trace(run)
      ensures HistoryKept(states, if initializer == Parametrised then history else history - {target}, run)
      ensures Lookup(history, target) == old(Found(target)) && (target in history ==> history[target] in states)
      ensures Survive(old(boxes), boxes)
    {
      Move(target);
      ghost var step := Moved(old(Current()), target, initializer);
      HistoryMoved(states, old(history), history, run, step);
      RunGoesOn(old(log), run, step);
      run := run + [step];
    }

    lemma FoundInside(before: seq<Step>, p: State, from: State)
      requires AfterLeaving(Recalled(before, p), p, from).Some?
      ensures ProperChild(AfterLeaving(Recalled(before, p), p, from).value, p)
    {
      RecalledIsInside(before, p);
      if Records(p, from) { ChildTowardIs(p, from); }
    }

    /** Leaves the current state, which is when history is recorded, and enters the target. */
    method Move(target: State)
      requires current.Some? && Stable() && target in states
      modifies `current, `history, `boxes, `log
      ensures current == Some(target) && log == old(log) + Moves(old(Current()), target)
      ensures Replay(log) == Some(Path(target))
      ensures BoxesFor(states, boxes, target) && BoxesOnlyFor(states, boxes, target)
      ensures forall p :: Lookup(history, p) == AfterLeaving(Lookup(old(history), p), p, old(Current()))
      ensures Survive(old(boxes), boxes)
    {
      var previous := current.value;
      BoxesMoved(states, boxes, previous, target);
      ExitsMeetEntries(previous, target);
      ReplayMoves(log, previous, target);
      Exit(previous, target);
      SetHistorySuper(previous, previous);
      current := Some(target);
      Entry(target, previous, true);
    }

    // ---------- runs ----------

    /**
     From its n-th step on a run settles: each transition goes on from where the last one went, to a proper substate.
     */
    ghost static predicate Settles(run: seq<Step>, n: nat) {
      forall i :: n <= i < |run| - 1 ==> GoesDown(run[i], run[i + 1])
    }

    ghost static predicate GoesDown(step: Step, next: Step) {
      step.Moved? && next.Moved? && next.from == step.to && ProperChild(next.to, next.from)
    }

    ghost function Below(s: State): set<State> {
      set t | t in states && ProperChild(t, s)
    }

    lemma BelowShrinks(t: State, s: State)
      requires ProperChild(t, s) && t in states
      ensures Below(t) < Below(s)
    {
      forall u | u in Below(t) ensures u in Below(s) {
        ChildTransitive(u, t, s);
        if u == s { ChildAntisymmetric(s, t); }
      }
      assert t in Below(s) && t !in Below(t);
    }

    /** The run went on from its n-th step by start and then down to the current state, and goes on down if at all. */
    ghost predicate Rattled(n: nat, start: Step)
      requires start.Moved?
      reads this
    {
      && n < |run| && run[n] == start && Settles(run, n)
      && run[|run| - 1].Moved? && run[|run| - 1].to == Current() && IsChild(Current(), start.to)
      && (pending.Some? ==> ProperChild(pending.value.target, Current()))
    }

    method RattleRound(inits: InitActions, ghost n: nat, ghost start: Step)
      requires current.Some? && Stable() && pending.Some? && pending.value.target in states && Allowed(inits)
      requires start.Moved? && n <= |run|
      requires if n == |run| then start == Moved(Current(), pending.value.target, pending.value.initializer)
          else Rattled(n, start)
      modifies this
      ensures current.Some? && Stable() && Rattled(n, start)
      ensures |run| == |old(run)| + 1 && run[..|old(run)|] == old(run) && Survive(old(boxes), boxes)
      ensures pending.Some? ==>
          pending.value.target in states && Below(pending.value.target) < Below(old(pending).value.target)
    {
      ghost var before, next := Current(), pending.value.target;
      if |run| > n { ChildTransitive(next, before, start.to); }
      Transition(inits);
      if pending.Some? { BelowShrinks(pending.value.target, next); }
    }

    /** Performs the pending transition, and those that init actions and histories ask for in turn. */
    method RattleOn(inits: InitActions)
      requires current.Some? && Stable() && (pending.Some? ==> pending.value.target in states) && Allowed(inits)
      modifies this
      ensures Valid() && current.Some?
      ensures old(pending).None? ==>
        run == old(run) && current == old(current) && log == old(log) && boxes == old(boxes) && history == old(history)
      ensures old(pending).Some? ==>
        && Rattled(|old(run)|, Moved(old(Current()), old(pending).value.target, old(pending).value.initializer))
        && run[..|old(run)|] == old(run)
      ensures Survive(old(boxes), boxes)
    {
      ghost var n := |run|;
      ghost var request := if pending.Some? then pending.value else Request(Root, Default);
      ghost var start := Moved(Current(), request.target, request.initializer);
      while pending.Some?
        invariant current.Some? && Stable() && (pending.Some? ==> pending.value.target in states)
        invariant |run| >= n && run[..n] == old(run) && Survive(old(boxes), boxes) &&
            (old(pending).None? ==> |run| == n)
        invariant |run| == n ==> pending == old(pending) && current == old(current)
        invariant |run| == n ==> log == old(log) && boxes == old(boxes) && history == old(history)
        invariant |run| > n ==> Rattled(n, start)
        decreases pending.Some?, if pending.Some? then Below(pending.value.target) else {}
      {
        RattleRound(inits, n, start);
      }
    }

    method SetState(request: Request, inits: InitActions)
      requires current.Some? && Valid() && request.target in states && Allowed(inits)
      modifies this
      ensures Valid() && current.Some? && IsChild(Current(), request.target)
      ensures |run| > |old(run)| && run[..|old(run)|] == old(run) && Settles(run, |old(run)|)
        && run[|old(run)|] == Moved(old(Current()), request.target, request.initializer)
      ensures Survive(old(boxes), boxes)
    {
      SetPending(request);
      RattleOn(inits);
    }

    /** A machine over a finite state tree, started in one of its states. */
    constructor Start(states: set<State>, request: Request, inits: InitActions)
      requires Root in states && (forall s :: s in states && s.Sub? ==> s.super in states) && request.target in states
      requires forall s, n :: s in states && inits(s, n).Some? ==>
        inits(s, n).value.target in states && ProperChild(inits(s, n).value.target, s)
      ensures this.states == states && Valid() && current.Some? && IsChild(Current(), request.target)
      ensures run != [] && run[0] == Moved(Root, request.target, request.initializer) && Settles(run, 0)
    {
      this.states := states;
      current := Some(Root);
      pending := None;
      history := map[];
      boxes := {};
      log := [];
      run := [];
      new;
      SetState(request, inits);
    }

    /** Exits every active state by going to Root. */
    method Shutdown(inits: InitActions)
      requires current.Some? && Valid() && Allowed(inits)
      modifies this
      ensures Valid() && current.None? && Replay(log) == Some([])
      ensures forall s :: s in states && s.Sub? && s.box == OwnBox ==> s !in boxes
      ensures IsChild(old(Current()), Root) && log == old(log) + Exits(old(Current()), Root)
      ensures Survive(old(boxes), boxes)
    {
      SetPending(Request(Root, Default));
      RootOfAll(Current());
      ExitsToRoot(Current());
      Transition(inits);
      RattleOn(inits);
      NothingOwned(states, boxes);
      current := None;
    }

    lemma ExitsToRoot(s: State)
      ensures IsChild(s, Root) && Moves(s, Root) == Exits(s, Root)
    {
      RootOfAll(s);
      ExitsAreInnermost(s, Root);
      if IsChild(Root, ExitsUpTo(s, Root)) { assert ExitsUpTo(s, Root) == Root; }
    }

    // ---------- clearing history ----------

    method ClearHistory(s: State)
      requires Valid() && s in states
      modifies `history, `run
      ensures Valid() && history == old(history) - {s} && run == old(run) + [Cleared(s)]
    {
      LookupWithout(history, s);
      history := history - {s};
      run := run + [Cleared(s)];
      RunCleared(states, old(history), history, old(log), old(run), Cleared(s));
    }

    method ClearEach(s: State)
      requires forall p :: p in history ==> p in states
      modifies `history
      ensures history == map p | p in old(history) && !IsChild(p, s) :: old(history)[p]
    {
      var rest := states;
      while rest != {}
        invariant rest <= states
        invariant history == map p | p in old(history) && (p in rest || !IsChild(p, s)) :: old(history)[p]
        decreases rest
      {
        var p :| p in rest;
        if IsChild(p, s) { history := history - {p}; }
        rest := rest - {p};
      }
    }

    /** Clears the history of s and of all its substates. */
    method ClearHistoryDeep(s: State)
      requires Valid() && s in states
      modifies `history, `run
      ensures Valid() && run == old(run) + [ClearedDeep(s)]
      ensures history == map p | p in old(history) && !IsChild(p, s) :: old(history)[p]
    {
      ClearEach(s);
      LookupOutside(old(history), history, s);
      run := run + [ClearedDeep(s)];
      RunCleared(states, old(history), history, old(log), old(run), ClearedDeep(s));
    }
  }
}
