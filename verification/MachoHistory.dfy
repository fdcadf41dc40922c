/** Which history a transition records, and which record a later history transition finds. */
module MachoHistory {
  import opened Options
  import opened MachoStates

  /** How the state gone to is initialized: parametrised initializers neither use nor clear its history. */
  datatype Initializer = Default | ViaHistory | Parametrised

  datatype Request = Request(target: State, initializer: Initializer)

  /** What happens to history in a run. */
  datatype Step = Moved(from: State, to: State, initializer: Initializer) | Cleared(s: State) | ClearedDeep(s: State)

  /** The exits and entries of the transitions of a run, one after another. */
  function Trace(run: seq<Step>): seq<Action> {
    if run == [] then []
    else
      var last := run[|run| - 1];
      if last.Moved? then Trace(run[..|run| - 1]) + Moves(last.from, last.to) else Trace(run[..|run| - 1])
  }

  lemma TraceOne(run: seq<Step>, step: Step)
    ensures Trace(run + [step]) == if step.Moved? then Trace(run) + Moves(step.from, step.to) else Trace(run)
  {
    assert (run + [step])[..|run|] == run;
  }

  function Lookup(history: map<State, State>, s: State): Option<State> {
    if s in history then Some(history[s]) else None
  }

  /** The direct substate of p on the path to s. */
  function ChildToward(p: State, s: State): State
    requires ProperChild(s, p)
  {
    if s.super == p then s else ChildToward(p, s.super)
  }

  lemma {:induction false} ChildTowardIs(p: State, s: State)
    requires ProperChild(s, p)
    ensures var c := ChildToward(p, s); c.Sub? && c.super == p && IsChild(s, c) && ProperChild(c, p)
  {
    if s.super != p { ChildTowardIs(p, s.super); }
    assert Depth(ChildToward(p, s)) == 1 + Depth(p);
  }

  /** Leaving s is recorded by every proper superstate that keeps history. */
  predicate Records(p: State, s: State) {
    p.Sub? && p.keeps != NoHistory && ProperChild(s, p)
  }

  function Record(p: State, s: State): State
    requires Records(p, s)
  {
    if p.keeps == Deep then s else ChildToward(p, s)
  }

  /** Deep history is the state left, shallow history the direct substate it is inside of. */
  lemma RecordIs(p: State, s: State)
    requires Records(p, s)
    ensures p.keeps == Deep ==> Record(p, s) == s
    ensures p.keeps == Shallow ==> var c := Record(p, s); c.Sub? && c.super == p && IsChild(s, c)
  {
    if p.keeps == Shallow { ChildTowardIs(p, s); }
  }

  function AfterLeaving(before: Option<State>, p: State, from: State): Option<State> {
    if Records(p, from) then Some(Record(p, from)) else before
  }

  function AfterStep(before: Option<State>, p: State, step: Step): Option<State> {
    match step
    case Cleared(s) => if p == s then None else before
    case ClearedDeep(s) => if IsChild(p, s) then None else before
    case Moved(from, to, initializer) =>
      if p == to && initializer != Parametrised then None else AfterLeaving(before, p, from)
  }

  /** The history of p after a run: the last record of p that nothing used or cleared since. */
  function Recalled(run: seq<Step>, p: State): Option<State> {
    if run == [] then None else AfterStep(Recalled(run[..|run| - 1], p), p, run[|run| - 1])
  }

  lemma RecalledOne(run: seq<Step>, step: Step, p: State)
    ensures Recalled(run + [step], p) == AfterStep(Recalled(run, p), p, step)
  {
    assert (run + [step])[..|run|] == run;
  }

  /** A record is a proper substate of its owner. */
  lemma {:induction false} RecalledIsInside(run: seq<Step>, p: State)
    ensures Recalled(run, p).Some? ==> ProperChild(Recalled(run, p).value, p) && p.Sub? && p.keeps != NoHistory
  {
    if run != [] {
      RecalledIsInside(run[..|run| - 1], p);
      var last := run[|run| - 1];
      if last.Moved? && Records(p, last.from) { ChildTowardIs(p, last.from); }
    }
  }

  /** The n-th step is the last one that left a substate of p, and nothing used or cleared p's history since. */
  predicate LastLeft(run: seq<Step>, n: nat, p: State) {
    && n < |run| && run[n].Moved? && ProperChild(run[n].from, p)
    && (run[n].to == p ==> run[n].initializer == Parametrised)
    && forall i :: n < i < |run| ==> LeavesAlone(run[i], p)
  }

  predicate LeavesAlone(step: Step, p: State) {
    match step
    case Cleared(s) => p != s
    case ClearedDeep(s) => !IsChild(p, s)
    case Moved(from, to, initializer) => !ProperChild(from, p) && (p == to ==> initializer == Parametrised)
  }

  /** What was left last is found: deep history keeps it itself, shallow history the direct substate it is inside of. */
  lemma {:induction false} RecordIsFound(run: seq<Step>, n: nat, p: State)
    requires LastLeft(run, n, p) && p.Sub? && p.keeps != NoHistory
    ensures Recalled(run, p) == Some(Record(p, run[n].from))
    ensures p.keeps == Deep ==> Recalled(run, p) == Some(run[n].from)
    ensures p.keeps == Shallow ==>
      var c := Recalled(run, p); c.Some? && c.value.Sub? && c.value.super == p && IsChild(run[n].from, c.value)
  {
    var last := |run| - 1;
    RecordIs(p, run[n].from);
    if n < last {
      RecordIsFound(run[..last], n, p);
      assert LeavesAlone(run[last], p);
    }
  }

  /** And only what was left last is found. */
  lemma {:induction false} OnlyLastLeftIsFound(run: seq<Step>, p: State) returns (n: nat)
    requires Recalled(run, p).Some?
    ensures p.Sub? && p.keeps != NoHistory && LastLeft(run, n, p)
  {
    var last := |run| - 1;
    n := last;
    if !(run[last].Moved? && Records(p, run[last].from)) {
      n := OnlyLastLeftIsFound(run[..last], p);
      assert LeavesAlone(run[last], p);
    }
  }

  /** What a history transition from the state left to p resumes. */
  lemma ResumesLastLeft(run: seq<Step>, p: State, left: State)
    requires p.Sub?
    ensures ProperChild(left, p) && p.keeps == Deep ==> AfterLeaving(Recalled(run, p), p, left) == Some(left)
    ensures ProperChild(left, p) && p.keeps == Shallow ==>
      var c := AfterLeaving(Recalled(run, p), p, left);
      c.Some? && c.value.Sub? && c.value.super == p && IsChild(left, c.value)
    ensures !ProperChild(left, p) ==> AfterLeaving(Recalled(run, p), p, left) == Recalled(run, p)
  {
    if Records(p, left) { RecordIs(p, left); }
  }

  lemma {:induction false} ChildTowardOnly(p: State, s: State, c: State)
    requires c.Sub? && c.super == p && IsChild(s, c)
    ensures ProperChild(s, p) && ChildToward(p, s) == c
  {
    ChildTransitive(s, c, p);
    ChildIsDeeper(s, c);
    if s != c {
      ChildTowardOnly(p, s.super, c);
      ChildIsDeeper(s.super, c);
    }
  }

  // ---------- superstates with history ----------

  /** Whether s or a superstate keeps history: only then do substates pass on what they leave. */
  predicate AnyKeeps(s: State) {
    s.Sub? && (s.keeps != NoHistory || AnyKeeps(s.super))
  }

  lemma {:induction false} NoneKeeps(s: State, p: State)
    requires !AnyKeeps(s) && IsChild(s, p)
    ensures p.Root? || p.keeps == NoHistory
  {
    if s != p { NoneKeeps(s.super, p); }
  }
}
