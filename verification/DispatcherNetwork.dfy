/** Message dispatchers on a fixed wiring of gates: the flooding of registrations, and routing by what it recorded. */
module DispatcherNetwork {
  import opened Options

  type Module = nat

  datatype GateKind = In | Out

  datatype Gate = Gate(owner: Module, kind: GateKind, index: nat)

  datatype Table = Services | Protocols

  datatype Primitive = Request | Indication | Response | Confirm

  /** What is registered: a service or protocol primitive; ANY stands for every protocol. */
  datatype Topic = Topic(table: Table, protocol: int, primitive: Primitive)

  const ANY: int := -1

  /** An entry of a dispatcher's table. */
  datatype Slot = Slot(at: Module, topic: Topic)

  function Opposite(kind: GateKind): GateKind {
    if kind.In? then Out else In
  }

  /**
   The wiring: link gives the gate of the next registration listener on a gate's path, far the module at the path's end,
   and count the number of gates of a kind.
   */
  datatype Wiring = Wiring(dispatchers: set<Module>, link: map<Gate, Gate>, far: Gate -> Module,
                           count: (Module, GateKind) -> nat) {

    /** A gate has one path, which can be followed both ways. */
    ghost predicate Paired() {
      forall g :: g in link ==> link[g] in link && link[link[g]] == g && link[g].kind == Opposite(g.kind)
    }

    /** Where a registration sent through gate o arrives, if at another dispatcher. */
    function Arrival(o: Gate): Option<Gate> {
      if o in link && link[o].owner != o.owner && link[o].owner in dispatchers then Some(link[o]) else None
    }

    /** The dispatcher that recorded gate g passes the registration on through its i-th gate of the other kind. */
    predicate PassesOn(g: Gate, i: nat) {
      i < count(g.owner, Opposite(g.kind)) && far(g) != far(Gate(g.owner, Opposite(g.kind), i))
    }

    /** The dispatcher that recorded g passes on to the dispatcher that hears at h. */
    ghost predicate Neighbours(g: Gate, h: Gate) {
      exists i: nat :: PassesOn(g, i) && Arrival(Gate(g.owner, Opposite(g.kind), i)) == Some(h)
    }
  }

  /**
   The gates at which modules take what they register for: request services and indication protocols at input gates.
   */
  function RegisteredAt(topic: Topic): GateKind {
    if topic.table.Services? == (topic.primitive.Request? || topic.primitive.Response?) then In else Out
  }

  /** The kind of the gates recorded for a topic: those leading to where it is registered. */
  function RecordedKind(topic: Topic): GateKind {
    Opposite(RegisteredAt(topic))
  }

  /** Recorded gates by dispatcher, for one topic. */
  type Plan = map<Module, nat>

  function EntriesOf(gateIndex: map<Slot, nat>, topic: Topic): Plan {
    map s | s in gateIndex && s.topic == topic :: s.at := gateIndex[s]
  }

  lemma OneEntryMore(gateIndex: map<Slot, nat>, slot: Slot, index: nat)
    ensures EntriesOf(gateIndex[slot := index], slot.topic) == EntriesOf(gateIndex, slot.topic)[slot.at := index]
  {
  }

  /** Everything the entry at module m passes on has arrived according to the plan. */
  ghost predicate PassedOn(w: Wiring, kind: GateKind, plan: Plan, m: Module)
    requires m in plan
  {
    forall i: nat {:trigger w.PassesOn(Gate(m, kind, plan[m]), i)} :: w.PassesOn(Gate(m, kind, plan[m]), i) ==>
      Has(plan, w.Arrival(Gate(m, Opposite(kind), i)))
  }

  predicate Has(plan: Plan, arrival: Option<Gate>) {
    arrival.Some? ==> arrival.value.owner in plan && plan[arrival.value.owner] == arrival.value.index
  }

  /** A plan in which every registration that arrives is recorded, each dispatcher recording one gate. */
  ghost predicate Consistent(w: Wiring, kind: GateKind, plan: Plan) {
    forall m :: m in plan ==> PassedOn(w, kind, plan, m)
  }

  /** What a dispatcher passes on through its i-th gate of the other kind is recorded where it arrives. */
  ghost predicate PassedThrough(w: Wiring, kind: GateKind, plan: Plan, m: Module, i: nat)
    requires m in plan
  {
    var g, o := Gate(m, kind, plan[m]), Gate(m, if kind.In? then Out else In, i);
    (i < w.count(m, o.kind) && w.far(g) != w.far(o) &&
     o in w.link && w.link[o].owner != m && w.link[o].owner in w.dispatchers) ==>
      w.link[o].owner in plan && plan[w.link[o].owner] == w.link[o].index
  }

  /** In terms of gates and paths: everything but what would lead back to the module it came from is passed on. */
  lemma ConsistentIs(w: Wiring, kind: GateKind, plan: Plan)
    ensures Consistent(w, kind, plan) <==> forall m, i: nat :: m in plan ==> PassedThrough(w, kind, plan, m, i)
  {
    if Consistent(w, kind, plan) {
      forall m, i: nat | m in plan ensures PassedThrough(w, kind, plan, m, i) {
        assert PassedOn(w, kind, plan, m);
        assert w.PassesOn(Gate(m, kind, plan[m]), i) ==> Has(plan, w.Arrival(Gate(m, Opposite(kind), i)));
      }
    }
    if forall m, i: nat :: m in plan ==> PassedThrough(w, kind, plan, m, i) {
      forall m | m in plan ensures PassedOn(w, kind, plan, m) {
        forall i: nat | w.PassesOn(Gate(m, kind, plan[m]), i) ensures Has(plan, w.Arrival(Gate(m, Opposite(kind), i))) {
          assert PassedThrough(w, kind, plan, m, i);
        }
      }
    }
  }

  ghost predicate Within(entries: Plan, plan: Plan) {
    forall m :: m in entries ==> m in plan && plan[m] == entries[m]
  }

  /** The plans are consistent and keep what is recorded. */
  ghost predicate AllFollow(w: Wiring, kind: GateKind, entries: Plan, plans: iset<Plan>) {
    forall plan {:trigger plan in plans} :: plan in plans ==> Consistent(w, kind, plan) && Within(entries, plan)
  }

  ghost predicate AllHave(plans: iset<Plan>, arrival: Option<Gate>) {
    forall plan {:trigger plan in plans} :: plan in plans ==> Has(plan, arrival)
  }

  /** What is recorded is passed on in all of them. */
  lemma AllPassOn(w: Wiring, entries: Plan, plans: iset<Plan>, g: Gate, i: nat)
    requires AllFollow(w, g.kind, entries, plans) && Has(entries, Some(g)) && w.PassesOn(g, i)
    ensures AllHave(plans, w.Arrival(Gate(g.owner, Opposite(g.kind), i)))
  {
    forall plan | plan in plans ensures Has(plan, w.Arrival(Gate(g.owner, Opposite(g.kind), i))) {
      assert PassedOn(w, g.kind, plan, g.owner) && g == Gate(g.owner, g.kind, plan[g.owner]);
    }
  }

  /** Every entry of next that base does not have is passed on. */
  ghost predicate PassedOnSince(w: Wiring, kind: GateKind, base: Plan, next: Plan) {
    forall m :: m in next && m !in base ==> PassedOn(w, kind, next, m)
  }

  lemma PassedOnGrows(w: Wiring, kind: GateKind, base: Plan, mid: Plan, next: Plan)
    requires Within(mid, next) && PassedOnSince(w, kind, base, mid) && PassedOnSince(w, kind, mid, next)
    ensures PassedOnSince(w, kind, base, next)
  {
    forall m | m in next && m !in base ensures PassedOn(w, kind, next, m) {
      if m in mid {
        assert PassedOn(w, kind, mid, m);
        forall i: nat | w.PassesOn(Gate(m, kind, next[m]), i) ensures Has(next, w.Arrival(Gate(m, Opposite(kind), i))) {
          assert w.PassesOn(Gate(m, kind, mid[m]), i);
        }
      }
    }
  }

  lemma FloodDone(w: Wiring, kind: GateKind, before: Plan, after: Plan)
    requires Consistent(w, kind, before) && Within(before, after) && PassedOnSince(w, kind, before, after)
    ensures Consistent(w, kind, after)
  {
    PassedOnGrows(w, kind, map[], before, after);
  }

  /** A plan that keeps what is recorded, records what arrives, and passes everything on consistently. */
  ghost predicate Extends(w: Wiring, kind: GateKind, entries: Plan, arrival: Option<Gate>, plan: Plan) {
    Consistent(w, kind, plan) && Within(entries, plan) && Has(plan, arrival)
  }

  ghost predicate Recordable(w: Wiring, kind: GateKind, entries: Plan, arrival: Option<Gate>) {
    exists plan :: Extends(w, kind, entries, arrival, plan)
  }

  /** Nothing is recorded that is not in every plan. */
  ghost predicate Least(w: Wiring, kind: GateKind, entries: Plan, arrival: Option<Gate>, after: Plan) {
    forall plan :: Extends(w, kind, entries, arrival, plan) ==> Within(after, plan)
  }

  /** A registration that has an error only if there is no plan leaves a consistent network exactly if it has none. */
  lemma RegisteredIff(w: Wiring, kind: GateKind, before: Plan, after: Plan, arrival: Option<Gate>, plans: iset<Plan>,
                      ok: bool)
    requires Consistent(w, kind, before) && Within(before, after)
    requires ok ==> PassedOnSince(w, kind, before, after) && Has(after, arrival)
    requires (plans != iset{} ==> ok) && AllFollow(w, kind, after, plans)
    requires forall plan {:trigger plan in plans} :: plan in plans <==> Extends(w, kind, before, arrival, plan)
    ensures ok <==> Consistent(w, kind, after) && Has(after, arrival)
    ensures ok <==> Recordable(w, kind, before, arrival)
    ensures (ok ==> Extends(w, kind, before, arrival, after)) && Least(w, kind, before, arrival, after)
  {
    if ok { FloodDone(w, kind, before, after); }
    if Recordable(w, kind, before, arrival) {
      var plan :| Extends(w, kind, before, arrival, plan);
      assert plan in plans;
    }
    forall plan | Extends(w, kind, before, arrival, plan) ensures Within(after, plan) { assert plan in plans; }
    if Extends(w, kind, before, arrival, after) { assert after in plans; }
  }

  lemma NeighbourHas(w: Wiring, kind: GateKind, plan: Plan, g: Gate, h: Gate)
    requires Consistent(w, kind, plan) && g.kind == kind && Has(plan, Some(g)) && w.Neighbours(g, h)
    ensures Has(plan, Some(h))
  {
    var i: nat :| w.PassesOn(g, i) && w.Arrival(Gate(g.owner, Opposite(g.kind), i)) == Some(h);
    assert g == Gate(g.owner, kind, plan[g.owner]) && PassedOn(w, kind, plan, g.owner);
  }

  /** Gates at which dispatchers hear of a registration one after another, each passing it on to the next. */
  ghost predicate Passes(w: Wiring, kind: GateKind, path: seq<Gate>) {
    && (forall i :: 0 <= i < |path| ==> path[i].kind == kind)
    && (forall i {:trigger path[i]} :: 0 <= i < |path| - 1 ==> w.Neighbours(path[i], path[i + 1]))
  }

  /**
   When everything is passed on, every dispatcher on such a path from a recorded gate has recorded its gate on the path.
   */
  lemma {:induction false} FloodReaches(w: Wiring, kind: GateKind, plan: Plan, path: seq<Gate>, i: nat)
    requires Consistent(w, kind, plan) && Passes(w, kind, path) && i < |path| && Has(plan, Some(path[0]))
    ensures Has(plan, Some(path[i]))
  {
    if i > 0 {
      FloodReaches(w, kind, plan, path, i - 1);
      assert w.Neighbours(path[i - 1], path[i]);
      NeighbourHas(w, kind, plan, path[i - 1], path[i]);
    }
  }

  /** What g passes on through its first n gates of the other kind has arrived. */
  ghost predicate PassedFirst(w: Wiring, g: Gate, plan: Plan, n: nat) {
    forall i: nat {:trigger w.PassesOn(g, i)} :: i < n && w.PassesOn(g, i) ==>
        Has(plan, w.Arrival(Gate(g.owner, Opposite(g.kind), i)))
  }

  lemma PassedOneMore(w: Wiring, g: Gate, mid: Plan, next: Plan, n: nat)
    requires PassedFirst(w, g, mid, n) && Within(mid, next)
    requires w.PassesOn(g, n) ==> Has(next, w.Arrival(Gate(g.owner, Opposite(g.kind), n)))
    ensures PassedFirst(w, g, next, n + 1)
  {
  }

  lemma PassedAll(w: Wiring, g: Gate, plan: Plan)
    requires PassedFirst(w, g, plan, w.count(g.owner, Opposite(g.kind))) && Has(plan, Some(g))
    ensures PassedOn(w, g.kind, plan, g.owner)
  {
    assert g == Gate(g.owner, g.kind, plan[g.owner]);
  }

  // ---------- the order of recording ----------

  /**
   The entry leads to a module that registered the topic, or to a dispatcher that recorded it before the n-th entry.
   */
  ghost predicate LeadsBack(w: Wiring, registered: set<Slot>, order: seq<Slot>, n: nat, s: Slot, index: nat)
    requires n <= |order|
  {
    var g := Gate(s.at, RecordedKind(s.topic), index);
    && g in w.link
    && (Slot(w.link[g].owner, s.topic) in registered || Slot(w.link[g].owner, s.topic) in order[..n])
  }

  ghost predicate LoopFree(w: Wiring, registered: set<Slot>, order: seq<Slot>, gateIndex: map<Slot, nat>) {
    && (forall s :: s in gateIndex <==> s in order)
    && (forall i {:trigger order[i]} :: 0 <= i < |order| ==>
        LeadsBack(w, registered, order, i, order[i], gateIndex[order[i]]))
  }

  /** Recording one more entry that leads back keeps the order. */
  lemma LoopFreeGrows(w: Wiring, registered: set<Slot>, order: seq<Slot>, gateIndex: map<Slot, nat>, s: Slot,
                      index: nat)
    requires LoopFree(w, registered, order, gateIndex) && s !in gateIndex
    requires LeadsBack(w, registered, order, |order|, s, index)
    ensures LoopFree(w, registered, order + [s], gateIndex[s := index])
  {
    var more := order + [s];
    forall i | 0 <= i < |more| ensures LeadsBack(w, registered, more, i, more[i], gateIndex[s := index][more[i]]) {
      assert more[..i] == order[..i];
      if i < |order| {
        assert order[i] in gateIndex;
        assert LeadsBack(w, registered, order, i, order[i], gateIndex[order[i]]);
      }
    }
  }

  lemma MoreRegistered(w: Wiring, registered: set<Slot>, order: seq<Slot>, gateIndex: map<Slot, nat>, s: Slot)
    requires LoopFree(w, registered, order, gateIndex)
    ensures LoopFree(w, registered + {s}, order, gateIndex)
  {
    forall i | 0 <= i < |order| ensures LeadsBack(w, registered + {s}, order, i, order[i], gateIndex[order[i]]) {
      assert LeadsBack(w, registered, order, i, order[i], gateIndex[order[i]]);
    }
  }

  /** Tags of a packet or message: a service primitive of None is unset, the protocol is that of the packet itself. */
  datatype Tags = Tags(socketReq: Option<int>, socketInd: Option<int>, dispatch: Option<Dispatch>,
                       protocol: Option<int>, interface: Option<int>)

  datatype Dispatch = Dispatch(protocol: int, primitive: Option<Primitive>)

  datatype Outcome = Through(index: nat) | Failed

  // ---------- the flood ----------

  class Network {
    const w: Wiring
    var gateIndex: map<Slot, nat>
    var socketIndex: map<(Module, int), nat>
    var interfaceIndex: map<(Module, int), nat>
    ghost var order: seq<Slot>
    ghost var registered: set<Slot>

    ghost predicate Ordered()
      reads this
    {
      && w.Paired() && LoopFree(w, registered, order, gateIndex)
      && (forall s :: s in gateIndex ==> s.at in w.dispatchers)
      && (forall s :: s in registered ==> s.at !in w.dispatchers)
    }

    ghost function Entries(topic: Topic): Plan
      reads this
    {
      EntriesOf(gateIndex, topic)
    }

    constructor (w: Wiring)
      requires w.Paired()
      ensures this.w == w && Valid() && gateIndex == map[] && registered == {}
    {
      this.w := w;
      gateIndex := map[];
      socketIndex := map[];
      interfaceIndex := map[];
      order := [];
      registered := {};
    }

    /** As long as no registration failed, everything recorded was passed on. */
    ghost predicate Valid()
      reads this
    {
      Ordered() && forall topic :: Consistent(w, RecordedKind(topic), Entries(topic))
    }

    ghost function Missing(topic: Topic): set<Module>
      reads this
    {
      set m | m in w.dispatchers && Slot(m, topic) !in gateIndex
    }

    /** Entries once set do not change, and only the topic's are added. */
    twostate predicate Grew(topic: Topic)
      reads this
    {
      && registered == old(registered)
      && (forall s :: s in old(gateIndex) ==> s in gateIndex && gateIndex[s] == old(gateIndex)[s])
      && (forall s :: s in gateIndex && s !in old(gateIndex) ==> s.topic == topic)
    }

    /**
     A dispatcher hears of the topic at its gate g. A known topic must have come from the same gate; a new one is
     recorded and passed on through the gates of the other kind that lead to other modules. The plans are any that can
     still be followed: as long as there is one there is no error, and nothing is recorded that is not in all of them.
     */
    method HandleRegister(topic: Topic, g: Gate, ghost plans: iset<Plan>) returns (ok: bool)
      requires Ordered() && g.owner in w.dispatchers && g.kind == RecordedKind(topic)
      requires LeadsBack(w, registered, order, |order|, Slot(g.owner, topic), g.index)
      requires AllFollow(w, g.kind, Entries(topic), plans) && AllHave(plans, Some(g))
      modifies `gateIndex, `order
      ensures Ordered() && Grew(topic) && Within(old(Entries(topic)), Entries(topic))
      ensures ok ==> Has(Entries(topic), Some(g))
      ensures ok ==> PassedOnSince(w, g.kind, old(Entries(topic)), Entries(topic))
      ensures (plans != iset{} ==> ok) && AllFollow(w, RecordedKind(topic), Entries(topic), plans)
      decreases Missing(topic), 0
    {
      var slot := Slot(g.owner, topic);
      if slot in gateIndex {
        return gateIndex[slot] == g.index;
      }
      Record(topic, g);
      ok := PassOn(topic, g, plans);
    }

    method Record(topic: Topic, g: Gate)
      requires Ordered() && g.owner in w.dispatchers && g.kind == RecordedKind(topic)
      requires LeadsBack(w, registered, order, |order|, Slot(g.owner, topic), g.index) &&
          Slot(g.owner, topic) !in gateIndex
      modifies `gateIndex, `order
      ensures Ordered() && Grew(topic) && Entries(topic) == old(Entries(topic))[g.owner := g.index]
      ensures Missing(topic) < old(Missing(topic))
    {
      var slot := Slot(g.owner, topic);
      LoopFreeGrows(w, registered, order, gateIndex, slot, g.index);
      OneEntryMore(gateIndex, slot, g.index);
      assert g.owner in Missing(topic);
      gateIndex := gateIndex[slot := g.index];
      order := order + [slot];
      assert g.owner !in Missing(topic);
    }

    method PassOn(topic: Topic, g: Gate, ghost plans: iset<Plan>) returns (ok: bool)
      requires Ordered() && g.kind == RecordedKind(topic) && Has(Entries(topic), Some(g))
      requires AllFollow(w, g.kind, Entries(topic), plans)
      modifies `gateIndex, `order
      ensures Ordered() && Grew(topic) && Within(old(Entries(topic)), Entries(topic))
      ensures ok ==> PassedOn(w, g.kind, Entries(topic), g.owner)
      ensures ok ==> PassedOnSince(w, g.kind, old(Entries(topic)), Entries(topic))
      ensures (plans != iset{} ==> ok) && AllFollow(w, RecordedKind(topic), Entries(topic), plans)
      decreases Missing(topic), 3
    {
      var size := w.count(g.owner, Opposite(g.kind));
      var i := 0;
      while i < size
        invariant 0 <= i <= size && Ordered() && Grew(topic) && Within(old(Entries(topic)), Entries(topic))
        invariant PassedFirst(w, g, Entries(topic), i)
        invariant PassedOnSince(w, g.kind, old(Entries(topic)), Entries(topic))
        invariant AllFollow(w, g.kind, Entries(topic), plans)
      {
        ghost var mid := Entries(topic);
        ok := PassOnThrough(topic, g, i, plans);
        if !ok { return; }
        PassedOnGrows(w, g.kind, old(Entries(topic)), mid, Entries(topic));
        PassedOneMore(w, g, mid, Entries(topic), i);
        i := i + 1;
      }
      PassedAll(w, g, Entries(topic));
      return true;
    }

    method PassOnThrough(topic: Topic, g: Gate, i: nat, ghost plans: iset<Plan>) returns (ok: bool)
      requires Ordered() && g.kind == RecordedKind(topic) && Has(Entries(topic), Some(g))
      requires i < w.count(g.owner, Opposite(g.kind))
      requires AllFollow(w, g.kind, Entries(topic), plans)
      modifies `gateIndex, `order
      ensures Ordered() && Grew(topic) && Within(old(Entries(topic)), Entries(topic))
      ensures ok && w.PassesOn(g, i) ==> Has(Entries(topic), w.Arrival(Gate(g.owner, Opposite(g.kind), i)))
      ensures ok ==> PassedOnSince(w, g.kind, old(Entries(topic)), Entries(topic))
      ensures (plans != iset{} ==> ok) && AllFollow(w, RecordedKind(topic), Entries(topic), plans)
      decreases Missing(topic), 2
    {
      var other := Gate(g.owner, Opposite(g.kind), i);
      if w.far(g) == w.far(other) { return true; }
      assert w.PassesOn(g, i);
      AllPassOn(w, Entries(topic), plans, g, i);
      ok := Register(topic, other, plans);
    }

    /** Tells the next listener on the gate's path; listeners other than dispatchers do not keep tables. */
    method Register(topic: Topic, o: Gate, ghost plans: iset<Plan>) returns (ok: bool)
      requires Ordered() && o.kind == RegisteredAt(topic)
      requires Slot(o.owner, topic) in registered || Slot(o.owner, topic) in order
      requires AllFollow(w, RecordedKind(topic), Entries(topic), plans) && AllHave(plans, w.Arrival(o))
      modifies `gateIndex, `order
      ensures Ordered() && Grew(topic) && Within(old(Entries(topic)), Entries(topic))
      ensures ok ==> Has(Entries(topic), w.Arrival(o))
      ensures ok ==> PassedOnSince(w, RecordedKind(topic), old(Entries(topic)), Entries(topic))
      ensures (plans != iset{} ==> ok) && AllFollow(w, RecordedKind(topic), Entries(topic), plans)
      decreases Missing(topic), 1
    {
      if o !in w.link { return true; }
      var other := w.link[o];
      if other.owner == o.owner || other.owner !in w.dispatchers { return true; }
      assert order[..|order|] == order;
      ok := HandleRegister(topic, other, plans);
    }

    /**
     A module registers a topic at its gate o. This succeeds exactly if there is a consistent plan: the registration
     reaches no dispatcher through two gates. Then the least such plan is recorded: everything reached, and nothing
     else.
     */
    method RegisterTopic(topic: Topic, o: Gate) returns (ok: bool)
      requires Valid() && o.owner !in w.dispatchers && o.kind == RegisteredAt(topic)
      modifies `gateIndex, `order, `registered
      ensures Ordered() && registered == old(registered) + {Slot(o.owner, topic)}
      ensures forall s :: s in old(gateIndex) ==> s in gateIndex && gateIndex[s] == old(gateIndex)[s]
      ensures forall s :: s in gateIndex && s !in old(gateIndex) ==> s.topic == topic
      ensures ok <==> Recordable(w, RecordedKind(topic), old(Entries(topic)), w.Arrival(o))
      ensures ok <==> Valid() && Has(Entries(topic), w.Arrival(o))
      ensures ok ==> Extends(w, RecordedKind(topic), old(Entries(topic)), w.Arrival(o), Entries(topic))
      ensures Least(w, RecordedKind(topic), old(Entries(topic)), w.Arrival(o), Entries(topic))
    {
      ghost var before := Entries(topic);
      ghost var plans := iset plan | Extends(w, RecordedKind(topic), before, w.Arrival(o), plan);
      MoreRegistered(w, registered, order, gateIndex, Slot(o.owner, topic));
      registered := registered + {Slot(o.owner, topic)};
      ok := Register(topic, o, plans);
      RegisteredIff(w, RecordedKind(topic), before, Entries(topic), w.Arrival(o), plans, ok);
      if ok { OtherTopics(topic); }
    }

    twostate lemma OtherTopics(topic: Topic)
      requires forall s :: s in old(gateIndex) ==> s in gateIndex && gateIndex[s] == old(gateIndex)[s]
      requires forall s :: s in gateIndex && s !in old(gateIndex) ==> s.topic == topic
      requires old(Valid()) && Consistent(w, RecordedKind(topic), Entries(topic))
      ensures forall t :: Consistent(w, RecordedKind(t), Entries(t))
    {
      forall t ensures Consistent(w, RecordedKind(t), Entries(t)) {
        if t != topic { assert Entries(t) == old(Entries(t)); }
      }
    }

    // ---------- registering all primitives ----------

    /** A module registers up to four primitives of a service or protocol, each at its own gate. */
    method RegisterPrimitives(table: Table, protocol: int, request: Option<Gate>, indication: Option<Gate>,
                              response: Option<Gate>, confirm: Option<Gate>) returns (ok: bool)
      requires Valid()
      requires AtGate(request, if table.Services? then In else Out)
      requires AtGate(indication, if table.Services? then Out else In)
      requires AtGate(response, if table.Services? then In else Out)
      requires AtGate(confirm, if table.Services? then Out else In)
      modifies `gateIndex, `order, `registered
      ensures Ordered()
      ensures forall s :: s in old(gateIndex) ==> s in gateIndex && gateIndex[s] == old(gateIndex)[s]
      ensures ok <==>
        && Valid()
        && HeardOf(Topic(table, protocol, Request), request) && HeardOf(Topic(table, protocol, Indication), indication)
        && HeardOf(Topic(table, protocol, Response), response) && HeardOf(Topic(table, protocol, Confirm), confirm)
    {
      ok := RegisterIfGiven(Topic(table, protocol, Request), request);
      if !ok { return; }
      ghost var first := gateIndex;
      ok := RegisterIfGiven(Topic(table, protocol, Indication), indication);
      if !ok { return; }
      ghost var second := gateIndex;
      ok := RegisterIfGiven(Topic(table, protocol, Response), response);
      if !ok { return; }
      ghost var third := gateIndex;
      ok := RegisterIfGiven(Topic(table, protocol, Confirm), confirm);
      HeardStays(first, gateIndex, Topic(table, protocol, Request), request);
      HeardStays(second, gateIndex, Topic(table, protocol, Indication), indication);
      HeardStays(third, gateIndex, Topic(table, protocol, Response), response);
    }

    lemma HeardStays(before: map<Slot, nat>, after: map<Slot, nat>, topic: Topic, o: Option<Gate>)
      requires forall s :: s in before ==> s in after && after[s] == before[s]
      requires o.Some? ==> Has(EntriesOf(before, topic), w.Arrival(o.value))
      ensures o.Some? ==> Has(EntriesOf(after, topic), w.Arrival(o.value))
    {
    }

    predicate AtGate(o: Option<Gate>, kind: GateKind) {
      o.Some? ==> o.value.owner !in w.dispatchers && o.value.kind == kind
    }

    /** The dispatcher at the end of the gate's path has recorded the topic at that gate. */
    ghost predicate HeardOf(topic: Topic, o: Option<Gate>)
      reads this
    {
      o.Some? ==> Has(Entries(topic), w.Arrival(o.value))
    }

    method RegisterIfGiven(topic: Topic, o: Option<Gate>) returns (ok: bool)
      requires Valid() && AtGate(o, RegisteredAt(topic))
      modifies `gateIndex, `order, `registered
      ensures Ordered() && (ok <==> Valid() && HeardOf(topic, o))
      ensures forall s :: s in old(gateIndex) ==> s in gateIndex && gateIndex[s] == old(gateIndex)[s]
    {
      ok := true;
      if o.Some? { ok := RegisterTopic(topic, o.value); }
    }

    // ---------- routing ----------

    /** The gate for a protocol at dispatcher m: its own entry, or else the one for any. */
    function NextIndex(m: Module, topic: Topic): Option<nat>
      reads this
    {
      if Slot(m, topic) in gateIndex then Some(gateIndex[Slot(m, topic)])
      else if Slot(m, topic.(protocol := ANY)) in gateIndex then Some(gateIndex[Slot(m, topic.(protocol := ANY))])
      else None
    }

    /** The gate a packet leaves dispatcher m through. */
    method HandlePacket(m: Module, tags: Tags) returns (r: Outcome)
      ensures tags.socketInd.Some? ==>
        && (r.Through? <==> (m, tags.socketInd.value) in socketIndex)
        && (r.Through? ==> r.index == socketIndex[(m, tags.socketInd.value)])
      ensures
        (tags.socketInd.None? && tags.dispatch.Some? &&
         (tags.dispatch.value.primitive == Some(Request) ||
          (tags.dispatch.value.primitive.None? && tags.protocol != Some(tags.dispatch.value.protocol)))) ==>
        var p := tags.dispatch.value.protocol;
        var own, any := Slot(m, Topic(Services, p, Request)), Slot(m, Topic(Services, ANY, Request));
        && (r.Through? <==> own in gateIndex || any in gateIndex)
        && (r.Through? ==> r.index == gateIndex[if own in gateIndex then own else any])
        && (Ordered() && r.Through? ==> Arrives(m, r.index, own.topic))
        && (Ordered() && own in gateIndex ==> ArrivesAtOwn(m, r.index, own.topic))
      ensures
        (tags.socketInd.None? && tags.dispatch.Some? &&
         (tags.dispatch.value.primitive == Some(Indication) ||
          (tags.dispatch.value.primitive.None? && tags.protocol == Some(tags.dispatch.value.protocol)))) ==>
        var p := tags.dispatch.value.protocol;
        var own, any := Slot(m, Topic(Protocols, p, Indication)), Slot(m, Topic(Protocols, ANY, Indication));
        && (r.Through? <==> own in gateIndex || any in gateIndex)
        && (r.Through? ==> r.index == gateIndex[if own in gateIndex then own else any])
        && (Ordered() && r.Through? ==> Arrives(m, r.index, own.topic))
        && (Ordered() && own in gateIndex ==> ArrivesAtOwn(m, r.index, own.topic))
      ensures
        (tags.socketInd.None? && tags.dispatch.Some? &&
         tags.dispatch.value.primitive in {Some(Response), Some(Confirm)}) ==> r.Failed?
      ensures tags.socketInd.None? && tags.dispatch.None? ==>
        && (r.Through? <==> tags.interface.Some? && (m, tags.interface.value) in interfaceIndex)
        && (r.Through? ==> r.index == interfaceIndex[(m, tags.interface.value)])
    {
      if tags.socketInd.Some? {
        var key := (m, tags.socketInd.value);
        if key in socketIndex { return Through(socketIndex[key]); }
        return Failed;
      }
      if tags.dispatch.Some? {
        var primitive := tags.dispatch.value.primitive;
        var protocol := tags.dispatch.value.protocol;
        if primitive == None {
          primitive := if tags.protocol == Some(protocol) then Some(Indication) else Some(Request);
        }
        r := DispatchFor(m, protocol, primitive.value);
        return;
      }
      if tags.interface.Some? {
        var key := (m, tags.interface.value);
        if key in interfaceIndex { return Through(interfaceIndex[key]); }
      }
      return Failed;
    }

    /** By the protocol's own entry, or else by the one for any: services for requests, protocols for indications. */
    method DispatchFor(m: Module, protocol: int, primitive: Primitive) returns (r: Outcome)
      ensures primitive == Request ==>
        var own, any := Slot(m, Topic(Services, protocol, Request)), Slot(m, Topic(Services, ANY, Request));
        && (r.Through? <==> own in gateIndex || any in gateIndex)
        && (r.Through? ==> r.index == gateIndex[if own in gateIndex then own else any])
        && (Ordered() && r.Through? ==> Arrives(m, r.index, own.topic))
        && (Ordered() && own in gateIndex ==> ArrivesAtOwn(m, r.index, own.topic))
      ensures primitive == Indication ==>
        var own, any := Slot(m, Topic(Protocols, protocol, Indication)), Slot(m, Topic(Protocols, ANY, Indication));
        && (r.Through? <==> own in gateIndex || any in gateIndex)
        && (r.Through? ==> r.index == gateIndex[if own in gateIndex then own else any])
        && (Ordered() && r.Through? ==> Arrives(m, r.index, own.topic))
        && (Ordered() && own in gateIndex ==> ArrivesAtOwn(m, r.index, own.topic))
      ensures primitive == Response || primitive == Confirm ==> r.Failed?
    {
      if Ordered() && primitive == Request { DispatchedIsDelivered(m, Topic(Services, protocol, Request)); }
      if Ordered() && primitive == Indication { DispatchedIsDelivered(m, Topic(Protocols, protocol, Indication)); }
      match primitive {
        case Request =>
          var slot := Slot(m, Topic(Services, protocol, Request));
          if slot in gateIndex { return Through(gateIndex[slot]); }
          var anySlot := Slot(m, Topic(Services, ANY, Request));
          if anySlot in gateIndex { return Through(gateIndex[anySlot]); }
          return Failed;
        case Indication =>
          var slot := Slot(m, Topic(Protocols, protocol, Indication));
          if slot in gateIndex { return Through(gateIndex[slot]); }
          var anySlot := Slot(m, Topic(Protocols, ANY, Indication));
          if anySlot in gateIndex { return Through(gateIndex[anySlot]); }
          return Failed;
        case _ => return Failed;
      }
    }

    /** A message teaches the dispatcher which gate its socket is at; the first gate stays. */
    method HandleMessage(m: Module, inGate: nat, tags: Tags) returns (r: Outcome)
      modifies `socketIndex
      ensures forall k :: k in old(socketIndex) ==> k in socketIndex && socketIndex[k] == old(socketIndex)[k]
      ensures forall k :: k in socketIndex && k !in old(socketIndex) ==>
        Some(k.1) == tags.socketReq && k.0 == m && socketIndex[k] == inGate
      ensures tags.socketReq.Some? ==> (m, tags.socketReq.value) in socketIndex
      ensures tags.socketInd.Some? ==>
        && (r.Through? <==> (m, tags.socketInd.value) in socketIndex)
        && (r.Through? ==> r.index == socketIndex[(m, tags.socketInd.value)])
      ensures tags.socketInd.None? && tags.dispatch.Some? && tags.dispatch.value.primitive in {None, Some(Request)} ==>
        var p := tags.dispatch.value.protocol;
        var own, any := Slot(m, Topic(Services, p, Request)), Slot(m, Topic(Services, ANY, Request));
        && (r.Through? <==> own in gateIndex || any in gateIndex)
        && (r.Through? ==> r.index == gateIndex[if own in gateIndex then own else any])
        && (Ordered() && r.Through? ==> Arrives(m, r.index, own.topic))
        && (Ordered() && own in gateIndex ==> ArrivesAtOwn(m, r.index, own.topic))
      ensures tags.socketInd.None? && tags.dispatch.Some? && tags.dispatch.value.primitive == Some(Indication) ==>
        var p := tags.dispatch.value.protocol;
        var own, any := Slot(m, Topic(Protocols, p, Indication)), Slot(m, Topic(Protocols, ANY, Indication));
        && (r.Through? <==> own in gateIndex || any in gateIndex)
        && (r.Through? ==> r.index == gateIndex[if own in gateIndex then own else any])
        && (Ordered() && r.Through? ==> Arrives(m, r.index, own.topic))
        && (Ordered() && own in gateIndex ==> ArrivesAtOwn(m, r.index, own.topic))
      ensures
        (tags.socketInd.None? && tags.dispatch.Some? &&
         tags.dispatch.value.primitive in {Some(Response), Some(Confirm)}) ==> r.Failed?
      ensures tags.socketInd.None? && tags.dispatch.None? ==>
        && (r.Through? <==> tags.interface.Some? && (m, tags.interface.value) in interfaceIndex)
        && (r.Through? ==> r.index == interfaceIndex[(m, tags.interface.value)])
    {
      if tags.socketReq.Some? {
        var key := (m, tags.socketReq.value);
        if key !in socketIndex { socketIndex := socketIndex[key := inGate]; }
      }
      if tags.socketInd.Some? {
        var key := (m, tags.socketInd.value);
        if key in socketIndex { return Through(socketIndex[key]); }
        return Failed;
      }
      if tags.dispatch.Some? {
        var primitive := if tags.dispatch.value.primitive.Some? then tags.dispatch.value.primitive.value else Request;
        r := DispatchFor(m, tags.dispatch.value.protocol, primitive);
        return;
      }
      if tags.interface.Some? {
        var key := (m, tags.interface.value);
        if key in interfaceIndex { return Through(interfaceIndex[key]); }
      }
      return Failed;
    }

    // ---------- delivery ----------

    /** The module registered the topic, or any protocol's. */
    ghost predicate Takes(m: Module, topic: Topic)
      reads this
    {
      Slot(m, topic) in registered || Slot(m, topic.(protocol := ANY)) in registered
    }

    /**
     Forwarded from dispatcher to dispatcher, what is at m comes to a
     module that takes it in at most the given number of hops.
     */
    ghost predicate Delivered(m: Module, topic: Topic, hops: nat)
      reads this
      decreases hops
    {
      Takes(m, topic) ||
      (hops > 0 && NextIndex(m, topic).Some? &&
       var g := Gate(m, Out, NextIndex(m, topic).value);
       g in w.link && Delivered(w.link[g].owner, topic, hops - 1))
    }

    lemma DeliveredLater(m: Module, topic: Topic, hops: nat, more: nat)
      requires Delivered(m, topic, hops) && hops <= more
      ensures Delivered(m, topic, more)
      decreases hops
    {
      if !Takes(m, topic) {
        DeliveredLater(w.link[Gate(m, Out, NextIndex(m, topic).value)].owner, topic, hops - 1, more - 1);
      }
    }

    /** The i-th entry leads to where the topic is registered, or to the dispatcher of an earlier entry j. */
    lemma WhereItLeads(i: nat) returns (next: Slot, j: nat)
      requires Ordered() && i < |order| && RecordedKind(order[i].topic) == Out
      ensures order[i] in gateIndex && Gate(order[i].at, Out, gateIndex[order[i]]) in w.link
      ensures next == Slot(w.link[Gate(order[i].at, Out, gateIndex[order[i]])].owner, order[i].topic)
      ensures next in registered || (j < i && order[j] == next)
    {
      var slot := order[i];
      assert slot in gateIndex && LeadsBack(w, registered, order, i, slot, gateIndex[slot]);
      next := Slot(w.link[Gate(slot.at, Out, gateIndex[slot])].owner, slot.topic);
      j := 0;
      if next !in registered { j :| 0 <= j < i && order[j] == next; }
    }

    lemma OneMoreHop(m: Module, topic: Topic, index: nat, hops: nat)
      requires NextIndex(m, topic) == Some(index) && Gate(m, Out, index) in w.link
      requires Delivered(w.link[Gate(m, Out, index)].owner, topic, hops)
      ensures Delivered(m, topic, hops + 1)
    {
    }

    /** Entries for the protocol itself lead to where it is registered. */
    lemma {:induction false} DeliveredByOwnEntry(topic: Topic, i: nat)
      requires Ordered() && RecordedKind(topic) == Out && i < |order| && order[i].topic == topic
      ensures Delivered(order[i].at, topic, i + 1)
      decreases i
    {
      var next, j := WhereItLeads(i);
      if next !in registered {
        DeliveredByOwnEntry(topic, j);
        DeliveredLater(next.at, topic, j + 1, i);
      }
    }

    lemma DeliveredAtOwnEntry(m: Module, topic: Topic)
      requires Ordered() && RecordedKind(topic) == Out && Slot(m, topic) in gateIndex
      ensures Delivered(m, topic, |order|)
    {
      var j :| 0 <= j < |order| && order[j] == Slot(m, topic);
      DeliveredByOwnEntry(topic, j);
      DeliveredLater(m, topic, j + 1, |order|);
    }

    /** Entries for any protocol lead to where any is registered, or to a dispatcher that knows the protocol itself. */
    lemma {:induction false} DeliveredByAnyEntry(topic: Topic, i: nat)
      requires Ordered() && RecordedKind(topic) == Out && i < |order| && order[i].topic == topic.(protocol := ANY)
      ensures Delivered(order[i].at, topic, i + 1 + |order|)
      decreases i
    {
      var slot := order[i];
      var own := Slot(slot.at, topic);
      if own in gateIndex {
        DeliveredAtOwnEntry(slot.at, topic);
        DeliveredLater(slot.at, topic, |order|, i + 1 + |order|);
      } else {
        var next, j := WhereItLeads(i);
        if next !in registered {
          DeliveredByAnyEntry(topic, j);
          DeliveredLater(next.at, topic, j + 1 + |order|, i + |order|);
        }
        OneMoreHop(slot.at, topic, gateIndex[slot], i + |order|);
      }
    }

    /** Following the topic's own entries from m, a module that registered the topic itself is reached. */
    ghost predicate Reaches(m: Module, topic: Topic, hops: nat)
      reads this
      decreases hops
    {
      Slot(m, topic) in registered ||
      (hops > 0 && Slot(m, topic) in gateIndex &&
       var g := Gate(m, Out, gateIndex[Slot(m, topic)]);
       g in w.link && Reaches(w.link[g].owner, topic, hops - 1))
    }

    lemma ReachesLater(m: Module, topic: Topic, hops: nat, more: nat)
      requires Reaches(m, topic, hops) && hops <= more
      ensures Reaches(m, topic, more)
      decreases hops
    {
      if Slot(m, topic) !in registered {
        ReachesLater(w.link[Gate(m, Out, gateIndex[Slot(m, topic)])].owner, topic, hops - 1, more - 1);
      }
    }

    /** Own entries lead to a module that registered the topic itself, not only any. */
    lemma {:induction false} ReachedByOwnEntry(topic: Topic, i: nat)
      requires Ordered() && RecordedKind(topic) == Out && i < |order| && order[i].topic == topic
      ensures Reaches(order[i].at, topic, i + 1)
      decreases i
    {
      var next, j := WhereItLeads(i);
      if next !in registered {
        ReachedByOwnEntry(topic, j);
        ReachesLater(next.at, topic, j + 1, i);
      }
    }

    /** What leaves m through the gate comes to a module that registered the topic or any. */
    ghost predicate Arrives(m: Module, index: nat, topic: Topic)
      reads this
    {
      var g := Gate(m, Out, index);
      g in w.link && Delivered(w.link[g].owner, topic, 2 * |order|)
    }

    /** It comes to a module that registered the topic itself. */
    ghost predicate ArrivesAtOwn(m: Module, index: nat, topic: Topic)
      reads this
    {
      var g := Gate(m, Out, index);
      g in w.link && Reaches(w.link[g].owner, topic, |order|)
    }

    /** What a dispatcher can dispatch at all does not loop: it is delivered to a module that takes it. */
    lemma DispatchedIsDelivered(m: Module, topic: Topic)
      requires Ordered() && RecordedKind(topic) == Out
      ensures NextIndex(m, topic).Some? ==>
        Delivered(m, topic, 2 * |order|) && Arrives(m, NextIndex(m, topic).value, topic)
      ensures Slot(m, topic) in gateIndex ==> ArrivesAtOwn(m, gateIndex[Slot(m, topic)], topic)
    {
      if Slot(m, topic) in gateIndex {
        var j :| 0 <= j < |order| && order[j] == Slot(m, topic);
        ReachedByOwnEntry(topic, j);
        ReachesLater(m, topic, j + 1, |order|);
        LeavesTowardOwn(m, topic, |order|);
        DeliveredAtOwnEntry(m, topic);
        DeliveredLater(m, topic, |order|, 2 * |order|);
      } else if NextIndex(m, topic).Some? {
        var j :| 0 <= j < |order| && order[j] == Slot(m, topic.(protocol := ANY));
        DeliveredByAnyEntry(topic, j);
        DeliveredLater(m, topic, j + 1 + |order|, 2 * |order|);
      }
      if NextIndex(m, topic).Some? { LeavesToward(m, topic, 2 * |order|); }
    }

    /** No dispatcher takes anything itself, so what is delivered from there is delivered from where it goes next. */
    lemma LeavesToward(m: Module, topic: Topic, hops: nat)
      requires Ordered() && Delivered(m, topic, hops) && NextIndex(m, topic).Some?
      ensures var g := Gate(m, Out, NextIndex(m, topic).value);
        g in w.link && Delivered(w.link[g].owner, topic, hops)
    {
      assert m in w.dispatchers && !Takes(m, topic);
      DeliveredLater(w.link[Gate(m, Out, NextIndex(m, topic).value)].owner, topic, hops - 1, hops);
    }

    lemma LeavesTowardOwn(m: Module, topic: Topic, hops: nat)
      requires Ordered() && Reaches(m, topic, hops) && Slot(m, topic) in gateIndex && hops <= |order|
      ensures ArrivesAtOwn(m, gateIndex[Slot(m, topic)], topic)
    {
      assert m in w.dispatchers && Slot(m, topic) !in registered;
      ReachesLater(w.link[Gate(m, Out, gateIndex[Slot(m, topic)])].owner, topic, hops - 1, |order|);
    }
  }
}
