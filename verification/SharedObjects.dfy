/** The cache and the registry together, as a transition system on service objects. */
module SharedObjects {
  import opened Cache
  import opened CacheRefinement
  import opened Convergence
  import opened MemoryRegistry
  import opened Registry
  import opened Sharing
  import opened Wrappers

  // The event that a call emits points to the caller's own object, and `update` writes into that object and
  // caches it. While no object is used twice, this is the system of `Convergence`; a call that passes an object
  // again can break it.

  // ----- The transition system on objects -----

  /** As `Sys`, but the entry and the pending events point into the heap. */
  datatype HeapSys = HeapSys(heap: Heap, records: Records, queue: seq<Posted>, held: bool, entry: Option<seq<nat>>,
                             status: bool, flights: map<nat, Flight>)

  /** In a call, the caller passes `obj`, which is one of its objects or a new one, with the service of the
      step written into it. The other steps have no use for `obj`. */
  datatype HeapStep = HeapStep(step: Step, obj: nat)

  function Value(s: HeapSys): Sys
  {
    Sys(s.records, Events(s.heap, s.queue), s.held, ValueOf(s.heap, s.entry), s.status, s.flights)
  }

  function ValueOf(h: Heap, entry: Option<seq<nat>>): Option<seq<Service>>
  {
    if entry.Some? then Some(Values(h, entry.value)) else None
  }

  function RefsOf(entry: Option<seq<nat>>): seq<nat>
  {
    if entry.Some? then entry.value else []
  }

  /** Every reference that the system holds. */
  function Refs(s: HeapSys): seq<nat>
  {
    RefsOf(s.entry) + Objs(s.queue)
  }

  predicate HeapEnabled(name: string, s: HeapSys, st: HeapStep)
  {
    Enabled(name, Value(s), st.step) && st.obj <= |s.heap|
  }

  function Pass(h: Heap, obj: nat, svc: Service): Heap
    requires obj <= |h|
  {
    if obj < |h| then h[obj := svc] else h + [svc]
  }

  function HeapEmit(name: string, s: HeapSys, heap: Heap, obj: nat, changed: (Records, Option<Event>)): HeapSys
  {
    var (records, ev) := changed;
    if ev.None? || ev.value.service.name != name then s.(heap := heap, records := records) else
    s.(heap := heap, records := records, queue := s.queue + [Posted(ev.value.action, obj)],
       flights := map id | id in s.flights :: s.flights[id].(emitted := s.flights[id].emitted + 1))
  }

  /** What `update` makes of heap and entry; a list that should be dropped stays while the registry fails. */
  function HeapApplied(h: Heap, entry: Option<seq<nat>>, e: Posted, status: bool): (Heap, Option<seq<nat>>)
  {
    if entry.None? then (h, None) else
    var (h', list) := HeapUpdate(h, entry.value, e);
    match list
    case KeepRefs => (h', entry)
    case DropRefs => (h', if status then entry else None)
    case SetRefs(refs) => (h', Some(refs))
  }

  function HeapAfter(name: string, s: HeapSys, st: HeapStep): HeapSys
    requires HeapEnabled(name, s, st)
  {
    match st.step
    case Register(svc, ttl, now) =>
      HeapEmit(name, s, Pass(s.heap, st.obj, svc), st.obj, Registered(s.records, svc, ttl, now))
    case Deregister(svc) =>
      HeapEmit(name, s, Pass(s.heap, st.obj, svc), st.obj, Deregistered(s.records, svc))
    case Take => s.(held := true, status := false)
    case Apply =>
      var (heap, entry) := HeapApplied(s.heap, s.entry, s.queue[0], s.status);
      s.(queue := s.queue[1..], held := false, heap := heap, entry := entry)
    case Fetch(id, snapshot) => s.(flights := s.flights[id := Flight(snapshot, 0)])
    case Store(id) =>
      var snapshot := s.flights[id].snapshot;
      s.(heap := s.heap + snapshot, entry := Some(Copies(s.heap, snapshot)), status := false)
    case Forget(id) => s.(flights := s.flights - {id})
    case RefillFails => s.(status := true)
    case Recovers => s.(status := false)
  }

  function EntryOf(entries: map<string, seq<nat>>, name: string): Option<seq<nat>>
  {
    if name in entries then Some(entries[name]) else None
  }

  /** `Apply` is what `update` does to a watched name; the lists of other names, and what is in them, stay. */
  lemma ApplyIsUpdate(c: Cache, e: Posted, now: int, name: string)
    requires c.Valid() && e.obj < |c.heap| && c.heap[e.obj].name in c.watched
    ensures var (heap, entries, ttls) := c.Updated(e, now);
      if name == c.heap[e.obj].name then
        (heap, EntryOf(entries, name)) == HeapApplied(c.heap, EntryOf(c.entries, name), e, c.status)
      else
        ValueOf(heap, EntryOf(entries, name)) == ValueOf(c.heap, EntryOf(c.entries, name))
  {
    var own := c.heap[e.obj].name;
    if own in c.entries {
      UpdateKeepsOwn(c.heap, c.entries, e);
      var (heap, list) := HeapUpdate(c.heap, c.entries[own], e);
      if name != own && name in c.entries {
        forall r <- c.entries[name] ensures At(heap, r) == At(c.heap, r) {
          UpdateElsewhere(c.heap, c.entries[own], e, r);
        }
        ValuesElsewhere(c.heap, heap, c.entries[name]);
      }
    }
  }

  // ----- Runs in which each call passes an object of its own -----

  /** A call passes an object that is neither pending nor cached, or one as it is and without an event, as
      when known nodes are registered again. */
  predicate Own(name: string, s: HeapSys, st: HeapStep)
  {
    match st.step
    case Register(svc, ttl, now) => OwnCall(name, s, st.obj, svc, Registered(s.records, svc, ttl, now).1)
    case Deregister(svc) => OwnCall(name, s, st.obj, svc, Deregistered(s.records, svc).1)
    case _ => true
  }

  predicate OwnCall(name: string, s: HeapSys, obj: nat, svc: Service, ev: Option<Event>)
  {
    obj !in Refs(s) || (obj < |s.heap| && s.heap[obj] == svc && (ev.None? || svc.name != name))
  }

  /** Writing into an object that the system does not refer to. */
  lemma PassOnValues(s: HeapSys, obj: nat, svc: Service)
    requires Unshared(s.heap, Refs(s)) && obj <= |s.heap| && obj !in Refs(s)
    ensures var h' := Pass(s.heap, obj, svc);
      && Events(h', s.queue) == Events(s.heap, s.queue) && ValueOf(h', s.entry) == ValueOf(s.heap, s.entry)
      && Unshared(h', Refs(s) + [obj])
  {
    var h' := Pass(s.heap, obj, svc);
    NoRepeatsParts(Refs(s), [obj]);
    assert forall r <- Refs(s) :: At(h', r) == At(s.heap, r);
    assert forall r <- RefsOf(s.entry) :: r in Refs(s);
    assert forall r <- Objs(s.queue) :: r in Refs(s);
    ValuesElsewhere(s.heap, h', RefsOf(s.entry));
    EventsElsewhere(s.heap, h', s.queue);
  }

  lemma EventsSnoc(h: Heap, queue: seq<Posted>, e: Posted)
    ensures Events(h, queue + [e]) == Events(h, queue) + [EventOf(h, e)]
    ensures Objs(queue + [e]) == Objs(queue) + [e.obj]
  {
  }

  lemma EmitOnValues(name: string, s: HeapSys, obj: nat, svc: Service, changed: (Records, Option<Event>))
    requires Unshared(s.heap, Refs(s)) && obj <= |s.heap| && OwnCall(name, s, obj, svc, changed.1)
    requires changed.1.Some? ==> changed.1.value.service == svc
    ensures var s' := HeapEmit(name, s, Pass(s.heap, obj, svc), obj, changed);
      Value(s') == Emit(name, Value(s), changed.0, changed.1) && Unshared(s'.heap, Refs(s'))
  {
    var h' := Pass(s.heap, obj, svc);
    if obj in Refs(s) {
      assert s.heap[obj := svc] == s.heap;
    } else {
      PassOnValues(s, obj, svc);
      if changed.1.Some? && svc.name == name {
        var e := Posted(changed.1.value.action, obj);
        EventsSnoc(h', s.queue, e);
        PlusThree(RefsOf(s.entry), Objs(s.queue), [obj]);
      } else {
        NoRepeatsParts(Refs(s), [obj]);
        assert forall r <- Refs(s) :: r in Refs(s) + [obj];
      }
    }
  }

  lemma PlusThree(a: seq<nat>, b: seq<nat>, c: seq<nat>)
    ensures a + (b + c) == a + b + c
  {
  }

  lemma AppliedOnValues(h: Heap, entry: Option<seq<nat>>, e: Posted, rest: seq<Posted>, status: bool)
    requires Unshared(h, RefsOf(entry) + [e.obj] + Objs(rest))
    ensures var (h', entry') := HeapApplied(h, entry, e, status);
      && ValueOf(h', entry') == AppliedUnder(ValueOf(h, entry), EventOf(h, e), status)
      && Events(h', rest) == Events(h, rest)
      && Unshared(h', RefsOf(entry') + Objs(rest))
  {
    UnsharedWithout(h, RefsOf(entry), [e.obj], Objs(rest));
    if entry.Some? {
      UpdateOnValues(h, entry.value, e, rest);
    }
    assert [] + Objs(rest) == Objs(rest);
  }

  lemma UnsharedWithout(h: Heap, a: seq<nat>, b: seq<nat>, c: seq<nat>)
    requires Unshared(h, a + b + c)
    ensures Unshared(h, a + c) && Unshared(h, c)
  {
    NoRepeatsParts(a + b, c);
    NoRepeatsParts(a, b);
    NoRepeatsParts(a, c);
    assert forall r <- a + c :: r in a + b + c;
    assert forall r <- c :: r in a + b + c;
  }

  lemma EventsCons(h: Heap, queue: seq<Posted>)
    requires queue != []
    ensures Events(h, queue)[1..] == Events(h, queue[1..])
    ensures Objs(queue) == [queue[0].obj] + Objs(queue[1..])
  {
  }

  lemma ApplyOnValues(name: string, s: HeapSys, st: HeapStep)
    requires Unshared(s.heap, Refs(s)) && HeapEnabled(name, s, st) && st.step == Apply
    ensures var s' := HeapAfter(name, s, st);
      Value(s') == After(name, Value(s), Apply) && Unshared(s'.heap, Refs(s'))
  {
    var e, rest := s.queue[0], s.queue[1..];
    EventsCons(s.heap, s.queue);
    PlusThree(RefsOf(s.entry), [e.obj], Objs(rest));
    AppliedOnValues(s.heap, s.entry, e, rest, s.status);
  }

  lemma StoreOnValues(name: string, s: HeapSys, st: HeapStep)
    requires Unshared(s.heap, Refs(s)) && HeapEnabled(name, s, st) && st.step.Store?
    ensures var s' := HeapAfter(name, s, st);
      Value(s') == After(name, Value(s), st.step) && Unshared(s'.heap, Refs(s'))
  {
    var snapshot := s.flights[st.step.id].snapshot;
    CopiesValues(s.heap, snapshot);
    assert forall r <- Objs(s.queue) :: r in Refs(s);
    EventsElsewhere(s.heap, s.heap + snapshot, s.queue);
    NoRepeatsParts(RefsOf(s.entry), Objs(s.queue));
    NoRepeatsParts(Copies(s.heap, snapshot), Objs(s.queue));
  }

  /** A step on objects, with a call passing an object of its own, is the step on values. */
  lemma StepOnValues(name: string, s: HeapSys, st: HeapStep)
    requires Unshared(s.heap, Refs(s)) && HeapEnabled(name, s, st) && Own(name, s, st)
    ensures var s' := HeapAfter(name, s, st);
      Value(s') == After(name, Value(s), st.step) && Unshared(s'.heap, Refs(s'))
  {
    match st.step
    case Register(svc, ttl, now) =>
      RegisterHolds(s.records, svc, ttl, now);
      EmitOnValues(name, s, st.obj, svc, Registered(s.records, svc, ttl, now));
    case Deregister(svc) =>
      DeregisterHolds(s.records, svc);
      EmitOnValues(name, s, st.obj, svc, Deregistered(s.records, svc));
    case Apply => ApplyOnValues(name, s, st);
    case Store(_) => StoreOnValues(name, s, st);
    case Take =>
    case Fetch(_, _) =>
    case Forget(_) =>
    case RefillFails =>
    case Recovers =>
  }

  predicate IsHeapRun(name: string, states: seq<HeapSys>, steps: seq<HeapStep>)
  {
    && |states| == |steps| + 1
    && Initial(Value(states[0]))
    && forall i :: 0 <= i < |steps| ==>
         HeapEnabled(name, states[i], steps[i]) && states[i + 1] == HeapAfter(name, states[i], steps[i])
  }

  predicate PassesOwn(name: string, states: seq<HeapSys>, steps: seq<HeapStep>)
    requires |states| == |steps| + 1
  {
    forall i :: 0 <= i < |steps| ==> Own(name, states[i], steps[i])
  }

  predicate AllTimely(states: seq<HeapSys>, steps: seq<HeapStep>)
    requires |states| == |steps| + 1
  {
    forall i :: 0 <= i < |steps| ==> Timely(Value(states[i]), steps[i].step)
  }

  ghost predicate Unharmed(states: seq<HeapSys>, steps: seq<HeapStep>)
    requires |states| == |steps| + 1
  {
    forall i :: 0 <= i < |steps| && steps[i].step.Apply? ==> !Harmful(Value(states[i]))
  }

  function ValueStates(states: seq<HeapSys>): seq<Sys>
  {
    seq(|states|, i requires 0 <= i < |states| => Value(states[i]))
  }

  function ValueSteps(steps: seq<HeapStep>): seq<Step>
  {
    seq(|steps|, i requires 0 <= i < |steps| => steps[i].step)
  }

  lemma {:induction false} RunUnshared(name: string, states: seq<HeapSys>, steps: seq<HeapStep>, i: nat)
    requires IsHeapRun(name, states, steps) && PassesOwn(name, states, steps) && i <= |steps|
    ensures Unshared(states[i].heap, Refs(states[i]))
  {
    if i > 0 {
      RunUnshared(name, states, steps, i - 1);
      StepOnValues(name, states[i - 1], steps[i - 1]);
    } else {
      assert states[0].queue == [] by { assert |Events(states[0].heap, states[0].queue)| == |states[0].queue|; }
    }
  }

  /** Such a run on objects is a run on values. */
  lemma RunOnValues(name: string, states: seq<HeapSys>, steps: seq<HeapStep>)
    requires IsHeapRun(name, states, steps) && PassesOwn(name, states, steps)
    ensures IsRun(name, ValueStates(states), ValueSteps(steps))
  {
    forall i | 0 <= i < |steps|
      ensures Value(states[i + 1]) == After(name, Value(states[i]), steps[i].step)
    {
      RunUnshared(name, states, steps, i);
      StepOnValues(name, states[i], steps[i]);
    }
  }

  /** Convergence with objects: as `CacheConverges`, in every run in which each call passes an object of
      its own. */
  lemma HeapCacheConverges(name: string, states: seq<HeapSys>, steps: seq<HeapStep>, i: nat)
    requires IsHeapRun(name, states, steps) && PassesOwn(name, states, steps)
    requires AllTimely(states, steps) && Unharmed(states, steps)
    requires i <= |steps| && states[i].queue == [] && states[i].entry.Some?
    ensures forall v, id ::
      Listed(Values(states[i].heap, states[i].entry.value), v, id) <==> Holds(states[i].records, name, v, id)
  {
    RunOnValues(name, states, steps);
    CacheConverges(name, ValueStates(states), ValueSteps(steps), i);
  }

  // ----- Runs in which an object is passed again -----

  /** No step happens while the registry is known to fail. */
  predicate Calm(states: seq<HeapSys>)
  {
    forall s <- states :: !s.status
  }

  lemma LongerHeapRun(name: string, states: seq<HeapSys>, steps: seq<HeapStep>, st: HeapStep)
    requires IsHeapRun(name, states, steps) && HeapEnabled(name, states[|steps|], st)
    ensures IsHeapRun(name, states + [HeapAfter(name, states[|steps|], st)], steps + [st])
  {
  }

  lemma HeapRunGoesOn(name: string, states: seq<HeapSys>, steps: seq<HeapStep>, st: HeapStep)
    returns (longer: seq<HeapSys>)
    requires IsHeapRun(name, states, steps) && AllTimely(states, steps) && Calm(states)
    requires HeapEnabled(name, states[|steps|], st) && Timely(Value(states[|steps|]), st.step)
    requires !HeapAfter(name, states[|steps|], st).status
    ensures longer == states + [HeapAfter(name, states[|steps|], st)]
    ensures IsHeapRun(name, longer, steps + [st]) && AllTimely(longer, steps + [st]) && Calm(longer)
  {
    longer := states + [HeapAfter(name, states[|steps|], st)];
    LongerHeapRun(name, states, steps, st);
    forall i | 0 <= i < |steps + [st]|
      ensures Timely(Value(longer[i]), (steps + [st])[i].step)
    {
      assert longer[i] == states[i];
    }
  }

  /** The next event is taken and applied. */
  lemma NextIsDelivered(name: string, states: seq<HeapSys>, steps: seq<HeapStep>)
    returns (states': seq<HeapSys>, steps': seq<HeapStep>)
    requires IsHeapRun(name, states, steps) && AllTimely(states, steps) && Calm(states)
    requires states[|steps|].queue != [] && !states[|steps|].held
    ensures IsHeapRun(name, states', steps') && AllTimely(states', steps') && Calm(states')
    ensures states <= states' && steps <= steps' && |steps'| == |steps| + 2
    ensures var s := states[|steps|];
      var (heap, entry) := HeapApplied(s.heap, s.entry, s.queue[0], false);
      states'[|steps'|] == s.(queue := s.queue[1..], heap := heap, entry := entry)
  {
    var s := states[|steps|];
    assert s in states;
    var states1 := HeapRunGoesOn(name, states, steps, HeapStep(Take, 0));
    var steps1 := steps + [HeapStep(Take, 0)];
    states' := HeapRunGoesOn(name, states1, steps1, HeapStep(Apply, 0));
    steps' := steps1 + [HeapStep(Apply, 0)];
  }

  lemma BothAreDelivered(name: string, states: seq<HeapSys>, steps: seq<HeapStep>, a: Posted, b: Posted)
    returns (states': seq<HeapSys>, steps': seq<HeapStep>)
    requires IsHeapRun(name, states, steps) && AllTimely(states, steps) && Calm(states)
    requires states[|steps|].queue == [a, b] && !states[|steps|].held
    ensures IsHeapRun(name, states', steps') && AllTimely(states', steps') && Calm(states')
    ensures states <= states' && steps <= steps' && |steps'| == |steps| + 4
    ensures var s := states[|steps|];
      var (heap, entry) := HeapApplied(s.heap, s.entry, a, false);
      var (heap', entry') := HeapApplied(heap, entry, b, false);
      states'[|steps'|] == s.(queue := [], heap := heap', entry := entry')
  {
    states', steps' := NextIsDelivered(name, states, steps);
    assert states'[|steps'|].queue == [b];
    states', steps' := NextIsDelivered(name, states', steps');
  }

  /** A snapshot is cached in time. */
  lemma CachedRun(name: string, heap: Heap, records: Records, snapshot: seq<Service>)
    returns (states: seq<HeapSys>, steps: seq<HeapStep>)
    requires name in records && IsSnapshot(snapshot, name, records[name])
    ensures IsHeapRun(name, states, steps) && AllTimely(states, steps) && Calm(states) && |steps| == 2
    ensures states[0] == HeapSys(heap, records, [], false, None, false, map[])
    ensures states[2] == HeapSys(heap + snapshot, records, [], false, Some(Copies(heap, snapshot)), false,
                                 map[0 := Flight(snapshot, 0)])
  {
    states, steps := [HeapSys(heap, records, [], false, None, false, map[])], [];
    states := HeapRunGoesOn(name, states, steps, HeapStep(Fetch(0, snapshot), 0));
    steps := steps + [HeapStep(Fetch(0, snapshot), 0)];
    states := HeapRunGoesOn(name, states, steps, HeapStep(Store(0), 0));
    steps := steps + [HeapStep(Store(0), 0)];
  }

  lemma CopiesAndOne(heap: Heap, snapshot: seq<Service>, s: Service)
    ensures var h, refs, obj := heap + snapshot + [s], Copies(heap, snapshot), |heap| + |snapshot|;
      Unshared(h, refs + [obj]) && At(h, obj) == s && Values(h, refs) == snapshot
  {
    var h, refs, obj := heap + snapshot + [s], Copies(heap, snapshot), |heap| + |snapshot|;
    assert h[obj] == s;
    NoRepeatsParts(refs, [obj]);
    CopiesValues(heap, snapshot);
    forall r <- refs ensures At(h, r) == At(heap + snapshot, r) {
      assert h[r] == (heap + snapshot)[r];
    }
    ValuesElsewhere(heap + snapshot, h, refs);
  }

  /** The cached list `refs`, and an object of its own for `s`. */
  predicate Separate(h: Heap, refs: seq<nat>, snapshot: seq<Service>, obj: nat, s: Service)
  {
    Unshared(h, refs + [obj]) && Values(h, refs) == snapshot && At(h, obj) == s
  }

  /** Then a service with a new node is registered in a new object. */
  lemma RegisteredRun(name: string, heap: Heap, records: Records, snapshot: seq<Service>, s: Service)
    returns (states: seq<HeapSys>, steps: seq<HeapStep>, refs: seq<nat>)
    requires name in records && IsSnapshot(snapshot, name, records[name])
    requires s.name == name && Registered(records, s, 0, 0).1 == Some(Event("update", s))
    ensures IsHeapRun(name, states, steps) && AllTimely(states, steps) && Calm(states) && |steps| == 3
    ensures states[0].heap == heap && states[0].records == records && steps[2].step == Register(s, 0, 0)
    ensures states[3].records == Registered(records, s, 0, 0).0 && !states[3].held
    ensures states[3].queue == [Posted("update", steps[2].obj)] && states[3].entry == Some(refs)
    ensures Separate(states[3].heap, refs, snapshot, steps[2].obj, s)
  {
    states, steps := CachedRun(name, heap, records, snapshot);
    refs := Copies(heap, snapshot);
    var st := HeapStep(Register(s, 0, 0), |heap| + |snapshot|);
    states := HeapRunGoesOn(name, states, steps, st);
    steps := steps + [st];
    assert [] + [Posted("update", st.obj)] == [Posted("update", st.obj)];
    CopiesAndOne(heap, snapshot, s);
  }

  lemma {:induction false} FindReplaced(services: seq<Service>, v: string, s: Service)
    requires 0 <= FindVersion(services, v) && s.version == v
    ensures FindVersion(services[FindVersion(services, v) := s], v) == FindVersion(services, v)
  {
    var k := |services| - 1;
    if services[k].version != v {
      FindReplaced(services[..k], v, s);
      var i := FindVersion(services, v);
      assert services[i := s][..k] == services[..k][i := s];
    }
  }

  lemma MergedIds(nodes: seq<Node>, known: seq<Node>)
    ensures Ids(Merged(nodes, known)) == Ids(known) + Ids(nodes)
  {
    MergedById(nodes, known);
    NodesByIdKeys(nodes);
    NodesByIdKeys(known);
    NodesByIdKeys(Merged(nodes, known));
  }

  /** The object of an update event of a cached version is cached, with the nodes of the version in addition. */
  lemma ObjectIsCompleted(h: Heap, refs: seq<nat>, obj: nat)
    requires Unshared(h, refs + [obj]) && At(h, obj).nodes != []
    requires 0 <= FindVersion(Values(h, refs), At(h, obj).version)
    ensures var s := At(h, obj);
      var index := FindVersion(Values(h, refs), s.version);
      var nodes := Merged(s.nodes, At(h, refs[index]).nodes);
      var h' := SetNodes(h, obj, nodes);
      && HeapUpdate(h, refs, Posted("update", obj)) == (h', SetRefs(refs[index := obj]))
      && At(h', obj) == s.(nodes := nodes) && nodes != []
      && Values(h', refs[index := obj]) == Values(h, refs)[index := s.(nodes := nodes)]
      && FindVersion(Values(h', refs[index := obj]), s.version) == index
  {
    var s := At(h, obj);
    var index := FindVersion(Values(h, refs), s.version);
    var nodes := Merged(s.nodes, At(h, refs[index]).nodes);
    assert obj in refs + [obj];
    NoRepeatsParts(refs, [obj]);
    MergedNothing(s.nodes, At(h, refs[index]).nodes);
    ValuesPut(h, SetNodes(h, obj, nodes), refs, index, obj);
    FindReplaced(Values(h, refs), s.version, s.(nodes := nodes));
  }

  /** A delete event of an object that is cached removes its version. */
  lemma CachedObjectIsRemoved(h: Heap, refs: seq<nat>, obj: nat)
    requires DistinctVersions(Values(h, refs)) && |refs| > 1 && At(h, obj).nodes != []
    requires 0 <= FindVersion(Values(h, refs), At(h, obj).version)
    requires refs[FindVersion(Values(h, refs), At(h, obj).version)] == obj
    ensures var v := At(h, obj).version;
      && HeapUpdate(h, refs, Posted("delete", obj)) == (h, SetRefs(OtherRefs(h, refs, v)))
      && forall id :: !Listed(Values(h, OtherRefs(h, refs, v)), v, id)
  {
    var s := At(h, obj);
    WithoutNothing(s.nodes, s.nodes);
    OtherValues(h, refs, s.version);
    OthersByVersion(Values(h, refs), s.version);
  }

  /** The first event completes the object and the second, of the same object, removes what it completed. */
  lemma SameObjectTwice(h: Heap, refs: seq<nat>, obj: nat)
    requires Unshared(h, refs + [obj]) && At(h, obj).nodes != []
    requires DistinctVersions(Values(h, refs)) && |refs| > 1
    requires 0 <= FindVersion(Values(h, refs), At(h, obj).version)
    ensures var (h', entry) := HeapApplied(h, Some(refs), Posted("update", obj), false);
      var (h'', entry') := HeapApplied(h', entry, Posted("delete", obj), false);
      entry'.Some? && forall id :: !Listed(Values(h'', entry'.value), At(h, obj).version, id)
  {
    ObjectIsCompleted(h, refs, obj);
    var s := At(h, obj);
    var index := FindVersion(Values(h, refs), s.version);
    var nodes := Merged(s.nodes, At(h, refs[index]).nodes);
    var h', refs' := SetNodes(h, obj, nodes), refs[index := obj];
    ReplaceVersion(Values(h, refs), index, s.(nodes := nodes));
    CachedObjectIsRemoved(h', refs', obj);
    AppliedIsSet(h, refs, Posted("update", obj), h', refs');
    AppliedIsSet(h', refs', Posted("delete", obj), h', OtherRefs(h', refs', s.version));
  }

  lemma AppliedIsSet(h: Heap, refs: seq<nat>, e: Posted, h': Heap, refs': seq<nat>)
    requires HeapUpdate(h, refs, e) == (h', SetRefs(refs'))
    ensures HeapApplied(h, Some(refs), e, false) == (h', Some(refs'))
  {
  }

  lemma SnapshotHas(name: string, records: Records, snapshot: seq<Service>, v: string, id: string)
    requires name in records && IsSnapshot(snapshot, name, records[name]) && Holds(records, name, v, id)
    ensures 0 <= FindVersion(snapshot, v)
  {
    SnapshotAgrees(name, records, snapshot);
    assert Listed(snapshot, v, id);
    ByVersionKeys(snapshot);
    FindVersionIn(snapshot, v);
  }

  /** Both calls with one object, before any event is applied. */
  lemma TwoCallsRun(name: string, heap: Heap, records: Records, snapshot: seq<Service>, s: Service)
    returns (states: seq<HeapSys>, steps: seq<HeapStep>, refs: seq<nat>)
    requires name in records && IsSnapshot(snapshot, name, records[name])
    requires s.name == name && Registered(records, s, 0, 0).1 == Some(Event("update", s))
    requires Deregistered(Registered(records, s, 0, 0).0, s).1 == Some(Event("delete", s))
    ensures IsHeapRun(name, states, steps) && AllTimely(states, steps) && Calm(states) && |steps| == 4
    ensures states[0].heap == heap && states[0].records == records && steps[2].step == Register(s, 0, 0)
    ensures At(states[3].heap, steps[2].obj) == s && steps[3] == HeapStep(Deregister(s), steps[2].obj)
    ensures states[4].records == Deregistered(Registered(records, s, 0, 0).0, s).0 && !states[4].held
    ensures states[4].queue == [Posted("update", steps[2].obj), Posted("delete", steps[2].obj)]
    ensures states[4].entry == Some(refs) && Separate(states[4].heap, refs, snapshot, steps[2].obj, s)
  {
    states, steps, refs := RegisteredRun(name, heap, records, snapshot, s);
    var st, h := HeapStep(Deregister(s), steps[2].obj), states[3].heap;
    assert st.obj in refs + [st.obj] && h[st.obj := s] == h;
    states := HeapRunGoesOn(name, states, steps, st);
    steps := steps + [st];
  }

  /** The hypothesis on objects is needed. A list of several versions is cached in time, and nothing fails. A
      caller registers one object, which adds a node to a cached version, and deregisters the same object before
      the event of the first call is applied. Then no event is pending, and the entry lacks the whole version,
      of which the registry still holds every node that the caller never named. */
  lemma SharedObjectLosesVersion(name: string, heap: Heap, records: Records, snapshot: seq<Service>, s: Service,
                                 added: string, kept: string)
    returns (states: seq<HeapSys>, steps: seq<HeapStep>)
    requires name in records && IsSnapshot(snapshot, name, records[name]) && |snapshot| > 1
    requires s.name == name && added in Ids(s.nodes) && !Holds(records, name, s.version, added)
    requires kept !in Ids(s.nodes) && Holds(records, name, s.version, kept)
    ensures IsHeapRun(name, states, steps) && AllTimely(states, steps) && Calm(states) && |steps| == 8
    ensures states[0].heap == heap && states[0].records == records && steps[2].step == Register(s, 0, 0)
    ensures At(states[3].heap, steps[2].obj) == s && steps[3] == HeapStep(Deregister(s), steps[2].obj)
    ensures states[8].queue == [] && states[8].entry.Some?
    ensures forall id :: !Listed(Values(states[8].heap, states[8].entry.value), s.version, id)
    ensures Holds(states[8].records, name, s.version, kept)
  {
    RegisterHolds(records, s, 0, 0);
    DeregisterHolds(Registered(records, s, 0, 0).0, s);
    SnapshotHas(name, records, snapshot, s.version, kept);
    var refs;
    states, steps, refs := TwoCallsRun(name, heap, records, snapshot, s);
    var obj := steps[2].obj;
    SameObjectTwice(states[4].heap, refs, obj);
    states, steps := BothAreDelivered(name, states, steps, Posted("update", obj), Posted("delete", obj));
  }

  /** Waiting for the event does not help. If it is applied between the two calls, the object has grown by the
      nodes of its version, and deregistering it takes all of them out of the registry itself. */
  lemma DeregisterTakesOthers(name: string, heap: Heap, records: Records, snapshot: seq<Service>, s: Service,
                              added: string, kept: string)
    returns (states: seq<HeapSys>, steps: seq<HeapStep>)
    requires name in records && IsSnapshot(snapshot, name, records[name])
    requires s.name == name && added in Ids(s.nodes) && !Holds(records, name, s.version, added)
    requires kept !in Ids(s.nodes) && Holds(records, name, s.version, kept)
    ensures IsHeapRun(name, states, steps) && AllTimely(states, steps) && Calm(states) && |steps| == 6
    ensures states[0].heap == heap && states[0].records == records && steps[2].step == Register(s, 0, 0)
    ensures var obj := steps[2].obj; steps[5] == HeapStep(Deregister(At(states[5].heap, obj)), obj)
    ensures Holds(states[5].records, name, s.version, kept)
    ensures forall id :: !Holds(states[6].records, name, s.version, id)
  {
    RegisterHolds(records, s, 0, 0);
    SnapshotHas(name, records, snapshot, s.version, kept);
    var grown;
    states, steps, grown := GrownRun(name, heap, records, snapshot, s);
    GrownNames(name, records, snapshot, s, grown);
    DeregisterHolds(states[5].records, grown);
    var st := HeapStep(Deregister(grown), steps[2].obj);
    states := HeapRunGoesOn(name, states, steps, st);
    steps := steps + [st];
  }

  /** The event of the first call is applied: the object names what its version has in addition. */
  lemma GrownRun(name: string, heap: Heap, records: Records, snapshot: seq<Service>, s: Service)
    returns (states: seq<HeapSys>, steps: seq<HeapStep>, grown: Service)
    requires name in records && IsSnapshot(snapshot, name, records[name]) && s.nodes != []
    requires s.name == name && Registered(records, s, 0, 0).1 == Some(Event("update", s))
    requires 0 <= FindVersion(snapshot, s.version)
    ensures IsHeapRun(name, states, steps) && AllTimely(states, steps) && Calm(states) && |steps| == 5
    ensures states[0].heap == heap && states[0].records == records && steps[2].step == Register(s, 0, 0)
    ensures states[5].records == Registered(records, s, 0, 0).0
    ensures steps[2].obj < |states[5].heap| && states[5].heap[steps[2].obj] == grown
    ensures grown == s.(nodes := Merged(s.nodes, snapshot[FindVersion(snapshot, s.version)].nodes))
  {
    var refs;
    states, steps, refs := RegisteredRun(name, heap, records, snapshot, s);
    var obj := steps[2].obj;
    assert obj in refs + [obj];
    ObjectIsCompleted(states[3].heap, refs, obj);
    states, steps := NextIsDelivered(name, states, steps);
    grown := states[5].heap[obj];
  }

  lemma GrownNames(name: string, records: Records, snapshot: seq<Service>, s: Service, grown: Service)
    requires name in records && IsSnapshot(snapshot, name, records[name])
    requires 0 <= FindVersion(snapshot, s.version)
    requires grown == s.(nodes := Merged(s.nodes, snapshot[FindVersion(snapshot, s.version)].nodes))
    ensures forall id :: id in Ids(grown.nodes) <==> id in Ids(s.nodes) || Holds(records, name, s.version, id)
  {
    var known := snapshot[FindVersion(snapshot, s.version)].nodes;
    MergedIds(s.nodes, known);
    SnapshotAgrees(name, records, snapshot);
    ByVersionAt(snapshot, FindVersion(snapshot, s.version));
    NodesByIdKeys(known);
    assert forall id :: id in Ids(known) <==> Listed(snapshot, s.version, id);
  }
}
