/** The cache and the registry together, as a transition system on values. */
module Convergence {
  import opened Cache
  import opened CacheRefinement
  import opened MemoryRegistry
  import opened Registry
  import opened Wrappers

  // One service name is watched; the registry serves any names; the events of the name wait in the watcher's
  // queue, in order and without loss. What the source does in separate critical sections is separate steps: a
  // refill takes a snapshot of the registry and stores it later; the watcher takes an event, clearing the
  // failure flag, and applies it later. Events and entries are values, which is what runs without shared
  // service objects amount to: see `SharedObjects`.

  /** A snapshot on its way to the cache, and how many events were emitted since it was taken. */
  datatype Flight = Flight(snapshot: seq<Service>, emitted: nat)

  /** `held`: the watcher has taken the first pending event and not applied it yet. `status`: the last
      contact with the registry failed. */
  datatype Sys = Sys(records: Records, queue: seq<Event>, held: bool, entry: Option<seq<Service>>, status: bool,
                     flights: map<nat, Flight>)

  /** The flag is shared by all names: `RefillFails` and `Recovers` stand for any failure and any success. */
  datatype Step =
    | Register(s: Service, ttl: int, now: int)
    | Deregister(s: Service)
    | Take
    | Apply
    | Fetch(id: nat, snapshot: seq<Service>)
    | Store(id: nat)
    | Forget(id: nat)
    | RefillFails
    | Recovers

  predicate Enabled(name: string, s: Sys, step: Step)
  {
    match step
    case Take => !s.held && s.queue != []
    case Apply => s.held && s.queue != []
    case Fetch(id, snapshot) => id !in s.flights && name in s.records && IsSnapshot(snapshot, name, s.records[name])
    case Store(id) => id in s.flights
    case _ => true
  }

  /** The registry has changed; its event, if it is one of the watched name, joins the queue. */
  function Emit(name: string, s: Sys, records: Records, ev: Option<Event>): Sys
  {
    if ev.None? || ev.value.service.name != name then s.(records := records) else
    s.(records := records, queue := s.queue + [ev.value],
       flights := map id | id in s.flights :: s.flights[id].(emitted := s.flights[id].emitted + 1))
  }

  /** What `update` makes of the entry when the registry is not failing. */
  function Applied(entry: Option<seq<Service>>, ev: Event): Option<seq<Service>>
  {
    if entry.None? then None else
    match ChangeOf(entry.value, ev)
    case Keep => entry
    case Drop => None
    case Set(services) => Some(services)
  }

  /** While the registry is failing, an entry that should be dropped is kept. */
  function AppliedUnder(entry: Option<seq<Service>>, ev: Event, status: bool): Option<seq<Service>>
  {
    if status && entry.Some? && ChangeOf(entry.value, ev).Drop? then entry else Applied(entry, ev)
  }

  function After(name: string, s: Sys, step: Step): Sys
    requires Enabled(name, s, step)
  {
    match step
    case Register(svc, ttl, now) => var (records, ev) := Registered(s.records, svc, ttl, now); Emit(name, s, records, ev)
    case Deregister(svc) => var (records, ev) := Deregistered(s.records, svc); Emit(name, s, records, ev)
    case Take => s.(held := true, status := false)
    case Apply => s.(queue := s.queue[1..], held := false, entry := AppliedUnder(s.entry, s.queue[0], s.status))
    case Fetch(id, snapshot) => s.(flights := s.flights[id := Flight(snapshot, 0)])
    case Store(id) => s.(entry := Some(s.flights[id].snapshot), status := false)
    case Forget(id) => s.(flights := s.flights - {id})
    case RefillFails => s.(status := true)
    case Recovers => s.(status := false)
  }

  // ----- What the pending events say about a node -----

  predicate Touches(ev: Event, v: string, id: string)
  {
    v == ev.service.version && id in Ids(ev.service.nodes)
  }

  /** Whether the last event that names the node adds it; None if no event names it. */
  function LastEffect(queue: seq<Event>, v: string, id: string): Option<bool>
  {
    if queue == [] then None else
    var ev := queue[|queue| - 1];
    if Touches(ev, v, id) then Some(ev.action != "delete") else LastEffect(queue[..|queue| - 1], v, id)
  }

  predicate RegistryEvents(queue: seq<Event>, name: string)
  {
    forall ev <- queue :: ev.service.name == name && (ev.action == "update" || ev.action == "delete")
  }

  lemma {:induction false} LastEffectCons(queue: seq<Event>, v: string, id: string)
    requires queue != []
    ensures LastEffect(queue, v, id)
         == match LastEffect(queue[1..], v, id)
            case Some(b) => Some(b)
            case None => if Touches(queue[0], v, id) then Some(queue[0].action != "delete") else None
    decreases |queue|
  {
    var k := |queue| - 1;
    if k > 0 {
      assert queue[1..][k - 1] == queue[k] && queue[1..][..k - 1] == queue[..k][1..];
      LastEffectCons(queue[..k], v, id);
    } else {
      assert queue[1..] == [] && queue[..k] == [];
    }
  }

  lemma {:induction false} LastEffectSuffix(queue: seq<Event>, i: nat, v: string, id: string)
    requires i <= |queue|
    ensures LastEffect(queue, v, id).None? ==> LastEffect(queue[i..], v, id).None?
    decreases i
  {
    if i > 0 {
      LastEffectCons(queue, v, id);
      LastEffectSuffix(queue[1..], i - 1, v, id);
      assert queue[1..][i - 1..] == queue[i..];
    } else {
      assert queue[0..] == queue;
    }
  }

  /** `services'` lists what `services` does, but for the nodes that the event names. */
  ghost predicate Follows(services': seq<Service>, services: seq<Service>, ev: Event)
  {
    && DistinctVersions(services')
    && forall v, id :: Listed(services', v, id)
         <==> if Touches(ev, v, id) then ev.action != "delete" else Listed(services, v, id)
  }

  /** What the event makes of the map. */
  function EventOn(m: VersionMap, ev: Event): VersionMap
  {
    if ev.action == "delete" then Subtract(m, ev.service.version, Ids(ev.service.nodes))
    else Override(m, ev.service.version, NodesById(ev.service.nodes))
  }

  lemma EventOnHas(m: VersionMap, ev: Event, v: string, id: string)
    ensures Has(EventOn(m, ev), v, id) <==> if Touches(ev, v, id) then ev.action != "delete" else Has(m, v, id)
  {
    NodesByIdKeys(ev.service.nodes);
    if ev.action == "delete" && v == ev.service.version && v in m {
      var left := m[v] - Ids(ev.service.nodes);
      assert id in m[v] && !Touches(ev, v, id) <==> id in left;
    }
  }

  /** A list of the map after the event. */
  lemma FollowsEvent(services': seq<Service>, services: seq<Service>, ev: Event)
    requires DistinctVersions(services') && ByVersion(services') == EventOn(ByVersion(services), ev)
    ensures Follows(services', services, ev)
  {
    forall v, id {
      EventOnHas(ByVersion(services), ev, v, id);
    }
  }

  /** One event changes exactly the nodes that it names. */
  lemma AppliedLists(services: seq<Service>, ev: Event)
    requires DistinctVersions(services) && (ev.action == "update" || ev.action == "delete")
    ensures Applied(Some(services), ev).Some? ==> Follows(Applied(Some(services), ev).value, services, ev)
  {
    if ev.service.nodes != [] && Applied(Some(services), ev).Some? {
      UpdateRefinesMap(services, ev);
      FollowsEvent(Applied(Some(services), ev).value, services, ev);
    }
  }

  // ----- The invariant -----

  /** Outside the nodes that `pending` names, the list has exactly the registered nodes. */
  ghost predicate AgreesBeyond(name: string, records: Records, services: seq<Service>, pending: seq<Event>)
  {
    && DistinctVersions(services)
    && forall v, id :: LastEffect(pending, v, id).None? ==> (Listed(services, v, id) <==> Holds(records, name, v, id))
  }

  /** The registry already shows the last pending event on each node. */
  ghost predicate Settled(name: string, records: Records, queue: seq<Event>)
  {
    forall v, id :: LastEffect(queue, v, id).Some? ==> (LastEffect(queue, v, id).value <==> Holds(records, name, v, id))
  }

  /** No event emitted after the snapshot has been delivered yet. */
  predicate InTime(s: Sys, f: Flight)
  {
    f.emitted <= |s.queue|
  }

  ghost predicate FlightOk(name: string, s: Sys, f: Flight)
  {
    InTime(s, f) ==> AgreesBeyond(name, s.records, f.snapshot, LastOf(s.queue, f.emitted))
  }

  function LastOf(queue: seq<Event>, n: nat): seq<Event>
    requires n <= |queue|
  {
    queue[|queue| - n..]
  }

  ghost predicate Inv(name: string, s: Sys)
  {
    && RegistryEvents(s.queue, name)
    && Settled(name, s.records, s.queue)
    && (s.entry.Some? ==> AgreesBeyond(name, s.records, s.entry.value, s.queue))
    && forall id <- s.flights :: FlightOk(name, s, s.flights[id])
  }

  /** A change of the registry as its event describes it. */
  ghost predicate Described(name: string, records: Records, records': Records, ev: Option<Event>)
  {
    forall v, id :: Holds(records', name, v, id)
      <==> if ev.Some? && ev.value.service.name == name && Touches(ev.value, v, id) then ev.value.action != "delete"
           else Holds(records, name, v, id)
  }

  lemma AgreesAfterEmit(name: string, records: Records, records': Records, ev: Event, services: seq<Service>,
                        pending: seq<Event>)
    requires AgreesBeyond(name, records, services, pending)
    requires ev.service.name == name && Described(name, records, records', Some(ev))
    ensures AgreesBeyond(name, records', services, pending + [ev])
  {
    var pending' := pending + [ev];
    assert pending'[|pending'| - 1] == ev && pending'[..|pending'| - 1] == pending;
  }

  lemma SettledAfterEmit(name: string, records: Records, records': Records, ev: Event, queue: seq<Event>)
    requires Settled(name, records, queue)
    requires ev.service.name == name && Described(name, records, records', Some(ev))
    ensures Settled(name, records', queue + [ev])
  {
    var queue' := queue + [ev];
    assert queue'[|queue'| - 1] == ev && queue'[..|queue'| - 1] == queue;
  }

  /** The last `n` events are still the last ones, with the new event behind them. */
  lemma LastAfterEmit(queue: seq<Event>, n: nat, ev: Event)
    requires n <= |queue|
    ensures LastOf(queue + [ev], n + 1) == LastOf(queue, n) + [ev]
  {
  }

  /** The last `n` events do not change when the first of more is taken off. */
  lemma LastAfterApply(queue: seq<Event>, n: nat)
    requires n < |queue|
    ensures LastOf(queue[1..], n) == LastOf(queue, n)
  {
  }

  /** An event of the watched name. */
  lemma EmitKeepsFlights(name: string, s: Sys, records': Records, ev: Event)
    requires Inv(name, s) && ev.service.name == name && Described(name, s.records, records', Some(ev))
    ensures var s' := Emit(name, s, records', Some(ev)); forall id <- s'.flights :: FlightOk(name, s', s'.flights[id])
  {
    var s' := Emit(name, s, records', Some(ev));
    forall id <- s'.flights
      ensures FlightOk(name, s', s'.flights[id])
    {
      var f := s.flights[id];
      assert FlightOk(name, s, f);
      if InTime(s, f) {
        AgreesAfterEmit(name, s.records, records', ev, f.snapshot, LastOf(s.queue, f.emitted));
        LastAfterEmit(s.queue, f.emitted, ev);
      }
    }
  }

  /** A change that is none of the watched name's. */
  lemma QuietKeepsInv(name: string, s: Sys, records': Records)
    requires Inv(name, s) && forall v, id :: Holds(records', name, v, id) <==> Holds(s.records, name, v, id)
    ensures Inv(name, s.(records := records'))
  {
    var s' := s.(records := records');
    forall id <- s'.flights
      ensures FlightOk(name, s', s'.flights[id])
    {
      assert FlightOk(name, s, s.flights[id]);
    }
  }

  lemma EmitKeepsInv(name: string, s: Sys, records': Records, ev: Option<Event>)
    requires Inv(name, s) && Described(name, s.records, records', ev)
    requires ev.Some? ==> ev.value.action == "update" || ev.value.action == "delete"
    ensures Inv(name, Emit(name, s, records', ev))
  {
    if ev.Some? && ev.value.service.name == name {
      SettledAfterEmit(name, s.records, records', ev.value, s.queue);
      EmitKeepsFlights(name, s, records', ev.value);
      if s.entry.Some? {
        AgreesAfterEmit(name, s.records, records', ev.value, s.entry.value, s.queue);
      }
    } else {
      QuietKeepsInv(name, s, records');
    }
  }

  /** What is pending without its first event. */
  lemma LastEffectRest(queue: seq<Event>)
    requires queue != []
    ensures forall v, id :: LastEffect(queue[1..], v, id).Some? ==>
      LastEffect(queue, v, id) == LastEffect(queue[1..], v, id)
    ensures forall v, id :: LastEffect(queue[1..], v, id).None? ==>
      LastEffect(queue, v, id) == if Touches(queue[0], v, id) then Some(queue[0].action != "delete") else None
  {
    forall v, id
      ensures LastEffect(queue[1..], v, id).Some? ==> LastEffect(queue, v, id) == LastEffect(queue[1..], v, id)
      ensures LastEffect(queue[1..], v, id).None? ==>
        LastEffect(queue, v, id) == if Touches(queue[0], v, id) then Some(queue[0].action != "delete") else None
    {
      LastEffectCons(queue, v, id);
    }
  }

  /** The first event removes the entry's last nodes, the registry is failing, so the entry is kept, and one
      of these nodes is not named by any later event. */
  ghost predicate Harmful(s: Sys)
  {
    && s.status && s.entry.Some? && s.queue != [] && ChangeOf(s.entry.value, s.queue[0]).Drop?
    && exists v, id :: Touches(s.queue[0], v, id) && Stuck(s, v, id)
  }

  predicate Stuck(s: Sys, v: string, id: string)
    requires s.entry.Some? && s.queue != []
  {
    Listed(s.entry.value, v, id) && LastEffect(s.queue[1..], v, id).None?
  }

  lemma FlightsAfterApply(name: string, s: Sys)
    requires Inv(name, s) && Enabled(name, s, Apply)
    ensures var s' := After(name, s, Apply); forall id <- s'.flights :: FlightOk(name, s', s'.flights[id])
  {
    var s' := After(name, s, Apply);
    forall id <- s'.flights
      ensures FlightOk(name, s', s'.flights[id])
    {
      var f := s.flights[id];
      assert FlightOk(name, s, f);
      if InTime(s', f) {
        LastAfterApply(s.queue, f.emitted);
      }
    }
  }

  /** The entry after the event, when it was not kept against the event. */
  lemma EntryAfterApply(name: string, s: Sys)
    requires Inv(name, s) && s.queue != [] && s.entry.Some?
    requires s.status ==> !ChangeOf(s.entry.value, s.queue[0]).Drop?
    ensures var entry := AppliedUnder(s.entry, s.queue[0], s.status);
      entry.Some? ==> AgreesBeyond(name, s.records, entry.value, s.queue[1..])
  {
    assert s.queue[0] in s.queue;
    LastEffectRest(s.queue);
    AppliedLists(s.entry.value, s.queue[0]);
  }

  /** The entry that was kept agrees beyond the rest exactly if none of its nodes is stuck. */
  lemma KeptEntryAgrees(name: string, s: Sys)
    requires Inv(name, s) && s.queue != [] && s.status && s.entry.Some?
    requires ChangeOf(s.entry.value, s.queue[0]).Drop?
    ensures AgreesBeyond(name, s.records, s.entry.value, s.queue[1..]) <==> !Harmful(s)
  {
    var ev := s.queue[0];
    assert ev in s.queue && ev.action == "delete";
    LastEffectRest(s.queue);
    forall v, id | LastEffect(s.queue[1..], v, id).None?
      ensures (Listed(s.entry.value, v, id) <==> Holds(s.records, name, v, id))
         <==> !(Touches(ev, v, id) && Stuck(s, v, id))
    {
      assert LastEffect(s.queue, v, id) == if Touches(ev, v, id) then Some(false) else None;
    }
  }

  lemma SnapshotAgrees(name: string, records: Records, snapshot: seq<Service>)
    requires name in records && IsSnapshot(snapshot, name, records[name])
    ensures forall v, id :: Listed(snapshot, v, id) <==> Holds(records, name, v, id)
  {
  }

  /** Stale events do no harm: a snapshot stored in time agrees beyond the events that are still pending,
      including those that it already reflects. */
  lemma StoreKeepsInv(name: string, s: Sys, id: nat)
    requires Inv(name, s) && id in s.flights && InTime(s, s.flights[id])
    ensures Inv(name, After(name, s, Store(id)))
  {
    TimelyAgrees(name, s, s.flights[id]);
    FlightsKept(name, s, After(name, s, Store(id)));
  }

  lemma TimelyAgrees(name: string, s: Sys, f: Flight)
    requires FlightOk(name, s, f) && InTime(s, f)
    ensures AgreesBeyond(name, s.records, f.snapshot, s.queue)
  {
    forall v, n | LastEffect(s.queue, v, n).None?
      ensures Listed(f.snapshot, v, n) <==> Holds(s.records, name, v, n)
    {
      LastEffectSuffix(s.queue, |s.queue| - f.emitted, v, n);
    }
  }

  lemma FlightsKept(name: string, s: Sys, s': Sys)
    requires Inv(name, s) && s'.records == s.records && s'.queue == s.queue
    requires forall i <- s'.flights ::
      (i in s.flights && s'.flights[i] == s.flights[i]) || FlightOk(name, s', s'.flights[i])
    ensures forall i <- s'.flights :: FlightOk(name, s', s'.flights[i])
  {
    forall i <- s'.flights | i in s.flights && s'.flights[i] == s.flights[i]
      ensures FlightOk(name, s', s'.flights[i])
    {
      assert FlightOk(name, s, s.flights[i]);
    }
  }

  /** The rest of the queue is settled, and the entry agrees beyond it exactly if the step was not harmful. */
  lemma EntryAgreesExactlyWhen(name: string, s: Sys)
    requires Inv(name, s) && Enabled(name, s, Apply)
    ensures RegistryEvents(s.queue[1..], name) && Settled(name, s.records, s.queue[1..])
    ensures var entry := AppliedUnder(s.entry, s.queue[0], s.status);
      entry.Some? ==>
        DistinctVersions(entry.value) && (AgreesBeyond(name, s.records, entry.value, s.queue[1..]) <==> !Harmful(s))
  {
    LastEffectRest(s.queue);
    if s.entry.Some? {
      if s.status && ChangeOf(s.entry.value, s.queue[0]).Drop? {
        KeptEntryAgrees(name, s);
      } else {
        EntryAfterApply(name, s);
      }
    }
  }

  /** A step that applies an event keeps the invariant exactly if it is not harmful. */
  lemma ApplyKeepsInvExactlyWhen(name: string, s: Sys)
    requires Inv(name, s) && Enabled(name, s, Apply)
    ensures Inv(name, After(name, s, Apply)) <==> !Harmful(s)
  {
    FlightsAfterApply(name, s);
    EntryAgreesExactlyWhen(name, s);
  }

  lemma StepKeepsInv(name: string, s: Sys, step: Step)
    requires Inv(name, s) && Enabled(name, s, step)
    requires step.Store? ==> InTime(s, s.flights[step.id])
    requires step.Apply? ==> !Harmful(s)
    ensures Inv(name, After(name, s, step))
  {
    var s' := After(name, s, step);
    match step
    case Register(svc, ttl, now) =>
      RegisterHolds(s.records, svc, ttl, now);
      var (records, ev) := Registered(s.records, svc, ttl, now);
      EmitKeepsInv(name, s, records, ev);
    case Deregister(svc) =>
      DeregisterHolds(s.records, svc);
      var (records, ev) := Deregistered(s.records, svc);
      EmitKeepsInv(name, s, records, ev);
    case Take => FlightsKept(name, s, s');
    case Apply => ApplyKeepsInvExactlyWhen(name, s);
    case Store(id) => StoreKeepsInv(name, s, id);
    case Fetch(id, snapshot) =>
      SnapshotAgrees(name, s.records, snapshot);
      FlightsKept(name, s, s');
    case Forget(id) => FlightsKept(name, s, s');
    case RefillFails => FlightsKept(name, s, s');
    case Recovers => FlightsKept(name, s, s');
  }

  // ----- Runs -----

  predicate Initial(s: Sys)
  {
    s.queue == [] && !s.held && s.entry == None && s.flights == map[] && !s.status
  }

  predicate IsRun(name: string, states: seq<Sys>, steps: seq<Step>)
  {
    && |states| == |steps| + 1
    && Initial(states[0])
    && forall i :: 0 <= i < |steps| ==>
         Enabled(name, states[i], steps[i]) && states[i + 1] == After(name, states[i], steps[i])
  }

  /** Every snapshot is stored before any event emitted after it was taken is delivered. */
  predicate StoresInTime(name: string, states: seq<Sys>, steps: seq<Step>)
    requires IsRun(name, states, steps)
  {
    forall i :: 0 <= i < |steps| && steps[i].Store? ==> InTime(states[i], states[i].flights[steps[i].id])
  }

  /** No failure between taking and applying an event does harm; in particular, if there is none. */
  ghost predicate NoHarm(name: string, states: seq<Sys>, steps: seq<Step>)
    requires IsRun(name, states, steps)
  {
    forall i :: 0 <= i < |steps| && steps[i].Apply? ==> !Harmful(states[i])
  }

  lemma {:induction false} RunKeepsInv(name: string, states: seq<Sys>, steps: seq<Step>, i: nat)
    requires IsRun(name, states, steps) && StoresInTime(name, states, steps) && NoHarm(name, states, steps)
    requires i <= |steps|
    ensures Inv(name, states[i])
  {
    if i > 0 {
      RunKeepsInv(name, states, steps, i - 1);
      StepKeepsInv(name, states[i - 1], steps[i - 1]);
    }
  }

  /** Convergence: in every run that stores its snapshots in time and applies no event harmfully, whenever no
      event is pending, a cached entry lists exactly the registered versions and node ids. */
  lemma CacheConverges(name: string, states: seq<Sys>, steps: seq<Step>, i: nat)
    requires IsRun(name, states, steps) && StoresInTime(name, states, steps) && NoHarm(name, states, steps)
    requires i <= |steps|
    requires states[i].queue == [] && states[i].entry.Some?
    ensures forall v, id :: Listed(states[i].entry.value, v, id) <==> Holds(states[i].records, name, v, id)
  {
    RunKeepsInv(name, states, steps, i);
    assert forall v, id :: LastEffect([], v, id).None?;
  }

  // ----- The refill race -----

  /** The entry once everything pending has been delivered. */
  function Drained(entry: Option<seq<Service>>, queue: seq<Event>): Option<seq<Service>>
    decreases |queue|
  {
    if queue == [] then entry else Drained(Applied(entry, queue[0]), queue[1..])
  }

  lemma {:induction false} DrainedNone(queue: seq<Event>)
    ensures Drained(None, queue) == None
  {
    if queue != [] {
      DrainedNone(queue[1..]);
    }
  }

  lemma {:induction false} DrainedLists(services: seq<Service>, queue: seq<Event>, name: string)
    requires DistinctVersions(services) && RegistryEvents(queue, name) && Drained(Some(services), queue).Some?
    ensures forall v, id ::
      (Listed(Drained(Some(services), queue).value, v, id)
       <==> match LastEffect(queue, v, id)
            case Some(b) => b
            case None => Listed(services, v, id))
    decreases |queue|
  {
    if queue != [] {
      assert queue[0] in queue;
      AppliedLists(services, queue[0]);
      if Applied(Some(services), queue[0]).None? {
        DrainedNone(queue[1..]);
      } else {
        DrainedLists(Applied(Some(services), queue[0]).value, queue[1..], name);
        forall v, id {
          LastEffectCons(queue, v, id);
        }
      }
    }
  }

  /** Once all that is pending is delivered, a list agrees with the registry exactly if it agrees now on each
      node that no pending event names. */
  lemma DrainedAgreesExactlyWhen(name: string, records: Records, services: seq<Service>, queue: seq<Event>)
    requires RegistryEvents(queue, name) && Settled(name, records, queue) && DistinctVersions(services)
    requires Drained(Some(services), queue).Some?
    ensures (forall v, id :: Listed(Drained(Some(services), queue).value, v, id) <==> Holds(records, name, v, id))
       <==> AgreesBeyond(name, records, services, queue)
  {
    DrainedLists(services, queue, name);
    var end := Drained(Some(services), queue).value;
    if forall v, id :: Listed(end, v, id) <==> Holds(records, name, v, id) {
      forall v, id | LastEffect(queue, v, id).None?
        ensures Listed(services, v, id) <==> Holds(records, name, v, id)
      {
        assert Listed(end, v, id) <==> Holds(records, name, v, id);
      }
    } else {
      var v, id :| !(Listed(end, v, id) <==> Holds(records, name, v, id));
      assert LastEffect(queue, v, id).None?;
    }
  }

  /** Exactly when storing a snapshot, late or not, does no harm: the entry ends in agreement with the
      registry if and only if each node on which they differ now is named by an event still pending. */
  lemma StoreIsSafeExactlyWhen(name: string, s: Sys, snapshot: seq<Service>)
    requires Inv(name, s) && DistinctVersions(snapshot)
    requires Drained(Some(snapshot), s.queue).Some?
    ensures (forall v, id ::
               (Listed(Drained(Some(snapshot), s.queue).value, v, id) <==> Holds(s.records, name, v, id)))
       <==> (forall v, id ::
               LastEffect(s.queue, v, id).Some? || (Listed(snapshot, v, id) <==> Holds(s.records, name, v, id)))
  {
    DrainedAgreesExactlyWhen(name, s.records, snapshot, s.queue);
  }

  /** Exactly when a failure between taking and applying an event does harm: the entry ends in agreement with
      the registry unless the event should drop it and a node stays that no later event names. Without the
      failure, or for an event that is not such a removal, no harm is done. */
  lemma FailureHarmsExactlyWhen(name: string, s: Sys)
    requires Inv(name, s) && Enabled(name, s, Apply)
    ensures var s' := After(name, s, Apply);
      Drained(s'.entry, s'.queue).Some? ==>
        ((forall v, id :: Listed(Drained(s'.entry, s'.queue).value, v, id) <==> Holds(s.records, name, v, id))
         <==> !Harmful(s))
  {
    var s' := After(name, s, Apply);
    if s'.entry.None? {
      DrainedNone(s'.queue);
    } else if Drained(s'.entry, s'.queue).Some? {
      EntryAgreesExactlyWhen(name, s);
      DrainedAgreesExactlyWhen(name, s.records, s'.entry.value, s'.queue);
    }
  }

  predicate Timely(s: Sys, step: Step)
  {
    step.Store? && step.id in s.flights ==> InTime(s, s.flights[step.id])
  }

  lemma LongerRun(name: string, states: seq<Sys>, steps: seq<Step>, step: Step)
    requires IsRun(name, states, steps) && Enabled(name, states[|steps|], step)
    ensures IsRun(name, states + [After(name, states[|steps|], step)], steps + [step])
  {
  }

  lemma LongerRunInTime(name: string, states: seq<Sys>, steps: seq<Step>, longer: seq<Sys>, step: Step)
    requires IsRun(name, states, steps) && IsRun(name, longer, steps + [step]) && longer[..|states|] == states
    requires StoresInTime(name, states, steps) && Timely(states[|steps|], step)
    ensures StoresInTime(name, longer, steps + [step])
  {
    forall i | 0 <= i < |steps + [step]| && (steps + [step])[i].Store?
      ensures Timely(longer[i], (steps + [step])[i])
    {
      assert longer[i] == states[i];
    }
  }

  lemma LongerRunUnharmed(name: string, states: seq<Sys>, steps: seq<Step>, longer: seq<Sys>, step: Step)
    requires IsRun(name, states, steps) && IsRun(name, longer, steps + [step]) && longer[..|states|] == states
    requires NoHarm(name, states, steps) && !Harmful(states[|steps|])
    ensures NoHarm(name, longer, steps + [step])
  {
    forall i | 0 <= i < |steps + [step]| && (steps + [step])[i].Apply?
      ensures !Harmful(longer[i])
    {
      assert longer[i] == states[i];
    }
  }

  /** A run goes on with any step that is enabled, and stays in time and harmless with any that is. */
  lemma RunGoesOn(name: string, states: seq<Sys>, steps: seq<Step>, step: Step) returns (longer: seq<Sys>)
    requires IsRun(name, states, steps) && Enabled(name, states[|steps|], step)
    ensures longer == states + [After(name, states[|steps|], step)] && IsRun(name, longer, steps + [step])
    ensures StoresInTime(name, states, steps) && Timely(states[|steps|], step)
      ==> StoresInTime(name, longer, steps + [step])
    ensures NoHarm(name, states, steps) && !Harmful(states[|steps|]) ==> NoHarm(name, longer, steps + [step])
  {
    longer := states + [After(name, states[|steps|], step)];
    LongerRun(name, states, steps, step);
    if StoresInTime(name, states, steps) && Timely(states[|steps|], step) {
      LongerRunInTime(name, states, steps, longer, step);
    }
    if NoHarm(name, states, steps) && !Harmful(states[|steps|]) {
      LongerRunUnharmed(name, states, steps, longer, step);
    }
  }

  /** Every run starts like this: a snapshot is on its way. */
  lemma FetchedRun(name: string, records: Records, snapshot: seq<Service>) returns (states: seq<Sys>, steps: seq<Step>)
    requires name in records && IsSnapshot(snapshot, name, records[name])
    ensures IsRun(name, states, steps) && StoresInTime(name, states, steps) && NoHarm(name, states, steps)
    ensures |steps| == 1 && states[0].records == records
    ensures states[1] == Sys(records, [], false, None, false, map[0 := Flight(snapshot, 0)])
  {
    var s := Sys(records, [], false, None, false, map[]);
    states, steps := [s, s.(flights := map[0 := Flight(snapshot, 0)])], [Fetch(0, snapshot)];
  }

  /** It may go on like this: the snapshot is stored, and nodes are removed. A refill fails once the watcher has
      taken the event. */
  lemma FailedRun(name: string, records: Records, snapshot: seq<Service>, s: Service)
    returns (states: seq<Sys>, steps: seq<Step>)
    requires name in records && IsSnapshot(snapshot, name, records[name]) && s.name == name
    ensures IsRun(name, states, steps) && StoresInTime(name, states, steps) && |steps| == 5
    ensures states[0].records == records && states[5].records == Deregistered(records, s).0
    ensures states[5].queue == [Event("delete", s)] && states[5].entry == Some(snapshot)
    ensures states[5].held && states[5].status
  {
    states, steps := FetchedRun(name, records, snapshot);
    states := RunGoesOn(name, states, steps, Store(0));
    steps := steps + [Store(0)];
    states := RunGoesOn(name, states, steps, Deregister(s));
    steps := steps + [Deregister(s)];
    assert states[3].queue == [Event("delete", s)] by { assert [] + [Event("delete", s)] == [Event("delete", s)]; }
    states := RunGoesOn(name, states, steps, Take);
    steps := steps + [Take];
    states := RunGoesOn(name, states, steps, RefillFails);
    steps := steps + [RefillFails];
  }

  /** Or like this: a new node is registered, and its event is delivered while nothing is cached. */
  lemma MissedRun(name: string, records: Records, snapshot: seq<Service>, s: Service)
    returns (states: seq<Sys>, steps: seq<Step>)
    requires name in records && IsSnapshot(snapshot, name, records[name])
    requires s.name == name && Registered(records, s, 0, 0).1 == Some(Event("update", s))
    ensures IsRun(name, states, steps) && NoHarm(name, states, steps) && |steps| == 4
    ensures states[0].records == records && states[4].records == Registered(records, s, 0, 0).0
    ensures states[4].queue == [] && states[4].flights == map[0 := Flight(snapshot, 1)] && !states[4].status
  {
    states, steps := FetchedRun(name, records, snapshot);
    states := RunGoesOn(name, states, steps, Register(s, 0, 0));
    steps := steps + [Register(s, 0, 0)];
    assert states[2].queue == [Event("update", s)] by { assert [] + [Event("update", s)] == [Event("update", s)]; }
    states := RunGoesOn(name, states, steps, Take);
    steps := steps + [Take];
    states := RunGoesOn(name, states, steps, Apply);
    steps := steps + [Apply];
  }

  /** The first hypothesis is needed. Take a snapshot, register a new node, let its event be applied while
      nothing is cached, then store the snapshot: no event is pending, and the entry lacks the node. */
  lemma LateStoreLosesNode(name: string, records: Records, snapshot: seq<Service>, s: Service, id: string)
    returns (states: seq<Sys>, steps: seq<Step>)
    requires name in records && IsSnapshot(snapshot, name, records[name])
    requires s.name == name && id in Ids(s.nodes) && !Holds(records, name, s.version, id)
    ensures IsRun(name, states, steps) && NoHarm(name, states, steps) && |steps| == 5
    ensures states[0].records == records
    ensures states[5].queue == [] && states[5].entry == Some(snapshot)
    ensures !Listed(snapshot, s.version, id) && Holds(states[5].records, name, s.version, id)
  {
    SnapshotAgrees(name, records, snapshot);
    RegisterHolds(records, s, 0, 0);
    states, steps := MissedRun(name, records, snapshot, s);
    states := RunGoesOn(name, states, steps, Store(0));
    steps := steps + [Store(0)];
  }

  /** The second hypothesis is needed. Cache the only version of a service, deregister all its nodes, and let
      a refill fail after the watcher took the event: no event is pending, and the entry keeps every node. */
  lemma FailureKeepsRemovedNodes(name: string, records: Records, snapshot: seq<Service>, s: Service)
    returns (states: seq<Sys>, steps: seq<Step>)
    requires name in records && IsSnapshot(snapshot, name, records[name]) && |snapshot| == 1
    requires s.name == name && s.version == snapshot[0].version
    requires Ids(s.nodes) == Ids(snapshot[0].nodes) && s.nodes != []
    ensures IsRun(name, states, steps) && StoresInTime(name, states, steps) && |steps| == 6
    ensures states[0].records == records
    ensures states[6].queue == [] && states[6].entry == Some(snapshot)
    ensures forall id <- Ids(s.nodes) ::
      Listed(snapshot, s.version, id) && !Holds(states[6].records, name, s.version, id)
  {
    var ev := Event("delete", s);
    SnapshotAgrees(name, records, snapshot);
    DeregisterHolds(records, s);
    AllGone(snapshot, ev);
    states, steps := FailedRun(name, records, snapshot, s);
    states := RunGoesOn(name, states, steps, Apply);
    steps := steps + [Apply];
  }

  lemma AllGone(services: seq<Service>, ev: Event)
    requires |services| == 1 && ev.action == "delete" && ev.service.nodes != []
    requires ev.service.version == services[0].version && Ids(ev.service.nodes) == Ids(services[0].nodes)
    ensures ChangeOf(services, ev).Drop?
    ensures forall id <- Ids(ev.service.nodes) :: Listed(services, ev.service.version, id)
  {
    WithoutDistinct(services[0].nodes, ev.service.nodes);
    NodesByIdKeys(services[0].nodes);
    assert services[..0] == [] && services[1..] == [];
  }
}
