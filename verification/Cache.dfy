/** registry/cache/cache.go: the cache of service lists that registry events keep up to date. */
module Cache {
  import opened Registry
  import opened Wrappers

  // ----- What an event does to one cached list -----

  /** What `update` does to the entry: nothing, `del`, or `set`. */
  datatype Change = Keep | Drop | Set(services: seq<Service>)

  /** The last service of version `v`, or -1. */
  function FindVersion(services: seq<Service>, v: string): (i: int)
    ensures -1 <= i < |services|
    ensures 0 <= i ==> services[i].version == v
  {
    if services == [] then -1 else
    if services[|services| - 1].version == v then |services| - 1 else FindVersion(services[..|services| - 1], v)
  }

  function OtherVersions(services: seq<Service>, v: string): seq<Service>
  {
    if services == [] then [] else
    (if services[0].version == v then [] else [services[0]]) + OtherVersions(services[1..], v)
  }

  function ChangeOf(services: seq<Service>, ev: Event): Change
  {
    var neu := ev.service;
    if neu.nodes == [] then if ev.action == "delete" then Drop else Keep else
    var index := FindVersion(services, neu.version);
    if ev.action == "create" || ev.action == "update" then
      if index < 0 then Set(services + [neu]) else
      Set(services[index := neu.(nodes := Merged(neu.nodes, services[index].nodes))])
    else if index < 0 then
      Keep
    else if ev.action == "delete" then
      var nodes := Without(services[index].nodes, neu.nodes);
      if nodes != [] then Set(services[index := services[index].(nodes := nodes)]) else
      if |services| == 1 then Drop else
      Set(OtherVersions(services, services[index].version))
    else if ev.action == "override" then
      Drop
    else
      Keep
  }

  // ----- Service objects -----

  /** The services that cached lists and events point to; a reference is a position. */
  type Heap = seq<Service>

  /** An event as a watcher receives it: it points to the service object that the registry was called with. */
  datatype Posted = Posted(action: string, obj: nat)

  /** The service at `r`; a reference that points nowhere reads as an empty one. */
  function At(h: Heap, r: nat): Service
  {
    if r < |h| then h[r] else Service("", "", map[], [])
  }

  function Values(h: Heap, refs: seq<nat>): (services: seq<Service>)
  {
    seq(|refs|, i requires 0 <= i < |refs| => At(h, refs[i]))
  }

  function EventOf(h: Heap, e: Posted): Event
  {
    Event(e.action, At(h, e.obj))
  }

  /** `h` with another node list in one service. */
  function SetNodes(h: Heap, r: nat, nodes: seq<Node>): Heap
  {
    if r < |h| then h[r := h[r].(nodes := nodes)] else h
  }

  /** References to the copies of `services` that are put behind `h`. */
  function Copies(h: Heap, services: seq<Service>): seq<nat>
  {
    seq(|services|, i requires 0 <= i < |services| => |h| + i)
  }

  lemma CopiesValues(h: Heap, services: seq<Service>)
    ensures Values(h + services, Copies(h, services)) == services
  {
  }

  function OtherRefs(h: Heap, refs: seq<nat>, v: string): seq<nat>
  {
    if refs == [] then [] else
    (if At(h, refs[0]).version == v then [] else [refs[0]]) + OtherRefs(h, refs[1..], v)
  }

  /** What `update` does to the cached list of pointers. */
  datatype Relist = KeepRefs | DropRefs | SetRefs(refs: seq<nat>)

  /** What `update` does to the objects and to the list: new nodes are completed in the object of the event,
      which is then cached itself, and nodes are removed in the object that is cached. */
  function HeapUpdate(h: Heap, refs: seq<nat>, e: Posted): (Heap, Relist)
  {
    var neu := At(h, e.obj);
    if neu.nodes == [] then (h, if e.action == "delete" then DropRefs else KeepRefs) else
    var index := FindVersion(Values(h, refs), neu.version);
    if e.action == "create" || e.action == "update" then
      if index < 0 then (h, SetRefs(refs + [e.obj])) else
      (SetNodes(h, e.obj, Merged(neu.nodes, At(h, refs[index]).nodes)), SetRefs(refs[index := e.obj]))
    else if index < 0 then
      (h, KeepRefs)
    else if e.action == "delete" then
      var nodes := Without(At(h, refs[index]).nodes, neu.nodes);
      if nodes != [] then (SetNodes(h, refs[index], nodes), SetRefs(refs)) else
      if |refs| == 1 then (h, DropRefs) else
      (h, SetRefs(OtherRefs(h, refs, At(h, refs[index]).version)))
    else
      (h, if e.action == "override" then DropRefs else KeepRefs)
  }

  /** The name under which `update` makes its change: for nodes that are removed, that of the cached service. */
  function KeyOf(h: Heap, refs: seq<nat>, e: Posted): string
  {
    var neu := At(h, e.obj);
    var index := FindVersion(Values(h, refs), neu.version);
    if neu.nodes == [] || index < 0 || e.action == "create" || e.action == "update" then neu.name
    else At(h, refs[index]).name
  }

  lemma OthersFrom(h: Heap, refs: seq<nat>, v: string, i: nat, srvs: seq<nat>)
    requires i < |refs|
    ensures srvs + OtherRefs(h, refs[i..], v)
         == (if At(h, refs[i]).version == v then srvs else srvs + [refs[i]]) + OtherRefs(h, refs[i + 1..], v)
  {
    var rest := OtherRefs(h, refs[i + 1..], v);
    assert refs[i..][1..] == refs[i + 1..];
    assert srvs + ([refs[i]] + rest) == srvs + [refs[i]] + rest && [] + rest == rest;
  }

  lemma {:induction false} OtherRefsIn(h: Heap, refs: seq<nat>, v: string)
    ensures forall r <- OtherRefs(h, refs, v) :: r in refs
  {
    if refs != [] {
      OtherRefsIn(h, refs[1..], v);
    }
  }

  /** No object changes its name or version, and only the object of the event can be new in the list. */
  lemma UpdateKeepsNames(h: Heap, refs: seq<nat>, e: Posted)
    ensures var (h', list) := HeapUpdate(h, refs, e);
      && |h'| == |h|
      && (forall r :: At(h', r).name == At(h, r).name && At(h', r).version == At(h, r).version)
      && (list.SetRefs? ==> forall r <- list.refs :: r in refs || r == e.obj)
  {
    var index := FindVersion(Values(h, refs), At(h, e.obj).version);
    if 0 <= index {
      OtherRefsIn(h, refs, At(h, refs[index]).version);
    }
  }

  /** A list cached under a name points to services of that name. */
  predicate PointsToOwn(h: Heap, entries: map<string, seq<nat>>)
  {
    forall name <- entries :: forall r <- entries[name] :: r < |h| && h[r].name == name
  }

  lemma UpdateKeepsOwn(h: Heap, entries: map<string, seq<nat>>, e: Posted)
    requires PointsToOwn(h, entries) && e.obj < |h| && h[e.obj].name in entries
    ensures var name := h[e.obj].name;
      var (h', list) := HeapUpdate(h, entries[name], e);
      && KeyOf(h, entries[name], e) == name
      && PointsToOwn(h', entries) && (list.SetRefs? ==> PointsToOwn(h', entries[name := list.refs]))
  {
    var name := h[e.obj].name;
    var refs := entries[name];
    var (h', list) := HeapUpdate(h, refs, e);
    UpdateKeepsNames(h, refs, e);
    assert forall r: nat | r < |h| :: At(h', r) == h'[r] && At(h, r) == h[r];
  }

  // ----- The cache -----

  class Cache {
    var heap: Heap
    var entries: map<string, seq<nat>>
    var ttls: map<string, int>
    var watched: set<string>
    /** Whether the last contact with the registry failed. */
    var status: bool
    const ttl: int

    predicate Valid()
      reads this
    {
      PointsToOwn(heap, entries)
    }

    constructor (ttl: int)
      ensures Valid() && heap == [] && entries == map[] && ttls == map[] && watched == {} && !status && this.ttl == ttl
    {
      this.ttl := ttl;
      heap, entries, ttls, watched, status := [], map[], map[], {}, false;
    }

    /** `set` */
    method Put(service: string, refs: seq<nat>, now: int)
      modifies this`entries, this`ttls
      ensures entries == old(entries)[service := refs] && ttls == old(ttls)[service := now + ttl]
    {
      entries := entries[service := refs];
      ttls := ttls[service := now + ttl];
    }

    /** `del`: an entry is kept while the registry is failing. */
    method Del(service: string)
      modifies this`entries, this`ttls
      ensures entries == if status then old(entries) else old(entries) - {service}
      ensures ttls == if status then old(ttls) else old(ttls) - {service}
    {
      if status {
        return;
      }
      entries := entries - {service};
      ttls := ttls - {service};
    }

    /** The effect of an event on the service objects, the entries and their expiry. */
    function Updated(e: Posted, now: int): (Heap, map<string, seq<nat>>, map<string, int>)
      reads this
    {
      var name := At(heap, e.obj).name;
      if name !in watched || name !in entries then (heap, entries, ttls) else
      var key := KeyOf(heap, entries[name], e);
      var (h, list) := HeapUpdate(heap, entries[name], e);
      match list
      case KeepRefs => (h, entries, ttls)
      case DropRefs => if status then (h, entries, ttls) else (h, entries - {key}, ttls - {key})
      case SetRefs(refs) => (h, entries[key := refs], ttls[key := now + ttl])
    }

    /** `update`; None is a nil result or a result without a service. */
    method Update(res: Option<Posted>, now: int)
      requires res.Some? ==> res.value.obj < |heap|
      modifies this`heap, this`entries, this`ttls
      ensures (heap, entries, ttls) == if res.None? then old((heap, entries, ttls)) else old(Updated(res.value, now))
      ensures old(Valid()) ==> Valid()
    {
      if res.None? {
        return;
      }
      var e := res.value;
      var neu := heap[e.obj];
      if neu.name !in watched {
        return;
      }
      if neu.name !in entries {
        return;
      }
      var refs := entries[neu.name];
      if Valid() {
        UpdateKeepsOwn(heap, entries, e);
      }
      if |neu.nodes| == 0 {
        if e.action == "delete" {
          Del(neu.name);
        }
        return;
      }
      var index := Find(refs, neu.version);
      if e.action == "create" || e.action == "update" {
        if index < 0 {
          Put(neu.name, refs + [e.obj], now);
          return;
        }
        Complete(e.obj, At(heap, refs[index]).nodes);
        Put(neu.name, refs[index := e.obj], now);
      } else if e.action == "delete" {
        if index < 0 {
          return;
        }
        var service := At(heap, refs[index]);
        var nodes := DelNodes(service.nodes, neu.nodes);
        if |nodes| > 0 {
          heap := SetNodes(heap, refs[index], nodes);
          Put(service.name, refs, now);
          return;
        }
        if |refs| == 1 {
          Del(service.name);
          return;
        }
        var srvs := Others(refs, service.version);
        Put(service.name, srvs, now);
      } else if e.action == "override" {
        if index < 0 {
          return;
        }
        Del(At(heap, refs[index]).name);
      }
    }

    method Find(refs: seq<nat>, v: string) returns (index: int)
      ensures index == FindVersion(Values(heap, refs), v)
    {
      index := -1;
      for i := 0 to |refs|
        invariant index == FindVersion(Values(heap, refs)[..i], v)
      {
        assert Values(heap, refs)[..i + 1][..i] == Values(heap, refs)[..i];
        if At(heap, refs[i]).version == v {
          index := i;
        }
      }
      assert Values(heap, refs)[..|refs|] == Values(heap, refs);
    }

    /** The loop that appends to the object of the event the known nodes that it lacks. */
    method Complete(obj: nat, known: seq<Node>)
      requires obj < |heap|
      modifies this`heap
      ensures heap == SetNodes(old(heap), obj, Merged(old(heap[obj].nodes), known))
    {
      ghost var nodes := heap[obj].nodes;
      for i := 0 to |known|
        invariant |heap| == old(|heap|) && heap == SetNodes(old(heap), obj, heap[obj].nodes)
        invariant Merged(heap[obj].nodes, known[i..]) == Merged(nodes, known)
      {
        var seen := Contains(heap[obj].nodes, known[i].id);
        assert known[i..][1..] == known[i + 1..];
        if !seen {
          heap := SetNodes(heap, obj, heap[obj].nodes + [known[i]]);
        }
      }
    }

    method Others(refs: seq<nat>, v: string) returns (srvs: seq<nat>)
      ensures srvs == OtherRefs(heap, refs, v)
    {
      srvs := [];
      for i := 0 to |refs|
        invariant srvs + OtherRefs(heap, refs[i..], v) == OtherRefs(heap, refs, v)
      {
        OthersFrom(heap, refs, v, i, srvs);
        if At(heap, refs[i]).version != v {
          srvs := srvs + [refs[i]];
        }
      }
      assert srvs == srvs + [];
    }

    /** The services cached under a name. */
    function Cached(service: string): seq<Service>
      reads this
    {
      if service in entries then Values(heap, entries[service]) else []
    }

    /** `get`, with what `Registry.GetService` returns if it is called; the refill is one step here. A list that
        is not empty is valid up to its expiry, after which the registry is asked. */
    method Get(service: string, now: int, fetched: Result<seq<Service>>) returns (r: Result<seq<Service>>)
      modifies this
      ensures old(Cached(service) != [] && service in ttls && now <= ttls[service]) ==>
        && r == Ok(old(Cached(service))) && heap == old(heap) && entries == old(entries) && ttls == old(ttls)
        && status == old(status) && watched == old(watched)
      ensures old(Cached(service) == [] || service !in ttls || now > ttls[service]) && fetched.Ok? ==>
        && r == fetched && !status && heap == old(heap) + fetched.value
        && entries == old(entries)[service := Copies(old(heap), fetched.value)]
        && ttls == old(ttls)[service := now + ttl] && Cached(service) == fetched.value
      ensures old(Cached(service) == [] || service !in ttls || now > ttls[service]) && fetched.Err? ==>
        && heap == old(heap) && entries == old(entries) && ttls == old(ttls)
        && (if old(Cached(service)) != [] then r == Ok(old(Cached(service))) && status
            else r == Err && status == old(status))
      ensures old(Cached(service) == [] || service !in ttls || now > ttls[service]) ==>
        watched == if ttl > 0 then old(watched) + {service} else old(watched)
      ensures old(Valid()) && (fetched.Ok? ==> forall s <- fetched.value :: s.name == service) ==> Valid()
    {
      var cached := Cached(service);
      if |cached| > 0 && service in ttls && now <= ttls[service] {
        return Ok(cached);
      }
      if ttl > 0 && service !in watched {
        watched := watched + {service};
      }
      match fetched
      case Err =>
        if |cached| > 0 {
          status := true;
          return Ok(cached);
        }
        return Err;
      case Ok(services) =>
        status := false;
        CopiesValues(heap, services);
        var refs := Copies(heap, services);
        heap := heap + services;
        Put(service, refs, now);
        return Ok(services);
    }
  }

  /** Stored services are served exactly up to their expiry: two calls of `get` with no event in between, the
      first of which asks the registry. Later the registry is asked again, and a stale list is the answer only
      if that fails. */
  method GetTwice(c: Cache, service: string, t: int, services: seq<Service>, t': int, fetched: Result<seq<Service>>)
    returns (r: Result<seq<Service>>)
    requires c.Cached(service) == [] || service !in c.ttls || t > c.ttls[service]
    requires services != []
    modifies c
    ensures r == if t' > t + c.ttl && fetched.Ok? then fetched else Ok(services)
    ensures service in c.ttls && c.ttls[service] == if t' > t + c.ttl && fetched.Ok? then t' + c.ttl else t + c.ttl
    ensures c.status <==> t' > t + c.ttl && fetched.Err?
  {
    var first := c.Get(service, t, Ok(services));
    r := c.Get(service, t', fetched);
  }

  // ----- Events that change no nodes -----

  lemma EventOfOthers(c: Cache, e: Posted, now: int)
    requires var name := At(c.heap, e.obj).name; name !in c.watched || name !in c.entries
    ensures c.Updated(e, now) == (c.heap, c.entries, c.ttls)
  {
  }

  /** An event without nodes removes the entry if it is a delete event, unless the registry is failing. */
  lemma EventWithoutNodes(c: Cache, e: Posted, now: int)
    requires At(c.heap, e.obj).nodes == []
    requires At(c.heap, e.obj).name in c.watched && At(c.heap, e.obj).name in c.entries
    ensures var name := At(c.heap, e.obj).name;
      c.Updated(e, now)
      == if e.action == "delete" && !c.status then (c.heap, c.entries - {name}, c.ttls - {name})
         else (c.heap, c.entries, c.ttls)
  {
  }

  lemma {:induction false} FindVersionFinds(services: seq<Service>, v: string)
    ensures FindVersion(services, v) < 0 <==> forall s <- services :: s.version != v
  {
    if services != [] {
      var k := |services| - 1;
      FindVersionFinds(services[..k], v);
      assert services == services[..k] + [services[k]];
    }
  }

  /** An event with nodes that does not name them as new or removed: an override event drops the entry if its
      version is cached, and any other does nothing. */
  lemma EventOfOtherAction(c: Cache, e: Posted, now: int)
    requires c.Valid() && e.obj < |c.heap| && c.heap[e.obj].nodes != []
    requires c.heap[e.obj].name in c.watched && c.heap[e.obj].name in c.entries
    requires e.action != "create" && e.action != "update" && e.action != "delete"
    ensures var neu := c.heap[e.obj];
      c.Updated(e, now)
      == if e.action == "override" && !c.status && exists s <- c.Cached(neu.name) :: s.version == neu.version
         then (c.heap, c.entries - {neu.name}, c.ttls - {neu.name}) else (c.heap, c.entries, c.ttls)
  {
    FindVersionFinds(c.Cached(c.heap[e.obj].name), c.heap[e.obj].version);
    UpdateKeepsOwn(c.heap, c.entries, e);
  }
}
