/** registry/memory.go and memory_util.go: the in-memory registry and the events it emits. */
module MemoryRegistry {
  import opened CacheRefinement
  import opened Registry
  import opened Wrappers

  datatype Stamped = Stamped(node: Node, ttl: int, lastSeen: int)

  datatype Record = Record(name: string, version: string, metadata: map<string, string>, nodes: map<string, Stamped>)

  type Records = map<string, map<string, Record>>

  // ----- What Register and Deregister do to the records -----

  /** The node map of `serviceToRecord`: the last node of an id wins. */
  function Stamp(nodes: seq<Node>, ttl: int, now: int): map<string, Stamped>
  {
    if nodes == [] then map[] else
    var k := |nodes| - 1;
    Stamp(nodes[..k], ttl, now)[nodes[k].id := Stamped(nodes[k], ttl, now)]
  }

  /** Nodes of unknown id are added; a known id keeps its node. */
  function AddAbsent(m: map<string, Stamped>, nodes: seq<Node>, ttl: int, now: int): map<string, Stamped>
    decreases |nodes|
  {
    if nodes == [] then m else
    AddAbsent(if nodes[0].id in m then m else m[nodes[0].id := Stamped(nodes[0], ttl, now)], nodes[1..], ttl, now)
  }

  /** The nodes named are seen again. */
  function Refresh(m: map<string, Stamped>, nodes: seq<Node>, ttl: int, now: int): map<string, Stamped>
    decreases |nodes|
  {
    if nodes == [] then m else
    var id := nodes[0].id;
    Refresh(if id in m then m[id := m[id].(ttl := ttl, lastSeen := now)] else m, nodes[1..], ttl, now)
  }

  function VersionsOf(records: Records, name: string): map<string, Record>
  {
    if name in records then records[name] else map[]
  }

  function Registered(records: Records, s: Service, ttl: int, now: int): (Records, Option<Event>)
  {
    var versions := VersionsOf(records, s.name);
    if s.version !in versions then
      var r := Record(s.name, s.version, s.metadata, Stamp(s.nodes, ttl, now));
      (records[s.name := versions[s.version := r]], Some(Event("update", s)))
    else
      var r := versions[s.version];
      if Ids(s.nodes) <= r.nodes.Keys then
        (records[s.name := versions[s.version := r.(nodes := Refresh(r.nodes, s.nodes, ttl, now))]], None)
      else
        (records[s.name := versions[s.version := r.(nodes := AddAbsent(r.nodes, s.nodes, ttl, now))]],
         Some(Event("update", s)))
  }

  /** The versions of a service after nodes of one of them are gone; a version without nodes goes too. */
  function Trim(versions: map<string, Record>, s: Service): map<string, Record>
  {
    if s.version !in versions then versions else
    var r := versions[s.version];
    var nodes := r.nodes - Ids(s.nodes);
    if nodes == map[] then versions - {s.version} else versions[s.version := r.(nodes := nodes)]
  }

  function Deregistered(records: Records, s: Service): (Records, Option<Event>)
  {
    if s.name !in records then (records, None) else
    var versions := Trim(records[s.name], s);
    (if versions == map[] then records - {s.name} else records[s.name := versions], Some(Event("delete", s)))
  }

  // ----- The node ids of the records -----

  /** Node `id` of version `v` of service `name` is registered. */
  predicate Holds(records: Records, name: string, v: string, id: string)
  {
    name in records && v in records[name] && id in records[name][v].nodes
  }

  lemma {:induction false} StampKeys(nodes: seq<Node>, ttl: int, now: int)
    ensures Stamp(nodes, ttl, now).Keys == Ids(nodes)
    ensures forall id <- Stamp(nodes, ttl, now) :: Stamp(nodes, ttl, now)[id].node.id == id
  {
    if nodes != [] {
      var k := |nodes| - 1;
      StampKeys(nodes[..k], ttl, now);
      IdsSnoc(nodes[..k], nodes[k]);
      assert nodes == nodes[..k] + [nodes[k]];
    }
  }

  lemma {:induction false} AddAbsentKeys(m: map<string, Stamped>, nodes: seq<Node>, ttl: int, now: int)
    ensures var m' := AddAbsent(m, nodes, ttl, now);
      && m'.Keys == m.Keys + Ids(nodes)
      && (forall id <- m :: m'[id] == m[id])
      && forall id <- m' :: id in m || m'[id].node.id == id
    decreases |nodes|
  {
    if nodes != [] {
      var m1 := if nodes[0].id in m then m else m[nodes[0].id := Stamped(nodes[0], ttl, now)];
      AddAbsentKeys(m1, nodes[1..], ttl, now);
    }
  }

  lemma {:induction false} RefreshKeys(m: map<string, Stamped>, nodes: seq<Node>, ttl: int, now: int)
    ensures var m' := Refresh(m, nodes, ttl, now);
      m'.Keys == m.Keys && forall id <- m :: m'[id].node == m[id].node
    decreases |nodes|
  {
    if nodes != [] {
      var id := nodes[0].id;
      RefreshKeys(if id in m then m[id := m[id].(ttl := ttl, lastSeen := now)] else m, nodes[1..], ttl, now);
    }
  }

  /** After Register exactly the nodes named are registered in addition, and an event is emitted exactly if the
      version or one of them is new. */
  lemma RegisterHolds(records: Records, s: Service, ttl: int, now: int)
    ensures var (records', ev) := Registered(records, s, ttl, now);
      && (forall name, v, id :: Holds(records', name, v, id)
           <==> Holds(records, name, v, id) || (name == s.name && v == s.version && id in Ids(s.nodes)))
      && (ev.None? <==> s.version in VersionsOf(records, s.name)
                        && forall id <- Ids(s.nodes) :: Holds(records, s.name, s.version, id))
      && (ev.Some? ==> ev.value == Event("update", s))
  {
    StampKeys(s.nodes, ttl, now);
    var versions := VersionsOf(records, s.name);
    if s.version in versions {
      AddAbsentKeys(versions[s.version].nodes, s.nodes, ttl, now);
      RefreshKeys(versions[s.version].nodes, s.nodes, ttl, now);
    }
    PutHolds(records, s, Registered(records, s, ttl, now).0[s.name][s.version]);
  }

  /** A record that has the nodes of the service in addition to those of its version before. */
  lemma PutHolds(records: Records, s: Service, r: Record)
    requires var versions := VersionsOf(records, s.name);
      r.nodes.Keys == (if s.version in versions then versions[s.version].nodes.Keys else {}) + Ids(s.nodes)
    ensures var records' := records[s.name := VersionsOf(records, s.name)[s.version := r]];
      forall name, v, id :: Holds(records', name, v, id)
        <==> Holds(records, name, v, id) || (name == s.name && v == s.version && id in Ids(s.nodes))
  {
    assert forall id :: id in r.nodes <==> id in r.nodes.Keys;
  }

  predicate VersionHolds(versions: map<string, Record>, v: string, id: string)
  {
    v in versions && id in versions[v].nodes
  }

  lemma TrimHolds(versions: map<string, Record>, s: Service)
    ensures forall v, id ::
      (VersionHolds(Trim(versions, s), v, id)
       <==> VersionHolds(versions, v, id) && !(v == s.version && id in Ids(s.nodes)))
  {
    if s.version in versions {
      var r := versions[s.version];
      var nodes := r.nodes - Ids(s.nodes);
      assert forall id <- r.nodes :: id in nodes <==> id !in Ids(s.nodes);
    }
  }

  /** After Deregister exactly the nodes named are registered no more, and an event is emitted exactly if the
      name is registered. */
  lemma DeregisterHolds(records: Records, s: Service)
    ensures var (records', ev) := Deregistered(records, s);
      && (forall name, v, id :: Holds(records', name, v, id)
           <==> Holds(records, name, v, id) && !(name == s.name && v == s.version && id in Ids(s.nodes)))
      && (ev.None? <==> s.name !in records)
      && (ev.Some? ==> ev.value == Event("delete", s))
  {
    if s.name in records {
      var versions := Trim(records[s.name], s);
      TrimHolds(records[s.name], s);
      var records' := Deregistered(records, s).0;
      forall name, v, id
        ensures Holds(records', name, v, id)
           <==> Holds(records, name, v, id) && !(name == s.name && v == s.version && id in Ids(s.nodes))
      {
        if name == s.name {
          assert Holds(records, name, v, id) <==> VersionHolds(records[name], v, id);
          assert Holds(records', name, v, id) <==> VersionHolds(versions, v, id);
        }
      }
    }
  }

  // ----- The nodes of the records -----

  /** No later node has the id of node `k`. */
  predicate LastOfId(nodes: seq<Node>, k: nat)
    requires k < |nodes|
  {
    forall j :: k < j < |nodes| ==> nodes[j].id != nodes[k].id
  }

  /** No earlier node has the id of node `k`. */
  predicate FirstOfId(nodes: seq<Node>, k: nat)
    requires k < |nodes|
  {
    forall j :: 0 <= j < k ==> nodes[j].id != nodes[k].id
  }

  lemma {:induction false} StampAt(nodes: seq<Node>, ttl: int, now: int, k: nat)
    requires k < |nodes| && LastOfId(nodes, k)
    ensures nodes[k].id in Stamp(nodes, ttl, now)
    ensures Stamp(nodes, ttl, now)[nodes[k].id] == Stamped(nodes[k], ttl, now)
  {
    var n := |nodes| - 1;
    if k < n {
      assert nodes[n].id != nodes[k].id && LastOfId(nodes[..n], k);
      StampAt(nodes[..n], ttl, now, k);
    }
  }

  lemma {:induction false} AddAbsentAt(m: map<string, Stamped>, nodes: seq<Node>, ttl: int, now: int, k: nat)
    requires k < |nodes| && FirstOfId(nodes, k) && nodes[k].id !in m
    ensures var m' := AddAbsent(m, nodes, ttl, now);
      nodes[k].id in m' && m'[nodes[k].id] == Stamped(nodes[k], ttl, now)
    decreases |nodes|
  {
    var m1 := if nodes[0].id in m then m else m[nodes[0].id := Stamped(nodes[0], ttl, now)];
    if k == 0 {
      AddAbsentKeys(m1, nodes[1..], ttl, now);
    } else {
      assert nodes[0].id != nodes[k].id && nodes[1..][k - 1] == nodes[k];
      assert FirstOfId(nodes[1..], k - 1);
      AddAbsentAt(m1, nodes[1..], ttl, now, k - 1);
    }
  }

  lemma {:induction false} RefreshIs(m: map<string, Stamped>, nodes: seq<Node>, ttl: int, now: int, id: string)
    requires id in m
    ensures var m' := Refresh(m, nodes, ttl, now);
      id in m' && m'[id] == if id in Ids(nodes) then Stamped(m[id].node, ttl, now) else m[id]
    decreases |nodes|
  {
    if nodes != [] {
      var n := nodes[0].id;
      RefreshIs(if n in m then m[n := m[n].(ttl := ttl, lastSeen := now)] else m, nodes[1..], ttl, now, id);
    }
  }

  /** A new version has the metadata of the service and, for each id, its last node. */
  lemma NewVersionNodes(records: Records, s: Service, ttl: int, now: int)
    requires s.version !in VersionsOf(records, s.name)
    ensures var r := Registered(records, s, ttl, now).0[s.name][s.version];
      && r.metadata == s.metadata && r.nodes.Keys == Ids(s.nodes)
      && forall k | 0 <= k < |s.nodes| && LastOfId(s.nodes, k) ::
           s.nodes[k].id in r.nodes && r.nodes[s.nodes[k].id] == Stamped(s.nodes[k], ttl, now)
  {
    StampKeys(s.nodes, ttl, now);
    forall k | 0 <= k < |s.nodes| && LastOfId(s.nodes, k)
      ensures s.nodes[k].id in Stamp(s.nodes, ttl, now)
      ensures Stamp(s.nodes, ttl, now)[s.nodes[k].id] == Stamped(s.nodes[k], ttl, now)
    {
      StampAt(s.nodes, ttl, now, k);
    }
  }

  /** A known version keeps its metadata and its nodes. If some node is new, new ids have their first node, and
      nothing else changes; if none is, those named are seen again, with the new time to live. */
  lemma KnownVersionNodes(records: Records, s: Service, ttl: int, now: int)
    requires s.version in VersionsOf(records, s.name)
    ensures var known, r := records[s.name][s.version], Registered(records, s, ttl, now).0[s.name][s.version];
      && r.metadata == known.metadata && r.nodes.Keys == known.nodes.Keys + Ids(s.nodes)
      && (!(Ids(s.nodes) <= known.nodes.Keys) ==>
            && (forall id <- known.nodes :: r.nodes[id] == known.nodes[id])
            && forall k | 0 <= k < |s.nodes| && s.nodes[k].id !in known.nodes && FirstOfId(s.nodes, k) ::
                 s.nodes[k].id in r.nodes && r.nodes[s.nodes[k].id] == Stamped(s.nodes[k], ttl, now))
      && (Ids(s.nodes) <= known.nodes.Keys ==>
            forall id <- known.nodes ::
              r.nodes[id] == if id in Ids(s.nodes) then Stamped(known.nodes[id].node, ttl, now) else known.nodes[id])
  {
    var m := records[s.name][s.version].nodes;
    if Ids(s.nodes) <= m.Keys {
      RefreshKeys(m, s.nodes, ttl, now);
      forall id <- m
        ensures Refresh(m, s.nodes, ttl, now)[id]
             == if id in Ids(s.nodes) then Stamped(m[id].node, ttl, now) else m[id]
      {
        RefreshIs(m, s.nodes, ttl, now, id);
      }
    } else {
      AddAbsentKeys(m, s.nodes, ttl, now);
      forall k | 0 <= k < |s.nodes| && s.nodes[k].id !in m && FirstOfId(s.nodes, k)
        ensures s.nodes[k].id in AddAbsent(m, s.nodes, ttl, now)
        ensures AddAbsent(m, s.nodes, ttl, now)[s.nodes[k].id] == Stamped(s.nodes[k], ttl, now)
      {
        AddAbsentAt(m, s.nodes, ttl, now, k);
      }
    }
  }

  /** No other version or name changes in either call; a version that loses nodes keeps the others as they are,
      and is gone exactly if it has none left. */
  lemma OthersStay(records: Records, s: Service, ttl: int, now: int, name: string, v: string)
    requires name != s.name || v != s.version
    ensures var records', records'' := Registered(records, s, ttl, now).0, Deregistered(records, s).0;
      && (v in VersionsOf(records', name) <==> v in VersionsOf(records, name))
      && (v in VersionsOf(records'', name) <==> v in VersionsOf(records, name))
      && (v in VersionsOf(records, name) ==> records'[name][v] == records''[name][v] == records[name][v])
  {
  }

  lemma DeregisteredNodes(records: Records, s: Service)
    requires s.version in VersionsOf(records, s.name)
    ensures var known, records' := records[s.name][s.version], Deregistered(records, s).0;
      && (s.version in VersionsOf(records', s.name) <==> !(known.nodes.Keys <= Ids(s.nodes)))
      && (s.version in VersionsOf(records', s.name) ==>
            var r := records'[s.name][s.version];
            && r == known.(nodes := r.nodes) && r.nodes.Keys == known.nodes.Keys - Ids(s.nodes)
            && forall id <- r.nodes :: r.nodes[id] == known.nodes[id])
  {
    var m := records[s.name][s.version].nodes;
    assert forall id :: id in m - Ids(s.nodes) <==> id in m && id !in Ids(s.nodes);
    assert m - Ids(s.nodes) == map[] <==> m.Keys <= Ids(s.nodes);
  }

  // ----- Snapshots -----

  function NodesOf(nodes: map<string, Stamped>): NodeMap
  {
    map id | id in nodes :: nodes[id].node
  }

  function NodesOfVersions(versions: map<string, Record>): VersionMap
  {
    map v | v in versions :: NodesOf(versions[v].nodes)
  }

  /** What GetService may return: each version once, in some order, with exactly its nodes. */
  predicate IsSnapshot(services: seq<Service>, name: string, versions: map<string, Record>)
  {
    && DistinctVersions(services)
    && (forall s <- services :: s.name == name)
    && ByVersion(services) == NodesOfVersions(versions)
  }

  /** The service is what the record holds: the same metadata and, each once, the same nodes. */
  ghost predicate IsServiceOf(s: Service, r: Record)
  {
    && s.name == r.name && s.version == r.version && s.metadata == r.metadata && DistinctIds(s.nodes)
    && forall n :: n in s.nodes <==> n.id in r.nodes && r.nodes[n.id].node == n
  }

  lemma {:induction false} NodesByIdAt(nodes: seq<Node>, n: Node)
    requires DistinctIds(nodes)
    ensures n in nodes <==> n.id in NodesById(nodes) && NodesById(nodes)[n.id] == n
  {
    if nodes != [] {
      NodesByIdAt(nodes[1..], n);
      NodesByIdKeys(nodes[1..]);
      assert nodes == [nodes[0]] + nodes[1..];
    }
  }

  lemma NodesAre(s: Service, r: Record)
    requires s.name == r.name && s.version == r.version && s.metadata == r.metadata
    requires DistinctIds(s.nodes) && NodesById(s.nodes) == NodesOf(r.nodes)
    ensures IsServiceOf(s, r)
  {
    forall n ensures n in s.nodes <==> n.id in r.nodes && r.nodes[n.id].node == n {
      NodesByIdAt(s.nodes, n);
    }
  }

  ghost predicate AreServicesOf(services: seq<Service>, versions: map<string, Record>)
  {
    && (forall s <- services :: s.version in versions && IsServiceOf(s, versions[s.version]))
    && forall v <- versions :: exists s <- services :: s.version == v
  }

  ghost predicate Consistent(records: Records)
  {
    forall name <- records :: forall v <- records[name] :: ConsistentRecord(records[name][v], name, v)
  }

  predicate ConsistentRecord(r: Record, name: string, v: string)
  {
    r.name == name && r.version == v && forall id <- r.nodes :: r.nodes[id].node.id == id
  }

  lemma RegisterConsistent(records: Records, s: Service, ttl: int, now: int)
    requires Consistent(records)
    ensures Consistent(Registered(records, s, ttl, now).0)
  {
    StampKeys(s.nodes, ttl, now);
    var versions := VersionsOf(records, s.name);
    if s.version in versions {
      AddAbsentKeys(versions[s.version].nodes, s.nodes, ttl, now);
      RefreshKeys(versions[s.version].nodes, s.nodes, ttl, now);
    }
  }

  lemma DeregisterConsistent(records: Records, s: Service)
    requires Consistent(records)
    ensures Consistent(Deregistered(records, s).0)
  {
    if s.name in records {
      var versions := records[s.name];
      var trimmed := Trim(versions, s);
      forall v <- trimmed
        ensures ConsistentRecord(trimmed[v], s.name, v)
      {
        assert v in versions && ConsistentRecord(versions[v], s.name, v);
        assert trimmed[v].nodes.Keys <= versions[v].nodes.Keys;
      }
    }
  }

  /** `memRegistry`. The event that the source sends from a goroutine is returned. */
  class MemRegistry {
    var records: Records

    ghost predicate Valid()
      reads this
    {
      Consistent(records)
    }

    constructor ()
      ensures Valid() && records == map[]
    {
      records := map[];
    }

    /** The node loop of `serviceToRecord`. */
    method StampNodes(ns: seq<Node>, ttl: int, now: int) returns (nodes: map<string, Stamped>)
      ensures nodes == Stamp(ns, ttl, now)
    {
      nodes := map[];
      for i := 0 to |ns|
        invariant nodes == Stamp(ns[..i], ttl, now)
      {
        assert ns[..i + 1][..i] == ns[..i];
        nodes := nodes[ns[i].id := Stamped(ns[i], ttl, now)];
      }
      assert ns[..|ns|] == ns;
    }

    method Register(s: Service, ttl: int, now: int) returns (ev: Option<Event>)
      requires Valid()
      modifies this
      ensures Valid()
      ensures (records, ev) == old(Registered(records, s, ttl, now))
    {
      RegisterConsistent(records, s, ttl, now);
      ghost var expected := Registered(records, s, ttl, now);
      var nodes := StampNodes(s.nodes, ttl, now);
      var versions := if s.name in records then records[s.name] else map[];
      if s.version !in versions {
        records := records[s.name := versions[s.version := Record(s.name, s.version, s.metadata, nodes)]];
        return Some(Event("update", s));
      }
      var r := versions[s.version];
      var addedNodes := false;
      var m := r.nodes;
      for i := 0 to |s.nodes|
        invariant records == old(records)
        invariant AddAbsent(m, s.nodes[i..], ttl, now) == AddAbsent(r.nodes, s.nodes, ttl, now)
        invariant !addedNodes ==> m == r.nodes && (Ids(s.nodes) <= r.nodes.Keys <==> Ids(s.nodes[i..]) <= r.nodes.Keys)
        invariant addedNodes ==> !(Ids(s.nodes) <= r.nodes.Keys)
      {
        var n := s.nodes[i];
        assert s.nodes[i..][1..] == s.nodes[i + 1..];
        if n.id !in m {
          assert !addedNodes ==> n.id in Ids(s.nodes[i..]);
          addedNodes := true;
          m := m[n.id := Stamped(n, ttl, now)];
        }
      }
      if addedNodes {
        records := records[s.name := versions[s.version := r.(nodes := m)]];
        return Some(Event("update", s));
      }
      for i := 0 to |s.nodes|
        invariant records == old(records) && m.Keys == r.nodes.Keys
        invariant Refresh(m, s.nodes[i..], ttl, now) == Refresh(r.nodes, s.nodes, ttl, now)
      {
        var id := s.nodes[i].id;
        assert s.nodes[i..][1..] == s.nodes[i + 1..];
        IdIn(s.nodes, i);
        m := m[id := m[id].(ttl := ttl, lastSeen := now)];
      }
      assert s.nodes[|s.nodes|..] == [] && Ids(s.nodes) <= r.nodes.Keys;
      assert m == Refresh(r.nodes, s.nodes, ttl, now);
      records := records[s.name := versions[s.version := r.(nodes := m)]];
      assert records == expected.0;
      return None;
    }

    method Deregister(s: Service) returns (ev: Option<Event>)
      requires Valid()
      modifies this
      ensures Valid()
      ensures (records, ev) == old(Deregistered(records, s))
    {
      DeregisterConsistent(records, s);
      ghost var expected := Deregistered(records, s);
      if s.name !in records {
        return None;
      }
      var versions := records[s.name];
      if s.version in versions {
        var r := versions[s.version];
        var nodes := DropNodes(r.nodes, s.nodes);
        versions := if |nodes| == 0 then versions - {s.version} else versions[s.version := r.(nodes := nodes)];
      }
      assert versions == Trim(records[s.name], s);
      records := if |versions| == 0 then records - {s.name} else records[s.name := versions];
      assert records == expected.0;
      return Some(Event("delete", s));
    }

    method DropNodes(m: map<string, Stamped>, ns: seq<Node>) returns (nodes: map<string, Stamped>)
      ensures nodes == m - Ids(ns)
    {
      nodes := m;
      for i := 0 to |ns|
        invariant nodes - Ids(ns[i..]) == m - Ids(ns)
      {
        assert ns[i..][1..] == ns[i + 1..];
        assert nodes - Ids(ns[i..]) == (nodes - {ns[i].id}) - Ids(ns[i + 1..]);
        if ns[i].id in nodes {
          nodes := nodes - {ns[i].id};
        } else {
          assert nodes - {ns[i].id} == nodes;
        }
      }
      assert nodes == nodes - Ids([]);
    }

    /** `recordToService`: the nodes in the order of Go's map iteration, which is any order. */
    method NodeList(nodes: map<string, Stamped>) returns (ns: seq<Node>)
      requires forall id <- nodes :: nodes[id].node.id == id
      ensures NodesById(ns) == NodesOf(nodes) && DistinctIds(ns)
    {
      ns := [];
      var left := nodes.Keys;
      while left != {}
        invariant left <= nodes.Keys && DistinctIds(ns)
        invariant NodesById(ns) == map id | id in nodes && id !in left :: nodes[id].node
        decreases left
      {
        var id :| id in left;
        NodesByIdSnoc(ns, nodes[id].node);
        NodesByIdKeys(ns);
        IdsSnoc(ns, nodes[id].node);
        ns := ns + [nodes[id].node];
        left := left - {id};
      }
    }

    method GetService(name: string) returns (r: Result<seq<Service>>)
      requires Valid()
      ensures r.Ok? <==> name in records
      ensures r.Ok? ==> IsSnapshot(r.value, name, records[name]) && AreServicesOf(r.value, records[name])
    {
      if name !in records {
        return Err;
      }
      var services := ServiceList(name, records[name]);
      return Ok(services);
    }

    method ServiceList(name: string, versions: map<string, Record>) returns (services: seq<Service>)
      requires forall v <- versions :: ConsistentRecord(versions[v], name, v)
      ensures IsSnapshot(services, name, versions) && AreServicesOf(services, versions)
    {
      services := [];
      var left := versions.Keys;
      ghost var done: set<string> := {};
      while left != {}
        invariant left + done == versions.Keys && left !! done
        invariant DistinctVersions(services) && Versions(services) == done
        invariant forall s <- services :: s.name == name && s.version in versions && IsServiceOf(s, versions[s.version])
        invariant forall v <- done :: exists s <- services :: s.version == v
        invariant forall v <- done :: v in ByVersion(services) && ByVersion(services)[v] == NodesOf(versions[v].nodes)
        decreases left
      {
        var v :| v in left;
        var record := versions[v];
        assert ConsistentRecord(record, name, v);
        var nodes := NodeList(record.nodes);
        var s := Service(record.name, record.version, record.metadata, nodes);
        NodesAre(s, record);
        VersionsSnoc(services, s);
        ByVersionSnoc(services, s);
        services := services + [s];
        left, done := left - {v}, done + {v};
      }
      ByVersionKeys(services);
    }
  }

  lemma {:induction false} IdIn(nodes: seq<Node>, i: nat)
    requires i < |nodes|
    ensures nodes[i].id in Ids(nodes)
  {
    if i > 0 {
      IdIn(nodes[1..], i - 1);
    }
  }

  /** Of a new version, the service has its metadata and the last node of each id. */
  ghost predicate ListsNew(listed: Service, s: Service)
  {
    && listed.metadata == s.metadata
    && forall n :: n in listed.nodes <==> exists k :: 0 <= k < |s.nodes| && LastOfId(s.nodes, k) && s.nodes[k] == n
  }

  /** Of a known version, it has the old metadata and nodes, and the first node of each new id. */
  ghost predicate ListsKnown(listed: Service, s: Service, known: Record)
  {
    && listed.metadata == known.metadata
    && forall n :: (n in listed.nodes
         <==> if n.id in known.nodes then known.nodes[n.id].node == n
              else exists k :: 0 <= k < |s.nodes| && FirstOfId(s.nodes, k) && s.nodes[k] == n)
  }

  /** Register, then GetService: the version is listed, with the nodes that were passed, as they were passed. */
  method RegisterThenGet(reg: MemRegistry, s: Service, ttl: int, now: int) returns (services: seq<Service>)
    requires reg.Valid()
    modifies reg
    ensures exists listed <- services :: listed.version == s.version
    ensures forall listed <- services | listed.version == s.version ::
      var known := VersionsOf(old(reg.records), s.name);
      listed.name == s.name
      && if s.version in known then ListsKnown(listed, s, known[s.version]) else ListsNew(listed, s)
  {
    ghost var before := reg.records;
    var ev := reg.Register(s, ttl, now);
    var r := reg.GetService(s.name);
    services := r.value;
    AnswerLists(before, s, ttl, now, services);
  }

  lemma AnswerLists(records: Records, s: Service, ttl: int, now: int, services: seq<Service>)
    requires var records' := Registered(records, s, ttl, now).0;
      IsSnapshot(services, s.name, records'[s.name]) && AreServicesOf(services, records'[s.name])
    ensures exists listed <- services :: listed.version == s.version
    ensures forall listed <- services | listed.version == s.version ::
      var known := VersionsOf(records, s.name);
      listed.name == s.name
      && if s.version in known then ListsKnown(listed, s, known[s.version]) else ListsNew(listed, s)
  {
    var versions := Registered(records, s, ttl, now).0[s.name];
    assert s.version in versions;
    forall listed <- services | listed.version == s.version
      ensures listed.name == s.name
      ensures var known := VersionsOf(records, s.name);
        if s.version in known then ListsKnown(listed, s, known[s.version]) else ListsNew(listed, s)
    {
      assert IsServiceOf(listed, versions[s.version]);
      if s.version in VersionsOf(records, s.name) {
        KnownVersionListed(records, s, ttl, now, listed);
      } else {
        NewVersionListed(records, s, ttl, now, listed);
      }
    }
  }

  lemma NewVersionListed(records: Records, s: Service, ttl: int, now: int, listed: Service)
    requires s.version !in VersionsOf(records, s.name)
    requires IsServiceOf(listed, Registered(records, s, ttl, now).0[s.name][s.version])
    ensures ListsNew(listed, s)
  {
    NewVersionNodes(records, s, ttl, now);
    forall n | n in listed.nodes
      ensures exists k :: 0 <= k < |s.nodes| && LastOfId(s.nodes, k) && s.nodes[k] == n
    {
      var k := LastWithId(s.nodes, n.id);
    }
  }

  lemma KnownVersionListed(records: Records, s: Service, ttl: int, now: int, listed: Service)
    requires s.version in VersionsOf(records, s.name)
    requires IsServiceOf(listed, Registered(records, s, ttl, now).0[s.name][s.version])
    ensures ListsKnown(listed, s, records[s.name][s.version])
  {
    KnownVersionNodes(records, s, ttl, now);
    var m := records[s.name][s.version].nodes;
    forall n | n in listed.nodes && n.id !in m
      ensures exists k :: 0 <= k < |s.nodes| && FirstOfId(s.nodes, k) && s.nodes[k] == n
    {
      var k := FirstWithId(s.nodes, n.id);
    }
    forall k | 0 <= k < |s.nodes| && FirstOfId(s.nodes, k) && s.nodes[k].id !in m
      ensures s.nodes[k] in listed.nodes
    {
      IdIn(s.nodes, k);
    }
  }

  lemma {:induction false} LastWithId(nodes: seq<Node>, id: string) returns (k: nat)
    requires id in Ids(nodes)
    ensures k < |nodes| && nodes[k].id == id && LastOfId(nodes, k)
  {
    if id in Ids(nodes[1..]) {
      k := LastWithId(nodes[1..], id);
      assert forall j :: 0 < j < |nodes| ==> nodes[j] == nodes[1..][j - 1];
      k := k + 1;
    } else {
      k := 0;
      forall j | 0 < j < |nodes| ensures nodes[j].id != id {
        IdIn(nodes[1..], j - 1);
      }
    }
  }

  lemma {:induction false} FirstWithId(nodes: seq<Node>, id: string) returns (k: nat)
    requires id in Ids(nodes)
    ensures k < |nodes| && nodes[k].id == id && FirstOfId(nodes, k)
  {
    if nodes[0].id == id {
      k := 0;
    } else {
      k := FirstWithId(nodes[1..], id);
      assert forall j :: 0 < j < |nodes| ==> nodes[j] == nodes[1..][j - 1];
      k := k + 1;
    }
  }
}
