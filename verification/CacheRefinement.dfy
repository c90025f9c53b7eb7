/** `update` on the cached list is an operation on a map from versions to nodes by id. */
module CacheRefinement {
  import opened Cache
  import opened Registry

  /** An update event overrides the nodes of its version, the new ones winning. */
  function Override(m: VersionMap, v: string, neu: NodeMap): VersionMap
  {
    m[v := (if v in m then m[v] else map[]) + neu]
  }

  /** A delete event takes nodes out of its version, and the version out once it is empty. */
  function Subtract(m: VersionMap, v: string, ids: set<string>): VersionMap
  {
    if v !in m then m else
    var left := m[v] - ids;
    if left == map[] then m - {v} else m[v := left]
  }

  predicate NoEmptyVersion(services: seq<Service>)
  {
    forall s <- services :: s.nodes != []
  }

  predicate DistinctNodes(services: seq<Service>)
  {
    forall s <- services :: DistinctIds(s.nodes)
  }

  lemma {:induction false} FindVersionIn(services: seq<Service>, v: string)
    ensures FindVersion(services, v) < 0 <==> v !in Versions(services)
  {
    if services != [] {
      var k := |services| - 1;
      FindVersionIn(services[..k], v);
      assert services == services[..k] + [services[k]];
      VersionsSnoc(services[..k], services[k]);
    }
  }

  lemma {:induction false} VersionsSnoc(services: seq<Service>, s: Service)
    ensures Versions(services + [s]) == Versions(services) + {s.version}
    ensures s.version !in Versions(services) && DistinctVersions(services) ==> DistinctVersions(services + [s])
  {
    if services == [] {
      assert [] + [s] == [s] && [s][1..] == [];
    } else {
      assert (services + [s])[1..] == services[1..] + [s];
      VersionsSnoc(services[1..], s);
    }
  }

  lemma {:induction false} ByVersionSnoc(services: seq<Service>, s: Service)
    requires s.version !in Versions(services)
    ensures ByVersion(services + [s]) == ByVersion(services)[s.version := NodesById(s.nodes)]
  {
    if services == [] {
      assert [] + [s] == [s] && [s][1..] == [];
    } else {
      assert (services + [s])[1..] == services[1..] + [s];
      ByVersionSnoc(services[1..], s);
    }
  }

  lemma {:induction false} ReplaceVersion(services: seq<Service>, i: nat, s: Service)
    requires i < |services| && s.version == services[i].version
    ensures Versions(services[i := s]) == Versions(services)
    ensures DistinctVersions(services) ==> DistinctVersions(services[i := s])
  {
    if i == 0 {
      assert services[i := s][1..] == services[1..];
    } else {
      assert services[i := s][1..] == services[1..][i - 1 := s];
      ReplaceVersion(services[1..], i - 1, s);
    }
  }

  lemma {:induction false} ByVersionAt(services: seq<Service>, i: nat)
    requires i < |services| && DistinctVersions(services)
    ensures services[i].version in ByVersion(services)
    ensures ByVersion(services)[services[i].version] == NodesById(services[i].nodes)
  {
    if i > 0 {
      ByVersionAt(services[1..], i - 1);
      VersionIn(services[1..], i - 1);
    }
  }

  lemma PutsCommute(m: VersionMap, k: string, x: NodeMap, k': string, x': NodeMap)
    requires k != k'
    ensures m[k := x][k' := x'] == m[k' := x'][k := x]
  {
  }

  lemma {:induction false} ReplaceByVersion(services: seq<Service>, i: nat, s: Service)
    requires i < |services| && DistinctVersions(services) && s.version == services[i].version
    ensures ByVersion(services[i := s]) == ByVersion(services)[s.version := NodesById(s.nodes)]
  {
    if i == 0 {
      assert services[i := s][1..] == services[1..];
    } else {
      assert services[i := s][1..] == services[1..][i - 1 := s];
      ReplaceByVersion(services[1..], i - 1, s);
      VersionIn(services[1..], i - 1);
      PutsCommute(ByVersion(services[1..]), services[0].version, NodesById(services[0].nodes),
                  s.version, NodesById(s.nodes));
    }
  }

  lemma {:induction false} VersionIn(services: seq<Service>, i: nat)
    requires i < |services|
    ensures services[i].version in Versions(services)
  {
    if i > 0 {
      VersionIn(services[1..], i - 1);
    }
  }

  lemma OthersCons(services: seq<Service>, v: string)
    requires services != []
    ensures OtherVersions(services, v)
         == if services[0].version == v then OtherVersions(services[1..], v)
            else [services[0]] + OtherVersions(services[1..], v)
  {
  }

  lemma {:induction false} OthersVersions(services: seq<Service>, v: string)
    requires DistinctVersions(services)
    ensures Versions(OtherVersions(services, v)) == Versions(services) - {v}
    ensures DistinctVersions(OtherVersions(services, v))
  {
    if services != [] {
      OthersCons(services, v);
      OthersVersions(services[1..], v);
      if services[0].version != v {
        assert OtherVersions(services, v)[1..] == OtherVersions(services[1..], v);
      }
    }
  }

  lemma {:induction false} OthersByVersion(services: seq<Service>, v: string)
    requires DistinctVersions(services)
    ensures ByVersion(OtherVersions(services, v)) == ByVersion(services) - {v}
  {
    if services != [] {
      OthersCons(services, v);
      OthersByVersion(services[1..], v);
      DropAndPut(ByVersion(services[1..]), services[0].version, NodesById(services[0].nodes), v);
      if services[0].version != v {
        assert OtherVersions(services, v)[1..] == OtherVersions(services[1..], v);
      }
    }
  }

  lemma DropAndPut(m: VersionMap, k: string, nodes: NodeMap, v: string)
    ensures m[k := nodes] - {v} == if k == v then m - {v} else (m - {v})[k := nodes]
  {
  }

  lemma {:induction false} OthersIn(services: seq<Service>, v: string)
    ensures forall s <- OtherVersions(services, v) :: s in services
  {
    if services != [] {
      OthersIn(services[1..], v);
    }
  }

  /** `services` after a change is a list of the map `m'`; an entry that is dropped was to become empty. */
  ghost predicate Refines(services: seq<Service>, change: Change, m': VersionMap)
  {
    match change
    case Keep => m' == ByVersion(services)
    case Drop => m' == map[]
    case Set(services') => services' != [] && ByVersion(services') == m' && DistinctVersions(services')
  }

  lemma OverrideNew(m: VersionMap, v: string, neu: NodeMap)
    requires v !in m
    ensures Override(m, v, neu) == m[v := neu]
  {
    assert map[] + neu == neu;
  }

  /** Create and update events override the map. */
  lemma UpdateRefines(services: seq<Service>, ev: Event)
    requires DistinctVersions(services) && ev.service.nodes != []
    requires ev.action == "create" || ev.action == "update"
    ensures Refines(services, ChangeOf(services, ev),
                    Override(ByVersion(services), ev.service.version, NodesById(ev.service.nodes)))
  {
    var neu := ev.service;
    var index := FindVersion(services, neu.version);
    FindVersionIn(services, neu.version);
    if index < 0 {
      ByVersionKeys(services);
      VersionsSnoc(services, neu);
      ByVersionSnoc(services, neu);
      OverrideNew(ByVersion(services), neu.version, NodesById(neu.nodes));
    } else {
      var s := neu.(nodes := Merged(neu.nodes, services[index].nodes));
      ByVersionAt(services, index);
      ReplaceVersion(services, index, s);
      ReplaceByVersion(services, index, s);
      MergedById(neu.nodes, services[index].nodes);
      assert ChangeOf(services, ev) == Set(services[index := s]);
    }
  }

  /** Delete events subtract from the map. */
  lemma DeleteRefines(services: seq<Service>, ev: Event)
    requires DistinctVersions(services) && ev.service.nodes != [] && ev.action == "delete"
    ensures Refines(services, ChangeOf(services, ev),
                    Subtract(ByVersion(services), ev.service.version, Ids(ev.service.nodes)))
  {
    var neu := ev.service;
    var index := FindVersion(services, neu.version);
    FindVersionIn(services, neu.version);
    ByVersionKeys(services);
    if 0 <= index {
      var nodes := services[index].nodes;
      var left := Without(nodes, neu.nodes);
      WithoutById(nodes, neu.nodes);
      NodesByIdKeys(left);
      ByVersionAt(services, index);
      ReplaceVersion(services, index, services[index].(nodes := left));
      ReplaceByVersion(services, index, services[index].(nodes := left));
      if left == [] {
        OthersVersions(services, neu.version);
        OthersByVersion(services, neu.version);
        OthersLeft(services, neu.version);
      }
    }
  }

  /** The cache refines the map: with distinct versions, a create or update event overrides, a delete
      event subtracts, `del` happens exactly when nothing would be left, and an unchanged list is one
      that the map operation leaves unchanged too. */
  lemma UpdateRefinesMap(services: seq<Service>, ev: Event)
    requires DistinctVersions(services) && ev.service.nodes != []
    requires ev.action == "create" || ev.action == "update" || ev.action == "delete"
    ensures var m, neu := ByVersion(services), ev.service;
      Refines(services, ChangeOf(services, ev),
              if ev.action == "delete" then Subtract(m, neu.version, Ids(neu.nodes))
              else Override(m, neu.version, NodesById(neu.nodes)))
  {
    if ev.action == "delete" {
      DeleteRefines(services, ev);
    } else {
      UpdateRefines(services, ev);
    }
  }

  lemma OthersLeft(services: seq<Service>, v: string)
    requires DistinctVersions(services) && v in Versions(services)
    ensures |services| == 1 ==> ByVersion(services) - {v} == map[]
    ensures |services| > 1 ==> OtherVersions(services, v) != []
  {
    if |services| > 1 {
      OthersVersions(services, v);
      if services[0].version == v {
        assert services[1].version in Versions(services[1..]) by { VersionIn(services[1..], 0); }
        VersionIn(services, 1);
        assert services[1].version in Versions(OtherVersions(services, v));
      } else {
        assert services[0].version in Versions(OtherVersions(services, v));
      }
    }
  }

  /** No version and no list is left empty, and node ids stay distinct. */
  lemma UpdateKeepsShape(services: seq<Service>, ev: Event)
    requires services != [] && NoEmptyVersion(services) && DistinctVersions(services)
    requires DistinctNodes(services) && DistinctIds(ev.service.nodes)
    requires ChangeOf(services, ev).Set?
    ensures var services' := ChangeOf(services, ev).services;
      services' != [] && NoEmptyVersion(services') && DistinctVersions(services') && DistinctNodes(services')
  {
    var neu := ev.service;
    var index := FindVersion(services, neu.version);
    UpdateRefinesMap(services, ev);
    OthersIn(services, neu.version);
    if 0 <= index {
      assert services[index] in services;
      var nodes := services[index].nodes;
      MergedDistinct(neu.nodes, nodes);
      WithoutDistinct(nodes, neu.nodes);
      MergedById(neu.nodes, nodes);
      NodesByIdKeys(neu.nodes);
      NodesByIdKeys(Merged(neu.nodes, nodes));
    }
  }

  lemma {:induction false} OthersAre(services: seq<Service>, v: string)
    ensures forall s :: s in OtherVersions(services, v) <==> s in services && s.version != v
  {
    if services != [] {
      OthersAre(services[1..], v);
      assert services == [services[0]] + services[1..];
    }
  }

  /** Services of other versions stay as they are. That of the version of the event is described by the event
      when nodes are added, and as before when nodes are removed. */
  lemma UpdateDescribes(services: seq<Service>, ev: Event)
    requires DistinctVersions(services) && ChangeOf(services, ev).Set?
    ensures var services', neu := ChangeOf(services, ev).services, ev.service;
      && (forall s: Service | s.version != neu.version :: s in services' <==> s in services)
      && (forall s <- services' | s.version == neu.version ::
            if ev.action == "delete" then exists s0 <- services :: s == s0.(nodes := s.nodes)
            else s == neu.(nodes := s.nodes))
  {
    var neu := ev.service;
    var index := FindVersion(services, neu.version);
    if index < 0 {
      FindVersionFinds(services, neu.version);
    } else if ev.action == "delete" {
      RemovedDescribes(services, neu, index, ChangeOf(services, ev).services);
    } else {
      SameVersionSameIndex(services, index);
      PutIn(services, index, neu.(nodes := Merged(neu.nodes, services[index].nodes)));
    }
  }

  lemma RemovedDescribes(services: seq<Service>, neu: Service, index: nat, services': seq<Service>)
    requires DistinctVersions(services) && index < |services| && services[index].version == neu.version
    requires || services' == services[index := services[index].(nodes := Without(services[index].nodes, neu.nodes))]
             || services' == OtherVersions(services, neu.version)
    ensures forall s: Service | s.version != neu.version :: s in services' <==> s in services
    ensures forall s <- services' | s.version == neu.version :: exists s0 <- services :: s == s0.(nodes := s.nodes)
  {
    OthersAre(services, neu.version);
    SameVersionSameIndex(services, index);
    PutIn(services, index, services[index].(nodes := Without(services[index].nodes, neu.nodes)));
    assert services[index] in services;
  }

  lemma PutIn(services: seq<Service>, i: nat, s: Service)
    requires i < |services| && forall j :: 0 <= j < |services| && j != i ==> services[j].version != services[i].version
    requires s.version == services[i].version
    ensures forall r: Service | r.version != s.version :: r in services[i := s] <==> r in services
    ensures forall r <- services[i := s] | r.version == s.version :: r == s
  {
    forall r <- services | r.version != s.version ensures r in services[i := s] {
      var j :| 0 <= j < |services| && services[j] == r;
      assert services[i := s][j] == r;
    }
  }

  lemma {:induction false} SameVersionSameIndex(services: seq<Service>, i: nat)
    requires i < |services| && DistinctVersions(services)
    ensures forall j :: 0 <= j < |services| && j != i ==> services[j].version != services[i].version
  {
    if i > 0 {
      SameVersionSameIndex(services[1..], i - 1);
      VersionIn(services[1..], i - 1);
      assert forall j :: 0 < j < |services| ==> services[j] == services[1..][j - 1];
    } else {
      forall j | 0 < j < |services| ensures services[j].version != services[0].version {
        VersionIn(services[1..], j - 1);
      }
    }
  }
}
