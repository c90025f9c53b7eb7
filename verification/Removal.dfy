/** `Remove` of util/registry/util.go: taking a list of services out of another. */
module Removal {
  import opened Registry

  /** The nodes of a service of version `v` after the loop over `del`. */
  function Stripped(nodes: seq<Node>, v: string, del: seq<Service>): seq<Node>
    decreases |del|
  {
    if del == [] then nodes else
    Stripped(if del[0].version == v then Without(nodes, del[0].nodes) else nodes, v, del[1..])
  }

  /** The flag `rem` after the loop: some service of the version left no nodes. */
  predicate Emptied(nodes: seq<Node>, v: string, del: seq<Service>)
    decreases |del|
  {
    if del == [] then false else
    var left := if del[0].version == v then Without(nodes, del[0].nodes) else nodes;
    (del[0].version == v && left == []) || Emptied(left, v, del[1..])
  }

  function Removed(known: seq<Service>, del: seq<Service>): seq<Service>
  {
    if known == [] then [] else
    var s := known[0];
    (if Emptied(s.nodes, s.version, del) then [] else [s.(nodes := Stripped(s.nodes, s.version, del))])
    + Removed(known[1..], del)
  }

  method Remove(known: seq<Service>, del: seq<Service>) returns (services: seq<Service>)
    ensures services == Removed(known, del)
  {
    services := [];
    for i := 0 to |known|
      invariant services + Removed(known[i..], del) == Removed(known, del)
    {
      var srv := known[i];
      assert known[i..][1..] == known[i + 1..];
      ghost var tail := Removed(known[i + 1..], del);
      var rem := false;
      for j := 0 to |del|
        invariant srv.version == known[i].version && srv == known[i].(nodes := srv.nodes)
        invariant Stripped(srv.nodes, srv.version, del[j..]) == Stripped(known[i].nodes, srv.version, del)
        invariant rem || Emptied(srv.nodes, srv.version, del[j..]) <==> Emptied(known[i].nodes, srv.version, del)
      {
        assert del[j..][1..] == del[j + 1..];
        if srv.version == del[j].version {
          var nodes := DelNodes(srv.nodes, del[j].nodes);
          srv := srv.(nodes := nodes);
          if |nodes| == 0 {
            rem := true;
          }
        }
      }
      if !rem {
        assert services + ([srv] + tail) == services + [srv] + tail;
        services := services + [srv];
      } else {
        assert [] + tail == tail;
      }
    }
    assert services == services + [];
  }

  /** The node ids that `del` names for version `v`. */
  function Named(del: seq<Service>, v: string): set<string>
  {
    if del == [] then {} else (if del[0].version == v then Ids(del[0].nodes) else {}) + Named(del[1..], v)
  }

  lemma {:induction false} StrippedById(nodes: seq<Node>, v: string, del: seq<Service>)
    ensures NodesById(Stripped(nodes, v, del)) == NodesById(nodes) - Named(del, v)
    ensures nodes == [] || Emptied(nodes, v, del) ==> Stripped(nodes, v, del) == []
    decreases |del|
  {
    if del != [] {
      var left := if del[0].version == v then Without(nodes, del[0].nodes) else nodes;
      WithoutById(nodes, del[0].nodes);
      StrippedById(left, v, del[1..]);
    }
  }

  /** What is left of a service, with its name and metadata, are its nodes that `del` does not name; it is gone
      exactly if some service of `del` for its version leaves it no node. */
  lemma {:induction false} RemoveKeeps(known: seq<Service>, del: seq<Service>, s': Service)
    ensures s' in Removed(known, del) <==>
      exists s <- known :: !Emptied(s.nodes, s.version, del) && s' == s.(nodes := Stripped(s.nodes, s.version, del))
    decreases known
  {
    if known != [] {
      RemoveKeeps(known[1..], del, s');
      assert known == [known[0]] + known[1..];
    }
  }

  lemma {:induction false} StrippedAre(nodes: seq<Node>, v: string, del: seq<Service>, n: Node)
    ensures n in Stripped(nodes, v, del) <==> n in nodes && n.id !in Named(del, v)
    decreases |del|
  {
    if del != [] {
      var left := if del[0].version == v then Without(nodes, del[0].nodes) else nodes;
      WithoutAre(nodes, del[0].nodes, n);
      StrippedAre(left, v, del[1..], n);
    }
  }

  lemma {:induction false} WithoutAre(known: seq<Node>, del: seq<Node>, n: Node)
    ensures n in Without(known, del) <==> n in known && n.id !in Ids(del)
  {
    if known != [] {
      WithoutAre(known[1..], del, n);
      assert known == [known[0]] + known[1..];
    }
  }

  lemma {:induction false} NamedVersion(v: string, del: seq<Service>)
    ensures v !in Versions(del) ==> Named(del, v) == {}
  {
    if del != [] {
      NamedVersion(v, del[1..]);
    }
  }

  /** A service is taken out exactly if `del` names its version and all its nodes. */
  lemma {:induction false} EmptiedExactlyWhen(nodes: seq<Node>, v: string, del: seq<Service>)
    ensures Emptied(nodes, v, del) <==> v in Versions(del) && Ids(nodes) <= Named(del, v)
    decreases |del|
  {
    if del != [] {
      var left := if del[0].version == v then Without(nodes, del[0].nodes) else nodes;
      WithoutDistinct(nodes, del[0].nodes);
      NodesByIdKeys(left);
      assert left == [] <==> Ids(left) == {};
      NamedVersion(v, del[1..]);
      EmptiedExactlyWhen(left, v, del[1..]);
    }
  }

  /** `s'` is what `del` leaves of `s`: its name, version and metadata, and its nodes that `del` does not name
      for its version. A service is gone if `del` has its version and names all its nodes. */
  ghost predicate IsLeft(s: Service, del: seq<Service>, s': Service)
  {
    && !(s.version in Versions(del) && Ids(s.nodes) <= Named(del, s.version))
    && s' == s.(nodes := s'.nodes)
    && forall n :: n in s'.nodes <==> n in s.nodes && n.id !in Named(del, s.version)
  }

  lemma RemovedServices(known: seq<Service>, del: seq<Service>)
    ensures forall s' <- Removed(known, del) :: exists s <- known :: IsLeft(s, del, s')
    ensures forall s <- known :: !(s.version in Versions(del) && Ids(s.nodes) <= Named(del, s.version)) ==>
      exists s' <- Removed(known, del) :: IsLeft(s, del, s')
  {
    forall s' <- Removed(known, del)
      ensures exists s <- known :: IsLeft(s, del, s')
    {
      RemoveKeeps(known, del, s');
      var s :| s in known && !Emptied(s.nodes, s.version, del) && s' == s.(nodes := Stripped(s.nodes, s.version, del));
      LeftIs(s, del);
    }
    forall s <- known | !(s.version in Versions(del) && Ids(s.nodes) <= Named(del, s.version))
      ensures exists s' <- Removed(known, del) :: IsLeft(s, del, s')
    {
      LeftIs(s, del);
      RemoveKeeps(known, del, s.(nodes := Stripped(s.nodes, s.version, del)));
    }
  }

  lemma LeftIs(s: Service, del: seq<Service>)
    ensures !Emptied(s.nodes, s.version, del) <==> IsLeft(s, del, s.(nodes := Stripped(s.nodes, s.version, del)))
    ensures Emptied(s.nodes, s.version, del) <==> s.version in Versions(del) && Ids(s.nodes) <= Named(del, s.version)
  {
    EmptiedExactlyWhen(s.nodes, s.version, del);
    forall n ensures n in Stripped(s.nodes, s.version, del) <==> n in s.nodes && n.id !in Named(del, s.version) {
      StrippedAre(s.nodes, s.version, del, n);
    }
  }

  /** Exactly the nodes that `del` names under their own version are gone, and versions stay distinct. */
  lemma {:induction false} RemoveTakesNamed(known: seq<Service>, del: seq<Service>)
    requires DistinctVersions(known)
    ensures DistinctVersions(Removed(known, del)) && Versions(Removed(known, del)) <= Versions(known)
    ensures forall v, id :: Listed(Removed(known, del), v, id) <==> Listed(known, v, id) && id !in Named(del, v)
  {
    if known != [] {
      var s, rest := known[0], Removed(known[1..], del);
      RemoveTakesNamed(known[1..], del);
      StrippedById(s.nodes, s.version, del);
      var all := Removed(known, del);
      if Emptied(s.nodes, s.version, del) {
        assert all == rest;
      } else {
        assert all[1..] == rest;
      }
      forall v, id
        ensures Listed(all, v, id) <==> Listed(known, v, id) && id !in Named(del, v)
      {
        ListedHead(known, v, id);
        var left := NodesById(Stripped(s.nodes, s.version, del));
        assert id in left <==> id in NodesById(s.nodes) && id !in Named(del, s.version);
        assert Emptied(s.nodes, s.version, del) ==> left == map[];
        if Emptied(s.nodes, s.version, del) {
          ByVersionKeys(rest);
        } else {
          ListedHead(all, v, id);
        }
      }
    }
  }

  /** Only the first service has its version. */
  lemma ListedHead(services: seq<Service>, v: string, id: string)
    requires services != [] && DistinctVersions(services)
    ensures Listed(services, v, id)
       <==> if v == services[0].version then id in NodesById(services[0].nodes) else Listed(services[1..], v, id)
  {
    ByVersionKeys(services[1..]);
  }
}
