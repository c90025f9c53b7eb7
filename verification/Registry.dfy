/** Services and nodes, and the list functions of util/registry/util.go. */
module Registry {

  datatype Node = Node(id: string, address: string, metadata: map<string, string>)

  datatype Service = Service(name: string, version: string, metadata: map<string, string>, nodes: seq<Node>)

  /** `registry.Result`: what a watcher receives. */
  datatype Event = Event(action: string, service: Service)

  function Ids(nodes: seq<Node>): set<string>
  {
    if nodes == [] then {} else {nodes[0].id} + Ids(nodes[1..])
  }

  // ----- Lists of nodes -----

  /** `nodes` and then, one by one, the nodes of `known` whose id is not there yet. */
  function Merged(nodes: seq<Node>, known: seq<Node>): seq<Node>
    decreases |known|
  {
    if known == [] then nodes else
    Merged(if known[0].id in Ids(nodes) then nodes else nodes + [known[0]], known[1..])
  }

  /** The nodes of `known` whose id is not in `del`. */
  function Without(known: seq<Node>, del: seq<Node>): seq<Node>
  {
    if known == [] then [] else
    (if known[0].id in Ids(del) then [] else [known[0]]) + Without(known[1..], del)
  }

  /** The inner loop that all of these functions share. */
  method Contains(nodes: seq<Node>, id: string) returns (found: bool)
    ensures found <==> id in Ids(nodes)
  {
    for i := 0 to |nodes|
      invariant id in Ids(nodes) <==> id in Ids(nodes[i..])
    {
      assert nodes[i..][1..] == nodes[i + 1..];
      if nodes[i].id == id {
        return true;
      }
    }
    return false;
  }

  method AddNodes(known: seq<Node>, neu: seq<Node>) returns (nodes: seq<Node>)
    ensures nodes == Merged(neu, known)
  {
    nodes := neu;
    for i := 0 to |known|
      invariant Merged(nodes, known[i..]) == Merged(neu, known)
    {
      var seen := Contains(nodes, known[i].id);
      assert known[i..][1..] == known[i + 1..];
      if !seen {
        nodes := nodes + [known[i]];
      }
    }
  }

  method DelNodes(known: seq<Node>, del: seq<Node>) returns (nodes: seq<Node>)
    ensures nodes == Without(known, del)
  {
    nodes := [];
    for i := 0 to |known|
      invariant nodes + Without(known[i..], del) == Without(known, del)
    {
      var rem := Contains(del, known[i].id);
      assert known[i..][1..] == known[i + 1..];
      if !rem {
        assert nodes + ([known[i]] + Without(known[i + 1..], del)) == nodes + [known[i]] + Without(known[i + 1..], del);
        nodes := nodes + [known[i]];
      } else {
        assert [] + Without(known[i + 1..], del) == Without(known[i + 1..], del);
      }
    }
    assert nodes == nodes + [];
  }

  /** The merged list starts with the new nodes; behind them are old ones. */
  lemma {:induction false} MergedOrder(nodes: seq<Node>, known: seq<Node>)
    ensures nodes <= Merged(nodes, known)
    ensures forall i :: |nodes| <= i < |Merged(nodes, known)| ==> Merged(nodes, known)[i] in known
    decreases |known|
  {
    if known != [] {
      assert known == [known[0]] + known[1..];
      if known[0].id in Ids(nodes) {
        MergedOrder(nodes, known[1..]);
      } else {
        MergedOrder(nodes + [known[0]], known[1..]);
        assert Merged(nodes, known)[|nodes|] == known[0];
      }
    }
  }

  /** Deleting works node by node, so the others stay in their order. */
  lemma {:induction false} WithoutAppend(a: seq<Node>, b: seq<Node>, del: seq<Node>)
    ensures Without(a + b, del) == Without(a, del) + Without(b, del)
    ensures forall n: Node :: Without([n], del) == if n.id in Ids(del) then [] else [n]
  {
    if a == [] {
      assert a + b == b && [] + Without(b, del) == Without(b, del);
    } else {
      assert (a + b)[1..] == a[1..] + b;
      WithoutAppend(a[1..], b, del);
    }
  }

  // ----- Nodes by id, services by version -----

  type NodeMap = map<string, Node>

  function NodesById(nodes: seq<Node>): NodeMap
  {
    if nodes == [] then map[] else NodesById(nodes[1..])[nodes[0].id := nodes[0]]
  }

  lemma {:induction false} NodesByIdKeys(nodes: seq<Node>)
    ensures NodesById(nodes).Keys == Ids(nodes)
    ensures nodes != [] <==> NodesById(nodes) != map[]
  {
    if nodes != [] {
      NodesByIdKeys(nodes[1..]);
      assert nodes[0].id in NodesById(nodes);
    }
  }

  lemma {:induction false} NodesByIdSnoc(nodes: seq<Node>, n: Node)
    ensures NodesById(nodes + [n]) == map[n.id := n] + NodesById(nodes)
  {
    if nodes == [] {
      assert [] + [n] == [n] && [n][1..] == [];
    } else {
      assert (nodes + [n])[1..] == nodes[1..] + [n];
      NodesByIdSnoc(nodes[1..], n);
    }
  }

  /** Putting a node into a map that is overridden. */
  lemma PutUnder(m: NodeMap, id: string, n: Node, over: NodeMap)
    ensures m + (map[id := n] + over) == m[id := n] + over
    ensures id in over ==> m[id := n] + over == m + over
  {
  }

  /** Merging lists is overriding maps: the new nodes win. */
  lemma {:induction false} MergedById(nodes: seq<Node>, known: seq<Node>)
    ensures NodesById(Merged(nodes, known)) == NodesById(known) + NodesById(nodes)
    decreases |known|
  {
    if known != [] {
      NodesByIdKeys(nodes);
      PutUnder(NodesById(known[1..]), known[0].id, known[0], NodesById(nodes));
      if known[0].id in Ids(nodes) {
        MergedById(nodes, known[1..]);
      } else {
        MergedById(nodes + [known[0]], known[1..]);
        NodesByIdSnoc(nodes, known[0]);
      }
    }
  }

  /** Removing from the list is removing from the map. */
  lemma {:induction false} WithoutById(known: seq<Node>, del: seq<Node>)
    ensures NodesById(Without(known, del)) == NodesById(known) - Ids(del)
  {
    if known != [] {
      WithoutById(known[1..], del);
      if known[0].id !in Ids(del) {
        assert Without(known, del)[1..] == Without(known[1..], del);
      } else {
        assert Without(known, del) == Without(known[1..], del);
      }
    }
  }

  predicate DistinctIds(nodes: seq<Node>)
  {
    nodes != [] ==> nodes[0].id !in Ids(nodes[1..]) && DistinctIds(nodes[1..])
  }

  lemma {:induction false} IdsSnoc(nodes: seq<Node>, n: Node)
    ensures Ids(nodes + [n]) == Ids(nodes) + {n.id}
    ensures DistinctIds(nodes) && n.id !in Ids(nodes) ==> DistinctIds(nodes + [n])
  {
    if nodes == [] {
      assert [] + [n] == [n] && [n][1..] == [];
    } else {
      assert (nodes + [n])[1..] == nodes[1..] + [n];
      IdsSnoc(nodes[1..], n);
    }
  }

  lemma {:induction false} MergedDistinct(nodes: seq<Node>, known: seq<Node>)
    requires DistinctIds(nodes)
    ensures DistinctIds(Merged(nodes, known))
    decreases |known|
  {
    if known != [] {
      IdsSnoc(nodes, known[0]);
      MergedDistinct(if known[0].id in Ids(nodes) then nodes else nodes + [known[0]], known[1..]);
    }
  }

  lemma {:induction false} WithoutDistinct(known: seq<Node>, del: seq<Node>)
    ensures Ids(Without(known, del)) == Ids(known) - Ids(del)
    ensures DistinctIds(known) ==> DistinctIds(Without(known, del))
  {
    if known != [] {
      WithoutDistinct(known[1..], del);
      var rest := Without(known[1..], del);
      if known[0].id in Ids(del) {
        assert Without(known, del) == rest;
      } else {
        assert Without(known, del)[1..] == rest;
      }
    }
  }

  type VersionMap = map<string, NodeMap>

  function ByVersion(services: seq<Service>): VersionMap
  {
    if services == [] then map[] else
    ByVersion(services[1..])[services[0].version := NodesById(services[0].nodes)]
  }

  function Versions(services: seq<Service>): set<string>
  {
    if services == [] then {} else {services[0].version} + Versions(services[1..])
  }

  predicate DistinctVersions(services: seq<Service>)
  {
    services != [] ==> services[0].version !in Versions(services[1..]) && DistinctVersions(services[1..])
  }

  lemma {:induction false} ByVersionKeys(services: seq<Service>)
    ensures ByVersion(services).Keys == Versions(services)
  {
    if services != [] {
      ByVersionKeys(services[1..]);
    }
  }

  predicate Has(m: VersionMap, v: string, id: string)
  {
    v in m && id in m[v]
  }

  /** Node `id` of version `v` is listed. */
  predicate Listed(services: seq<Service>, v: string, id: string)
  {
    Has(ByVersion(services), v, id)
  }
}
