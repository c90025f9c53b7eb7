/** `update` on service objects against `update` on values: they agree while no object is used twice. */
module Sharing {
  import opened Cache
  import opened Registry

  function Objs(queue: seq<Posted>): seq<nat>
  {
    seq(|queue|, i requires 0 <= i < |queue| => queue[i].obj)
  }

  function Events(h: Heap, queue: seq<Posted>): seq<Event>
  {
    seq(|queue|, i requires 0 <= i < |queue| => EventOf(h, queue[i]))
  }

  predicate NoRepeats(refs: seq<nat>)
  {
    forall i, j :: 0 <= i < j < |refs| ==> refs[i] != refs[j]
  }

  /** The references lead to distinct objects. */
  predicate Unshared(h: Heap, refs: seq<nat>)
  {
    NoRepeats(refs) && forall r <- refs :: r < |h|
  }

  lemma NoRepeatsParts(a: seq<nat>, b: seq<nat>)
    ensures NoRepeats(a + b) <==> NoRepeats(a) && NoRepeats(b) && forall r <- a :: r !in b
  {
    if NoRepeats(a + b) {
      forall i, j | 0 <= i < j < |b| ensures b[i] != b[j] {
        assert (a + b)[|a| + i] == b[i] && (a + b)[|a| + j] == b[j];
      }
      forall i, j | 0 <= i < |a| && 0 <= j < |b| ensures a[i] != b[j] {
        assert (a + b)[i] == a[i] && (a + b)[|a| + j] == b[j];
      }
      forall i, j | 0 <= i < j < |a| ensures a[i] != a[j] {
        assert (a + b)[i] == a[i] && (a + b)[j] == a[j];
      }
    } else {
      var i, j :| 0 <= i < j < |a + b| && (a + b)[i] == (a + b)[j];
      if i < |a| <= j {
        assert a[i] in a && b[j - |a|] == a[i];
      } else if |a| <= i {
        assert b[i - |a|] == b[j - |a|];
      }
    }
  }

  // ----- One event on objects and on values -----

  lemma ValuesElsewhere(h: Heap, h': Heap, refs: seq<nat>)
    requires forall r <- refs :: At(h', r) == At(h, r)
    ensures Values(h', refs) == Values(h, refs)
  {
  }

  lemma EventsElsewhere(h: Heap, h': Heap, queue: seq<Posted>)
    requires forall r <- Objs(queue) :: At(h', r) == At(h, r)
    ensures Events(h', queue) == Events(h, queue)
  {
    forall i | 0 <= i < |queue| ensures Events(h', queue)[i] == Events(h, queue)[i] {
      assert Objs(queue)[i] in Objs(queue);
    }
  }

  /** Writing into the object at `i` changes the value at `i`. */
  lemma ValuesPut(h: Heap, h': Heap, refs: seq<nat>, i: nat, r: nat)
    requires i < |refs| && NoRepeats(refs)
    requires forall j <- refs :: j != refs[i] ==> At(h', j) == At(h, j)
    ensures Values(h', refs[i := r]) == Values(h, refs)[i := At(h', r)]
  {
    forall j | 0 <= j < |refs| && j != i ensures At(h', refs[j]) == At(h, refs[j]) {
      assert refs[j] in refs;
    }
  }

  lemma {:induction false} OtherValues(h: Heap, refs: seq<nat>, v: string)
    ensures Values(h, OtherRefs(h, refs, v)) == OtherVersions(Values(h, refs), v)
  {
    if refs != [] {
      OtherValues(h, refs[1..], v);
      assert Values(h, refs)[1..] == Values(h, refs[1..]);
      var rest := OtherRefs(h, refs[1..], v);
      assert Values(h, [refs[0]] + rest) == [At(h, refs[0])] + Values(h, rest);
      assert [] + rest == rest && [] + Values(h, rest) == Values(h, rest);
    } else {
      assert Values(h, []) == [];
    }
  }

  lemma {:induction false} OthersUnshared(h: Heap, refs: seq<nat>, v: string)
    requires NoRepeats(refs)
    ensures NoRepeats(OtherRefs(h, refs, v))
  {
    if refs != [] {
      assert NoRepeats(refs[1..]);
      OthersUnshared(h, refs[1..], v);
      OtherRefsIn(h, refs[1..], v);
      NoRepeatsParts([refs[0]], OtherRefs(h, refs[1..], v));
      NoRepeatsParts([refs[0]], refs[1..]);
      assert refs == [refs[0]] + refs[1..];
      var rest := OtherRefs(h, refs[1..], v);
      assert [] + rest == rest;
    }
  }

  /** The list of values that a list of references becomes. */
  function ChangeOfRefs(h: Heap, list: Relist): Change
  {
    match list
    case KeepRefs => Keep
    case DropRefs => Drop
    case SetRefs(refs) => Set(Values(h, refs))
  }

  lemma CompleteIsChange(h: Heap, refs: seq<nat>, e: Posted)
    requires Unshared(h, refs + [e.obj]) && At(h, e.obj).nodes != []
    requires e.action == "create" || e.action == "update"
    ensures var (h', list) := HeapUpdate(h, refs, e);
      ChangeOfRefs(h', list) == ChangeOf(Values(h, refs), EventOf(h, e))
  {
    NoRepeatsParts(refs, [e.obj]);
    var neu := At(h, e.obj);
    var index := FindVersion(Values(h, refs), neu.version);
    if index < 0 {
      assert Values(h, refs + [e.obj]) == Values(h, refs) + [neu];
    } else {
      assert e.obj in refs + [e.obj];
      ValuesPut(h, HeapUpdate(h, refs, e).0, refs, index, e.obj);
    }
  }

  lemma RemoveIsChange(h: Heap, refs: seq<nat>, e: Posted)
    requires Unshared(h, refs) && At(h, e.obj).nodes != [] && e.action == "delete"
    ensures var (h', list) := HeapUpdate(h, refs, e);
      ChangeOfRefs(h', list) == ChangeOf(Values(h, refs), EventOf(h, e))
  {
    var index := FindVersion(Values(h, refs), At(h, e.obj).version);
    if 0 <= index {
      assert refs[index] in refs;
      OtherValues(h, refs, At(h, refs[index]).version);
      assert refs[index := refs[index]] == refs;
      ValuesPut(h, HeapUpdate(h, refs, e).0, refs, index, refs[index]);
    }
  }

  lemma UpdateIsChange(h: Heap, refs: seq<nat>, e: Posted)
    requires Unshared(h, refs + [e.obj])
    ensures var (h', list) := HeapUpdate(h, refs, e);
      ChangeOfRefs(h', list) == ChangeOf(Values(h, refs), EventOf(h, e))
  {
    if At(h, e.obj).nodes != [] {
      if e.action == "create" || e.action == "update" {
        CompleteIsChange(h, refs, e);
      } else if e.action == "delete" {
        NoRepeatsParts(refs, [e.obj]);
        assert forall r <- refs :: r in refs + [e.obj];
        RemoveIsChange(h, refs, e);
      }
    }
  }

  function Relisted(refs: seq<nat>, list: Relist): seq<nat>
  {
    match list
    case KeepRefs => refs
    case DropRefs => []
    case SetRefs(refs') => refs'
  }

  lemma UpdateUnshared(h: Heap, refs: seq<nat>, e: Posted)
    requires Unshared(h, refs + [e.obj])
    ensures var (h', list) := HeapUpdate(h, refs, e); NoRepeats(Relisted(refs, list))
  {
    NoRepeatsParts(refs, [e.obj]);
    var index := FindVersion(Values(h, refs), At(h, e.obj).version);
    if 0 <= index {
      OthersUnshared(h, refs, At(h, refs[index]).version);
      var refs' := refs[index := e.obj];
      forall i, j | 0 <= i < j < |refs'| ensures refs'[i] != refs'[j] {
        assert refs[i] in refs && refs[j] in refs;
      }
    }
  }

  /** Objects other than that of the event and the cached ones are not written to. */
  lemma UpdateElsewhere(h: Heap, refs: seq<nat>, e: Posted, r: nat)
    requires r !in refs && r != e.obj
    ensures var (h', list) := HeapUpdate(h, refs, e); At(h', r) == At(h, r)
  {
    var index := FindVersion(Values(h, refs), At(h, e.obj).version);
    if 0 <= index {
      assert refs[index] in refs;
    }
  }

  /** While no object occurs twice in the cached list, the event and what is pending behind it, `update` does
      what it does on values, leaves the pending events as they are, and lets no object occur twice. */
  lemma UpdateOnValues(h: Heap, refs: seq<nat>, e: Posted, rest: seq<Posted>)
    requires Unshared(h, refs + [e.obj] + Objs(rest))
    ensures var (h', list) := HeapUpdate(h, refs, e);
      && ChangeOfRefs(h', list) == ChangeOf(Values(h, refs), EventOf(h, e))
      && Events(h', rest) == Events(h, rest)
      && Unshared(h', Relisted(refs, list) + Objs(rest))
      && (!list.SetRefs? ==> h' == h)
  {
    var (h', list) := HeapUpdate(h, refs, e);
    var all := refs + [e.obj];
    NoRepeatsParts(all, Objs(rest));
    assert forall r <- all :: r in all + Objs(rest);
    UpdateIsChange(h, refs, e);
    UpdateUnshared(h, refs, e);
    UpdateKeepsNames(h, refs, e);
    NoRepeatsParts(Relisted(refs, list), Objs(rest));
    assert forall r <- Relisted(refs, list) :: r in all;
    assert forall r <- Objs(rest) :: r in all + Objs(rest);
    forall r <- Objs(rest) ensures At(h', r) == At(h, r) {
      UpdateElsewhere(h, refs, e, r);
    }
    EventsElsewhere(h, h', rest);
  }

  // ----- When applying an event changes a pending one -----

  lemma {:induction false} MergedNothing(nodes: seq<Node>, known: seq<Node>)
    ensures |Merged(nodes, known)| >= |nodes|
    ensures Merged(nodes, known) == nodes <==> Ids(known) <= Ids(nodes)
    decreases |known|
  {
    if known != [] {
      if known[0].id in Ids(nodes) {
        MergedNothing(nodes, known[1..]);
      } else {
        MergedNothing(nodes + [known[0]], known[1..]);
      }
    }
  }

  lemma {:induction false} WithoutNothing(known: seq<Node>, del: seq<Node>)
    ensures |Without(known, del)| <= |known|
    ensures Without(known, del) == known <==> Ids(known) !! Ids(del)
    ensures Without(known, del) == [] <==> Ids(known) <= Ids(del)
  {
    if known != [] {
      var rest := Without(known[1..], del);
      WithoutNothing(known[1..], del);
      assert known == [known[0]] + known[1..];
      if known[0].id in Ids(del) {
        assert [] + rest == rest;
        assert known[0].id in Ids(known);
      } else {
        assert Without(known, del)[1..] == rest;
      }
    }
  }

  /** The event changes the object `r`: an update event its own object, if the cached version has a node that
      it does not name; a delete event the cached object, if it names some of its nodes and not all. */
  predicate Rewrites(h: Heap, refs: seq<nat>, e: Posted, r: nat)
  {
    var neu := At(h, e.obj);
    var index := FindVersion(Values(h, refs), neu.version);
    && neu.nodes != [] && 0 <= index
    && var known := At(h, refs[index]).nodes;
      if e.action == "create" || e.action == "update" then
        r == e.obj && !(Ids(known) <= Ids(neu.nodes))
      else
        e.action == "delete" && r == refs[index] && !(Ids(known) !! Ids(neu.nodes)) && !(Ids(known) <= Ids(neu.nodes))
  }

  lemma UpdateRewrites(h: Heap, refs: seq<nat>, e: Posted, r: nat)
    requires e.obj < |h| && forall r <- refs :: r < |h|
    ensures var (h', list) := HeapUpdate(h, refs, e); At(h', r) != At(h, r) <==> Rewrites(h, refs, e, r)
  {
    var neu := At(h, e.obj);
    var index := FindVersion(Values(h, refs), neu.version);
    if neu.nodes != [] && 0 <= index {
      assert refs[index] in refs;
      MergedNothing(neu.nodes, At(h, refs[index]).nodes);
      WithoutNothing(At(h, refs[index]).nodes, neu.nodes);
    }
  }

  /** Exactly when applying an event changes events that are still pending: one of them is for an object that
      the event rewrites. */
  lemma PendingChangesExactlyWhen(h: Heap, refs: seq<nat>, e: Posted, rest: seq<Posted>)
    requires e.obj < |h| && forall r <- refs :: r < |h|
    ensures var (h', list) := HeapUpdate(h, refs, e);
      Events(h', rest) != Events(h, rest) <==> exists k :: 0 <= k < |rest| && Rewrites(h, refs, e, rest[k].obj)
  {
    var (h', list) := HeapUpdate(h, refs, e);
    forall k | 0 <= k < |rest|
      ensures Events(h', rest)[k] != Events(h, rest)[k] <==> Rewrites(h, refs, e, rest[k].obj)
    {
      UpdateRewrites(h, refs, e, rest[k].obj);
    }
    if Events(h', rest) == Events(h, rest) {
      assert forall k :: 0 <= k < |rest| ==> Events(h', rest)[k] == Events(h, rest)[k];
    }
  }
}
