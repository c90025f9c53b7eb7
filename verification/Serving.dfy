/** Any number of ServeRequest calls at once. */
module Serving {

  // Each access to the free list is one step under its lock; objects are numbered in the order in which they were
  // allocated.

  /** Where a call to ServeRequest is, and the object that it holds. */
  datatype Stage = Reading(obj: nat) | Read(obj: nat) | Calling(obj: nat) | Returned

  /** `frees` counts the calls of freeRequest. */
  datatype Session = Session(stage: Stage, headerRead: bool, frees: nat)

  datatype State = State(free: seq<nat>, made: nat, sessions: map<nat, Session>, dropped: set<nat>)

  datatype Step =
    | Begin(id: nat)
    | HeaderFails(id: nat)
    | HeaderRead(id: nat)
    | Rejected(id: nat)
    | CallStarts(id: nat)
    | CallReturns(id: nat)

  predicate Enabled(s: State, e: Step)
  {
    match e
    case Begin(id) => id !in s.sessions
    case HeaderFails(id) => id in s.sessions && s.sessions[id].stage.Reading?
    case HeaderRead(id) => id in s.sessions && s.sessions[id].stage.Reading?
    case Rejected(id) => id in s.sessions && s.sessions[id].stage.Read?
    case CallStarts(id) => id in s.sessions && s.sessions[id].stage.Read?
    case CallReturns(id) => id in s.sessions && s.sessions[id].stage.Calling?
  }

  /** `freeRequest` */
  function Free(s: State, id: nat): State
    requires id in s.sessions && !s.sessions[id].stage.Returned?
  {
    var session := s.sessions[id];
    s.(free := [session.stage.obj] + s.free,
       sessions := s.sessions[id := session.(stage := Returned, frees := session.frees + 1)])
  }

  function Next(s: State, e: Step): State
    requires Enabled(s, e)
  {
    match e
    case Begin(id) =>
      if s.free == [] then
        s.(made := s.made + 1, sessions := s.sessions[id := Session(Reading(s.made), false, 0)])
      else
        s.(free := s.free[1..], sessions := s.sessions[id := Session(Reading(s.free[0]), false, 0)])
    case HeaderFails(id) =>
      s.(dropped := s.dropped + {s.sessions[id].stage.obj},
         sessions := s.sessions[id := s.sessions[id].(stage := Returned)])
    case HeaderRead(id) =>
      s.(sessions := s.sessions[id := s.sessions[id].(stage := Read(s.sessions[id].stage.obj), headerRead := true)])
    case Rejected(id) => Free(s, id)
    case CallStarts(id) =>
      s.(sessions := s.sessions[id := s.sessions[id].(stage := Calling(s.sessions[id].stage.obj))])
    case CallReturns(id) => Free(s, id)
  }

  predicate Holds(s: State, id: int, obj: int)
  {
    id in s.sessions && !s.sessions[id].stage.Returned? && s.sessions[id].stage.obj == obj
  }

  /** No object is in two places: twice on the list, held by two sessions, held and free, or dropped and
      either; and every object made is somewhere. */
  ghost predicate Ownership(s: State)
  {
    && (forall i, j :: 0 <= i < j < |s.free| ==> s.free[i] != s.free[j])
    && (forall a, b, obj :: Holds(s, a, obj) && Holds(s, b, obj) ==> a == b)
    && (forall a, obj :: Holds(s, a, obj) ==> obj !in s.free && obj !in s.dropped)
    && (forall obj <- s.free :: obj !in s.dropped)
    && forall obj :: 0 <= obj < s.made <==> Placed(s, obj)
  }

  ghost predicate Placed(s: State, obj: int)
  {
    obj in s.free || obj in s.dropped || exists a :: Holds(s, a, obj)
  }

  /** A session frees its object at most once, and has done so when it returns exactly if it read its header. */
  predicate SessionOk(x: Session)
  {
    match x.stage
    case Reading(_) => !x.headerRead && x.frees == 0
    case Returned => x.frees == if x.headerRead then 1 else 0
    case _ => x.headerRead && x.frees == 0
  }

  ghost predicate Inv(s: State)
  {
    Ownership(s) && forall id <- s.sessions :: SessionOk(s.sessions[id])
  }

  /** A step that moves `obj0` only. */
  lemma OthersStay(s: State, s': State, obj0: int)
    requires forall obj :: obj != obj0 ==> (obj in s'.free <==> obj in s.free) && (obj in s'.dropped <==> obj in s.dropped)
    requires forall a, obj :: obj != obj0 ==> (Holds(s', a, obj) <==> Holds(s, a, obj))
    ensures forall obj :: obj != obj0 ==> (Placed(s', obj) <==> Placed(s, obj))
  {
    forall obj | obj != obj0
      ensures Placed(s', obj) <==> Placed(s, obj)
    {
      if exists a :: Holds(s, a, obj) {
        var a :| Holds(s, a, obj);
        assert Holds(s', a, obj);
      }
      if exists a :: Holds(s', a, obj) {
        var a :| Holds(s', a, obj);
        assert Holds(s, a, obj);
      }
    }
  }

  lemma BeginKeepsInv(s: State, id: nat)
    requires Inv(s) && id !in s.sessions
    ensures Inv(Next(s, Begin(id)))
  {
    var s' := Next(s, Begin(id));
    var taken := if s.free == [] then s.made else s.free[0];
    if s.free == [] {
      assert !Placed(s, taken);
    } else {
      assert s.free == [taken] + s'.free;
      assert Placed(s, taken);
    }
    assert forall a :: !Holds(s, a, taken);
    assert forall a, obj :: Holds(s', a, obj) <==> Holds(s, a, obj) || (a == id && obj == taken);
    assert Holds(s', id, taken);
    OthersStay(s, s', taken);
  }

  /** A session that returns gives its object up, to the list or for good. */
  lemma GiveUpKeepsInv(s: State, s': State, id: nat, obj0: nat)
    requires Inv(s) && Holds(s, id, obj0)
    requires id in s'.sessions
    requires s' == s.(free := s'.free, dropped := s'.dropped, sessions := s.sessions[id := s'.sessions[id]])
    requires s'.sessions[id].stage.Returned? && SessionOk(s'.sessions[id])
    requires || (s'.free == [obj0] + s.free && s'.dropped == s.dropped)
             || (s'.free == s.free && s'.dropped == s.dropped + {obj0})
    ensures Inv(s')
  {
    assert forall a, obj :: Holds(s', a, obj) <==> Holds(s, a, obj) && a != id;
    OthersStay(s, s', obj0);
    assert Placed(s, obj0) && Placed(s', obj0);
  }

  lemma StepKeepsInv(s: State, e: Step)
    requires Inv(s) && Enabled(s, e)
    ensures Inv(Next(s, e))
  {
    var s' := Next(s, e);
    match e
    case Begin(id) => BeginKeepsInv(s, id);
    case Rejected(id) => GiveUpKeepsInv(s, s', id, s.sessions[id].stage.obj);
    case CallReturns(id) => GiveUpKeepsInv(s, s', id, s.sessions[id].stage.obj);
    case HeaderFails(id) => GiveUpKeepsInv(s, s', id, s.sessions[id].stage.obj);
    case HeaderRead(id) =>
      assert forall a, obj :: Holds(s', a, obj) <==> Holds(s, a, obj);
      OthersStay(s, s', -1);
    case CallStarts(id) =>
      assert forall a, obj :: Holds(s', a, obj) <==> Holds(s, a, obj);
      OthersStay(s, s', -1);
  }

  predicate IsRun(states: seq<State>, steps: seq<Step>)
  {
    && |states| == |steps| + 1
    && states[0] == State([], 0, map[], {})
    && forall i :: 0 <= i < |steps| ==> Enabled(states[i], steps[i]) && states[i + 1] == Next(states[i], steps[i])
  }

  lemma {:induction false} RunKeepsInv(states: seq<State>, steps: seq<Step>, i: nat)
    requires IsRun(states, steps) && i <= |steps|
    ensures Inv(states[i])
  {
    if i > 0 {
      RunKeepsInv(states, steps, i - 1);
      StepKeepsInv(states[i - 1], steps[i - 1]);
    }
  }

  /** In every interleaving: no object is handed out while another session holds it, and every session that
      has returned freed its object once if it read its header and never otherwise. */
  lemma ServingIsSafe(states: seq<State>, steps: seq<Step>, i: nat)
    requires IsRun(states, steps) && i <= |steps|
    ensures forall a, b, obj :: Holds(states[i], a, obj) && Holds(states[i], b, obj) ==> a == b
    ensures forall a, obj :: Holds(states[i], a, obj) ==> obj !in states[i].free
    ensures forall id <- states[i].sessions :: states[i].sessions[id].stage.Returned? ==>
      states[i].sessions[id].frees == if states[i].sessions[id].headerRead then 1 else 0
  {
    RunKeepsInv(states, steps, i);
    assert forall id <- states[i].sessions :: SessionOk(states[i].sessions[id]);
  }
}
