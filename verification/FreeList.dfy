/** The free list of request objects in server/rpc_router.go, and the paths by which ServeRequest takes an
    object from it and gives it back. The response list is the same code over another type. */
module FreeList {
  import opened Wrappers

  class Request {
    var msg: Option<string>
    var next: Request?

    constructor ()
      ensures msg == None && next == null
    {
      msg, next := None, null;
    }
  }

  /** What happens to one request: each flag is false where the source takes the error path. */
  datatype Fate = Fate(headerOk: bool, methodFound: bool, stream: bool, bodyOk: bool, handlerOk: bool)

  class Router {
    var freeReq: Request?
    ghost var free: seq<Request>
    ghost var inFlight: set<Request>

    /** The `next` pointers from `freeReq` on run through `free` and end: the list has no cycle, holds no
        object twice and none that is in flight. */
    ghost predicate Valid()
      reads this, free
    {
      && freeReq == (if free == [] then null else free[0])
      && (forall i, j :: 0 <= i < j < |free| && j == i + 1 ==> free[i].next == free[j])
      && (free != [] ==> free[|free| - 1].next == null)
      && (forall i, j :: 0 <= i < j < |free| ==> free[i] != free[j])
      && forall r <- free :: r !in inFlight
    }

    constructor ()
      ensures Valid() && free == [] && inFlight == {}
    {
      freeReq, free, inFlight := null, [], {};
    }

    /** `getRequest`: the first free object, cleared, or a new one; never one that is in flight. */
    method GetRequest() returns (req: Request)
      requires Valid()
      modifies this, free
      ensures Valid()
      ensures req !in old(inFlight) && inFlight == old(inFlight) + {req}
      ensures req.msg == None && req.next == null
      ensures if old(free) == [] then free == [] && fresh(req) else req == old(free)[0] && free == old(free)[1..]
    {
      if freeReq == null {
        req := new Request();
      } else {
        req := freeReq;
        ghost var before := free;
        freeReq := req.next;
        free := free[1..];
        assert forall i :: 0 <= i < |free| ==> free[i] == before[i + 1] && free[i] != req;
        req.msg, req.next := None, null;
      }
      inFlight := inFlight + {req};
    }

    /** `freeRequest` of an object in flight: it becomes the first free one. */
    method FreeRequest(req: Request)
      requires Valid() && req in inFlight
      modifies this, req
      ensures Valid()
      ensures free == [req] + old(free) && inFlight == old(inFlight) - {req}
    {
      ghost var before := free;
      req.next := freeReq;
      freeReq := req;
      free := [req] + free;
      assert forall i :: 0 < i < |free| ==> free[i] == before[i - 1] && free[i] in before;
      inFlight := inFlight - {req};
    }

    /** `readHeader`: if the header cannot be read the object is dropped, not freed. */
    method ReadHeader(fate: Fate) returns (req: Request?, keepReading: bool, err: bool, ghost taken: Request)
      requires Valid()
      modifies this, free
      ensures Valid()
      ensures taken !in old(inFlight) && inFlight == old(inFlight) + {taken}
      ensures if old(free) == [] then free == [] && fresh(taken) else taken == old(free)[0] && free == old(free)[1..]
      ensures keepReading == fate.headerOk && err == !(fate.headerOk && fate.methodFound)
      ensures req == if fate.headerOk then taken else null
    {
      var r := GetRequest();
      taken := r;
      if !fate.headerOk {
        return null, false, true, taken;
      }
      return r, true, !fate.methodFound, taken;
    }

    /** `readRequest`, where reading the body of a call that is not a stream may fail too. */
    method ReadRequest(fate: Fate) returns (req: Request?, keepReading: bool, err: bool, ghost taken: Request)
      requires Valid()
      modifies this, free
      ensures Valid()
      ensures taken !in old(inFlight) && inFlight == old(inFlight) + {taken}
      ensures if old(free) == [] then free == [] && fresh(taken) else taken == old(free)[0] && free == old(free)[1..]
      ensures keepReading == fate.headerOk
      ensures err == !(fate.headerOk && fate.methodFound && (fate.stream || fate.bodyOk))
      ensures req == if fate.headerOk then taken else null
    {
      req, keepReading, err, taken := ReadHeader(fate);
      if err {
        return;
      }
      if fate.stream {
        return;
      }
      err := !fate.bodyOk;
    }

    /** `call`: the deferred freeRequest runs on every way out. */
    method Call(req: Request, fate: Fate) returns (ok: bool)
      requires Valid() && req in inFlight
      modifies this, req
      ensures Valid() && ok == fate.handlerOk
      ensures free == [req] + old(free) && inFlight == old(inFlight) - {req}
    {
      ok := fate.handlerOk;
      FreeRequest(req);
    }

    /** `ServeRequest`: the object it took is free again, in front, if the header was read, and otherwise
        never will be. */
    method ServeRequest(fate: Fate) returns (ok: bool, ghost taken: Request)
      requires Valid()
      modifies this, free
      ensures Valid()
      ensures ok == (fate.headerOk && fate.methodFound && (fate.stream || fate.bodyOk) && fate.handlerOk)
      ensures taken !in old(inFlight)
      ensures if old(free) == [] then fresh(taken) else taken == old(free)[0]
      ensures var others := if old(free) == [] then [] else old(free)[1..];
        if fate.headerOk then free == [taken] + others && inFlight == old(inFlight)
        else free == others && taken !in free && inFlight == old(inFlight) + {taken}
    {
      var req, keepReading, err;
      req, keepReading, err, taken := ReadRequest(fate);
      if err {
        if !keepReading {
          return false, taken;
        }
        if req != null {
          FreeRequest(req);
        }
        return false, taken;
      }
      ok := Call(req, fate);
    }
  }
}
