/** util/pool/default.go: client connections kept per remote address. */
module Pool {
  import opened Wrappers

  /** A dialled connection. `id` tells connections apart. */
  datatype Conn = Conn(id: string, remote: string, created: int)

  predicate NoDuplicates(conns: seq<Conn>)
  {
    forall i, j :: 0 <= i < j < |conns| ==> conns[i] != conns[j]
  }

  /** The connections listed under one address. */
  function ListOf(conns: map<string, seq<Conn>>, addr: string): seq<Conn>
  {
    if addr in conns then conns[addr] else []
  }

  function Elems(list: seq<Conn>): set<Conn>
  {
    if list == [] then {} else {list[0]} + Elems(list[1..])
  }

  lemma ElemsFrom(list: seq<Conn>, k: nat)
    requires k < |list|
    ensures Elems(list[k..]) == {list[k]} + Elems(list[k + 1..])
  {
    assert list[k..][1..] == list[k + 1..];
  }

  /** `idle` is what the lists hold, each connection once and under its own remote address. */
  ghost predicate Lists(conns: map<string, seq<Conn>>, idle: set<Conn>)
  {
    && (forall c :: c in idle <==> c in ListOf(conns, c.remote))
    && (forall k <- conns :: NoDuplicates(conns[k]) && forall c <- conns[k] :: c.remote == k)
  }

  /** The connections from index `from` on are older than the TTL, and closing them works. */
  ghost predicate Closes(list: seq<Conn>, from: nat, now: int, ttl: int, closeFails: Conn -> bool)
  {
    forall j :: from <= j < |list| ==> now - list[j].created > ttl && !closeFails(list[j])
  }

  /** What the pool holds and where its connections are. */
  datatype Books = Books(conns: map<string, seq<Conn>>, idle: set<Conn>, lent: set<Conn>, closed: set<Conn>)

  /** Conservation: every dialled connection is idle, lent or closed, and only one of these; and no list
      is longer than the pool's size. */
  ghost predicate Balanced(b: Books, dialled: set<Conn>, size: int)
  {
    && Lists(b.conns, b.idle)
    && (forall k <- b.conns :: b.conns[k] == [] || |b.conns[k]| <= size)
    && dialled == b.idle + b.lent + b.closed
    && b.idle !! b.lent && b.idle !! b.closed && b.lent !! b.closed
  }

  /** The last connection of the address is taken, to be lent or closed. */
  function TakeLast(b: Books, addr: string, lend: bool): Books
    requires ListOf(b.conns, addr) != []
  {
    var list := ListOf(b.conns, addr);
    var conn := list[|list| - 1];
    Books(b.conns[addr := list[..|list| - 1]], b.idle - {conn},
          if lend then b.lent + {conn} else b.lent, if lend then b.closed else b.closed + {conn})
  }

  lemma TakeLastBalanced(b: Books, addr: string, lend: bool, dialled: set<Conn>, size: int)
    requires Balanced(b, dialled, size) && ListOf(b.conns, addr) != []
    ensures Balanced(TakeLast(b, addr, lend), dialled, size)
    ensures var conn := ListOf(b.conns, addr)[|ListOf(b.conns, addr)| - 1]; conn in b.idle && conn.remote == addr
  {
    Pop(b.conns, b.idle, addr);
  }

  /** The connections from index `k` on are closed, one after the other. */
  function CloseFrom(b: Books, addr: string, k: nat): (r: Books)
    requires k <= |ListOf(b.conns, addr)|
    ensures ListOf(r.conns, addr) == ListOf(b.conns, addr)[..k]
    decreases |ListOf(b.conns, addr)| - k
  {
    if k == |ListOf(b.conns, addr)| then b else TakeLast(CloseFrom(b, addr, k + 1), addr, false)
  }

  lemma {:induction false} CloseIs(b: Books, addr: string, k: nat)
    requires k <= |ListOf(b.conns, addr)|
    ensures var list := ListOf(b.conns, addr);
      && CloseFrom(b, addr, k).conns == CutTo(b.conns, addr, k)
      && CloseFrom(b, addr, k).closed == b.closed + Elems(list[k..])
      && CloseFrom(b, addr, k).lent == b.lent && CloseFrom(b, addr, k).idle <= b.idle
    decreases |ListOf(b.conns, addr)| - k
  {
    var list := ListOf(b.conns, addr);
    if k == |list| {
      assert list[k..] == [];
    } else {
      CloseIs(b, addr, k + 1);
      ElemsFrom(list, k);
      assert list[..k + 1][..k] == list[..k];
    }
  }

  lemma {:induction false} CloseBalanced(b: Books, addr: string, k: nat, dialled: set<Conn>, size: int)
    requires k <= |ListOf(b.conns, addr)| && Balanced(b, dialled, size)
    ensures Balanced(CloseFrom(b, addr, k), dialled, size)
    decreases |ListOf(b.conns, addr)| - k
  {
    if k < |ListOf(b.conns, addr)| {
      CloseBalanced(b, addr, k + 1, dialled, size);
      TakeLastBalanced(CloseFrom(b, addr, k + 1), addr, false, dialled, size);
    }
  }

  /** The search stopped at index `k`, having closed what is behind it; that connection is lent or closed. */
  function Stopped(b: Books, addr: string, k: int, lend: bool): Books
    requires -1 <= k < |ListOf(b.conns, addr)|
  {
    if k < 0 then CloseFrom(b, addr, 0) else TakeLast(CloseFrom(b, addr, k + 1), addr, lend)
  }

  lemma StoppedIs(b: Books, addr: string, k: int, lend: bool, dialled: set<Conn>, size: int)
    requires -1 <= k < |ListOf(b.conns, addr)| && Balanced(b, dialled, size)
    ensures var list, r := ListOf(b.conns, addr), Stopped(b, addr, k, lend);
      && Balanced(r, dialled, size) && r.conns == CutTo(b.conns, addr, Back(k))
      && (if k < 0 then r.lent == b.lent && r.closed == b.closed + Elems(list) && ListOf(r.conns, addr) == []
          else
            && list[k] in b.idle && list[k].remote == addr
            && r.lent == (if lend then b.lent + {list[k]} else b.lent)
            && r.closed == b.closed + (if lend then Elems(list[k + 1..]) else Elems(list[k..])))
  {
    var list := ListOf(b.conns, addr);
    if k < 0 {
      CloseBalanced(b, addr, 0, dialled, size);
      CloseIs(b, addr, 0);
      assert list[0..] == list;
    } else {
      CloseBalanced(b, addr, k + 1, dialled, size);
      CloseIs(b, addr, k + 1);
      TakeLastBalanced(CloseFrom(b, addr, k + 1), addr, lend, dialled, size);
      CutAgain(b, CloseFrom(b, addr, k + 1), addr, k, lend);
    }
  }

  lemma CutAgain(b: Books, left: Books, addr: string, k: nat, lend: bool)
    requires k < |ListOf(b.conns, addr)| && left.conns == CutTo(b.conns, addr, k + 1)
    requires ListOf(left.conns, addr) == ListOf(b.conns, addr)[..k + 1]
    ensures var list, r := ListOf(b.conns, addr), TakeLast(left, addr, lend);
      && r.conns == CutTo(b.conns, addr, k)
      && r.lent == (if lend then left.lent + {list[k]} else left.lent)
      && left.closed + Elems(list[k..]) == left.closed + Elems(list[k + 1..]) + {list[k]}
      && r.closed == (if lend then left.closed else left.closed + {list[k]})
  {
    var list := ListOf(b.conns, addr);
    ElemsFrom(list, k);
    assert list[..k + 1][..k] == list[..k];
  }

  lemma DialBalanced(b: Books, dialled: set<Conn>, size: int, conn: Conn)
    requires Balanced(b, dialled, size) && conn !in dialled
    ensures Balanced(b.(lent := b.lent + {conn}), dialled + {conn}, size)
  {
  }

  function Back(k: int): nat
  {
    if k < 0 then 0 else k
  }

  /** The lists when `k` connections of the address are left. */
  function CutTo(conns: map<string, seq<Conn>>, addr: string, k: nat): map<string, seq<Conn>>
  {
    if k < |ListOf(conns, addr)| then conns[addr := ListOf(conns, addr)[..k]] else conns
  }

  class Pool {
    var conns: map<string, seq<Conn>>
    const size: int
    const ttl: int

    /** Where each connection that was ever dialled is now. */
    ghost var dialled: set<Conn>
    ghost var idle: set<Conn>
    ghost var lent: set<Conn>
    ghost var closed: set<Conn>

    ghost function Now(): Books
      reads this
    {
      Books(conns, idle, lent, closed)
    }

    ghost predicate Valid()
      reads this
    {
      Balanced(Now(), dialled, size)
    }

    constructor (size: int, ttl: int)
      ensures Valid() && this.size == size && this.ttl == ttl
      ensures conns == map[] && dialled == {}
    {
      this.size, this.ttl := size, ttl;
      conns, dialled, idle, lent, closed := map[], {}, {}, {}, {};
    }

    /** `Get`, with the time of the call, which closes fail, and what Dial returns if it is called. Of the idle
        connections of the address, those older than the TTL at the end of the list are closed. Index `k` is the
        last one that is not, and is taken, or the last one whose close fails, which ends the call. If there is
        none, a connection is dialled. */
    method Get(addr: string, now: int, closeFails: Conn -> bool, dial: Option<Conn>)
      returns (r: Result<Conn>, ghost k: int)
      requires Valid() && (dial.Some? ==> dial.value !in dialled)
      modifies this
      ensures Valid()
      ensures var list := ListOf(old(conns), addr);
        && -1 <= k < |list| && (forall j :: k < j < |list| ==> now - list[j].created > ttl && !closeFails(list[j]))
        && (if k < 0 then
              && r == (if dial.Some? then Ok(dial.value) else Err) && ListOf(conns, addr) == []
              && closed == old(closed) + Elems(list)
            else if now - list[k].created <= ttl then
              && r == Ok(list[k]) && conns == old(conns)[addr := list[..k]]
              && list[k].remote == addr && closed == old(closed) + Elems(list[k + 1..])
            else
              && r == Err && conns == old(conns)[addr := list[..k]]
              && closeFails(list[k]) && closed == old(closed) + Elems(list[k..]))
      ensures lent == if r.Ok? then old(lent) + {r.value} else old(lent)
      ensures r.Ok? ==> r.value !in old(lent)
      ensures dialled == if k < 0 && dial.Some? then old(dialled) + {dial.value} else old(dialled)
      ensures forall other :: other != addr ==> ListOf(conns, other) == ListOf(old(conns), other)
    {
      ghost var start := Now();
      var reused;
      reused, k := TakeIdle(addr, now, closeFails);
      Book(start, addr, k, reused.Ok?);
      match reused
      case Err => return Err, k;
      case Ok(Some(conn)) => return Ok(conn), k;
      case Ok(None) =>
        if dial.None? {
          return Err, k;
        }
        Dialled(dial.value);
        return Ok(dial.value), k;
    }

    /** The lists were cut; now the ghost sets follow. */
    ghost method Book(start: Books, addr: string, k: int, lend: bool)
      requires Balanced(start, dialled, size) && -1 <= k < |ListOf(start.conns, addr)|
      requires Now() == start.(conns := CutTo(start.conns, addr, Back(k)))
      modifies this`idle, this`lent, this`closed
      ensures Valid()
      ensures var list := ListOf(start.conns, addr);
        if k < 0 then lent == old(lent) && closed == old(closed) + Elems(list) && ListOf(conns, addr) == []
        else
          && conns == start.conns[addr := list[..k]] && list[k] in old(idle) && list[k].remote == addr
          && lent == (if lend then old(lent) + {list[k]} else old(lent))
          && closed == old(closed) + (if lend then Elems(list[k + 1..]) else Elems(list[k..]))
      ensures forall other :: other != addr ==> ListOf(conns, other) == ListOf(start.conns, other)
    {
      var books := Stopped(start, addr, k, lend);
      StoppedIs(start, addr, k, lend, dialled, size);
      idle, lent, closed := books.idle, books.lent, books.closed;
    }

    ghost method Dialled(conn: Conn)
      requires Valid() && conn !in dialled
      modifies this`dialled, this`lent
      ensures Valid() && dialled == old(dialled) + {conn} && lent == old(lent) + {conn}
    {
      DialBalanced(Now(), dialled, size, conn);
      dialled, lent := dialled + {conn}, lent + {conn};
    }

    /** The loop of `Get`, under the lock; Err if a close fails. It stops at index `k`, or has closed all. */
    method TakeIdle(addr: string, now: int, closeFails: Conn -> bool) returns (r: Result<Option<Conn>>, ghost k: int)
      modifies this`conns
      ensures var list := ListOf(old(conns), addr);
        && -1 <= k < |list| && Closes(list, k + 1, now, ttl, closeFails)
        && conns == CutTo(old(conns), addr, Back(k))
        && (if k < 0 then r == Ok(None)
            else if now - list[k].created <= ttl then r == Ok(Some(list[k]))
            else closeFails(list[k]) && r == Err)
    {
      ghost var list := ListOf(conns, addr);
      k := |list|;
      while |ListOf(conns, addr)| > 0
        invariant 0 <= k <= |list| && ListOf(conns, addr) == list[..k]
        invariant conns == CutTo(old(conns), addr, k)
        invariant Closes(list, k, now, ttl, closeFails)
        decreases k
      {
        var conn := PopLast(addr);
        k := k - 1;
        assert list[..k + 1][..k] == list[..k];
        if now - conn.created <= ttl {
          return Ok(Some(conn)), k;
        }
        if closeFails(conn) {
          return Err, k;
        }
      }
      return Ok(None), -1;
    }

    /** Takes the last connection off a list. */
    method PopLast(addr: string) returns (conn: Conn)
      requires ListOf(conns, addr) != []
      modifies this`conns
      ensures var list := ListOf(old(conns), addr);
        conn == list[|list| - 1] && conns == old(conns)[addr := list[..|list| - 1]]
    {
      var list := ListOf(conns, addr);
      conn := list[|list| - 1];
      conns := conns[addr := list[..|list| - 1]];
    }

    /** `Release` of a connection that is lent: it is closed if it has failed or the list of its address is
        full, and is idle otherwise. */
    method Release(conn: Conn, failed: bool) returns (wasClosed: bool)
      requires Valid() && conn in lent
      modifies this
      ensures Valid()
      ensures wasClosed <==> failed || |ListOf(old(conns), conn.remote)| >= size
      ensures lent == old(lent) - {conn} && dialled == old(dialled)
      ensures if wasClosed then closed == old(closed) + {conn} && conns == old(conns)
              else closed == old(closed) && conns == old(conns)[conn.remote := ListOf(old(conns), conn.remote) + [conn]]
    {
      var list := ListOf(conns, conn.remote);
      lent := lent - {conn};
      if failed || |list| >= size {
        closed := closed + {conn};
        return true;
      }
      conns := conns[conn.remote := list + [conn]];
      idle := idle + {conn};
      return false;
    }

    /** `Close`: every idle connection is closed; those lent are not, and may still be released. */
    method Close()
      requires Valid()
      modifies this
      ensures Valid()
      ensures conns == map[] && lent == old(lent) && dialled == old(dialled) && closed == old(closed + idle)
    {
      while conns.Keys != {}
        invariant Valid()
        invariant lent == old(lent) && dialled == old(dialled) && closed + idle == old(closed + idle)
        decreases conns.Keys
      {
        var k :| k in conns.Keys;
        ghost var gone := set c | c in conns[k];
        RemoveList(conns, idle, k);
        closed, idle := closed + gone, idle - gone;
        conns := conns - {k};
      }
      assert forall c :: c !in idle;
    }
  }

  lemma Pop(conns: map<string, seq<Conn>>, idle: set<Conn>, addr: string)
    requires Lists(conns, idle) && ListOf(conns, addr) != []
    ensures var list := ListOf(conns, addr);
      var k := |list| - 1;
      list[k] in idle && list[k].remote == addr && Lists(conns[addr := list[..k]], idle - {list[k]})
  {
    var list := ListOf(conns, addr);
    var k := |list| - 1;
    assert list == list[..k] + [list[k]];
    assert list[k] !in list[..k];
  }

  lemma RemoveList(conns: map<string, seq<Conn>>, idle: set<Conn>, addr: string)
    requires Lists(conns, idle) && addr in conns
    ensures Lists(conns - {addr}, idle - set c | c in conns[addr])
    ensures forall c <- conns[addr] :: c in idle
  {
  }
}
