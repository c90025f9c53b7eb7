/** util/socket/socket.go: a pseudo socket of two buffered channels and a close signal. */
module Socket {
  import opened Text
  import opened Wrappers

  type Message = string

  const BUFFER := 128

  /** What a select statement comes to; on Blocks the caller waits and nothing changes. */
  datatype Outcome = Done | Eof | Blocks

  /** The channels, and the messages that went in and came out so far: by Send and Process on one side, by
      Accept and Recv on the other. */
  datatype State = State(send: seq<Message>, recv: seq<Message>, closed: bool,
                         sent: seq<Message>, processed: seq<Message>,
                         accepted: seq<Message>, received: seq<Message>)

  const FRESH := State([], [], false, [], [], [], [])

  /** A call. When several cases of its select are ready, `pick` says whether the close signal is taken. */
  datatype Call =
    | Send(m: Message, pick: bool)
    | Process(pick: bool)
    | Accept(m: Message, pick: bool)
    | Recv(pick: bool)
    | Close

  /** Which case a select between a channel and the close signal takes. */
  function Select(ready: bool, closed: bool, pick: bool): Outcome
  {
    if ready && !(closed && pick) then Done else
    if closed then Eof else Blocks
  }

  function Answer(s: State, c: Call): Outcome
  {
    match c
    case Send(_, pick) => Select(|s.send| < BUFFER, s.closed, pick)
    case Process(_) => if s.send != [] then Done else if s.closed then Eof else Blocks
    case Accept(_, pick) => Select(|s.recv| < BUFFER, s.closed, pick)
    case Recv(pick) => Select(s.recv != [], s.closed, pick)
    case Close => Done
  }

  function Next(s: State, c: Call): State
  {
    if Answer(s, c) != Done then s else
    match c
    case Send(m, _) => s.(send := s.send + [m], sent := s.sent + [m])
    case Process(_) =>
      if s.send == [] then s else s.(send := s.send[1..], processed := s.processed + [s.send[0]])
    case Accept(m, _) => s.(recv := s.recv + [m], accepted := s.accepted + [m])
    case Recv(_) =>
      if s.recv == [] then s else s.(recv := s.recv[1..], received := s.received + [s.recv[0]])
    case Close => s.(closed := true)
  }

  class PseudoSocket {
    var send: seq<Message>
    var recv: seq<Message>
    var closed: bool
    ghost var sent: seq<Message>
    ghost var processed: seq<Message>
    ghost var accepted: seq<Message>
    ghost var received: seq<Message>

    ghost function Now(): State
      reads this
    {
      State(send, recv, closed, sent, processed, accepted, received)
    }

    constructor ()
      ensures Now() == FRESH
    {
      send, recv, closed := [], [], false;
      sent, processed, accepted, received := [], [], [], [];
    }

    method DoSend(m: Message, pick: bool) returns (o: Outcome)
      modifies this
      ensures o == Answer(old(Now()), Send(m, pick)) && Now() == Next(old(Now()), Send(m, pick))
      ensures old(!closed && |send| < 128) ==> o == Done && send == old(send) + [m] && sent == old(sent) + [m]
      ensures old(!closed && |send| >= 128) ==> o == Blocks
      ensures old(closed) ==> o == Done || o == Eof
      ensures o != Done ==> Now() == old(Now())
    {
      if |send| < BUFFER && !(closed && pick) {
        send, sent := send + [m], sent + [m];
        return Done;
      }
      return if closed then Eof else Blocks;
    }

    /** If the close signal is taken, a second select drains what is left. */
    method DoProcess(pick: bool) returns (o: Outcome, m: Option<Message>)
      modifies this
      ensures o == Answer(old(Now()), Process(pick)) && Now() == Next(old(Now()), Process(pick))
      ensures old(|send| > 0) ==> o == Done && m == Some(old(send)[0]) && send == old(send)[1..]
      ensures old(|send| == 0) ==> o == (if closed then Eof else Blocks) && m == None && Now() == old(Now())
    {
      m := None;
      if |send| > 0 && !(closed && pick) {
        m := Some(send[0]);
        send, processed := send[1..], processed + [send[0]];
        return Done, m;
      } else if closed {
        if |send| > 0 {
          m := Some(send[0]);
          send, processed := send[1..], processed + [send[0]];
          return Done, m;
        }
        return Eof, m;
      }
      return Blocks, m;
    }

    method DoAccept(m: Message, pick: bool) returns (o: Outcome)
      modifies this
      ensures o == Answer(old(Now()), Accept(m, pick)) && Now() == Next(old(Now()), Accept(m, pick))
      ensures old(!closed && |recv| < 128) ==> o == Done && recv == old(recv) + [m] && accepted == old(accepted) + [m]
      ensures old(!closed && |recv| >= 128) ==> o == Blocks
      ensures old(closed) ==> o == Done || o == Eof
      ensures o != Done ==> Now() == old(Now())
    {
      if |recv| < BUFFER && !(closed && pick) {
        recv, accepted := recv + [m], accepted + [m];
        return Done;
      }
      return if closed then Eof else Blocks;
    }

    method DoRecv(pick: bool) returns (o: Outcome, m: Option<Message>)
      modifies this
      ensures o == Answer(old(Now()), Recv(pick)) && Now() == Next(old(Now()), Recv(pick))
      ensures m == if o == Done then Some(old(recv)[0]) else None
      ensures old(!closed && |recv| > 0) ==> o == Done && recv == old(recv)[1..]
      ensures old(!closed && |recv| == 0) ==> o == Blocks
      ensures old(closed) ==> o == Done || o == Eof
      ensures o != Done ==> Now() == old(Now())
    {
      m := None;
      if |recv| > 0 && !(closed && pick) {
        m := Some(recv[0]);
        recv, received := recv[1..], received + [recv[0]];
        return Done, m;
      }
      return if closed then Eof else Blocks, m;
    }

    method DoClose()
      modifies this
      ensures Now() == Next(old(Now()), Close) && closed && send == old(send) && recv == old(recv)
    {
      closed := true;
    }
  }

  // ----- Runs: any interleaving of calls -----

  function Run(s: State, calls: seq<Call>): State
    decreases |calls|
  {
    if calls == [] then s else Run(Next(s, calls[0]), calls[1..])
  }

  /** Both channels are lossless and ordered. */
  predicate Inv(s: State)
  {
    && s.processed + s.send == s.sent && |s.send| <= BUFFER
    && s.received + s.recv == s.accepted && |s.recv| <= BUFFER
  }

  /** Histories only grow, and a closed socket stays closed. */
  predicate Later(s: State, s': State)
  {
    s.sent <= s'.sent && s.accepted <= s'.accepted && s.received <= s'.received && (s.closed ==> s'.closed)
  }

  lemma NextKeepsInv(s: State, c: Call)
    requires Inv(s)
    ensures Inv(Next(s, c)) && Later(s, Next(s, c))
  {
    if c.Process? && s.send != [] {
      Moved(s.processed, s.send);
    }
    if c.Recv? && s.recv != [] {
      Moved(s.received, s.recv);
    }
    PlusAssociates(s.processed, s.send, if c.Send? then [c.m] else []);
    PlusAssociates(s.received, s.recv, if c.Accept? then [c.m] else []);
  }

  lemma Moved(out: seq<Message>, waiting: seq<Message>)
    requires waiting != []
    ensures out + [waiting[0]] + waiting[1..] == out + waiting
  {
    assert waiting == [waiting[0]] + waiting[1..];
  }

  lemma {:induction false} RunKeepsInv(s: State, calls: seq<Call>)
    requires Inv(s)
    ensures Inv(Run(s, calls)) && Later(s, Run(s, calls))
    decreases |calls|
  {
    if calls != [] {
      NextKeepsInv(s, calls[0]);
      RunKeepsInv(Next(s, calls[0]), calls[1..]);
    }
  }

  /** After any calls on a new socket: the processed messages are the first of those enqueued, in order;
      and Process answers EOF exactly if the socket is closed and everything enqueued was processed. */
  lemma ProcessDrains(calls: seq<Call>, pick: bool)
    ensures var s := Run(FRESH, calls);
      && s.processed <= s.sent
      && (Answer(s, Process(pick)) == Eof <==> s.closed && s.processed == s.sent)
  {
    RunKeepsInv(FRESH, calls);
    var s := Run(FRESH, calls);
    if s.processed == s.sent {
      assert |s.send| == 0;
    }
  }

  /** Every message enqueued before Close has been processed when Process first answers EOF. */
  lemma NothingSentIsLost(before: seq<Call>, after: seq<Call>, pick: bool)
    ensures var closing := Run(FRESH, before);
      var s := Run(Next(closing, Close), after);
      Answer(s, Process(pick)) == Eof ==> closing.sent <= s.processed
  {
    RunKeepsInv(FRESH, before);
    var closing := Run(FRESH, before);
    NextKeepsInv(closing, Close);
    RunKeepsInv(Next(closing, Close), after);
  }

  /** On a closed socket, as many Process calls as there are messages take them all out in order, and the
      next one answers EOF. */
  lemma {:induction false} DrainCompletes(s: State, picks: seq<bool>)
    requires Inv(s) && s.closed && |picks| == |s.send|
    ensures var calls := seq(|picks|, i requires 0 <= i < |picks| => Process(picks[i]));
      var end := Run(s, calls);
      && end.processed == s.sent
      && Answer(end, Process(true)) == Answer(end, Process(false)) == Eof
    decreases |picks|
  {
    var calls := seq(|picks|, i requires 0 <= i < |picks| => Process(picks[i]));
    if picks != [] {
      var s' := Next(s, calls[0]);
      NextKeepsInv(s, calls[0]);
      assert calls[1..] == seq(|picks[1..]|, i requires 0 <= i < |picks[1..]| => Process(picks[1..][i]));
      DrainCompletes(s', picks[1..]);
    }
  }

  // ----- The receive side, where nothing drains -----

  /** After any calls on a new socket, what was accepted was received or waits, in order. */
  lemma NothingAcceptedVanishes(calls: seq<Call>)
    ensures var s := Run(FRESH, calls); s.received + s.recv == s.accepted
  {
    RunKeepsInv(FRESH, calls);
  }

  /** No Recv among the calls answers EOF. */
  predicate NoEof(s: State, calls: seq<Call>)
    decreases |calls|
  {
    calls != [] ==> !(calls[0].Recv? && Answer(s, calls[0]) == Eof) && NoEof(Next(s, calls[0]), calls[1..])
  }

  /** For every Recv among the calls, whether it takes the close signal if it can. */
  function Picks(calls: seq<Call>): seq<bool>
  {
    if calls == [] then [] else (if calls[0].Recv? then [calls[0].pick] else []) + Picks(calls[1..])
  }

  /** On a closed socket every Recv before the first EOF takes a message and none the close signal. */
  lemma {:induction false} RecvsUntilEof(s: State, calls: seq<Call>)
    requires s.closed && NoEof(s, calls)
    ensures Run(s, calls).closed && |Run(s, calls).received| == |s.received| + |Picks(calls)|
    ensures true !in Picks(calls)
    decreases |calls|
  {
    if calls != [] {
      RecvsUntilEof(Next(s, calls[0]), calls[1..]);
    }
  }

  /** Unlike Process, Recv has no second select. Whatever happens after Close, the first EOF that Recv
      answers comes after everything accepted before Close was received exactly if, among the Recv calls up
      to then, none of the first as many as messages waited at Close takes the close signal. */
  lemma FirstEofLosesNothingExactlyWhen(before: seq<Call>, after: seq<Call>, pick: bool)
    requires NoEof(Next(Run(FRESH, before), Close), after)
    requires Answer(Run(Next(Run(FRESH, before), Close), after), Recv(pick)) == Eof
    ensures var closing := Run(FRESH, before);
      var s := Run(Next(closing, Close), after);
      var picks := Picks(after) + [pick];
      closing.accepted <= s.received <==> forall k :: 0 <= k < |picks| && k < |closing.recv| ==> !picks[k]
  {
    var closing := Run(FRESH, before);
    var closed := Next(closing, Close);
    var s := Run(closed, after);
    RunKeepsInv(FRESH, before);
    RunKeepsInv(closed, after);
    RecvsUntilEof(closed, after);
    var picks, n := Picks(after) + [pick], |Picks(after)|;
    assert picks[n] == pick && forall k :: 0 <= k < n ==> picks[k] == Picks(after)[k] && !picks[k];
    assert closing.accepted <= s.accepted && s.received <= s.accepted;
    assert |closing.accepted| == |closing.received| + |closing.recv| && |s.received| == |closing.received| + n;
  }

  /** The failure is reached for every message: accepted, then the socket closes, and Recv answers EOF. */
  lemma AcceptedMessageIsLost(m: Message, pick: bool)
    ensures var s := Run(FRESH, [Accept(m, pick), Close]);
      && s.accepted == [m] && s.received == [] && s.recv == [m]
      && Answer(s, Recv(true)) == Eof
  {
    var calls := [Accept(m, pick), Close];
    var s := State([], [m], false, [], [], [m], []);
    assert calls[1..] == [Close] && calls[1..][1..] == [];
    assert [] + [m] == [m] && Next(FRESH, calls[0]) == s;
    assert Run(FRESH, calls) == Run(s, calls[1..]) == Next(s, Close);
  }
}
