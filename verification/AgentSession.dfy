/** One connected session of the agent: the connection object that queues heartbeat requests, and the
    event loop that numbers them. */
module AgentSession {
  import opened MachineIntegers

  datatype HeartbeatRequest = HeartbeatRequest(nodeId: string, sequence: nat, withUtilization: bool)

  // What the select! of the event loop wakes up with. A tick says whether the request channel still took the request.
  datatype SessionEvent = Tick(accepted: bool) | Instruction | StreamEnded | CtrlC

  // StillRunning: no event has ended the session yet.
  datatype SessionEnd = Reconnect | Shutdown | StillRunning

  // The u64 that counting up from 0 has reached after n steps, and one step of it.
  function Wrap(n: nat): nat {
    n % UINT64_RANGE
  }

  function Successor(n: nat): nat {
    if n + 1 == UINT64_RANGE then 0 else n + 1
  }

  // Requests number 0, 1, 2, ... of this node; only the first carries no utilization.
  function Numbered(nodeId: string, n: nat): seq<HeartbeatRequest> {
    seq(n, i requires 0 <= i => HeartbeatRequest(nodeId, Wrap(i), i > 0))
  }

  predicate Ends(e: SessionEvent) {
    e.StreamEnded? || e.CtrlC? || (e.Tick? && !e.accepted)
  }

  // Events up to and including the one that ends the session, if there is one.
  function Handled(es: seq<SessionEvent>): (n: nat)
    ensures n <= |es|
  {
    if es == [] then 0 else if Ends(es[0]) then 1 else 1 + Handled(es[1..])
  }

  // It is the least such prefix: nothing before its last event ends the session.
  lemma {:induction false} HandledIsFirstEnd(es: seq<SessionEvent>)
    ensures var n := Handled(es);
            && (forall i | 0 <= i < n - 1 :: !Ends(es[i]))
            && (n == |es| || (n > 0 && Ends(es[n - 1])))
  {
    if es == [] || Ends(es[0]) {
    } else {
      HandledIsFirstEnd(es[1..]);
    }
  }

  function EndOf(es: seq<SessionEvent>): SessionEnd {
    if Handled(es) == 0 || !Ends(es[Handled(es) - 1]) then StillRunning
    else if es[Handled(es) - 1].CtrlC? then Shutdown
    else Reconnect
  }

  // The first event that is not an instruction or a request taken decides, and it decides so.
  lemma EndIs(es: seq<SessionEvent>)
    ensures EndOf(es).Shutdown? <==>
              exists i | 0 <= i < |es| ::
                es[i].CtrlC? && forall j | 0 <= j < i :: es[j].Instruction? || es[j] == Tick(true)
    ensures EndOf(es).Reconnect? <==>
              exists i | 0 <= i < |es| ::
                && (es[i].StreamEnded? || es[i] == Tick(false))
                && forall j | 0 <= j < i :: es[j].Instruction? || es[j] == Tick(true)
    ensures EndOf(es).StillRunning? <==> forall j | 0 <= j < |es| :: es[j].Instruction? || es[j] == Tick(true)
  {
    HandledIsFirstEnd(es);
    forall e: SessionEvent
      ensures !Ends(e) <==> e.Instruction? || e == Tick(true)
    {
    }
  }

  function AcceptedTicks(es: seq<SessionEvent>): nat {
    if es == [] then 0
    else AcceptedTicks(es[..|es| - 1]) + if es[|es| - 1].Tick? && es[|es| - 1].accepted then 1 else 0
  }

  lemma {:induction false} AcceptedTicksAre(es: seq<SessionEvent>)
    ensures AcceptedTicks(es) == |(set i | 0 <= i < |es| && es[i] == Tick(true))|
  {
    if es == [] {
    } else {
      var last := |es| - 1;
      var before := set i | 0 <= i < last && es[..last][i] == Tick(true);
      AcceptedTicksAre(es[..last]);
      assert (set i | 0 <= i < |es| && es[i] == Tick(true)) ==
             if es[last] == Tick(true) then before + {last} else before;
    }
  }

  // The ticks that count are those before anything has ended the session.
  lemma HandledTicksAre(es: seq<SessionEvent>)
    ensures AcceptedTicks(es[..Handled(es)]) ==
            |(set i | 0 <= i < |es| && es[i] == Tick(true)
                      && forall j | 0 <= j < i :: es[j].Instruction? || es[j] == Tick(true))|
  {
    var n := Handled(es);
    HandledIsFirstEnd(es);
    AcceptedTicksAre(es[..n]);
    var counted := set i | 0 <= i < |es| && es[i] == Tick(true)
                           && forall j | 0 <= j < i :: es[j].Instruction? || es[j] == Tick(true);
    forall i
      ensures i in counted <==> 0 <= i < n && es[..n][i] == Tick(true)
    {
      if n <= i < |es| {
        assert Ends(es[n - 1]) && !(es[n - 1].Instruction? || es[n - 1] == Tick(true));
      }
    }
    assert counted == set i | 0 <= i < n && es[..n][i] == Tick(true);
  }

  class HeartbeatConnection {
    const nodeId: string
    // Everything put into the request channel so far, in order.
    var requests: seq<HeartbeatRequest>

    // The last steps of connect: the first heartbeat goes in at once.
    constructor (nodeId: string)
      ensures this.nodeId == nodeId && requests == [HeartbeatRequest(nodeId, 0, false)]
      ensures requests == Numbered(nodeId, 1)
    {
      this.nodeId := nodeId;
      requests := [HeartbeatRequest(nodeId, 0, false)];
      new;
      assert requests == Numbered(nodeId, 1);
    }

    method SendHeartbeat(sequence: nat, accepted: bool) returns (ok: bool)
      modifies this
      ensures ok == accepted
      ensures requests == old(requests) + if ok then [HeartbeatRequest(nodeId, sequence, true)] else []
    {
      if accepted {
        requests := requests + [HeartbeatRequest(nodeId, sequence, true)];
      }
      return accepted;
    }
  }

  // The inner loop of main: the requests queued are exactly 0, 1, 2, ... with no gap and no repeat, one for each tick
  // before the end. Ctrl-C shuts the agent down, the end of the stream or a refused request makes it reconnect, and
  // only the first of these events counts.
  method RunSession(conn: HeartbeatConnection, events: seq<SessionEvent>) returns (end: SessionEnd)
    requires conn.requests == Numbered(conn.nodeId, 1)
    modifies conn
    ensures end == EndOf(events)
    ensures conn.requests == Numbered(conn.nodeId, 1 + AcceptedTicks(events[..Handled(events)]))
    ensures end.Shutdown? <==>
              exists i | 0 <= i < |events| ::
                events[i].CtrlC? && forall j | 0 <= j < i :: events[j].Instruction? || events[j] == Tick(true)
    ensures end.Reconnect? <==>
              exists i | 0 <= i < |events| ::
                && (events[i].StreamEnded? || events[i] == Tick(false))
                && forall j | 0 <= j < i :: events[j].Instruction? || events[j] == Tick(true)
    ensures end.StillRunning? <==>
              forall j | 0 <= j < |events| :: events[j].Instruction? || events[j] == Tick(true)
    ensures forall i | 0 <= i < |conn.requests| ::
              conn.requests[i] == HeartbeatRequest(conn.nodeId, i % 0x1_0000_0000_0000_0000, i > 0)
    ensures |conn.requests| ==
            1 + |(set i | 0 <= i < |events| && events[i] == Tick(true)
                          && forall j | 0 <= j < i :: events[j].Instruction? || events[j] == Tick(true))|
  {
    end := EventLoop(conn, events);
    EndIs(events);
    HandledTicksAre(events);
  }

  method EventLoop(conn: HeartbeatConnection, events: seq<SessionEvent>) returns (end: SessionEnd)
    requires conn.requests == Numbered(conn.nodeId, 1)
    modifies conn
    ensures end == EndOf(events)
    ensures conn.requests == Numbered(conn.nodeId, 1 + AcceptedTicks(events[..Handled(events)]))
  {
    var sequence: nat := 0;
    ghost var sent := 0;
    var i := 0;
    while i < |events|
      invariant Progress(events, i, sent) && sequence == Wrap(sent)
      invariant conn.requests == Numbered(conn.nodeId, 1 + sent)
    {
      ProgressStep(events, i, sent);
      match events[i] {
        case Tick(accepted) =>
          sequence := Successor(sequence);
          var ok := conn.SendHeartbeat(sequence, accepted);
          if !ok {
            return Reconnect;
          }
          NumberedNext(conn.nodeId, sent);
          WrapNext(sent);
          sent := sent + 1;
        case Instruction =>
        case StreamEnded =>
          return Reconnect;
        case CtrlC =>
          return Shutdown;
      }
      i := i + 1;
    }
    assert events[..|events|] == events;
    return StillRunning;
  }

  // The first i events have not ended the session, and `sent` requests have followed the initial one.
  ghost predicate Progress(es: seq<SessionEvent>, i: nat, sent: nat) {
    && i <= |es| && (forall j | 0 <= j < i :: !Ends(es[j]))
    && Handled(es) == i + Handled(es[i..])
    && sent == AcceptedTicks(es[..i])
  }

  lemma ProgressStep(es: seq<SessionEvent>, i: nat, sent: nat)
    requires i < |es| && Progress(es, i, sent)
    ensures Ends(es[i]) ==> Handled(es) == i + 1 && AcceptedTicks(es[..i + 1]) == sent
    ensures !Ends(es[i]) ==> Progress(es, i + 1, sent + if es[i].Tick? then 1 else 0)
  {
    HandledStep(es[i..]);
    assert es[i..][1..] == es[i + 1..];
    AcceptedSnoc(es[..i], es[i]);
    assert es[..i + 1] == es[..i] + [es[i]];
  }

  lemma HandledStep(es: seq<SessionEvent>)
    requires es != []
    ensures Handled(es) == if Ends(es[0]) then 1 else 1 + Handled(es[1..])
  {
  }

  lemma AcceptedSnoc(es: seq<SessionEvent>, e: SessionEvent)
    ensures AcceptedTicks(es + [e]) == AcceptedTicks(es) + if e.Tick? && e.accepted then 1 else 0
  {
    assert (es + [e])[..|es + [e]| - 1] == es;
  }

  lemma NumberedNext(nodeId: string, sent: nat)
    ensures Numbered(nodeId, 2 + sent) ==
            Numbered(nodeId, 1 + sent) + [HeartbeatRequest(nodeId, Successor(Wrap(sent)), true)]
  {
    WrapNext(sent);
  }

  lemma WrapNext(n: nat)
    ensures Successor(Wrap(n)) == Wrap(n + 1)
  {
  }
}
