/** The gRPC handlers that drive the registry, as they run when nothing interleaves with them.
    HeartbeatProtocol.HandlerFollowsMachine ties the same events to the interleaved machine. */
module AgentServer {
  import opened HeartbeatProtocol
  import opened Options
  import opened Registry
  import opened RegistrySpec
  import opened Validator

  const HEARTBEAT_INTERVAL_MS: nat := 5000

  datatype RegisterResult = Accepted(heartbeatIntervalMs: nat) | Refused(failure: Failure) | Panicked

  // How a heartbeat handler returned, or that it is still waiting for the next message.
  datatype StreamResult = Waiting | ClosedByPeer | ReceiveError | Rejected | AckFailed

  function LoopResult(rs: seq<Recv>): StreamResult {
    if rs == [] then Waiting
    else if rs[0].Eof? then ClosedByPeer
    else if rs[0].Broken? then ReceiveError
    else if !AcceptsMessage(rs[0].message) then Rejected
    else LoopResult(rs[1..])
  }

  function HandlerResult(rs: seq<Recv>, acked: bool): StreamResult {
    if rs != [] && rs[0].Msg? && AcceptsMessage(rs[0].message) && !acked then AckFailed else LoopResult(rs)
  }

  class AgentServer {
    const registry: NodeRegistry

    constructor (registry: NodeRegistry)
      ensures this.registry == registry
    {
      this.registry := registry;
    }

    // The node ID is looked at first and the version last. The registry panics on nil resources, and the handler
    // does not look: a nil gets through after the checks.
    method Register(nodeId: string, address: string, version: string, resources: NodeResources?, now: int)
      returns (result: RegisterResult)
      requires registry.Valid()
      modifies registry`nodes, registry`model, registry.metrics
      ensures registry.Valid()
      ensures (if result.Refused? then Some(result.failure) else None) ==
              if nodeId == "" then Some(Failure("node_id", Empty))
              else if '\0' in nodeId then Some(Failure("node_id", NullBytes))
              else if |nodeId| > 255 then Some(Failure("node_id", TooLong))
              else if exists i | 0 <= i < |nodeId| ::
                        var c := nodeId[i];
                        && !('a' <= c <= 'z' || 'A' <= c <= 'Z' || '0' <= c <= '9')
                        && (i > 0 ==> c !in "-_.") then Some(Failure("node_id", BadCharacters))
              else if '\0' in address then Some(Failure("address", NullBytes))
              else if |address| > 512 then Some(Failure("address", TooLong))
              else if '\0' in version then Some(Failure("agent_version", NullBytes))
              else if |version| > 64 then Some(Failure("agent_version", TooLong))
              else None
      ensures result.Refused? <==>
                ValidateNodeID(nodeId).Some? || ValidateAddress(address).Some? || ValidateVersion(version).Some?
      ensures result.Panicked? <==> resources == null && !result.Refused?
      ensures result.Accepted? ==>
                && result.heartbeatIntervalMs == 5000
                && AcceptsRegister(RegisterRequest(nodeId, address, version, old(resources.Value())))
                && registry.Model() ==
                   Step(old(registry.Model()), Event.Register(now, nodeId, address, old(resources.Value())))
      ensures !result.Accepted? ==> registry.Model() == old(registry.Model())
      ensures fresh(registry.Repr() - old(registry.Repr()))
    {
      AcceptedNodeIds(nodeId);
      AcceptedTexts(address);
      AcceptedTexts(version);
      var err := CheckRegister(nodeId, address, version);
      if err.Some? {
        return Refused(err.value);
      }
      var panicked := registry.Register(nodeId, address, resources, now);
      return if panicked then Panicked else Accepted(HEARTBEAT_INTERVAL_MS);
    }

    // The first of the three failures, or none.
    method CheckRegister(nodeId: string, address: string, version: string) returns (err: Option<Failure>)
      ensures err == if ValidateNodeID(nodeId).Some? then ValidateNodeID(nodeId)
                     else if ValidateAddress(address).Some? then ValidateAddress(address)
                     else ValidateVersion(version)
    {
      var checks := [ValidateNodeID(nodeId), ValidateAddress(address), ValidateVersion(version)];
      var position;
      err, position := ValidateAll(checks);
      if err.Some? {
        assert position > 0 ==> checks[0].None?;
        assert position > 1 ==> checks[1].None?;
      } else {
        assert checks[0].None? && checks[1].None? && checks[2].None?;
      }
    }

    method Rejects(m: Message) returns (rejected: bool)
      ensures rejected <==> !AcceptsMessage(m)
    {
      var checks := [ValidateNodeID(m.nodeId), ValidateHeartbeatTaskCount(|m.tasks|)];
      var err, position := ValidateAll(checks);
      assert checks[0].Some? || checks[1].Some? <==> err.Some?;
      return err.Some?;
    }

    // `received` is what the successive Recv calls yield, `acked` whether the first acknowledgement was sent.
    method Heartbeat(received: seq<Recv>, acked: bool) returns (result: StreamResult)
      requires registry.Valid()
      modifies registry.Repr()
      ensures registry.Valid()
      ensures registry.Model() ==
              RunFrom(old(registry.Model()), HandlerEvents(old(registry.model), received, acked))
      ensures result == HandlerResult(received, acked)
    {
      HandlerCases(registry.model, received, acked, registry.Model());
      if received == [] {
        return Waiting;
      }
      match received[0]
      case Eof(_) => return ClosedByPeer;
      case Broken(_) => return ReceiveError;
      case Msg(first, now) =>
        ghost var s := registry.Model();
        var rejected, connID := FirstMessage(first, now);
        if rejected {
          return Rejected;
        }
        if !acked {
          return AckFailed;
        }
        ghost var e := Event.Heartbeat(now, first.nodeId, first.tasks);
        result := ReceiveLoop(first.nodeId, connID, received[1..], s, [e]);
    }

    // Check, capture, update.
    method FirstMessage(first: Message, now: int) returns (rejected: bool, connID: nat)
      requires registry.Valid()
      modifies registry.Repr()
      ensures registry.Valid() && registry.nodes == old(registry.nodes)
      ensures rejected <==> !AcceptsMessage(first)
      ensures rejected ==> registry.Model() == old(registry.Model())
      ensures !rejected ==>
                && connID == ConnectionId(old(registry.model), first.nodeId)
                && registry.Model() == Step(old(registry.Model()), Event.Heartbeat(now, first.nodeId, first.tasks))
    {
      rejected := Rejects(first);
      if rejected {
        return true, 0;
      }
      connID := registry.ConnectionID(first.nodeId);
      registry.UpdateHeartbeat(first.nodeId, first.tasks, now);
    }

    method ReceiveLoop(nodeID: string, connID: nat, received: seq<Recv>, ghost start: State, ghost before: seq<Event>)
      returns (result: StreamResult)
      requires registry.Valid()
      requires registry.Model() == RunFrom(start, before)
      modifies registry.Repr()
      ensures registry.Valid()
      ensures registry.Model() == RunFrom(start, before + LoopEvents(nodeID, connID, received))
      ensures result == LoopResult(received)
    {
      ghost var done := before;
      ghost var all := before + LoopEvents(nodeID, connID, received);
      result := Waiting;
      for i := 0 to |received|
        invariant registry.Valid() && registry.nodes == old(registry.nodes)
        invariant registry.Model() == RunFrom(start, done)
        invariant all == done + LoopEvents(nodeID, connID, received[i..])
        invariant LoopResult(received) == LoopResult(received[i..]) && result.Waiting?
      {
        ghost var more := Immediate(nodeID, connID, received[i]);
        LoopNext(nodeID, connID, received[i..], done);
        RunMore(start, done, more);
        assert received[i..][1..] == received[i + 1..];
        result := Handle(nodeID, connID, received[i]);
        done := done + more;
        if !result.Waiting? {
          assert all == done;
          return;
        }
      }
      assert all == done;
    }

    // One iteration of the receive loop; Waiting means that the loop goes on.
    method Handle(nodeID: string, connID: nat, r: Recv) returns (result: StreamResult)
      requires registry.Valid()
      modifies registry.Repr()
      ensures registry.Valid()
      ensures registry.Model() == After(old(registry.Model()), Immediate(nodeID, connID, r))
      ensures result == LoopResult([r])
      ensures result.Waiting? ==> registry.nodes == old(registry.nodes)
    {
      OneResult(r);
      match r {
        case Eof(now) =>
          registry.RemoveIfConnectionMatches(nodeID, connID, now);
          return ClosedByPeer;
        case Broken(now) =>
          registry.RemoveIfConnectionMatches(nodeID, connID, now);
          return ReceiveError;
        case Msg(m, now) =>
          var rejected := Rejects(m);
          if rejected {
            return Rejected;
          }
          registry.UpdateHeartbeat(m.nodeId, m.tasks, now);
          return Waiting;
      }
    }
  }

  // Where the loop stops: everything before that place is an accepted message.
  ghost predicate StopsAt(rs: seq<Recv>, i: int) {
    && 0 <= i < |rs| && !(rs[i].Msg? && AcceptsMessage(rs[i].message))
    && forall j | 0 <= j < i :: rs[j].Msg? && AcceptsMessage(rs[j].message)
  }

  lemma {:induction false} LoopStops(rs: seq<Recv>) returns (at: nat)
    ensures !LoopResult(rs).Waiting? ==> StopsAt(rs, at) && LoopResult(rs) == LoopResult([rs[at]])
    ensures LoopResult(rs).Waiting? ==> forall j | 0 <= j < |rs| :: rs[j].Msg? && AcceptsMessage(rs[j].message)
  {
    at := 0;
    if rs == [] {
    } else {
      OneResult(rs[0]);
      if LoopResult([rs[0]]).Waiting? {
        at := LoopStops(rs[1..]);
        assert forall j | 0 < j < |rs| :: rs[j] == rs[1..][j - 1];
        at := at + 1;
      }
    }
  }

  lemma StopsOnce(rs: seq<Recv>, i: int, j: int)
    requires StopsAt(rs, i) && StopsAt(rs, j)
    ensures i == j
  {
  }

  // How a handler returns, from what it received alone.
  lemma HandlerResultIs(rs: seq<Recv>, acked: bool)
    ensures var r := HandlerResult(rs, acked);
            && (r.AckFailed? <==> rs != [] && rs[0].Msg? && AcceptsMessage(rs[0].message) && !acked)
            && (r.ClosedByPeer? <==>
                exists i | 0 <= i < |rs| ::
                  && rs[i].Eof? && (i > 0 ==> acked)
                  && forall j | 0 <= j < i :: rs[j].Msg? && AcceptsMessage(rs[j].message))
            && (r.ReceiveError? <==>
                exists i | 0 <= i < |rs| ::
                  && rs[i].Broken? && (i > 0 ==> acked)
                  && forall j | 0 <= j < i :: rs[j].Msg? && AcceptsMessage(rs[j].message))
            && (r.Rejected? <==>
                exists i | 0 <= i < |rs| ::
                  && rs[i].Msg? && !AcceptsMessage(rs[i].message) && (i > 0 ==> acked)
                  && forall j | 0 <= j < i :: rs[j].Msg? && AcceptsMessage(rs[j].message))
  {
    var at := LoopStops(rs);
    forall i | StopsAt(rs, i)
      ensures i == at && LoopResult(rs) == LoopResult([rs[i]]) && !LoopResult(rs).Waiting?
    {
      if LoopResult(rs).Waiting? {
        assert false;
      }
      StopsOnce(rs, i, at);
    }
    if StopsAt(rs, at) {
      OneResult(rs[at]);
    }
  }

  // The lock regions of a handler that stops at `i`, or is still waiting at the end: one heartbeat for each message
  // before it, and the removal with the ID read at the start exactly when the stream ended or broke after that.
  lemma HandlerEventsAre(nodes: Nodes, rs: seq<Recv>, acked: bool, i: nat)
    requires i <= |rs| && forall j | 0 <= j < i :: rs[j].Msg? && AcceptsMessage(rs[j].message)
    requires i < |rs| && rs[i].Msg? ==> !AcceptsMessage(rs[i].message)
    ensures i == 0 ==> HandlerEvents(nodes, rs, acked) == []
    ensures i > 0 && !acked ==>
              HandlerEvents(nodes, rs, acked) ==
              [Event.Heartbeat(rs[0].now, rs[0].message.nodeId, rs[0].message.tasks)]
    ensures i > 0 && acked ==>
              var es, id := HandlerEvents(nodes, rs, acked), rs[0].message.nodeId;
              && |es| == (if i < |rs| && (rs[i].Eof? || rs[i].Broken?) then i + 1 else i)
              && (forall j | 0 <= j < i ::
                    es[j] == Event.Heartbeat(rs[j].now, rs[j].message.nodeId, rs[j].message.tasks))
              && (|es| > i ==>
                    es[i] == RemoveIf(rs[i].now, id, if id in nodes then nodes[id].connectionId else 0))
  {
    if i > 0 {
      var id := rs[0].message.nodeId;
      LoopEventsAre(id, ConnectionId(nodes, id), rs[1..], i - 1);
      assert forall j | 0 < j < |rs| :: rs[j] == rs[1..][j - 1];
    }
  }

  lemma {:induction false} LoopEventsAre(nodeID: string, connID: nat, rs: seq<Recv>, i: nat)
    requires i <= |rs| && forall j | 0 <= j < i :: rs[j].Msg? && AcceptsMessage(rs[j].message)
    requires i < |rs| && rs[i].Msg? ==> !AcceptsMessage(rs[i].message)
    ensures var es := LoopEvents(nodeID, connID, rs);
            && |es| == (if i < |rs| && !rs[i].Msg? then i + 1 else i)
            && (forall j | 0 <= j < i ::
                  es[j] == Event.Heartbeat(rs[j].now, rs[j].message.nodeId, rs[j].message.tasks))
            && (|es| > i ==> es[i] == RemoveIf(rs[i].now, nodeID, connID))
  {
    if i == 0 {
    } else {
      LoopEventsAre(nodeID, connID, rs[1..], i - 1);
      assert forall j | 0 < j < |rs| :: rs[j] == rs[1..][j - 1];
    }
  }

  // At most one lock region.
  ghost function After(s: State, more: seq<Event>): State {
    if more == [] then s else Step(s, more[0])
  }

  lemma OneResult(r: Recv)
    ensures LoopResult([r]) ==
            match r
            case Eof(_) => ClosedByPeer
            case Broken(_) => ReceiveError
            case Msg(m, _) => if AcceptsMessage(m) then Waiting else Rejected
  {
    assert [r][1..] == [];
  }

  // The lock regions of one iteration of the receive loop.
  ghost function Immediate(nodeID: string, connID: nat, r: Recv): seq<Event> {
    match r
    case Msg(m, now) => if AcceptsMessage(m) then [Event.Heartbeat(now, m.nodeId, m.tasks)] else []
    case Eof(now) => [RemoveIf(now, nodeID, connID)]
    case Broken(now) => [RemoveIf(now, nodeID, connID)]
  }

  // The ways through a handler, and what each comes to from state `s`.
  lemma HandlerCases(nodes: Nodes, rs: seq<Recv>, acked: bool, s: State)
    ensures rs == [] || !rs[0].Msg? || !AcceptsMessage(rs[0].message) ==>
              RunFrom(s, HandlerEvents(nodes, rs, acked)) == s
    ensures rs != [] && rs[0].Msg? && AcceptsMessage(rs[0].message) ==>
              var m := rs[0].message;
              var e := Event.Heartbeat(rs[0].now, m.nodeId, m.tasks);
              && RunFrom(s, [e]) == Step(s, e)
              && HandlerEvents(nodes, rs, acked) ==
                 if acked then [e] + LoopEvents(m.nodeId, ConnectionId(nodes, m.nodeId), rs[1..]) else [e]
  {
    if rs != [] && rs[0].Msg? && AcceptsMessage(rs[0].message) {
      var e := Event.Heartbeat(rs[0].now, rs[0].message.nodeId, rs[0].message.tasks);
      RunSnoc(s, [], e);
      assert [] + [e] == [e];
    }
  }

  lemma LoopNext(nodeID: string, connID: nat, rs: seq<Recv>, done: seq<Event>)
    requires rs != []
    ensures var more := Immediate(nodeID, connID, rs[0]);
            && done + LoopEvents(nodeID, connID, rs) ==
               (if LoopResult([rs[0]]).Waiting? then done + more + LoopEvents(nodeID, connID, rs[1..]) else done + more)
            && LoopResult(rs) == (if LoopResult([rs[0]]).Waiting? then LoopResult(rs[1..]) else LoopResult([rs[0]]))
  {
    var more := Immediate(nodeID, connID, rs[0]);
    assert [rs[0]][1..] == [];
    assert done + (more + LoopEvents(nodeID, connID, rs[1..])) == done + more + LoopEvents(nodeID, connID, rs[1..]);
  }

  lemma RunMore(start: State, done: seq<Event>, more: seq<Event>)
    requires |more| <= 1
    ensures RunFrom(start, done + more) == After(RunFrom(start, done), more)
  {
    if more == [] {
      assert done + more == done;
    } else {
      RunSnoc(start, done, more[0]);
      assert more == [more[0]];
    }
  }
}
