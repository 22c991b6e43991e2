/** The control plane under concurrency: unary Register calls, any number of heartbeat streams and the cleanup
    ticker, interleaved one lock region at a time. The system state keeps the history of lock regions; the
    registry is what that history leaves (RegistrySpec.Run). */
module HeartbeatProtocol {
  import opened MachineIntegers
  import opened Options
  import opened RegistryHistory
  import opened RegistrySpec
  import opened Validator

  datatype RegisterRequest = RegisterRequest(nodeId: string, address: string, version: string, resources: Resources)
  datatype Message = Message(nodeId: string, tasks: seq<TaskStatus>)

  predicate AcceptsRegister(r: RegisterRequest) {
    ValidateNodeID(r.nodeId).None? && ValidateAddress(r.address).None? && ValidateVersion(r.version).None?
  }

  predicate AcceptsMessage(m: Message) {
    ValidateNodeID(m.nodeId).None? && ValidateHeartbeatTaskCount(|m.tasks|).None?
  }

  // What a heartbeat must be: at most 10,000 task statuses, from a node ID of the accepted form.
  lemma AcceptedMessages(m: Message)
    ensures AcceptsMessage(m) <==>
              && |m.tasks| <= 10_000
              && 1 <= |m.nodeId| <= 255
              && ('a' <= m.nodeId[0] <= 'z' || 'A' <= m.nodeId[0] <= 'Z' || '0' <= m.nodeId[0] <= '9')
              && forall i | 0 < i < |m.nodeId| ::
                   var c := m.nodeId[i];
                   'a' <= c <= 'z' || 'A' <= c <= 'Z' || '0' <= c <= '9' || c in "-_."
  {
    AcceptedNodeIds(m.nodeId);
  }

  // Where one stream handler stands. `at` is the length of the history when the connection ID was read.
  datatype Stream =
    | Received(first: Message)
    | Captured(first: Message, connectionId: nat, at: nat)
    | Updated(nodeId: string, connectionId: nat, at: nat)
    | Open(nodeId: string, connectionId: nat, at: nat)
    | Closed

  datatype System = System(log: seq<Event>, streams: map<nat, Stream>)

  datatype Move =
    | RegisterCall(now: int, request: RegisterRequest)
    | First(sid: nat, message: Message)
    | Capture(sid: nat)
    | FirstUpdate(sid: nat, now: int)
    | Ack(sid: nat, sent: bool)
    | Receive(sid: nat, now: int, message: Message)
    | End(sid: nat, now: int)
    | Cleanup(now: int, threshold: int)

  const START := System([], map[])

  function StreamOf(s: System, sid: nat): Stream {
    if sid in s.streams then s.streams[sid] else Closed
  }

  function Log(s: System, e: Event): System {
    s.(log := s.log + [e])
  }

  function Become(s: System, sid: nat, st: Stream): System {
    s.(streams := s.streams[sid := st])
  }

  // One move; a move that its stream is not ready for changes nothing.
  function Apply(s: System, v: Move): System {
    match v
    case RegisterCall(now, r) =>
      if AcceptsRegister(r) then Log(s, Register(now, r.nodeId, r.address, r.resources)) else s
    case Cleanup(now, threshold) =>
      Log(s, Tick(now, threshold))
    case First(sid, m) =>
      if sid in s.streams then s
      else Become(s, sid, if AcceptsMessage(m) then Received(m) else Closed)
    case Capture(sid) =>
      var st := StreamOf(s, sid);
      if st.Received?
      then Become(s, sid, Captured(st.first, ConnectionId(NodesAfter(s.log), st.first.nodeId), |s.log|))
      else s
    case FirstUpdate(sid, now) =>
      var st := StreamOf(s, sid);
      if st.Captured?
      then Log(Become(s, sid, Updated(st.first.nodeId, st.connectionId, st.at)),
               Heartbeat(now, st.first.nodeId, st.first.tasks))
      else s
    case Ack(sid, sent) =>
      var st := StreamOf(s, sid);
      if st.Updated? then Become(s, sid, if sent then Open(st.nodeId, st.connectionId, st.at) else Closed) else s
    case Receive(sid, now, m) =>
      var st := StreamOf(s, sid);
      if !st.Open? then s
      else if AcceptsMessage(m) then Log(s, Heartbeat(now, m.nodeId, m.tasks))
      else Become(s, sid, Closed)
    case End(sid, now) =>
      var st := StreamOf(s, sid);
      if st.Open? then Log(Become(s, sid, Closed), RemoveIf(now, st.nodeId, st.connectionId)) else s
  }

  function ApplyAll(s: System, vs: seq<Move>): System {
    if vs == [] then s else Apply(ApplyAll(s, vs[..|vs| - 1]), vs[|vs| - 1])
  }

  lemma ApplyAllSnoc(s: System, vs: seq<Move>, v: Move)
    ensures ApplyAll(s, vs + [v]) == Apply(ApplyAll(s, vs), v)
  {
    assert (vs + [v])[..|vs + [v]| - 1] == vs;
  }

  // ----- what every run keeps -----

  // The ID a stream holds is the one its node had when the stream read it.
  predicate CapturedRight(s: System, st: Stream) {
    && ((st.Captured? || st.Updated? || st.Open?) ==> st.at <= |s.log|)
    && (st.Captured? ==> st.connectionId == ConnectionId(NodesAfter(s.log[..st.at]), st.first.nodeId))
    && (st.Updated? || st.Open? ==> st.connectionId == ConnectionId(NodesAfter(s.log[..st.at]), st.nodeId))
  }

  ghost predicate Honest(s: System) {
    forall sid | sid in s.streams :: CapturedRight(s, s.streams[sid])
  }

  lemma LogKeeps(s: System, st: Stream, e: Event)
    requires CapturedRight(s, st)
    ensures CapturedRight(Log(s, e), st)
  {
    if st.Captured? || st.Updated? || st.Open? {
      assert (s.log + [e])[..st.at] == s.log[..st.at];
    }
  }

  lemma HonestStep(s: System, v: Move)
    requires Honest(s)
    ensures Honest(Apply(s, v))
  {
    var s' := Apply(s, v);
    forall sid | sid in s'.streams
      ensures CapturedRight(s', s'.streams[sid])
    {
      if s'.log != s.log {
        LogKeeps(s.(streams := s'.streams), s'.streams[sid], s'.log[|s.log|]);
      } else if v.Capture? && s' != s && sid == v.sid {
        assert s.log[..|s.log|] == s.log;
      }
    }
  }

  lemma {:induction false} AlwaysHonest(vs: seq<Move>)
    ensures Honest(ApplyAll(START, vs))
  {
    if vs == [] {
    } else {
      AlwaysHonest(vs[..|vs| - 1]);
      HonestStep(ApplyAll(START, vs[..|vs| - 1]), vs[|vs| - 1]);
    }
  }

  // ----- closing streams -----

  // Registrations of the node's present stay in the map.
  ghost function Registrations(log: seq<Event>, id: string): nat {
    RegisterCount(log[LastRemoval(log, id)..], id)
  }

  predicate CloseRemoves(s: System, sid: nat, now: int)
    requires StreamOf(s, sid).Open?
  {
    var id := StreamOf(s, sid).nodeId;
    id in NodesAfter(s.log) && id !in NodesAfter(Apply(s, End(sid, now)).log)
  }

  lemma CloseOutcome(s: System, sid: nat, now: int)
    requires StreamOf(s, sid).Open?
    ensures var st := StreamOf(s, sid);
            CloseRemoves(s, sid, now) <==> Matches(NodesAfter(s.log), st.nodeId, st.connectionId)
  {
    var st := StreamOf(s, sid);
    NodesAfterSnoc(s.log, RemoveIf(now, st.nodeId, st.connectionId));
  }

  // In every reachable state: the close removes the node exactly when its present stay has seen as many
  // registrations (as uint64) as its stay at the time of the capture had.
  lemma CloseRemovesIffSameCount(vs: seq<Move>, sid: nat, now: int)
    requires StreamOf(ApplyAll(START, vs), sid).Open?
    ensures var s := ApplyAll(START, vs);
            var st := StreamOf(s, sid);
            && st.at <= |s.log|
            && (CloseRemoves(s, sid, now) <==>
                && st.nodeId in NodesAfter(s.log)
                && Registrations(s.log, st.nodeId) % 0x1_0000_0000_0000_0000 ==
                   Registrations(s.log[..st.at], st.nodeId) % 0x1_0000_0000_0000_0000)
  {
    var s := ApplyAll(START, vs);
    var st := StreamOf(s, sid);
    AlwaysHonest(vs);
    CloseOutcome(s, sid, now);
    ConnectionIdCountsRegisters(s.log, st.nodeId);
    ConnectionIdCountsRegisters(s.log[..st.at], st.nodeId);
  }

  // A closing stream never removes a reconnected node while the node stays present: it removes it exactly
  // when no Register came since the capture (or, since the counter is a uint64, a multiple of 2^64 of them).
  lemma CloseSparesReconnectedNode(vs: seq<Move>, sid: nat, now: int)
    requires StreamOf(ApplyAll(START, vs), sid).Open?
    requires PresentSinceCapture(ApplyAll(START, vs), sid)
    ensures var s := ApplyAll(START, vs);
            CloseRemoves(s, sid, now) <==> RegistersSinceCapture(s, sid) % 0x1_0000_0000_0000_0000 == 0
  {
    AlwaysHonest(vs);
    CloseOutcome(ApplyAll(START, vs), sid, now);
    FenceWhilePresent(ApplyAll(START, vs), sid);
  }

  ghost predicate PresentSinceCapture(s: System, sid: nat)
    requires StreamOf(s, sid).Open?
  {
    var st := StreamOf(s, sid);
    st.at <= |s.log| && PresentSince(s.log, st.at, st.nodeId)
  }

  function RegistersSinceCapture(s: System, sid: nat): nat
    requires StreamOf(s, sid).Open? && StreamOf(s, sid).at <= |s.log|
  {
    RegisterCount(s.log[StreamOf(s, sid).at..], StreamOf(s, sid).nodeId)
  }

  lemma FenceWhilePresent(s: System, sid: nat)
    requires Honest(s) && StreamOf(s, sid).Open? && PresentSinceCapture(s, sid)
    ensures var st := StreamOf(s, sid);
            Matches(NodesAfter(s.log), st.nodeId, st.connectionId) <==>
            RegistersSinceCapture(s, sid) % UINT64_RANGE == 0
  {
    var st := StreamOf(s, sid);
    assert s.log[..|s.log|] == s.log;
    ConnectionIdOverInterval(s.log, st.at, st.nodeId);
    ConnectionIdInRange(s.log, st.nodeId);
    ConnectionIdInRange(s.log[..st.at], st.nodeId);
    SameIdMeansNoRegister(ConnectionId(NodesAfter(s.log), st.nodeId), st.connectionId, RegistersSinceCapture(s, sid));
  }

  lemma SameIdMeansNoRegister(c: nat, captured: nat, n: nat)
    requires c < UINT64_RANGE && captured < UINT64_RANGE
    requires c % UINT64_RANGE == (captured + n) % UINT64_RANGE
    ensures c == captured <==> n % UINT64_RANGE == 0
  {
  }

  // A stream opened on a node the registry did not know holds ID 0, and removes nothing unless the node's
  // stay at the close has seen a multiple of 2^64 registrations.
  lemma UnknownNodeStreamRemovesNothing(vs: seq<Move>, sid: nat, now: int)
    requires StreamOf(ApplyAll(START, vs), sid).Open?
    requires UnknownAtCapture(ApplyAll(START, vs), sid)
    ensures var s := ApplyAll(START, vs);
            var n := Registrations(s.log, StreamOf(s, sid).nodeId);
            CloseRemoves(s, sid, now) <==> n > 0 && n % 0x1_0000_0000_0000_0000 == 0
  {
    var s := ApplyAll(START, vs);
    AlwaysHonest(vs);
    CloseOutcome(s, sid, now);
    ConnectionIdCountsRegisters(s.log, StreamOf(s, sid).nodeId);
  }

  ghost predicate UnknownAtCapture(s: System, sid: nat)
    requires StreamOf(s, sid).Open?
  {
    var st := StreamOf(s, sid);
    st.at <= |s.log| && st.nodeId !in NodesAfter(s.log[..st.at])
  }

  // The two ends that do not remove: a rejected message and an acknowledgement that could not be sent
  // close the stream and leave the registry as it is, so the node stays until cleanup or a reconnect.
  lemma AbnormalEndRemovesNothing(s: System, sid: nat, v: Move)
    requires || (v == Ack(sid, false) && StreamOf(s, sid).Updated?)
             || (v.Receive? && v.sid == sid && StreamOf(s, sid).Open? && !AcceptsMessage(v.message))
    ensures Apply(s, v).log == s.log && StreamOf(Apply(s, v), sid).Closed?
    ensures forall w: Move, t: nat | w == End(sid, t) :: Apply(Apply(s, v), w).log == s.log
  {
  }

  predicate Refreshed(nodes: Nodes, id: string, now: int, tasks: seq<TaskStatus>) {
    id in nodes && nodes[id].lastBeat == now && nodes[id].tasks == TaskView(tasks)
  }

  // Heartbeats are not fenced by the connection ID: an open stream, superseded or opened for another node,
  // refreshes the node its message names exactly if that node is present, and leaves its ID; nothing else changes.
  lemma AnyStreamRefreshes(s: System, sid: nat, now: int, m: Message)
    requires StreamOf(s, sid).Open? && AcceptsMessage(m)
    ensures var before, after := NodesAfter(s.log), NodesAfter(Apply(s, Receive(sid, now, m)).log);
            && (Refreshed(after, m.nodeId, now, m.tasks) <==> m.nodeId in before)
            && after.Keys == before.Keys
            && (forall id | id in before :: after[id].connectionId == before[id].connectionId)
            && (forall id | id in before && id != m.nodeId :: after[id] == before[id])
  {
    NodesAfterSnoc(s.log, Heartbeat(now, m.nodeId, m.tasks));
  }

  // A run in which that matters: the node registers again while its old stream is open. The old stream, which
  // holds ID 1, refreshes the new registration, which has ID 2.
  function SupersededRun(r: Resources): seq<Move> {
    [RegisterCall(0, RegisterRequest("n", "", "", r)),
     First(1, Message("n", [])), Capture(1), FirstUpdate(1, 1), Ack(1, true),
     RegisterCall(2, RegisterRequest("n", "", "", r)),
     Receive(1, 3, Message("n", []))]
  }

  lemma SupersededStreamRefreshes(r: Resources)
    ensures var before, after := ApplyAll(START, SupersededRun(r)[..6]), ApplyAll(START, SupersededRun(r));
            && StreamOf(before, 1) == Open("n", 1, 1)
            && Lookup(NodesAfter(before.log), "n") == Some(Entry("", r, 2, map[], 2))
            && Lookup(NodesAfter(after.log), "n") == Some(Entry("", r, 3, map[], 2))
  {
    var vs := SupersededRun(r);
    OpenedStream(r);
    AcceptedExample(r);
    assert vs[..5] == OpenedRun(r);
    assert vs[..6] == vs[..5] + [vs[5]] && vs == vs[..6] + [vs[6]];
    ApplyAllSnoc(START, vs[..5], vs[5]);
    ApplyAllSnoc(START, vs[..6], vs[6]);
    SupersededLog(r);
  }

  lemma SupersededLog(r: Resources)
    ensures var log := [Register(0, "n", "", r), Heartbeat(1, "n", []), Register(2, "n", "", r)];
            && Lookup(NodesAfter(log), "n") == Some(Entry("", r, 2, map[], 2))
            && Lookup(NodesAfter(log + [Heartbeat(3, "n", [])]), "n") == Some(Entry("", r, 3, map[], 2))
  {
    var e0, e1 := Register(0, "n", "", r), Heartbeat(1, "n", []);
    var e2, e3 := Register(2, "n", "", r), Heartbeat(3, "n", []);
    OpenedStream(r);
    NodesAfterSnoc([e0, e1], e2);
    NodesAfterSnoc([e0, e1] + [e2], e3);
    assert [e0, e1] + [e2] == [e0, e1, e2];
  }

  // One node, and one stream of it that has been acknowledged.
  function OpenedRun(r: Resources): seq<Move> {
    [RegisterCall(0, RegisterRequest("n", "", "", r)),
     First(1, Message("n", [])), Capture(1), FirstUpdate(1, 1), Ack(1, true)]
  }

  lemma AcceptedExample(r: Resources)
    ensures AcceptsRegister(RegisterRequest("n", "", "", r)) && AcceptsMessage(Message("n", []))
  {
    AcceptedNodeIds("n");
  }

  lemma OpenedStream(r: Resources)
    ensures var log := [Register(0, "n", "", r), Heartbeat(1, "n", [])];
            && ApplyAll(START, OpenedRun(r)) == System(log, map[1 := Open("n", 1, 1)])
            && NodesAfter(log) == map["n" := Entry("", r, 1, map[], 1)]
  {
    var e0, e1, m := Register(0, "n", "", r), Heartbeat(1, "n", []), Message("n", []);
    var call := RegisterCall(0, RegisterRequest("n", "", "", r));
    AcceptedExample(r);
    OpenedLog(r);
    var s := Apply(START, call);
    assert [] + [e0] == [e0] && [e0] + [e1] == [e0, e1];
    assert s == System([e0], map[]);
    assert OpenedRun(r) == [call] + ([First(1, m), Capture(1), FirstUpdate(1, 1), Ack(1, true)] + []);
    ApplyAllCons(START, call, [First(1, m), Capture(1), FirstUpdate(1, 1), Ack(1, true)] + []);
    OpeningMoves(s, 1, m, 1, true, []);
  }

  lemma OpenedLog(r: Resources)
    ensures var e0, e1 := Register(0, "n", "", r), Heartbeat(1, "n", []);
            && NodesAfter([e0]) == map["n" := Entry("", r, 0, map[], 1)]
            && NodesAfter([e0, e1]) == map["n" := Entry("", r, 1, map[], 1)]
  {
    var e0, e1 := Register(0, "n", "", r), Heartbeat(1, "n", []);
    NodesAfterSnoc([], e0);
    NodesAfterSnoc([e0], e1);
    assert [] + [e0] == [e0] && [e0] + [e1] == [e0, e1];
  }

  // A run in which the fence fails: the node goes stale and is removed, comes back with ID 1 again,
  // and the close of the old stream then removes the new registration.
  function OldStreamRun(r: Resources): seq<Move> {
    [RegisterCall(0, RegisterRequest("n", "", "", r)),
     First(1, Message("n", [])), Capture(1), FirstUpdate(1, 1), Ack(1, true),
     Cleanup(40 * SECOND, 30 * SECOND),
     RegisterCall(41 * SECOND, RegisterRequest("n", "", "", r))]
  }

  lemma OldStreamRemovesNewRegistration(r: Resources)
    ensures var s := ApplyAll(START, OldStreamRun(r));
            && StreamOf(s, 1) == Open("n", 1, 1)
            && RegisterCount(s.log[1..], "n") == 1
            && CloseRemoves(s, 1, 42 * SECOND)
  {
    var vs := OldStreamRun(r);
    OpenedStream(r);
    AcceptedExample(r);
    assert vs[..5] == OpenedRun(r);
    assert vs[..6] == vs[..5] + [vs[5]] && vs == vs[..6] + [vs[6]];
    ApplyAllSnoc(START, vs[..5], vs[5]);
    ApplyAllSnoc(START, vs[..6], vs[6]);
    var log := [Register(0, "n", "", r), Heartbeat(1, "n", []), Tick(40 * SECOND, 30 * SECOND),
                Register(41 * SECOND, "n", "", r)];
    assert ApplyAll(START, vs) == System(log, map[1 := Open("n", 1, 1)]);
    OldStreamLog(r);
    CloseOutcome(ApplyAll(START, vs), 1, 42 * SECOND);
  }

  lemma OldStreamLog(r: Resources)
    ensures var log := [Register(0, "n", "", r), Heartbeat(1, "n", []),
                        Tick(40 * SECOND, 30 * SECOND), Register(41 * SECOND, "n", "", r)];
            && Matches(NodesAfter(log), "n", 1)
            && RegisterCount(log[1..], "n") == 1
  {
    var e0, e1 := Register(0, "n", "", r), Heartbeat(1, "n", []);
    var e2, e3 := Tick(40 * SECOND, 30 * SECOND), Register(41 * SECOND, "n", "", r);
    NodesAfterSnoc([], e0);
    NodesAfterSnoc([e0], e1);
    NodesAfterSnoc([e0, e1], e2);
    NodesAfterSnoc([e0, e1, e2], e3);
    assert [] + [e0] == [e0] && [e0] + [e1] == [e0, e1] && [e0, e1] + [e2] == [e0, e1, e2];
    assert [e0, e1, e2] + [e3] == [e0, e1, e2, e3];
    assert NodesAfter([e0]) == map["n" := Entry("", r, 0, map[], 1)];
    assert NodesAfter([e0, e1]) == map["n" := Entry("", r, 1, map[], 1)];
    assert NodesAfter([e0, e1, e2]) == map[];
    var l := [e0, e1, e2, e3][1..];
    assert l == [e1, e2] + [e3] && [e1, e2] == [e1] + [e2] && [e1] == [] + [e1];
    RegisterCountSnoc([e1, e2], e3, "n");
    RegisterCountSnoc([e1], e2, "n");
    RegisterCountSnoc([], e1, "n");
  }

  // ----- bounds on everything that came through the handlers -----

  predicate Checked(e: Event) {
    && (e.Register? ==> ValidNodeId(e.id))
    && (e.Heartbeat? ==> |e.tasks| <= MAX_TASKS_PER_HEARTBEAT)
  }

  lemma {:induction false} LogIsChecked(vs: seq<Move>)
    ensures forall i | 0 <= i < |ApplyAll(START, vs).log| :: Checked(ApplyAll(START, vs).log[i])
    ensures forall sid | sid in ApplyAll(START, vs).streams :: FirstIsChecked(ApplyAll(START, vs).streams[sid])
  {
    if vs == [] {
    } else {
      var s := ApplyAll(START, vs[..|vs| - 1]);
      LogIsChecked(vs[..|vs| - 1]);
      CheckedStep(s, vs[|vs| - 1]);
    }
  }

  predicate FirstIsChecked(st: Stream) {
    st.Received? || st.Captured? ==> |st.first.tasks| <= MAX_TASKS_PER_HEARTBEAT
  }

  lemma CheckedStep(s: System, v: Move)
    requires forall i | 0 <= i < |s.log| :: Checked(s.log[i])
    requires forall sid | sid in s.streams :: FirstIsChecked(s.streams[sid])
    ensures forall i | 0 <= i < |Apply(s, v).log| :: Checked(Apply(s, v).log[i])
    ensures forall sid | sid in Apply(s, v).streams :: FirstIsChecked(Apply(s, v).streams[sid])
  {
    if v.RegisterCall? {
      AcceptedNodeIds(v.request.nodeId);
    }
  }

  predicate Bounded(nodes: Nodes) {
    forall id | id in nodes :: ValidNodeId(id) && |nodes[id].tasks| <= MAX_TASKS_PER_HEARTBEAT
  }

  lemma BoundedStep(nodes: Nodes, e: Event)
    requires Bounded(nodes) && Checked(e)
    ensures Bounded(StepNodes(nodes, e))
  {
    if e.Heartbeat? {
      TaskViewIsLastWins(e.tasks);
    }
  }

  lemma {:induction false} TotalTasksBound(nodes: Nodes)
    requires Bounded(nodes)
    ensures TotalTasks(nodes) <= MAX_TASKS_PER_HEARTBEAT * |nodes|
    decreases |nodes|
  {
    if nodes == map[] {
    } else {
      var id: string :| id in nodes;
      TotalTasksSplit(nodes, id);
      ShrinkSize(nodes, nodes - {id});
      assert nodes.Keys - (nodes - {id}).Keys == {id};
      TotalTasksBound(nodes - {id});
    }
  }

  lemma GaugeBoundStep(m: Metrics, nodes: Nodes, e: Event)
    requires Bounded(nodes) && Checked(e)
    requires m.tasksRunning <= MAX_TASKS_PER_HEARTBEAT * |nodes|
    ensures var after := StepNodes(nodes, e);
            StepMetrics(m, nodes, after, e).tasksRunning <= MAX_TASKS_PER_HEARTBEAT * |after|
  {
    var after := StepNodes(nodes, e);
    BoundedStep(nodes, e);
    TotalTasksBound(after);
    if e.Register? {
      GrowSize(nodes, e);
    } else if e.Tick? {
      ShrinkSize(nodes, after);
    }
  }

  lemma {:induction false} CheckedLogIsBounded(log: seq<Event>)
    requires forall i | 0 <= i < |log| :: Checked(log[i])
    ensures Bounded(NodesAfter(log))
    ensures Run(log).metrics.tasksRunning <= MAX_TASKS_PER_HEARTBEAT * |NodesAfter(log)|
  {
    if log == [] {
    } else {
      var log' := log[..|log| - 1];
      CheckedLogIsBounded(log');
      RunNodes(log');
      BoundedStep(NodesAfter(log'), log[|log| - 1]);
      GaugeBoundStep(Run(log').metrics, NodesAfter(log'), log[|log| - 1]);
    }
  }

  // In every state reachable through the handlers: IDs are safe and short, no node holds more than
  // 10,000 tasks, and TasksRunning is at most 10,000 times the number of nodes, drift included.
  lemma HandlersKeepBounds(vs: seq<Move>)
    ensures var log := ApplyAll(START, vs).log;
            && (forall id | id in NodesAfter(log) ::
                  && |NodesAfter(log)[id].tasks| <= 10_000
                  && 1 <= |id| <= 255
                  && ('a' <= id[0] <= 'z' || 'A' <= id[0] <= 'Z' || '0' <= id[0] <= '9')
                  && forall i | 0 < i < |id| ::
                       'a' <= id[i] <= 'z' || 'A' <= id[i] <= 'Z' || '0' <= id[i] <= '9' || id[i] in "-_.")
            && Run(log).metrics.tasksRunning <= 10_000 * |NodesAfter(log)|
  {
    var log := ApplyAll(START, vs).log;
    LogIsChecked(vs);
    CheckedLogIsBounded(log);
    forall id | id in NodesAfter(log)
      ensures ValidateNodeID(id).None?
    {
      AcceptedNodeIds(id);
    }
    forall id | ValidateNodeID(id).None?
      ensures 1 <= |id| <= 255
      ensures 'a' <= id[0] <= 'z' || 'A' <= id[0] <= 'Z' || '0' <= id[0] <= '9'
      ensures forall i | 0 < i < |id| ::
                'a' <= id[i] <= 'z' || 'A' <= id[i] <= 'Z' || '0' <= id[i] <= '9' || id[i] in "-_."
    {
      AcceptedNodeIds(id);
    }
  }

  // ----- one handler, uninterrupted -----

  datatype Recv = Msg(message: Message, now: int) | Eof(now: int) | Broken(now: int)

  // The lock regions of the receive loop after the first message, and whether it has returned.
  function LoopEvents(nodeId: string, connectionId: nat, rs: seq<Recv>): seq<Event> {
    if rs == [] then []
    else
      match rs[0]
      case Msg(m, now) =>
        if AcceptsMessage(m)
        then [Heartbeat(now, m.nodeId, m.tasks)] + LoopEvents(nodeId, connectionId, rs[1..])
        else []
      case Eof(now) => [RemoveIf(now, nodeId, connectionId)]
      case Broken(now) => [RemoveIf(now, nodeId, connectionId)]
  }

  // The lock regions of a whole handler that starts on these nodes and is not interleaved with anything.
  function HandlerEvents(nodes: Nodes, rs: seq<Recv>, acked: bool): seq<Event> {
    if rs == [] || !rs[0].Msg? || !AcceptsMessage(rs[0].message) then []
    else
      var m := rs[0].message;
      [Heartbeat(rs[0].now, m.nodeId, m.tasks)] +
      if acked then LoopEvents(m.nodeId, ConnectionId(nodes, m.nodeId), rs[1..]) else []
  }

  function LoopMoves(sid: nat, rs: seq<Recv>): seq<Move> {
    seq(|rs|, i requires 0 <= i < |rs| =>
      match rs[i]
      case Msg(m, now) => Receive(sid, now, m)
      case Eof(now) => End(sid, now)
      case Broken(now) => End(sid, now))
  }

  lemma {:induction false} ApplyAllCons(s: System, v: Move, vs: seq<Move>)
    ensures ApplyAll(s, [v] + vs) == ApplyAll(Apply(s, v), vs)
  {
    if vs == [] {
      assert [v] + vs == [v];
    } else {
      var vs' := vs[..|vs| - 1];
      ApplyAllCons(s, v, vs');
      assert ([v] + vs)[..|[v] + vs| - 1] == [v] + vs';
    }
  }

  lemma {:induction false} ClosedStreamIsSilent(s: System, sid: nat, rs: seq<Recv>)
    requires sid in s.streams && s.streams[sid].Closed?
    ensures ApplyAll(s, LoopMoves(sid, rs)) == s
  {
    if rs == [] {
    } else {
      var vs := LoopMoves(sid, rs);
      assert vs[..|vs| - 1] == LoopMoves(sid, rs[..|rs| - 1]);
      ClosedStreamIsSilent(s, sid, rs[..|rs| - 1]);
    }
  }

  lemma {:induction false} LoopFollowsMachine(s: System, sid: nat, rs: seq<Recv>)
    requires StreamOf(s, sid).Open?
    ensures var st := StreamOf(s, sid);
            ApplyAll(s, LoopMoves(sid, rs)).log == s.log + LoopEvents(st.nodeId, st.connectionId, rs)
    decreases rs
  {
    var st := StreamOf(s, sid);
    if rs == [] {
    } else {
      var v := LoopMoves(sid, rs)[0];
      var s' := Apply(s, v);
      assert LoopMoves(sid, rs) == [v] + LoopMoves(sid, rs[1..]);
      ApplyAllCons(s, v, LoopMoves(sid, rs[1..]));
      if v.Receive? && AcceptsMessage(v.message) {
        LoopFollowsMachine(s', sid, rs[1..]);
        assert LoopEvents(st.nodeId, st.connectionId, rs) ==
               [Heartbeat(v.now, v.message.nodeId, v.message.tasks)] +
               LoopEvents(st.nodeId, st.connectionId, rs[1..]);
      } else {
        ClosedStreamIsSilent(s', sid, rs[1..]);
      }
    }
  }

  function HandlerMoves(sid: nat, rs: seq<Recv>, acked: bool): seq<Move>
    requires rs != [] && rs[0].Msg?
  {
    [First(sid, rs[0].message), Capture(sid), FirstUpdate(sid, rs[0].now), Ack(sid, acked)] + LoopMoves(sid, rs[1..])
  }

  // The four moves before the receive loop.
  function Opening(s: System, sid: nat, m: Message, now: int, acked: bool): System {
    Apply(Apply(Apply(Apply(s, First(sid, m)), Capture(sid)), FirstUpdate(sid, now)), Ack(sid, acked))
  }

  lemma OpeningOutcome(s: System, sid: nat, m: Message, now: int, acked: bool)
    requires sid !in s.streams
    ensures var t := Opening(s, sid, m, now, acked);
            && t.log == s.log + (if AcceptsMessage(m) then [Heartbeat(now, m.nodeId, m.tasks)] else [])
            && sid in t.streams
            && t.streams[sid] == if AcceptsMessage(m) && acked
                                 then Open(m.nodeId, ConnectionId(NodesAfter(s.log), m.nodeId), |s.log|)
                                 else Closed
  {
  }

  lemma OpeningMoves(s: System, sid: nat, m: Message, now: int, acked: bool, vs: seq<Move>)
    ensures ApplyAll(s, [First(sid, m), Capture(sid), FirstUpdate(sid, now), Ack(sid, acked)] + vs) ==
            ApplyAll(Opening(s, sid, m, now, acked), vs)
  {
    var v0, v1, v2, v3 := First(sid, m), Capture(sid), FirstUpdate(sid, now), Ack(sid, acked);
    assert [v0, v1, v2, v3] + vs == [v0] + ([v1] + ([v2] + ([v3] + vs)));
    ApplyAllCons(s, v0, [v1] + ([v2] + ([v3] + vs)));
    ApplyAllCons(Apply(s, v0), v1, [v2] + ([v3] + vs));
    ApplyAllCons(Apply(Apply(s, v0), v1), v2, [v3] + vs);
    ApplyAllCons(Apply(Apply(Apply(s, v0), v1), v2), v3, vs);
  }

  // Run without interruption, the stream machine goes through exactly the lock regions of the handler.
  lemma HandlerFollowsMachine(s: System, sid: nat, rs: seq<Recv>, acked: bool)
    requires sid !in s.streams && rs != [] && rs[0].Msg?
    ensures ApplyAll(s, HandlerMoves(sid, rs, acked)).log == s.log + HandlerEvents(NodesAfter(s.log), rs, acked)
  {
    var m, now := rs[0].message, rs[0].now;
    var t := Opening(s, sid, m, now, acked);
    OpeningMoves(s, sid, m, now, acked, LoopMoves(sid, rs[1..]));
    OpeningOutcome(s, sid, m, now, acked);
    if t.streams[sid].Open? {
      LoopFollowsMachine(t, sid, rs[1..]);
    } else {
      ClosedStreamIsSilent(t, sid, rs[1..]);
    }
  }
}
