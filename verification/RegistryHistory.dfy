/** What the stored fields of the registry mean in terms of the history of lock regions that led to them. */
module RegistryHistory {
  import opened MachineIntegers
  import opened Options
  import opened RegistrySpec

  // ----- a node on its own: the registry is a product of one-node machines -----

  function Lookup(nodes: Nodes, id: string): Option<Entry> {
    if id in nodes then Some(nodes[id]) else None
  }

  // Cleanup ticks concern every node, every other event concerns the node it names.
  predicate Concerns(e: Event, id: string) {
    e.Tick? || e.id == id
  }

  function Project(es: seq<Event>, id: string): seq<Event> {
    if es == [] then []
    else
      var e := es[|es| - 1];
      Project(es[..|es| - 1], id) + if Concerns(e, id) then [e] else []
  }

  // One node, no map and no gauges.
  function NodeStep(o: Option<Entry>, e: Event): Option<Entry> {
    match e
    case Register(now, _, address, resources) =>
      Some(Entry(address, resources, now, map[], if o.Some? then (o.value.connectionId + 1) % UINT64_RANGE else 1))
    case Heartbeat(now, _, tasks) =>
      if o.Some? then Some(o.value.(lastBeat := now, tasks := TaskView(tasks))) else None
    case Remove(_, _) => None
    case RemoveIf(_, _, connectionId) =>
      if o.Some? && o.value.connectionId == connectionId then None else o
    case Tick(now, threshold) =>
      if o.Some? && now - o.value.lastBeat > threshold then None else o
  }

  function Replay(es: seq<Event>): Option<Entry> {
    if es == [] then None else NodeStep(Replay(es[..|es| - 1]), es[|es| - 1])
  }

  lemma ReplaySnoc(es: seq<Event>, e: Event)
    ensures Replay(es + [e]) == NodeStep(Replay(es), e)
  {
    assert (es + [e])[..|es + [e]| - 1] == es;
  }

  lemma LookupStep(nodes: Nodes, e: Event, id: string)
    ensures Lookup(StepNodes(nodes, e), id) ==
            if Concerns(e, id) then NodeStep(Lookup(nodes, id), e) else Lookup(nodes, id)
  {
  }

  // After any run, a node's entry is what replaying its own events and the ticks alone gives.
  lemma {:induction false} EntryIsProjection(es: seq<Event>, id: string)
    ensures Lookup(NodesAfter(es), id) == Replay(Project(es, id))
  {
    if es == [] {
    } else {
      var es', e := es[..|es| - 1], es[|es| - 1];
      EntryIsProjection(es', id);
      LookupStep(NodesAfter(es'), e, id);
      if Concerns(e, id) {
        ReplaySnoc(Project(es', id), e);
      } else {
        assert Project(es, id) == Project(es', id);
      }
    }
  }

  // Operations on different nodes commute on the map.
  lemma DifferentNodesCommute(nodes: Nodes, e: Event, f: Event)
    requires !e.Tick? && !f.Tick? && e.id != f.id
    ensures StepNodes(StepNodes(nodes, e), f) == StepNodes(StepNodes(nodes, f), e)
  {
    var a, b := StepNodes(StepNodes(nodes, e), f), StepNodes(StepNodes(nodes, f), e);
    forall id: string
      ensures Lookup(a, id) == Lookup(b, id)
    {
      LookupStep(nodes, e, id);
      LookupStep(nodes, f, id);
      LookupStep(StepNodes(nodes, e), f, id);
      LookupStep(StepNodes(nodes, f), e, id);
    }
    SameLookupsSameMap(a, b);
  }

  lemma SameLookupsSameMap(a: Nodes, b: Nodes)
    requires forall id :: Lookup(a, id) == Lookup(b, id)
    ensures a == b
  {
    forall id: string
      ensures id in a <==> id in b
      ensures id in a ==> a[id] == b[id]
    {
      assert Lookup(a, id) == Lookup(b, id);
    }
  }

  // ----- connection IDs -----

  predicate IsRegister(e: Event, id: string) {
    e.Register? && e.id == id
  }

  function RegisterCount(es: seq<Event>, id: string): nat {
    if es == [] then 0
    else RegisterCount(es[..|es| - 1], id) + if IsRegister(es[|es| - 1], id) then 1 else 0
  }

  lemma RegisterCountSnoc(es: seq<Event>, e: Event, id: string)
    ensures RegisterCount(es + [e], id) == RegisterCount(es, id) + if IsRegister(e, id) then 1 else 0
  {
    assert (es + [e])[..|es + [e]| - 1] == es;
  }

  // The length of the history up to and including the last time `id` left the map, by any kind of removal.
  ghost function LastRemoval(es: seq<Event>, id: string): (n: nat)
    ensures n <= |es|
  {
    if es == [] then 0
    else
      var es' := es[..|es| - 1];
      if id in NodesAfter(es') && id !in NodesAfter(es) then |es| else LastRemoval(es', id)
  }

  lemma SuffixSnoc(es: seq<Event>, i: nat)
    requires i < |es|
    ensures es[i..] == es[..|es| - 1][i..] + [es[|es| - 1]]
    ensures es[i..][..|es[i..]| - 1] == es[..|es| - 1][i..]
  {
  }

  lemma RegisterCountSuffix(es: seq<Event>, i: nat, id: string)
    requires i < |es|
    ensures RegisterCount(es[i..], id) ==
            RegisterCount(es[..|es| - 1][i..], id) + if IsRegister(es[|es| - 1], id) then 1 else 0
  {
    SuffixSnoc(es, i);
  }

  // The stored ID is the number of registrations since the node's last removal, as a uint64,
  // and the node is present exactly when that number is not zero.
  lemma {:induction false} ConnectionIdCountsRegisters(es: seq<Event>, id: string)
    ensures var n := RegisterCount(es[LastRemoval(es, id)..], id);
            && (id in NodesAfter(es) <==> n > 0)
            && ConnectionId(NodesAfter(es), id) == n % 0x1_0000_0000_0000_0000
  {
    if es == [] {
    } else {
      var es', e := es[..|es| - 1], es[|es| - 1];
      ConnectionIdCountsRegisters(es', id);
      LookupStep(NodesAfter(es'), e, id);
      var n := RegisterCount(es'[LastRemoval(es', id)..], id);
      CountedStep(Lookup(NodesAfter(es'), id), e, n, id);
      if LastRemoval(es, id) < |es| {
        RegisterCountSuffix(es, LastRemoval(es, id), id);
      }
    }
  }

  function IdOf(o: Option<Entry>): nat {
    if o.Some? then o.value.connectionId else 0
  }

  // One step of one node, when `n` registrations have been counted.
  lemma CountedStep(o: Option<Entry>, e: Event, n: nat, id: string)
    requires o.Some? <==> n > 0
    requires IdOf(o) == n % UINT64_RANGE
    ensures IsRegister(e, id) ==>
              NodeStep(o, e).Some? && NodeStep(o, e).value.connectionId == (n + 1) % UINT64_RANGE
    ensures !e.Register? && NodeStep(o, e).Some? ==>
              o.Some? && NodeStep(o, e).value.connectionId == n % UINT64_RANGE
  {
  }

  // Hence, below 2^64 registrations, ID 0 means absent and nothing else.
  lemma ZeroMeansAbsent(es: seq<Event>, id: string)
    requires RegisterCount(es[LastRemoval(es, id)..], id) < 0x1_0000_0000_0000_0000
    ensures ConnectionId(NodesAfter(es), id) == 0 <==> id !in NodesAfter(es)
  {
    ConnectionIdCountsRegisters(es, id);
    SmallMod(RegisterCount(es[LastRemoval(es, id)..], id));
  }

  lemma SmallMod(n: nat)
    requires n < UINT64_RANGE
    ensures n % UINT64_RANGE == n
  {
  }

  // Without a Register an absent node stays absent: no heartbeat, tick or removal brings it back.
  lemma {:induction false} OnlyRegisterAdmits(es: seq<Event>, i: nat, id: string)
    requires i <= |es| && id !in NodesAfter(es[..i])
    requires RegisterCount(es[i..], id) == 0
    ensures id !in NodesAfter(es)
  {
    if i == |es| {
      assert es[..i] == es;
    } else {
      var es' := es[..|es| - 1];
      assert es'[..i] == es[..i];
      RegisterCountSuffix(es, i, id);
      OnlyRegisterAdmits(es', i, id);
      LookupStep(NodesAfter(es'), es[|es| - 1], id);
    }
  }

  // `id` is in the map after every prefix of length i or more.
  ghost predicate PresentSince(es: seq<Event>, i: nat, id: string) {
    forall k | i <= k <= |es| :: id in NodesAfter(es[..k])
  }

  lemma PresentSincePrefix(es: seq<Event>, i: nat, id: string)
    requires es != []
    requires PresentSince(es, i, id)
    ensures PresentSince(es[..|es| - 1], i, id)
  {
    var es' := es[..|es| - 1];
    forall k | i <= k <= |es'|
      ensures id in NodesAfter(es'[..k])
    {
      assert es'[..k] == es[..k];
    }
  }

  // The ID of a node that is present before and after one more event.
  lemma IdWhilePresent(es: seq<Event>, id: string)
    requires es != []
    requires id in NodesAfter(es[..|es| - 1]) && id in NodesAfter(es)
    ensures var c := ConnectionId(NodesAfter(es[..|es| - 1]), id);
            ConnectionId(NodesAfter(es), id) ==
            if IsRegister(es[|es| - 1], id) then (c + 1) % UINT64_RANGE else c
  {
    IdStep(NodesAfter(es[..|es| - 1]), es[|es| - 1], id);
  }

  lemma IdStep(nodes: Nodes, e: Event, id: string)
    requires id in nodes && id in StepNodes(nodes, e)
    ensures StepNodes(nodes, e)[id].connectionId ==
            if IsRegister(e, id) then (nodes[id].connectionId + 1) % UINT64_RANGE else nodes[id].connectionId
  {
  }

  // While a node stays present its ID advances by exactly one per Register.
  lemma {:induction false} ConnectionIdOverInterval(es: seq<Event>, i: nat, id: string)
    requires i <= |es| && PresentSince(es, i, id)
    ensures ConnectionId(NodesAfter(es), id) % 0x1_0000_0000_0000_0000 ==
            (ConnectionId(NodesAfter(es[..i]), id) + RegisterCount(es[i..], id)) % 0x1_0000_0000_0000_0000
  {
    if i == |es| {
      assert es[..i] == es;
    } else {
      var es' := es[..|es| - 1];
      PresentSincePrefix(es, i, id);
      ConnectionIdOverInterval(es', i, id);
      RegisterCountSuffix(es, i, id);
      assert es'[..i] == es[..i] && es[..|es|] == es;
      IdWhilePresent(es, id);
      ModSucc(ConnectionId(NodesAfter(es'), id),
              ConnectionId(NodesAfter(es[..i]), id) + RegisterCount(es'[i..], id));
    }
  }

  lemma ModSucc(a: nat, b: nat)
    requires a % UINT64_RANGE == b % UINT64_RANGE
    ensures ((a + 1) % UINT64_RANGE) % UINT64_RANGE == (b + 1) % UINT64_RANGE
  {
  }

  lemma ConnectionIdInRange(es: seq<Event>, id: string)
    ensures ConnectionId(NodesAfter(es), id) < 0x1_0000_0000_0000_0000
  {
    ConnectionIdCountsRegisters(es, id);
  }

  // ----- task maps and last beats -----

  // The statuses in the latest heartbeat that names `id`, forgotten by a Register of `id`.
  function LatestReport(es: seq<Event>, id: string): seq<TaskStatus> {
    if es == [] then []
    else
      var e := es[|es| - 1];
      if IsRegister(e, id) then []
      else if e.Heartbeat? && e.id == id then e.tasks
      else LatestReport(es[..|es| - 1], id)
  }

  lemma {:induction false} TasksAreLatestReport(es: seq<Event>, id: string)
    requires id in NodesAfter(es)
    ensures IsLastWins(NodesAfter(es)[id].tasks, LatestReport(es, id))
    ensures forall k | k in NodesAfter(es)[id].tasks :: NodesAfter(es)[id].tasks[k].taskId == k
  {
    var es', e := es[..|es| - 1], es[|es| - 1];
    LookupStep(NodesAfter(es'), e, id);
    if IsRegister(e, id) {
    } else if e.Heartbeat? && e.id == id {
      TaskViewIsLastWins(e.tasks);
    } else {
      TasksAreLatestReport(es', id);
      assert NodesAfter(es)[id] == NodesAfter(es')[id];
    }
  }

  predicate Refreshes(e: Event, id: string) {
    (e.Register? || e.Heartbeat?) && e.id == id
  }

  // The instant of the last Register or Heartbeat naming `id`.
  function LastRefresh(es: seq<Event>, id: string): Option<int> {
    if es == [] then None
    else if Refreshes(es[|es| - 1], id) then Some(es[|es| - 1].now)
    else LastRefresh(es[..|es| - 1], id)
  }

  lemma {:induction false} LastBeatIsLastRefresh(es: seq<Event>, id: string)
    requires id in NodesAfter(es)
    ensures LastRefresh(es, id) == Some(NodesAfter(es)[id].lastBeat)
  {
    var es', e := es[..|es| - 1], es[|es| - 1];
    LookupStep(NodesAfter(es'), e, id);
    if !Refreshes(e, id) {
      LastBeatIsLastRefresh(es', id);
    }
  }

  // ----- gauges and counters -----

  // Did the last lock region recompute TasksRunning? Register never does.
  predicate Recomputes(es: seq<Event>)
    requires es != []
  {
    var e := es[|es| - 1];
    e.Heartbeat? || e.Remove? || (!e.Register? && NodesAfter(es) != NodesAfter(es[..|es| - 1]))
  }

  // Tasks thrown away by re-registrations since the last recompute.
  function Discarded(es: seq<Event>): nat {
    if es == [] then 0
    else if Recomputes(es) then 0
    else
      var e, before := es[|es| - 1], NodesAfter(es[..|es| - 1]);
      Discarded(es[..|es| - 1]) + if e.Register? && e.id in before then |before[e.id].tasks| else 0
  }

  lemma {:induction false} TaskGaugeDrift(es: seq<Event>)
    ensures Run(es).metrics.tasksRunning == TotalTasks(NodesAfter(es)) + Discarded(es)
  {
    if es == [] {
    } else {
      var es', e := es[..|es| - 1], es[|es| - 1];
      TaskGaugeDrift(es');
      RunNodes(es');
      TaskGaugeStep(Run(es').metrics, NodesAfter(es'), e, Discarded(es'));
    }
  }

  function NextDrift(nodes: Nodes, e: Event, drift: nat): nat {
    if e.Register? then drift + (if e.id in nodes then |nodes[e.id].tasks| else 0)
    else if e.Heartbeat? || e.Remove? || StepNodes(nodes, e) != nodes then 0
    else drift
  }

  lemma TaskGaugeStep(m: Metrics, nodes: Nodes, e: Event, drift: nat)
    requires m.tasksRunning == TotalTasks(nodes) + drift
    ensures var after := StepNodes(nodes, e);
            StepMetrics(m, nodes, after, e).tasksRunning == TotalTasks(after) + NextDrift(nodes, e, drift)
  {
    match e
    case Register(now, id, address, resources) =>
      TotalTasksUpdate(nodes, id, Entry(address, resources, now, map[], NextConnectionId(nodes, id)));
    case Tick(now, threshold) =>
      TickRemovesIffChanged(nodes, now, threshold);
    case RemoveIf(_, id, connectionId) =>
      RemoveIfRemovesIffChanged(nodes, id, connectionId);
    case _ =>
  }

  lemma TickRemovesIffChanged(nodes: Nodes, now: int, threshold: int)
    ensures Gone(nodes, Kept(nodes, now, threshold)) > 0 <==> Kept(nodes, now, threshold) != nodes
  {
    var kept := Kept(nodes, now, threshold);
    if nodes.Keys - kept.Keys == {} {
      assert kept.Keys == nodes.Keys;
    }
  }

  lemma RemoveIfRemovesIffChanged(nodes: Nodes, id: string, connectionId: nat)
    ensures Matches(nodes, id, connectionId) <==>
            (if Matches(nodes, id, connectionId) then nodes - {id} else nodes) != nodes
  {
    assert id !in nodes - {id};
  }

  // So the gauge never under-reports, and is exact when the last lock region recomputed it.
  lemma TaskGaugeNeverLow(es: seq<Event>)
    ensures Run(es).metrics.tasksRunning >= TotalTasks(NodesAfter(es))
    ensures es != [] && Recomputes(es) ==> Run(es).metrics.tasksRunning == TotalTasks(NodesAfter(es))
  {
    TaskGaugeDrift(es);
  }

  // It can be above it: a node with one task registers again, and its task goes on being counted.
  lemma TaskGaugeCanDrift(task: TaskStatus, resources: Resources)
    ensures var es := [Register(0, "n", "", resources), Heartbeat(1, "n", [task]), Register(2, "n", "", resources)];
            Run(es).metrics.tasksRunning == 1 && TotalTasks(NodesAfter(es)) == 0
  {
    var e0, e1, e2 := Register(0, "n", "", resources), Heartbeat(1, "n", [task]), Register(2, "n", "", resources);
    NodesAfterSnoc([], e0);
    NodesAfterSnoc([e0], e1);
    NodesAfterSnoc([e0, e1], e2);
    assert [] + [e0] == [e0] && [e0] + [e1] == [e0, e1] && [e0, e1] + [e2] == [e0, e1, e2];
    assert [task][..|[task]| - 1] == [];
    assert TaskView([task]) == TaskView([])[task.taskId := task];
    assert NodesAfter([e0, e1])["n"].tasks == map[task.taskId := task];
    var after := NodesAfter([e0, e1, e2]);
    TotalTasksSplit(after, "n");
    assert after - {"n"} == map[];
    assert [e0, e1, e2][..2] == [e0, e1];
    TaskGaugeDrift([e0, e1, e2]);
  }

  // Where every registration ever made has gone.
  datatype Ledger = Ledger(registers: nat, again: nat, heartbeats: nat, stale: nat, stream: nat, explicitly: nat)

  function LedgerStep(l: Ledger, before: Nodes, after: Nodes, e: Event): Ledger {
    match e
    case Register(_, id, _, _) =>
      l.(registers := l.registers + 1, again := l.again + if id in before then 1 else 0)
    case Heartbeat(_, _, _) => l.(heartbeats := l.heartbeats + 1)
    case Remove(_, _) => l.(explicitly := l.explicitly + Gone(before, after))
    case RemoveIf(_, _, _) => l.(stream := l.stream + Gone(before, after))
    case Tick(_, _) => l.(stale := l.stale + Gone(before, after))
  }

  function LedgerOf(es: seq<Event>): Ledger {
    if es == [] then Ledger(0, 0, 0, 0, 0, 0)
    else
      var es', e := es[..|es| - 1], es[|es| - 1];
      LedgerStep(LedgerOf(es'), NodesAfter(es'), NodesAfter(es), e)
  }

  ghost predicate Balanced(m: Metrics, nodes: Nodes, l: Ledger) {
    && m.registrationsTotal == l.registers
    && m.heartbeatsTotal == l.heartbeats
    && m.staleNodesRemoved == l.stale
    && m.registeredNodes == |nodes|
    && m.registrationsTotal == |nodes| + l.again + m.staleNodesRemoved + l.stream + l.explicitly
  }

  lemma {:induction false} Conservation(es: seq<Event>)
    ensures Balanced(Run(es).metrics, NodesAfter(es), LedgerOf(es))
  {
    if es == [] {
    } else {
      var es', e := es[..|es| - 1], es[|es| - 1];
      Conservation(es');
      RunNodes(es');
      BalancedStep(Run(es').metrics, NodesAfter(es'), LedgerOf(es'), e);
    }
  }

  lemma BalancedStep(m: Metrics, nodes: Nodes, l: Ledger, e: Event)
    requires Balanced(m, nodes, l)
    ensures var after := StepNodes(nodes, e);
            Balanced(StepMetrics(m, nodes, after, e), after, LedgerStep(l, nodes, after, e))
  {
    var after := StepNodes(nodes, e);
    if e.Register? || e.Heartbeat? {
      GrowSize(nodes, e);
    } else {
      ShrinkSize(nodes, after);
      if e.RemoveIf? && !Matches(nodes, e.id, e.connectionId) {
        assert after == nodes;
      }
    }
  }

  lemma GrowSize(nodes: Nodes, e: Event)
    requires e.Register? || e.Heartbeat?
    ensures |StepNodes(nodes, e)| == |nodes| + if e.Register? && e.id !in nodes then 1 else 0
  {
    var after := StepNodes(nodes, e);
    SizeByKeys(nodes);
    SizeByKeys(after);
    assert after.Keys == if e.Register? then nodes.Keys + {e.id} else nodes.Keys;
  }

  lemma SizeByKeys(nodes: Nodes)
    ensures |nodes| == |nodes.Keys|
  {
  }

  lemma ShrinkSize(nodes: Nodes, after: Nodes)
    requires after.Keys <= nodes.Keys
    ensures |nodes| == |after| + Gone(nodes, after)
  {
    SizeByKeys(nodes);
    SizeByKeys(after);
    assert nodes.Keys == after.Keys + (nodes.Keys - after.Keys);
  }
}
