/** The node registry as a value: what one lock region does to it, and what a run of lock regions leaves.
    The heap version of the same registry is module Registry; it is proved to follow `Step`. */
module RegistrySpec {
  import opened MachineIntegers
  import opened Options

  // Durations and instants are counted in nanoseconds, as time.Duration does.
  const SECOND: int := 1_000_000_000

  datatype TaskStatus = TaskStatus(taskId: string, state: int)

  datatype Cpu = Cpu(cores: nat, model: string)
  datatype Memory = Memory(totalBytes: nat)
  datatype Gpu = Gpu(index: nat, vendor: string)
  datatype Resources = Resources(hostname: string, cpu: Option<Cpu>, memory: Option<Memory>, gpus: seq<Gpu>)

  datatype Entry = Entry(
    address: string,
    resources: Resources,
    lastBeat: int,
    tasks: map<string, TaskStatus>,
    connectionId: nat)

  type Nodes = map<string, Entry>

  datatype Metrics = Metrics(
    registrationsTotal: nat,
    heartbeatsTotal: nat,
    staleNodesRemoved: nat,
    registeredNodes: nat,
    tasksRunning: nat)

  datatype State = State(nodes: Nodes, metrics: Metrics)

  const INIT := State(map[], Metrics(0, 0, 0, 0, 0))

  // One lock region, with the instant at which the lock was held. Remove and RemoveIf read no clock;
  // their instant only places them in the history.
  datatype Event =
    | Register(now: int, id: string, address: string, resources: Resources)
    | Heartbeat(now: int, id: string, tasks: seq<TaskStatus>)
    | Remove(now: int, id: string)
    | RemoveIf(now: int, id: string, connectionId: nat)
    | Tick(now: int, threshold: int)

  // ----- helpers of the step -----

  // The map built by storing the statuses one after the other: a later status replaces an earlier one.
  function TaskView(ts: seq<TaskStatus>): map<string, TaskStatus> {
    if ts == [] then map[]
    else
      var t := ts[|ts| - 1];
      TaskView(ts[..|ts| - 1])[t.taskId := t]
  }

  ghost function TotalTasks(nodes: Nodes): nat
    decreases |nodes|
  {
    if nodes == map[] then 0
    else
      var id :| id in nodes;
      |nodes[id].tasks| + TotalTasks(nodes - {id})
  }

  function ConnectionId(nodes: Nodes, id: string): nat {
    if id in nodes then nodes[id].connectionId else 0
  }

  function NextConnectionId(nodes: Nodes, id: string): nat {
    if id in nodes then (nodes[id].connectionId + 1) % UINT64_RANGE else 1
  }

  function Kept(nodes: Nodes, now: int, threshold: int): Nodes {
    map id | id in nodes && now - nodes[id].lastBeat <= threshold :: nodes[id]
  }

  predicate Matches(nodes: Nodes, id: string, connectionId: nat) {
    id in nodes && nodes[id].connectionId == connectionId
  }

  // ----- the step -----

  function StepNodes(nodes: Nodes, e: Event): Nodes {
    match e
    case Register(now, id, address, resources) =>
      nodes[id := Entry(address, resources, now, map[], NextConnectionId(nodes, id))]
    case Heartbeat(now, id, tasks) =>
      if id in nodes then nodes[id := nodes[id].(lastBeat := now, tasks := TaskView(tasks))] else nodes
    case Remove(_, id) =>
      nodes - {id}
    case RemoveIf(_, id, connectionId) =>
      if Matches(nodes, id, connectionId) then nodes - {id} else nodes
    case Tick(now, threshold) =>
      Kept(nodes, now, threshold)
  }

  function Gone(before: Nodes, after: Nodes): nat {
    |before.Keys - after.Keys|
  }

  // Both gauges after a removal.
  ghost function Recounted(m: Metrics, after: Nodes): Metrics {
    m.(registeredNodes := |after|, tasksRunning := TotalTasks(after))
  }

  ghost function StepMetrics(m: Metrics, before: Nodes, after: Nodes, e: Event): Metrics {
    match e
    case Register(_, _, _, _) =>
      m.(registrationsTotal := m.registrationsTotal + 1, registeredNodes := |after|)
    case Heartbeat(_, _, _) =>
      m.(heartbeatsTotal := m.heartbeatsTotal + 1, tasksRunning := TotalTasks(after))
    case Remove(_, _) =>
      Recounted(m, after)
    case RemoveIf(_, id, connectionId) =>
      if Matches(before, id, connectionId) then Recounted(m, after) else m
    case Tick(_, _) =>
      var removed := Gone(before, after);
      if removed > 0
      then Recounted(m.(staleNodesRemoved := m.staleNodesRemoved + removed), after)
      else m
  }

  ghost function Step(s: State, e: Event): State {
    var after := StepNodes(s.nodes, e);
    State(after, StepMetrics(s.metrics, s.nodes, after, e))
  }

  ghost function RunFrom(s: State, es: seq<Event>): State {
    if es == [] then s else Step(RunFrom(s, es[..|es| - 1]), es[|es| - 1])
  }

  ghost function Run(es: seq<Event>): State {
    RunFrom(INIT, es)
  }

  // The map alone: the metrics never feed back into it.
  function NodesAfter(es: seq<Event>): Nodes {
    if es == [] then map[] else StepNodes(NodesAfter(es[..|es| - 1]), es[|es| - 1])
  }

  // ----- first facts -----

  lemma RunSnoc(s: State, es: seq<Event>, e: Event)
    ensures RunFrom(s, es + [e]) == Step(RunFrom(s, es), e)
  {
    assert (es + [e])[..|es|] == es;
  }

  // Splitting one node off the sum, whichever node it is.
  lemma {:induction false} TotalTasksSplit(nodes: Nodes, id: string)
    requires id in nodes
    ensures TotalTasks(nodes) == |nodes[id].tasks| + TotalTasks(nodes - {id})
    decreases |nodes|
  {
    var x: string :| x in nodes && TotalTasks(nodes) == |nodes[x].tasks| + TotalTasks(nodes - {x});
    if x != id {
      TotalTasksSplit(nodes - {x}, id);
      TotalTasksSplit(nodes - {id}, x);
      RemovalsCommute(nodes, x, id);
    }
  }

  lemma RemovalsCommute(nodes: Nodes, a: string, b: string)
    ensures nodes - {a} - {b} == nodes - {b} - {a}
  {
  }

  lemma TotalTasksUpdate(nodes: Nodes, id: string, e: Entry)
    ensures TotalTasks(nodes[id := e]) ==
            |e.tasks| + TotalTasks(nodes) - (if id in nodes then |nodes[id].tasks| else 0)
  {
    TotalTasksWith(nodes, id, e);
    if id in nodes {
      TotalTasksSplit(nodes, id);
    } else {
      assert nodes - {id} == nodes;
    }
  }

  lemma TotalTasksWith(nodes: Nodes, id: string, e: Entry)
    ensures TotalTasks(nodes[id := e]) == |e.tasks| + TotalTasks(nodes - {id})
  {
    var with := nodes[id := e];
    TotalTasksSplit(with, id);
    assert with - {id} == nodes - {id};
  }

  lemma {:induction false} RunNodes(es: seq<Event>)
    ensures Run(es).nodes == NodesAfter(es)
  {
    if es == [] {
    } else {
      RunNodes(es[..|es| - 1]);
    }
  }

  // What each lock region leaves, in elementary terms: the entry of the node it names, all other entries, and every
  // counter and gauge.
  lemma RegisterLeaves(s: State, now: int, id: string, address: string, resources: Resources)
    ensures var t := Step(s, Register(now, id, address, resources));
            && id in t.nodes && t.nodes.Keys == s.nodes.Keys + {id}
            && t.nodes[id].address == address && t.nodes[id].resources == resources
            && t.nodes[id].lastBeat == now && t.nodes[id].tasks == map[]
            && t.nodes[id].connectionId ==
               (if id in s.nodes then (s.nodes[id].connectionId + 1) % 0x1_0000_0000_0000_0000 else 1)
            && (forall other | other in s.nodes && other != id :: t.nodes[other] == s.nodes[other])
  {
    var e := Entry(address, resources, now, map[], NextConnectionId(s.nodes, id));
    assert StepNodes(s.nodes, Register(now, id, address, resources)) == s.nodes[id := e];
  }

  lemma RegisterCounts(s: State, now: int, id: string, address: string, resources: Resources)
    ensures var t := Step(s, Register(now, id, address, resources));
            && t.metrics.registrationsTotal == s.metrics.registrationsTotal + 1
            && t.metrics.registeredNodes == |t.nodes|
            && t.metrics.heartbeatsTotal == s.metrics.heartbeatsTotal
            && t.metrics.staleNodesRemoved == s.metrics.staleNodesRemoved
            && t.metrics.tasksRunning == s.metrics.tasksRunning
  {
  }

  lemma HeartbeatLeaves(s: State, now: int, id: string, tasks: seq<TaskStatus>)
    ensures var t := Step(s, Heartbeat(now, id, tasks));
            && t.nodes.Keys == s.nodes.Keys
            && (id in s.nodes ==>
                  && t.nodes[id].address == s.nodes[id].address && t.nodes[id].resources == s.nodes[id].resources
                  && t.nodes[id].connectionId == s.nodes[id].connectionId
                  && t.nodes[id].lastBeat == now && IsLastWins(t.nodes[id].tasks, tasks))
            && (forall other | other in s.nodes && other != id :: t.nodes[other] == s.nodes[other])
            && t.metrics.heartbeatsTotal == s.metrics.heartbeatsTotal + 1
            && t.metrics.tasksRunning == TotalTasks(t.nodes)
            && t.metrics.registrationsTotal == s.metrics.registrationsTotal
            && t.metrics.registeredNodes == s.metrics.registeredNodes
            && t.metrics.staleNodesRemoved == s.metrics.staleNodesRemoved
  {
    TaskViewIsLastWins(tasks);
  }

  lemma RemovalLeaves(s: State, now: int, id: string, connectionId: nat)
    ensures var t := Step(s, Remove(now, id));
            && t.nodes == s.nodes - {id}
            && t.metrics.registeredNodes == |t.nodes| && t.metrics.tasksRunning == TotalTasks(t.nodes)
            && t.metrics.registrationsTotal == s.metrics.registrationsTotal
            && t.metrics.heartbeatsTotal == s.metrics.heartbeatsTotal
            && t.metrics.staleNodesRemoved == s.metrics.staleNodesRemoved
    ensures Step(s, RemoveIf(now, id, connectionId)) ==
            if id in s.nodes && s.nodes[id].connectionId == connectionId then Step(s, Remove(now, id)) else s
  {
  }

  lemma NodesAfterSnoc(es: seq<Event>, e: Event)
    ensures NodesAfter(es + [e]) == StepNodes(NodesAfter(es), e)
  {
    assert (es + [e])[..|es + [e]| - 1] == es;
  }

  // The tick keeps exactly the nodes whose age is at most the threshold, and counts the others.
  lemma TickIsExact(s: State, now: int, threshold: int)
    ensures var s' := Step(s, Tick(now, threshold));
            && (forall id :: id in s'.nodes <==> id in s.nodes && now - s.nodes[id].lastBeat <= threshold)
            && (forall id | id in s'.nodes :: s'.nodes[id] == s.nodes[id])
            && s'.metrics.staleNodesRemoved + |s'.nodes| == s.metrics.staleNodesRemoved + |s.nodes|
            && s'.metrics.registrationsTotal == s.metrics.registrationsTotal
            && s'.metrics.heartbeatsTotal == s.metrics.heartbeatsTotal
            && (if s'.nodes == s.nodes then s'.metrics == s.metrics
                else s'.metrics.registeredNodes == |s'.nodes| && s'.metrics.tasksRunning == TotalTasks(s'.nodes))
  {
    var kept := Kept(s.nodes, now, threshold);
    assert s.nodes.Keys == kept.Keys + (s.nodes.Keys - kept.Keys);
    assert |s.nodes| == |s.nodes.Keys| && |kept| == |kept.Keys|;
    if s.nodes.Keys - kept.Keys == {} {
      assert kept.Keys == s.nodes.Keys;
    }
  }

  // ----- the statuses of one heartbeat -----

  // Position i carries the last status that `ts` gives its task ID.
  ghost predicate LastReport(ts: seq<TaskStatus>, i: int) {
    0 <= i < |ts| && forall j | i < j < |ts| :: ts[j].taskId != ts[i].taskId
  }

  // `m` holds, for each task ID in `ts`, the last status `ts` gives it, and nothing else.
  ghost predicate IsLastWins(m: map<string, TaskStatus>, ts: seq<TaskStatus>) {
    && (forall k | k in m :: exists i :: LastReport(ts, i) && ts[i].taskId == k)
    && (forall i | LastReport(ts, i) :: ts[i].taskId in m && m[ts[i].taskId] == ts[i])
  }

  lemma LastReportSnoc(ts: seq<TaskStatus>, i: int)
    requires ts != []
    ensures LastReport(ts, i) <==>
            i == |ts| - 1 || (LastReport(ts[..|ts| - 1], i) && ts[i].taskId != ts[|ts| - 1].taskId)
  {
  }

  lemma {:induction false} TaskViewIsLastWins(ts: seq<TaskStatus>)
    ensures IsLastWins(TaskView(ts), ts)
    ensures |TaskView(ts)| <= |ts|
  {
    if ts == [] {
    } else {
      var ts' := ts[..|ts| - 1];
      var t := ts[|ts| - 1];
      TaskViewIsLastWins(ts');
      assert TaskView(ts).Keys == TaskView(ts').Keys + {t.taskId};
      forall k | k in TaskView(ts)
        ensures exists i :: LastReport(ts, i) && ts[i].taskId == k
      {
        if k == t.taskId {
          LastReportSnoc(ts, |ts| - 1);
        } else {
          var i :| LastReport(ts', i) && ts'[i].taskId == k;
          LastReportSnoc(ts, i);
        }
      }
      forall i | LastReport(ts, i)
        ensures ts[i].taskId in TaskView(ts) && TaskView(ts)[ts[i].taskId] == ts[i]
      {
        LastReportSnoc(ts, i);
      }
    }
  }

  // The map has a key for each task ID reported, and a status after which its ID does not come again is the one kept.
  lemma LastStatusIsKept(ts: seq<TaskStatus>)
    ensures forall k :: k in TaskView(ts) <==> exists i | 0 <= i < |ts| :: ts[i].taskId == k
    ensures forall i | 0 <= i < |ts| && (forall j | i < j < |ts| :: ts[j].taskId != ts[i].taskId) ::
              ts[i].taskId in TaskView(ts) && TaskView(ts)[ts[i].taskId] == ts[i]
  {
    TaskViewIsLastWins(ts);
    forall i | 0 <= i < |ts|
      ensures ts[i].taskId in TaskView(ts)
    {
      ReportedIsKey(ts, i);
    }
    forall i | 0 <= i < |ts| && forall j | i < j < |ts| :: ts[j].taskId != ts[i].taskId
      ensures LastReport(ts, i)
    {
    }
  }

  lemma {:induction false} ReportedIsKey(ts: seq<TaskStatus>, i: nat)
    requires i < |ts|
    ensures ts[i].taskId in TaskView(ts)
  {
    if i < |ts| - 1 {
      ReportedIsKey(ts[..|ts| - 1], i);
    }
  }

  // Being the last-wins view pins the map down completely: every reported ID is a key.
  lemma LastWinsIsUnique(m: map<string, TaskStatus>, n: map<string, TaskStatus>, ts: seq<TaskStatus>)
    requires IsLastWins(m, ts) && IsLastWins(n, ts)
    ensures m == n
  {
    forall k | k in m || k in n
      ensures k in m && k in n && m[k] == n[k]
    {
      var i :| LastReport(ts, i) && ts[i].taskId == k;
    }
  }
}
