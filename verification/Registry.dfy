/** The node registry on the heap: NodeInfo objects updated in place, resource messages held by reference,
    and the application metrics. Each method is one lock region and is proved to follow RegistrySpec.Step. */
module Registry {
  import opened MachineIntegers
  import opened Options
  import opened RegistrySpec

  // ----- resource messages -----

  class CpuResources {
    var cores: nat
    var model: string

    constructor (cores: nat, model: string)
      ensures this.cores == cores && this.model == model
    {
      this.cores, this.model := cores, model;
    }

    ghost function Value(): Cpu reads this { Cpu(cores, model) }
  }

  class MemoryResources {
    var totalBytes: nat

    constructor (totalBytes: nat)
      ensures this.totalBytes == totalBytes
    {
      this.totalBytes := totalBytes;
    }

    ghost function Value(): Memory reads this { Memory(totalBytes) }
  }

  class GpuResources {
    var index: nat
    var vendor: string

    constructor (index: nat, vendor: string)
      ensures this.index == index && this.vendor == vendor
    {
      this.index, this.vendor := index, vendor;
    }

    ghost function Value(): Gpu reads this { Gpu(index, vendor) }
  }

  ghost function CpuValue(c: CpuResources?): Option<Cpu> reads c {
    if c == null then None else Some(c.Value())
  }

  ghost function MemoryValue(m: MemoryResources?): Option<Memory> reads m {
    if m == null then None else Some(m.Value())
  }

  ghost function GpuValues(gs: seq<GpuResources>): seq<Gpu> reads gs {
    seq(|gs|, i requires 0 <= i < |gs| reads gs => gs[i].Value())
  }

  ghost function PartsOf(c: CpuResources?, m: MemoryResources?, gs: seq<GpuResources>): set<object> {
    (if c == null then {} else {c as object}) + (if m == null then {} else {m as object}) + set o: object | o in gs
  }

  class NodeResources {
    var hostname: string
    var cpu: CpuResources?
    var memory: MemoryResources?
    var gpus: seq<GpuResources>

    constructor (hostname: string, cpu: CpuResources?, memory: MemoryResources?, gpus: seq<GpuResources>)
      ensures this.hostname == hostname && this.cpu == cpu && this.memory == memory && this.gpus == gpus
    {
      this.hostname, this.cpu, this.memory, this.gpus := hostname, cpu, memory, gpus;
    }

    ghost function Parts(): set<object>
      reads this
    {
      PartsOf(cpu, memory, gpus)
    }

    ghost function Value(): Resources
      reads this, Parts()
    {
      Resources(hostname, CpuValue(cpu), MemoryValue(memory), GpuValues(gpus))
    }

    // A deep copy: nothing reachable from it existed before, and no two of its GPUs are the same object.
    method Clone() returns (c: NodeResources)
      ensures fresh(c) && fresh(c.Parts())
      ensures c.hostname == hostname && SameCpu(c.cpu, cpu) && SameMemory(c.memory, memory) && SameGpus(c.gpus, gpus)
      ensures c.Value() == Value()
      ensures forall i, j | 0 <= i < j < |c.gpus| :: c.gpus[i] != c.gpus[j]
    {
      var cpu': CpuResources? := null;
      if cpu != null {
        cpu' := new CpuResources(cpu.cores, cpu.model);
      }
      var memory': MemoryResources? := null;
      if memory != null {
        memory' := new MemoryResources(memory.totalBytes);
      }
      var gpus' := CloneGpus(gpus);
      c := new NodeResources(hostname, cpu', memory', gpus');
    }
  }

  // Field by field.
  ghost predicate SameCpu(a: CpuResources?, b: CpuResources?)
    reads a, b
  {
    (a == null <==> b == null) && (a != null ==> a.cores == b.cores && a.model == b.model)
  }

  ghost predicate SameMemory(a: MemoryResources?, b: MemoryResources?)
    reads a, b
  {
    (a == null <==> b == null) && (a != null ==> a.totalBytes == b.totalBytes)
  }

  ghost predicate SameGpus(a: seq<GpuResources>, b: seq<GpuResources>)
    reads a, b
  {
    |a| == |b| && forall i | 0 <= i < |a| :: a[i].index == b[i].index && a[i].vendor == b[i].vendor
  }

  method CloneGpus(gs: seq<GpuResources>) returns (out: seq<GpuResources>)
    ensures SameGpus(out, gs) && GpuValues(out) == GpuValues(gs)
    ensures forall g | g in out :: fresh(g)
    ensures forall i, j | 0 <= i < j < |out| :: out[i] != out[j]
  {
    out := [];
    for n := 0 to |gs|
      invariant |out| == n
      invariant forall i | 0 <= i < n :: fresh(out[i]) && out[i].index == gs[i].index && out[i].vendor == gs[i].vendor
      invariant forall i, j | 0 <= i < j < n :: out[i] != out[j]
    {
      var g := new GpuResources(gs[n].index, gs[n].vendor);
      out := out + [g];
    }
  }

  // ----- metrics -----

  class PromMetrics {
    var registrationsTotal: nat
    var heartbeatsTotal: nat
    var staleNodesRemoved: nat
    var registeredNodes: nat
    var tasksRunning: nat

    constructor ()
      ensures Value() == INIT.metrics
    {
      registrationsTotal, heartbeatsTotal, staleNodesRemoved, registeredNodes, tasksRunning := 0, 0, 0, 0, 0;
    }

    ghost function Value(): Metrics
      reads this
    {
      Metrics(registrationsTotal, heartbeatsTotal, staleNodesRemoved, registeredNodes, tasksRunning)
    }
  }

  // ----- nodes -----

  // Register makes a new NodeInfo each time; only LastBeat and Tasks are ever updated in place.
  class NodeInfo {
    const nodeID: string
    const address: string
    const resources: NodeResources
    const connectionID: nat
    ghost const registered: Resources  // what `resources` said when the node registered
    var lastBeat: int
    var tasks: map<string, TaskStatus>

    constructor (nodeID: string, address: string, resources: NodeResources, now: int, connectionID: nat)
      ensures this.nodeID == nodeID && this.address == address && this.resources == resources
      ensures this.connectionID == connectionID && this.lastBeat == now && this.tasks == map[]
      ensures registered == resources.Value()
    {
      this.registered := resources.Value();
      this.nodeID, this.address, this.resources, this.connectionID := nodeID, address, resources, connectionID;
      this.lastBeat, this.tasks := now, map[];
    }

    ghost function Value(): Entry
      reads this
    {
      Entry(address, registered, lastBeat, tasks, connectionID)
    }

    // The same with the resource message as it is now, whoever may have altered it.
    ghost function Current(): Entry
      reads this, resources, resources.Parts()
    {
      Value().(resources := resources.Value())
    }
  }

  // The view of one node that GetAll hands out: plain values and references into a private deep copy.
  datatype NodeSummary = NodeSummary(
    nodeID: string,
    hostname: string,
    address: string,
    lastBeat: int,
    cpu: CpuResources?,
    memory: MemoryResources?,
    gpus: seq<GpuResources>,
    connectionID: nat)
  {
    ghost function Parts(): set<object> {
      PartsOf(cpu, memory, gpus)
    }

    // Does the summary show exactly what this entry holds?
    ghost predicate Shows(e: Entry)
      reads Parts()
    {
      && address == e.address
      && lastBeat == e.lastBeat
      && connectionID == e.connectionId
      && Resources(hostname, CpuValue(cpu), MemoryValue(memory), GpuValues(gpus)) == e.resources
    }
  }

  // `model` is the abstract value of the map `nodes`.
  ghost predicate Reflects(nodes: map<string, NodeInfo>, model: Nodes)
    reads nodes.Values
  {
    && (forall id | id in model :: id in nodes)
    && (forall id | id in nodes :: id in model && nodes[id].nodeID == id && nodes[id].Value() == model[id])
  }

  lemma ReflectsPut(nodes: map<string, NodeInfo>, model: Nodes, info: NodeInfo)
    requires Reflects(nodes, model)
    ensures Reflects(nodes[info.nodeID := info], model[info.nodeID := info.Value()])
  {
  }

  lemma ReflectsDrop(nodes: map<string, NodeInfo>, model: Nodes, id: string)
    requires Reflects(nodes, model)
    ensures Reflects(nodes - {id}, model - {id})
  {
  }

  lemma ReflectsSize(nodes: map<string, NodeInfo>, model: Nodes)
    requires Reflects(nodes, model)
    ensures |model| == |nodes|
  {
    assert model.Keys == nodes.Keys;
    assert |model| == |model.Keys| && |nodes| == |nodes.Keys|;
  }

  // Objects that are no part of any message.
  ghost predicate NoMessage(touched: set<object>) {
    forall o | o in touched :: o is NodeRegistry || o is PromMetrics || o is NodeInfo
  }

  // What writes only to such objects changes no message.
  twostate lemma MessageUntouched(m: NodeResources, new touched: set<object>)
    requires NoMessage(touched)
    requires forall o: object | old(allocated(o)) && o !in touched :: unchanged(o)
    ensures m.Value() == old(m.Value()) && m.Parts() == old(m.Parts())
  {
    assert m !in touched;
    assert m.cpu != null ==> m.cpu !in touched;
    assert m.memory != null ==> m.memory !in touched;
    forall i | 0 <= i < |m.gpus|
      ensures m.gpus[i].Value() == old(m.gpus[i].Value())
    {
      assert m.gpus[i] !in touched;
    }
    assert GpuValues(m.gpus) == old(GpuValues(m.gpus));
  }

  class NodeRegistry {
    var nodes: map<string, NodeInfo>
    const metrics: PromMetrics

    // The abstract value of `nodes`, kept in step by every method.
    ghost var model: Nodes

    ghost predicate Valid()
      reads this, nodes.Values
    {
      Reflects(nodes, model)
    }

    ghost function Model(): State
      reads this, metrics
    {
      State(model, metrics.Value())
    }

    // The objects that the registry consists of; the messages it keeps are not its own.
    ghost function Repr(): set<object>
      reads this
    {
      {this, metrics} + nodes.Values
    }

    lemma ReprIsNoMessage()
      ensures NoMessage(Repr())
    {
    }

    // Every node left is the object it was.
    ghost predicate SameObjects(before: map<string, NodeInfo>)
      reads this
    {
      forall id | id in nodes :: id in before && nodes[id] == before[id]
    }

    // The messages the registry keeps a reference to, and what they consist of.
    ghost function Messages(): set<NodeResources>
      reads this
    {
      set id | id in nodes :: nodes[id].resources
    }

    ghost function MessageParts(): set<object>
      reads this, Messages()
    {
      set m: NodeResources, o: object | m in Messages() && o in m.Parts() :: o
    }

    // Every node with its message as it is now.
    ghost function CurrentNodes(): Nodes
      reads this, nodes.Values, Messages(), MessageParts()
    {
      map id | id in nodes :: CurrentAt(id)
    }

    ghost function CurrentAt(id: string): Entry
      requires id in nodes
      reads this, nodes.Values, Messages(), MessageParts()
    {
      assert nodes[id].resources in Messages();
      nodes[id].Current()
    }

    // Every kept message still says what it said when its node registered.
    ghost predicate Intact()
      reads this, Messages(), MessageParts()
    {
      forall id | id in nodes :: IntactAt(id)
    }

    ghost predicate IntactAt(id: string)
      requires id in nodes
      reads this, nodes[id].resources, nodes[id].resources.Parts()
    {
      nodes[id].resources.Value() == nodes[id].registered
    }

    constructor ()
      ensures Valid() && Intact() && fresh(metrics) && Model() == INIT
    {
      nodes, model := map[], map[];
      metrics := new PromMetrics();
    }

    twostate predicate JustRegistered(new n: NodeInfo) {
      var m := n.resources;
      old(allocated(m)) && n.registered == old(m.Value())
    }

    // Nodes that stay keep their message, and a method that writes only to the registry, its metrics and
    // its nodes does not write to one.
    twostate lemma IntactKept(new touched: set<object>)
      requires forall id | id in nodes :: (id in old(nodes) && nodes[id] == old(nodes)[id]) || JustRegistered(nodes[id])
      requires NoMessage(touched)
      requires forall o: object | old(allocated(o)) && o !in touched :: unchanged(o)
      ensures old(Intact()) ==> Intact()
    {
      if old(Intact()) {
        forall id | id in nodes
          ensures IntactAt(id)
        {
          if id in old(nodes) && nodes[id] == old(nodes)[id] {
            assert old(IntactAt(id));
          }
          MessageUntouched(nodes[id].resources, touched);
        }
      }
    }

    // Panics on nil resources, before anything else.
    method Register(nodeID: string, addr: string, res: NodeResources?, now: int) returns (panicked: bool)
      requires Valid()
      modifies this`nodes, this`model, metrics
      ensures Valid() && (panicked <==> res == null)
      ensures panicked ==> unchanged(this) && unchanged(metrics)
      ensures !panicked ==>
                && Model() == Step(old(Model()), RegistrySpec.Event.Register(now, nodeID, addr, old(res.Value())))
                && nodeID in nodes && fresh(nodes[nodeID])
                && nodes[nodeID].resources == res && nodes[nodeID].registered == old(res.Value())
                && nodes[nodeID].address == addr && nodes[nodeID].lastBeat == now && nodes[nodeID].tasks == map[]
                && nodes == old(nodes)[nodeID := nodes[nodeID]]
    {
      if res == null {
        return true;
      }
      ghost var s := Model();
      ghost var e := RegistrySpec.Event.Register(now, nodeID, addr, res.Value());
      StoreNode(nodeID, addr, res, now);
      CountRegistration();
      RegisterStep(s, e, metrics.Value());
      return false;
    }

    method StoreNode(nodeID: string, addr: string, res: NodeResources, now: int)
      requires Valid()
      modifies this`nodes, this`model
      ensures Valid()
      ensures model == StepNodes(old(model), RegistrySpec.Event.Register(now, nodeID, addr, old(res.Value())))
      ensures nodeID in nodes && fresh(nodes[nodeID])
      ensures nodes[nodeID].resources == res && nodes[nodeID].registered == old(res.Value())
      ensures nodes[nodeID].address == addr && nodes[nodeID].lastBeat == now && nodes[nodeID].tasks == map[]
      ensures nodes == old(nodes)[nodeID := nodes[nodeID]]
    {
      ghost var v := res.Value();
      var connID := 1;
      if nodeID in nodes {
        connID := (nodes[nodeID].connectionID + 1) % UINT64_RANGE;
      }
      var info := new NodeInfo(nodeID, addr, res, now, connID);
      assert info.Value() == Entry(addr, v, now, map[], NextConnectionId(model, nodeID));
      Put(info);
    }

    method Put(info: NodeInfo)
      requires Valid()
      modifies this`nodes, this`model
      ensures Valid()
      ensures nodes == old(nodes)[info.nodeID := info]
      ensures model == old(model)[info.nodeID := info.Value()]
    {
      ReflectsPut(nodes, model, info);
      nodes := nodes[info.nodeID := info];
      model := model[info.nodeID := info.Value()];
    }

    method CountRegistration()
      requires Valid()
      modifies metrics
      ensures Valid()
      ensures metrics.Value() == old(metrics.Value()).(
                registrationsTotal := old(metrics.registrationsTotal) + 1, registeredNodes := |model|)
    {
      metrics.registrationsTotal := metrics.registrationsTotal + 1;
      metrics.registeredNodes := |nodes|;
      ReflectsSize(nodes, model);
    }

    method TotalTasksLocked() returns (total: nat)
      requires Valid()
      ensures total == TotalTasks(model)
    {
      total := 0;
      var rest := nodes.Keys;
      ghost var left := model;
      assert left.Keys == rest;
      while rest != {}
        invariant (forall id | id in rest :: id in nodes) && left.Keys == rest
        invariant forall id | id in rest :: left[id] == model[id]
        invariant total + TotalTasks(left) == TotalTasks(model)
        decreases |rest|
      {
        var id :| id in rest;
        TotalTasksSplit(left, id);
        left := left - {id};
        total := total + |nodes[id].tasks|;
        rest := rest - {id};
      }
    }

    method UpdateHeartbeat(nodeID: string, tasks: seq<TaskStatus>, now: int)
      requires Valid()
      modifies this`model, metrics, if nodeID in nodes then {nodes[nodeID]} else {}
      ensures Valid()
      ensures Model() == Step(old(Model()), Heartbeat(now, nodeID, tasks)) && nodes == old(nodes)
      ensures nodeID in nodes ==> nodes[nodeID].lastBeat == now && IsLastWins(nodes[nodeID].tasks, tasks)
    {
      ghost var s := Model();
      StoreReport(nodeID, tasks, now);
      CountHeartbeat();
      HeartbeatStep(s, Heartbeat(now, nodeID, tasks), metrics.Value());
    }

    method StoreReport(nodeID: string, tasks: seq<TaskStatus>, now: int)
      requires Valid()
      modifies this`model, if nodeID in nodes then {nodes[nodeID]} else {}
      ensures Valid()
      ensures model == StepNodes(old(model), Heartbeat(now, nodeID, tasks)) && nodes == old(nodes)
      ensures nodeID in nodes ==> nodes[nodeID].lastBeat == now && IsLastWins(nodes[nodeID].tasks, tasks)
    {
      if nodeID in nodes {
        var n := nodes[nodeID];
        ReplaceTasks(n, tasks, now);
        TaskViewIsLastWins(tasks);
        model := model[nodeID := n.Value()];
      }
    }

    method CountHeartbeat()
      requires Valid()
      modifies metrics
      ensures Valid()
      ensures metrics.Value() == old(metrics.Value()).(
                heartbeatsTotal := old(metrics.heartbeatsTotal) + 1, tasksRunning := TotalTasks(model))
    {
      metrics.heartbeatsTotal := metrics.heartbeatsTotal + 1;
      var total := TotalTasksLocked();
      metrics.tasksRunning := total;
    }

    // Both gauges, as every removal recomputes them.
    method RecountGauges()
      requires Valid()
      modifies metrics
      ensures Valid()
      ensures metrics.Value() == Recounted(old(metrics.Value()), model)
    {
      metrics.registeredNodes := |nodes|;
      var total := TotalTasksLocked();
      metrics.tasksRunning := total;
      ReflectsSize(nodes, model);
    }

    method Remove(nodeID: string, ghost now: int)
      requires Valid()
      modifies this`nodes, this`model, metrics
      ensures Valid()
      ensures Model() == Step(old(Model()), RegistrySpec.Event.Remove(now, nodeID))
      ensures nodes == old(nodes) - {nodeID}
    {
      ghost var s := Model();
      Delete(nodeID);
      RecountGauges();
      RemovalStep(s, RegistrySpec.Event.Remove(now, nodeID), metrics.Value());
    }

    method Delete(nodeID: string)
      requires Valid()
      modifies this`nodes, this`model
      ensures Valid()
      ensures model == old(model) - {nodeID} && nodes == old(nodes) - {nodeID}
    {
      ReflectsDrop(nodes, model, nodeID);
      nodes := nodes - {nodeID};
      model := model - {nodeID};
    }

    method RemoveIfConnectionMatches(nodeID: string, connID: nat, ghost now: int)
      requires Valid()
      modifies this`nodes, this`model, metrics
      ensures Valid()
      ensures Model() == Step(old(Model()), RemoveIf(now, nodeID, connID))
      ensures nodes == if nodeID in old(nodes) && old(nodes)[nodeID].connectionID == connID
                       then old(nodes) - {nodeID}
                       else old(nodes)
      ensures !(nodeID in old(nodes) && old(nodes)[nodeID].connectionID == connID) ==>
                unchanged(this) && unchanged(metrics)
    {
      ghost var s := Model();
      if nodeID in nodes && nodes[nodeID].connectionID == connID {
        Delete(nodeID);
        RecountGauges();
        RemovalStep(s, RemoveIf(now, nodeID, connID), metrics.Value());
      } else {
        MismatchStep(s, RemoveIf(now, nodeID, connID));
      }
    }

    method ConnectionID(nodeID: string) returns (connID: nat)
      requires Valid()
      ensures connID == ConnectionId(model, nodeID) == if nodeID in nodes then nodes[nodeID].connectionID else 0
    {
      if nodeID in nodes {
        return nodes[nodeID].connectionID;
      }
      return 0;
    }

    // One firing of the cleanup ticker.
    method CleanupTick(now: int, threshold: int)
      requires Valid()
      modifies this`nodes, this`model, metrics
      ensures Valid()
      ensures Model() == Step(old(Model()), Tick(now, threshold))
      ensures SameObjects(old(nodes))
      ensures forall id | id in old(nodes) :: id in nodes <==> now - old(nodes[id].lastBeat) <= threshold
    {
      ghost var s := Model();
      var removed: nat;
      nodes, model, removed := EvictStale(nodes, model, now, threshold);
      CountStale(removed);
      TickStep(s, now, threshold, removed, Model());
    }

    method CountStale(removed: nat)
      requires Valid()
      modifies metrics
      ensures Valid()
      ensures metrics.Value() == CountedStale(old(metrics.Value()), removed, model)
    {
      if removed > 0 {
        metrics.staleNodesRemoved := metrics.staleNodesRemoved + removed;
        RecountGauges();
      }
    }

    // The cleanup goroutine, for the ticks that fire before its context is cancelled.
    method StaleNodeCleanup(ticks: seq<int>, threshold: int)
      requires Valid()
      modifies this`nodes, this`model, metrics
      ensures Valid()
      ensures Model() == RunFrom(old(Model()), TickEvents(ticks, threshold))
      ensures SameObjects(old(nodes))
    {
      ghost var start := Model();
      for i := 0 to |ticks|
        invariant Valid()
        invariant Model() == RunFrom(start, TickEvents(ticks[..i], threshold))
        invariant SameObjects(old(nodes))
      {
        ghost var s := Model();
        CleanupTick(ticks[i], threshold);
        assert Model() == Step(s, Tick(ticks[i], threshold));
        TickEventsSnoc(start, ticks, i, threshold);
      }
      assert ticks[..|ticks|] == ticks;
    }

    // A snapshot: exactly one summary per node, with equal values, sharing no object with anything older.
    method GetAll() returns (out: seq<NodeSummary>)
      requires Valid()
      ensures |out| == |nodes| && (forall s | s in out :: s.nodeID in nodes)
      ensures forall i, j | 0 <= i < j < |out| :: out[i].nodeID != out[j].nodeID
      ensures forall s | s in out :: s.Shows(nodes[s.nodeID].Current())
      ensures forall s | s in out :: fresh(s.Parts())
      ensures forall i, j | 0 <= i < j < |out| :: out[i].Parts() !! out[j].Parts()
    {
      out := [];
      var rest := nodes.Keys;
      ghost var seen: set<string>, parts: set<object> := {}, {};
      ghost var current := map id | id in nodes :: nodes[id].Current();
      while rest != {}
        invariant (forall id | id in rest :: id in nodes && id !in seen) && |out| + |rest| == |nodes|
        invariant Separate(out, seen, parts)
        invariant ShowAll(out, current, parts)
        invariant fresh(parts)
        decreases |rest|
      {
        var id :| id in rest;
        var s := Summarize(nodes[id]);
        SeparateAppend(out, seen, parts, s);
        ShowAllAppend(out, current, parts, s);
        out, seen, parts := out + [s], seen + {id}, parts + s.Parts();
        rest := rest - {id};
      }
    }
  }

  lemma SameKeysSameSize<V, W>(m: map<string, V>, n: map<string, W>)
    requires m.Keys == n.Keys
    ensures |m| == |n|
  {
    assert |m| == |m.Keys| && |n| == |n.Keys|;
  }

  // Summaries of different nodes, all among `ids`, sharing no object with each other, all objects in `parts`.
  ghost predicate Separate(out: seq<NodeSummary>, ids: set<string>, parts: set<object>) {
    && (forall s | s in out :: s.nodeID in ids && s.Parts() <= parts)
    && (forall i, j | 0 <= i < j < |out| :: out[i].nodeID != out[j].nodeID)
    && (forall i, j | 0 <= i < j < |out| :: out[i].Parts() !! out[j].Parts())
  }

  lemma SeparateAppend(out: seq<NodeSummary>, ids: set<string>, parts: set<object>, s: NodeSummary)
    requires Separate(out, ids, parts)
    requires s.nodeID !in ids && s.Parts() !! parts
    ensures Separate(out + [s], ids + {s.nodeID}, parts + s.Parts())
  {
  }

  ghost predicate ShowAll(out: seq<NodeSummary>, current: Nodes, parts: set<object>)
    requires forall s | s in out :: s.Parts() <= parts
    reads parts
  {
    forall s | s in out :: s.nodeID in current && s.Shows(current[s.nodeID])
  }

  // Exactly one summary for each node in `shown`, showing what it says there; `parts` are all their objects.
  ghost predicate IsSnapshot(out: seq<NodeSummary>, shown: Nodes, parts: set<object>)
    reads parts
  {
    |out| == |shown| && Separate(out, shown.Keys, parts) && ShowAll(out, shown, parts)
  }

  lemma ShowAllAppend(out: seq<NodeSummary>, current: Nodes, parts: set<object>, s: NodeSummary)
    requires forall s | s in out :: s.Parts() <= parts
    requires ShowAll(out, current, parts)
    requires s.nodeID in current && s.Shows(current[s.nodeID])
    ensures forall t | t in out + [s] :: t.Parts() <= parts + s.Parts()
    ensures ShowAll(out + [s], current, parts + s.Parts())
  {
  }

  // Everybody outside `rest` has been looked at, and is there exactly if heard from in time.
  ghost predicate EvictedSoFar(before: Nodes, now: Nodes, rest: set<string>, time: int, threshold: int) {
    && (forall id | id in now :: id in before && now[id] == before[id])
    && (forall id | id in before :: id in now <==> id in rest || time - before[id].lastBeat <= threshold)
  }

  lemma EvictOne(before: Nodes, now: Nodes, rest: set<string>, id: string, time: int, threshold: int)
    requires EvictedSoFar(before, now, rest, time, threshold)
    requires id in rest && id in now && time - now[id].lastBeat > threshold
    ensures EvictedSoFar(before, now - {id}, rest - {id}, time, threshold)
    ensures Gone(before, now - {id}) == Gone(before, now) + 1
  {
    assert before.Keys - (now - {id}).Keys == (before.Keys - now.Keys) + {id};
  }

  // The loop of the cleanup: delete the stale entries one by one and count them.
  method EvictStale(nodes: map<string, NodeInfo>, ghost model: Nodes, now: int, threshold: int)
    returns (left: map<string, NodeInfo>, ghost leftModel: Nodes, removed: nat)
    requires Reflects(nodes, model)
    ensures Reflects(left, leftModel)
    ensures leftModel == Kept(model, now, threshold)
    ensures removed == Gone(model, leftModel)
    ensures forall id | id in left :: id in nodes && left[id] == nodes[id]
    ensures forall id | id in nodes :: id in left <==> now - nodes[id].lastBeat <= threshold
  {
    left, leftModel, removed := nodes, model, 0;
    var rest := nodes.Keys;
    while rest != {}
      invariant forall id | id in rest :: id in left
      invariant Reflects(left, leftModel)
      invariant forall id | id in left :: id in nodes && left[id] == nodes[id]
      invariant EvictedSoFar(model, leftModel, rest, now, threshold)
      invariant removed == Gone(model, leftModel)
      decreases |rest|
    {
      var id :| id in rest;
      if now - left[id].lastBeat > threshold {
        EvictOne(model, leftModel, rest, id, now, threshold);
        ReflectsDrop(left, leftModel, id);
        left := left - {id};
        leftModel := leftModel - {id};
        removed := removed + 1;
      }
      rest := rest - {id};
    }
    EvictedAll(model, leftModel, now, threshold);
  }

  lemma EvictedAll(before: Nodes, now: Nodes, time: int, threshold: int)
    requires EvictedSoFar(before, now, {}, time, threshold)
    ensures now == Kept(before, time, threshold)
  {
  }

  ghost function CountedStale(m: Metrics, removed: nat, after: Nodes): Metrics {
    if removed > 0 then Recounted(m.(staleNodesRemoved := m.staleNodesRemoved + removed), after) else m
  }

  // What each method has done to the metrics is what the step asks for.
  lemma RegisterStep(s: State, e: Event, m: Metrics)
    requires e.Register?
    requires m == s.metrics.(registrationsTotal := s.metrics.registrationsTotal + 1,
                             registeredNodes := |StepNodes(s.nodes, e)|)
    ensures State(StepNodes(s.nodes, e), m) == Step(s, e)
  {
  }

  lemma RemovalStep(s: State, e: Event, m: Metrics)
    requires e.Remove? || (e.RemoveIf? && Matches(s.nodes, e.id, e.connectionId))
    requires m == Recounted(s.metrics, s.nodes - {e.id})
    ensures State(s.nodes - {e.id}, m) == Step(s, e)
  {
  }

  lemma MismatchStep(s: State, e: Event)
    requires e.RemoveIf? && !Matches(s.nodes, e.id, e.connectionId)
    ensures s == Step(s, e)
  {
  }

  lemma HeartbeatStep(s: State, e: Event, m: Metrics)
    requires e.Heartbeat?
    requires m == s.metrics.(heartbeatsTotal := s.metrics.heartbeatsTotal + 1,
                             tasksRunning := TotalTasks(StepNodes(s.nodes, e)))
    ensures State(StepNodes(s.nodes, e), m) == Step(s, e)
  {
  }

  lemma TickStep(s: State, now: int, threshold: int, removed: nat, after: State)
    requires after.nodes == Kept(s.nodes, now, threshold)
    requires removed == Gone(s.nodes, after.nodes)
    requires after.metrics == CountedStale(s.metrics, removed, after.nodes)
    ensures after == Step(s, Tick(now, threshold))
  {
  }

  method ReplaceTasks(n: NodeInfo, tasks: seq<TaskStatus>, now: int)
    modifies n
    ensures n.lastBeat == now && n.tasks == TaskView(tasks)
  {
    var view: map<string, TaskStatus> := map[];
    for i := 0 to |tasks|
      invariant view == TaskView(tasks[..i])
    {
      view := view[tasks[i].taskId := tasks[i]];
      assert tasks[..i + 1][..i] == tasks[..i];
    }
    assert tasks[..|tasks|] == tasks;
    n.lastBeat := now;
    n.tasks := view;
  }

  method Summarize(v: NodeInfo) returns (s: NodeSummary)
    ensures s.nodeID == v.nodeID && s.Shows(v.Current()) && fresh(s.Parts())
  {
    var cl := v.resources.Clone();
    s := NodeSummary(v.nodeID, cl.hostname, v.address, v.lastBeat, cl.cpu, cl.memory, cl.gpus, v.connectionID);
  }

  // What it is for a summary to show a node, field by field.
  lemma ShowsEveryField(s: NodeSummary, n: NodeInfo)
    ensures s.Shows(n.Current()) <==>
              && s.address == n.address && s.lastBeat == n.lastBeat && s.connectionID == n.connectionID
              && s.hostname == n.resources.hostname && SameCpu(s.cpu, n.resources.cpu)
              && SameMemory(s.memory, n.resources.memory) && SameGpus(s.gpus, n.resources.gpus)
  {
    GpusByField(s.gpus, n.resources.gpus);
  }

  lemma GpusByField(a: seq<GpuResources>, b: seq<GpuResources>)
    ensures GpuValues(a) == GpuValues(b) <==> SameGpus(a, b)
  {
    if GpuValues(a) == GpuValues(b) {
      assert |GpuValues(a)| == |GpuValues(b)|;
      forall i | 0 <= i < |a|
        ensures a[i].index == b[i].index && a[i].vendor == b[i].vendor
      {
        assert GpuValues(a)[i] == a[i].Value() && GpuValues(b)[i] == b[i].Value();
      }
    }
  }

  function TickEvents(ticks: seq<int>, threshold: int): seq<Event> {
    seq(|ticks|, i requires 0 <= i < |ticks| => Tick(ticks[i], threshold))
  }

  lemma TickEventsSnoc(s: State, ticks: seq<int>, i: nat, threshold: int)
    requires i < |ticks|
    ensures RunFrom(s, TickEvents(ticks[..i + 1], threshold)) ==
            Step(RunFrom(s, TickEvents(ticks[..i], threshold)), Tick(ticks[i], threshold))
  {
    assert TickEvents(ticks[..i + 1], threshold) == TickEvents(ticks[..i], threshold) + [Tick(ticks[i], threshold)];
    RunSnoc(s, TickEvents(ticks[..i], threshold), Tick(ticks[i], threshold));
  }
}
