/** Register keeps the caller's resource message by reference. What snapshots show of a node, over every run in
    which the owners of the messages go on writing to them. */
module KeptMessages {
  import opened Options
  import opened Registry
  import opened RegistrySpec

  type OtherRegion = e: Event | !e.Register? witness Remove(0, "")

  // A lock region, where Register is given message number `ref`, or a write to a message.
  datatype Act =
    | RegisterMessage(now: int, id: string, address: string, ref: nat)
    | Region(e: OtherRegion)
    | Write(ref: nat, value: Resources)

  // `refs` says which message is kept for a node, `messages` what each message says now.
  datatype World = World(nodes: Nodes, refs: map<string, nat>, messages: seq<Resources>)

  predicate Allowed(a: Act, n: nat) {
    a.RegisterMessage? || a.Write? ==> a.ref < n
  }

  predicate AllAllowed(acts: seq<Act>, n: nat) {
    forall i | 0 <= i < |acts| :: Allowed(acts[i], n)
  }

  function Do(w: World, a: Act): (w': World)
    requires Allowed(a, |w.messages|)
    ensures |w'.messages| == |w.messages|
  {
    match a
    case RegisterMessage(now, id, address, ref) =>
      w.(nodes := StepNodes(w.nodes, Register(now, id, address, w.messages[ref])), refs := w.refs[id := ref])
    case Region(e) => w.(nodes := StepNodes(w.nodes, e))
    case Write(ref, value) => w.(messages := w.messages[ref := value])
  }

  function After(messages: seq<Resources>, acts: seq<Act>): (w: World)
    requires AllAllowed(acts, |messages|)
    ensures |w.messages| == |messages|
  {
    if acts == [] then World(map[], map[], messages)
    else Do(After(messages, acts[..|acts| - 1]), acts[|acts| - 1])
  }

  // ----- in terms of the history -----

  // The message given in the last registration of `id`.
  function KeptRef(acts: seq<Act>, id: string): Option<nat> {
    if acts == [] then None
    else
      var a := acts[|acts| - 1];
      if a.RegisterMessage? && a.id == id then Some(a.ref) else KeptRef(acts[..|acts| - 1], id)
  }

  // What was last written to that message since then.
  function Overwritten(acts: seq<Act>, id: string): Option<Resources> {
    if acts == [] then None
    else
      var acts', a := acts[..|acts| - 1], acts[|acts| - 1];
      if a.RegisterMessage? && a.id == id then None
      else if a.Write? && KeptRef(acts', id) == Some(a.ref) then Some(a.value)
      else Overwritten(acts', id)
  }

  predicate Keeps(w: World, id: string) {
    id in w.refs && w.refs[id] < |w.messages|
  }

  // The entry with the message as it is now.
  function Shown(w: World, id: string): Entry
    requires id in w.nodes && Keeps(w, id)
  {
    w.nodes[id].(resources := w.messages[w.refs[id]])
  }

  lemma {:induction false} KeptMessageSays(messages: seq<Resources>, acts: seq<Act>, id: string)
    requires AllAllowed(acts, |messages|)
    requires id in After(messages, acts).nodes
    ensures var w := After(messages, acts);
            && Keeps(w, id) && KeptRef(acts, id) == Some(w.refs[id])
            && w.messages[w.refs[id]] ==
               if Overwritten(acts, id).Some? then Overwritten(acts, id).value else w.nodes[id].resources
  {
    if acts == [] {
    } else {
      var acts', a := acts[..|acts| - 1], acts[|acts| - 1];
      if !(a.RegisterMessage? && a.id == id) {
        KeptMessageSays(messages, acts', id);
      }
    }
  }

  // After any run, a node is shown as it registered exactly when nothing was written to its message since, or
  // the last write put the registered value back.
  lemma ShownAsRegisteredIff(messages: seq<Resources>, acts: seq<Act>, id: string)
    requires AllAllowed(acts, |messages|)
    requires id in After(messages, acts).nodes
    ensures var w := After(messages, acts);
            && Keeps(w, id)
            && (Shown(w, id) == w.nodes[id] <==>
                Overwritten(acts, id).None? || Overwritten(acts, id).value == w.nodes[id].resources)
  {
    KeptMessageSays(messages, acts, id);
  }

  // ----- on the heap -----

  method BuildGpus(vs: seq<Gpu>) returns (gpus: seq<GpuResources>)
    ensures GpuValues(gpus) == vs && forall g | g in gpus :: fresh(g)
  {
    gpus := [];
    for i := 0 to |vs|
      invariant |gpus| == i && forall j | 0 <= j < i :: fresh(gpus[j]) && gpus[j].Value() == vs[j]
    {
      var g := new GpuResources(vs[i].index, vs[i].vendor);
      gpus := gpus + [g];
    }
  }

  method Build(v: Resources) returns (m: NodeResources)
    ensures fresh(m) && fresh(m.Parts()) && m.Value() == v
  {
    m := new NodeResources(v.hostname, null, null, []);
    Overwrite(m, v);
  }

  // The owner of a message writes to it.
  method Overwrite(m: NodeResources, v: Resources)
    modifies m
    ensures m.Value() == v && fresh(m.Parts())
  {
    var gpus := BuildGpus(v.gpus);
    m.hostname, m.cpu, m.memory, m.gpus := v.hostname, null, null, gpus;
    if v.cpu.Some? {
      m.cpu := new CpuResources(v.cpu.value.cores, v.cpu.value.model);
    }
    if v.memory.Some? {
      m.memory := new MemoryResources(v.memory.value.totalBytes);
    }
  }

  // The registry and the messages in `pool` are in state `w`.
  ghost predicate Agrees(r: NodeRegistry, pool: seq<NodeResources>, w: World)
    reads r, r.nodes.Values, pool, Parts(pool)
  {
    && r.Valid() && r.model == w.nodes
    && Says(pool, w.messages)
    && RefersTo(r.nodes, pool, w)
  }

  ghost predicate RefersTo(nodes: map<string, NodeInfo>, pool: seq<NodeResources>, w: World)
    requires |pool| == |w.messages|
  {
    forall id | id in nodes :: Keeps(w, id) && pool[w.refs[id]] == nodes[id].resources
  }

  ghost function Parts(pool: seq<NodeResources>): set<object>
    reads pool
  {
    set k, o: object | 0 <= k < |pool| && o in pool[k].Parts() :: o
  }

  ghost predicate Says(pool: seq<NodeResources>, messages: seq<Resources>)
    reads pool, Parts(pool)
  {
    |pool| == |messages| && forall k | 0 <= k < |pool| :: pool[k].Value() == messages[k]
  }

  ghost predicate Distinct(pool: seq<NodeResources>) {
    forall i, j | 0 <= i < j < |pool| :: pool[i] != pool[j]
  }

  method PerformRegion(r: NodeRegistry, e: OtherRegion)
    requires r.Valid()
    modifies r.Repr()
    ensures r.Valid() && r.Model() == Step(old(r.Model()), e) && r.SameObjects(old(r.nodes))
  {
    match e
    case Heartbeat(now, id, tasks) => r.UpdateHeartbeat(id, tasks, now);
    case Remove(now, id) => r.Remove(id, now);
    case RemoveIf(now, id, connectionId) => r.RemoveIfConnectionMatches(id, connectionId, now);
    case Tick(now, threshold) => r.CleanupTick(now, threshold);
  }

  method PerformAny(r: NodeRegistry, e: Event, m: NodeResources)
    requires r.Valid() && (e.Register? ==> e.resources == m.Value())
    modifies r.Repr()
    ensures r.Valid() && r.Model() == Step(old(r.Model()), e)
    ensures forall id | id in r.nodes ::
              (id in old(r.nodes) && r.nodes[id] == old(r.nodes)[id]) || r.JustRegistered(r.nodes[id])
  {
    match e
    case Register(now, id, address, _) => var panicked := r.Register(id, address, m, now);
    case _ => PerformRegion(r, e);
  }

  // No lock region alters a kept message: if they all say what was registered, they still do.
  method LockRegionKeepsIntact(r: NodeRegistry, e: Event, m: NodeResources)
    requires r.Valid() && (e.Register? ==> e.resources == m.Value())
    modifies r.Repr()
    ensures r.Valid() && r.Model() == Step(old(r.Model()), e)
    ensures old(r.Intact()) ==> r.Intact()
  {
    ghost var touched := r.Repr();
    r.ReprIsNoMessage();
    PerformAny(r, e, m);
    r.IntactKept(touched);
  }

  twostate lemma PoolUntouched(pool: seq<NodeResources>, new touched: set<object>)
    requires NoMessage(touched)
    requires forall o: object | old(allocated(o)) && o !in touched :: unchanged(o)
    ensures forall k | 0 <= k < |pool| :: pool[k].Value() == old(pool[k].Value())
    ensures Parts(pool) == old(Parts(pool))
  {
    forall k | 0 <= k < |pool|
      ensures pool[k].Value() == old(pool[k].Value()) && pool[k].Parts() == old(pool[k].Parts())
    {
      MessageUntouched(pool[k], touched);
    }
  }

  method PerformWrite(r: NodeRegistry, pool: seq<NodeResources>, ref: nat, value: Resources, ghost w: World,
                      ghost others: set<object>)
    requires Agrees(r, pool, w) && Distinct(pool) && ref < |pool| && Parts(pool) !! others
    modifies pool[ref]
    ensures Agrees(r, pool, Do(w, Write(ref, value)))
    ensures Parts(pool) !! others
  {
    Overwrite(pool[ref], value);
    forall k | 0 <= k < |pool| && k != ref
      ensures pool[k].Value() == w.messages[k] && pool[k].Parts() == old(pool[k].Parts())
    {
    }
  }

  method PerformRegister(r: NodeRegistry, pool: seq<NodeResources>, now: int, id: string, address: string, ref: nat,
                         ghost w: World)
    requires Agrees(r, pool, w) && ref < |pool|
    modifies r.Repr()
    ensures Agrees(r, pool, Do(w, RegisterMessage(now, id, address, ref))) && Parts(pool) == old(Parts(pool))
    ensures fresh(r.Repr() - old(r.Repr()))
  {
    ghost var touched := r.Repr();
    r.ReprIsNoMessage();
    ghost var before := r.nodes;
    var panicked := r.Register(id, address, pool[ref], now);
    RefersToNew(before, pool, w, RegisterMessage(now, id, address, ref), r.nodes[id]);
    PoolUntouched(pool, touched);
  }

  lemma RefersToNew(nodes: map<string, NodeInfo>, pool: seq<NodeResources>, w: World, a: Act, info: NodeInfo)
    requires |pool| == |w.messages| && RefersTo(nodes, pool, w)
    requires a.RegisterMessage? && Allowed(a, |pool|) && info.resources == pool[a.ref]
    ensures RefersTo(nodes[a.id := info], pool, Do(w, a))
  {
  }

  method PerformOther(r: NodeRegistry, pool: seq<NodeResources>, e: OtherRegion, ghost w: World)
    requires Agrees(r, pool, w)
    modifies r.Repr()
    ensures Agrees(r, pool, Do(w, Region(e))) && Parts(pool) == old(Parts(pool))
    ensures fresh(r.Repr() - old(r.Repr()))
  {
    ghost var touched := r.Repr();
    r.ReprIsNoMessage();
    PerformRegion(r, e);
    PoolUntouched(pool, touched);
  }

  method Perform(r: NodeRegistry, pool: seq<NodeResources>, a: Act, ghost w: World, ghost others: set<object>)
    requires Agrees(r, pool, w) && Distinct(pool) && Allowed(a, |pool|) && Parts(pool) !! others
    modifies r.Repr(), pool
    ensures Agrees(r, pool, Do(w, a))
    ensures fresh(r.Repr() - old(r.Repr())) && Parts(pool) !! others
  {
    match a
    case RegisterMessage(now, id, address, ref) => PerformRegister(r, pool, now, id, address, ref, w);
    case Region(e) => PerformOther(r, pool, e, w);
    case Write(ref, value) => PerformWrite(r, pool, ref, value, w, others);
  }

  lemma AfterSnoc(messages: seq<Resources>, acts: seq<Act>, a: Act)
    requires AllAllowed(acts, |messages|) && Allowed(a, |messages|)
    ensures AllAllowed(acts + [a], |messages|)
    ensures After(messages, acts + [a]) == Do(After(messages, acts), a)
  {
    assert (acts + [a])[..|acts + [a]| - 1] == acts;
  }

  method PlayNext(r: NodeRegistry, pool: seq<NodeResources>, a: Act,
                  ghost messages: seq<Resources>, ghost done: seq<Act>, ghost others: set<object>)
    requires Distinct(pool) && |messages| == |pool|
    requires AllAllowed(done, |pool|) && Allowed(a, |pool|)
    requires Agrees(r, pool, After(messages, done)) && Parts(pool) !! others
    modifies r.Repr(), pool
    ensures AllAllowed(done + [a], |pool|) && Agrees(r, pool, After(messages, done + [a]))
    ensures fresh(r.Repr() - old(r.Repr())) && Parts(pool) !! others
  {
    AfterSnoc(messages, done, a);
    Perform(r, pool, a, After(messages, done), others);
  }

  // A run on the heap, continued from where `before` led.
  method Play(r: NodeRegistry, pool: seq<NodeResources>, acts: seq<Act>,
              ghost messages: seq<Resources>, ghost before: seq<Act>, ghost others: set<object>)
    requires Distinct(pool) && |messages| == |pool|
    requires AllAllowed(before, |pool|) && AllAllowed(acts, |pool|)
    requires Agrees(r, pool, After(messages, before)) && Parts(pool) !! others
    modifies r.Repr(), pool
    ensures AllAllowed(before + acts, |pool|) && Agrees(r, pool, After(messages, before + acts))
    ensures fresh(r.Repr() - old(r.Repr())) && Parts(pool) !! others
  {
    if acts == [] {
      NothingMore(before);
    } else {
      var first, last := acts[..|acts| - 1], acts[|acts| - 1];
      OneMore(before, acts);
      Play(r, pool, first, messages, before, others);
      PlayNext(r, pool, last, messages, before + first, others);
    }
  }

  lemma NothingMore(before: seq<Act>)
    ensures before + [] == before
  {
  }

  lemma OneMore(before: seq<Act>, acts: seq<Act>)
    requires acts != []
    ensures before + acts == before + acts[..|acts| - 1] + [acts[|acts| - 1]]
  {
    assert acts == acts[..|acts| - 1] + [acts[|acts| - 1]];
  }

  // ----- snapshots -----

  // What every node is shown as in state `w`.
  function ShownNodes(w: World): Nodes {
    map id | id in w.nodes && Keeps(w, id) :: Shown(w, id)
  }

  // Objects that the registry, its messages and whoever writes to them have nothing to do with.
  ghost predicate Detached(parts: set<object>, r: NodeRegistry, pool: seq<NodeResources>)
    reads r, pool
  {
    parts !! r.Repr() && Parts(pool) !! parts && forall m | m in pool :: m !in parts
  }

  // In every reachable state all nodes are shown.
  lemma EveryNodeIsShown(messages: seq<Resources>, acts: seq<Act>)
    requires AllAllowed(acts, |messages|)
    ensures ShownNodes(After(messages, acts)).Keys == After(messages, acts).nodes.Keys
  {
    forall id | id in After(messages, acts).nodes
      ensures Keeps(After(messages, acts), id)
    {
      KeptMessageSays(messages, acts, id);
    }
  }

  // Looking at the registry writes to nothing.
  twostate lemma OnlyLooked(r: NodeRegistry, new touched: set<object>)
    requires touched == {}
    requires forall o: object | old(allocated(o)) && o !in touched :: unchanged(o)
    ensures r.CurrentNodes() == old(r.CurrentNodes())
  {
    assert r !in touched;
    forall id | id in r.nodes
      ensures r.nodes[id].Current() == old(r.nodes[id].Current())
    {
      assert r.nodes[id] !in touched;
      MessageUntouched(r.nodes[id].resources, touched);
    }
  }

  // New objects have nothing to do with what was there.
  twostate lemma NewIsDetached(pool: seq<NodeResources>, new r: NodeRegistry, new parts: set<object>)
    requires fresh(parts) && old(allocated(r)) && r.nodes == old(r.nodes)
    requires Parts(pool) == old(Parts(pool))
    ensures Detached(parts, r, pool)
  {
    assert forall o | o in old(Parts(pool)) :: old(allocated(o));
  }

  method TakeSnapshot(r: NodeRegistry, pool: seq<NodeResources>, ghost w: World)
    returns (out: seq<NodeSummary>, ghost parts: set<object>)
    requires Agrees(r, pool, w)
    ensures IsSnapshot(out, ShownNodes(w), parts) && fresh(parts) && Detached(parts, r, pool)
  {
    CurrentIsShownNodes(r, pool, w);
    out := r.GetAll();
    OnlyLooked(r, {});
    parts := PartsOfAll(out);
    SnapshotOf(r, out);
    PoolUntouched(pool, {});
    NewIsDetached(pool, r, parts);
  }

  ghost function PartsOfAll(out: seq<NodeSummary>): set<object> {
    set s, o: object | s in out && o in s.Parts() :: o
  }

  // What GetAll promises is that its result is a snapshot.
  lemma SnapshotOf(r: NodeRegistry, out: seq<NodeSummary>)
    requires |out| == |r.nodes| && (forall s | s in out :: s.nodeID in r.nodes)
    requires forall i, j | 0 <= i < j < |out| :: out[i].nodeID != out[j].nodeID
    requires forall s | s in out :: s.Shows(r.nodes[s.nodeID].Current())
    requires forall i, j | 0 <= i < j < |out| :: out[i].Parts() !! out[j].Parts()
    ensures IsSnapshot(out, r.CurrentNodes(), PartsOfAll(out))
  {
    SameKeysSameSize(r.nodes, r.CurrentNodes());
  }

  lemma CurrentIsShownNodes(r: NodeRegistry, pool: seq<NodeResources>, w: World)
    requires Agrees(r, pool, w)
    ensures r.CurrentNodes() == ShownNodes(w)
  {
    forall id | id in r.nodes
      ensures id in ShownNodes(w) && r.nodes[id].Current() == ShownNodes(w)[id]
    {
      CurrentIsShown(r, pool, w, id);
    }
  }

  lemma CurrentIsShown(r: NodeRegistry, pool: seq<NodeResources>, w: World, id: string)
    requires Agrees(r, pool, w) && id in r.nodes
    ensures id in w.nodes && Keeps(w, id) && r.nodes[id].Current() == Shown(w, id)
  {
    assert r.nodes[id].Value() == w.nodes[id];
    assert pool[w.refs[id]].Value() == w.messages[w.refs[id]];
  }

  // A run leaves a snapshot taken earlier as it is.
  method PlayBeside(r: NodeRegistry, pool: seq<NodeResources>, acts: seq<Act>,
                    ghost messages: seq<Resources>, ghost before: seq<Act>,
                    ghost mine: seq<NodeSummary>, ghost shown: Nodes, ghost parts: set<object>)
    requires Distinct(pool) && |messages| == |pool|
    requires AllAllowed(before, |pool|) && AllAllowed(acts, |pool|)
    requires Agrees(r, pool, After(messages, before))
    requires Detached(parts, r, pool) && IsSnapshot(mine, shown, parts)
    modifies r.Repr(), pool
    ensures AllAllowed(before + acts, |pool|) && Agrees(r, pool, After(messages, before + acts))
    ensures Detached(parts, r, pool) && IsSnapshot(mine, shown, parts)
  {
    Play(r, pool, acts, messages, before, parts);
  }

  // Whatever the holder of a summary does to it: the contract allows any change to its objects.
  method Scribble(s: NodeSummary, cores: nat, bytes: nat, vendor: string)
    modifies s.Parts()
  {
    if s.cpu != null {
      s.cpu.cores := cores;
    }
    if s.memory != null {
      s.memory.totalBytes := bytes;
    }
    forall g | g in s.gpus {
      g.vendor := vendor;
    }
  }

  // The holder of one summary writes to it: neither the registry nor any other summary notices.
  method ScribbleBeside(r: NodeRegistry, pool: seq<NodeResources>, ghost w: World, mine: seq<NodeSummary>, k: nat,
                        ghost shown: Nodes, ghost parts: set<object>, cores: nat, bytes: nat, vendor: string)
    requires Agrees(r, pool, w) && Detached(parts, r, pool) && k < |mine|
    requires IsSnapshot(mine, shown, parts)
    modifies mine[k].Parts()
    ensures Agrees(r, pool, w) && Detached(parts, r, pool)
    ensures IsSnapshotBut(mine, k, shown, parts)
  {
    Scribble(mine[k], cores, bytes, vendor);
  }

  // The same, but summary number k may show anything.
  ghost predicate IsSnapshotBut(out: seq<NodeSummary>, k: nat, shown: Nodes, parts: set<object>)
    reads parts
  {
    && |out| == |shown| && Separate(out, shown.Keys, parts)
    && forall i | 0 <= i < |out| && i != k :: out[i].Shows(shown[out[i].nodeID])
  }

  ghost function Values(pool: seq<NodeResources>): seq<Resources>
    reads pool, Parts(pool)
  {
    seq(|pool|, k requires 0 <= k < |pool| reads pool, Parts(pool) => pool[k].Value())
  }

  method Begin(pool: seq<NodeResources>) returns (r: NodeRegistry)
    ensures fresh(r.Repr()) && Agrees(r, pool, After(Values(pool), []))
  {
    r := new NodeRegistry();
  }

  // A registry lives through `acts`, and a snapshot is taken. The run goes on, and then the holder of the snapshot
  // writes to one of its summaries. All other summaries still show the nodes as they were, and the next snapshot
  // shows them as the whole run has left them: neither side reaches the other.
  method SnapshotsAreIsolated(pool: seq<NodeResources>, acts: seq<Act>, more: seq<Act>, k: nat,
                              cores: nat, bytes: nat, vendor: string)
    returns (mine: seq<NodeSummary>, theirs: seq<NodeSummary>, ghost parts: set<object>, ghost parts': set<object>)
    requires Distinct(pool) && AllAllowed(acts, |pool|) && AllAllowed(more, |pool|)
    modifies pool
    ensures AllAllowed(acts + more, |pool|)
    ensures IsSnapshotBut(mine, k, ShownNodes(After(old(Values(pool)), acts)), parts)
    ensures IsSnapshot(theirs, ShownNodes(After(old(Values(pool)), acts + more)), parts')
    // Every node is shown.
    ensures ShownNodes(After(old(Values(pool)), acts)).Keys == After(old(Values(pool)), acts).nodes.Keys
    ensures ShownNodes(After(old(Values(pool)), acts + more)).Keys == After(old(Values(pool)), acts + more).nodes.Keys
  {
    ghost var messages := Values(pool);
    var r := Start(pool, acts);
    ghost var w := After(messages, acts);
    mine, parts := TakeSnapshot(r, pool, w);
    GoOn(r, pool, more, messages, acts, mine, k, ShownNodes(w), parts, cores, bytes, vendor);
    theirs, parts' := TakeSnapshot(r, pool, After(messages, acts + more));
    EveryNodeIsShown(messages, acts);
    EveryNodeIsShown(messages, acts + more);
  }

  method Start(pool: seq<NodeResources>, acts: seq<Act>) returns (r: NodeRegistry)
    requires Distinct(pool) && AllAllowed(acts, |pool|)
    modifies pool
    ensures fresh(r.Repr()) && Agrees(r, pool, After(old(Values(pool)), acts))
  {
    ghost var messages := Values(pool);
    r := Begin(pool);
    NothingBefore(acts);
    Play(r, pool, acts, messages, [], {});
  }

  method GoOn(r: NodeRegistry, pool: seq<NodeResources>, more: seq<Act>,
              ghost messages: seq<Resources>, ghost acts: seq<Act>,
              mine: seq<NodeSummary>, k: nat, ghost shown: Nodes, ghost parts: set<object>,
              cores: nat, bytes: nat, vendor: string)
    requires Distinct(pool) && |messages| == |pool|
    requires AllAllowed(acts, |pool|) && AllAllowed(more, |pool|)
    requires Agrees(r, pool, After(messages, acts))
    requires Detached(parts, r, pool) && IsSnapshot(mine, shown, parts)
    modifies r.Repr(), pool, parts
    ensures AllAllowed(acts + more, |pool|) && Agrees(r, pool, After(messages, acts + more))
    ensures IsSnapshotBut(mine, k, shown, parts)
  {
    PlayBeside(r, pool, more, messages, acts, mine, shown, parts);
    if k < |mine| {
      ScribbleBeside(r, pool, After(messages, acts + more), mine, k, shown, parts, cores, bytes, vendor);
    }
  }

  lemma NothingBefore(acts: seq<Act>)
    ensures [] + acts == acts
  {
  }

  // ----- what was registered, and what is shown -----

  // The message of `id` was not written to since its registration, or says again what it said then.
  predicate SaysWhatItSaid(w: World, acts: seq<Act>, id: string)
    requires id in w.nodes
  {
    Overwritten(acts, id).None? || Overwritten(acts, id).value == w.nodes[id].resources
  }

  lemma NodeIntactIff(r: NodeRegistry, pool: seq<NodeResources>, messages: seq<Resources>, acts: seq<Act>, id: string)
    requires AllAllowed(acts, |messages|) && Agrees(r, pool, After(messages, acts)) && id in r.nodes
    ensures id in After(messages, acts).nodes
    ensures r.IntactAt(id) <==> SaysWhatItSaid(After(messages, acts), acts, id)
  {
    CurrentIsShown(r, pool, After(messages, acts), id);
    ShownAsRegisteredIff(messages, acts, id);
  }

  // In every reachable state the registry shows every node as it registered if and only if this holds of all nodes.
  lemma IntactIff(r: NodeRegistry, pool: seq<NodeResources>, messages: seq<Resources>, acts: seq<Act>)
    requires AllAllowed(acts, |messages|) && Agrees(r, pool, After(messages, acts))
    ensures r.Intact() <==> forall id | id in r.model :: SaysWhatItSaid(After(messages, acts), acts, id)
    ensures r.Intact() <==> r.CurrentNodes() == r.model
  {
    forall id | id in r.nodes
      ensures r.IntactAt(id) <==> SaysWhatItSaid(After(messages, acts), acts, id)
    {
      NodeIntactIff(r, pool, messages, acts, id);
    }
    IntactIsShown(r);
  }

  lemma IntactIsShown(r: NodeRegistry)
    requires r.Valid()
    ensures r.Intact() <==> r.CurrentNodes() == r.model
  {
    forall id | id in r.nodes
      ensures r.IntactAt(id) <==> r.CurrentAt(id) == r.model[id]
    {
      assert r.nodes[id].Value() == r.model[id];
    }
    if r.Intact() {
      assert forall id | id in r.nodes :: r.IntactAt(id);
    } else {
      var id :| id in r.nodes && !r.IntactAt(id);
      assert r.CurrentNodes()[id] != r.model[id];
    }
  }

  // A node registers with a message that says `a`; its owner then makes it say `b`. Snapshots show `b`, while the
  // registry's state still says `a`.
  method AlteredMessageIsShown(a: Resources, b: Resources)
    returns (r: NodeRegistry, out: seq<NodeSummary>, ghost parts: set<object>)
    ensures r.Valid() && r.model == map["n" := Entry("", a, 0, map[], 1)]
    ensures IsSnapshot(out, map["n" := Entry("", b, 0, map[], 1)], parts)
  {
    var m := Build(a);
    var acts := [RegisterMessage(0, "n", "", 0), Write(0, b)];
    AlteredRun(a, b);
    assert Values([m]) == [a];
    r := Start([m], acts);
    out, parts := TakeSnapshot(r, [m], After([a], acts));
  }

  lemma AlteredRun(a: Resources, b: Resources)
    ensures var acts := [RegisterMessage(0, "n", "", 0), Write(0, b)];
            && After([a], acts).nodes == map["n" := Entry("", a, 0, map[], 1)]
            && ShownNodes(After([a], acts)) == map["n" := Entry("", b, 0, map[], 1)]
  {
    var register, write := RegisterMessage(0, "n", "", 0), Write(0, b);
    AfterSnoc([a], [], register);
    AfterSnoc([a], [register], write);
    assert [] + [register] == [register] && [register] + [write] == [register, write];
  }
}
