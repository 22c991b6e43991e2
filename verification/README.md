# Node liveness, certificate reload and reconnection, verified

A Dafny model of the parts of the system that hold real state: the control plane's node registry and the heartbeat
streams that drive it, its certificate hot-reloader, the agent's reconnect loop with its two channels, and the cache
in front of the gRPC method labels. `dafny verify dfyconfig.toml` checks everything.

## What is modelled

| files | subject | form |
|---|---|---|
| `RegistrySpec`, `RegistryHistory`, `RegistryTiming` | one lock region of the registry as a step on a value, and what the stored fields mean in terms of the history of lock regions | functions and lemmas over every run |
| `Registry` | `NodeRegistry` with `NodeInfo` objects updated in place, resource messages held by reference, metrics | classes; each method is proved to be one step of `RegistrySpec`, and its contract says which objects stay |
| `KeptMessages` | what snapshots show while the owners of registered messages go on writing to them | step system, and the same runs performed on the objects |
| `Validator`, `HeartbeatProtocol` | the checks, and any number of heartbeat streams interleaved with Register calls and the cleanup ticker | step system |
| `AgentServer`, `InterleavedServer` | the gRPC handlers as methods on the heap, uninterrupted and in any interleaving | class, and methods proved to follow the step system |
| `TlsReload`, `TlsWriters`, `TlsLoss`, `CertReloader` | concurrent `load()` runs, one file access or field access per step, against a writer that replaces and deletes files; which writers lose no update, and exactly which can; the reloader object | step system, class, and a lemma that a load on its own is the sequential one |
| `Reconnect`, `AgentSession`, `HeartbeatChannels` | the agent's outer retry loop, its event loop and sequence numbers, the instruction and request channels | classes and loops, step systems for the channels |
| `MethodLabels` | `sanitizeMethod` with its cache, alone and under concurrent calls | class proved against a cache-free classification, step system |

Time is an integer parameter of each step (nanoseconds in the control plane, seconds in the agent's backoff). What
comes from outside (received messages, file contents, connect results, channel ends) is a parameter or an event, so
every theorem holds for all of them.

## Where code and intent part

The theorems follow the code. Each of these is a lemma, either exact or with a run that shows it:

- A connection ID is called a monotonic counter, but it starts at 1 again after any removal (registry.go:33 and 80).
  While a node stays present the fence against old streams works exactly (`CloseSparesReconnectedNode`); across a
  removal the close decides by equal counts (`CloseRemovesIffSameCount`), and an old stream can remove a new
  registration (`OldStreamRemovesNewRegistration`). The counter is a uint64, so the exact statements are modulo 2^64.
- The comment at registry.go:33 says that heartbeats are validated against the ID. Only the close is; any open stream
  refreshes the node its message names exactly if that node is present (`AnyStreamRefreshes`), so a superseded stream
  refreshes the new registration (`SupersededStreamRefreshes`).
- A stream that ends by a rejected message or by a failed first acknowledgement does not remove its node
  (`HeartbeatProtocol.AbnormalEndRemovesNothing`).
- `Register` does not recompute the task gauge. The drift is exact: the tasks thrown away by re-registrations since
  the last recompute (`TaskGaugeDrift`). It is never negative (`TaskGaugeNeverLow`) and can be positive
  (`TaskGaugeCanDrift`).
- The handler does not look for nil resources, and the registry panics on them after the request passed its checks
  (`AgentServer.AgentServer.Register`).
- `GetAll` copies, but `Register` keeps the caller's message. A node is shown as it registered exactly when its message
  was not written to since, or the last write put the registered value back (`ShownAsRegisteredIff`, `IntactIff`);
  `AlteredMessageIsShown` is a run in which it is not. None of the registry's own methods writes to a message.
- A reload compares modification times only. In a settled state a write to a file being served is noticed exactly if
  it does not carry the recorded time (`WriteIsNoticedIff`). Beside loads in flight more can go wrong: a load sees a
  time, and reads contents later, so it may hold a time together with contents that never had it. Exactly which
  writes can lose an update, among any loads, is `LossIff`: those with points, in the order of one load's three looks
  and three reads, at which the times are those of a later moment, the contents can be loaded, and some contents are
  not those of that moment. It is asked that some file never carries Go's zero time. A simple condition that rules
  this out is that no file ever shows a time again after contents in between that differ from the later ones
  (`SteadyWritersLoseNothing`, `SteadyWritersCannotLose`); always setting a new time is enough
  (`FreshTimesNeverMislead`). It is not needed in every case (`UnfitVersionIsNotLost`). Restoring an old version with
  its old time is not safe (`RestoredVersionIsLost`).
- A load in flight can serve an older version after a newer one (`OldVersionReturns`); the next load skips exactly if
  the older one is what is on disk (`LateSwap`).
- `New` can succeed without a certificate, exactly when all files carry Go's zero time
  (`NewServesDiskUnlessZeroTimes`); `GetConfigForClient` then panics. The same holds of any load beside others
  (`NothingServedIff`).
- The method label is meant to have bounded cardinality. Names without a known Service.Method are collapsed, and
  exactly those (`LabelsHaveKnownShape`), but every dot-free prefix of a known one gets a label of its own
  (`EveryPrefixHasItsLabel`).
- The reconnect backoff is capped only from the second sleep on, and doubling it panics for an initial value of 2^63
  seconds or more, always right after the first sleep (`BackoffClosedForm`, `Run`).

## Model

| member | source | states |
|---|---|---|
| `RegistrySpec.TickIsExact` | control-plane/internal/registry/registry.go:204-219 | a cleanup tick keeps precisely the nodes whose age is at most the threshold, leaves them as they were, adds the number of the others to the stale counter, and recomputes the gauges exactly if there are others |
| `RegistrySpec.RegisterLeaves` | control-plane/internal/registry/registry.go:74-94 | after a Register the node has the given address and resources, no tasks, and the ID one above the present one modulo 2^64, or 1; all other nodes are untouched |
| `RegistrySpec.HeartbeatLeaves` | control-plane/internal/registry/registry.go:99-111 | a heartbeat refreshes LastBeat and replaces the tasks of a present node only; it keeps address, resources and ID, adds one to the heartbeat counter and recomputes the task gauge, known node or not |
| `RegistrySpec.RemovalLeaves` | control-plane/internal/registry/registry.go:153-172 | a removal takes out the one node and recomputes both gauges; the conditional one does so exactly if the node is present with that ID, and otherwise changes nothing |
| `RegistrySpec.TaskViewIsLastWins` | control-plane/internal/registry/registry.go:104-107 | the stored task map has one key per distinct task ID of the heartbeat, holding its last status, and is no larger than the list |
| `RegistrySpec.LastStatusIsKept` | control-plane/internal/registry/registry.go:104-107 | by positions: each reported task ID is a key, and the status after which its ID does not come again is the one stored |
| `RegistrySpec.LastWinsIsUnique` | control-plane/internal/registry/registry.go:96-98 | that description determines the map: no other content satisfies it |
| `RegistryHistory.EntryIsProjection` | control-plane/internal/registry/registry.go:74-219 | after any run a node's entry is what replaying only its own events and the ticks gives |
| `RegistryHistory.DifferentNodesCommute` | control-plane/internal/registry/registry.go:74-172 | operations on different nodes commute on the map |
| `RegistryHistory.ConnectionIdCountsRegisters` | control-plane/internal/registry/registry.go:80-91 | in every reachable state the connection ID is the number of Registers since the node's last removal of any kind, modulo 2^64, and the node is present exactly when that number is positive |
| `RegistryHistory.ZeroMeansAbsent` | control-plane/internal/registry/registry.go:174-182 | below 2^64 registrations ID 0 is reported exactly for absent nodes |
| `RegistryHistory.OnlyRegisterAdmits` | control-plane/internal/registry/registry.go:99-111 | without a Register an absent node stays absent over any run: heartbeats never resurrect it |
| `RegistryHistory.ConnectionIdOverInterval` | control-plane/internal/registry/registry.go:80-83 | while a node stays present its ID grows by exactly the number of its Registers |
| `RegistryHistory.TasksAreLatestReport` | control-plane/internal/registry/registry.go:96-108 | in every reachable state a node's tasks are the last-wins view of its latest heartbeat since its last Register, empty if none, and each status sits under its own ID |
| `RegistryHistory.LastBeatIsLastRefresh` | control-plane/internal/registry/registry.go:84-103 | LastBeat is the instant of the last Register or heartbeat naming the node |
| `RegistryHistory.TaskGaugeDrift` | control-plane/internal/registry/registry.go:84-111 | in every reachable state TasksRunning is the sum of all task maps plus the tasks discarded by re-registrations since the last recompute |
| `RegistryHistory.TaskGaugeNeverLow` | control-plane/internal/registry/registry.go:110 | TasksRunning never under-reports, and is exact right after a heartbeat and after every removal |
| `RegistryHistory.TaskGaugeCanDrift` | control-plane/internal/registry/registry.go:84-93 | a run after which the gauge says 1 and no node has a task |
| `RegistryHistory.Conservation` | control-plane/internal/registry/registry.go:80-93 | over every run, registrations equal present nodes plus re-registrations plus stale, stream and explicit removals; RegisteredNodes is the map's size and HeartbeatsTotal counts every heartbeat call, for unknown nodes too |
| `RegistryTiming.StaysIffRefreshed` | control-plane/internal/registry/registry.go:194-222 | over a whole run a node that is not removed explicitly or by a close with its present ID stays exactly when every tick finds it refreshed within the threshold |
| `RegistryTiming.RefreshedNodeIsNeverEvicted` | control-plane/cmd/control-plane/main.go:90 | a node refreshed at gaps of at most 30 s is never evicted by cleanup, whatever closes and removals the run contains, and stays if none of them removes it |
| `RegistryTiming.ListedWasFreshAtLastTick` | control-plane/internal/registry/registry.go:204-213 | in every reachable state each listed node was fresh at the last tick |
| `RegistryTiming.SilentNodeIsGone` | control-plane/internal/registry/registry.go:196-222 | with ticks at most 10 s apart a listed node has been heard from within the last 40 s |
| `RegistryTiming.SilentNodeMayLinger` | control-plane/internal/registry/registry.go:208 | a run in which a node silent for 40 s is still listed: the bound cannot be lowered |
| `Registry.NodeRegistry.Register` | control-plane/internal/registry/registry.go:74-94 | on the heap, a panic without any change exactly on nil resources, and otherwise exactly the Register step on map and metrics; the node is a new object that keeps the caller's message, and all other nodes keep their objects |
| `Registry.NodeRegistry.UpdateHeartbeat` | control-plane/internal/registry/registry.go:99-111 | updating the NodeInfo in place is exactly the Heartbeat step; only that one object and the metrics are written |
| `Registry.NodeRegistry.TotalTasksLocked` | control-plane/internal/registry/registry.go:186-192 | the accumulating loop, in any order, returns the sum of all task-map sizes |
| `Registry.NodeRegistry.Remove` | control-plane/internal/registry/registry.go:153-159 | exactly the Remove step, for an unknown ID too; the other nodes keep their objects |
| `Registry.NodeRegistry.RemoveIfConnectionMatches` | control-plane/internal/registry/registry.go:164-172 | removes and recomputes exactly on a matching ID, and otherwise changes nothing at all |
| `Registry.NodeRegistry.ConnectionID` | control-plane/internal/registry/registry.go:175-182 | the stored ID, or 0 for an unknown node |
| `Registry.EvictStale` | control-plane/internal/registry/registry.go:206-213 | the deleting loop leaves precisely the fresh nodes, as the objects they were, and counts the deleted ones, whatever the order |
| `Registry.NodeRegistry.CleanupTick` | control-plane/internal/registry/registry.go:204-219 | one firing of the ticker is exactly the Tick step, and every survivor keeps its object |
| `Registry.NodeRegistry.StaleNodeCleanup` | control-plane/internal/registry/registry.go:196-222 | the cleanup goroutine is the run of its ticks |
| `Registry.NodeRegistry.IntactKept` | control-plane/internal/registry/registry.go:84-91 | a method that writes only to the registry's own objects leaves every kept message as it was registered, if it was so before |
| `Registry.NodeResources.Clone` | control-plane/internal/registry/registry.go:132 | the copy agrees field by field, down to each GPU, and every object in it is new |
| `Registry.NodeRegistry.GetAll` | control-plane/internal/registry/registry.go:113-150 | exactly one summary per registered node with equal values; all objects fresh, and disjoint between summaries |
| `Registry.ShowsEveryField` | control-plane/internal/registry/registry.go:118-147 | a summary shows its node exactly if every field agrees: address, LastBeat, connection ID, host name, and the CPU, memory and GPU messages field by field |
| `KeptMessages.LockRegionKeepsIntact` | control-plane/internal/registry/registry.go:74-219 | so no lock region of any kind alters a kept message |
| `KeptMessages.KeptMessageSays` | control-plane/internal/registry/registry.go:87 | after any run of lock regions and writes to messages, the message kept for a node says what was last written to it since the node's registration, or what was registered |
| `KeptMessages.ShownAsRegisteredIff` | control-plane/internal/registry/registry.go:113-117 | a node is shown as it registered exactly when its message was not written to since, or says the same again |
| `KeptMessages.IntactIff` | control-plane/internal/registry/registry.go:132-137 | on the heap, after any run, snapshots show the registry's state exactly when this holds of every node |
| `KeptMessages.AlteredMessageIsShown` | control-plane/internal/registry/registry.go:87 | a run in which the owner alters its message and the snapshot shows the new value while the state says the old one |
| `KeptMessages.SnapshotsAreIsolated` | control-plane/internal/registry/registry_test.go:186-345 | any run, a snapshot, any further run, then a write to one of the snapshot's summaries: the other summaries still show the nodes as they were, and the next snapshot shows every node as the whole run has left it |
| `Validator.AcceptedNodeIds` | control-plane/internal/validator/validator.go:44-63 | accepted are exactly the IDs of 1 to 255 characters that start with a letter or digit and go on with letters, digits, hyphens, underscores and dots; the reason given is the first that applies of empty, NUL, too long, bad characters |
| `Validator.AcceptedTexts` | control-plane/internal/validator/validator.go:180-205 | addresses are refused exactly for a NUL or more than 512 characters, versions for a NUL or more than 64, heartbeats for more than 10,000 tasks |
| `Validator.ValidateAll` | control-plane/internal/agent/agent.go:197-205 | passes exactly if all checks pass, otherwise returns the first failure and its position |
| `HeartbeatProtocol.AlwaysHonest` | control-plane/internal/agent/agent.go:260-264 | in every reachable state the ID a stream holds is the one its node had when the stream read it, with anything between capture and first update |
| `HeartbeatProtocol.CloseRemovesIffSameCount` | control-plane/internal/registry/registry.go:161-172 | in every reachable state a close removes the node exactly when its present stay has seen as many Registers as its stay had at the capture |
| `HeartbeatProtocol.CloseSparesReconnectedNode` | control-plane/internal/registry/registry.go:161-163 | over every run, if the node was present since the capture, the close removes it exactly when no Register came since (modulo 2^64) |
| `HeartbeatProtocol.UnknownNodeStreamRemovesNothing` | control-plane/internal/agent/agent.go:260 | a stream opened on an unknown node removes nothing, save after a positive multiple of 2^64 Registers |
| `HeartbeatProtocol.SupersededStreamRefreshes` | control-plane/internal/agent/agent.go:315 | a run in which a stream that holds ID 1 refreshes the registration with ID 2 |
| `HeartbeatProtocol.OldStreamRemovesNewRegistration` | control-plane/internal/registry/registry.go:80-83 | a run in which the node is removed as stale, registers again with ID 1, and the old stream's close removes it |
| `HeartbeatProtocol.HandlersKeepBounds` | control-plane/internal/agent/agent.go:308-315 | in every state reachable through the handlers IDs have 1 to 255 safe characters, a node holds at most 10,000 tasks, and TasksRunning is at most 10,000 times the nodes |
| `HeartbeatProtocol.HandlerFollowsMachine` | control-plane/internal/agent/agent.go:236-322 | a handler that nothing interleaves with goes through the lock regions of the stream machine, and nothing after its end |
| `HeartbeatProtocol.AcceptedMessages` | control-plane/internal/agent/agent.go:253-256 | a heartbeat message is accepted exactly if it names an ID of the form above and carries at most 10,000 statuses |
| `AgentServer.HandlerEventsAre` | control-plane/internal/agent/agent.go:236-322 | the lock regions of a handler: one heartbeat for each message before the stop, then the conditional removal with the ID read at the start exactly if the stream ended or broke after the first acknowledgement |
| `AgentServer.HandlerResultIs` | control-plane/internal/agent/agent.go:243-322 | how the handler returns, each way exactly when: a failed acknowledgement of an accepted first message, or the first end, error or refused message after accepted ones |
| `AgentServer.AgentServer.Register` | control-plane/internal/agent/agent.go:211-234 | refuses exactly for a bad node ID, an address with a NUL or over 512 characters, or a version with a NUL or over 64, with the field and reason of the first of these in that order; panics on nil resources that passed; otherwise registers and answers with an interval of 5000 ms; the registry changes in the last case only |
| `AgentServer.AgentServer.Heartbeat` | control-plane/internal/agent/agent.go:236-322 | for any received messages, the registry after the handler is the run of the handler's lock regions, and the way it returned is the one they call for |
| `InterleavedServer.Interleave` | control-plane/internal/agent/agent.go:211-322 | for any interleaving of Register calls, stream moves and ticks performed on the objects, the heap registry, its metrics and every stream end up as the protocol says |
| `TlsWriters.SteadyWritersLoseNothing` | control-plane/internal/tlsreload/reloader.go:67-197 | if the writes never let a served file show a time again after contents in between that differ from the later ones, then in any run of loads beside them recorded times that are the files' times mean that the contents are served |
| `TlsLoss.LossIff` | control-plane/internal/tlsreload/reloader.go:67-127 | for every writer of the three files, every configuration and any parsers, where some file never carries the zero time: some run with these writes, among any loads, ends with recorded times that are the files' and contents that are not, if and only if the writes have losing points |
| `TlsLoss.LostHasPoints` | control-plane/internal/tlsreload/reloader.go:67-127 | one direction, for zero times too: whatever loads interleave, a lost update comes from the six points at which one load saw and read |
| `TlsLoss.LosingPointsLose` | control-plane/internal/tlsreload/reloader.go:92-127 | the other: a run with the writes and one load after which that load's contents are served and every later load on that disk skips |
| `TlsLoss.LoadsAt` | control-plane/internal/tlsreload/reloader.go:67-127 | among any writes one load can see and read at any points in the order of the code |
| `TlsLoss.SteadyWritersCannotLose` | control-plane/internal/tlsreload/reloader.go:78-127 | the simple condition leaves no losing points |
| `TlsLoss.UnfitVersionIsNotLost` | control-plane/internal/tlsreload/reloader.go:97-100 | writes that break the simple condition and lose nothing, because the version in between does not fit the key |
| `TlsWriters.FreshTimesNeverMislead` | control-plane/internal/tlsreload/reloader.go:176-177 | a writer that always sets a time the file never had meets the condition |
| `TlsLoss.RestoredVersionIsLost` | control-plane/internal/tlsreload/reloader.go:69-127 | the writes (A, 1), (B, 2), (A, 1) and a load that stats the first and reads the second: B is served for good |
| `TlsWriters.SteadyIff` | control-plane/internal/tlsreload/reloader.go:78-127 | the condition on a file's history is the same told by three points of it or write by write, from the times had and the contents that can be held with them |
| `TlsWriters.SteadyWritersConverge` | control-plane/internal/tlsreload/reloader.go:165-197 | once such a writer stops and no load is in flight, any load that returns without error leaves the disk being served, or nothing where all times are zero |
| `TlsReload.DiskStepIff` | control-plane/internal/tlsreload/reloader.go:67-127 | a change of the files keeps "if the time seen still holds, the data read is current" for the reloader and every load exactly if it does not give a time seen or recorded to contents other than those held together with it |
| `TlsReload.TrackingAlways` | control-plane/internal/tlsreload/reloader.go:67-197 | that invariant survives every interleaving of loads and writes harmless in this sense |
| `TlsReload.NoLostUpdate` | control-plane/internal/tlsreload/reloader.go:176-177 | under any such interleaving (`TlsWriters` says which writers give only such), recorded times equal to the files' times mean that certificate, key and CA served are the file contents |
| `TlsReload.NoLostCertificate` | control-plane/internal/tlsreload/reloader.go:78 | the same for the certificate file alone |
| `TlsReload.ServedIsValid` | control-plane/internal/tlsreload/reloader.go:96-115 | whatever is written, what is served parsed as a pair, and a CA pool is there, parsed and required exactly when the CA path is not empty |
| `TlsReload.QuietLoadsConverge` | control-plane/internal/tlsreload/reloader.go:165-197 | once writes stop and no load is in flight, any later load that returns without error, however loads interleave, leaves exactly the disk being served, or nothing where nothing was ever loaded and all files carry the zero time |
| `TlsReload.AloneIsLoadSeen` | control-plane/internal/tlsreload/reloader.go:67-136 | the step machine with no other load in between is the sequential load, error for error, while the files change underneath |
| `TlsReload.LoadIs` | control-plane/internal/tlsreload/reloader.go:67-136 | each error, no change and a reload exactly when; in particular a missing or unparsable CA file at a path that is not empty fails every load that has found a change, and a reload records the times seen and holds the contents read, with a CA exactly if there is such a path |
| `TlsReload.IOErrorEnds` | control-plane/internal/tlsreload/reloader.go:69-113 | a failing stat or read ends its load with the error of that access and touches neither the reloader, the files nor another load |
| `TlsReload.NewServesDiskUnlessZeroTimes` | control-plane/internal/tlsreload/reloader.go:46-62 | after a successful New the disk is served, except that nothing is loaded exactly when all files carry the zero time |
| `TlsReload.WriteIsNoticedIff` | control-plane/internal/tlsreload/reloader.go:78-94 | in a settled state the load after a write to a served file skips exactly if the write carries the recorded time, and the write is lost exactly if it also brings other contents |
| `TlsReload.NothingServedIff` | control-plane/internal/tlsreload/reloader.go:92-127 | under any writes and interleavings, a load that ends without error leaves no certificate exactly when all the times it saw were zero and no load has swapped; otherwise there is a certificate from then on |
| `TlsReload.HeldContentsHideWrite` | control-plane/internal/tlsreload/reloader.go:96-127 | a write after which the times a load in flight has seen are the present ones, but the contents it has read are not, is lost if that load succeeds |
| `TlsReload.LateSwap` | control-plane/internal/tlsreload/reloader.go:118-127 | a swap serves what its load has read, and the next load skips exactly if that is still on disk, in which case the disk is served |
| `TlsReload.OldVersionReturns` | control-plane/internal/tlsreload/reloader.go:67-127 | a run of two loads and a write in which the new certificate is served and then the old one again |
| `CertReloader.CertReloader.New` | control-plane/internal/tlsreload/reloader.go:52-62 | an object exactly if the first load succeeded, with that load's result; after a reload it holds the pair read, and the CA read exactly if the CA path is not empty |
| `CertReloader.CertReloader.Load` | control-plane/internal/tlsreload/reloader.go:67-136 | for whatever each file access finds, the fields after it are those of the sequential load: after a reload the pair read, the times seen, and the CA read exactly if the CA path is not empty; an error leaves them; only a real reload counts as success; with a missing or unparsable CA at such a path it succeeds only if nothing has changed |
| `CertReloader.CertReloader.GetConfigForClient` | control-plane/internal/tlsreload/reloader.go:150-163 | the certificate served, and client certificates required and checked against the loaded pool exactly when a CA was loaded; a panic exactly if there is no certificate |
| `CertReloader.CertReloader.Reload` | control-plane/internal/tlsreload/reloader.go:169-174 | one load; counted as success or failure, or not at all if nothing had changed |
| `CertReloader.CertReloader.Watch` | control-plane/internal/tlsreload/reloader.go:182-197 | the polling goroutine is the sequence of its loads and counts the failing ones |
| `CertReloader.FailingPollsKeepServing` | control-plane/internal/tlsreload/reloader.go:180-181 | any number of failing polls keep the old certificate, and the first good disk after them is served |
| `Reconnect.BackoffClosedForm` | agent/src/main.rs:113-114 | the n-th sleep since the start or the last success is the initial backoff for n = 0 and the smaller of 60 s and its 2^n-fold after |
| `Reconnect.Agent.Turn` | agent/src/main.rs:136-249 | a turn shuts down exactly if the session's first event other than an instruction or a tick taken is Ctrl-C, stays in the session exactly if there is no such event, and gives up exactly after a positive maximum of failures in a row; counter, backoff and sleeps keep their meaning in the history, and the counter never exceeds a positive maximum |
| `Reconnect.Run` | agent/src/main.rs:112-249 | for any attempts: shut down, in session and given up exactly as the last attempt made says, in terms of its events and of the failures in a row, and no earlier attempt could have stopped it; an overflow only after the first sleep; it sleeps for the initial backoff first and after a success, and otherwise twice as long as before, up to 60 s |
| `Reconnect.RunUntilGivenUp` | agent/src/main.rs:136-249 | with finitely many successes and sessions that end in a reconnect the unbounded loop terminates, at the first point where it may give up |
| `Reconnect.AllFailuresSleeps` | agent/src/main.rs:245-248 | n failing attempts sleep the sum of min(b0·2^i, 60) seconds in all, at most 60·n |
| `Reconnect.NeverConnects` | agent/src/main.rs:228-248 | an agent that never connects gives up after exactly max − 1 sleeps for any initial backoff, or panics after the first sleep if the doubling overflows; from at most 60 s it sleeps at most 60·(max − 1) seconds in all |
| `AgentSession.RunSession` | agent/src/main.rs:155-216 | shutdown exactly if Ctrl-C, reconnect exactly if the end of the stream or a refused request, is the first event other than an instruction or a tick taken; the requests queued are 0, 1, 2, … modulo 2^64 without gap or repeat, all for the registered node, one more than the ticks taken before the end |
| `AgentSession.HeartbeatConnection.SendHeartbeat` | agent/src/heartbeat.rs:70-86 | appends one request with the stored node ID, or reports the closed channel and appends nothing |
| `HeartbeatChannels.ForwardAll` | agent/src/heartbeat.rs:230-261 | the reader's loop forwards pending before cancel within a response, in order, skipping empty lists |
| `HeartbeatChannels.NothingLostOrReordered` | agent/src/heartbeat.rs:210-261 | in every interleaving, while the connection lives, delivered plus queued plus in flight are exactly the instructions of the responses sent while the reader waited, in order; delivered is always a prefix of them; at most 256 wait |
| `HeartbeatChannels.EverythingDrains` | agent/src/heartbeat.rs:230-261 | from every reachable state of a living connection, once the main loop and the reader get on, exactly those instructions have been delivered, and the reader waits again unless it has met the end |
| `HeartbeatChannels.EverythingIsDelivered` | agent/src/heartbeat.rs:230-249 | any list of responses sent one after the other is taken and delivered in full, in order |
| `HeartbeatChannels.FirstIsTaken` | agent/src/heartbeat.rs:232-233 | the first response of any run is taken, whatever came before it |
| `HeartbeatChannels.FlattenIs` | agent/src/heartbeat.rs:237-248 | what a response adds: its pending tasks, then its cancellations, each only if not empty |
| `HeartbeatChannels.EndIsSeen` | agent/src/heartbeat.rs:250-258 | with everything delivered, the end of the stream leaves a finished reader and an empty queue, so next_instruction yields None |
| `HeartbeatChannels.DropEndsDelivery` | agent/src/heartbeat.rs:61-65 | after a drop nothing more is delivered whatever happens, and the abort ends the reader |
| `HeartbeatChannels.NoneMeansDrained` | agent/src/heartbeat.rs:88-92 | when next_instruction yields None, every instruction of every response taken has been delivered |
| `HeartbeatChannels.BackpressureReleases` | agent/src/heartbeat.rs:210-212 | a reader that cannot get on is waiting for a full queue, and taking one instruction releases it |
| `HeartbeatChannels.TakenIsNumberedPrefix` | agent/src/heartbeat.rs:193-226 | with the loop's own counter, a send that may wait or fail, and a stream that may go away, what has been taken is always 0, 1, 2, … modulo 2^64 of this node, and at most 16 wait |
| `HeartbeatChannels.TickComesTo` | agent/src/main.rs:172-186 | in every reachable state in which the loop runs, a tick puts the next request into a channel with space, waits on a full one, and fails on a closed one |
| `HeartbeatChannels.TakeReleases` | agent/src/heartbeat.rs:193-226 | a send that waits for a full channel goes through once a request is taken |
| `HeartbeatChannels.BeatsArrive` | agent/src/heartbeat.rs:214-226 | n ticks, each sent and taken, have brought n + 1 requests to the server |
| `HeartbeatChannels.CloseIsNoticed` | agent/src/heartbeat.rs:82-85 | a stream that goes away fails the send that is under way |
| `HeartbeatChannels.SessionOverChannel` | agent/src/main.rs:172-186 | the session that sees the same ticks puts exactly what the channel has carried or holds, and ends exactly when the loop has met the closed end |
| `MethodLabels.LabelCache.SanitizeMethod` | control-plane/internal/metrics/metrics.go:178-201 | whatever the cache holds, the label is that of the cache-free classification, and only that label may be added |
| `MethodLabels.CacheIsTransparent` | control-plane/internal/metrics/metrics.go:182-197 | in every interleaving of calls that look into the cache and store later, every answer is that of the classification |
| `MethodLabels.LabelsHaveKnownShape` | control-plane/internal/metrics/metrics.go:172-198 | a known Service.Method, alone or after one or two dot-free components, is its own label, every other name gets the one catch-all label; a name is normalized by dropping one leading slash and turning the others into dots |
| `MethodLabels.LabelsOfPackage` | control-plane/internal/metrics/metrics.go:178-220 | full names of this package: the twelve listed methods have their own labels, every other service and method gets "unknown_method" |
| `MethodLabels.LabelsWithoutPackage` | control-plane/internal/metrics/metrics.go:182-197 | the same methods without a package keep their names |
| `MethodLabels.EveryPrefixHasItsLabel` | control-plane/internal/metrics/metrics.go:188-194 | each dot-free prefix of a known method gives a label of its own, so labels are not finitely many |

## Left out

- Generated protobuf code and accessors: only the field shapes needed are kept; resources keep a few fields of each message.
- The stub RPCs (ExecuteTask and the memory calls), REST, bearer tokens and the API key, logging, source positions, hardware probing, scripts, dashboards: one-branch or I/O code.
- The periodic acknowledgement goroutine of a stream: transport only, it never touches the registry.
- Latency histograms, request and stream metrics, Prometheus itself: metrics are integer fields.
- TLS, X.509 and PEM: the pair and the CA parser are arbitrary predicates on contents. The minimum TLS version is not modelled.
- The data race on the unlocked reads of the recorded times: each read is one atomic step, and the three are not taken to be a consistent snapshot.
- Whether opening the heartbeat stream can wait for its first message: the channels start from an established stream.
- Go slices of GPUs and pointers to task statuses are values; CPU, memory and GPU messages are objects. Fields of NodeInfo that the code never assigns after creation are constants.
- In the runs of `KeptMessages` a write replaces what one message says; two messages that share a part are not written through that part.
- Strings are sequences of characters that stand for bytes.
- Debug builds of the agent panic when `attempt` or `sequence` overflows; the model wraps them, as release builds do. `attempt` can get there only with unlimited attempts.
- The lower bound of 1000 ms on the heartbeat interval, the contents of utilization reports, and time inside a session.
- Explicit `Remove` is part of the registry's runs but not of `HeartbeatProtocol`, since no handler calls it.
- Registry.EvictStale: works on copies of the map that `CleanupTick` then stores, instead of deleting from the field, since both happen under one lock.
- CertReloader.CertReloader.Load: no other load swaps during it; that is the subject of `TlsReload`.
- TlsLoss.LossIff: asks that some file never carries Go's zero time; a load that sees only zero times looks like one that has nothing to do, and can lose an update only after another load has swapped. That a lost update has losing points holds without it.
- RegistryTiming.RefreshedNodeIsNeverEvicted: assumes clock readings that do not go back; so do the other timing results where they say so.
- Reconnect.RunUntilGivenUp: assumes finitely many successful connects, sessions that end in a reconnect, and no overflow of the first doubling; without these the loop need not give up.
