/** The heap registry under any interleaving of handlers, streams and cleanup ticks: performing the moves of
    HeartbeatProtocol one after the other leaves the state that the protocol says. */
module InterleavedServer {
  import AgentServer
  import opened HeartbeatProtocol
  import opened KeptMessages
  import opened Registry
  import opened RegistrySpec

  // What is kept outside the registry: where each stream stands, and how many lock regions there have been.
  datatype Book = Book(streams: map<nat, Stream>, regions: nat)

  ghost predicate InStep(r: NodeRegistry, book: Book, s: System)
    reads r, r.nodes.Values, r.metrics
  {
    r.Valid() && r.Model() == Run(s.log) && book == Book(s.streams, |s.log|)
  }

  lemma RunLog(s: System, e: Event)
    ensures Run(Log(s, e).log) == Step(Run(s.log), e)
    ensures Run(s.log).nodes == NodesAfter(s.log)
  {
    RunSnoc(INIT, s.log, e);
    RunNodes(s.log);
  }

  method RegisterMove(server: AgentServer.AgentServer, book: Book, now: int, q: RegisterRequest, ghost s: System)
    returns (book': Book)
    requires InStep(server.registry, book, s)
    modifies server.registry.Repr()
    ensures InStep(server.registry, book', Apply(s, RegisterCall(now, q)))
    ensures fresh(server.registry.Repr() - old(server.registry.Repr()))
  {
    var message := Build(q.resources);
    var result := server.Register(q.nodeId, q.address, q.version, message, now);
    RunLog(s, Register(now, q.nodeId, q.address, q.resources));
    book' := if result.Accepted? then book.(regions := book.regions + 1) else book;
  }

  // A heartbeat region, by whichever stream; the stream's own record is the caller's business.
  method HeartbeatMove(r: NodeRegistry, book: Book, now: int, m: Message, ghost s: System)
    returns (book': Book)
    requires InStep(r, book, s)
    modifies r.Repr()
    ensures InStep(r, book', Log(s, Heartbeat(now, m.nodeId, m.tasks))) && r.Repr() == old(r.Repr())
  {
    r.UpdateHeartbeat(m.nodeId, m.tasks, now);
    RunLog(s, Heartbeat(now, m.nodeId, m.tasks));
    book' := book.(regions := book.regions + 1);
  }

  method CloseMove(r: NodeRegistry, book: Book, now: int, id: string, connectionId: nat, ghost s: System)
    returns (book': Book)
    requires InStep(r, book, s)
    modifies r.Repr()
    ensures InStep(r, book', Log(s, RemoveIf(now, id, connectionId))) && r.Repr() <= old(r.Repr())
  {
    r.RemoveIfConnectionMatches(id, connectionId, now);
    RunLog(s, RemoveIf(now, id, connectionId));
    book' := book.(regions := book.regions + 1);
  }

  method CleanupMove(r: NodeRegistry, book: Book, now: int, threshold: int, ghost s: System)
    returns (book': Book)
    requires InStep(r, book, s)
    modifies r.Repr()
    ensures InStep(r, book', Log(s, Tick(now, threshold))) && r.Repr() <= old(r.Repr())
  {
    r.CleanupTick(now, threshold);
    RunLog(s, Tick(now, threshold));
    book' := book.(regions := book.regions + 1);
  }

  method CaptureMove(r: NodeRegistry, book: Book, sid: nat, ghost s: System) returns (book': Book)
    requires InStep(r, book, s)
    ensures InStep(r, book', Apply(s, Capture(sid)))
  {
    RunNodes(s.log);
    book' := book;
    if sid in book.streams && book.streams[sid].Received? {
      var first := book.streams[sid].first;
      var connID := r.ConnectionID(first.nodeId);
      book' := Turn(book, sid, Captured(first, connID, book.regions));
    }
  }

  function Turn(book: Book, sid: nat, st: Stream): Book {
    book.(streams := book.streams[sid := st])
  }

  // The moves of one stream.
  method StreamMove(server: AgentServer.AgentServer, book: Book, v: Move, ghost s: System) returns (book': Book)
    requires InStep(server.registry, book, s) && !v.RegisterCall? && !v.Cleanup? && !v.Capture?
    modifies server.registry.Repr()
    ensures InStep(server.registry, book', Apply(s, v)) && server.registry.Repr() <= old(server.registry.Repr())
  {
    var r := server.registry;
    book' := book;
    match v
    case First(sid, m) =>
      if sid !in book.streams {
        var rejected := server.Rejects(m);
        book' := Turn(book, sid, if rejected then Closed else Received(m));
      }
    case FirstUpdate(sid, now) =>
      if sid in book.streams && book.streams[sid].Captured? {
        var st := book.streams[sid];
        var next := Updated(st.first.nodeId, st.connectionId, st.at);
        book' := HeartbeatMove(r, Turn(book, sid, next), now, st.first, Become(s, sid, next));
      }
    case Ack(sid, sent) =>
      if sid in book.streams && book.streams[sid].Updated? {
        var st := book.streams[sid];
        book' := Turn(book, sid, if sent then Open(st.nodeId, st.connectionId, st.at) else Closed);
      }
    case Receive(sid, now, m) =>
      if sid in book.streams && book.streams[sid].Open? {
        var rejected := server.Rejects(m);
        if rejected {
          book' := Turn(book, sid, Closed);
        } else {
          book' := HeartbeatMove(r, book, now, m, s);
        }
      }
    case End(sid, now) =>
      if sid in book.streams && book.streams[sid].Open? {
        var st := book.streams[sid];
        book' := CloseMove(r, Turn(book, sid, Closed), now, st.nodeId, st.connectionId, Become(s, sid, Closed));
      }
  }

  method PerformMove(server: AgentServer.AgentServer, book: Book, v: Move, ghost s: System) returns (book': Book)
    requires InStep(server.registry, book, s)
    modifies server.registry.Repr()
    ensures InStep(server.registry, book', Apply(s, v))
    ensures fresh(server.registry.Repr() - old(server.registry.Repr()))
  {
    match v
    case RegisterCall(now, q) => book' := RegisterMove(server, book, now, q, s);
    case Cleanup(now, threshold) => book' := CleanupMove(server.registry, book, now, threshold, s);
    case Capture(sid) => book' := CaptureMove(server.registry, book, sid, s);
    case _ => book' := StreamMove(server, book, v, s);
  }

  method NextMove(server: AgentServer.AgentServer, book: Book, moves: seq<Move>, i: nat) returns (book': Book)
    requires i < |moves| && InStep(server.registry, book, ApplyAll(START, moves[..i]))
    modifies server.registry.Repr()
    ensures InStep(server.registry, book', ApplyAll(START, moves[..i + 1]))
    ensures fresh(server.registry.Repr() - old(server.registry.Repr()))
  {
    Prefix(moves, i);
    book' := PerformMove(server, book, moves[i], ApplyAll(START, moves[..i]));
  }

  // Any moves in any order: the objects end up in the state that the protocol says, stream by stream and node
  // by node, metrics included.
  method Interleave(moves: seq<Move>) returns (server: AgentServer.AgentServer, book: Book)
    ensures server.registry.Valid()
    ensures server.registry.Model() == Run(ApplyAll(START, moves).log)
    ensures book.streams == ApplyAll(START, moves).streams
  {
    server := NewServer();
    assert moves[..0] == [];
    book := PerformFirst(server, moves, |moves|);
    assert moves[..|moves|] == moves;
  }

  method NewServer() returns (server: AgentServer.AgentServer)
    ensures fresh(server.registry.Repr()) && InStep(server.registry, Book(map[], 0), START)
  {
    var registry := new NodeRegistry();
    server := new AgentServer.AgentServer(registry);
  }

  method PerformFirst(server: AgentServer.AgentServer, moves: seq<Move>, n: nat) returns (book: Book)
    requires n <= |moves| && InStep(server.registry, Book(map[], 0), ApplyAll(START, moves[..0]))
    modifies server.registry.Repr()
    ensures InStep(server.registry, book, ApplyAll(START, moves[..n]))
  {
    book := Book(map[], 0);
    for i := 0 to n
      invariant fresh(server.registry.Repr() - old(server.registry.Repr()))
      invariant InStep(server.registry, book, ApplyAll(START, moves[..i]))
    {
      book := NextMove(server, book, moves, i);
    }
  }

  lemma Prefix(moves: seq<Move>, i: nat)
    requires i < |moves|
    ensures ApplyAll(START, moves[..i + 1]) == Apply(ApplyAll(START, moves[..i]), moves[i])
  {
    assert moves[..i + 1] == moves[..i] + [moves[i]];
    ApplyAllSnoc(START, moves[..i], moves[i]);
  }
}
