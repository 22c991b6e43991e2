/** The two bounded channels of a connected agent, under any interleaving of their ends: instructions from the
    response-reader task to the main loop, and heartbeat requests from the main loop to the gRPC stream. */
module HeartbeatChannels {
  import opened AgentSession
  import opened Options

  const INSTRUCTION_CAPACITY: nat := 256
  const REQUEST_CAPACITY: nat := 16

  // ----- instructions -----

  datatype Response = Response(pendingTasks: seq<string>, cancelTaskIds: seq<string>)
  datatype Instruction = PendingTasks(tasks: seq<string>) | CancelTasks(ids: seq<string>)

  // What the reader is about to do: wait for a response, or push what is left of the one it holds.
  datatype Reader = Reading | PushPending(r: Response) | PushCancel(r: Response) | Finished

  // `responses` is the history of responses read. Dropping the connection closes the receiving end.
  datatype Channel = Channel(
    responses: seq<Response>,
    reader: Reader,
    queue: seq<Instruction>,
    delivered: seq<Instruction>,
    dropped: bool)

  datatype Event =
    | ServerSends(r: Response)  // the reader's message() yields a response
    | ServerEnds                // ... or the end of the stream, or an error
    | Push                      // the reader gets on with the response it holds
    | NextInstruction           // the main loop takes one instruction, if there is one
    | DropConnection
    | Abort                     // the aborted reader task stops

  function Cancels(r: Response): seq<Instruction> {
    if r.cancelTaskIds == [] then [] else [CancelTasks(r.cancelTaskIds)]
  }

  // The instructions in one response: pending tasks before cancellations, empty lists skipped.
  function Instructions(r: Response): seq<Instruction> {
    (if r.pendingTasks == [] then [] else [PendingTasks(r.pendingTasks)]) + Cancels(r)
  }

  function Flatten(rs: seq<Response>): seq<Instruction> {
    if rs == [] then [] else Flatten(rs[..|rs| - 1]) + Instructions(rs[|rs| - 1])
  }

  // The reader's loop on its own, when its pushes never wait: this is the order everything below keeps to.
  method ForwardAll(responses: seq<Response>) returns (pushed: seq<Instruction>)
    ensures pushed == Flatten(responses)
  {
    pushed := [];
    for i := 0 to |responses|
      invariant pushed == Flatten(responses[..i])
    {
      var r := responses[i];
      assert responses[..i + 1][..i] == responses[..i];
      ghost var before := pushed;
      if r.pendingTasks != [] {
        pushed := pushed + [PendingTasks(r.pendingTasks)];
      }
      if r.cancelTaskIds != [] {
        pushed := pushed + [CancelTasks(r.cancelTaskIds)];
      }
      assert pushed == before + Instructions(r);
    }
    assert responses[..|responses|] == responses;
  }

  // send(): fails once the receiver is gone, waits while the channel is full.
  function Send(c: Channel, i: Instruction, next: Reader): Channel {
    if c.dropped then c.(reader := Finished)
    else if |c.queue| >= INSTRUCTION_CAPACITY then c
    else c.(queue := c.queue + [i], reader := next)
  }

  function Apply(c: Channel, e: Event): Channel {
    match e
    case ServerSends(r) =>
      if c.reader.Reading? then c.(responses := c.responses + [r], reader := PushPending(r)) else c
    case ServerEnds =>
      if c.reader.Reading? then c.(reader := Finished) else c
    case Push =>
      (match c.reader
       case PushPending(r) =>
         if r.pendingTasks == [] then c.(reader := PushCancel(r))
         else Send(c, PendingTasks(r.pendingTasks), PushCancel(r))
       case PushCancel(r) =>
         if r.cancelTaskIds == [] then c.(reader := Reading)
         else Send(c, CancelTasks(r.cancelTaskIds), Reading)
       case _ => c)
    case NextInstruction =>
      if c.dropped || c.queue == [] then c else c.(queue := c.queue[1..], delivered := c.delivered + [c.queue[0]])
    case DropConnection => c.(dropped := true)
    case Abort => if c.dropped then c.(reader := Finished) else c
  }

  const EMPTY := Channel([], Reading, [], [], false)

  function Run(es: seq<Event>): Channel {
    if es == [] then EMPTY else Apply(Run(es[..|es| - 1]), es[|es| - 1])
  }

  // Read, but not pushed yet.
  function InFlight(r: Reader): seq<Instruction> {
    match r
    case PushPending(resp) => Instructions(resp)
    case PushCancel(resp) => Cancels(resp)
    case _ => []
  }

  predicate IsPrefix(a: seq<Instruction>, b: seq<Instruction>) {
    |a| <= |b| && a == b[..|a|]
  }

  predicate Inv(c: Channel) {
    && |c.queue| <= INSTRUCTION_CAPACITY
    && IsPrefix(c.delivered + c.queue + InFlight(c.reader), Flatten(c.responses))
    && (!c.dropped || !c.reader.Finished? ==>
          c.delivered + c.queue + InFlight(c.reader) == Flatten(c.responses))
  }

  lemma FlattenSnoc(rs: seq<Response>, r: Response)
    ensures Flatten(rs + [r]) == Flatten(rs) + Instructions(r)
  {
    assert (rs + [r])[..|rs + [r]| - 1] == rs;
  }

  // What one more response adds: pending tasks before cancellations, and nothing for an empty list.
  lemma FlattenIs(rs: seq<Response>, r: Response)
    ensures Flatten([]) == []
    ensures Flatten(rs + [r]) == Flatten(rs) +
                                 if r.pendingTasks == [] && r.cancelTaskIds == [] then []
                                 else if r.cancelTaskIds == [] then [PendingTasks(r.pendingTasks)]
                                 else if r.pendingTasks == [] then [CancelTasks(r.cancelTaskIds)]
                                 else [PendingTasks(r.pendingTasks), CancelTasks(r.cancelTaskIds)]
  {
    FlattenSnoc(rs, r);
  }

  lemma PrefixCut(a: seq<Instruction>, more: seq<Instruction>, b: seq<Instruction>)
    requires IsPrefix(a + more, b)
    ensures IsPrefix(a, b)
  {
    assert (a + more)[..|a|] == a;
  }

  // After a Send that takes effect, what was in flight has moved to the queue, or is given up after a drop.
  lemma SendKeeps(c: Channel, i: Instruction, next: Reader)
    requires Inv(c) && InFlight(c.reader) == [i] + InFlight(next)
    ensures Inv(Send(c, i, next))
  {
    if c.dropped {
      PrefixCut(c.delivered + c.queue, InFlight(c.reader), Flatten(c.responses));
      assert c.delivered + c.queue + [] == c.delivered + c.queue;
    } else {
      assert c.delivered + (c.queue + [i]) + InFlight(next) == c.delivered + c.queue + ([i] + InFlight(next));
    }
  }

  lemma ReadKeeps(c: Channel, r: Response)
    requires Inv(c) && c.reader.Reading?
    ensures Inv(Apply(c, ServerSends(r)))
  {
    FlattenSnoc(c.responses, r);
    var before, all := c.delivered + c.queue, Flatten(c.responses);
    assert before + [] == before;
    assert (all + Instructions(r))[..|all + Instructions(r)|] == all + Instructions(r);
  }

  lemma TakeKeeps(c: Channel)
    requires Inv(c)
    ensures Inv(Apply(c, NextInstruction))
  {
    if !c.dropped && c.queue != [] {
      var c' := Apply(c, NextInstruction);
      assert c'.delivered + c'.queue == c.delivered + c.queue;
    }
  }

  lemma PushKeeps(c: Channel)
    requires Inv(c)
    ensures Inv(Apply(c, Push))
  {
    match c.reader
    case PushPending(r) =>
      if r.pendingTasks == [] {
        assert Instructions(r) == Cancels(r);
      } else {
        SendKeeps(c, PendingTasks(r.pendingTasks), PushCancel(r));
      }
    case PushCancel(r) =>
      if r.cancelTaskIds != [] {
        assert [CancelTasks(r.cancelTaskIds)] + [] == [CancelTasks(r.cancelTaskIds)];
        SendKeeps(c, CancelTasks(r.cancelTaskIds), Reading);
      }
    case _ =>
  }

  lemma {:induction false} InvAlways(es: seq<Event>)
    ensures Inv(Run(es))
  {
    if es == [] {
    } else {
      var c, e := Run(es[..|es| - 1]), es[|es| - 1];
      InvAlways(es[..|es| - 1]);
      match e
      case ServerSends(r) => if c.reader.Reading? { ReadKeeps(c, r); }
      case Push => PushKeeps(c);
      case NextInstruction => TakeKeeps(c);
      case Abort => PrefixCut(c.delivered + c.queue, InFlight(c.reader), Flatten(c.responses));
                    assert c.delivered + c.queue + [] == c.delivered + c.queue;
      case _ =>
    }
  }

  // The responses that the reader was there to take.
  function TakenResponses(es: seq<Event>): seq<Response> {
    if es == [] then []
    else
      var before, e := es[..|es| - 1], es[|es| - 1];
      TakenResponses(before) + if e.ServerSends? && Run(before).reader.Reading? then [e.r] else []
  }

  lemma {:induction false} ResponsesAreTaken(es: seq<Event>)
    ensures Run(es).responses == TakenResponses(es)
  {
    if es == [] {
    } else {
      ResponsesAreTaken(es[..|es| - 1]);
    }
  }

  // In every interleaving: while the connection lives, delivered plus queued plus in flight are exactly the
  // instructions of the responses taken, in order; what the main loop has been given is always a prefix of them;
  // and the queue is bounded.
  lemma NothingLostOrReordered(es: seq<Event>)
    ensures var c, all := Run(es), Flatten(TakenResponses(es));
            && (!c.dropped ==> c.delivered + c.queue + InFlight(c.reader) == all)
            && |c.delivered| <= |all| && c.delivered == all[..|c.delivered|]
            && |c.queue| <= 256
  {
    InvAlways(es);
    ResponsesAreTaken(es);
    DeliveredIsPrefix(Run(es));
  }

  lemma DeliveredIsPrefix(c: Channel)
    requires Inv(c)
    ensures IsPrefix(c.delivered, Flatten(c.responses))
    ensures !c.dropped ==> c.delivered + c.queue + InFlight(c.reader) == Flatten(c.responses)
  {
    assert c.delivered + c.queue + InFlight(c.reader) == c.delivered + (c.queue + InFlight(c.reader));
    PrefixCut(c.delivered, c.queue + InFlight(c.reader), Flatten(c.responses));
  }

  // next_instruction yields None when the reader is gone and the queue is empty: by then every instruction
  // of every response taken has been delivered.
  lemma NoneMeansDrained(es: seq<Event>)
    requires !Run(es).dropped && Run(es).reader.Finished? && Run(es).queue == []
    ensures Run(es).delivered == Flatten(TakenResponses(es))
  {
    NothingLostOrReordered(es);
    var c := Run(es);
    assert c.delivered + c.queue + InFlight(c.reader) == c.delivered;
  }

  // ----- everything gets through -----

  lemma {:induction false} RunConcat(a: seq<Event>, b: seq<Event>)
    ensures Run(a + b) == RunFrom(Run(a), b)
  {
    if b == [] {
      assert a + b == a;
    } else {
      var b', e := b[..|b| - 1], b[|b| - 1];
      RunConcat(a, b');
      assert (a + b)[..|a + b| - 1] == a + b';
    }
  }

  function RunFrom(c: Channel, es: seq<Event>): Channel {
    if es == [] then c else Apply(RunFrom(c, es[..|es| - 1]), es[|es| - 1])
  }

  lemma FromSnoc(c: Channel, es: seq<Event>, e: Event)
    ensures RunFrom(c, es + [e]) == Apply(RunFrom(c, es), e)
  {
    assert (es + [e])[..|es + [e]| - 1] == es;
  }

  function Takes(n: nat): seq<Event> {
    seq(n, i requires 0 <= i < n => NextInstruction)
  }

  // The main loop takes all that is queued, and then whatever the reader still holds comes through.
  function Drain(queued: nat): seq<Event> {
    Takes(queued) + [Push] + [NextInstruction] + [Push] + [NextInstruction]
  }

  lemma {:induction false} TakesEmpty(c: Channel, n: nat)
    requires !c.dropped && n <= |c.queue|
    ensures RunFrom(c, Takes(n)) == c.(delivered := c.delivered + c.queue[..n], queue := c.queue[n..])
  {
    if n == 0 {
      assert c.delivered + c.queue[..0] == c.delivered && c.queue[0..] == c.queue;
    } else {
      TakesEmpty(c, n - 1);
      assert Takes(n) == Takes(n - 1) + [NextInstruction];
      FromSnoc(c, Takes(n - 1), NextInstruction);
      assert c.delivered + c.queue[..n] == c.delivered + c.queue[..n - 1] + [c.queue[n - 1]];
      assert c.queue[n - 1..][1..] == c.queue[n..];
    }
  }

  // With an empty queue the reader pushes what it holds, list by list.
  lemma PushTake(c: Channel)
    requires !c.dropped && c.queue == []
    ensures var d := Apply(Apply(c, Push), NextInstruction);
            && d.queue == [] && !d.dropped && d.responses == c.responses
            && (c.reader.PushPending? ==>
                && d.reader == PushCancel(c.reader.r)
                && d.delivered == if c.reader.r.pendingTasks == [] then c.delivered
                                  else c.delivered + [PendingTasks(c.reader.r.pendingTasks)])
            && (c.reader.PushCancel? ==>
                && d.reader.Reading?
                && d.delivered == if c.reader.r.cancelTaskIds == [] then c.delivered
                                  else c.delivered + [CancelTasks(c.reader.r.cancelTaskIds)])
            && (c.reader.Reading? || c.reader.Finished? ==> d == c)
  {
  }

  lemma PushTakeTwice(c: Channel)
    requires !c.dropped && c.queue == []
    ensures var d := Apply(Apply(Apply(Apply(c, Push), NextInstruction), Push), NextInstruction);
            && d.queue == [] && !d.dropped && d.delivered == c.delivered + InFlight(c.reader)
            && d.responses == c.responses
            && d.reader == if c.reader.Finished? then Finished else Reading
  {
    PushTake(c);
    PushTake(Apply(Apply(c, Push), NextInstruction));
  }

  lemma DrainRun(c: Channel, n: nat)
    ensures RunFrom(c, Drain(n)) ==
            Apply(Apply(Apply(Apply(RunFrom(c, Takes(n)), Push), NextInstruction), Push), NextInstruction)
  {
    FromSnoc(c, Takes(n), Push);
    FromSnoc(c, Takes(n) + [Push], NextInstruction);
    FromSnoc(c, Takes(n) + [Push] + [NextInstruction], Push);
    FromSnoc(c, Takes(n) + [Push] + [NextInstruction] + [Push], NextInstruction);
  }

  lemma DrainFrom(c: Channel)
    requires !c.dropped
    ensures var d := RunFrom(c, Drain(|c.queue|));
            && d.queue == [] && !d.dropped && d.delivered == c.delivered + c.queue + InFlight(c.reader)
            && d.responses == c.responses
            && d.reader == if c.reader.Finished? then Finished else Reading
  {
    TakesEmpty(c, |c.queue|);
    DrainRun(c, |c.queue|);
    assert c.queue[..|c.queue|] == c.queue;
    PushTakeTwice(RunFrom(c, Takes(|c.queue|)));
  }

  // Whatever has happened, as long as the connection lives: once the main loop and the reader get on, everything
  // taken is delivered, and the reader waits for the next response if it has not met the end.
  lemma EverythingDrains(es: seq<Event>)
    requires !Run(es).dropped
    ensures var c, d := Run(es), Run(es + Drain(|Run(es).queue|));
            && d.delivered == Flatten(TakenResponses(es)) && d.queue == [] && !d.dropped
            && d.responses == c.responses
            && d.reader == if c.reader.Finished? then Finished else Reading
  {
    RunConcat(es, Drain(|Run(es).queue|));
    DrainFrom(Run(es));
    NothingLostOrReordered(es);
  }

  // Each response followed by what it takes to deliver it.
  function Deliveries(rs: seq<Response>): seq<Event> {
    if rs == [] then [] else Deliveries(rs[..|rs| - 1]) + [ServerSends(rs[|rs| - 1])] + Drain(0)
  }

  // Any responses, in this order: exactly their instructions are delivered.
  lemma {:induction false} EverythingIsDelivered(rs: seq<Response>)
    ensures var c := Run(Deliveries(rs));
            c.delivered == Flatten(rs) && c.queue == [] && c.reader.Reading? && !c.dropped
    ensures Run(Deliveries(rs)).responses == rs
  {
    if rs == [] {
    } else {
      var es, r := Deliveries(rs[..|rs| - 1]), rs[|rs| - 1];
      EverythingIsDelivered(rs[..|rs| - 1]);
      assert (es + [ServerSends(r)])[..|es + [ServerSends(r)]| - 1] == es;
      assert rs[..|rs| - 1] + [r] == rs;
      ResponsesAreTaken(es + [ServerSends(r)]);
      EverythingDrains(es + [ServerSends(r)]);
    }
  }

  // And then the end of the stream makes next_instruction yield None.
  lemma EndIsSeen(es: seq<Event>)
    requires var c := Run(es);
             c.reader.Reading? && c.queue == [] && !c.dropped
    ensures var c := Run(es + [ServerEnds]);
            c.reader.Finished? && c.queue == [] && !c.dropped && c.delivered == Run(es).delivered
  {
    assert (es + [ServerEnds])[..|es + [ServerEnds]| - 1] == es;
  }

  // The reader is waiting from the start, so the first response sent is taken.
  lemma FirstIsTaken(es: seq<Event>, r: Response)
    requires forall e | e in es :: !e.ServerSends? && !e.ServerEnds? && !e.Abort?
    ensures TakenResponses(es + [ServerSends(r)]) == [r]
  {
    WaitsForFirst(es);
    assert (es + [ServerSends(r)])[..|es + [ServerSends(r)]| - 1] == es;
  }

  lemma {:induction false} WaitsForFirst(es: seq<Event>)
    requires forall e | e in es :: !e.ServerSends? && !e.ServerEnds? && !e.Abort?
    ensures TakenResponses(es) == [] && Run(es).reader.Reading?
  {
    if es == [] {
    } else {
      WaitsForFirst(es[..|es| - 1]);
      assert es[|es| - 1] in es;
    }
  }

  // Dropping the connection cuts the main loop off for good, and aborting the reader task then ends it.
  lemma {:induction false} DropEndsDelivery(es: seq<Event>, more: seq<Event>)
    ensures var c := Run(es + [DropConnection] + more);
            c.dropped && c.delivered == Run(es).delivered
    ensures Abort in more ==> Run(es + [DropConnection] + more).reader.Finished?
  {
    var start := es + [DropConnection];
    assert start[..|start| - 1] == es;
    if more == [] {
      assert start + more == start;
    } else {
      var last := |more| - 1;
      DropEndsDelivery(es, more[..last]);
      assert (start + more)[..|start + more| - 1] == start + more[..last];
      assert more == more[..last] + [more[last]];
    }
  }

  // A reader that holds instructions and cannot get on is waiting for a full queue, and one instruction
  // taken by the main loop is enough to release it.
  lemma BackpressureReleases(es: seq<Event>)
    requires var c := Run(es); !c.dropped && InFlight(c.reader) != [] && Apply(c, Push) == c
    ensures var c := Run(es);
            && |c.queue| == 256
            && |InFlight(Apply(Apply(c, NextInstruction), Push).reader)| < |InFlight(c.reader)|
  {
    InvAlways(es);
  }

  // ----- requests -----

  // The event loop with its own counter, the request it is trying to put into the channel, and the channel that
  // the gRPC stream takes from. `log` is the session's history: one tick for every request put or refused.
  datatype Requests = Requests(
    nodeId: string,
    sequence: nat,
    pending: Option<HeartbeatRequest>,
    queue: seq<HeartbeatRequest>,
    taken: seq<HeartbeatRequest>,
    closed: bool,
    log: seq<SessionEvent>)

  datatype RequestEvent =
    | TickFires   // the loop counts and starts to send
    | SendEnds    // the send goes through, waits for space, or finds the receiving end closed
    | Take        // the gRPC stream takes one request
    | Close       // ... or goes away

  predicate Ended(q: Requests) {
    q.log != [] && Ends(q.log[|q.log| - 1])
  }

  function ApplyRequest(q: Requests, e: RequestEvent): Requests {
    match e
    case TickFires =>
      if q.pending.Some? || Ended(q) then q
      else
        var sequence := Successor(q.sequence);
        q.(sequence := sequence, pending := Some(HeartbeatRequest(q.nodeId, sequence, true)))
    case SendEnds =>
      if q.pending.None? then q
      else if q.closed then q.(pending := None, log := q.log + [Tick(false)])
      else if |q.queue| >= REQUEST_CAPACITY then q
      else q.(pending := None, queue := q.queue + [q.pending.value], log := q.log + [Tick(true)])
    case Take =>
      if q.closed || q.queue == [] then q else q.(queue := q.queue[1..], taken := q.taken + [q.queue[0]])
    case Close => q.(closed := true)
  }

  // connect has put the first request.
  function RunRequests(nodeId: string, es: seq<RequestEvent>): Requests {
    if es == [] then Requests(nodeId, 0, None, [HeartbeatRequest(nodeId, 0, false)], [], false, [])
    else ApplyRequest(RunRequests(nodeId, es[..|es| - 1]), es[|es| - 1])
  }

  // `count` requests have followed the first one.
  ghost predicate RequestInv(q: Requests, nodeId: string, count: nat) {
    && q.nodeId == nodeId && |q.queue| <= REQUEST_CAPACITY
    && count == AcceptedTicks(q.log)
    && q.taken + q.queue == Numbered(nodeId, 1 + count)
    && (!Ended(q) ==> q.sequence == Wrap(count + if q.pending.Some? then 1 else 0))
    && (q.pending.Some? ==> !Ended(q) && q.pending.value == HeartbeatRequest(nodeId, q.sequence, true))
    && (forall i | 0 <= i < |q.log| - 1 :: !Ends(q.log[i]))
  }

  lemma SendStep(q: Requests, nodeId: string, count: nat)
    requires RequestInv(q, nodeId, count)
    ensures RequestInv(ApplyRequest(q, SendEnds), nodeId, AcceptedTicks(ApplyRequest(q, SendEnds).log))
  {
    if q.pending.Some? {
      AcceptedSnoc(q.log, Tick(!q.closed));
      WrapNext(count);
      NumberedNext(nodeId, count);
      assert q.taken + (q.queue + [q.pending.value]) == q.taken + q.queue + [q.pending.value];
    }
  }

  lemma RequestStep(q: Requests, nodeId: string, count: nat, e: RequestEvent)
    requires RequestInv(q, nodeId, count)
    ensures RequestInv(ApplyRequest(q, e), nodeId, AcceptedTicks(ApplyRequest(q, e).log))
  {
    var q' := ApplyRequest(q, e);
    match e
    case TickFires => WrapNext(count);
    case SendEnds => SendStep(q, nodeId, count);
    case Take =>
      assert q'.taken + q'.queue == q.taken + q.queue;
    case Close =>
  }

  lemma {:induction false} RequestInvAlways(nodeId: string, es: seq<RequestEvent>)
    ensures RequestInv(RunRequests(nodeId, es), nodeId, AcceptedTicks(RunRequests(nodeId, es).log))
  {
    if es == [] {
      assert Numbered(nodeId, 1) == [HeartbeatRequest(nodeId, 0, false)];
    } else {
      var q := RunRequests(nodeId, es[..|es| - 1]);
      RequestInvAlways(nodeId, es[..|es| - 1]);
      RequestStep(q, nodeId, AcceptedTicks(q.log), es[|es| - 1]);
    }
  }

  // The server sees 0, 1, 2, ... of this node without a gap, however loop and stream interleave; at most 16
  // requests wait.
  lemma TakenIsNumberedPrefix(nodeId: string, es: seq<RequestEvent>)
    ensures var q := RunRequests(nodeId, es);
            && |q.queue| <= 16
            && forall i | 0 <= i < |q.taken| ::
                 q.taken[i] == HeartbeatRequest(nodeId, i % 0x1_0000_0000_0000_0000, i > 0)
    ensures var q := RunRequests(nodeId, es);
            q.taken == Numbered(nodeId, |q.taken|)
  {
    RequestInvAlways(nodeId, es);
    var q := RunRequests(nodeId, es);
    NumberedPrefix(nodeId, 1 + AcceptedTicks(q.log), q.taken, q.queue);
  }

  lemma NumberedPrefix(nodeId: string, n: nat, taken: seq<HeartbeatRequest>, queue: seq<HeartbeatRequest>)
    requires taken + queue == Numbered(nodeId, n)
    ensures taken == Numbered(nodeId, |taken|)
  {
    forall i | 0 <= i < |taken|
      ensures taken[i] == Numbered(nodeId, |taken|)[i]
    {
      assert (taken + queue)[i] == taken[i];
    }
  }

  lemma RequestsSnoc(nodeId: string, es: seq<RequestEvent>, e: RequestEvent)
    ensures RunRequests(nodeId, es + [e]) == ApplyRequest(RunRequests(nodeId, es), e)
  {
    assert (es + [e])[..|es + [e]| - 1] == es;
  }

  // The loop counts and tries to put the request of that number: on a closed channel the send fails, with space the
  // request is in the channel, and on a full one the loop waits.
  lemma TickFrom(q: Requests, nodeId: string, count: nat)
    requires RequestInv(q, nodeId, count)
    requires q.pending.None? && (q.log == [] || q.log[|q.log| - 1] == Tick(true))
    ensures var fired := ApplyRequest(ApplyRequest(q, TickFires), SendEnds);
            var next := HeartbeatRequest(nodeId, (|q.taken| + |q.queue|) % 0x1_0000_0000_0000_0000, true);
            && fired.taken == q.taken && fired.closed == q.closed
            && fired.log == q.log + (if q.closed then [Tick(false)] else if |q.queue| < 16 then [Tick(true)] else [])
            && fired.queue == q.queue + (if !q.closed && |q.queue| < 16 then [next] else [])
            && fired.pending == if !q.closed && |q.queue| == 16 then Some(next) else None
  {
    WrapNext(count);
    assert |q.taken + q.queue| == |Numbered(nodeId, 1 + count)|;
    assert q.queue + [] == q.queue && q.log + [] == q.log;
  }

  // So a tick comes to, in any reachable state in which the loop runs and has nothing to send.
  lemma TickComesTo(nodeId: string, es: seq<RequestEvent>)
    requires var q := RunRequests(nodeId, es);
             q.pending.None? && (q.log == [] || q.log[|q.log| - 1] == Tick(true))
    ensures var q := RunRequests(nodeId, es);
            var fired := RunRequests(nodeId, es + [TickFires] + [SendEnds]);
            var next := HeartbeatRequest(nodeId, (|q.taken| + |q.queue|) % 0x1_0000_0000_0000_0000, true);
            && fired.taken == q.taken && fired.closed == q.closed
            && fired.log == q.log + (if q.closed then [Tick(false)] else if |q.queue| < 16 then [Tick(true)] else [])
            && fired.queue == q.queue + (if !q.closed && |q.queue| < 16 then [next] else [])
            && fired.pending == if !q.closed && |q.queue| == 16 then Some(next) else None
  {
    var q := RunRequests(nodeId, es);
    RequestInvAlways(nodeId, es);
    TickFrom(q, nodeId, AcceptedTicks(q.log));
    TwoSteps(nodeId, es);
  }

  lemma TwoSteps(nodeId: string, es: seq<RequestEvent>)
    ensures RunRequests(nodeId, es + [TickFires] + [SendEnds]) ==
            ApplyRequest(ApplyRequest(RunRequests(nodeId, es), TickFires), SendEnds)
  {
    RequestsSnoc(nodeId, es, TickFires);
    RequestsSnoc(nodeId, es + [TickFires], SendEnds);
  }

  // A send that waits for a full channel goes through once a request is taken.
  lemma TakeReleases(nodeId: string, es: seq<RequestEvent>)
    requires var q := RunRequests(nodeId, es);
             q.pending.Some? && !q.closed && |q.queue| == 16
    ensures RunRequests(nodeId, es + [SendEnds]) == RunRequests(nodeId, es)
    ensures var q, passed := RunRequests(nodeId, es), RunRequests(nodeId, es + [Take] + [SendEnds]);
            && passed.log == q.log + [Tick(true)] && passed.pending.None?
            && passed.taken == q.taken + [q.queue[0]] && passed.queue == q.queue[1..] + [q.pending.value]
  {
    RequestsSnoc(nodeId, es, SendEnds);
    RequestsSnoc(nodeId, es, Take);
    RequestsSnoc(nodeId, es + [Take], SendEnds);
  }

  // n ticks, each sent and taken, after the request that connect has put.
  function Beats(n: nat): seq<RequestEvent> {
    if n == 0 then [Take] else Beats(n - 1) + [TickFires] + [SendEnds] + [Take]
  }

  predicate Sent(q: Requests, n: nat) {
    && |q.taken| == n + 1 && q.queue == [] && q.pending.None? && !q.closed
    && |q.log| == n && (n > 0 ==> q.log[n - 1] == Tick(true))
  }

  lemma {:induction false} BeatsArrive(nodeId: string, n: nat)
    ensures var q := RunRequests(nodeId, Beats(n));
            |q.taken| == n + 1 && q.queue == [] && !q.closed && Sent(q, n)
  {
    if n == 0 {
      RequestsSnoc(nodeId, [], Take);
      assert [] + [Take] == [Take];
    } else {
      BeatsArrive(nodeId, n - 1);
      BeatArrives(nodeId, Beats(n - 1), n - 1);
    }
  }

  lemma BeatArrives(nodeId: string, es: seq<RequestEvent>, n: nat)
    requires Sent(RunRequests(nodeId, es), n)
    ensures Sent(RunRequests(nodeId, es + [TickFires] + [SendEnds] + [Take]), n + 1)
  {
    TickComesTo(nodeId, es);
    RequestsSnoc(nodeId, es + [TickFires] + [SendEnds], Take);
  }

  // The stream going away is noticed by the first send after it.
  lemma CloseIsNoticed(nodeId: string, es: seq<RequestEvent>)
    ensures RunRequests(nodeId, es + [Close]) == RunRequests(nodeId, es).(closed := true)
    ensures var q, t := RunRequests(nodeId, es), RunRequests(nodeId, es + [Close] + [SendEnds]);
            q.pending.Some? ==> t.log == q.log + [Tick(false)] && t.taken == q.taken && t.queue == q.queue
  {
    RequestsSnoc(nodeId, es, Close);
    RequestsSnoc(nodeId, es + [Close], SendEnds);
  }

  // The session that sees the same ticks puts exactly the requests that the channel has carried or still holds,
  // and it ends exactly when the channel's loop has met the closed end.
  method SessionOverChannel(nodeId: string, es: seq<RequestEvent>)
    returns (conn: HeartbeatConnection, end: SessionEnd)
    ensures var q := RunRequests(nodeId, es);
            conn.requests == q.taken + q.queue && (end.Reconnect? <==> Tick(false) in q.log) && !end.Shutdown?
  {
    var q := RunRequests(nodeId, es);
    RequestInvAlways(nodeId, es);
    conn := new HeartbeatConnection(nodeId);
    end := RunSession(conn, q.log);
    HandledIsFirstEnd(q.log);
    TicksOnly(nodeId, es);
    assert q.log[..|q.log|] == q.log;
  }

  lemma {:induction false} TicksOnly(nodeId: string, es: seq<RequestEvent>)
    ensures forall e | e in RunRequests(nodeId, es).log :: e.Tick?
  {
    if es == [] {
    } else {
      TicksOnly(nodeId, es[..|es| - 1]);
    }
  }
}
