/** The agent's outer loop: connect, run the session, give up or back off, try again. */
module Reconnect {
  import opened AgentSession
  import opened MachineIntegers

  const MAX_BACKOFF: nat := 60  // seconds

  // What one call of connect yields: an error, or a session and the events it then sees.
  datatype Attempt = ConnectFailed | Connected(events: seq<SessionEvent>)

  // GoesOn: the loop comes round again. InSession: the last session has not ended.
  datatype Outcome = GaveUp | ShutDown | Panicked | InSession | GoesOn

  function Min(a: nat, b: nat): nat {
    if a < b then a else b
  }

  function Pow2(n: nat): nat {
    if n == 0 then 1 else 2 * Pow2(n - 1)
  }

  // ----- what the loop is supposed to do, in terms of the attempts so far -----

  // Consecutive failures up to now.
  function FailuresAtEnd(ts: seq<Attempt>): (n: nat)
    ensures n <= |ts|
    ensures forall i | |ts| - n <= i < |ts| :: ts[i].ConnectFailed?
    ensures n < |ts| ==> ts[|ts| - n - 1].Connected?
  {
    if ts == [] || ts[|ts| - 1].Connected? then 0 else FailuresAtEnd(ts[..|ts| - 1]) + 1
  }

  // Sleeps since the start or since the last success, the one after the success included as number 0.
  function SleepNumber(ts: seq<Attempt>): nat
    requires ts != []
  {
    if FailuresAtEnd(ts) < |ts| then FailuresAtEnd(ts) else |ts| - 1
  }

  // The n-th sleep: each one doubles the one before, up to the cap; the first one is not capped.
  function Backoff(b0: nat, n: nat): nat {
    if n == 0 then b0 else Min(Backoff(b0, n - 1) * 2, MAX_BACKOFF)
  }

  lemma {:induction false} BackoffClosedForm(b0: nat, n: nat)
    ensures Backoff(b0, n) == if n == 0 then b0 else Min(b0 * Pow2(n), 60)
  {
    if n == 0 {
    } else {
      BackoffClosedForm(b0, n - 1);
      assert b0 * Pow2(n) == 2 * (b0 * Pow2(n - 1));
    }
  }

  function ExpectedSleeps(b0: nat, ts: seq<Attempt>): seq<nat> {
    seq(|ts|, i requires 0 <= i < |ts| => Backoff(b0, SleepNumber(ts[..i + 1])))
  }

  predicate SessionStops(a: Attempt) {
    a.Connected? && !EndOf(a.events).Reconnect?
  }

  predicate Exhausted(max: nat, ts: seq<Attempt>) {
    max > 0 && FailuresAtEnd(ts) >= max
  }

  // How one more attempt ends the run, or not: the give-up check comes before the doubling that may overflow.
  function OutcomeOf(max: nat, b0: nat, before: seq<Attempt>, a: Attempt): Outcome {
    if a.Connected? && EndOf(a.events).Shutdown? then ShutDown
    else if a.Connected? && EndOf(a.events).StillRunning? then InSession
    else if Exhausted(max, before + [a]) then GaveUp
    else if 2 * b0 >= UINT64_RANGE then Panicked
    else GoesOn
  }

  // It gives up after `max` failures in a row.
  lemma ExhaustedIs(max: nat, ts: seq<Attempt>)
    ensures Exhausted(max, ts) <==>
            0 < max <= |ts| && forall i | |ts| - max <= i < |ts| :: ts[i].ConnectFailed?
  {
    var n := FailuresAtEnd(ts);
    assert n < |ts| ==> ts[|ts| - n - 1].Connected?;
  }

  // The way out, from the attempts and the events of the last session alone.
  lemma OutcomeIs(max: nat, b0: nat, before: seq<Attempt>, a: Attempt)
    ensures var out, ts := OutcomeOf(max, b0, before, a), before + [a];
            && (out.ShutDown? <==>
                && a.Connected?
                && exists i | 0 <= i < |a.events| ::
                     && a.events[i].CtrlC?
                     && forall j | 0 <= j < i :: a.events[j].Instruction? || a.events[j] == Tick(true))
            && (out.InSession? <==>
                && a.Connected?
                && forall j | 0 <= j < |a.events| :: a.events[j].Instruction? || a.events[j] == Tick(true))
            && (out.GaveUp? <==>
                0 < max <= |ts| && forall i | |ts| - max <= i < |ts| :: ts[i].ConnectFailed?)
            && (out.Panicked? ==> 2 * b0 >= 0x1_0000_0000_0000_0000)
            && (out.GoesOn? ==> 2 * b0 < 0x1_0000_0000_0000_0000)
  {
    ExhaustedIs(max, before + [a]);
    if a.Connected? {
      EndIs(a.events);
      FailuresSnoc(before, a);
    }
  }

  lemma FailuresSnoc(ts: seq<Attempt>, a: Attempt)
    ensures FailuresAtEnd(ts + [a]) == if a.Connected? then 0 else FailuresAtEnd(ts) + 1
  {
    assert (ts + [a])[..|ts + [a]| - 1] == ts;
  }

  lemma SleepNumberSnoc(ts: seq<Attempt>, a: Attempt)
    ensures SleepNumber(ts + [a]) == if a.Connected? || ts == [] then 0 else SleepNumber(ts) + 1
  {
    FailuresSnoc(ts, a);
  }

  lemma ExpectedSleepsSnoc(b0: nat, ts: seq<Attempt>, a: Attempt)
    ensures ExpectedSleeps(b0, ts + [a]) == ExpectedSleeps(b0, ts) + [Backoff(b0, SleepNumber(ts + [a]))]
  {
    var l, r := ExpectedSleeps(b0, ts + [a]), ExpectedSleeps(b0, ts) + [Backoff(b0, SleepNumber(ts + [a]))];
    forall i | 0 <= i < |l|
      ensures l[i] == r[i]
    {
      assert (ts + [a])[..i + 1] == if i < |ts| then ts[..i + 1] else ts + [a];
    }
  }

  // Each sleep from the one before it: starting over after a success, otherwise twice as long, up to 60 s.
  lemma SleepsAre(b0: nat, ts: seq<Attempt>, sleeps: seq<nat>)
    requires |sleeps| <= |ts| && sleeps == ExpectedSleeps(b0, ts[..|sleeps|])
    ensures forall i | 0 <= i < |sleeps| ::
              sleeps[i] == if i == 0 || ts[i].Connected? then b0
                           else if 2 * sleeps[i - 1] < 60 then 2 * sleeps[i - 1]
                           else 60
  {
    forall i | 0 <= i < |sleeps|
      ensures sleeps[i] == Backoff(b0, SleepNumber(ts[..i + 1]))
    {
      assert ts[..|sleeps|][..i + 1] == ts[..i + 1];
    }
    forall i | 0 <= i < |sleeps|
      ensures sleeps[i] == if i == 0 || ts[i].Connected? then b0
                           else if 2 * sleeps[i - 1] < 60 then 2 * sleeps[i - 1]
                           else 60
    {
      SleepNumberAt(ts, i);
      if i > 0 {
        assert sleeps[i - 1] == Backoff(b0, SleepNumber(ts[..i]));
      }
    }
  }

  lemma SleepNumberAt(ts: seq<Attempt>, i: nat)
    requires i < |ts|
    ensures SleepNumber(ts[..i + 1]) == if ts[i].Connected? || i == 0 then 0 else SleepNumber(ts[..i]) + 1
  {
    assert ts[..i + 1] == ts[..i] + [ts[i]];
    SleepNumberSnoc(ts[..i], ts[i]);
  }

  // ----- the loop -----

  class Agent {
    const nodeId: string
    const maxAttempts: nat
    const initialBackoff: nat
    var attempt: nat
    var backoff: nat
    var sleeps: seq<nat>

    // The attempts that have led here.
    ghost var seen: seq<Attempt>

    ghost predicate Valid()
      reads this
    {
      && maxAttempts < UINT32_RANGE && initialBackoff < UINT64_RANGE
      && attempt < UINT32_RANGE && (maxAttempts > 0 ==> attempt == FailuresAtEnd(seen))
      && !Exhausted(maxAttempts, seen)
      && backoff == Backoff(initialBackoff, if seen == [] then 0 else SleepNumber(seen) + 1)
      && (seen != [] ==> 2 * initialBackoff < UINT64_RANGE)
      && sleeps == ExpectedSleeps(initialBackoff, seen)
    }

    constructor (nodeId: string, maxAttempts: nat, initialBackoff: nat)
      requires maxAttempts < UINT32_RANGE && initialBackoff < UINT64_RANGE
      ensures Valid() && seen == []
      ensures this.maxAttempts == maxAttempts && this.initialBackoff == initialBackoff
    {
      this.nodeId, this.maxAttempts, this.initialBackoff := nodeId, maxAttempts, initialBackoff;
      attempt, backoff, sleeps, seen := 0, initialBackoff, [], [];
    }

    // One turn of the outer loop.
    method Turn(a: Attempt) returns (out: Outcome)
      requires Valid()
      modifies this
      ensures seen == old(seen) + [a]
      ensures out == OutcomeOf(maxAttempts, initialBackoff, old(seen), a)
      ensures out.ShutDown? <==>
                && a.Connected?
                && exists i | 0 <= i < |a.events| ::
                     && a.events[i].CtrlC?
                     && forall j | 0 <= j < i :: a.events[j].Instruction? || a.events[j] == Tick(true)
      ensures out.InSession? <==>
                && a.Connected?
                && forall j | 0 <= j < |a.events| :: a.events[j].Instruction? || a.events[j] == Tick(true)
      ensures out.GaveUp? <==>
                && 0 < maxAttempts <= |seen|
                && forall i | |seen| - maxAttempts <= i < |seen| :: seen[i].ConnectFailed?
      ensures out.Panicked? ==> 2 * initialBackoff >= 0x1_0000_0000_0000_0000
      ensures out.GoesOn? ==> 2 * initialBackoff < 0x1_0000_0000_0000_0000
      ensures out.GoesOn? ==> Valid()
      ensures maxAttempts > 0 ==> attempt <= maxAttempts && (out.GaveUp? ==> attempt == maxAttempts)
      ensures !out.GoesOn? && !out.Panicked? ==> sleeps == old(sleeps)
      ensures out.Panicked? ==> sleeps == ExpectedSleeps(initialBackoff, seen)
    {
      ghost var before := seen;
      FailuresSnoc(before, a);
      seen := seen + [a];
      attempt := if attempt + 1 == UINT32_RANGE then 0 else attempt + 1;
      var end := Connect(a);
      if end.Shutdown? {
        out := ShutDown;
      } else if end.StillRunning? {
        out := InSession;
      } else {
        SleepNumberSnoc(before, a);
        out := GiveUpOrSleep(a, before);
      }
      OutcomeIs(maxAttempts, initialBackoff, before, a);
    }

    method GiveUpOrSleep(ghost a: Attempt, ghost before: seq<Attempt>) returns (out: Outcome)
      requires maxAttempts < UINT32_RANGE && initialBackoff < UINT64_RANGE && attempt < UINT32_RANGE
      requires seen == before + [a] && (maxAttempts > 0 ==> attempt == FailuresAtEnd(seen))
      requires backoff == Backoff(initialBackoff, SleepNumber(seen))
      requires before != [] ==> 2 * initialBackoff < UINT64_RANGE
      requires sleeps == ExpectedSleeps(initialBackoff, before)
      modifies this`backoff, this`sleeps
      ensures out == if Exhausted(maxAttempts, seen) then GaveUp
                     else if 2 * initialBackoff >= UINT64_RANGE then Panicked
                     else GoesOn
      ensures out.GoesOn? ==> Valid()
      ensures sleeps == if out.GaveUp? then old(sleeps) else ExpectedSleeps(initialBackoff, seen)
    {
      if maxAttempts > 0 && attempt >= maxAttempts {
        return GaveUp;
      }
      out := Sleep(a, before);
    }

    // Connect, and on success run the session; a success resets the counter and the backoff.
    method Connect(a: Attempt) returns (end: SessionEnd)
      modifies this`attempt, this`backoff
      ensures end == if a.Connected? then EndOf(a.events) else Reconnect
      ensures attempt == if a.Connected? then 0 else old(attempt)
      ensures backoff == if a.Connected? then initialBackoff else old(backoff)
    {
      match a
      case ConnectFailed => return Reconnect;
      case Connected(events) =>
        attempt := 0;
        backoff := initialBackoff;
        var conn := new HeartbeatConnection(nodeId);
        end := RunSession(conn, events);
    }

    // Sleep, then double the backoff: Duration multiplication panics on overflow.
    method Sleep(ghost a: Attempt, ghost before: seq<Attempt>) returns (out: Outcome)
      requires initialBackoff < UINT64_RANGE && seen == before + [a]
      requires backoff == Backoff(initialBackoff, SleepNumber(seen))
      requires before != [] ==> 2 * initialBackoff < UINT64_RANGE
      requires sleeps == ExpectedSleeps(initialBackoff, before)
      modifies this`backoff, this`sleeps
      ensures sleeps == ExpectedSleeps(initialBackoff, seen)
      ensures out == if 2 * initialBackoff >= UINT64_RANGE then Panicked else GoesOn
      ensures out.GoesOn? ==> backoff == Backoff(initialBackoff, SleepNumber(seen) + 1)
    {
      ExpectedSleepsSnoc(initialBackoff, before, a);
      SleepNumberSnoc(before, a);
      sleeps := sleeps + [backoff];
      if backoff * 2 >= UINT64_RANGE {
        return Panicked;
      }
      backoff := Min(backoff * 2, MAX_BACKOFF);
      return GoesOn;
    }
  }

  // ----- whole runs -----

  // The outer loop on the attempts made so far: GoesOn means that it would make another one.
  method Run(nodeId: string, max: nat, b0: nat, attempts: seq<Attempt>)
    returns (out: Outcome, used: nat, sleeps: seq<nat>)
    requires max < UINT32_RANGE && b0 < UINT64_RANGE
    ensures used <= |attempts|
    // The agent exits on Ctrl-C in a session, is in a session that nothing has ended, or gives up, and then the last
    // attempt says so.
    ensures out.ShutDown? <==>
              used > 0 && attempts[used - 1].Connected? &&
              var es := attempts[used - 1].events;
              exists i | 0 <= i < |es| ::
                es[i].CtrlC? && forall j | 0 <= j < i :: es[j].Instruction? || es[j] == Tick(true)
    ensures out.InSession? <==>
              used > 0 && attempts[used - 1].Connected? &&
              var es := attempts[used - 1].events;
              forall j | 0 <= j < |es| :: es[j].Instruction? || es[j] == Tick(true)
    ensures out.GaveUp? <==>
              0 < max <= used && forall i | used - max <= i < used :: attempts[i].ConnectFailed?
    // The doubling overflows only right after the first sleep, and only for such an initial backoff.
    ensures out.Panicked? ==> used == 1 && 2 * b0 >= 0x1_0000_0000_0000_0000
    ensures used > 1 || (out.GoesOn? && used > 0) ==> 2 * b0 < 0x1_0000_0000_0000_0000
    // It stops early for nothing else, and no attempt before the last could have stopped it.
    ensures out.GoesOn? ==> used == |attempts|
    ensures out == if used == 0 then GoesOn else OutcomeOf(max, b0, attempts[..used - 1], attempts[used - 1])
    ensures 0 < max ==> forall i | 0 <= i < used - max ::
              attempts[i].Connected? || exists j | i < j < i + max :: attempts[j].Connected?
    ensures forall k | 0 <= k < used - 1 && attempts[k].Connected? ::
              var es := attempts[k].events;
              exists i | 0 <= i < |es| ::
                && (es[i].StreamEnded? || es[i] == Tick(false))
                && forall j | 0 <= j < i :: es[j].Instruction? || es[j] == Tick(true)
    // It sleeps after every attempt but a last one that ended the run: first for b0, and again for b0 after a success,
    // otherwise twice as long as before, up to 60 s.
    ensures |sleeps| == if out.GoesOn? || out.Panicked? then used else used - 1
    ensures forall i | 0 <= i < |sleeps| ::
              sleeps[i] == if i == 0 || attempts[i].Connected? then b0
                           else if 2 * sleeps[i - 1] < 60 then 2 * sleeps[i - 1]
                           else 60
    ensures sleeps == ExpectedSleeps(b0, attempts[..|sleeps|])
  {
    out, used, sleeps := Loop(nodeId, max, b0, attempts);
    OutAfterIsExact(max, b0, attempts, used, out);
    if used > 0 {
      NoEarlierFailures(max, attempts, used - 1);
      BeforeTheLast(max, attempts, used - 1);
    }
    SleepsAre(b0, attempts, sleeps);
  }

  method Loop(nodeId: string, max: nat, b0: nat, attempts: seq<Attempt>)
    returns (out: Outcome, used: nat, sleeps: seq<nat>)
    requires max < UINT32_RANGE && b0 < UINT64_RANGE
    ensures used <= |attempts| && OutAfter(max, b0, attempts, used, out)
    ensures out.GoesOn? ==> used == |attempts|
    ensures |sleeps| == SleepCount(out, used) && sleeps == ExpectedSleeps(b0, attempts[..|sleeps|])
  {
    var agent := new Agent(nodeId, max, b0);
    out, used := GoesOn, 0;
    while used < |attempts| && out.GoesOn?
      invariant used <= |attempts| && fresh(agent) && OutAfter(max, b0, attempts, used, out)
      invariant agent.maxAttempts == max && agent.initialBackoff == b0
      invariant out.GoesOn? ==> agent.Valid() && agent.seen == attempts[..used]
      invariant agent.sleeps == ExpectedSleeps(b0, attempts[..SleepCount(out, used)])
      decreases |attempts| - used
    {
      out := Next(agent, attempts, used);
      used := used + 1;
    }
    sleeps := agent.sleeps;
  }

  method Next(agent: Agent, attempts: seq<Attempt>, used: nat) returns (out: Outcome)
    requires used < |attempts| && agent.Valid() && agent.seen == attempts[..used]
    requires OutAfter(agent.maxAttempts, agent.initialBackoff, attempts, used, GoesOn)
    requires agent.sleeps == ExpectedSleeps(agent.initialBackoff, attempts[..used])
    modifies agent
    ensures OutAfter(agent.maxAttempts, agent.initialBackoff, attempts, used + 1, out)
    ensures out.GoesOn? ==> agent.Valid() && agent.seen == attempts[..used + 1]
    ensures agent.sleeps == ExpectedSleeps(agent.initialBackoff, attempts[..SleepCount(out, used + 1)])
  {
    assert attempts[..used + 1] == attempts[..used] + [attempts[used]];
    NotOverSnoc(agent.maxAttempts, agent.initialBackoff, attempts, used);
    out := agent.Turn(attempts[used]);
  }

  // After n attempts the run stands at `out`.
  ghost predicate OutAfter(max: nat, b0: nat, ts: seq<Attempt>, n: nat, out: Outcome)
    requires n <= |ts|
  {
    && NotOver(max, ts, if out.GoesOn? || n == 0 then n else n - 1)
    && out == (if n == 0 then GoesOn else OutcomeOf(max, b0, ts[..n - 1], ts[n - 1]))
    && (n > 1 || (n == 1 && out.GoesOn?) ==> 2 * b0 < UINT64_RANGE)
  }

  function SleepCount(out: Outcome, n: nat): nat {
    if out.GoesOn? || out.Panicked? || n == 0 then n else n - 1
  }

  lemma OutAfterIsExact(max: nat, b0: nat, ts: seq<Attempt>, n: nat, out: Outcome)
    requires n <= |ts| && OutAfter(max, b0, ts, n, out)
    ensures out.ShutDown? <==>
              n > 0 && ts[n - 1].Connected? &&
              var es := ts[n - 1].events;
              exists i | 0 <= i < |es| ::
                es[i].CtrlC? && forall j | 0 <= j < i :: es[j].Instruction? || es[j] == Tick(true)
    ensures out.InSession? <==>
              n > 0 && ts[n - 1].Connected? &&
              var es := ts[n - 1].events;
              forall j | 0 <= j < |es| :: es[j].Instruction? || es[j] == Tick(true)
    ensures out.GaveUp? <==> 0 < max <= n && forall i | n - max <= i < n :: ts[i].ConnectFailed?
    ensures out.Panicked? ==> n == 1 && 2 * b0 >= 0x1_0000_0000_0000_0000
  {
    if n > 0 {
      assert ts[..n] == ts[..n - 1] + [ts[n - 1]];
      OutcomeIs(max, b0, ts[..n - 1], ts[n - 1]);
    }
  }

  // No `max` attempts before the last have failed in a row.
  lemma NoEarlierFailures(max: nat, ts: seq<Attempt>, n: nat)
    requires n <= |ts| && NotOver(max, ts, n)
    ensures 0 < max ==> forall i | 0 <= i < n + 1 - max ::
              ts[i].Connected? || exists j | i < j < i + max :: ts[j].Connected?
  {
    forall i | 0 < max && 0 <= i < n + 1 - max
      ensures ts[i].Connected? || exists j | i < j < i + max :: ts[j].Connected?
    {
      ExhaustedIs(max, ts[..i + max]);
      assert !Exhausted(max, ts[..i + max]);
    }
  }

  lemma BeforeTheLast(max: nat, ts: seq<Attempt>, n: nat)
    requires n <= |ts| && NotOver(max, ts, n)
    ensures forall k | 0 <= k < n && ts[k].Connected? ::
              var es := ts[k].events;
              exists i | 0 <= i < |es| ::
                && (es[i].StreamEnded? || es[i] == Tick(false))
                && forall j | 0 <= j < i :: es[j].Instruction? || es[j] == Tick(true)
  {
    forall k | 0 <= k < n && ts[k].Connected?
      ensures EndOf(ts[k].events).Reconnect?
    {
      assert !SessionStops(ts[k]);
    }
    forall es: seq<SessionEvent> | EndOf(es).Reconnect?
      ensures exists i | 0 <= i < |es| ::
                && (es[i].StreamEnded? || es[i] == Tick(false))
                && forall j | 0 <= j < i :: es[j].Instruction? || es[j] == Tick(true)
    {
      EndIs(es);
    }
  }

  // Before attempt number n nothing has ended the run.
  ghost predicate NotOver(max: nat, ts: seq<Attempt>, n: nat)
    requires n <= |ts|
  {
    && (forall k | 0 <= k <= n :: !Exhausted(max, ts[..k]))
    && (forall k | 0 <= k < n :: !SessionStops(ts[k]))
  }

  lemma NotOverSnoc(max: nat, b0: nat, ts: seq<Attempt>, n: nat)
    requires n < |ts| && NotOver(max, ts, n)
    ensures OutcomeOf(max, b0, ts[..n], ts[n]).GoesOn? ==> NotOver(max, ts, n + 1)
  {
    assert ts[..n + 1] == ts[..n] + [ts[n]];
  }

  // ----- termination -----

  // The first n attempts.
  ghost function Prefix(connect: nat -> Attempt, n: nat): seq<Attempt> {
    if n == 0 then [] else Prefix(connect, n - 1) + [connect(n - 1)]
  }

  function Successes(connect: nat -> Attempt, n: nat): nat {
    if n == 0 then 0 else Successes(connect, n - 1) + if connect(n - 1).Connected? then 1 else 0
  }

  // At most so many attempts ever succeed, and each session ends in a reconnect.
  ghost predicate Benign(connect: nat -> Attempt, successes: nat) {
    forall n: nat :: Successes(connect, n) <= successes && !SessionStops(connect(n))
  }

  ghost predicate NotGivenUp(max: nat, connect: nat -> Attempt, n: nat) {
    forall k: nat | k <= n :: !Exhausted(max, Prefix(connect, k))
  }

  // Such an attempt gives up or goes on, nothing else.
  lemma BenignOutcome(max: nat, b0: nat, connect: nat -> Attempt, successes: nat, n: nat)
    requires 2 * b0 < UINT64_RANGE && Benign(connect, successes)
    ensures OutcomeOf(max, b0, Prefix(connect, n), connect(n)) ==
            if Exhausted(max, Prefix(connect, n + 1)) then GaveUp else GoesOn
  {
    assert Successes(connect, n) <= successes && !SessionStops(connect(n));
  }

  // One attempt uses up a success, or a failure.
  lemma MeasureDrops(connect: nat -> Attempt, successes: nat, n: nat)
    requires Benign(connect, successes)
    ensures Successes(connect, n) <= Successes(connect, n + 1) <= successes
    ensures Successes(connect, n) == Successes(connect, n + 1) ==>
              FailuresAtEnd(Prefix(connect, n + 1)) == FailuresAtEnd(Prefix(connect, n)) + 1
  {
    FailuresSnoc(Prefix(connect, n), connect(n));
    assert Successes(connect, n + 1) <= successes;
  }

  lemma NotGivenUpNext(max: nat, connect: nat -> Attempt, n: nat)
    requires NotGivenUp(max, connect, n) && !Exhausted(max, Prefix(connect, n + 1))
    ensures NotGivenUp(max, connect, n + 1)
  {
    forall k: nat | k <= n + 1
      ensures !Exhausted(max, Prefix(connect, k))
    {
      assert k <= n || k == n + 1;
    }
  }

  // The outer loop as it stands, without a bound on the number of attempts. When only finitely many attempts
  // succeed and every session ends in a reconnect, it gives up, at the first point it may, one attempt after the
  // last sleep; the measure is (successes left, attempts left before giving up).
  method RunUntilGivenUp(nodeId: string, max: nat, b0: nat, connect: nat -> Attempt, ghost successes: nat)
    returns (sleeps: seq<nat>)
    requires 0 < max < UINT32_RANGE && 2 * b0 < UINT64_RANGE
    requires Benign(connect, successes)
    ensures Exhausted(max, Prefix(connect, |sleeps| + 1))
    ensures NotGivenUp(max, connect, |sleeps|)
    ensures sleeps == ExpectedSleeps(b0, Prefix(connect, |sleeps|))
  {
    var agent := new Agent(nodeId, max, b0);
    var n: nat := 0;
    while true
      invariant fresh(agent) && agent.maxAttempts == max && agent.initialBackoff == b0
      invariant Trying(agent, connect, n)
      decreases successes - Successes(connect, n), max - FailuresAtEnd(Prefix(connect, n))
    {
      MeasureDrops(connect, successes, n);
      sleeps := agent.sleeps;
      var done := TryOnce(agent, connect, successes, n);
      if done {
        return;
      }
      n := n + 1;
    }
  }

  ghost predicate Trying(agent: Agent, connect: nat -> Attempt, n: nat)
    reads agent
  {
    && agent.Valid()
    && agent.seen == Prefix(connect, n) && |agent.sleeps| == n
    && FailuresAtEnd(agent.seen) <= agent.maxAttempts
    && NotGivenUp(agent.maxAttempts, connect, n)
  }

  method TryOnce(agent: Agent, connect: nat -> Attempt, ghost successes: nat, n: nat) returns (done: bool)
    requires Trying(agent, connect, n) && Benign(connect, successes)
    requires agent.maxAttempts > 0 && 2 * agent.initialBackoff < UINT64_RANGE
    modifies agent
    ensures done <==> Exhausted(agent.maxAttempts, Prefix(connect, n + 1))
    ensures !done ==> Trying(agent, connect, n + 1)
  {
    BenignOutcome(agent.maxAttempts, agent.initialBackoff, connect, successes, n);
    var out := agent.Turn(connect(n));
    if out.GaveUp? {
      return true;
    }
    NotGivenUpNext(agent.maxAttempts, connect, n);
    return false;
  }

  // ----- an agent that never connects -----

  function Sum(xs: seq<nat>): nat {
    if xs == [] then 0 else Sum(xs[..|xs| - 1]) + xs[|xs| - 1]
  }

  function CappedSum(b0: nat, n: nat): nat {
    if n == 0 then 0 else CappedSum(b0, n - 1) + Min(b0 * Pow2(n - 1), MAX_BACKOFF)
  }

  function AllFailures(n: nat): seq<Attempt> {
    seq(n, i requires 0 <= i < n => ConnectFailed)
  }

  lemma {:induction false} AllFailuresCount(n: nat)
    ensures FailuresAtEnd(AllFailures(n)) == n
  {
    if n == 0 {
    } else {
      assert AllFailures(n)[..n - 1] == AllFailures(n - 1);
      AllFailuresCount(n - 1);
    }
  }

  lemma OneMoreFailure(b0: nat, n: nat)
    ensures ExpectedSleeps(b0, AllFailures(n + 1)) == ExpectedSleeps(b0, AllFailures(n)) + [Backoff(b0, n)]
  {
    AllFailuresCount(n + 1);
    assert AllFailures(n + 1) == AllFailures(n) + [ConnectFailed];
    ExpectedSleepsSnoc(b0, AllFailures(n), ConnectFailed);
  }

  lemma SumSnoc(xs: seq<nat>, x: nat)
    ensures Sum(xs + [x]) == Sum(xs) + x
  {
    assert (xs + [x])[..|xs + [x]| - 1] == xs;
  }

  lemma {:induction false} AllFailuresSleeps(b0: nat, n: nat)
    requires b0 <= 60
    ensures Sum(ExpectedSleeps(b0, AllFailures(n))) == CappedSum(b0, n) <= 60 * n
  {
    if n == 0 {
    } else {
      AllFailuresSleeps(b0, n - 1);
      OneMoreFailure(b0, n - 1);
      SumSnoc(ExpectedSleeps(b0, AllFailures(n - 1)), Backoff(b0, n - 1));
      BackoffClosedForm(b0, n - 1);
    }
  }

  // It makes `max` attempts and sleeps one time less, unless the first doubling overflows; from an initial backoff of
  // at most 60 s it sleeps min(b0 * 2^i, 60) the i-th time, at most 60 s for each attempt but the last.
  method NeverConnects(nodeId: string, max: nat, b0: nat) returns (out: Outcome, sleeps: seq<nat>)
    requires 0 < max < UINT32_RANGE && b0 < 0x1_0000_0000_0000_0000
    ensures out == if max == 1 || 2 * b0 < 0x1_0000_0000_0000_0000 then GaveUp else Panicked
    ensures |sleeps| == if out.GaveUp? then max - 1 else 1
    ensures b0 <= 60 ==> Sum(sleeps) == CappedSum(b0, max - 1) <= 60 * (max - 1)
  {
    var used;
    out, used, sleeps := Run(nodeId, max, b0, AllFailures(max));
    forall k | 0 <= k <= max
      ensures FailuresAtEnd(AllFailures(max)[..k]) == k
    {
      assert AllFailures(max)[..k] == AllFailures(k);
      AllFailuresCount(k);
    }
    assert AllFailures(max)[..max - 1] == AllFailures(max - 1);
    assert AllFailures(max)[..used - 1] + [AllFailures(max)[used - 1]] == AllFailures(max)[..used];
    if b0 <= 60 {
      AllFailuresSleeps(b0, max - 1);
    }
  }
}
