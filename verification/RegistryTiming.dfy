/** Stale cleanup over whole runs: who survives the ticks, and how long a silent node can linger. Times are
    nanoseconds; the cleanup period is fixed at 10 s in the code, and the daemon passes a threshold of 30 s. */
module RegistryTiming {
  import opened RegistryHistory
  import opened RegistrySpec

  // Lock regions happen one after the other, so their clock readings do not go back.
  ghost predicate Monotone(es: seq<Event>, now: int) {
    && (forall i, j | 0 <= i <= j < |es| :: es[i].now <= es[j].now)
    && (forall i | 0 <= i < |es| :: es[i].now <= now)
  }

  // The event removes `id` by other means than cleanup: explicitly, or by the close of a stream whose connection ID
  // is still the node's. A close with an old ID removes nothing.
  predicate RemovesByName(es: seq<Event>, k: nat, id: string)
    requires k < |es|
  {
    || (es[k].Remove? && es[k].id == id)
    || (es[k].RemoveIf? && es[k].id == id && Matches(NodesAfter(es[..k]), id, es[k].connectionId))
  }

  ghost predicate OnlyTicksThreaten(es: seq<Event>, i: nat, id: string) {
    forall k | i <= k < |es| :: !RemovesByName(es, k, id)
  }

  ghost predicate HeardWithin(es: seq<Event>, k: nat, id: string, now: int, limit: int)
    requires k <= |es|
  {
    LastRefresh(es[..k], id).Some? && now - LastRefresh(es[..k], id).value <= limit
  }

  // What one event does to a present node, in terms of the history.
  lemma SurvivesEvent(es: seq<Event>, k: nat, id: string)
    requires k < |es| && id in NodesAfter(es[..k])
    requires !RemovesByName(es, k, id)
    ensures id in NodesAfter(es[..k + 1]) <==> (es[k].Tick? ==> HeardWithin(es, k, id, es[k].now, es[k].threshold))
  {
    assert es[..k + 1][..k] == es[..k];
    LastBeatIsLastRefresh(es[..k], id);
    LookupStep(NodesAfter(es[..k]), es[k], id);
  }

  ghost predicate TicksFindFresh(es: seq<Event>, i: nat, id: string) {
    forall k | i <= k < |es| && es[k].Tick? :: HeardWithin(es, k, id, es[k].now, es[k].threshold)
  }

  // A node that nothing else removes stays through a whole run exactly when every tick finds it
  // refreshed within the threshold.
  lemma StaysIffRefreshed(es: seq<Event>, i: nat, id: string)
    requires i <= |es| && id in NodesAfter(es[..i])
    requires OnlyTicksThreaten(es, i, id)
    ensures PresentSince(es, i, id) <==> TicksFindFresh(es, i, id)
  {
    if PresentSince(es, i, id) {
      forall k | i <= k < |es| && es[k].Tick?
        ensures HeardWithin(es, k, id, es[k].now, es[k].threshold)
      {
        assert id in NodesAfter(es[..k]) && id in NodesAfter(es[..k + 1]);
        SurvivesEvent(es, k, id);
      }
    }
    if TicksFindFresh(es, i, id) {
      forall k | i <= k <= |es|
        ensures id in NodesAfter(es[..k])
      {
        FreshStays(es, i, k, id);
      }
    }
  }

  lemma {:induction false} FreshStays(es: seq<Event>, i: nat, k: nat, id: string)
    requires i <= k <= |es| && id in NodesAfter(es[..i])
    requires OnlyTicksThreaten(es, i, id) && TicksFindFresh(es, i, id)
    ensures id in NodesAfter(es[..k])
  {
    if i < k {
      FreshStays(es, i, k - 1, id);
      SurvivesEvent(es, k - 1, id);
    }
  }

  // Every refresh of `id` from position i on comes at most `gap` after the one before it,
  // and `now` is at most `gap` after the last.
  ghost predicate RefreshGapsAtMost(es: seq<Event>, i: nat, id: string, now: int, gap: int)
    requires i <= |es|
  {
    && (forall k | i <= k < |es| && Refreshes(es[k], id) :: HeardWithin(es, k, id, es[k].now, gap))
    && HeardWithin(es, |es|, id, now, gap)
  }

  // Counting down from the end: whatever happens at position k happens within `gap` of the last refresh before it.
  lemma {:induction false} GapHoldsEverywhere(es: seq<Event>, i: nat, k: nat, id: string, now: int, gap: int)
    requires i <= k <= |es| && Monotone(es, now)
    requires RefreshGapsAtMost(es, i, id, now, gap)
    ensures HeardWithin(es, k, id, if k < |es| then es[k].now else now, gap)
    decreases |es| - k
  {
    if k < |es| && !Refreshes(es[k], id) {
      GapHoldsEverywhere(es, i, k + 1, id, now, gap);
      assert es[..k + 1][..k] == es[..k];
      assert LastRefresh(es[..k + 1], id) == LastRefresh(es[..k], id);
    }
  }

  // A node refreshed at gaps of at most the offline threshold is never evicted by cleanup, whatever else removes it
  // and however often it registers again; and if nothing else removes it, it stays.
  lemma RefreshedNodeIsNeverEvicted(es: seq<Event>, i: nat, id: string, now: int)
    requires i <= |es| && Monotone(es, now)
    requires forall k | 0 <= k < |es| && es[k].Tick? :: es[k].threshold == 30_000_000_000
    requires RefreshGapsAtMost(es, i, id, now, 30_000_000_000)
    ensures forall k | i <= k < |es| && es[k].Tick? && id in NodesAfter(es[..k]) :: id in NodesAfter(es[..k + 1])
    ensures id in NodesAfter(es[..i]) && OnlyTicksThreaten(es, i, id) ==> PresentSince(es, i, id)
  {
    forall k | i <= k < |es| && es[k].Tick?
      ensures HeardWithin(es, k, id, es[k].now, es[k].threshold)
      ensures id in NodesAfter(es[..k]) ==> id in NodesAfter(es[..k + 1])
    {
      GapHoldsEverywhere(es, i, k, id, now, 30_000_000_000);
      if id in NodesAfter(es[..k]) {
        SurvivesEvent(es, k, id);
      }
    }
    if id in NodesAfter(es[..i]) && OnlyTicksThreaten(es, i, id) {
      StaysIffRefreshed(es, i, id);
    }
  }

  // The instant of the last cleanup tick, or the instant the ticker was started.
  function LastTick(es: seq<Event>, started: int): int {
    if es == [] then started
    else if es[|es| - 1].Tick? then es[|es| - 1].now
    else LastTick(es[..|es| - 1], started)
  }

  lemma {:induction false} LastTickNotAfter(es: seq<Event>, started: int, now: int)
    requires started <= now && forall k | 0 <= k < |es| :: es[k].now <= now
    ensures LastTick(es, started) <= now
  {
    if es == [] {
    } else {
      LastTickNotAfter(es[..|es| - 1], started, now);
    }
  }

  // In every reachable state a listed node was still fresh at the last tick.
  lemma {:induction false} ListedWasFreshAtLastTick(es: seq<Event>, id: string, started: int, now: int, limit: nat)
    requires Monotone(es, now) && (forall k | 0 <= k < |es| :: started <= es[k].now)
    requires forall k | 0 <= k < |es| && es[k].Tick? :: es[k].threshold == limit
    requires id in NodesAfter(es)
    ensures LastRefresh(es, id).Some? && LastTick(es, started) <= LastRefresh(es, id).value + limit
  {
    var es', e := es[..|es| - 1], es[|es| - 1];
    LookupStep(NodesAfter(es'), e, id);
    if Refreshes(e, id) {
      LastTickNotAfter(es', started, e.now);
    } else {
      LastBeatIsLastRefresh(es', id);
      ListedWasFreshAtLastTick(es', id, started, now, limit);
    }
  }

  // With ticks at most 10 s apart, a listed node has been heard from within the last 40 s:
  // a node that goes silent is absent at the latest then.
  lemma SilentNodeIsGone(es: seq<Event>, id: string, started: int, now: int)
    requires Monotone(es, now) && (forall k | 0 <= k < |es| :: started <= es[k].now)
    requires forall k | 0 <= k < |es| && es[k].Tick? :: es[k].threshold == 30_000_000_000
    requires now <= LastTick(es, started) + 10_000_000_000
    ensures id in NodesAfter(es) ==> HeardWithin(es, |es|, id, now, 40_000_000_000)
  {
    if id in NodesAfter(es) {
      ListedWasFreshAtLastTick(es, id, started, now, 30_000_000_000);
      assert es[..|es|] == es;
    }
  }

  // The bound cannot be improved: a node last heard of at 0 s and ticks at 30 s and 40 s.
  lemma SilentNodeMayLinger(resources: Resources)
    ensures var es := [Register(0, "n", "", resources), Tick(30_000_000_000, 30_000_000_000)];
            && Monotone(es, 40_000_000_000)
            && 40_000_000_000 <= LastTick(es, 0) + 10_000_000_000
            && "n" in NodesAfter(es)
            && "n" !in NodesAfter(es + [Tick(40_000_000_000, 30_000_000_000)])
  {
    var a := [Register(0, "n", "", resources)];
    var es := a + [Tick(30_000_000_000, 30_000_000_000)];
    NodesAfterSnoc([], a[0]);
    assert [] + a == a;
    NodesAfterSnoc(a, es[1]);
    NodesAfterSnoc(es, Tick(40_000_000_000, 30_000_000_000));
  }
}
