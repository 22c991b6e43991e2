/** Which writers keep the certificate reloader from losing an update, whatever loads run beside them: a condition
    on the sequence of writes alone that is enough. TlsLoss has the exact one. */
module TlsWriters {
  import opened Options
  import opened TlsReload

  // ----- the history of a file -----

  predicate IsDiskEvent(e: Event) {
    e.Write? || e.Delete?
  }

  function DiskStep(disk: Disk, e: Event): Disk {
    match e
    case Write(path, content, mtime) => disk[path := File(content, mtime)]
    case Delete(path) => disk - {path}
    case _ => disk
  }

  function DiskAfter(disk: Disk, es: seq<Event>): Disk {
    if es == [] then disk else DiskStep(DiskAfter(disk, es[..|es| - 1]), es[|es| - 1])
  }

  function FileAt(disk: Disk, es: seq<Event>, path: string, i: nat): Option<File>
    requires i <= |es|
  {
    var d := DiskAfter(disk, es[..i]);
    if path in d then Some(d[path]) else None
  }

  // A load may see the time of a file at one point, read its contents at a later one, and be compared with the
  // file at a still later one. `Misleads` says that the comparison then finds nothing amiss although the contents
  // have changed. The three points need not show different versions: (A, 1), (B, 2), (A, 1) misleads.
  predicate Misleads(disk: Disk, es: seq<Event>, path: string, i: nat, j: nat, k: nat)
    requires i <= j <= k <= |es|
  {
    var seen, read, found := FileAt(disk, es, path, i), FileAt(disk, es, path, j), FileAt(disk, es, path, k);
    && seen.Some? && read.Some? && found.Some?
    && seen.value.mtime == found.value.mtime && read.value.content != found.value.content
  }

  ghost predicate NeverMisleads(disk: Disk, es: seq<Event>, path: string) {
    forall i: nat, j: nat, k: nat | i <= j <= k <= |es| :: !Misleads(disk, es, path, i, j, k)
  }

  // ----- the same, told step by step -----

  // The times that a file has had, and what a load can hold: a time together with contents not older than it.
  datatype Past = Past(times: set<int>, held: set<(int, Bytes)>)

  function Extend(past: Past, f: File): Past {
    var times := past.times + {f.mtime};
    Past(times, past.held + set t | t in times :: (t, f.content))
  }

  function PastOf(disk: Disk, es: seq<Event>, path: string): Past {
    if es == [] then
      if path in disk then Extend(Past({}, {}), disk[path]) else Past({}, {})
    else
      var past, e := PastOf(disk, es[..|es| - 1], path), es[|es| - 1];
      if e.Write? && e.path == path then Extend(past, File(e.content, e.mtime)) else past
  }

  // No contents but these can be held together with the time of the write.
  predicate SteadyWrite(past: Past, e: Event) {
    e.Write? ==> forall h | h in past.held && h.0 == e.mtime :: h.1 == e.content
  }

  predicate Steady(disk: Disk, es: seq<Event>, path: string) {
    es == [] ||
    (&& Steady(disk, es[..|es| - 1], path)
     && (es[|es| - 1].Write? && es[|es| - 1].path == path ==>
           SteadyWrite(PastOf(disk, es[..|es| - 1], path), es[|es| - 1])))
  }

  lemma FileAtPrefix(disk: Disk, es: seq<Event>, path: string, i: nat)
    requires i < |es|
    ensures FileAt(disk, es, path, i) == FileAt(disk, es[..|es| - 1], path, i)
  {
    assert es[..|es| - 1][..i] == es[..i];
  }

  // The file after the last event.
  lemma FileAtEnd(disk: Disk, es: seq<Event>, path: string)
    requires es != []
    ensures var e, f := es[|es| - 1], FileAt(disk, es, path, |es|);
            f == if e.Write? && e.path == path then Some(File(e.content, e.mtime))
                 else if e.Delete? && e.path == path then None
                 else FileAt(disk, es, path, |es| - 1)
  {
    assert es[..|es|] == es;
  }

  ghost predicate HadTime(disk: Disk, es: seq<Event>, path: string, t: int) {
    exists i: nat :: i <= |es| && FileAt(disk, es, path, i).Some? && FileAt(disk, es, path, i).value.mtime == t
  }

  ghost predicate CanHold(disk: Disk, es: seq<Event>, path: string, t: int, content: Bytes) {
    exists i: nat, j: nat :: i <= j <= |es| && HoldsAt(disk, es, path, i, j, t, content)
  }

  predicate HoldsAt(disk: Disk, es: seq<Event>, path: string, i: nat, j: nat, t: int, content: Bytes)
    requires i <= j <= |es|
  {
    var seen, read := FileAt(disk, es, path, i), FileAt(disk, es, path, j);
    seen.Some? && read.Some? && seen.value.mtime == t && read.value.content == content
  }

  lemma {:induction false} TimesAreHad(disk: Disk, es: seq<Event>, path: string, t: int)
    ensures t in PastOf(disk, es, path).times <==> HadTime(disk, es, path, t)
  {
    if es == [] {
      var first := FileAt(disk, es, path, 0);
      assert HadTime(disk, es, path, t) <==> first.Some? && first.value.mtime == t;
    } else {
      var es' := es[..|es| - 1];
      TimesAreHad(disk, es', path, t);
      FileAtEnd(disk, es, path);
      if HadTime(disk, es', path, t) {
        var i: nat :| i <= |es'| && FileAt(disk, es', path, i).Some? && FileAt(disk, es', path, i).value.mtime == t;
        FileAtPrefix(disk, es, path, i);
      }
      if HadTime(disk, es, path, t) {
        var i: nat :| i <= |es| && FileAt(disk, es, path, i).Some? && FileAt(disk, es, path, i).value.mtime == t;
        FileAtPrefix(disk, es, path, if i < |es| then i else |es| - 1);
      }
    }
  }

  lemma {:induction false} HeldAreHoldable(disk: Disk, es: seq<Event>, path: string, t: int, content: Bytes)
    ensures (t, content) in PastOf(disk, es, path).held <==> CanHold(disk, es, path, t, content)
  {
    TimesAreHad(disk, es, path, t);
    if es == [] {
      assert CanHold(disk, es, path, t, content) <==> HoldsAt(disk, es, path, 0, 0, t, content);
    } else {
      HeldAreHoldable(disk, es[..|es| - 1], path, t, content);
      if CanHold(disk, es[..|es| - 1], path, t, content) {
        HoldableLater(disk, es, path, t, content);
      } else if CanHold(disk, es, path, t, content) {
        HoldableBefore(disk, es, path, t, content);
      } else if WritesContent(es[|es| - 1], path, content) && HadTime(disk, es, path, t) {
        FileAtEnd(disk, es, path);
        var i: nat :| i <= |es| && FileAt(disk, es, path, i).Some? && FileAt(disk, es, path, i).value.mtime == t;
        assert HoldsAt(disk, es, path, i, |es|, t, content);
      }
    }
  }

  // What can be held before one more event can be held after it.
  lemma HoldableLater(disk: Disk, es: seq<Event>, path: string, t: int, content: Bytes)
    requires es != [] && CanHold(disk, es[..|es| - 1], path, t, content)
    ensures CanHold(disk, es, path, t, content)
  {
    var es' := es[..|es| - 1];
    var i: nat, j: nat :| i <= j <= |es'| && HoldsAt(disk, es', path, i, j, t, content);
    FileAtPrefix(disk, es, path, i);
    FileAtPrefix(disk, es, path, j);
    assert HoldsAt(disk, es, path, i, j, t, content);
  }

  // What can be held after it was read before it, or is what it has written.
  lemma HoldableBefore(disk: Disk, es: seq<Event>, path: string, t: int, content: Bytes)
    requires es != [] && CanHold(disk, es, path, t, content)
    ensures CanHold(disk, es[..|es| - 1], path, t, content) || WritesContent(es[|es| - 1], path, content)
    ensures HadTime(disk, es, path, t)
  {
    var es', n := es[..|es| - 1], |es| - 1;
    var i: nat, j: nat :| i <= j <= |es| && HoldsAt(disk, es, path, i, j, t, content);
    if !WritesContent(es[n], path, content) || j <= n {
      FileAtEnd(disk, es, path);
      var i', j' := if i <= n then i else n, if j <= n then j else n;
      FileAtPrefix(disk, es, path, i');
      FileAtPrefix(disk, es, path, j');
      assert HoldsAt(disk, es', path, i', j', t, content);
    }
  }

  predicate WritesContent(e: Event, path: string, content: Bytes) {
    e.Write? && e.path == path && e.content == content
  }

  lemma MisleadsPrefix(disk: Disk, es: seq<Event>, path: string, i: nat, j: nat, k: nat)
    requires i <= j <= k < |es|
    ensures Misleads(disk, es, path, i, j, k) <==> Misleads(disk, es[..|es| - 1], path, i, j, k)
  {
    FileAtPrefix(disk, es, path, i);
    FileAtPrefix(disk, es, path, j);
    FileAtPrefix(disk, es, path, k);
  }

  // Told either way, the condition on the writer is the same.
  lemma {:induction false} SteadyIff(disk: Disk, es: seq<Event>, path: string)
    ensures Steady(disk, es, path) <==> NeverMisleads(disk, es, path)
  {
    if es == [] {
    } else {
      var es' := es[..|es| - 1];
      SteadyIff(disk, es', path);
      if NeverMisleads(disk, es, path) {
        NeverMisleadsPrefix(disk, es, path);
        if WritesAt(es, path) {
          SteadyFromHistory(disk, es, path);
        }
      }
      if Steady(disk, es, path) {
        forall i: nat, j: nat, k: nat | i <= j <= k <= |es|
          ensures !Misleads(disk, es, path, i, j, k)
        {
          HistoryFromSteady(disk, es, path, i, j, k);
        }
      }
    }
  }

  predicate WritesAt(es: seq<Event>, path: string)
    requires es != []
  {
    es[|es| - 1].Write? && es[|es| - 1].path == path
  }

  lemma NeverMisleadsPrefix(disk: Disk, es: seq<Event>, path: string)
    requires es != [] && NeverMisleads(disk, es, path)
    ensures NeverMisleads(disk, es[..|es| - 1], path)
  {
    var es' := es[..|es| - 1];
    forall i: nat, j: nat, k: nat | i <= j <= k <= |es'|
      ensures !Misleads(disk, es', path, i, j, k)
    {
      MisleadsPrefix(disk, es, path, i, j, k);
    }
  }

  lemma SteadyFromHistory(disk: Disk, es: seq<Event>, path: string)
    requires es != [] && WritesAt(es, path) && NeverMisleads(disk, es, path)
    ensures SteadyWrite(PastOf(disk, es[..|es| - 1], path), es[|es| - 1])
  {
    var es', e := es[..|es| - 1], es[|es| - 1];
    FileAtEnd(disk, es, path);
    forall h | h in PastOf(disk, es', path).held && h.0 == e.mtime
      ensures h.1 == e.content
    {
      HeldAreHoldable(disk, es', path, h.0, h.1);
      var i: nat, j: nat :| i <= j <= |es'| && HoldsAt(disk, es', path, i, j, h.0, h.1);
      FileAtPrefix(disk, es, path, i);
      FileAtPrefix(disk, es, path, j);
      assert !Misleads(disk, es, path, i, j, |es|);
    }
  }

  lemma HistoryFromSteady(disk: Disk, es: seq<Event>, path: string, i: nat, j: nat, k: nat)
    requires es != [] && Steady(disk, es, path) && NeverMisleads(disk, es[..|es| - 1], path)
    requires i <= j <= k <= |es|
    ensures !Misleads(disk, es, path, i, j, k)
  {
    var es', e, n := es[..|es| - 1], es[|es| - 1], |es| - 1;
    if k <= n {
      MisleadsPrefix(disk, es, path, i, j, k);
    } else if j <= n {
      FileAtEnd(disk, es, path);
      FileAtPrefix(disk, es, path, i);
      FileAtPrefix(disk, es, path, j);
      var seen, read := FileAt(disk, es', path, i), FileAt(disk, es', path, j);
      if !WritesAt(es, path) {
        assert !Misleads(disk, es', path, i, j, n);
        FileAtPrefix(disk, es, path, n);
      } else if seen.Some? && read.Some? {
        HeldAreHoldable(disk, es', path, seen.value.mtime, read.value.content);
        assert HoldsAt(disk, es', path, i, j, seen.value.mtime, read.value.content);
      }
    }
  }

  // ----- from writers to loads -----

  datatype Pasts = Pasts(cert: Past, key: Past, ca: Past)

  function PastsOf(c: Config, disk: Disk, es: seq<Event>): Pasts {
    Pasts(PastOf(disk, es, c.certPath), PastOf(disk, es, c.keyPath), PastOf(disk, es, c.caPath))
  }

  predicate SteadyAll(c: Config, disk: Disk, es: seq<Event>) {
    Steady(disk, es, c.certPath) && Steady(disk, es, c.keyPath) && (c.caPath != "" ==> Steady(disk, es, c.caPath))
  }

  // The present file is the last that its past knows of.
  predicate FileKnown(past: Past, disk: Disk, path: string) {
    path in disk ==>
      disk[path].mtime in past.times && forall t | t in past.times :: (t, disk[path].content) in past.held
  }

  predicate StatsKnown(c: Config, ps: Pasts, stats: Stats) {
    stats.cert in ps.cert.times && stats.key in ps.key.times && (c.caPath != "" ==> stats.ca in ps.ca.times)
  }

  predicate PairKnown(ps: Pasts, stats: Stats, pair: KeyPair) {
    (stats.cert, pair.cert) in ps.cert.held && (stats.key, pair.key) in ps.key.held
  }

  predicate CAKnown(c: Config, ps: Pasts, m: int, ca: Option<Bytes>) {
    c.caPath != "" && ca.Some? ==> (m, ca.value) in ps.ca.held
  }

  // All that a load has seen and read can be held.
  predicate LoadKnown(c: Config, ps: Pasts, l: Load) {
    match l
    case AtStatCert => true
    case AtStatKey(cm) => cm in ps.cert.times
    case AtCompareCert(cm, km) => cm in ps.cert.times && km in ps.key.times
    case AtCompareKey(cm, km, _) => cm in ps.cert.times && km in ps.key.times
    case AtStatCA(cm, km, _) => cm in ps.cert.times && km in ps.key.times
    case AtCompareCA(stats, _) => StatsKnown(c, ps, stats)
    case AtReadCert(stats) => StatsKnown(c, ps, stats)
    case AtReadKey(stats, certData) => StatsKnown(c, ps, stats) && (stats.cert, certData) in ps.cert.held
    case AtReadCA(stats, pair) => StatsKnown(c, ps, stats) && PairKnown(ps, stats, pair)
    case AtSwap(stats, pair, ca) => PairKnown(ps, stats, pair) && CAKnown(c, ps, stats.ca, ca)
    case Done(_) => true
  }

  predicate ReloaderKnown(c: Config, ps: Pasts, r: Reloader) {
    r.cert.Some? ==> PairKnown(ps, StatsOf(r), r.cert.value) && CAKnown(c, ps, r.caMod, r.clientCAPool)
  }

  ghost predicate Known(c: Config, ps: Pasts, s: System) {
    && FileKnown(ps.cert, s.disk, c.certPath) && FileKnown(ps.key, s.disk, c.keyPath)
    && FileKnown(ps.ca, s.disk, c.caPath)
    && ReloaderKnown(c, ps, s.r)
    && forall p | p in s.loads :: LoadKnown(c, ps, s.loads[p])
  }

  predicate Grows(a: Past, b: Past) {
    a.times <= b.times && a.held <= b.held
  }

  lemma PastGrows(disk: Disk, es: seq<Event>, path: string)
    requires es != []
    ensures Grows(PastOf(disk, es[..|es| - 1], path), PastOf(disk, es, path))
  {
  }

  lemma AdvanceKnown(c: Config, ps: Pasts, s: System, l: Load)
    requires Known(c, ps, s) && LoadKnown(c, ps, l) && LoadParsed(c, l)
    ensures LoadKnown(c, ps, NextLoad(c, s.r, s.disk, l))
    ensures ReloaderKnown(c, ps, NextReloader(c, s.r, l))
  {
  }

  lemma GrownLoad(c: Config, ps: Pasts, qs: Pasts, l: Load)
    requires Grows(ps.cert, qs.cert) && Grows(ps.key, qs.key) && Grows(ps.ca, qs.ca)
    ensures LoadKnown(c, ps, l) ==> LoadKnown(c, qs, l)
  {
  }

  lemma FileKnownStep(disk: Disk, es: seq<Event>, path: string, d: Disk)
    requires es != [] && FileKnown(PastOf(disk, es[..|es| - 1], path), d, path)
    ensures FileKnown(PastOf(disk, es, path), DiskStep(d, es[|es| - 1]), path)
  {
  }

  lemma SteadyWriteIsHarmless(c: Config, ps: Pasts, s: System, e: Event)
    requires Known(c, ps, s)
    requires e.Write? && e.path == c.certPath ==> SteadyWrite(ps.cert, e)
    requires e.Write? && e.path == c.keyPath ==> SteadyWrite(ps.key, e)
    requires e.Write? && c.caPath != "" && e.path == c.caPath ==> SteadyWrite(ps.ca, e)
    ensures Harmless(c, s, e)
  {
    forall p | p in s.loads
      ensures HarmlessTo(c, e, s.loads[p])
    {
      assert LoadKnown(c, ps, s.loads[p]);
    }
  }

  lemma KnownStep(c: Config, disk: Disk, es: seq<Event>, s: System)
    requires es != [] && Known(c, PastsOf(c, disk, es[..|es| - 1]), s) && Parsed(c, s)
    ensures Known(c, PastsOf(c, disk, es), Apply(c, s, es[|es| - 1]))
  {
    var ps, qs, e := PastsOf(c, disk, es[..|es| - 1]), PastsOf(c, disk, es), es[|es| - 1];
    var t := Apply(c, s, e);
    assert t.disk == DiskStep(s.disk, e);
    FileKnownStep(disk, es, c.certPath, s.disk);
    FileKnownStep(disk, es, c.keyPath, s.disk);
    FileKnownStep(disk, es, c.caPath, s.disk);
    PastGrows(disk, es, c.certPath);
    PastGrows(disk, es, c.keyPath);
    PastGrows(disk, es, c.caPath);
    forall p | p in t.loads
      ensures LoadKnown(c, qs, t.loads[p])
    {
      LoadKnownStep(c, ps, s, e, p);
      GrownLoad(c, ps, qs, t.loads[p]);
    }
    if e.Advance? && e.p in s.loads {
      AdvanceKnown(c, ps, s, s.loads[e.p]);
    }
  }

  lemma LoadKnownStep(c: Config, ps: Pasts, s: System, e: Event, p: nat)
    requires Known(c, ps, s) && Parsed(c, s) && p in Apply(c, s, e).loads
    ensures LoadKnown(c, ps, Apply(c, s, e).loads[p])
  {
    if e.Advance? && e.p in s.loads {
      AdvanceKnown(c, ps, s, s.loads[e.p]);
    }
  }

  // A writer that is steady on every file served is harmless to any loads that run beside it.
  lemma {:induction false} SteadyIsHarmless(c: Config, s: System, es: seq<Event>)
    requires Start(s) && SteadyAll(c, s.disk, es)
    ensures HarmlessRun(c, s, es)
    ensures Known(c, PastsOf(c, s.disk, es), Run(c, s, es))
  {
    if es == [] {
    } else {
      var es', e := es[..|es| - 1], es[|es| - 1];
      SteadyIsHarmless(c, s, es');
      ParsedAlways(c, s, es');
      SteadyWriteIsHarmless(c, PastsOf(c, s.disk, es'), Run(c, s, es'), e);
      KnownStep(c, s.disk, es, Run(c, s, es'));
    }
  }

  // ----- the writer beside the loads -----

  // The writes and deletions of a run: what the writer does, without the loads.
  function DiskEvents(es: seq<Event>): seq<Event> {
    if es == [] then []
    else
      var e := es[|es| - 1];
      DiskEvents(es[..|es| - 1]) + if IsDiskEvent(e) then [e] else []
  }

  predicate OnlyDiskEvents(ws: seq<Event>) {
    forall i | 0 <= i < |ws| :: IsDiskEvent(ws[i])
  }

  lemma {:induction false} DiskEventsConcat(a: seq<Event>, b: seq<Event>)
    ensures DiskEvents(a + b) == DiskEvents(a) + DiskEvents(b)
  {
    if b == [] {
      assert a + b == a;
    } else {
      assert (a + b)[..|a + b| - 1] == a + b[..|b| - 1];
      DiskEventsConcat(a, b[..|b| - 1]);
    }
  }

  lemma {:induction false} DiskEventsOfWriter(ws: seq<Event>)
    requires OnlyDiskEvents(ws)
    ensures DiskEvents(ws) == ws
  {
    if ws == [] {
    } else {
      var ws', e := ws[..|ws| - 1], ws[|ws| - 1];
      DiskEventsOfWriter(ws');
      assert ws == ws' + [e];
    }
  }

  lemma {:induction false} DiskEventsOfLoads(es: seq<Event>)
    requires Quiet(es)
    ensures DiskEvents(es) == []
  {
    if es == [] {
    } else {
      DiskEventsOfLoads(es[..|es| - 1]);
    }
  }

  // The condition does not depend on the loads that run beside the writer.
  lemma {:induction false} SteadyIgnoresLoads(disk: Disk, es: seq<Event>, path: string)
    ensures PastOf(disk, es, path) == PastOf(disk, DiskEvents(es), path)
    ensures Steady(disk, es, path) <==> Steady(disk, DiskEvents(es), path)
  {
    if es == [] {
    } else {
      var es', e := es[..|es| - 1], es[|es| - 1];
      SteadyIgnoresLoads(disk, es', path);
      if IsDiskEvent(e) {
        assert DiskEvents(es)[..|DiskEvents(es)| - 1] == DiskEvents(es');
      } else {
        assert DiskEvents(es) == DiskEvents(es');
      }
    }
  }

  lemma {:induction false} SteadyPrefix(disk: Disk, ws: seq<Event>, path: string, n: nat)
    requires n <= |ws| && Steady(disk, ws, path)
    ensures Steady(disk, ws[..n], path)
  {
    if n == |ws| {
      assert ws[..n] == ws;
    } else {
      assert ws[..|ws| - 1][..n] == ws[..n];
      SteadyPrefix(disk, ws[..|ws| - 1], path, n);
    }
  }

  // ----- enough -----

  ghost predicate SteadyWriter(c: Config, disk: Disk, es: seq<Event>) {
    && NeverMisleads(disk, es, c.certPath) && NeverMisleads(disk, es, c.keyPath)
    && (c.caPath != "" ==> NeverMisleads(disk, es, c.caPath))
  }

  predicate UpdateLost(c: Config, s: System) {
    s.r.cert.Some? && Current(c, s.r, s.disk) && !Synced(c, s.r, s.disk)
  }

  lemma SteadyBeside(disk: Disk, ws: seq<Event>, es: seq<Event>, path: string)
    requires NeverMisleads(disk, ws, path) && DiskEvents(es) <= ws
    ensures Steady(disk, es, path)
  {
    var n := |DiskEvents(es)|;
    assert DiskEvents(es) == ws[..n];
    SteadyIff(disk, ws, path);
    SteadyPrefix(disk, ws, path, n);
    SteadyIgnoresLoads(disk, es, path);
  }

  // A writer whose histories never mislead makes every run with its writes harmless, so no update is lost in it.
  lemma SteadyWritersLoseNothing(c: Config, s: System, ws: seq<Event>, es: seq<Event>)
    requires Start(s) && SteadyWriter(c, s.disk, ws) && DiskEvents(es) <= ws
    ensures HarmlessRun(c, s, es) && !UpdateLost(c, Run(c, s, es))
  {
    SteadyBeside(s.disk, ws, es, c.certPath);
    SteadyBeside(s.disk, ws, es, c.keyPath);
    if c.caPath != "" {
      SteadyBeside(s.disk, ws, es, c.caPath);
    }
    SteadyIsHarmless(c, s, es);
    NoLostUpdate(c, s, es);
  }

  // Once such a writer has stopped and no load is in flight, any load that returns without an error leaves the disk
  // being served, or nothing where all files carry Go's zero time.
  lemma SteadyWritersConverge(c: Config, s: System, ws: seq<Event>, es: seq<Event>, more: seq<Event>, p: nat)
    requires Start(s) && SteadyWriter(c, s.disk, ws) && DiskEvents(es) <= ws
    requires NoLoadInFlight(Run(c, s, es)) && p !in Run(c, s, es).loads && Quiet(more)
    requires var u := Run(c, Run(c, s, es), more);
             p in u.loads && u.loads[p].Done? && !u.loads[p].result.Failed?
    ensures var u := Run(c, Run(c, s, es), more);
            Synced(c, u.r, u.disk) || (u.r == UNLOADED && Current(c, UNLOADED, u.disk))
  {
    SteadyWritersLoseNothing(c, s, ws, es);
    QuietLoadsConverge(c, s, es, more, p);
  }

  // No write gives its file a time that the file has had before.
  ghost predicate FreshTimes(disk: Disk, es: seq<Event>, path: string) {
    forall k | 0 <= k < |es| && es[k].Write? && es[k].path == path :: !HadTime(disk, es[..k], path, es[k].mtime)
  }

  lemma HeldTimesWereHad(disk: Disk, es: seq<Event>, path: string, h: (int, Bytes))
    requires h in PastOf(disk, es, path).held
    ensures HadTime(disk, es, path, h.0)
  {
    HeldAreHoldable(disk, es, path, h.0, h.1);
    var i: nat, j: nat :| i <= j <= |es| && HoldsAt(disk, es, path, i, j, h.0, h.1);
  }

  // Writers that always set a new time never mislead.
  lemma {:induction false} FreshTimesNeverMislead(disk: Disk, es: seq<Event>, path: string)
    requires FreshTimes(disk, es, path)
    ensures Steady(disk, es, path) && NeverMisleads(disk, es, path)
  {
    SteadyIff(disk, es, path);
    if es == [] {
    } else {
      var es' := es[..|es| - 1];
      forall k | 0 <= k < |es'| && es'[k].Write? && es'[k].path == path
        ensures !HadTime(disk, es'[..k], path, es'[k].mtime)
      {
        assert es'[..k] == es[..k];
      }
      FreshTimesNeverMislead(disk, es', path);
      if WritesAt(es, path) {
        forall h | h in PastOf(disk, es', path).held
          ensures h.0 != es[|es| - 1].mtime
        {
          HeldTimesWereHad(disk, es', path, h);
        }
      }
    }
  }
}
