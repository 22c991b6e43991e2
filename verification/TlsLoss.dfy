/** Exactly which sequences of writes can make the certificate reloader lose an update: those that have points at
    which one load could see times that come back, and read contents that do not. */
module TlsLoss {
  import opened Options
  import opened TlsReload
  import opened TlsWriters

  // ----- the points of a load -----

  // How many writes have happened when a load sees the time of the certificate, the key and the CA, and when it
  // reads the contents of the certificate, the key and the CA.
  datatype Points = Points(cs: nat, ks: nat, zs: nat, cr: nat, kr: nat, zr: nat)

  // In the order of the code.
  predicate Ordered(pt: Points, k: nat) {
    pt.cs <= pt.ks <= pt.zs <= pt.cr <= pt.kr <= pt.zr <= k
  }

  predicate TimeIs(disk: Disk, es: seq<Event>, path: string, i: nat, m: int) {
    i <= |es| && FileAt(disk, es, path, i).Some? && FileAt(disk, es, path, i).value.mtime == m
  }

  predicate ContentIs(disk: Disk, es: seq<Event>, path: string, i: nat, data: Bytes) {
    i <= |es| && FileAt(disk, es, path, i).Some? && FileAt(disk, es, path, i).value.content == data
  }

  predicate SawAt(c: Config, disk: Disk, es: seq<Event>, stats: Stats, pt: Points) {
    && TimeIs(disk, es, c.certPath, pt.cs, stats.cert) && TimeIs(disk, es, c.keyPath, pt.ks, stats.key)
    && (c.caPath != "" ==> TimeIs(disk, es, c.caPath, pt.zs, stats.ca))
  }

  predicate ReadPairAt(c: Config, disk: Disk, es: seq<Event>, pair: KeyPair, pt: Points) {
    ContentIs(disk, es, c.certPath, pt.cr, pair.cert) && ContentIs(disk, es, c.keyPath, pt.kr, pair.key)
  }

  predicate ReadCAAt(c: Config, disk: Disk, es: seq<Event>, ca: Option<Bytes>, pt: Points) {
    c.caPath != "" ==> ca.Some? && ContentIs(disk, es, c.caPath, pt.zr, ca.value)
  }

  // What a load holds was there at these points.
  predicate LoadAt(c: Config, disk: Disk, es: seq<Event>, l: Load, pt: Points) {
    match l
    case AtStatCert => true
    case AtStatKey(cm) => TimeIs(disk, es, c.certPath, pt.cs, cm)
    case AtCompareCert(cm, km) =>
      pt.cs <= pt.ks && TimeIs(disk, es, c.certPath, pt.cs, cm) && TimeIs(disk, es, c.keyPath, pt.ks, km)
    case AtCompareKey(cm, km, _) =>
      pt.cs <= pt.ks && TimeIs(disk, es, c.certPath, pt.cs, cm) && TimeIs(disk, es, c.keyPath, pt.ks, km)
    case AtStatCA(cm, km, _) =>
      pt.cs <= pt.ks && TimeIs(disk, es, c.certPath, pt.cs, cm) && TimeIs(disk, es, c.keyPath, pt.ks, km)
    case AtCompareCA(stats, _) => pt.cs <= pt.ks <= pt.zs <= |es| && SawAt(c, disk, es, stats, pt)
    case AtReadCert(stats) => pt.cs <= pt.ks <= pt.zs <= |es| && SawAt(c, disk, es, stats, pt)
    case AtReadKey(stats, certData) =>
      && pt.cs <= pt.ks <= pt.zs <= pt.cr && SawAt(c, disk, es, stats, pt)
      && ContentIs(disk, es, c.certPath, pt.cr, certData)
    case AtReadCA(stats, pair) =>
      && pt.cs <= pt.ks <= pt.zs <= pt.cr <= pt.kr <= |es|
      && SawAt(c, disk, es, stats, pt) && ReadPairAt(c, disk, es, pair, pt)
    case AtSwap(stats, pair, ca) => SwapAt(c, disk, es, stats, pair, ca, pt)
    case Done(_) => true
  }

  predicate SwapAt(c: Config, disk: Disk, es: seq<Event>, stats: Stats, pair: KeyPair, ca: Option<Bytes>, pt: Points) {
    && Ordered(pt, |es|)
    && SawAt(c, disk, es, stats, pt) && ReadPairAt(c, disk, es, pair, pt) && ReadCAAt(c, disk, es, ca, pt)
  }

  ghost predicate LoadHasPoints(c: Config, disk: Disk, es: seq<Event>, l: Load) {
    exists pt :: LoadAt(c, disk, es, l, pt)
  }

  ghost predicate ServedHasPoints(c: Config, disk: Disk, es: seq<Event>, r: Reloader) {
    r.cert.Some? ==> exists pt :: SwapAt(c, disk, es, StatsOf(r), r.cert.value, r.clientCAPool, pt)
  }

  ghost predicate AllHavePoints(c: Config, disk: Disk, es: seq<Event>, s: System) {
    && s.disk == DiskAfter(disk, es)
    && ServedHasPoints(c, disk, es, s.r)
    && forall p | p in s.loads :: LoadHasPoints(c, disk, es, s.loads[p])
  }

  // ----- every run keeps them -----

  lemma TimeStays(disk: Disk, es: seq<Event>, path: string, i: nat, m: int)
    requires es != [] && TimeIs(disk, es[..|es| - 1], path, i, m)
    ensures TimeIs(disk, es, path, i, m)
  {
    FileAtPrefix(disk, es, path, i);
  }

  lemma ContentStays(disk: Disk, es: seq<Event>, path: string, i: nat, data: Bytes)
    requires es != [] && ContentIs(disk, es[..|es| - 1], path, i, data)
    ensures ContentIs(disk, es, path, i, data)
  {
    FileAtPrefix(disk, es, path, i);
  }

  lemma SawStays(c: Config, disk: Disk, es: seq<Event>, stats: Stats, pt: Points)
    requires es != [] && SawAt(c, disk, es[..|es| - 1], stats, pt)
    ensures SawAt(c, disk, es, stats, pt)
  {
    TimeStays(disk, es, c.certPath, pt.cs, stats.cert);
    TimeStays(disk, es, c.keyPath, pt.ks, stats.key);
    if c.caPath != "" {
      TimeStays(disk, es, c.caPath, pt.zs, stats.ca);
    }
  }

  lemma ReadStays(c: Config, disk: Disk, es: seq<Event>, pair: KeyPair, pt: Points)
    requires es != [] && ReadPairAt(c, disk, es[..|es| - 1], pair, pt)
    ensures ReadPairAt(c, disk, es, pair, pt)
  {
    ContentStays(disk, es, c.certPath, pt.cr, pair.cert);
    ContentStays(disk, es, c.keyPath, pt.kr, pair.key);
  }

  lemma SwapStays(c: Config, disk: Disk, es: seq<Event>, stats: Stats, pair: KeyPair, ca: Option<Bytes>, pt: Points)
    requires es != [] && SwapAt(c, disk, es[..|es| - 1], stats, pair, ca, pt)
    ensures SwapAt(c, disk, es, stats, pair, ca, pt)
  {
    SawStays(c, disk, es, stats, pt);
    ReadStays(c, disk, es, pair, pt);
    if c.caPath != "" {
      ContentStays(disk, es, c.caPath, pt.zr, ca.value);
    }
  }

  lemma LoadStays(c: Config, disk: Disk, es: seq<Event>, l: Load, pt: Points)
    requires es != [] && LoadAt(c, disk, es[..|es| - 1], l, pt)
    ensures LoadAt(c, disk, es, l, pt)
  {
    match l
    case AtStatKey(cm) =>
      TimeStays(disk, es, c.certPath, pt.cs, cm);
    case AtCompareCert(cm, km) =>
      TimeStays(disk, es, c.certPath, pt.cs, cm);
      TimeStays(disk, es, c.keyPath, pt.ks, km);
    case AtCompareKey(cm, km, _) =>
      TimeStays(disk, es, c.certPath, pt.cs, cm);
      TimeStays(disk, es, c.keyPath, pt.ks, km);
    case AtStatCA(cm, km, _) =>
      TimeStays(disk, es, c.certPath, pt.cs, cm);
      TimeStays(disk, es, c.keyPath, pt.ks, km);
    case AtCompareCA(stats, _) => SawStays(c, disk, es, stats, pt);
    case AtReadCert(stats) => SawStays(c, disk, es, stats, pt);
    case AtReadKey(stats, certData) =>
      SawStays(c, disk, es, stats, pt);
      ContentStays(disk, es, c.certPath, pt.cr, certData);
    case AtReadCA(stats, pair) =>
      SawStays(c, disk, es, stats, pt);
      ReadStays(c, disk, es, pair, pt);
    case AtSwap(stats, pair, ca) => SwapStays(c, disk, es, stats, pair, ca, pt);
    case _ =>
  }

  // A load that gets on now takes the present as its next point; where it touches no file, the point before it will
  // do for a CA that is not there.
  function NextPoints(l: Load, pt: Points, now: nat): Points {
    match l
    case AtStatCert => pt.(cs := now)
    case AtStatKey(_) => pt.(ks := now)
    case AtCompareKey(_, _, _) => pt.(zs := pt.ks)
    case AtStatCA(_, _, _) => pt.(zs := now)
    case AtReadCert(_) => pt.(cr := now)
    case AtReadKey(_, _) => pt.(kr := now, zr := now)
    case AtReadCA(_, _) => pt.(zr := now)
    case _ => pt
  }

  lemma AdvanceAt(c: Config, disk: Disk, es: seq<Event>, r: Reloader, l: Load, pt: Points)
    requires LoadAt(c, disk, es, l, pt) && LoadParsed(c, l)
    ensures LoadAt(c, disk, es, NextLoad(c, r, DiskAfter(disk, es), l), NextPoints(l, pt, |es|))
  {
    assert es[..|es|] == es;
  }

  lemma DiskFollows(c: Config, s: System, e: Event)
    ensures Apply(c, s, e).disk == DiskStep(s.disk, e)
  {
  }

  // The points of what is served stay, or are those of the load that swaps.
  lemma ServedStep(c: Config, disk: Disk, es: seq<Event>, s: System, e: Event)
    requires es != [] && AllHavePoints(c, disk, es[..|es| - 1], s)
    ensures ServedHasPoints(c, disk, es, Apply(c, s, e).r)
  {
    if e.Advance? && e.p in s.loads && s.loads[e.p].AtSwap? {
      SwappedHasPoints(c, disk, es, s.r, s.loads[e.p]);
    } else if s.r.cert.Some? {
      var pt :| SwapAt(c, disk, es[..|es| - 1], StatsOf(s.r), s.r.cert.value, s.r.clientCAPool, pt);
      SwapStays(c, disk, es, StatsOf(s.r), s.r.cert.value, s.r.clientCAPool, pt);
    }
  }

  lemma SwappedHasPoints(c: Config, disk: Disk, es: seq<Event>, r: Reloader, l: Load)
    requires es != [] && l.AtSwap? && LoadHasPoints(c, disk, es[..|es| - 1], l)
    ensures ServedHasPoints(c, disk, es, NextReloader(c, r, l))
  {
    var pt :| LoadAt(c, disk, es[..|es| - 1], l, pt);
    SwapStays(c, disk, es, l.stats, l.pair, l.ca, pt);
    var r' := NextReloader(c, r, l);
    assert SwapAt(c, disk, es, StatsOf(r'), r'.cert.value, r'.clientCAPool, pt);
  }

  lemma HasPointsStays(c: Config, disk: Disk, es: seq<Event>, l: Load)
    requires es != [] && LoadHasPoints(c, disk, es[..|es| - 1], l)
    ensures LoadHasPoints(c, disk, es, l)
  {
    var pt :| LoadAt(c, disk, es[..|es| - 1], l, pt);
    LoadStays(c, disk, es, l, pt);
  }

  lemma AdvancedHasPoints(c: Config, disk: Disk, es: seq<Event>, r: Reloader, l: Load)
    requires LoadHasPoints(c, disk, es, l) && LoadParsed(c, l)
    ensures LoadHasPoints(c, disk, es, NextLoad(c, r, DiskAfter(disk, es), l))
  {
    var pt :| LoadAt(c, disk, es, l, pt);
    AdvanceAt(c, disk, es, r, l, pt);
  }

  lemma NewHasPoints(c: Config, disk: Disk, es: seq<Event>, l: Load)
    requires l.AtStatCert? || l.Done?
    ensures LoadHasPoints(c, disk, es, l)
  {
    assert LoadAt(c, disk, es, l, Points(0, 0, 0, 0, 0, 0));
  }

  lemma LoadPointsStep(c: Config, disk: Disk, es: seq<Event>, s: System, e: Event, p: nat)
    requires es != [] && AllHavePoints(c, disk, es[..|es| - 1], s) && Parsed(c, s)
    requires p in Apply(c, s, e).loads
    ensures LoadHasPoints(c, disk, es, Apply(c, s, e).loads[p])
  {
    var es' := es[..|es| - 1];
    var l' := Apply(c, s, e).loads[p];
    if p in s.loads && e == Advance(p) {
      AdvancedHasPoints(c, disk, es', s.r, s.loads[p]);
      HasPointsStays(c, disk, es, l');
    } else if p in s.loads && l' == s.loads[p] {
      HasPointsStays(c, disk, es, l');
    } else {
      NewHasPoints(c, disk, es, l');
    }
  }

  lemma PointsStep(c: Config, disk: Disk, es: seq<Event>, s: System)
    requires es != [] && AllHavePoints(c, disk, es[..|es| - 1], s) && Parsed(c, s)
    ensures AllHavePoints(c, disk, es, Apply(c, s, es[|es| - 1]))
  {
    var e := es[|es| - 1];
    DiskFollows(c, s, e);
    ServedStep(c, disk, es, s, e);
    forall p | p in Apply(c, s, e).loads
      ensures LoadHasPoints(c, disk, es, Apply(c, s, e).loads[p])
    {
      LoadPointsStep(c, disk, es, s, e, p);
    }
  }

  lemma {:induction false} PointsAlways(c: Config, s: System, es: seq<Event>)
    requires Start(s)
    ensures AllHavePoints(c, s.disk, es, Run(c, s, es))
  {
    if es == [] {
    } else {
      PointsAlways(c, s, es[..|es| - 1]);
      ParsedAlways(c, s, es[..|es| - 1]);
      PointsStep(c, s.disk, es, Run(c, s, es[..|es| - 1]));
    }
  }

  // ----- losing points -----

  // The file has the time at point k that it had at point i.
  predicate TimeReturns(disk: Disk, ws: seq<Event>, path: string, i: nat, k: nat)
    requires i <= |ws| && k <= |ws|
  {
    var seen, found := FileAt(disk, ws, path, i), FileAt(disk, ws, path, k);
    seen.Some? && found.Some? && seen.value.mtime == found.value.mtime
  }

  // The file does not have the contents at point k that it had at point j.
  predicate ContentDiffers(disk: Disk, ws: seq<Event>, path: string, j: nat, k: nat)
    requires j <= |ws| && k <= |ws|
  {
    var read, found := FileAt(disk, ws, path, j), FileAt(disk, ws, path, k);
    read.Some? && found.Some? && read.value.content != found.value.content
  }

  predicate TimesReturn(c: Config, disk: Disk, ws: seq<Event>, pt: Points, k: nat)
    requires Ordered(pt, k) && k <= |ws|
  {
    && TimeReturns(disk, ws, c.certPath, pt.cs, k) && TimeReturns(disk, ws, c.keyPath, pt.ks, k)
    && (c.caPath != "" ==> TimeReturns(disk, ws, c.caPath, pt.zs, k))
  }

  // The three files as the load reads them can be loaded.
  predicate ReadsParse(c: Config, disk: Disk, ws: seq<Event>, pt: Points)
    requires Ordered(pt, |ws|)
  {
    var cert, key := FileAt(disk, ws, c.certPath, pt.cr), FileAt(disk, ws, c.keyPath, pt.kr);
    && cert.Some? && key.Some? && c.pairParses(cert.value.content, key.value.content)
    && (c.caPath != "" ==>
          FileAt(disk, ws, c.caPath, pt.zr).Some? && c.caParses(FileAt(disk, ws, c.caPath, pt.zr).value.content))
  }

  predicate ReadsDiffer(c: Config, disk: Disk, ws: seq<Event>, pt: Points, k: nat)
    requires Ordered(pt, k) && k <= |ws|
  {
    || ContentDiffers(disk, ws, c.certPath, pt.cr, k) || ContentDiffers(disk, ws, c.keyPath, pt.kr, k)
    || (c.caPath != "" && ContentDiffers(disk, ws, c.caPath, pt.zr, k))
  }

  predicate LosesAt(c: Config, disk: Disk, ws: seq<Event>, pt: Points, k: nat) {
    && k <= |ws| && Ordered(pt, k)
    && TimesReturn(c, disk, ws, pt, k) && ReadsParse(c, disk, ws, pt) && ReadsDiffer(c, disk, ws, pt, k)
  }

  // ----- a lost update has losing points -----

  lemma LostHasPoints(c: Config, s: System, es: seq<Event>) returns (pt: Points)
    requires Start(s) && UpdateLost(c, Run(c, s, es))
    ensures LosesAt(c, s.disk, es, pt, |es|)
  {
    PointsAlways(c, s, es);
    ParsedAlways(c, s, es);
    var r := Run(c, s, es).r;
    pt :| SwapAt(c, s.disk, es, StatsOf(r), r.cert.value, r.clientCAPool, pt);
    ServedPointsLose(c, s.disk, es, r, pt);
  }

  lemma ServedPointsLose(c: Config, disk: Disk, es: seq<Event>, r: Reloader, pt: Points)
    requires r.cert.Some? && SwapAt(c, disk, es, StatsOf(r), r.cert.value, r.clientCAPool, pt)
    requires ReloaderParsed(c, r)
    requires Current(c, r, DiskAfter(disk, es)) && !Synced(c, r, DiskAfter(disk, es))
    ensures LosesAt(c, disk, es, pt, |es|)
  {
    assert es[..|es|] == es;
  }

  // How many writes have happened when i events have.
  function Count(es: seq<Event>, i: nat): nat
    requires i <= |es|
  {
    |DiskEvents(es[..i])|
  }

  lemma CountGrows(es: seq<Event>, i: nat, j: nat)
    requires i <= j <= |es|
    ensures Count(es, i) <= Count(es, j)
    ensures DiskEvents(es[..i]) <= DiskEvents(es[..j])
  {
    assert es[..j] == es[..i] + es[i..j];
    DiskEventsConcat(es[..i], es[i..j]);
  }

  lemma {:induction false} DiskAfterWrites(disk: Disk, es: seq<Event>)
    ensures DiskAfter(disk, DiskEvents(es)) == DiskAfter(disk, es)
  {
    if es == [] {
    } else {
      var es', e := es[..|es| - 1], es[|es| - 1];
      DiskAfterWrites(disk, es');
      if IsDiskEvent(e) {
        assert DiskEvents(es)[..|DiskEvents(es)| - 1] == DiskEvents(es');
      } else {
        assert DiskEvents(es) == DiskEvents(es');
      }
    }
  }

  // Leaving the loads out of a run leaves the history of the files.
  lemma FileAtWrites(disk: Disk, ws: seq<Event>, es: seq<Event>, path: string, i: nat)
    requires i <= |es| && DiskEvents(es) <= ws
    ensures Count(es, i) <= |ws| && FileAt(disk, ws, path, Count(es, i)) == FileAt(disk, es, path, i)
  {
    CountGrows(es, i, |es|);
    assert es[..|es|] == es;
    assert ws[..Count(es, i)] == DiskEvents(es[..i]);
    DiskAfterWrites(disk, es[..i]);
  }

  function CountPoints(es: seq<Event>, pt: Points): Points
    requires Ordered(pt, |es|)
  {
    Points(Count(es, pt.cs), Count(es, pt.ks), Count(es, pt.zs), Count(es, pt.cr), Count(es, pt.kr), Count(es, pt.zr))
  }

  lemma CountPointsOrdered(es: seq<Event>, pt: Points)
    requires Ordered(pt, |es|)
    ensures Ordered(CountPoints(es, pt), Count(es, |es|))
  {
    CountGrows(es, pt.cs, pt.ks);
    CountGrows(es, pt.ks, pt.zs);
    CountGrows(es, pt.zs, pt.cr);
    CountGrows(es, pt.cr, pt.kr);
    CountGrows(es, pt.kr, pt.zr);
    CountGrows(es, pt.zr, |es|);
  }

  lemma LosesAtWrites(c: Config, disk: Disk, ws: seq<Event>, es: seq<Event>, pt: Points)
    requires DiskEvents(es) <= ws && LosesAt(c, disk, es, pt, |es|)
    ensures LosesAt(c, disk, ws, CountPoints(es, pt), Count(es, |es|))
  {
    CountPointsOrdered(es, pt);
    FileAtWrites(disk, ws, es, c.certPath, pt.cs);
    FileAtWrites(disk, ws, es, c.keyPath, pt.ks);
    FileAtWrites(disk, ws, es, c.caPath, pt.zs);
    FileAtWrites(disk, ws, es, c.certPath, pt.cr);
    FileAtWrites(disk, ws, es, c.keyPath, pt.kr);
    FileAtWrites(disk, ws, es, c.caPath, pt.zr);
    FileAtWrites(disk, ws, es, c.certPath, |es|);
    FileAtWrites(disk, ws, es, c.keyPath, |es|);
    FileAtWrites(disk, ws, es, c.caPath, |es|);
  }

  // ----- losing points lose an update -----

  lemma {:induction false} RunWriter(c: Config, s: System, ws: seq<Event>)
    requires OnlyDiskEvents(ws)
    ensures Run(c, s, ws) == s.(disk := DiskAfter(s.disk, ws))
  {
    if ws == [] {
    } else {
      RunWriter(c, s, ws[..|ws| - 1]);
    }
  }

  lemma {:induction false} DiskAfterConcat(disk: Disk, a: seq<Event>, b: seq<Event>)
    ensures DiskAfter(disk, a + b) == DiskAfter(DiskAfter(disk, a), b)
  {
    if b == [] {
      assert a + b == a;
    } else {
      assert (a + b)[..|a + b| - 1] == a + b[..|b| - 1];
      DiskAfterConcat(disk, a, b[..|b| - 1]);
    }
  }

  // After i of the writes, with one load, at `l`, and nothing loaded yet.
  function Midway(s: System, ws: seq<Event>, i: nat, l: Load): System
    requires i <= |ws|
  {
    System(UNLOADED, DiskAfter(s.disk, ws[..i]), map[0 := l])
  }

  // Writes up to point b, and then n steps of the load.
  function Leg(ws: seq<Event>, a: nat, b: nat, n: nat): seq<Event>
    requires a <= b <= |ws|
  {
    ws[a..b] + Advances(0, n)
  }

  lemma WritesRun(c: Config, s: System, ws: seq<Event>, a: nat, b: nat, l: Load)
    requires a <= b <= |ws| && OnlyDiskEvents(ws)
    ensures Run(c, Midway(s, ws, a, l), ws[a..b]) == Midway(s, ws, b, l)
  {
    assert ws[..b] == ws[..a] + ws[a..b];
    DiskAfterConcat(s.disk, ws[..a], ws[a..b]);
    RunWriter(c, Midway(s, ws, a, l), ws[a..b]);
  }

  lemma LegRun(c: Config, s: System, ws: seq<Event>, a: nat, b: nat, n: nat, l: Load)
    requires a <= b <= |ws| && OnlyDiskEvents(ws)
    requires forall k: nat | k < n :: !Ahead(c, UNLOADED, DiskAfter(s.disk, ws[..b]), l, k).AtSwap?
    ensures Run(c, Midway(s, ws, a, l), Leg(ws, a, b, n)) ==
            Midway(s, ws, b, Ahead(c, UNLOADED, DiskAfter(s.disk, ws[..b]), l, n))
  {
    WritesRun(c, s, ws, a, b, l);
    AdvancesRun(c, s, ws, b, n, l);
    RunConcat(c, Midway(s, ws, a, l), ws[a..b], Advances(0, n));
  }

  lemma AdvancesRun(c: Config, s: System, ws: seq<Event>, b: nat, n: nat, l: Load)
    requires b <= |ws|
    requires forall k: nat | k < n :: !Ahead(c, UNLOADED, DiskAfter(s.disk, ws[..b]), l, k).AtSwap?
    ensures Run(c, Midway(s, ws, b, l), Advances(0, n)) ==
            Midway(s, ws, b, Ahead(c, UNLOADED, DiskAfter(s.disk, ws[..b]), l, n))
  {
    RunAdvances(c, Midway(s, ws, b, l), 0, n);
  }

  lemma LegWrites(es: seq<Event>, ws: seq<Event>, a: nat, b: nat, n: nat)
    requires a <= b <= |ws| && OnlyDiskEvents(ws) && DiskEvents(es) == ws[..a]
    ensures DiskEvents(es + Leg(ws, a, b, n)) == ws[..b]
  {
    DiskEventsOfWriter(ws[a..b]);
    DiskEventsOfLoads(Advances(0, n));
    DiskEventsConcat(ws[a..b], Advances(0, n));
    DiskEventsConcat(es, Leg(ws, a, b, n));
    assert ws[..a] + ws[a..b] == ws[..b];
  }

  // A run that has come to point a with the load at `l` goes on to point b.
  lemma GoOn(c: Config, s: System, ws: seq<Event>, es: seq<Event>, a: nat, b: nat, n: nat, l: Load)
    returns (es': seq<Event>)
    requires a <= b <= |ws| && OnlyDiskEvents(ws)
    requires Run(c, s, es) == Midway(s, ws, a, l) && DiskEvents(es) == ws[..a]
    requires forall k: nat | k < n :: !Ahead(c, UNLOADED, DiskAfter(s.disk, ws[..b]), l, k).AtSwap?
    ensures Run(c, s, es') == Midway(s, ws, b, Ahead(c, UNLOADED, DiskAfter(s.disk, ws[..b]), l, n))
    ensures DiskEvents(es') == ws[..b]
  {
    es' := es + Leg(ws, a, b, n);
    LegRun(c, s, ws, a, b, n, l);
    RunConcat(c, s, es, Leg(ws, a, b, n));
    LegWrites(es, ws, a, b, n);
  }

  lemma Begins(c: Config, s: System, ws: seq<Event>) returns (es: seq<Event>)
    requires Start(s)
    ensures Run(c, s, es) == Midway(s, ws, 0, AtStatCert) && DiskEvents(es) == ws[..0]
  {
    es := [Begin(0)];
    OneEvent(c, s, Begin(0));
    DiskEventsOfLoads(es);
    assert ws[..0] == [];
  }

  // What n steps come to where no other load interferes and something has changed.
  lemma AheadComparing(c: Config, disk: Disk, cm: int, km: int)
    requires c.keyPath in disk && disk[c.keyPath].mtime == km
    ensures Ahead(c, UNLOADED, disk, AtStatKey(cm), 0) == AtStatKey(cm)
    ensures Ahead(c, UNLOADED, disk, AtStatKey(cm), 1) == AtCompareCert(cm, km)
    ensures Ahead(c, UNLOADED, disk, AtStatKey(cm), 2) == AtCompareKey(cm, km, cm != ZERO_TIME)
    ensures var changed := cm != ZERO_TIME || km != ZERO_TIME;
            Ahead(c, UNLOADED, disk, AtStatKey(cm), 3) ==
            if c.caPath != "" then AtStatCA(cm, km, changed) else Decide(Stats(cm, km, ZERO_TIME), changed)
  {
  }

  lemma AheadOne(c: Config, r: Reloader, disk: Disk, l: Load)
    ensures Ahead(c, r, disk, l, 0) == l && Ahead(c, r, disk, l, 1) == NextLoad(c, r, disk, l)
  {
  }

  // The seeing half of the load, up to the decision to read.
  lemma Sees(c: Config, s: System, ws: seq<Event>, stats: Stats, pt: Points) returns (es: seq<Event>)
    requires Start(s) && OnlyDiskEvents(ws) && Ordered(pt, |ws|)
    requires SawAt(c, s.disk, ws, stats, pt) && IsChange(c, UNLOADED, stats)
    requires c.caPath == "" ==> stats.ca == ZERO_TIME
    ensures Run(c, s, es) == Midway(s, ws, pt.zs, AtReadCert(stats)) && DiskEvents(es) == ws[..pt.zs]
  {
    es := SeesCertFirst(c, s, ws, stats, pt);
    AheadComparing(c, DiskAfter(s.disk, ws[..pt.ks]), stats.cert, stats.key);
    es := GoOn(c, s, ws, es, pt.cs, pt.ks, 3, AtStatKey(stats.cert));
    es := SeesCALast(c, s, ws, es, stats, pt);
  }

  lemma SeesCertFirst(c: Config, s: System, ws: seq<Event>, stats: Stats, pt: Points) returns (es: seq<Event>)
    requires Start(s) && OnlyDiskEvents(ws) && Ordered(pt, |ws|) && SawAt(c, s.disk, ws, stats, pt)
    ensures Run(c, s, es) == Midway(s, ws, pt.cs, AtStatKey(stats.cert)) && DiskEvents(es) == ws[..pt.cs]
  {
    es := Begins(c, s, ws);
    AheadOne(c, UNLOADED, DiskAfter(s.disk, ws[..pt.cs]), AtStatCert);
    es := GoOn(c, s, ws, es, 0, pt.cs, 1, AtStatCert);
  }

  lemma SeesCALast(c: Config, s: System, ws: seq<Event>, es: seq<Event>, stats: Stats, pt: Points)
    returns (es': seq<Event>)
    requires OnlyDiskEvents(ws) && Ordered(pt, |ws|)
    requires SawAt(c, s.disk, ws, stats, pt) && IsChange(c, UNLOADED, stats)
    requires var changed := stats.cert != ZERO_TIME || stats.key != ZERO_TIME;
             Run(c, s, es) == Midway(s, ws, pt.ks, if c.caPath != "" then AtStatCA(stats.cert, stats.key, changed)
                                                   else AtReadCert(stats))
    requires DiskEvents(es) == ws[..pt.ks]
    ensures Run(c, s, es') == Midway(s, ws, pt.zs, AtReadCert(stats)) && DiskEvents(es') == ws[..pt.zs]
  {
    if c.caPath != "" {
      var dz, changed := DiskAfter(s.disk, ws[..pt.zs]), stats.cert != ZERO_TIME || stats.key != ZERO_TIME;
      var l := AtStatCA(stats.cert, stats.key, changed);
      AheadOne(c, UNLOADED, dz, l);
      assert Ahead(c, UNLOADED, dz, l, 1) == AtCompareCA(stats, changed);
      assert Ahead(c, UNLOADED, dz, l, 2) == AtReadCert(stats);
      es' := GoOn(c, s, ws, es, pt.ks, pt.zs, 2, l);
    } else {
      es' := GoOn(c, s, ws, es, pt.ks, pt.zs, 0, AtReadCert(stats));
    }
  }

  // The reading half, up to the swap.
  lemma ReadsUp(c: Config, s: System, ws: seq<Event>, es: seq<Event>, stats: Stats, pair: KeyPair, ca: Option<Bytes>,
                pt: Points)
    returns (es': seq<Event>)
    requires OnlyDiskEvents(ws) && Ordered(pt, |ws|)
    requires ReadPairAt(c, s.disk, ws, pair, pt) && c.pairParses(pair.cert, pair.key)
    requires ReadCAAt(c, s.disk, ws, ca, pt) && CAParsed(c, ca)
    requires Run(c, s, es) == Midway(s, ws, pt.zs, AtReadCert(stats)) && DiskEvents(es) == ws[..pt.zs]
    ensures Run(c, s, es') == Midway(s, ws, pt.zr, AtSwap(stats, pair, ca)) && DiskEvents(es') == ws[..pt.zr]
  {
    var dc, dk := DiskAfter(s.disk, ws[..pt.cr]), DiskAfter(s.disk, ws[..pt.kr]);
    AheadOne(c, UNLOADED, dc, AtReadCert(stats));
    es' := GoOn(c, s, ws, es, pt.zs, pt.cr, 1, AtReadCert(stats));
    AheadOne(c, UNLOADED, dk, AtReadKey(stats, pair.cert));
    es' := GoOn(c, s, ws, es', pt.cr, pt.kr, 1, AtReadKey(stats, pair.cert));
    es' := ReadsCALast(c, s, ws, es', stats, pair, ca, pt);
  }

  lemma ReadsCALast(c: Config, s: System, ws: seq<Event>, es: seq<Event>, stats: Stats, pair: KeyPair,
                    ca: Option<Bytes>, pt: Points)
    returns (es': seq<Event>)
    requires OnlyDiskEvents(ws) && Ordered(pt, |ws|)
    requires ReadCAAt(c, s.disk, ws, ca, pt) && CAParsed(c, ca)
    requires Run(c, s, es) ==
             Midway(s, ws, pt.kr, if c.caPath != "" then AtReadCA(stats, pair) else AtSwap(stats, pair, None))
    requires DiskEvents(es) == ws[..pt.kr]
    ensures Run(c, s, es') == Midway(s, ws, pt.zr, AtSwap(stats, pair, ca)) && DiskEvents(es') == ws[..pt.zr]
  {
    if c.caPath != "" {
      AheadOne(c, UNLOADED, DiskAfter(s.disk, ws[..pt.zr]), AtReadCA(stats, pair));
      es' := GoOn(c, s, ws, es, pt.kr, pt.zr, 1, AtReadCA(stats, pair));
    } else {
      es' := GoOn(c, s, ws, es, pt.kr, pt.zr, 0, AtSwap(stats, pair, None));
    }
  }

  // The swap, and the rest of the writes.
  lemma SwapsLast(c: Config, s: System, ws: seq<Event>, es: seq<Event>, l: Load, a: nat, k: nat)
    returns (es': seq<Event>)
    requires OnlyDiskEvents(ws) && a <= k <= |ws| && l.AtSwap?
    requires Run(c, s, es) == Midway(s, ws, a, l) && DiskEvents(es) == ws[..a]
    ensures DiskEvents(es') == ws[..k] && Run(c, s, es').disk == DiskAfter(s.disk, ws[..k])
    ensures Run(c, s, es').r == NextReloader(c, UNLOADED, l)
  {
    var swap, rest := [Advance(0)], ws[a..k];
    var u := Apply(c, Midway(s, ws, a, l), Advance(0));
    OneEvent(c, Midway(s, ws, a, l), Advance(0));
    RunConcat(c, s, es, swap);
    RunWriter(c, u, rest);
    RunConcat(c, s, es + swap, rest);
    assert ws[..k] == ws[..a] + rest;
    DiskAfterConcat(s.disk, ws[..a], rest);
    DiskEventsAround(es, swap, rest);
    es' := es + swap + rest;
  }

  lemma DiskEventsAround(a: seq<Event>, loads: seq<Event>, ws: seq<Event>)
    requires Quiet(loads) && OnlyDiskEvents(ws)
    ensures DiskEvents(a + loads + ws) == DiskEvents(a) + ws
  {
    DiskEventsOfLoads(loads);
    DiskEventsOfWriter(ws);
    DiskEventsConcat(a, loads);
    DiskEventsConcat(a + loads, ws);
  }

  // Any points will do: beside any writer there is a run in which one load sees and reads at exactly these points,
  // if what it sees is a change and what it reads parses.
  lemma LoadsAt(c: Config, s: System, ws: seq<Event>, l: Load, pt: Points, k: nat) returns (es: seq<Event>)
    requires Start(s) && OnlyDiskEvents(ws) && k <= |ws| && Ordered(pt, k)
    requires l.AtSwap? && LoadAt(c, s.disk, ws, l, pt) && LoadParsed(c, l)
    requires IsChange(c, UNLOADED, l.stats) && (c.caPath == "" ==> l.stats.ca == ZERO_TIME)
    ensures DiskEvents(es) == ws[..k] && Run(c, s, es).disk == DiskAfter(s.disk, ws[..k])
    ensures Run(c, s, es).r == NextReloader(c, UNLOADED, l)
  {
    es := Sees(c, s, ws, l.stats, pt);
    es := ReadsUp(c, s, ws, es, l.stats, l.pair, l.ca, pt);
    es := SwapsLast(c, s, ws, es, l, pt.zr, k);
  }

  // ----- exactly -----

  // The load that has losing points, just before its swap.
  function LosingLoad(c: Config, disk: Disk, ws: seq<Event>, pt: Points, k: nat): Load
    requires LosesAt(c, disk, ws, pt, k)
  {
    var cert, key := FileAt(disk, ws, c.certPath, pt.cs).value, FileAt(disk, ws, c.keyPath, pt.ks).value;
    AtSwap(Stats(cert.mtime, key.mtime,
                 if c.caPath != "" then FileAt(disk, ws, c.caPath, pt.zs).value.mtime else ZERO_TIME),
           KeyPair(FileAt(disk, ws, c.certPath, pt.cr).value.content, FileAt(disk, ws, c.keyPath, pt.kr).value.content),
           if c.caPath != "" then Some(FileAt(disk, ws, c.caPath, pt.zr).value.content) else None)
  }

  lemma LosingLoadLoses(c: Config, s: System, ws: seq<Event>, pt: Points, k: nat, u: System)
    requires LosesAt(c, s.disk, ws, pt, k)
    requires u.disk == DiskAfter(s.disk, ws[..k])
    requires u.r == NextReloader(c, UNLOADED, LosingLoad(c, s.disk, ws, pt, k))
    ensures UpdateLost(c, u) && LoadOnce(c, u.r, u.disk) == (u.r, Unchanged)
  {
  }

  // Losing points lose: there is a run with these writes and one load after which contents are served that are not
  // on disk, under the times that are, and every later load on that disk skips.
  lemma LosingPointsLose(c: Config, s: System, ws: seq<Event>, pt: Points, k: nat) returns (es: seq<Event>)
    requires Start(s) && OnlyDiskEvents(ws) && LosesAt(c, s.disk, ws, pt, k)
    requires IsChange(c, UNLOADED, LosingLoad(c, s.disk, ws, pt, k).stats)
    ensures DiskEvents(es) == ws[..k] && Run(c, s, es).disk == DiskAfter(s.disk, ws[..k])
    ensures Run(c, s, es).r == NextReloader(c, UNLOADED, LosingLoad(c, s.disk, ws, pt, k))
    ensures UpdateLost(c, Run(c, s, es))
    ensures LoadOnce(c, Run(c, s, es).r, Run(c, s, es).disk) == (Run(c, s, es).r, Unchanged)
  {
    es := LoadsAt(c, s, ws, LosingLoad(c, s.disk, ws, pt, k), pt, k);
    LosingLoadLoses(c, s, ws, pt, k, Run(c, s, es));
  }

  ghost predicate NeverZero(disk: Disk, ws: seq<Event>, path: string) {
    !HadTime(disk, ws, path, ZERO_TIME)
  }

  // Some file never carries Go's zero time.
  ghost predicate SomeTimeIsSet(c: Config, disk: Disk, ws: seq<Event>) {
    || NeverZero(disk, ws, c.certPath)
    || NeverZero(disk, ws, c.keyPath)
    || (c.caPath != "" && NeverZero(disk, ws, c.caPath))
  }

  ghost predicate CanLose(c: Config, disk: Disk, ws: seq<Event>) {
    exists pt, k :: LosesAt(c, disk, ws, pt, k)
  }

  // For every writer and every configuration: some run with its writes, among any loads, loses an update if and only
  // if the writes have losing points.
  lemma LossIff(c: Config, s: System, ws: seq<Event>)
    requires Start(s) && OnlyDiskEvents(ws) && SomeTimeIsSet(c, s.disk, ws)
    ensures (exists es :: DiskEvents(es) <= ws && UpdateLost(c, Run(c, s, es))) <==> CanLose(c, s.disk, ws)
  {
    if es :| DiskEvents(es) <= ws && UpdateLost(c, Run(c, s, es)) {
      var pt := LostHasPoints(c, s, es);
      LosesAtWrites(c, s.disk, ws, es, pt);
    }
    if pt, k :| LosesAt(c, s.disk, ws, pt, k) {
      SeenTimeIsSet(c, s.disk, ws, pt, k);
      var es := LosingPointsLose(c, s, ws, pt, k);
      assert DiskEvents(es) <= ws;
    }
  }

  lemma SeenTimeIsSet(c: Config, disk: Disk, ws: seq<Event>, pt: Points, k: nat)
    requires LosesAt(c, disk, ws, pt, k) && SomeTimeIsSet(c, disk, ws)
    ensures IsChange(c, UNLOADED, LosingLoad(c, disk, ws, pt, k).stats)
  {
    var stats := LosingLoad(c, disk, ws, pt, k).stats;
    assert HadTime(disk, ws, c.certPath, stats.cert);
    assert HadTime(disk, ws, c.keyPath, stats.key);
    assert c.caPath != "" ==> HadTime(disk, ws, c.caPath, stats.ca);
  }

  // The simple condition rules losing points out.
  lemma SteadyWritersCannotLose(c: Config, disk: Disk, ws: seq<Event>)
    requires SteadyWriter(c, disk, ws)
    ensures !CanLose(c, disk, ws)
  {
    forall pt: Points, k: nat
      ensures !LosesAt(c, disk, ws, pt, k)
    {
      if k <= |ws| && Ordered(pt, k) {
        SteadyFileReturns(disk, ws, c.certPath, pt.cs, pt.cr, k);
        SteadyFileReturns(disk, ws, c.keyPath, pt.ks, pt.kr, k);
        if c.caPath != "" {
          SteadyFileReturns(disk, ws, c.caPath, pt.zs, pt.zr, k);
        }
      }
    }
  }

  lemma SteadyFileReturns(disk: Disk, ws: seq<Event>, path: string, i: nat, j: nat, k: nat)
    requires NeverMisleads(disk, ws, path) && i <= j <= k <= |ws|
    ensures TimeReturns(disk, ws, path, i, k) ==> !ContentDiffers(disk, ws, path, j, k)
  {
    assert !Misleads(disk, ws, path, i, j, k);
  }

  // ----- two writers -----

  // Restoring an old version together with its old time is not safe. The disk holds A with time 1; a load sees the
  // time; B is written with time 2; the load reads B; A is restored with time 1; the load swaps. Now B is served
  // with time 1, and every later load finds nothing to do. No time was ever given to two contents.
  lemma RestoredVersionIsLost(c: Config, a: Bytes, b: Bytes, key: Bytes) returns (es: seq<Event>)
    requires c.caPath == "" && c.certPath != c.keyPath && a != b && c.pairParses(b, key)
    ensures var s, ws := FirstDisk(c, a, key), Restoring(c, a, b);
            var u := Run(c, s, es);
            && Start(s) && DiskEvents(es) == ws && u.disk == s.disk
            && u.r.cert == Some(KeyPair(b, key)) && u.r.certMod == 1
            && UpdateLost(c, u) && LoadOnce(c, u.r, u.disk) == (u.r, Unchanged)
  {
    var s, ws, pt := FirstDisk(c, a, key), Restoring(c, a, b), Points(0, 0, 0, 1, 1, 1);
    RestoringHistory(c, a, b, key);
    es := LosingPointsLose(c, s, ws, pt, 2);
    assert ws[..2] == ws;
  }

  function Restoring(c: Config, a: Bytes, b: Bytes): seq<Event> {
    [Write(c.certPath, b, 2), Write(c.certPath, a, 1)]
  }

  lemma RestoringHistory(c: Config, a: Bytes, b: Bytes, key: Bytes)
    requires c.certPath != c.keyPath
    ensures var disk, ws := FirstDisk(c, a, key).disk, Restoring(c, a, b);
            && DiskAfter(disk, ws[..0]) == disk && DiskAfter(disk, ws[..2]) == disk
            && DiskAfter(disk, ws[..1]) == disk[c.certPath := File(b, 2)]
  {
    var ws := Restoring(c, a, b);
    assert ws[..0] == [] && ws[..1] == [ws[0]] && ws[..2] == ws;
    assert [ws[0]][..0] == [] && ws[..|ws| - 1] == [ws[0]];
  }

  // The same writes lose nothing if B does not fit the key: such a history misleads, and yet has no losing points.
  lemma UnfitVersionIsNotLost(c: Config, a: Bytes, b: Bytes, key: Bytes)
    requires c.caPath == "" && c.certPath != c.keyPath && a != b && !c.pairParses(b, key)
    ensures var disk, ws := FirstDisk(c, a, key).disk, Restoring(c, a, b);
            !NeverMisleads(disk, ws, c.certPath) && !CanLose(c, disk, ws)
  {
    var disk, ws := FirstDisk(c, a, key).disk, Restoring(c, a, b);
    RestoringHistory(c, a, b, key);
    assert Misleads(disk, ws, c.certPath, 0, 1, 2);
    forall pt: Points, k: nat
      ensures !LosesAt(c, disk, ws, pt, k)
    {
    }
  }
}
