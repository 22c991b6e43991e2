/** The certificate reloader under concurrency: any number of load() runs, each a sequence of atomic steps with
    its own local variables, interleaved with a writer that replaces and deletes the files underneath. */
module TlsReload {
  import opened Options

  type Bytes = string

  // Modification times are counted from Go's zero time, which is what the tracked times start as.
  const ZERO_TIME: int := 0

  // The paths, and the two parsers: they succeed or fail, nothing else about them matters here.
  datatype Config = Config(
    certPath: string,
    keyPath: string,
    caPath: string,
    pairParses: (Bytes, Bytes) -> bool,
    caParses: Bytes -> bool)

  datatype File = File(content: Bytes, mtime: int)
  type Disk = map<string, File>

  datatype KeyPair = KeyPair(cert: Bytes, key: Bytes)

  datatype Reloader = Reloader(
    cert: Option<KeyPair>,
    clientCAPool: Option<Bytes>,
    hasCA: bool,
    certMod: int,
    keyMod: int,
    caMod: int)

  const UNLOADED := Reloader(None, None, false, ZERO_TIME, ZERO_TIME, ZERO_TIME)

  datatype LoadError = StatCert | StatKey | StatCA | LoadPair | ReadCA | ParseCA
  datatype Result = Unchanged | Reloaded | Failed(error: LoadError)

  // The times a load has seen; `ca` has no meaning without a CA path.
  datatype Stats = Stats(cert: int, key: int, ca: int)

  // The program counter of one load() and its local variables.
  datatype Load =
    | AtStatCert
    | AtStatKey(c: int)
    | AtCompareCert(c: int, k: int)
    | AtCompareKey(c: int, k: int, changed: bool)
    | AtStatCA(c: int, k: int, changed: bool)
    | AtCompareCA(stats: Stats, changed: bool)
    | AtReadCert(stats: Stats)
    | AtReadKey(stats: Stats, certData: Bytes)
    | AtReadCA(stats: Stats, pair: KeyPair)
    | AtSwap(stats: Stats, pair: KeyPair, ca: Option<Bytes>)
    | Done(result: Result)

  function Decide(stats: Stats, changed: bool): Load {
    if changed then AtReadCert(stats) else Done(Unchanged)
  }

  // One step of a load: it looks at the reloader's fields and at the disk only through this.
  function NextLoad(c: Config, r: Reloader, disk: Disk, l: Load): Load {
    match l
    case AtStatCert =>
      if c.certPath in disk then AtStatKey(disk[c.certPath].mtime) else Done(Failed(StatCert))
    case AtStatKey(cm) =>
      if c.keyPath in disk then AtCompareCert(cm, disk[c.keyPath].mtime) else Done(Failed(StatKey))
    case AtCompareCert(cm, km) =>
      AtCompareKey(cm, km, cm != r.certMod)
    case AtCompareKey(cm, km, changed) =>
      var changed' := changed || km != r.keyMod;
      if c.caPath != "" then AtStatCA(cm, km, changed') else Decide(Stats(cm, km, ZERO_TIME), changed')
    case AtStatCA(cm, km, changed) =>
      if c.caPath in disk then AtCompareCA(Stats(cm, km, disk[c.caPath].mtime), changed) else Done(Failed(StatCA))
    case AtCompareCA(stats, changed) =>
      Decide(stats, changed || stats.ca != r.caMod)
    case AtReadCert(stats) =>
      if c.certPath in disk then AtReadKey(stats, disk[c.certPath].content) else Done(Failed(LoadPair))
    case AtReadKey(stats, certData) =>
      if c.keyPath !in disk || !c.pairParses(certData, disk[c.keyPath].content) then Done(Failed(LoadPair))
      else
        var pair := KeyPair(certData, disk[c.keyPath].content);
        if c.caPath != "" then AtReadCA(stats, pair) else AtSwap(stats, pair, None)
    case AtReadCA(stats, pair) =>
      if c.caPath !in disk then Done(Failed(ReadCA))
      else if !c.caParses(disk[c.caPath].content) then Done(Failed(ParseCA))
      else AtSwap(stats, pair, Some(disk[c.caPath].content))
    case AtSwap(_, _, _) => Done(Reloaded)
    case Done(_) => l
  }

  // Only the swap changes the reloader, all fields at once under the write lock.
  function NextReloader(c: Config, r: Reloader, l: Load): Reloader {
    if l.AtSwap?
    then Reloader(Some(l.pair), l.ca, c.caPath != "",
                  l.stats.cert, l.stats.key, if c.caPath != "" then l.stats.ca else r.caMod)
    else r
  }

  // The error a failing stat or read would report at this point; None where no file is touched.
  function ErrorAt(l: Load): Option<LoadError> {
    match l
    case AtStatCert => Some(StatCert)
    case AtStatKey(_) => Some(StatKey)
    case AtStatCA(_, _, _) => Some(StatCA)
    case AtReadCert(_) => Some(LoadPair)
    case AtReadKey(_, _) => Some(LoadPair)
    case AtReadCA(_, _) => Some(ReadCA)
    case _ => None
  }

  datatype System = System(r: Reloader, disk: Disk, loads: map<nat, Load>)

  datatype Event =
    | Begin(p: nat)
    | Advance(p: nat)
    | IOError(p: nat)
    | Write(path: string, content: Bytes, mtime: int)
    | Delete(path: string)

  function Apply(c: Config, s: System, e: Event): System {
    match e
    case Begin(p) =>
      if p in s.loads then s else s.(loads := s.loads[p := AtStatCert])
    case Advance(p) =>
      if p !in s.loads then s
      else s.(r := NextReloader(c, s.r, s.loads[p]), loads := s.loads[p := NextLoad(c, s.r, s.disk, s.loads[p])])
    case IOError(p) =>
      if p !in s.loads || ErrorAt(s.loads[p]).None? then s
      else s.(loads := s.loads[p := Done(Failed(ErrorAt(s.loads[p]).value))])
    case Write(path, content, mtime) =>
      s.(disk := s.disk[path := File(content, mtime)])
    case Delete(path) =>
      s.(disk := s.disk - {path})
  }

  function Run(c: Config, s: System, es: seq<Event>): System {
    if es == [] then s else Apply(c, Run(c, s, es[..|es| - 1]), es[|es| - 1])
  }

  // A failing file access ends the load with the error of that access, and touches nothing else.
  lemma IOErrorEnds(c: Config, s: System, p: nat)
    requires p in s.loads
    ensures var l, t := s.loads[p], Apply(c, s, IOError(p));
            && t.r == s.r && t.disk == s.disk && t.loads.Keys == s.loads.Keys
            && (forall q | q in s.loads && q != p :: t.loads[q] == s.loads[q])
            && (l.AtStatCert? ==> t.loads[p] == Done(Failed(StatCert)))
            && (l.AtStatKey? ==> t.loads[p] == Done(Failed(StatKey)))
            && (l.AtStatCA? ==> t.loads[p] == Done(Failed(StatCA)))
            && (l.AtReadCert? || l.AtReadKey? ==> t.loads[p] == Done(Failed(LoadPair)))
            && (l.AtReadCA? ==> t.loads[p] == Done(Failed(ReadCA)))
            && (l.AtCompareCert? || l.AtCompareKey? || l.AtCompareCA? || l.AtSwap? || l.Done? ==> t == s)
  {
  }

  // ----- the assumption on the writer -----

  // A write can be told from contents `content` seen together with time `m`: it carries another time, or brings
  // those contents.
  predicate Distinguishable(e: Event, path: string, m: int, content: Bytes) {
    e.Write? && e.path == path && e.mtime == m ==> e.content == content
  }

  predicate PairDistinguishable(c: Config, e: Event, stats: Stats, pair: KeyPair) {
    Distinguishable(e, c.certPath, stats.cert, pair.cert) && Distinguishable(e, c.keyPath, stats.key, pair.key)
  }

  predicate CADistinguishable(c: Config, e: Event, m: int, ca: Option<Bytes>) {
    c.caPath != "" && ca.Some? ==> Distinguishable(e, c.caPath, m, ca.value)
  }

  // From what a load in flight holds: times it has seen, and contents that it has read since.
  predicate HarmlessTo(c: Config, e: Event, l: Load) {
    match l
    case AtReadKey(stats, certData) => Distinguishable(e, c.certPath, stats.cert, certData)
    case AtReadCA(stats, pair) => PairDistinguishable(c, e, stats, pair)
    case AtSwap(stats, pair, ca) => PairDistinguishable(c, e, stats, pair) && CADistinguishable(c, e, stats.ca, ca)
    case _ => true
  }

  // From what is being served, with the recorded times.
  predicate HarmlessToServed(c: Config, e: Event, r: Reloader) {
    r.cert.Some? ==>
      && PairDistinguishable(c, e, StatsOf(r), r.cert.value)
      && CADistinguishable(c, e, r.caMod, r.clientCAPool)
  }

  // No write gives a time that is recorded, or that a load in flight has seen, to contents other than those held
  // with it. Time and contents held together need not be one version: the file may change between the stat and
  // the read. TlsWriters says which writers keep to this, whatever loads run.
  ghost predicate Harmless(c: Config, s: System, e: Event) {
    HarmlessToServed(c, e, s.r) && forall p | p in s.loads :: HarmlessTo(c, e, s.loads[p])
  }

  ghost predicate HarmlessRun(c: Config, s: System, es: seq<Event>) {
    es == [] ||
    (HarmlessRun(c, s, es[..|es| - 1]) && Harmless(c, Run(c, s, es[..|es| - 1]), es[|es| - 1]))
  }

  // ----- the invariant -----

  function StatsOf(r: Reloader): Stats {
    Stats(r.certMod, r.keyMod, r.caMod)
  }

  // `data` was read from `path` after its time was seen to be `m`: if the time is still `m`, the data is current.
  predicate Tracks(disk: Disk, path: string, m: int, data: Bytes) {
    path in disk && disk[path].mtime == m ==> disk[path].content == data
  }

  predicate PairTracks(c: Config, disk: Disk, stats: Stats, pair: KeyPair) {
    Tracks(disk, c.certPath, stats.cert, pair.cert) && Tracks(disk, c.keyPath, stats.key, pair.key)
  }

  predicate CATracks(c: Config, disk: Disk, m: int, ca: Option<Bytes>) {
    c.caPath != "" && ca.Some? ==> Tracks(disk, c.caPath, m, ca.value)
  }

  predicate LoadTracks(c: Config, disk: Disk, l: Load) {
    match l
    case AtReadKey(stats, certData) => Tracks(disk, c.certPath, stats.cert, certData)
    case AtReadCA(stats, pair) => PairTracks(c, disk, stats, pair)
    case AtSwap(stats, pair, ca) => PairTracks(c, disk, stats, pair) && CATracks(c, disk, stats.ca, ca)
    case _ => true
  }

  predicate ReloaderTracks(c: Config, disk: Disk, r: Reloader) {
    r.cert.Some? ==> PairTracks(c, disk, StatsOf(r), r.cert.value) && CATracks(c, disk, r.caMod, r.clientCAPool)
  }

  ghost predicate Tracking(c: Config, s: System) {
    ReloaderTracks(c, s.disk, s.r) && forall p | p in s.loads :: LoadTracks(c, s.disk, s.loads[p])
  }

  // What has been read parsed, and a CA was read exactly when one is configured. No assumption on the writer.
  predicate LoadParsed(c: Config, l: Load) {
    match l
    case AtStatCA(_, _, _) => c.caPath != ""
    case AtCompareCA(_, _) => c.caPath != ""
    case AtReadCA(_, pair) => c.caPath != "" && c.pairParses(pair.cert, pair.key)
    case AtSwap(_, pair, ca) => c.pairParses(pair.cert, pair.key) && CAParsed(c, ca)
    case _ => true
  }

  predicate CAParsed(c: Config, ca: Option<Bytes>) {
    (c.caPath != "" <==> ca.Some?) && (ca.Some? ==> c.caParses(ca.value))
  }

  predicate ReloaderParsed(c: Config, r: Reloader) {
    if r.cert.None? then r == UNLOADED
    else
      && c.pairParses(r.cert.value.cert, r.cert.value.key)
      && CAParsed(c, r.clientCAPool) && (r.hasCA <==> c.caPath != "")
  }

  ghost predicate Parsed(c: Config, s: System) {
    ReloaderParsed(c, s.r) && forall p | p in s.loads :: LoadParsed(c, s.loads[p])
  }

  // ----- every step keeps it -----

  // A change of the disk keeps `data` current if found current exactly when the change can be told from it.
  lemma DiskMoveIff(s: System, e: Event, path: string, m: int, data: Bytes)
    requires e.Write? || e.Delete?
    requires Tracks(s.disk, path, m, data)
    ensures var disk := if e.Write? then s.disk[e.path := File(e.content, e.mtime)] else s.disk - {e.path};
            Tracks(disk, path, m, data) <==> Distinguishable(e, path, m, data)
  {
  }

  lemma PairMoveIff(c: Config, s: System, e: Event, stats: Stats, pair: KeyPair)
    requires e.Write? || e.Delete?
    requires PairTracks(c, s.disk, stats, pair)
    ensures PairTracks(c, Apply(c, s, e).disk, stats, pair) <==> PairDistinguishable(c, e, stats, pair)
  {
    DiskMoveIff(s, e, c.certPath, stats.cert, pair.cert);
    DiskMoveIff(s, e, c.keyPath, stats.key, pair.key);
  }

  lemma LoadMoveIff(c: Config, s: System, e: Event, l: Load)
    requires e.Write? || e.Delete?
    requires LoadTracks(c, s.disk, l)
    ensures LoadTracks(c, Apply(c, s, e).disk, l) <==> HarmlessTo(c, e, l)
  {
    match l
    case AtReadKey(stats, certData) =>
      DiskMoveIff(s, e, c.certPath, stats.cert, certData);
    case AtReadCA(stats, pair) =>
      PairMoveIff(c, s, e, stats, pair);
    case AtSwap(stats, pair, ca) =>
      PairMoveIff(c, s, e, stats, pair);
      if c.caPath != "" && ca.Some? {
        DiskMoveIff(s, e, c.caPath, stats.ca, ca.value);
      }
    case _ =>
  }

  lemma ServedMoveIff(c: Config, s: System, e: Event)
    requires e.Write? || e.Delete?
    requires ReloaderTracks(c, s.disk, s.r)
    ensures ReloaderTracks(c, Apply(c, s, e).disk, s.r) <==> HarmlessToServed(c, e, s.r)
  {
    if s.r.cert.Some? {
      PairMoveIff(c, s, e, StatsOf(s.r), s.r.cert.value);
      if c.caPath != "" && s.r.clientCAPool.Some? {
        DiskMoveIff(s, e, c.caPath, s.r.caMod, s.r.clientCAPool.value);
      }
    }
  }

  // The condition is exact for one step: a write keeps the invariant if and only if it is harmless.
  lemma DiskStepIff(c: Config, s: System, e: Event)
    requires Tracking(c, s) && (e.Write? || e.Delete?)
    ensures Tracking(c, Apply(c, s, e)) <==> Harmless(c, s, e)
  {
    var t := Apply(c, s, e);
    ServedMoveIff(c, s, e);
    forall p | p in s.loads
      ensures LoadTracks(c, t.disk, t.loads[p]) <==> HarmlessTo(c, e, s.loads[p])
    {
      LoadMoveIff(c, s, e, s.loads[p]);
    }
  }

  // Stat before read: what a load reads is current whenever the time it saw before still holds.
  lemma AdvanceOne(c: Config, r: Reloader, disk: Disk, l: Load)
    requires LoadTracks(c, disk, l)
    ensures LoadTracks(c, disk, NextLoad(c, r, disk, l))
    ensures l.AtSwap? ==> ReloaderTracks(c, disk, NextReloader(c, r, l))
  {
  }

  lemma LoadStep(c: Config, s: System, e: Event)
    requires Tracking(c, s) && !e.Write? && !e.Delete?
    ensures Tracking(c, Apply(c, s, e))
  {
    if e.Advance? && e.p in s.loads {
      AdvanceOne(c, s.r, s.disk, s.loads[e.p]);
    }
  }

  lemma {:induction false} TrackingAlways(c: Config, s: System, es: seq<Event>)
    requires Tracking(c, s) && HarmlessRun(c, s, es)
    ensures Tracking(c, Run(c, s, es))
  {
    if es == [] {
    } else {
      var es', e := es[..|es| - 1], es[|es| - 1];
      TrackingAlways(c, s, es');
      if e.Write? || e.Delete? {
        DiskStepIff(c, Run(c, s, es'), e);
      } else {
        LoadStep(c, Run(c, s, es'), e);
      }
    }
  }

  lemma ParsedStep(c: Config, s: System, e: Event)
    requires Parsed(c, s)
    ensures Parsed(c, Apply(c, s, e))
  {
  }

  lemma {:induction false} ParsedAlways(c: Config, s: System, es: seq<Event>)
    requires Parsed(c, s)
    ensures Parsed(c, Run(c, s, es))
  {
    if es == [] {
    } else {
      ParsedAlways(c, s, es[..|es| - 1]);
      ParsedStep(c, Run(c, s, es[..|es| - 1]), es[|es| - 1]);
    }
  }

  // ----- no lost update -----

  // Every recorded time is the file's present one.
  predicate Current(c: Config, r: Reloader, disk: Disk) {
    && c.certPath in disk && disk[c.certPath].mtime == r.certMod
    && c.keyPath in disk && disk[c.keyPath].mtime == r.keyMod
    && (c.caPath != "" ==> c.caPath in disk && disk[c.caPath].mtime == r.caMod)
  }

  // What is served is what is on disk.
  predicate Synced(c: Config, r: Reloader, disk: Disk) {
    && c.certPath in disk && c.keyPath in disk
    && r.cert == Some(KeyPair(disk[c.certPath].content, disk[c.keyPath].content))
    && (r.hasCA <==> c.caPath != "")
    && (c.caPath != "" ==> c.caPath in disk && r.clientCAPool == Some(disk[c.caPath].content))
    && (c.caPath == "" ==> r.clientCAPool.None?)
  }

  // A control plane that starts on some disk: nothing loaded, no load running.
  predicate Start(s: System) {
    s.r == UNLOADED && s.loads == map[]
  }

  // Under any interleaving of loads and harmless writes: recorded times that match mean contents that match.
  lemma NoLostUpdate(c: Config, s: System, es: seq<Event>)
    requires Start(s) && HarmlessRun(c, s, es)
    ensures var t := Run(c, s, es);
            t.r.cert.Some? && Current(c, t.r, t.disk) ==> Synced(c, t.r, t.disk)
  {
    TrackingAlways(c, s, es);
    ParsedAlways(c, s, es);
  }

  // And each file by itself: a matching certificate time means the certificate served is the one on disk.
  lemma NoLostCertificate(c: Config, s: System, es: seq<Event>)
    requires Start(s) && HarmlessRun(c, s, es)
    ensures var t := Run(c, s, es);
            t.r.cert.Some? && c.certPath in t.disk && t.disk[c.certPath].mtime == t.r.certMod ==>
            t.r.cert.value.cert == t.disk[c.certPath].content
  {
    TrackingAlways(c, s, es);
  }

  // Whatever is written, what is served always parsed as a pair, and client certificates are asked for exactly
  // when a CA is configured.
  lemma ServedIsValid(c: Config, s: System, es: seq<Event>)
    requires Start(s)
    ensures var r := Run(c, s, es).r;
            r.cert.Some? ==>
              && c.pairParses(r.cert.value.cert, r.cert.value.key)
              && (r.hasCA <==> c.caPath != "") && (r.hasCA <==> r.clientCAPool.Some?)
              && (r.hasCA ==> c.caParses(r.clientCAPool.value))
  {
    ParsedAlways(c, s, es);
  }

  // ----- once writing stops -----

  predicate Quiet(es: seq<Event>) {
    forall i | 0 <= i < |es| :: !es[i].Write? && !es[i].Delete?
  }

  predicate NoLoadInFlight(s: System) {
    forall p | p in s.loads :: s.loads[p].Done?
  }

  predicate SeesCert(c: Config, disk: Disk, m: int) {
    c.certPath in disk && disk[c.certPath].mtime == m
  }

  predicate SeesKey(c: Config, disk: Disk, m: int) {
    c.keyPath in disk && disk[c.keyPath].mtime == m
  }

  predicate SeesCA(c: Config, disk: Disk, m: int) {
    c.caPath != "" ==> c.caPath in disk && disk[c.caPath].mtime == m
  }

  predicate SeesAll(c: Config, disk: Disk, stats: Stats) {
    SeesCert(c, disk, stats.cert) && SeesKey(c, disk, stats.key) && SeesCA(c, disk, stats.ca)
  }

  // A load that runs while the disk stands still: all it has seen is still true, and as long as it has found
  // no change, the recorded times it has compared are the present ones.
  predicate QuietLoad(c: Config, r: Reloader, disk: Disk, l: Load) {
    match l
    case AtStatCert => true
    case AtStatKey(cm) => SeesCert(c, disk, cm)
    case AtCompareCert(cm, km) => SeesCert(c, disk, cm) && SeesKey(c, disk, km)
    case AtCompareKey(cm, km, changed) =>
      SeesCert(c, disk, cm) && SeesKey(c, disk, km) && (!changed ==> SeesCert(c, disk, r.certMod))
    case AtStatCA(cm, km, changed) =>
      && c.caPath != "" && SeesCert(c, disk, cm) && SeesKey(c, disk, km)
      && (!changed ==> SeesCert(c, disk, r.certMod) && SeesKey(c, disk, r.keyMod))
    case AtCompareCA(stats, changed) =>
      && c.caPath != "" && SeesAll(c, disk, stats)
      && (!changed ==> SeesCert(c, disk, r.certMod) && SeesKey(c, disk, r.keyMod))
    case AtReadCert(stats) => SeesAll(c, disk, stats)
    case AtReadKey(stats, _) => SeesAll(c, disk, stats)
    case AtReadCA(stats, _) => SeesAll(c, disk, stats)
    case AtSwap(stats, _, _) => SeesAll(c, disk, stats)
    case Done(result) => !result.Failed? ==> Current(c, r, disk)
  }

  lemma QuietAdvance(c: Config, r: Reloader, disk: Disk, l: Load)
    requires QuietLoad(c, r, disk, l)
    ensures QuietLoad(c, NextReloader(c, r, l), disk, NextLoad(c, r, disk, l))
  {
  }

  // A swap made meanwhile by another load can only bring the recorded times up to date.
  lemma QuietOther(c: Config, r: Reloader, disk: Disk, swapping: Load, l: Load)
    requires QuietLoad(c, r, disk, swapping) && QuietLoad(c, r, disk, l)
    ensures QuietLoad(c, NextReloader(c, r, swapping), disk, l)
  {
  }

  // `ended` are the loads that had ended before the disk went quiet.
  ghost predicate QuietInv(c: Config, s: System, ended: set<nat>) {
    forall p | p in s.loads :: if p in ended then s.loads[p].Done? else QuietLoad(c, s.r, s.disk, s.loads[p])
  }

  lemma QuietStep(c: Config, s: System, ended: set<nat>, e: Event)
    requires QuietInv(c, s, ended) && !e.Write? && !e.Delete? && ended <= s.loads.Keys
    ensures QuietInv(c, Apply(c, s, e), ended) && ended <= Apply(c, s, e).loads.Keys
    ensures Apply(c, s, e).disk == s.disk
  {
    if e.Advance? && e.p in s.loads && e.p !in ended {
      QuietAdvance(c, s.r, s.disk, s.loads[e.p]);
      forall p | p in s.loads && p !in ended
        ensures QuietLoad(c, NextReloader(c, s.r, s.loads[e.p]), s.disk, s.loads[p])
      {
        QuietOther(c, s.r, s.disk, s.loads[e.p], s.loads[p]);
      }
    }
  }

  lemma {:induction false} QuietRun(c: Config, s: System, es: seq<Event>)
    requires Quiet(es) && NoLoadInFlight(s)
    ensures QuietInv(c, Run(c, s, es), s.loads.Keys) && s.loads.Keys <= Run(c, s, es).loads.Keys
    ensures Run(c, s, es).disk == s.disk && HarmlessRun(c, s, es)
  {
    if es == [] {
    } else {
      QuietRun(c, s, es[..|es| - 1]);
      QuietStep(c, Run(c, s, es[..|es| - 1]), s.loads.Keys, es[|es| - 1]);
    }
  }

  // Writes have stopped and no load is in flight. However the loads started afterwards interleave, when any
  // of them has returned without an error, exactly what is on disk is being served; or nothing has ever been
  // loaded, and all files carry Go's zero time.
  lemma QuietLoadsConverge(c: Config, s: System, es: seq<Event>, more: seq<Event>, p: nat)
    requires Start(s) && HarmlessRun(c, s, es)
    requires var t := Run(c, s, es);
             NoLoadInFlight(t) && p !in t.loads
    requires Quiet(more)
    requires var u := Run(c, Run(c, s, es), more);
             p in u.loads && u.loads[p].Done? && !u.loads[p].result.Failed?
    ensures var u := Run(c, Run(c, s, es), more);
            && u.disk == Run(c, s, es).disk
            && (Synced(c, u.r, u.disk) || (u.r == UNLOADED && Current(c, UNLOADED, u.disk)))
  {
    var t := Run(c, s, es);
    TrackingAlways(c, s, es);
    ParsedAlways(c, s, es);
    QuietRun(c, t, more);
    TrackingAlways(c, t, more);
    ParsedAlways(c, t, more);
  }

  // ----- a load that no other load interleaves with -----

  datatype Access = CertStat | KeyStat | CAStat | CertRead | KeyRead | CARead

  // The disk as each file access of one load finds it: files may change in between, and an access that fails is
  // one that does not find its file.
  type View = Access -> Disk

  function Still(disk: Disk): View {
    (a: Access) => disk
  }

  // load(): the branches of the code in order.
  function LoadSeen(c: Config, r: Reloader, view: View): (Reloader, Result) {
    if c.certPath !in view(CertStat) then (r, Failed(StatCert))
    else if c.keyPath !in view(KeyStat) then (r, Failed(StatKey))
    else if c.caPath != "" && c.caPath !in view(CAStat) then (r, Failed(StatCA))
    else
      var certTime, keyTime := view(CertStat)[c.certPath].mtime, view(KeyStat)[c.keyPath].mtime;
      var caTime := if c.caPath != "" then view(CAStat)[c.caPath].mtime else r.caMod;
      if certTime == r.certMod && keyTime == r.keyMod && caTime == r.caMod then (r, Unchanged)
      else
        var read := ReadFiles(c, view);
        if read.Failed? then (r, read)
        else
          (Reloader(Some(KeyPair(view(CertRead)[c.certPath].content, view(KeyRead)[c.keyPath].content)),
                    if c.caPath != "" then Some(view(CARead)[c.caPath].content) else None,
                    c.caPath != "", certTime, keyTime, caTime),
           Reloaded)
  }

  // The reading half, and how it fails.
  function ReadFiles(c: Config, view: View): (result: Result)
    ensures !result.Failed? ==>
              && c.certPath in view(CertRead) && c.keyPath in view(KeyRead)
              && (c.caPath != "" ==> c.caPath in view(CARead))
  {
    if c.certPath !in view(CertRead) || c.keyPath !in view(KeyRead) then Failed(LoadPair)
    else if !c.pairParses(view(CertRead)[c.certPath].content, view(KeyRead)[c.keyPath].content) then Failed(LoadPair)
    else if c.caPath != "" && c.caPath !in view(CARead) then Failed(ReadCA)
    else if c.caPath != "" && !c.caParses(view(CARead)[c.caPath].content) then Failed(ParseCA)
    else Reloaded
  }

  // How a load ends and what it leaves, error by error: in particular a missing or unparsable CA file at a path that
  // is not empty makes a load that has found a change fail, and after a reload the CA is the one that was read.
  lemma LoadIs(c: Config, r: Reloader, view: View)
    ensures var (r', result) := LoadSeen(c, r, view);
            var found := c.certPath in view(CertStat) && c.keyPath in view(KeyStat);
            var statted := found && (c.caPath != "" ==> c.caPath in view(CAStat));
            var changed := statted && (view(CertStat)[c.certPath].mtime != r.certMod
                                       || view(KeyStat)[c.keyPath].mtime != r.keyMod
                                       || (c.caPath != "" && view(CAStat)[c.caPath].mtime != r.caMod));
            var pair := changed && c.certPath in view(CertRead) && c.keyPath in view(KeyRead)
                        && c.pairParses(view(CertRead)[c.certPath].content, view(KeyRead)[c.keyPath].content);
            && (result == Failed(StatCert) <==> c.certPath !in view(CertStat))
            && (result == Failed(StatKey) <==> c.certPath in view(CertStat) && c.keyPath !in view(KeyStat))
            && (result == Failed(StatCA) <==> found && c.caPath != "" && c.caPath !in view(CAStat))
            && (result == Unchanged <==> statted && !changed)
            && (result == Failed(LoadPair) <==> changed && !pair)
            && (result == Failed(ReadCA) <==> pair && c.caPath != "" && c.caPath !in view(CARead))
            && (result == Failed(ParseCA) <==>
                && pair && c.caPath != "" && c.caPath in view(CARead)
                && !c.caParses(view(CARead)[c.caPath].content))
            && (!result.Reloaded? ==> r' == r)
            && (result.Reloaded? ==>
                  && r'.cert == Some(KeyPair(view(CertRead)[c.certPath].content, view(KeyRead)[c.keyPath].content))
                  && (r'.hasCA <==> c.caPath != "")
                  && r'.clientCAPool == (if c.caPath != "" then Some(view(CARead)[c.caPath].content) else None)
                  && r'.certMod == view(CertStat)[c.certPath].mtime
                  && r'.keyMod == view(KeyStat)[c.keyPath].mtime
                  && r'.caMod == if c.caPath != "" then view(CAStat)[c.caPath].mtime else r.caMod)
  {
  }

  // On a disk that stands still.
  function LoadOnce(c: Config, r: Reloader, disk: Disk): (Reloader, Result) {
    LoadSeen(c, r, Still(disk))
  }

  function StepsLeft(l: Load): nat {
    match l
    case AtStatCert => 10
    case AtStatKey(_) => 9
    case AtCompareCert(_, _) => 8
    case AtCompareKey(_, _, _) => 7
    case AtStatCA(_, _, _) => 6
    case AtCompareCA(_, _) => 5
    case AtReadCert(_) => 4
    case AtReadKey(_, _) => 3
    case AtReadCA(_, _) => 2
    case AtSwap(_, _, _) => 1
    case Done(_) => 0
  }

  // The disk that the next step looks at; the steps that touch no file do not care.
  function DiskAt(view: View, l: Load): Disk {
    match l
    case AtStatCert => view(CertStat)
    case AtStatKey(_) => view(KeyStat)
    case AtStatCA(_, _, _) => view(CAStat)
    case AtReadCert(_) => view(CertRead)
    case AtReadKey(_, _) => view(KeyRead)
    case AtReadCA(_, _) => view(CARead)
    case _ => map[]
  }

  // Steps of one load until it is done, with no other load in between.
  function Finish(c: Config, r: Reloader, view: View, l: Load): (Reloader, Result)
    decreases StepsLeft(l)
  {
    if l.Done? then (r, l.result)
    else
      var l' := NextLoad(c, r, DiskAt(view, l), l);
      Finish(c, NextReloader(c, r, l), view, l')
  }

  lemma FinishStep(c: Config, r: Reloader, view: View, l: Load)
    requires !l.Done? && !l.AtSwap?
    ensures Finish(c, r, view, l) == Finish(c, r, view, NextLoad(c, r, DiskAt(view, l), l))
  {
  }

  lemma FinishEnd(c: Config, r: Reloader, view: View, l: Load)
    ensures l.AtSwap? ==> Finish(c, r, view, l) == (NextReloader(c, r, l), Reloaded)
    ensures l.Done? ==> Finish(c, r, view, l) == (r, l.result)
  {
  }

  predicate SawFiles(c: Config, view: View, stats: Stats) {
    && SeesCert(c, view(CertStat), stats.cert)
    && SeesKey(c, view(KeyStat), stats.key)
    && SeesCA(c, view(CAStat), stats.ca)
  }

  predicate IsChange(c: Config, r: Reloader, stats: Stats) {
    stats.cert != r.certMod || stats.key != r.keyMod || (c.caPath != "" && stats.ca != r.caMod)
  }

  // The reading half of a load.
  lemma FinishReads(c: Config, r: Reloader, view: View, stats: Stats)
    requires SawFiles(c, view, stats) && IsChange(c, r, stats)
    ensures Finish(c, r, view, AtReadCert(stats)) == LoadSeen(c, r, view)
  {
    FinishStep(c, r, view, AtReadCert(stats));
    var l1 := NextLoad(c, r, view(CertRead), AtReadCert(stats));
    FinishEnd(c, r, view, l1);
    if l1.AtReadKey? {
      FinishStep(c, r, view, l1);
      var l2 := NextLoad(c, r, view(KeyRead), l1);
      FinishEnd(c, r, view, l2);
      if l2.AtReadCA? {
        FinishStep(c, r, view, l2);
        FinishEnd(c, r, view, NextLoad(c, r, view(CARead), l2));
      }
    }
  }

  lemma FinishDecision(c: Config, r: Reloader, view: View, stats: Stats)
    requires SawFiles(c, view, stats)
    ensures Finish(c, r, view, Decide(stats, IsChange(c, r, stats))) == LoadSeen(c, r, view)
  {
    if IsChange(c, r, stats) {
      FinishReads(c, r, view, stats);
    } else {
      FinishEnd(c, r, view, Done(Unchanged));
    }
  }

  // The comparing half, once the certificate and the key have been seen.
  lemma FinishComparing(c: Config, r: Reloader, view: View, cm: int, km: int)
    requires SeesCert(c, view(CertStat), cm) && SeesKey(c, view(KeyStat), km)
    ensures Finish(c, r, view, AtCompareCert(cm, km)) == LoadSeen(c, r, view)
  {
    FinishStep(c, r, view, AtCompareCert(cm, km));
    FinishStep(c, r, view, AtCompareKey(cm, km, cm != r.certMod));
    var changed := cm != r.certMod || km != r.keyMod;
    if c.caPath == "" {
      FinishDecision(c, r, view, Stats(cm, km, ZERO_TIME));
    } else {
      FinishStep(c, r, view, AtStatCA(cm, km, changed));
      if c.caPath in view(CAStat) {
        var stats := Stats(cm, km, view(CAStat)[c.caPath].mtime);
        FinishStep(c, r, view, AtCompareCA(stats, changed));
        FinishDecision(c, r, view, stats);
      } else {
        FinishEnd(c, r, view, Done(Failed(StatCA)));
      }
    }
  }

  // The step machine and the sequential load agree when no other load comes in between, whatever happens to the
  // files meanwhile.
  lemma AloneIsLoadSeen(c: Config, r: Reloader, view: View)
    ensures Finish(c, r, view, AtStatCert) == LoadSeen(c, r, view)
  {
    FinishStep(c, r, view, AtStatCert);
    if c.certPath !in view(CertStat) {
      FinishEnd(c, r, view, Done(Failed(StatCert)));
    } else {
      var cm := view(CertStat)[c.certPath].mtime;
      FinishStep(c, r, view, AtStatKey(cm));
      if c.keyPath !in view(KeyStat) {
        FinishEnd(c, r, view, Done(Failed(StatKey)));
      } else {
        FinishComparing(c, r, view, cm, view(KeyStat)[c.keyPath].mtime);
      }
    }
  }

  // All or nothing: a failing load changes no field, so the next load skips exactly on a disk that had been
  // loaded before the failure; the change that failed is tried again.
  lemma FailureIsRetried(c: Config, r: Reloader, view: View)
    requires LoadSeen(c, r, view).1.Failed?
    ensures LoadSeen(c, r, view).0 == r
    ensures forall disk :: LoadOnce(c, LoadSeen(c, r, view).0, disk).1 == Unchanged <==> Current(c, r, disk)
  {
  }

  // New: the first load of a fresh reloader. It succeeds without loading anything exactly when every file
  // carries Go's zero time; otherwise success means that the disk is served.
  lemma NewServesDiskUnlessZeroTimes(c: Config, disk: Disk)
    requires !LoadOnce(c, UNLOADED, disk).1.Failed?
    ensures var r := LoadOnce(c, UNLOADED, disk).0;
            && (r.cert.None? <==> Current(c, UNLOADED, disk))
            && (!Current(c, UNLOADED, disk) ==> Synced(c, r, disk) && Current(c, r, disk))
  {
  }

  // ----- when nothing is served -----

  function TimesSeen(l: Load): Stats {
    match l
    case AtStatKey(cm) => Stats(cm, ZERO_TIME, ZERO_TIME)
    case AtCompareCert(cm, km) => Stats(cm, km, ZERO_TIME)
    case AtCompareKey(cm, km, _) => Stats(cm, km, ZERO_TIME)
    case AtStatCA(cm, km, _) => Stats(cm, km, ZERO_TIME)
    case AtCompareCA(stats, _) => stats
    case AtReadCert(stats) => stats
    case AtReadKey(stats, _) => stats
    case AtReadCA(stats, _) => stats
    case AtSwap(stats, _, _) => stats
    case _ => Stats(ZERO_TIME, ZERO_TIME, ZERO_TIME)
  }

  predicate AllZero(stats: Stats) {
    stats == Stats(ZERO_TIME, ZERO_TIME, ZERO_TIME)
  }

  // As long as nothing has been loaded, a load that has found no change so far has compared zero times.
  predicate ZeroSoFar(l: Load) {
    match l
    case AtCompareKey(cm, _, changed) => !changed ==> cm == ZERO_TIME
    case AtStatCA(cm, km, changed) => !changed ==> cm == ZERO_TIME && km == ZERO_TIME
    case AtCompareCA(stats, changed) => !changed ==> stats.cert == ZERO_TIME && stats.key == ZERO_TIME
    case _ => true
  }

  ghost predicate Swapped(s: System) {
    exists p | p in s.loads :: s.loads[p] == Done(Reloaded)
  }

  ghost predicate NothingLoadedInv(s: System) {
    && (Swapped(s) <==> s.r.cert.Some?)
    && (s.r.cert.None? ==> s.r == UNLOADED && forall p | p in s.loads :: ZeroSoFar(s.loads[p]))
  }

  lemma NothingLoadedStep(c: Config, s: System, e: Event)
    requires NothingLoadedInv(s)
    ensures NothingLoadedInv(Apply(c, s, e))
  {
    var t := Apply(c, s, e);
    if Swapped(s) {
      var p :| p in s.loads && s.loads[p] == Done(Reloaded);
      assert t.loads[p] == Done(Reloaded);
    } else if e.Advance? && e.p in s.loads && s.loads[e.p].AtSwap? {
      assert t.loads[e.p] == Done(Reloaded);
    }
  }

  lemma {:induction false} NothingLoadedAlways(c: Config, s: System, es: seq<Event>)
    requires Start(s)
    ensures NothingLoadedInv(Run(c, s, es))
  {
    if es == [] {
    } else {
      NothingLoadedAlways(c, s, es[..|es| - 1]);
      NothingLoadedStep(c, Run(c, s, es[..|es| - 1]), es[|es| - 1]);
    }
  }

  lemma {:induction false} CertificateStays(c: Config, s: System, es: seq<Event>)
    requires s.r.cert.Some?
    ensures Run(c, s, es).r.cert.Some?
  {
    if es == [] {
    } else {
      CertificateStays(c, s, es[..|es| - 1]);
    }
  }

  // Under any writes and interleavings: a load that ends without an error leaves no certificate to serve exactly
  // when all the times it has seen are Go's zero time and no load has swapped yet. Otherwise there is one from then
  // on, whatever happens.
  lemma NothingServedIff(c: Config, s: System, es: seq<Event>, p: nat, more: seq<Event>)
    requires Start(s)
    requires var t := Run(c, s, es);
             && p in t.loads && !t.loads[p].Done?
             && NextLoad(c, t.r, t.disk, t.loads[p]).Done? && !NextLoad(c, t.r, t.disk, t.loads[p]).result.Failed?
    ensures var t := Run(c, s, es);
            var u := Apply(c, t, Advance(p));
            && (u.r.cert.None? <==> AllZero(TimesSeen(t.loads[p])) && !Swapped(u))
            && (u.r.cert.Some? ==> Run(c, u, more).r.cert.Some?)
  {
    var t := Run(c, s, es);
    NothingLoadedAlways(c, s, es);
    NothingLoadedStep(c, t, Advance(p));
    if Apply(c, t, Advance(p)).r.cert.Some? {
      CertificateStays(c, Apply(c, t, Advance(p)), more);
    }
  }

  // ----- what a harmful write does -----

  // The time recorded for a path being served.
  function RecordedTime(c: Config, r: Reloader, path: string): int {
    if path == c.certPath then r.certMod else if path == c.keyPath then r.keyMod else r.caMod
  }

  predicate IsServed(c: Config, path: string) {
    path == c.certPath || path == c.keyPath || (c.caPath != "" && path == c.caPath)
  }

  // In a settled state: after a write to a served path the next load skips exactly when the write carries the
  // recorded time, and the write is lost exactly when it brings other contents with that time.
  lemma WriteIsNoticedIff(c: Config, s: System, path: string, content: Bytes, mtime: int)
    requires Tracking(c, s) && Parsed(c, s) && s.r.cert.Some? && Current(c, s.r, s.disk)
    requires IsServed(c, path)
    ensures var t := Apply(c, s, Write(path, content, mtime));
            var skips := LoadOnce(c, t.r, t.disk) == (t.r, Unchanged);
            && (skips <==> mtime == RecordedTime(c, s.r, path))
            && (skips && !Synced(c, t.r, t.disk) <==>
                mtime == RecordedTime(c, s.r, path) && content != s.disk[path].content)
  {
  }

  function SeenBy(l: Load): Stats {
    match l
    case AtReadKey(stats, _) => stats
    case AtReadCA(stats, _) => stats
    case AtSwap(stats, _, _) => stats
    case _ => Stats(ZERO_TIME, ZERO_TIME, ZERO_TIME)
  }

  // The other half of the condition: a write after which the times that a load in flight has seen are the present
  // ones, but the contents it has read are not, is lost if that load succeeds: no further load will look.
  lemma HeldContentsHideWrite(c: Config, r: Reloader, disk: Disk, l: Load, e: Event)
    requires e.Write? && LoadParsed(c, l) && !HarmlessTo(c, e, l)
    requires SeesAll(c, disk[e.path := File(e.content, e.mtime)], SeenBy(l))
    ensures var disk' := disk[e.path := File(e.content, e.mtime)];
            var (r', result) := Finish(c, r, Still(disk'), l);
            result.Failed? ||
            (Current(c, r', disk') && !Synced(c, r', disk') && LoadOnce(c, r', disk') == (r', Unchanged))
  {
    var disk' := disk[e.path := File(e.content, e.mtime)];
    match l
    case AtReadKey(stats, certData) =>
      FinishStep(c, r, Still(disk'), l);
      FinishRest(c, r, Still(disk'), NextLoad(c, r, disk', l));
    case _ => FinishRest(c, r, Still(disk'), l);
  }

  // From AtReadCA on there is at most one more read.
  lemma FinishRest(c: Config, r: Reloader, view: View, l: Load)
    requires l.AtReadCA? || l.AtSwap? || l.Done?
    ensures var (r', result) := Finish(c, r, view, l);
            result.Failed? || l.Done? ||
            (&& r'.cert == Some(l.pair) && r'.certMod == l.stats.cert && r'.keyMod == l.stats.key
             && (c.caPath != "" ==> r'.caMod == l.stats.ca) && (l.AtSwap? ==> r'.clientCAPool == l.ca))
  {
    if l.AtReadCA? {
      FinishStep(c, r, view, l);
      FinishEnd(c, r, view, NextLoad(c, r, DiskAt(view, l), l));
    } else {
      FinishEnd(c, r, view, l);
    }
  }

  // ----- a load that comes late -----

  // A load in flight may have read versions that are no longer there. Its swap serves them all the same, and the
  // next load skips exactly when they are still there, in which case what is served is what is on disk.
  lemma LateSwap(c: Config, s: System, es: seq<Event>, p: nat)
    requires Start(s) && HarmlessRun(c, s, es)
    requires p in Run(c, s, es).loads && Run(c, s, es).loads[p].AtSwap?
    ensures var t := Run(c, s, es);
            var u := Apply(c, t, Advance(p));
            && u.r.cert == Some(t.loads[p].pair)
            && (LoadOnce(c, u.r, u.disk).1 == Unchanged <==> SeesAll(c, t.disk, t.loads[p].stats))
            && (SeesAll(c, t.disk, t.loads[p].stats) ==> Synced(c, u.r, u.disk))
  {
    TrackingAlways(c, s, es);
    ParsedAlways(c, s, es);
  }

  lemma {:induction false} RunConcat(c: Config, s: System, a: seq<Event>, b: seq<Event>)
    ensures Run(c, s, a + b) == Run(c, Run(c, s, a), b)
    ensures HarmlessRun(c, s, a) && HarmlessRun(c, Run(c, s, a), b) ==> HarmlessRun(c, s, a + b)
  {
    if b == [] {
      assert a + b == a;
    } else {
      assert (a + b)[..|a + b| - 1] == a + b[..|b| - 1];
      RunConcat(c, s, a, b[..|b| - 1]);
    }
  }

  lemma {:induction false} QuietIsHarmless(c: Config, s: System, es: seq<Event>)
    requires Quiet(es)
    ensures HarmlessRun(c, s, es)
  {
    if es == [] {
    } else {
      QuietIsHarmless(c, s, es[..|es| - 1]);
    }
  }

  function Advances(p: nat, n: nat): seq<Event> {
    seq(n, i requires 0 <= i < n => Advance(p))
  }

  // n steps of a load, none of them its swap.
  function Ahead(c: Config, r: Reloader, disk: Disk, l: Load, n: nat): Load {
    if n == 0 then l else NextLoad(c, r, disk, Ahead(c, r, disk, l, n - 1))
  }

  lemma {:induction false} RunAdvances(c: Config, s: System, p: nat, n: nat)
    requires p in s.loads
    requires forall k: nat | k < n :: !Ahead(c, s.r, s.disk, s.loads[p], k).AtSwap?
    ensures Run(c, s, Advances(p, n)) == s.(loads := s.loads[p := Ahead(c, s.r, s.disk, s.loads[p], n)])
  {
    if n == 0 {
      assert s.loads[p := s.loads[p]] == s.loads;
    } else {
      RunAdvances(c, s, p, n - 1);
      assert Advances(p, n)[..n - 1] == Advances(p, n - 1);
    }
  }

  function ReadyToSwap(cert: File, key: File): Load {
    AtSwap(Stats(cert.mtime, key.mtime, ZERO_TIME), KeyPair(cert.content, key.content), None)
  }

  // A load without a CA, up to its swap.
  lemma UpToSwap(c: Config, s: System, p: nat)
    requires c.caPath == "" && c.certPath in s.disk && c.keyPath in s.disk && !Current(c, s.r, s.disk) && p !in s.loads
    requires c.pairParses(s.disk[c.certPath].content, s.disk[c.keyPath].content)
    ensures var cert, key := s.disk[c.certPath], s.disk[c.keyPath];
            Run(c, s, [Begin(p)] + Advances(p, 6)) ==
            s.(loads := s.loads[p := ReadyToSwap(cert, key)])
  {
    var cert, key := s.disk[c.certPath], s.disk[c.keyPath];
    var b := Apply(c, s, Begin(p));
    RunConcat(c, s, [Begin(p)], Advances(p, 6));
    assert Run(c, s, [Begin(p)]) == b;
    AheadToSwap(c, b.r, b.disk);
    RunAdvances(c, b, p, 6);
  }

  lemma AheadToSwap(c: Config, r: Reloader, disk: Disk)
    requires c.caPath == "" && c.certPath in disk && c.keyPath in disk && !Current(c, r, disk)
    requires c.pairParses(disk[c.certPath].content, disk[c.keyPath].content)
    ensures forall k: nat | k < 6 :: !Ahead(c, r, disk, AtStatCert, k).AtSwap?
    ensures var cert, key := disk[c.certPath], disk[c.keyPath];
            Ahead(c, r, disk, AtStatCert, 6) == ReadyToSwap(cert, key)
  {
    var cm, km := disk[c.certPath].mtime, disk[c.keyPath].mtime;
    assert Ahead(c, r, disk, AtStatCert, 0) == AtStatCert;
    assert Ahead(c, r, disk, AtStatCert, 1) == AtStatKey(cm);
    assert Ahead(c, r, disk, AtStatCert, 2) == AtCompareCert(cm, km);
    assert Ahead(c, r, disk, AtStatCert, 3) == AtCompareKey(cm, km, cm != r.certMod);
    assert Ahead(c, r, disk, AtStatCert, 4) == AtReadCert(Stats(cm, km, ZERO_TIME));
    assert Ahead(c, r, disk, AtStatCert, 5).AtReadKey?;
  }

  // Load 1 reads the old certificate; a new one is written; load 2 reads the new one.
  function UntilWrite(c: Config, renewed: Bytes): seq<Event> {
    [Begin(1)] + Advances(1, 6) + [Write(c.certPath, renewed, 2)]
  }

  function TwoLoads(c: Config, renewed: Bytes): seq<Event> {
    UntilWrite(c, renewed) + ([Begin(2)] + Advances(2, 6))
  }

  function FirstDisk(c: Config, cert: Bytes, key: Bytes): System {
    System(UNLOADED, map[c.certPath := File(cert, 1), c.keyPath := File(key, 1)], map[])
  }

  lemma BothAtSwap(c: Config, old': Bytes, renewed: Bytes, key: Bytes)
    requires c.caPath == "" && c.certPath != c.keyPath
    requires c.pairParses(old', key) && c.pairParses(renewed, key)
    ensures var t := Run(c, FirstDisk(c, old', key), TwoLoads(c, renewed));
            && 1 in t.loads && t.loads[1] == AtSwap(Stats(1, 1, ZERO_TIME), KeyPair(old', key), None)
            && 2 in t.loads && t.loads[2] == AtSwap(Stats(2, 1, ZERO_TIME), KeyPair(renewed, key), None)
            && c.certPath in t.disk && t.disk[c.certPath].content == renewed
    ensures HarmlessRun(c, FirstDisk(c, old', key), TwoLoads(c, renewed))
  {
    var s0, first, second := FirstDisk(c, old', key), UntilWrite(c, renewed), [Begin(2)] + Advances(2, 6);
    FirstAtSwap(c, old', renewed, key);
    var s1 := Run(c, s0, first);
    UpToSwap(c, s1, 2);
    QuietIsHarmless(c, s1, second);
    RunConcat(c, s0, first, second);
  }

  lemma FirstAtSwap(c: Config, old': Bytes, renewed: Bytes, key: Bytes)
    requires c.caPath == "" && c.certPath != c.keyPath
    requires c.pairParses(old', key)
    ensures Run(c, FirstDisk(c, old', key), UntilWrite(c, renewed)) ==
            System(UNLOADED, map[c.certPath := File(renewed, 2), c.keyPath := File(key, 1)],
                   map[1 := AtSwap(Stats(1, 1, ZERO_TIME), KeyPair(old', key), None)])
    ensures HarmlessRun(c, FirstDisk(c, old', key), UntilWrite(c, renewed))
  {
    var s0, load, w := FirstDisk(c, old', key), [Begin(1)] + Advances(1, 6), Write(c.certPath, renewed, 2);
    UpToSwap(c, s0, 1);
    QuietIsHarmless(c, s0, load);
    OneEvent(c, Run(c, s0, load), w);
    RunConcat(c, s0, load, [w]);
  }

  lemma OneEvent(c: Config, s: System, e: Event)
    ensures Run(c, s, [e]) == Apply(c, s, e)
    ensures Harmless(c, s, e) ==> HarmlessRun(c, s, [e])
  {
    assert [e][..|[e]| - 1] == [];
  }

  // Load 2 swaps, and load 1 swaps after it: the new certificate is served, and then the old one again.
  lemma OldVersionReturns(c: Config, old': Bytes, renewed: Bytes, key: Bytes)
    requires c.caPath == "" && c.certPath != c.keyPath
    requires c.pairParses(old', key) && c.pairParses(renewed, key)
    ensures var s, es := FirstDisk(c, old', key), TwoLoads(c, renewed);
            var t, u := Run(c, s, es + [Advance(2)]), Run(c, s, es + [Advance(2), Advance(1)]);
            && Start(s) && HarmlessRun(c, s, es + [Advance(2), Advance(1)])
            && t.r.cert == Some(KeyPair(renewed, key)) && u.r.cert == Some(KeyPair(old', key))
            && c.certPath in u.disk && u.disk[c.certPath].content == renewed
  {
    var s, es, last := FirstDisk(c, old', key), TwoLoads(c, renewed), [Advance(2), Advance(1)];
    BothAtSwap(c, old', renewed, key);
    var t := Run(c, s, es);
    OneEvent(c, t, Advance(2));
    OneEvent(c, Apply(c, t, Advance(2)), Advance(1));
    assert last == [Advance(2)] + [Advance(1)];
    RunConcat(c, t, [Advance(2)], [Advance(1)]);
    QuietIsHarmless(c, t, last);
    RunConcat(c, s, es, [Advance(2)]);
    RunConcat(c, s, es, last);
  }
}
