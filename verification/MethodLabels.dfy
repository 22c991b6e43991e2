/** The metric label of a gRPC method: a pure classification of the method name, and the cache in front of it. */
module MethodLabels {

  const UNKNOWN: string := "unknown_method"

  // The methods served, as service and method name; the code spells each one with a slash in between.
  const KNOWN: seq<(string, string)> := [
    ("AgentService", "Register"),
    ("AgentService", "Heartbeat"),
    ("AgentService", "ExecuteTask"),
    ("AgentService", "AllocateMemory"),
    ("AgentService", "AllocateGPUMemory"),
    ("AgentService", "FreeMemory"),
    ("AgentService", "FreeGPUMemory"),
    ("MemoryService", "AllocateDistributed"),
    ("MemoryService", "MigrateRegion"),
    ("MemoryService", "GetRegion"),
    ("ControlService", "GetClusterState"),
    ("ControlService", "JoinCluster")]

  function Slashed(k: (string, string)): string {
    k.0 + "/" + k.1
  }

  function Dotted(k: (string, string)): string {
    k.0 + "." + k.1
  }

  // ----- the string operations the code uses -----

  function TrimSlash(s: string): string {
    if s != "" && s[0] == '/' then s[1..] else s
  }

  function SlashesToDots(s: string): string {
    seq(|s|, i requires 0 <= i < |s| => if s[i] == '/' then '.' else s[i])
  }

  // Position of the first dot, or the length if there is none.
  function FirstDot(s: string): (i: nat)
    ensures i <= |s| && (forall j | 0 <= j < i :: s[j] != '.') && (i < |s| ==> s[i] == '.')
  {
    if s == "" || s[0] == '.' then 0
    else
      assert forall j | 0 < j < |s| :: s[j] == s[1..][j - 1];
      1 + FirstDot(s[1..])
  }

  // At most n pieces; the last one keeps any further dots.
  function SplitN(s: string, n: nat): (parts: seq<string>)
    requires n > 0
    ensures 1 <= |parts| <= n
  {
    if n == 1 || FirstDot(s) == |s| then [s]
    else [s[..FirstDot(s)]] + SplitN(s[FirstDot(s) + 1..], n - 1)
  }

  // ----- the classification -----

  function Normalize(full: string): string {
    SlashesToDots(TrimSlash(full))
  }

  predicate IsKnown(service: string, method': string) {
    exists k | k in KNOWN :: service + "/" + method' == Slashed(k)
  }

  predicate MatchesPattern(m: string) {
    var parts := SplitN(m, 4);
    |parts| >= 3 && IsKnown(parts[|parts| - 2], parts[|parts| - 1])
  }

  predicate Preloaded(m: string) {
    exists k | k in KNOWN :: m == Dotted(k)
  }

  predicate Recognized(m: string) {
    Preloaded(m) || MatchesPattern(m)
  }

  function Classify(full: string): string {
    if Recognized(Normalize(full)) then Normalize(full) else UNKNOWN
  }

  // ----- the cached version -----

  // What the cache may hold: everything it was loaded with, and nothing that the classification would reject.
  ghost predicate Faithful(cache: set<string>) {
    && (forall k | k in KNOWN :: Dotted(k) in cache)
    && (forall m | m in cache :: Recognized(m))
  }

  class LabelCache {
    var known: set<string>

    constructor ()
      ensures Faithful(known)
    {
      known := {};
      new;
      for i := 0 to |KNOWN|
        invariant forall j | 0 <= j < i :: Dotted(KNOWN[j]) in known
        invariant forall m | m in known :: Preloaded(m)
        modifies this
      {
        assert KNOWN[i] in KNOWN;
        known := known + {Dotted(KNOWN[i])};
      }
    }

    // Whatever the cache holds, the label is the one the classification gives.
    method SanitizeMethod(full: string) returns (name: string)
      requires Faithful(known)
      modifies this
      ensures Faithful(known) && old(known) <= known <= old(known) + {name}
      ensures name == Classify(full)
    {
      var m := Normalize(full);
      if m in known {
        return m;
      }
      var matches := ParsesAsKnown(m);
      if matches {
        known := known + {m};
        return m;
      }
      return UNKNOWN;
    }
  }

  method ParsesAsKnown(m: string) returns (matches: bool)
    ensures matches <==> MatchesPattern(m)
  {
    var parts := SplitN(m, 4);
    if |parts| < 3 {
      return false;
    }
    matches := IsListed(KNOWN, parts[|parts| - 2] + "/" + parts[|parts| - 1]);
  }

  method IsListed(list: seq<(string, string)>, service: string) returns (listed: bool)
    ensures listed <==> exists k | k in list :: service == Slashed(k)
  {
    for i := 0 to |list|
      invariant forall j | 0 <= j < i :: service != Slashed(list[j])
    {
      if service == Slashed(list[i]) {
        assert list[i] in list;
        return true;
      }
    }
    return false;
  }

  // Concurrent calls in any order: each looks into the cache once, and if it missed, decides and perhaps stores
  // in a later step.
  datatype Call = Missed(full: string) | Answered(full: string, answer: string)

  datatype Calls = Calls(cache: set<string>, calls: map<nat, Call>)

  datatype CallEvent = Load(p: nat, full: string) | Store(p: nat)

  function ApplyCall(s: Calls, e: CallEvent): Calls {
    match e
    case Load(p, full) =>
      if p in s.calls then s
      else
        var m := Normalize(full);
        s.(calls := s.calls[p := if m in s.cache then Answered(full, m) else Missed(full)])
    case Store(p) =>
      if p !in s.calls || s.calls[p].Answered? then s
      else
        var full := s.calls[p].full;
        var m := Normalize(full);
        if MatchesPattern(m) then Calls(s.cache + {m}, s.calls[p := Answered(full, m)])
        else s.(calls := s.calls[p := Answered(full, UNKNOWN)])
  }

  function RunCalls(s: Calls, es: seq<CallEvent>): Calls {
    if es == [] then s else ApplyCall(RunCalls(s, es[..|es| - 1]), es[|es| - 1])
  }

  // A call that has missed is about a name that was not loaded at the start.
  predicate RightAnswer(c: Call) {
    match c
    case Missed(full) => !Preloaded(Normalize(full))
    case Answered(full, answer) => answer == Classify(full)
  }

  ghost predicate Transparent(s: Calls) {
    Faithful(s.cache) && forall p | p in s.calls :: RightAnswer(s.calls[p])
  }

  lemma TransparentStep(s: Calls, e: CallEvent)
    requires Transparent(s)
    ensures Transparent(ApplyCall(s, e))
  {
    if e.Store? && e.p in s.calls && s.calls[e.p].Missed? {
      assert RightAnswer(s.calls[e.p]);
    }
  }

  // Every answer of every interleaving is the one the classification gives.
  lemma {:induction false} CacheIsTransparent(cache: set<string>, es: seq<CallEvent>)
    requires Faithful(cache)
    ensures Transparent(RunCalls(Calls(cache, map[]), es))
  {
    if es == [] {
    } else {
      CacheIsTransparent(cache, es[..|es| - 1]);
      TransparentStep(RunCalls(Calls(cache, map[]), es[..|es| - 1]), es[|es| - 1]);
    }
  }

  // ----- what is recognized -----

  predicate DotFree(s: string) {
    '.' !in s
  }

  predicate SlashFree(s: string) {
    '/' !in s
  }

  // A known Service.Method, alone or preceded by one or two dot-free components.
  ghost predicate HasKnownShape(m: string) {
    exists k | k in KNOWN ::
      || m == Dotted(k)
      || (exists a :: DotFree(a) && m == a + "." + Dotted(k))
      || (exists a, b :: DotFree(a) && DotFree(b) && m == a + "." + (b + "." + Dotted(k)))
  }

  lemma NormalizeIsSlashFree(full: string)
    ensures SlashFree(Normalize(full))
  {
  }

  lemma KnownNamesArePlain()
    ensures forall i | 0 <= i < |KNOWN| ::
              DotFree(KNOWN[i].0) && DotFree(KNOWN[i].1) && SlashFree(KNOWN[i].0) && SlashFree(KNOWN[i].1)
  {
  }

  lemma PlainKnown(k: (string, string))
    requires k in KNOWN
    ensures DotFree(k.0) && DotFree(k.1) && SlashFree(k.0) && SlashFree(k.1)
  {
    KnownNamesArePlain();
  }

  lemma FirstDotAt(a: string, rest: string)
    requires DotFree(a)
    ensures FirstDot(a + "." + rest) == |a|
  {
    var s := a + "." + rest;
    assert s[|a|] == '.';
    assert forall j | 0 <= j < |a| :: s[j] == a[j] && a[j] in a;
  }

  lemma SplitPiece(a: string, rest: string, n: nat)
    requires DotFree(a) && n > 1
    ensures SplitN(a + "." + rest, n) == [a] + SplitN(rest, n - 1)
  {
    FirstDotAt(a, rest);
    var s := a + "." + rest;
    assert s[..|a|] == a && s[|a| + 1..] == rest;
  }

  lemma SplitWhole(s: string, n: nat)
    requires DotFree(s) && n > 0
    ensures SplitN(s, n) == [s]
  {
    assert forall j | 0 <= j < |s| :: s[j] in s;
  }

  // Putting the first piece back.
  lemma SplitRejoins(s: string)
    requires FirstDot(s) < |s|
    ensures s == s[..FirstDot(s)] + "." + s[FirstDot(s) + 1..]
    ensures DotFree(s[..FirstDot(s)])
  {
    Rejoin(s, FirstDot(s));
  }

  lemma Rejoin(s: string, i: nat)
    requires i < |s| && s[i] == '.'
    ensures s == s[..i] + "." + s[i + 1..]
  {
  }

  lemma SlashIsUnique(p: string, q: string, p': string, q': string)
    requires SlashFree(p) && SlashFree(p') && p + "/" + q == p' + "/" + q'
    ensures p == p' && q == q'
  {
    var s, s' := p + "/" + q, p' + "/" + q';
    assert s[|p|] == '/' && s'[|p'|] == '/';
    assert forall j | 0 <= j < |p| :: s[j] == p[j] && p[j] in p;
    assert forall j | 0 <= j < |p'| :: s'[j] == p'[j] && p'[j] in p';
    assert p == s[..|p|] && p' == s'[..|p'|];
    assert q == s[|p| + 1..] && q' == s'[|p'| + 1..];
  }

  lemma KnownPair(p: string, q: string)
    requires SlashFree(p) && IsKnown(p, q)
    ensures (p, q) in KNOWN
  {
    var k :| k in KNOWN && p + "/" + q == Slashed(k);
    PlainKnown(k);
    SlashIsUnique(p, q, k.0, k.1);
  }

  lemma SplitThreePieces(a: string, b: string, c: string, n: nat)
    requires DotFree(a) && DotFree(b) && DotFree(c) && n >= 3
    ensures SplitN(a + "." + (b + "." + c), n) == [a] + ([b] + [c])
  {
    SplitPiece(a, b + "." + c, n);
    SplitPiece(b, c, n - 1);
    SplitWhole(c, n - 2);
  }

  lemma PatternFromShape(m: string, k: (string, string), a: string)
    requires k in KNOWN && DotFree(a) && m == a + "." + Dotted(k)
    ensures MatchesPattern(m)
  {
    PlainKnown(k);
    SplitThreePieces(a, k.0, k.1, 4);
    KnownPieces(m, [a], k);
  }

  lemma PatternFromLongShape(m: string, k: (string, string), a: string, b: string)
    requires k in KNOWN && DotFree(a) && DotFree(b) && m == a + "." + (b + "." + Dotted(k))
    ensures MatchesPattern(m)
  {
    PlainKnown(k);
    SplitPiece(a, b + "." + Dotted(k), 4);
    SplitThreePieces(b, k.0, k.1, 3);
    assert [a] + ([b] + ([k.0] + [k.1])) == [a, b] + ([k.0] + [k.1]);
    KnownPieces(m, [a, b], k);
  }

  lemma KnownPieces(m: string, front: seq<string>, k: (string, string))
    requires k in KNOWN && front != [] && SplitN(m, 4) == front + ([k.0] + [k.1])
    ensures MatchesPattern(m)
  {
    assert k.0 + "/" + k.1 == Slashed(k);
  }

  // The first piece of a name that splits.
  lemma SplitOff(m: string, n: nat) returns (a: string, rest: string)
    requires n > 1 && |SplitN(m, n)| >= 2 && SlashFree(m)
    ensures DotFree(a) && m == a + "." + rest && SlashFree(a) && SlashFree(rest)
    ensures SplitN(m, n) == [a] + SplitN(rest, n - 1)
  {
    SplitRejoins(m);
    a, rest := m[..FirstDot(m)], m[FirstDot(m) + 1..];
  }

  lemma ShapeFromThree(m: string, a: string, p: string, q: string)
    requires SlashFree(p) && DotFree(a) && IsKnown(p, q) && m == a + "." + (p + "." + q)
    ensures HasKnownShape(m)
  {
    KnownPair(p, q);
    assert m == a + "." + Dotted((p, q));
  }

  lemma ShapeFromFour(m: string, a: string, b: string, p: string, q: string)
    requires SlashFree(p) && DotFree(a) && DotFree(b) && IsKnown(p, q)
    requires m == a + "." + (b + "." + (p + "." + q))
    ensures HasKnownShape(m)
  {
    KnownPair(p, q);
    assert m == a + "." + (b + "." + Dotted((p, q)));
  }

  lemma LastTwoKnown(m: string, front: seq<string>, p: string, q: string)
    requires MatchesPattern(m) && SplitN(m, 4) == front + [p, q]
    ensures IsKnown(p, q)
  {
  }

  // What follows the first two pieces is one piece, or two.
  lemma LastPieces(rest: string) returns (c: string, d: string, one: bool)
    requires SlashFree(rest)
    ensures one ==> SplitN(rest, 2) == [rest]
    ensures !one ==> SplitN(rest, 2) == [c, d] && rest == c + "." + d && DotFree(c) && SlashFree(c)
  {
    c, d, one := "", "", |SplitN(rest, 2)| == 1;
    if !one {
      c, d := SplitOff(rest, 2);
    }
  }

  lemma ShapeFromPieces(m: string, a: string, b: string, rest: string)
    requires MatchesPattern(m) && m == a + "." + (b + "." + rest)
    requires DotFree(a) && DotFree(b) && SlashFree(b) && SlashFree(rest)
    requires SplitN(m, 4) == [a, b] + SplitN(rest, 2)
    ensures HasKnownShape(m)
  {
    var c, d, one := LastPieces(rest);
    if one {
      assert [a, b] + [rest] == [a] + [b, rest];
      LastTwoKnown(m, [a], b, rest);
      ShapeFromThree(m, a, b, rest);
    } else {
      LastTwoKnown(m, [a, b], c, d);
      ShapeFromFour(m, a, b, c, d);
    }
  }

  lemma FirstTwoPieces(m: string) returns (a: string, b: string, rest: string)
    requires SlashFree(m) && |SplitN(m, 4)| >= 3
    ensures DotFree(a) && DotFree(b) && SlashFree(b) && SlashFree(rest) && m == a + "." + (b + "." + rest)
    ensures SplitN(m, 4) == [a, b] + SplitN(rest, 2)
  {
    var m1: string;
    a, m1 := SplitOff(m, 4);
    b, rest := SplitOff(m1, 3);
    assert [a] + ([b] + SplitN(rest, 2)) == [a, b] + SplitN(rest, 2);
  }

  lemma ShapeFromPattern(m: string)
    requires SlashFree(m) && MatchesPattern(m)
    ensures HasKnownShape(m)
  {
    var a, b, rest := FirstTwoPieces(m);
    ShapeFromPieces(m, a, b, rest);
  }

  // A normalized name is recognized exactly when it is a known Service.Method, alone or preceded by one or two
  // dot-free components. Any other name is collapsed into one label; the prefix itself is not bounded.
  lemma RecognizedIffKnownShape(full: string)
    ensures Recognized(Normalize(full)) <==> HasKnownShape(Normalize(full))
  {
    var m := Normalize(full);
    NormalizeIsSlashFree(full);
    if MatchesPattern(m) {
      ShapeFromPattern(m);
    }
    if HasKnownShape(m) && !Preloaded(m) {
      var k :| k in KNOWN &&
               ((exists a :: DotFree(a) && m == a + "." + Dotted(k)) ||
                (exists a, b :: DotFree(a) && DotFree(b) && m == a + "." + (b + "." + Dotted(k))));
      if a :| DotFree(a) && m == a + "." + Dotted(k) {
        PatternFromShape(m, k, a);
      } else {
        var a, b :| DotFree(a) && DotFree(b) && m == a + "." + (b + "." + Dotted(k));
        PatternFromLongShape(m, k, a, b);
      }
    }
  }

  // The label of any call: a name of known shape unchanged, everything else the one catch-all label.
  lemma LabelsHaveKnownShape(full: string)
    ensures Classify(full) == if HasKnownShape(Normalize(full)) then Normalize(full) else "unknown_method"
    ensures var m, cut := Normalize(full), if full != "" && full[0] == '/' then 1 else 0;
            && |m| == |full| - cut
            && forall i | 0 <= i < |m| :: m[i] == if full[i + cut] == '/' then '.' else full[i + cut]
  {
    RecognizedIffKnownShape(full);
  }

  lemma SlashesToDotsConcat(a: string, b: string)
    ensures SlashesToDots(a + b) == SlashesToDots(a) + SlashesToDots(b)
  {
  }

  lemma SlashFreeStays(a: string)
    requires SlashFree(a)
    ensures SlashesToDots(a) == a
  {
  }

  lemma PrefixNormalizes(a: string, service: string, name: string)
    requires SlashFree(a) && SlashFree(service) && SlashFree(name)
    ensures Normalize("/" + a + "/" + (service + "/" + name)) == a + "." + (service + "." + name)
  {
    assert TrimSlash("/" + a + "/" + (service + "/" + name)) == a + ("/" + (service + ("/" + name)));
    SlashesToDotsConcat("/", name);
    SlashesToDotsConcat(service, "/" + name);
    SlashesToDotsConcat("/", service + ("/" + name));
    SlashesToDotsConcat(a, "/" + (service + ("/" + name)));
    assert SlashesToDots("/") == ".";
    SlashFreeStays(a);
    SlashFreeStays(service);
    SlashFreeStays(name);
    assert a + ("." + (service + ("." + name))) == a + "." + (service + "." + name);
  }

  lemma FullNameNormalizes(service: string, name: string)
    requires SlashFree(service) && SlashFree(name)
    ensures Normalize("/" + service + "/" + name) == service + "." + name
  {
    assert TrimSlash("/" + service + "/" + name) == service + ("/" + name);
    SlashesToDotsConcat("/", name);
    SlashesToDotsConcat(service, "/" + name);
    SlashFreeStays(service);
    SlashFreeStays(name);
    assert SlashesToDots("/") == ".";
    assert service + ("." + name) == service + "." + name;
  }

  lemma FullNameSplits(service: string, name: string)
    requires DotFree(service) && DotFree(name)
    ensures SplitN("compute" + "." + ("v1" + "." + (service + "." + name)), 4) == ["compute", "v1", service, name]
  {
    SplitPiece("compute", "v1" + "." + (service + "." + name), 4);
    SplitThreePieces("v1", service, name, 3);
  }

  // No known name starts like the package.
  lemma NoKnownStartsSmall(m: string)
    requires m != "" && m[0] == 'c'
    ensures !Preloaded(m)
  {
    forall i | 0 <= i < |KNOWN|
      ensures m != Dotted(KNOWN[i])
    {
      assert KNOWN[i].0 in {"AgentService", "MemoryService", "ControlService"};
      assert Dotted(KNOWN[i])[0] == KNOWN[i].0[0];
    }
  }

  lemma KnownAre(k: (string, string))
    ensures k in KNOWN <==>
            k in {
            ("AgentService", "Register"), ("AgentService", "Heartbeat"), ("AgentService", "ExecuteTask"),
            ("AgentService", "AllocateMemory"), ("AgentService", "AllocateGPUMemory"),
            ("AgentService", "FreeMemory"), ("AgentService", "FreeGPUMemory"),
            ("MemoryService", "AllocateDistributed"), ("MemoryService", "MigrateRegion"),
            ("MemoryService", "GetRegion"),
            ("ControlService", "GetClusterState"), ("ControlService", "JoinCluster")}
  {
  }

  // As for a full name of this package: only the last two of its four pieces count.
  lemma PackageNames(service: string, name: string)
    requires DotFree(service) && SlashFree(service) && DotFree(name) && SlashFree(name)
    ensures Recognized("compute" + "." + ("v1" + "." + (service + "." + name))) <==> (service, name) in KNOWN
  {
    var m := "compute" + "." + ("v1" + "." + (service + "." + name));
    FullNameSplits(service, name);
    NoKnownStartsSmall(m);
    if IsKnown(service, name) {
      KnownPair(service, name);
    }
    if (service, name) in KNOWN {
      assert service + "/" + name == Slashed((service, name));
    }
  }

  // The labels of calls as gRPC names them: twelve methods have their own, and nothing else of this package has.
  lemma LabelsOfPackage(service: string, name: string)
    requires '.' !in service && '/' !in service && '.' !in name && '/' !in name
    ensures Classify("/compute.v1." + service + "/" + name) ==
            if (service, name) in {
                 ("AgentService", "Register"), ("AgentService", "Heartbeat"), ("AgentService", "ExecuteTask"),
                 ("AgentService", "AllocateMemory"), ("AgentService", "AllocateGPUMemory"),
                 ("AgentService", "FreeMemory"), ("AgentService", "FreeGPUMemory"),
                 ("MemoryService", "AllocateDistributed"), ("MemoryService", "MigrateRegion"),
                 ("MemoryService", "GetRegion"),
                 ("ControlService", "GetClusterState"), ("ControlService", "JoinCluster")}
            then "compute.v1." + service + "." + name
            else "unknown_method"
  {
    KnownAre((service, name));
    PackageNames(service, name);
    PackagePrefix(service, name);
    FullNameNormalizes("compute.v1." + service, name);
  }

  lemma PackagePrefix(service: string, name: string)
    requires SlashFree(service)
    ensures SlashFree("compute.v1." + service)
    ensures "/compute.v1." + service + "/" + name == "/" + ("compute.v1." + service) + "/" + name
    ensures "compute" + "." + ("v1" + "." + (service + "." + name)) == "compute.v1." + service + "." + name
  {
    assert "/compute.v1." == "/" + "compute.v1.";
    Rebracket("/", "compute.v1.", service);
    assert "compute.v1." == "compute" + "." + ("v1" + ".");
    Rebracket("compute" + ".", "v1" + ".", service + "." + name);
    Rebracket("compute.v1.", service, "." + name);
    Rebracket(service, ".", name);
    Rebracket("compute.v1." + service, ".", name);
    assert forall c | c in "compute.v1." :: c != '/';
  }

  // The same methods without a package.
  lemma LabelsWithoutPackage(k: (string, string))
    requires k in KNOWN
    ensures Classify("/" + k.0 + "/" + k.1) == k.0 + "." + k.1
  {
    PlainKnown(k);
    FullNameNormalizes(k.0, k.1);
  }

  lemma Rebracket(a: string, b: string, c: string)
    ensures a + (b + c) == a + b + c
  {
  }

  // The labels are not finitely many: every plain prefix gives one of its own.
  lemma EveryPrefixHasItsLabel(a: string, k: (string, string))
    requires k in KNOWN && DotFree(a) && SlashFree(a)
    ensures Classify("/" + a + "/" + Slashed(k)) == a + "." + Dotted(k)
  {
    PlainKnown(k);
    PrefixNormalizes(a, k.0, k.1);
    PatternFromShape(a + "." + Dotted(k), k, a);
  }
}
