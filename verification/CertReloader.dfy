/** The certificate reloader as an object: fields replaced together by Load, read by the handshake callbacks.
    A load is given what each of its file accesses finds; TlsReload also lets loads run beside each other. */
module CertReloader {
  import opened Options
  import opened TlsReload

  class LoadMetrics {
    var success: nat
    var failure: nat

    constructor ()
      ensures success == 0 && failure == 0
    {
      success, failure := 0, 0;
    }
  }

  // What the gRPC handshake is given.
  datatype HandshakeConfig = HandshakeConfig(certificate: KeyPair, requireClientCert: bool, clientCAs: Option<Bytes>)

  class CertReloader {
    var cert: Option<KeyPair>
    var clientCAPool: Option<Bytes>
    var hasCA: bool
    var certMod: int
    var keyMod: int
    var caMod: int
    const config: Config
    const metrics: LoadMetrics

    ghost function Model(): Reloader
      reads this
    {
      Reloader(cert, clientCAPool, hasCA, certMod, keyMod, caMod)
    }

    constructor (config: Config, metrics: LoadMetrics)
      ensures Model() == UNLOADED && this.config == config && this.metrics == metrics
    {
      cert, clientCAPool, hasCA := None, None, false;
      certMod, keyMod, caMod := ZERO_TIME, ZERO_TIME, ZERO_TIME;
      this.config, this.metrics := config, metrics;
    }

    static method New(config: Config, metrics: LoadMetrics, view: View)
      returns (r: CertReloader?, err: Option<LoadError>)
      modifies metrics
      ensures r == null <==> err.Some?
      ensures err == ErrorOf(LoadSeen(config, UNLOADED, view).1)
      ensures r != null ==> fresh(r) && r.Model() == LoadSeen(config, UNLOADED, view).0
      ensures metrics.success == old(metrics.success) + if LoadSeen(config, UNLOADED, view).1.Reloaded? then 1 else 0
      ensures metrics.failure == old(metrics.failure)
      // A reload leaves what the accesses have found, with a CA exactly when a path is given for one.
      ensures r != null && metrics.success != old(metrics.success) ==>
                && config.certPath in view(CertRead) && config.keyPath in view(KeyRead)
                && r.cert == Some(KeyPair(view(CertRead)[config.certPath].content,
                                          view(KeyRead)[config.keyPath].content))
                && (r.hasCA <==> config.caPath != "") && (r.clientCAPool.Some? <==> config.caPath != "")
                && (config.caPath != "" ==>
                      && config.caPath in view(CARead)
                      && r.clientCAPool == Some(view(CARead)[config.caPath].content)
                      && config.caParses(view(CARead)[config.caPath].content))
    {
      LoadIs(config, UNLOADED, view);
      var reloader := new CertReloader(config, metrics);
      err := reloader.Load(view);
      r := if err.Some? then null else reloader;
    }

    method Load(view: View) returns (err: Option<LoadError>)
      modifies this, metrics
      ensures Model() == LoadSeen(config, old(Model()), view).0
      ensures err == ErrorOf(LoadSeen(config, old(Model()), view).1)
      ensures metrics.success == old(metrics.success) +
              if LoadSeen(config, old(Model()), view).1.Reloaded? then 1 else 0
      ensures metrics.failure == old(metrics.failure)
      // A reload leaves what the accesses have found, with a CA exactly when a path is given for one; anything else
      // leaves the fields as they were.
      ensures metrics.success != old(metrics.success) ==>
                && config.certPath in view(CertRead) && config.keyPath in view(KeyRead)
                && cert == Some(KeyPair(view(CertRead)[config.certPath].content, view(KeyRead)[config.keyPath].content))
                && config.certPath in view(CertStat) && certMod == view(CertStat)[config.certPath].mtime
                && config.keyPath in view(KeyStat) && keyMod == view(KeyStat)[config.keyPath].mtime
                && (hasCA <==> config.caPath != "") && (clientCAPool.Some? <==> config.caPath != "")
                && (config.caPath == "" ==> caMod == old(caMod))
                && (config.caPath != "" ==>
                      && config.caPath in view(CARead) && config.caPath in view(CAStat)
                      && clientCAPool == Some(view(CARead)[config.caPath].content)
                      && config.caParses(view(CARead)[config.caPath].content)
                      && caMod == view(CAStat)[config.caPath].mtime)
      ensures metrics.success == old(metrics.success) ==>
                && cert == old(cert) && clientCAPool == old(clientCAPool) && hasCA == old(hasCA)
                && certMod == old(certMod) && keyMod == old(keyMod) && caMod == old(caMod)
      // A missing or unparsable CA file at such a path fails every load that has found a change.
      ensures config.caPath != "" && (config.caPath !in view(CARead)
                                      || !config.caParses(view(CARead)[config.caPath].content)) ==>
                err.None? ==>
                  && config.certPath in view(CertStat) && old(certMod) == view(CertStat)[config.certPath].mtime
                  && config.keyPath in view(KeyStat) && old(keyMod) == view(KeyStat)[config.keyPath].mtime
                  && config.caPath in view(CAStat) && old(caMod) == view(CAStat)[config.caPath].mtime
    {
      LoadIs(config, Model(), view);
      if config.certPath !in view(CertStat) {
        return Some(StatCert);
      }
      var certTime := view(CertStat)[config.certPath].mtime;
      if config.keyPath !in view(KeyStat) {
        return Some(StatKey);
      }
      var keyTime := view(KeyStat)[config.keyPath].mtime;
      var certChanged := certTime != certMod;
      var keyChanged := keyTime != keyMod;
      var caChanged := false;
      var caTime := caMod;
      if config.caPath != "" {
        if config.caPath !in view(CAStat) {
          return Some(StatCA);
        }
        caTime := view(CAStat)[config.caPath].mtime;
        caChanged := caTime != caMod;
      }
      if !certChanged && !keyChanged && !caChanged {
        return None;
      }
      if config.certPath !in view(CertRead) || config.keyPath !in view(KeyRead) {
        return Some(LoadPair);
      }
      var pair := KeyPair(view(CertRead)[config.certPath].content, view(KeyRead)[config.keyPath].content);
      if !config.pairParses(pair.cert, pair.key) {
        return Some(LoadPair);
      }
      var caPool: Option<Bytes> := None;
      var withCA := false;
      if config.caPath != "" {
        if config.caPath !in view(CARead) {
          return Some(ReadCA);
        }
        var caPEM := view(CARead)[config.caPath].content;
        if !config.caParses(caPEM) {
          return Some(ParseCA);
        }
        caPool, withCA := Some(caPEM), true;
      }
      cert, clientCAPool, hasCA := Some(pair), caPool, withCA;
      certMod, keyMod := certTime, keyTime;
      if config.caPath != "" {
        caMod := caTime;
      }
      metrics.success := metrics.success + 1;
      return None;
    }

    method GetCertificate() returns (c: Option<KeyPair>)
      ensures c == cert
    {
      return cert;
    }

    // None where the code dereferences a certificate that is not there and panics.
    method GetConfigForClient() returns (cfg: Option<HandshakeConfig>)
      ensures cfg.None? <==> cert.None?
      ensures cfg.Some? ==>
                && Some(cfg.value.certificate) == cert
                && (cfg.value.requireClientCert <==> hasCA)
                && cfg.value.clientCAs == if hasCA then clientCAPool else None
    {
      if cert.None? {
        return None;
      }
      var config := HandshakeConfig(cert.value, false, None);
      if hasCA {
        config := config.(requireClientCert := true, clientCAs := clientCAPool);
      }
      return Some(config);
    }

    method Reload(view: View)
      modifies this, metrics
      ensures Model() == LoadSeen(config, old(Model()), view).0
      ensures metrics.success + metrics.failure == old(metrics.success) + old(metrics.failure) +
              if LoadSeen(config, old(Model()), view).1.Unchanged? then 0 else 1
      ensures metrics.failure == old(metrics.failure) + if LoadSeen(config, old(Model()), view).1.Failed? then 1 else 0
    {
      var err := Load(view);
      if err.Some? {
        metrics.failure := metrics.failure + 1;
      }
    }

    // The polling goroutine, for the polls that happen before its context is cancelled.
    method Watch(polls: seq<View>)
      modifies this, metrics
      ensures Model() == AfterPolls(config, old(Model()), polls)
      ensures metrics.failure == old(metrics.failure) + FailedPolls(config, old(Model()), polls)
    {
      ghost var start, failures := Model(), metrics.failure;
      for i := 0 to |polls|
        invariant Model() == AfterPolls(config, start, polls[..i])
        invariant metrics.failure == failures + FailedPolls(config, start, polls[..i])
      {
        var err := Load(polls[i]);
        if err.Some? {
          metrics.failure := metrics.failure + 1;
        }
        assert polls[..i + 1][..i] == polls[..i];
      }
      assert polls[..|polls|] == polls;
    }
  }

  function ErrorOf(r: Result): Option<LoadError> {
    if r.Failed? then Some(r.error) else None
  }

  function AfterPolls(c: Config, r: Reloader, polls: seq<View>): Reloader {
    if polls == [] then r
    else LoadSeen(c, AfterPolls(c, r, polls[..|polls| - 1]), polls[|polls| - 1]).0
  }

  function FailedPolls(c: Config, r: Reloader, polls: seq<View>): nat {
    if polls == [] then 0
    else
      var before := AfterPolls(c, r, polls[..|polls| - 1]);
      FailedPolls(c, r, polls[..|polls| - 1]) + if LoadSeen(c, before, polls[|polls| - 1]).1.Failed? then 1 else 0
  }

  // Polls that all fail keep serving what was there, and the first good disk after them is served.
  lemma {:induction false} FailingPollsKeepServing(c: Config, r: Reloader, polls: seq<View>, good: Disk)
    requires FailedPolls(c, r, polls) == |polls|
    ensures AfterPolls(c, r, polls) == r
    ensures !Current(c, r, good) && !LoadOnce(c, r, good).1.Failed? ==>
              Synced(c, AfterPolls(c, r, polls + [Still(good)]), good)
  {
    AfterPollsSnoc(c, r, polls, Still(good));
    if polls == [] {
    } else {
      var before := polls[..|polls| - 1];
      FailedPollsBound(c, r, before);
      FailingPollsKeepServing(c, r, before, good);
      FailureIsRetried(c, r, polls[|polls| - 1]);
    }
  }

  lemma AfterPollsSnoc(c: Config, r: Reloader, polls: seq<View>, view: View)
    ensures AfterPolls(c, r, polls + [view]) == LoadSeen(c, AfterPolls(c, r, polls), view).0
  {
    assert (polls + [view])[..|polls + [view]| - 1] == polls;
  }

  lemma {:induction false} FailedPollsBound(c: Config, r: Reloader, polls: seq<View>)
    ensures FailedPolls(c, r, polls) <= |polls|
  {
    if polls == [] {
    } else {
      FailedPollsBound(c, r, polls[..|polls| - 1]);
    }
  }
}
