/** Deduplication of probe targets. The runner's own copy of a local check has
    the same fields as the bundle's, so one datatype stands for both. */
module Targets {
  import opened Bundles

  /** What a probe type is built into; a k8s probe is built without a lister too. */
  datatype Prober =
    | Tcp(host: string, port: int)
    | Http(host: string, port: int, path: string)
    | K8s(hasLister: bool, namespace: string, service: string)

  datatype Target = Target(config: LocalCheck, prober: Prober)

  function NewProber(cfg: LocalCheck, hasLister: bool): Option<Prober> {
    if cfg.probe == "tcp" then Some(Tcp(cfg.host, cfg.port))
    else if cfg.probe == "http" then Some(Http(cfg.host, cfg.port, cfg.path))
    else if cfg.probe == "k8s" then Some(K8s(hasLister, cfg.namespace, cfg.service))
    else None
  }

  /** A k8s check without a lister is built, and reports its target down; only
      an unrecognised probe type is skipped. `ready` is the lister's count. */
  predicate ProbeK8s(p: Prober, ready: nat)
    requires p.K8s?
  {
    p.hasLister && ready > 0
  }

  lemma SkippedExactlyWhenUnrecognised(cfg: LocalCheck, hasLister: bool)
    ensures NewProber(cfg, hasLister) == None <==> cfg.probe !in {"tcp", "http", "k8s"}
    ensures cfg.probe == "k8s" ==> forall ready :: !ProbeK8s(NewProber(cfg, false).value, ready)
    ensures cfg.probe == "k8s" ==> forall ready :: ProbeK8s(NewProber(cfg, true).value, ready) <==> ready > 0
  {
  }

  // ---- The dedupe as a function of the list of checks ----

  ghost function Checks(records: seq<Record>): seq<LocalCheck> {
    if records == [] then []
    else Checks(records[..|records| - 1]) + records[|records| - 1].localChecks
  }

  /** An interval that replaces the one held so far. */
  predicate Faster(ms: int, held: int) {
    ms > 0 && (held <= 0 || ms < held)
  }

  ghost function Add(configs: map<string, LocalCheck>, lc: LocalCheck): map<string, LocalCheck> {
    if lc.targetKey !in configs then configs[lc.targetKey := lc]
    else if Faster(lc.intervalMs, configs[lc.targetKey].intervalMs)
    then configs[lc.targetKey := configs[lc.targetKey].(intervalMs := lc.intervalMs)]
    else configs
  }

  ghost function Merge(checks: seq<LocalCheck>): map<string, LocalCheck> {
    if checks == [] then map[]
    else Add(Merge(checks[..|checks| - 1]), checks[|checks| - 1])
  }

  ghost function Build(configs: map<string, LocalCheck>, hasLister: bool): map<string, Target> {
    map k | k in configs && NewProber(configs[k], hasLister).Some? ::
      Target(configs[k], NewProber(configs[k], hasLister).value)
  }

  ghost function TargetsOf(records: seq<Record>, hasLister: bool): map<string, Target> {
    Build(Merge(Checks(records)), hasLister)
  }

  // ---- The code, as it fills its maps ----

  method BuildTargets(records: seq<Record>, hasLister: bool) returns (out: map<string, Target>)
    ensures out == TargetsOf(records, hasLister)
  {
    var configs: map<string, LocalCheck> := map[];
    for i := 0 to |records|
      invariant configs == Merge(Checks(records[..i]))
    {
      assert records[..i + 1][..i] == records[..i];
      configs := MergeRecord(configs, records[i], Checks(records[..i]));
    }
    assert records[..|records|] == records;
    out := BuildProbers(configs, hasLister);
  }

  /** The inner loop of the build, over one record's checks. */
  method MergeRecord(configs0: map<string, LocalCheck>, rec: Record, ghost seen: seq<LocalCheck>)
    returns (configs: map<string, LocalCheck>)
    requires configs0 == Merge(seen)
    ensures configs == Merge(seen + rec.localChecks)
  {
    hide Merge;
    configs := configs0;
    var checks := rec.localChecks;
    assert seen + checks[..0] == seen;
    for j := 0 to |checks|
      invariant configs == Merge(seen + checks[..j])
    {
      var lc := checks[j];
      assert seen + checks[..j + 1] == seen + checks[..j] + [lc];
      MergeAppend(seen + checks[..j], lc);
      if lc.targetKey !in configs {
        configs := configs[lc.targetKey := lc];
        continue;
      }
      var existing := configs[lc.targetKey];
      if lc.intervalMs > 0 && (existing.intervalMs <= 0 || lc.intervalMs < existing.intervalMs) {
        configs := configs[lc.targetKey := existing.(intervalMs := lc.intervalMs)];
      }
    }
    assert checks[..|checks|] == checks;
  }

  lemma MergeAppend(checks: seq<LocalCheck>, lc: LocalCheck)
    ensures Merge(checks + [lc]) == Add(Merge(checks), lc)
  {
    assert (checks + [lc])[..|checks|] == checks;
  }

  /** The second loop of the build: one prober per merged configuration. */
  method BuildProbers(configs: map<string, LocalCheck>, hasLister: bool) returns (out: map<string, Target>)
    ensures out == Build(configs, hasLister)
  {
    out := map[];
    var left := configs.Keys;
    while left != {}
      invariant left <= configs.Keys
      invariant out == map k | k in configs && k !in left && NewProber(configs[k], hasLister).Some? ::
                  Target(configs[k], NewProber(configs[k], hasLister).value)
      decreases |left|
    {
      var key :| key in left;
      left := left - {key};
      var prober := NewProber(configs[key], hasLister);
      if prober.Some? {
        out := out[key := Target(configs[key], prober.value)];
      }
    }
  }

  // ---- What the dedupe yields ----

  ghost function First(checks: seq<LocalCheck>, key: string): Option<LocalCheck> {
    if checks == [] then None
    else
      var n := |checks| - 1;
      if First(checks[..n], key).Some? then First(checks[..n], key)
      else if checks[n].targetKey == key then Some(checks[n]) else None
  }

  ghost predicate Occurs(checks: seq<LocalCheck>, key: string, ms: int) {
    exists lc | lc in checks :: lc.targetKey == key && lc.intervalMs == ms
  }

  /** `ms` is the least positive interval of the key's occurrences, or the
      first occurrence's own when none is positive. */
  ghost predicate Fastest(checks: seq<LocalCheck>, key: string, ms: int, first: LocalCheck) {
    && Occurs(checks, key, ms)
    && (forall lc | lc in checks :: lc.targetKey == key && lc.intervalMs > 0 ==> 0 < ms <= lc.intervalMs)
    && (ms <= 0 ==> ms == first.intervalMs)
  }

  lemma {:induction false} MergeExactly(checks: seq<LocalCheck>, key: string)
    ensures key in Merge(checks) <==> First(checks, key).Some?
    ensures key in Merge(checks) ==>
              var m, first := Merge(checks)[key], First(checks, key).value;
              m == first.(intervalMs := m.intervalMs) && Fastest(checks, key, m.intervalMs, first)
  {
    if checks != [] {
      var n := |checks| - 1;
      MergeExactly(checks[..n], key);
      assert forall lc :: lc in checks <==> lc in checks[..n] || lc == checks[n];
      if key in Merge(checks[..n]) {
        var was := Merge(checks[..n])[key].intervalMs;
        var lc :| lc in checks[..n] && lc.targetKey == key && lc.intervalMs == was;
        assert Occurs(checks, key, was);
      } else {
        FirstExactly(checks[..n], key);
      }
    }
  }

  lemma {:induction false} FirstExactly(checks: seq<LocalCheck>, key: string)
    ensures First(checks, key).Some? <==> exists lc | lc in checks :: lc.targetKey == key
    ensures First(checks, key).Some? ==>
              exists i | 0 <= i < |checks| ::
                && checks[i] == First(checks, key).value && checks[i].targetKey == key
                && forall j | 0 <= j < i :: checks[j].targetKey != key
  {
    if checks != [] {
      var n := |checks| - 1;
      FirstExactly(checks[..n], key);
      assert forall lc :: lc in checks <==> lc in checks[..n] || lc == checks[n];
      if First(checks[..n], key).Some? {
        var i :| 0 <= i < n && checks[..n][i] == First(checks[..n], key).value && checks[..n][i].targetKey == key
                 && forall j | 0 <= j < i :: checks[..n][j].targetKey != key;
        assert checks[i] == checks[..n][i];
        assert forall j | 0 <= j < i :: checks[j] == checks[..n][j];
      } else if checks[n].targetKey == key {
        assert forall j | 0 <= j < n :: checks[j] in checks[..n];
      }
    }
  }

  lemma TargetsAreMerged(records: seq<Record>, hasLister: bool, key: string)
    ensures
      var first, out := First(Checks(records), key), TargetsOf(records, hasLister);
      && (key in out <==> first.Some? && first.value.probe in {"tcp", "http", "k8s"})
      && (key in out ==>
            var cfg := out[key].config;
            && cfg == first.value.(intervalMs := cfg.intervalMs)
            && Fastest(Checks(records), key, cfg.intervalMs, first.value)
            && Some(out[key].prober) == NewProber(first.value, hasLister))
  {
    hide Fastest;
    MergeExactly(Checks(records), key);
  }

  /** Check b of record a is the first with its key, records and their checks
      being read in order. */
  ghost predicate FirstCheck(records: seq<Record>, a: nat, b: nat) {
    && a < |records| && b < |records[a].localChecks|
    && forall i, j | 0 <= i <= a && 0 <= j < |records[i].localChecks| && (i < a || j < b) ::
         records[i].localChecks[j].targetKey != records[a].localChecks[b].targetKey
  }

  lemma {:induction false} FirstAppend(x: seq<LocalCheck>, y: seq<LocalCheck>, key: string)
    ensures First(x + y, key) == if First(x, key).Some? then First(x, key) else First(y, key)
  {
    if y == [] {
      assert x + y == x;
    } else {
      var n := |y| - 1;
      FirstAppend(x, y[..n], key);
      assert (x + y)[..|x| + n] == x + y[..n];
    }
  }

  lemma FirstAt(checks: seq<LocalCheck>, b: nat)
    requires b < |checks| && forall j | 0 <= j < b :: checks[j].targetKey != checks[b].targetKey
    ensures First(checks, checks[b].targetKey) == Some(checks[b])
  {
    FirstExactly(checks, checks[b].targetKey);
    hide First;
    assert checks[b] in checks;
  }

  lemma {:induction false} FirstCheckIsFirst(records: seq<Record>, a: nat, b: nat)
    requires FirstCheck(records, a, b)
    ensures
      var lc := records[a].localChecks[b];
      First(Checks(records), lc.targetKey) == Some(lc)
  {
    var n, lc := |records| - 1, records[a].localChecks[b];
    var front := Checks(records[..n]);
    FirstAppend(front, records[n].localChecks, lc.targetKey);
    if a < n {
      FirstCheckIsFirst(records[..n], a, b);
    } else {
      FirstAt(records[n].localChecks, b);
      NoneOccurs(records[..n], lc.targetKey);
    }
  }

  lemma NoneOccurs(records: seq<Record>, key: string)
    ensures First(Checks(records), key).None? <==>
            forall i, j | 0 <= i < |records| && 0 <= j < |records[i].localChecks| ::
              records[i].localChecks[j].targetKey != key
  {
    FirstExactly(Checks(records), key);
    hide First, Checks;
    forall x ensures x in Checks(records) <==> exists r | r in records :: x in r.localChecks {
      ChecksExactly(records, x);
    }
    if i, j :| 0 <= i < |records| && 0 <= j < |records[i].localChecks| && records[i].localChecks[j].targetKey == key {
      assert records[i] in records && records[i].localChecks[j] in records[i].localChecks;
      assert records[i].localChecks[j] in Checks(records);
    }
  }

  lemma {:induction false} FirstCheckExists(records: seq<Record>, i: nat, j: nat)
    requires i < |records| && j < |records[i].localChecks|
    ensures exists a: nat, b: nat :: FirstCheck(records, a, b) &&
              records[a].localChecks[b].targetKey == records[i].localChecks[j].targetKey
    decreases i, j
  {
    var key := records[i].localChecks[j].targetKey;
    if x: nat, y: nat :| x <= i && y < |records[x].localChecks| && (x < i || y < j)
                         && records[x].localChecks[y].targetKey == key {
      FirstCheckExists(records, x, y);
    } else {
      assert FirstCheck(records, i, j);
    }
  }

  ghost predicate Listed(records: seq<Record>, lc: LocalCheck) {
    exists r | r in records :: lc in r.localChecks
  }

  /** What the first check of a key makes of it: a target exactly if its probe
      type is recognised, with the prober that the check describes and its own
      fields, but for the interval. That is the least positive one over all
      checks of the key, and the check's own when none is positive. */
  lemma TargetsExactly(records: seq<Record>, hasLister: bool, a: nat, b: nat)
    requires FirstCheck(records, a, b)
    ensures
      var lc, out := records[a].localChecks[b], TargetsOf(records, hasLister);
      && (lc.targetKey in out <==> lc.probe == "tcp" || lc.probe == "http" || lc.probe == "k8s")
      && (lc.targetKey in out ==>
            var cfg, prober := out[lc.targetKey].config, out[lc.targetKey].prober;
            && cfg == lc.(intervalMs := cfg.intervalMs)
            && Listed(records, lc) && (cfg.intervalMs <= 0 ==> cfg.intervalMs == lc.intervalMs)
            && (exists x :: Listed(records, x) && x.targetKey == lc.targetKey && x.intervalMs == cfg.intervalMs)
            && (forall x | Listed(records, x) && x.targetKey == lc.targetKey && x.intervalMs > 0 ::
                  0 < cfg.intervalMs <= x.intervalMs)
            && (lc.probe == "tcp" ==> prober == Tcp(lc.host, lc.port))
            && (lc.probe == "http" ==> prober == Http(lc.host, lc.port, lc.path))
            && (lc.probe == "k8s" ==> prober == K8s(hasLister, lc.namespace, lc.service)))
  {
    var lc, out, checks := records[a].localChecks[b], TargetsOf(records, hasLister), Checks(records);
    FirstCheckIsFirst(records, a, b);
    TargetsAreMerged(records, hasLister, lc.targetKey);
    hide TargetsOf, Checks, First;
    forall x ensures x in checks <==> Listed(records, x) {
      ChecksExactly(records, x);
    }
    assert records[a] in records;
    if lc.targetKey in out {
      var x :| x in checks && x.targetKey == lc.targetKey && x.intervalMs == out[lc.targetKey].config.intervalMs;
      assert Listed(records, x);
    }
  }

  /** And no other key is a target. */
  lemma TargetsHaveChecks(records: seq<Record>, hasLister: bool, key: string)
    requires key in TargetsOf(records, hasLister)
    ensures exists a: nat, b: nat :: FirstCheck(records, a, b) && records[a].localChecks[b].targetKey == key
  {
    TargetsAreMerged(records, hasLister, key);
    NoneOccurs(records, key);
    var i, j :| 0 <= i < |records| && 0 <= j < |records[i].localChecks| && records[i].localChecks[j].targetKey == key;
    FirstCheckExists(records, i, j);
  }

  // ---- Order of the records ----

  /** Occurrences of a key agree apart from their intervals. */
  ghost predicate AgreeApartFromInterval(checks: seq<LocalCheck>) {
    forall a, b | a in checks && b in checks && a.targetKey == b.targetKey ::
      a.(intervalMs := b.intervalMs) == b
  }

  lemma {:induction false} ChecksExactly(records: seq<Record>, lc: LocalCheck)
    ensures lc in Checks(records) <==> exists r | r in records :: lc in r.localChecks
  {
    if records != [] {
      var n := |records| - 1;
      ChecksExactly(records[..n], lc);
      assert forall r :: r in records <==> r in records[..n] || r == records[n];
    }
  }

  /** Equal intervals, or two that both stand for the default. */
  ghost predicate SameInterval(x: LocalCheck, y: LocalCheck) {
    x.intervalMs == y.intervalMs || (x.intervalMs <= 0 && y.intervalMs <= 0)
  }

  ghost predicate SameTarget(x: Target, y: Target) {
    && x.config.(intervalMs := y.config.intervalMs) == y.config
    && SameInterval(x.config, y.config) && x.prober == y.prober
  }

  /** The two configurations of a key agree up to a default interval. */
  ghost predicate AlikeAt(a: map<string, LocalCheck>, b: map<string, LocalCheck>, key: string) {
    && (key in a <==> key in b)
    && (key in a ==> a[key].(intervalMs := b[key].intervalMs) == b[key] && SameInterval(a[key], b[key]))
  }

  lemma SameElementsMergeAlike(a: seq<LocalCheck>, b: seq<LocalCheck>, key: string)
    requires forall lc :: lc in a <==> lc in b
    requires AgreeApartFromInterval(a)
    ensures AlikeAt(Merge(a), Merge(b), key)
  {
    MergeExactly(a, key);
    MergeExactly(b, key);
    FirstExactly(a, key);
    FirstExactly(b, key);
    hide Merge, First;
  }

  /** If occurrences of a key agree apart from their intervals, permuting the
      records (or repeating them) changes no target: intervals may differ only
      when both stand for the default. */
  lemma OrderOfRecordsIsIrrelevant(a: seq<Record>, b: seq<Record>, hasLister: bool)
    requires forall r :: r in a <==> r in b
    requires AgreeApartFromInterval(Checks(a))
    ensures TargetsOf(a, hasLister).Keys == TargetsOf(b, hasLister).Keys
    ensures forall key | key in TargetsOf(a, hasLister) && key in TargetsOf(b, hasLister) ::
              SameTarget(TargetsOf(a, hasLister)[key], TargetsOf(b, hasLister)[key])
  {
    hide Merge, AlikeAt, Checks;
    forall lc ensures lc in Checks(a) <==> lc in Checks(b) {
      ChecksExactly(a, lc);
      ChecksExactly(b, lc);
    }
    forall key ensures AlikeAt(Merge(Checks(a)), Merge(Checks(b)), key) {
      SameElementsMergeAlike(Checks(a), Checks(b), key);
    }
    AlikeConfigsBuildAlike(Merge(Checks(a)), Merge(Checks(b)), hasLister);
  }

  lemma AlikeConfigsBuildAlike(a: map<string, LocalCheck>, b: map<string, LocalCheck>, hasLister: bool)
    requires forall key :: AlikeAt(a, b, key)
    ensures Build(a, hasLister).Keys == Build(b, hasLister).Keys
    ensures forall key | key in Build(a, hasLister) && key in Build(b, hasLister) ::
              SameTarget(Build(a, hasLister)[key], Build(b, hasLister)[key])
  {
    var x, y := Build(a, hasLister), Build(b, hasLister);
    forall key ensures key in x <==> key in y
               ensures key in x && key in y ==> SameTarget(x[key], y[key])
    {
      assert AlikeAt(a, b, key);
    }
  }
}
