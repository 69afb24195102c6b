/** Scheduling of probes and what it gives the health machine. Time is in
    nanoseconds. */
module ProbeRunner {
  import opened Bundles
  import opened Targets
  import M = Machine

  const MILLISECOND: int := 1_000_000

  function Interval(cfg: LocalCheck): int {
    (if cfg.intervalMs <= 0 then 1000 else cfg.intervalMs) * MILLISECOND
  }

  datatype Transition = Transition(key: string, health: M.Health, at: int)

  // ---- One key, one pass ----

  /** A key's schedule and health. */
  datatype KeyState = KeyState(last: Option<int>, target: M.TargetState)

  /** What one scheduling pass means for one key: the configuration it is
      listed with, if it is listed, and what a probe would find. */
  datatype Pass = Pass(now: int, cfg: Option<LocalCheck>, up: bool)

  ghost predicate Due(last: Option<int>, p: Pass) {
    p.cfg.Some? && (last.None? || p.now - last.value >= Interval(p.cfg.value))
  }

  ghost function ResultOf(p: Pass): M.Result
    requires p.cfg.Some?
  {
    M.Result(p.up, p.cfg.value.failureThreshold, p.cfg.value.recoveryThreshold)
  }

  ghost function PassStep(ks: KeyState, p: Pass): KeyState {
    if Due(ks.last, p) then KeyState(Some(p.now), M.Step(ks.target, ResultOf(p))) else ks
  }

  lemma UnlistedStays()
    ensures forall ks, p: Pass | p.cfg.None? :: PassStep(ks, p) == ks
  {
  }

  ghost function KeyAt(lastRun: map<string, int>, targets: map<string, M.TargetState>, key: string): KeyState {
    KeyState(if key in lastRun then Some(lastRun[key]) else None,
             if key in targets then targets[key] else M.FRESH)
  }

  ghost function PassFor(targets: map<string, Target>, up: string -> bool, now: int, key: string): Pass {
    Pass(now, if key in targets then Some(targets[key].config) else None, up(key))
  }

  // ---- The code, as it updates its state ----

  class Runner {
    const machine: M.StateMachine
    var lastRun: map<string, int>

    constructor ()
      ensures fresh(machine) && forall key :: View(key) == KeyRun([])
    {
      machine := new M.StateMachine();
      lastRun := map[];
    }

    ghost function View(key: string): KeyState
      reads this, machine
    {
      KeyAt(lastRun, machine.targets, key)
    }

    /** One scheduling pass. `up(key)` is what the key's probe finds in this
        pass; targets are visited in any order. */
    method RunOnce(targets: map<string, Target>, up: string -> bool, now: int)
      returns (fired: seq<Transition>)
      modifies this, machine
      ensures forall key :: View(key) == PassStep(old(View(key)), PassFor(targets, up, now, key))
      ensures forall i | 0 <= i < |fired| ::
                && fired[i].at == now && fired[i].health == View(fired[i].key).target.health
                && fired[i].health != old(View(fired[i].key)).target.health
      ensures forall key :: View(key).target.health != old(View(key)).target.health ==>
                exists i :: 0 <= i < |fired| && fired[i].key == key
      ensures forall i, j | 0 <= i < j < |fired| :: fired[i].key != fired[j].key
    {
      hide PassStep, M.Step;
      UnlistedStays();
      ghost var last0, states0 := lastRun, machine.targets;
      fired := [];
      var left := targets.Keys;
      while left != {}
        invariant left <= targets.Keys
        invariant forall key :: View(key) ==
                    if key in targets && key !in left
                    then PassStep(KeyAt(last0, states0, key), PassFor(targets, up, now, key))
                    else KeyAt(last0, states0, key)
        invariant FiredExactly(fired, last0, states0, lastRun, machine.targets, now)
        invariant forall i | 0 <= i < |fired| :: fired[i].key !in left
        decreases |left|
      {
        var key :| key in left;
        left := left - {key};
        ghost var last1, states1 := lastRun, machine.targets;
        assert KeyAt(last1, states1, key) == KeyAt(last0, states0, key);
        var fire := Probe(key, targets[key].config, up(key), now);
        assert View(key) == PassStep(KeyAt(last0, states0, key), PassFor(targets, up, now, key));
        FiredStep(fired, fire, last0, states0, last1, states1, lastRun, machine.targets, now, key);
        fired := fired + fire;
      }
    }

    /** The loop body: probe one listed target if it is due. */
    method Probe(key: string, cfg: LocalCheck, up: bool, now: int) returns (fired: seq<Transition>)
      modifies this, machine
      ensures View(key) == PassStep(old(View(key)), Pass(now, Some(cfg), up))
      ensures forall k | k != key :: View(k) == old(View(k))
      ensures fired == if View(key).target.health != old(View(key)).target.health
                       then [Transition(key, View(key).target.health, now)] else []
    {
      hide M.Step;
      var interval := cfg.intervalMs * MILLISECOND;
      if interval <= 0 {
        interval := 1000 * MILLISECOND;
      }
      if key in lastRun && now - lastRun[key] < interval {
        return [];
      }
      lastRun := lastRun[key := now];
      var transitioned, health :=
        machine.RecordResult(key, up, cfg.failureThreshold, cfg.recoveryThreshold);
      return if transitioned then [Transition(key, health, now)] else [];
    }
  }

  /** The fired transitions are exactly the changes of health so far. */
  ghost predicate FiredExactly(
    fired: seq<Transition>, last0: map<string, int>, states0: map<string, M.TargetState>,
    last: map<string, int>, states: map<string, M.TargetState>, now: int)
  {
    && (forall i | 0 <= i < |fired| ::
          && fired[i].at == now && fired[i].health == KeyAt(last, states, fired[i].key).target.health
          && fired[i].health != KeyAt(last0, states0, fired[i].key).target.health)
    && (forall key :: KeyAt(last, states, key).target.health != KeyAt(last0, states0, key).target.health ==>
          exists i :: 0 <= i < |fired| && fired[i].key == key)
    && (forall i, j | 0 <= i < j < |fired| :: fired[i].key != fired[j].key)
  }

  lemma FiredStep(
    fired: seq<Transition>, fire: seq<Transition>, last0: map<string, int>, states0: map<string, M.TargetState>,
    last1: map<string, int>, states1: map<string, M.TargetState>,
    last: map<string, int>, states: map<string, M.TargetState>, now: int, key: string)
    requires FiredExactly(fired, last0, states0, last1, states1, now)
    requires forall i | 0 <= i < |fired| :: fired[i].key != key
    requires KeyAt(last1, states1, key) == KeyAt(last0, states0, key)
    requires forall k | k != key :: KeyAt(last, states, k) == KeyAt(last1, states1, k)
    requires fire == if KeyAt(last, states, key).target.health != KeyAt(last1, states1, key).target.health
                     then [Transition(key, KeyAt(last, states, key).target.health, now)] else []
    ensures FiredExactly(fired + fire, last0, states0, last, states, now)
  {
    hide KeyAt;
    var all := fired + fire;
    forall k | KeyAt(last, states, k).target.health != KeyAt(last0, states0, k).target.health
      ensures exists i :: 0 <= i < |all| && all[i].key == k
    {
      if k == key {
        assert all[|fired|].key == key;
      } else {
        var i :| 0 <= i < |fired| && fired[i].key == k;
        assert all[i].key == k;
      }
    }
  }

  // ---- Whole runs ----

  ghost function KeyRun(ps: seq<Pass>): KeyState {
    if ps == [] then KeyState(None, M.FRESH) else PassStep(KeyRun(ps[..|ps| - 1]), ps[|ps| - 1])
  }

  /** The ticks of the runner's loop: the targets listed at each, and what
      their probes find. */
  datatype Tick = Tick(targets: map<string, Target>, up: string -> bool, now: int)

  ghost function PassesOf(ticks: seq<Tick>, key: string): seq<Pass> {
    seq(|ticks|, i requires 0 <= i < |ticks| => PassFor(ticks[i].targets, ticks[i].up, ticks[i].now, key))
  }

  /** The steady-state loop over any number of ticks: each key evolves by its
      own passes alone, whatever the order of visits and the other keys. */
  method Run(runner: Runner, ticks: seq<Tick>)
    requires forall key :: runner.View(key) == KeyRun([])
    modifies runner, runner.machine
    ensures forall key :: runner.View(key) == KeyRun(PassesOf(ticks, key))
  {
    hide PassStep, KeyAt;
    assert forall key :: PassesOf(ticks[..0], key) == [];
    for n := 0 to |ticks|
      invariant forall key :: runner.View(key) == KeyRun(PassesOf(ticks[..n], key))
    {
      var t := ticks[n];
      var _ := runner.RunOnce(t.targets, t.up, t.now);
      forall key ensures runner.View(key) == KeyRun(PassesOf(ticks[..n + 1], key)) {
        var ps := PassesOf(ticks[..n + 1], key);
        assert ps[..n] == PassesOf(ticks[..n], key);
        assert ps[n] == PassFor(t.targets, t.up, t.now, key);
      }
    }
    assert ticks[..|ticks|] == ticks;
  }

  /** The results a key's due passes feed to the machine. */
  ghost function Probes(ps: seq<Pass>): seq<M.Result> {
    if ps == [] then []
    else
      var n := |ps| - 1;
      if Due(KeyRun(ps[..n]).last, ps[n]) then Probes(ps[..n]) + [ResultOf(ps[n])] else Probes(ps[..n])
  }

  /** A key's health is the machine's reading of the results of its due passes. */
  lemma {:induction false} HealthReadsProbes(ps: seq<Pass>)
    ensures KeyRun(ps).target == M.Run(Probes(ps))
  {
    if ps != [] {
      hide M.Step, Due;
      var n := |ps| - 1;
      HealthReadsProbes(ps[..n]);
      var before := Probes(ps[..n]);
      if Due(KeyRun(ps[..n]).last, ps[n]) {
        assert (before + [ResultOf(ps[n])])[..|before|] == before;
      }
    }
  }

  // ---- Exactly when a pass probes ----

  /** Pass n completed a check cycle. */
  ghost predicate Probed(ps: seq<Pass>, n: nat)
    requires n < |ps|
  {
    KeyRun(ps[..n + 1]).target.cycles == KeyRun(ps[..n]).target.cycles + 1
  }

  /** Pass i is the last before pass n that completed a cycle. */
  ghost predicate LastProbed(ps: seq<Pass>, i: nat, n: nat)
    requires i < n <= |ps|
  {
    Probed(ps, i) && forall j | i < j < n :: !Probed(ps, j)
  }

  lemma NextPass(ps: seq<Pass>, n: nat)
    requires n < |ps|
    ensures KeyRun(ps[..n + 1]) == PassStep(KeyRun(ps[..n]), ps[n])
    ensures Probed(ps, n) <==> Due(KeyRun(ps[..n]).last, ps[n])
  {
    hide Due;
    assert ps[..n + 1][..n] == ps[..n];
  }

  lemma {:induction false} LastIsLastProbed(ps: seq<Pass>, n: nat)
    requires n <= |ps|
    ensures KeyRun(ps[..n]).last.None? ==> forall i | 0 <= i < n :: !Probed(ps, i)
    ensures KeyRun(ps[..n]).last.Some? ==>
              exists i | 0 <= i < n :: LastProbed(ps, i, n) && KeyRun(ps[..n]).last == Some(ps[i].now)
  {
    if n > 0 {
      hide KeyRun, Due, Probed;
      LastIsLastProbed(ps, n - 1);
      NextPass(ps, n - 1);
      if Probed(ps, n - 1) {
        assert LastProbed(ps, n - 1, n);
      } else if KeyRun(ps[..n]).last.Some? {
        var i :| 0 <= i < n - 1 && LastProbed(ps, i, n - 1) && KeyRun(ps[..n - 1]).last == Some(ps[i].now);
        assert LastProbed(ps, i, n);
      }
    } else {
      assert ps[..0] == [];
    }
  }

  /** A pass that lists the target completes a cycle exactly when none was
      completed before it, or the interval has passed since the last: intervalMs
      milliseconds, or one second when that is not positive. A pass that does not
      list it changes nothing. */
  lemma ProbedExactly(ps: seq<Pass>, n: nat)
    requires n < |ps|
    ensures ps[n].cfg.None? ==> KeyRun(ps[..n + 1]) == KeyRun(ps[..n])
    ensures ps[n].cfg.Some? ==>
              var ms := ps[n].cfg.value.intervalMs;
              Probed(ps, n) <==>
              forall i | 0 <= i < n && LastProbed(ps, i, n) ::
                ps[n].now - ps[i].now >= if ms > 0 then ms * 1_000_000 else 1_000_000_000
  {
    LastIsLastProbed(ps, n);
    NextPass(ps, n);
    hide KeyRun, Probed;
  }

  // ---- Bounded detection ----

  /** Probes made by passes at or after time s. */
  ghost function ProbesSince(ps: seq<Pass>, s: int): nat {
    if ps == [] then 0
    else
      var n := |ps| - 1;
      if ps[n].now >= s && Due(KeyRun(ps[..n]).last, ps[n])
      then ProbesSince(ps[..n], s) + 1 else ProbesSince(ps[..n], s)
  }

  /** The interval, in milliseconds or one second by default, and the failure
      threshold are at most these. */
  ghost predicate AtMost(cfg: LocalCheck, interval: int, f: nat) {
    && (if cfg.intervalMs > 0 then cfg.intervalMs * 1_000_000 <= interval else 1_000_000_000 <= interval)
    && cfg.failureThreshold <= f
  }

  /** Passes are in order, at most d apart from the first that matters on, and
      from time s on the target stays listed, with interval and failure
      threshold at most `interval` and f, and fails. */
  ghost predicate Outage(ps: seq<Pass>, s: int, interval: int, f: nat, d: nat) {
    && (forall i, j | 0 <= i <= j < |ps| :: ps[i].now <= ps[j].now)
    && (|ps| > 0 ==> ps[0].now <= s + d)
    && (forall i | 0 < i < |ps| && ps[i].now >= s :: ps[i].now - ps[i - 1].now <= d)
    && (forall i | 0 <= i < |ps| && ps[i].now >= s ::
          ps[i].cfg.Some? && !ps[i].up && AtMost(ps[i].cfg.value, interval, f))
  }

  ghost predicate OnSchedule(ks: KeyState, k: nat, now: int, s: int, interval: int, f: nat, d: nat) {
    && (ks.last.Some? ==> ks.last.value <= now && ks.last.value <= s + k * (interval + d))
    && (now >= s ==> ks.last.Some? && now < ks.last.value + interval)
    && (now < s ==> k == 0)
    && ks.target.consecFail >= k
    && (k >= f && k > 0 ==> ks.target.health == M.Unhealthy)
  }

  lemma ScheduleStep(ks: KeyState, k: nat, prev: int, p: Pass, s: int, interval: int, f: nat, d: nat)
    requires interval > 0 && f >= 1 && prev <= p.now
    requires OnSchedule(ks, k, prev, s, interval, f, d)
    requires p.now >= s ==>
               p.now - prev <= d && p.cfg.Some? && !p.up && AtMost(p.cfg.value, interval, f)
    ensures OnSchedule(PassStep(ks, p), if p.now >= s && Due(ks.last, p) then k + 1 else k,
                       p.now, s, interval, f, d)
  {
    hide Interval;
    assert (k + 1) * (interval + d) == k * (interval + d) + (interval + d);
    assert k * (interval + d) >= 0;
    if p.cfg.Some? {
      IntervalIs(p.cfg.value);
    }
  }

  lemma IntervalIs(cfg: LocalCheck)
    ensures Interval(cfg) == (if cfg.intervalMs > 0 then cfg.intervalMs * 1_000_000 else 1_000_000_000) > 0
  {
  }

  lemma {:induction false} OutageStaysOnSchedule(ps: seq<Pass>, s: int, interval: int, f: nat, d: nat)
    requires ps != [] && interval > 0 && f >= 1 && Outage(ps, s, interval, f, d)
    ensures OnSchedule(KeyRun(ps), ProbesSince(ps, s), ps[|ps| - 1].now, s, interval, f, d)
  {
    hide OnSchedule, PassStep, Due, Interval;
    var n := |ps| - 1;
    if n == 0 {
      FirstPass(ps, s, interval, f, d);
    } else {
      OutageStaysOnSchedule(ps[..n], s, interval, f, d);
      ScheduleStep(KeyRun(ps[..n]), ProbesSince(ps[..n], s), ps[n - 1].now, ps[n], s, interval, f, d);
    }
  }

  lemma FirstPass(ps: seq<Pass>, s: int, interval: int, f: nat, d: nat)
    requires |ps| == 1 && interval > 0 && f >= 1 && Outage(ps, s, interval, f, d)
    ensures OnSchedule(KeyRun(ps), ProbesSince(ps, s), ps[0].now, s, interval, f, d)
  {
    hide Interval;
    assert ps[..0] == [];
    assert KeyRun([]).last.None?;
  }

  /** Bounded detection: whatever happened before, a target that fails every
      probe from time s on, with passes at most d apart, interval at most I and
      failure threshold at most F, is Unhealthy at every time t from
      s + F * (I + d) on; `ps` are the passes made by then. */
  lemma DetectedInTime(ps: seq<Pass>, s: int, interval: int, f: nat, d: nat, t: int)
    requires ps != [] && interval > 0 && f >= 1 && Outage(ps, s, interval, f, d)
    requires ps[|ps| - 1].now <= t <= ps[|ps| - 1].now + d
    requires t >= s + f * (interval + d)
    ensures KeyRun(ps).target.health == M.Unhealthy
  {
    OutageStaysOnSchedule(ps, s, interval, f, d);
    hide KeyRun, ProbesSince, Outage;
    var now, k := ps[|ps| - 1].now, ProbesSince(ps, s);
    if now < s {
      MulMonotone(1, f, interval + d);
      assert false;
    }
    CannotLag(t, now, KeyRun(ps).last.value, s, k, f, interval, d);
  }

  lemma MulMonotone(x: int, y: int, z: int)
    requires x <= y && z >= 0
    ensures x * z <= y * z && z * x <= z * y
  {
  }

  lemma CannotLag(t: int, now: int, last: int, s: int, k: nat, f: nat, interval: int, d: nat)
    requires interval > 0 && s + f * (interval + d) <= t <= now + d
    requires now < last + interval && last <= s + k * (interval + d)
    ensures k >= f
  {
    if k < f {
      assert (k + 1) * (interval + d) == k * (interval + d) + (interval + d);
      MulMonotone(k + 1, f, interval + d);
    }
  }

  // ---- Spacing of transitions ----

  datatype Hop = Hop(health: M.Health, at: int)

  ghost function Hops(ps: seq<Pass>): seq<Hop> {
    if ps == [] then []
    else
      var n := |ps| - 1;
      var h := KeyRun(ps).target.health;
      if h != KeyRun(ps[..n]).target.health then Hops(ps[..n]) + [Hop(h, ps[n].now)] else Hops(ps[..n])
  }

  /** Every pass that lists the target asks for at least these; a second and
      one result are the defaults. */
  ghost predicate AtLeast(ps: seq<Pass>, interval: int, f: nat, r: nat) {
    forall i | 0 <= i < |ps| && ps[i].cfg.Some? ::
      var cfg := ps[i].cfg.value;
      && (if cfg.intervalMs > 0 then cfg.intervalMs * 1_000_000 else 1_000_000_000) >= interval
      && (cfg.failureThreshold >= f || f <= 1) && (cfg.recoveryThreshold >= r || r <= 1)
  }

  /** The run against the present health began after the last transition, and
      each of its probes came an interval after the one before. */
  ghost predicate RunSince(ks: KeyState, at: int, interval: int) {
    && ks.last.Some? && ks.target.health != M.Unknown
    && ks.last.value - at >=
       interval * (if ks.target.health == M.Healthy then ks.target.consecFail else ks.target.consecSuccess)
  }

  lemma RunStep(ks: KeyState, p: Pass, at: int, interval: int, f: nat, r: nat)
    requires interval >= 0 && RunSince(ks, at, interval) && AtLeast([p], interval, f, r)
    ensures
      var ks' := PassStep(ks, p);
      if ks'.target.health == ks.target.health then RunSince(ks', at, interval)
      else RunSince(ks', p.now, interval)
           && p.now - at >= interval * (if ks'.target.health == M.Healthy then r else f)
  {
    hide Interval;
    assert [p][0] == p;
    if Due(ks.last, p) {
      IntervalIs(p.cfg.value);
      var n := if ks.target.health == M.Healthy then ks.target.consecFail else ks.target.consecSuccess;
      assert interval * (n + 1) == interval * n + interval;
      MulMonotone(0, n, interval);
      MulMonotone(if p.up then r else f, M.Needed(ResultOf(p)), interval);
      if n + 1 >= M.Needed(ResultOf(p)) {
        MulMonotone(M.Needed(ResultOf(p)), n + 1, interval);
      }
    }
  }

  lemma FirstHop(ks: KeyState, p: Pass, interval: int)
    requires ks.target.health == M.Unknown
    ensures PassStep(ks, p).target.health != M.Unknown ==> RunSince(PassStep(ks, p), p.now, interval)
  {
    hide Interval;
  }

  lemma {:induction false} HopsFollowHealth(ps: seq<Pass>)
    ensures Hops(ps) == [] <==> KeyRun(ps).target.health == M.Unknown
    ensures Hops(ps) != [] ==> Hops(ps)[|Hops(ps)| - 1].health == KeyRun(ps).target.health
  {
    if ps != [] {
      hide Due;
      HopsFollowHealth(ps[..|ps| - 1]);
    }
  }

  /** Consecutive transitions of a key alternate, and are at least the
      threshold of the second direction times the interval apart. */
  lemma {:induction false} TransitionsAreSpaced(ps: seq<Pass>, interval: int, f: nat, r: nat)
    requires interval >= 0 && AtLeast(ps, interval, f, r)
    ensures Hops(ps) != [] ==> RunSince(KeyRun(ps), Hops(ps)[|Hops(ps)| - 1].at, interval)
    ensures forall i | 0 < i < |Hops(ps)| ::
              && Hops(ps)[i].health != Hops(ps)[i - 1].health
              && Hops(ps)[i].at - Hops(ps)[i - 1].at >= interval * (if Hops(ps)[i].health == M.Healthy then r else f)
  {
    if ps != [] {
      hide RunSince, PassStep, Interval;
      var n := |ps| - 1;
      TransitionsAreSpaced(ps[..n], interval, f, r);
      HopsFollowHealth(ps[..n]);
      HopsFollowHealth(ps);
      var hops := Hops(ps[..n]);
      if hops == [] {
        FirstHop(KeyRun(ps[..n]), ps[n], interval);
      } else {
        RunStep(KeyRun(ps[..n]), ps[n], hops[|hops| - 1].at, interval, f, r);
      }
    }
  }

  // ---- Targets that leave the list ----

  lemma {:induction false} UnlistedPassesKeepState(ps: seq<Pass>, gap: seq<Pass>)
    requires forall i | 0 <= i < |gap| :: gap[i].cfg.None?
    ensures KeyRun(ps + gap) == KeyRun(ps)
  {
    if gap == [] {
      assert ps + gap == ps;
    } else {
      var n := |gap| - 1;
      UnlistedPassesKeepState(ps, gap[..n]);
      assert (ps + gap)[..|ps + gap| - 1] == ps + gap[..n];
    }
  }

  lemma StepCounts(t: M.TargetState, r: M.Result)
    ensures M.Step(t, r).cycles == t.cycles + 1
  {
  }

  /** Neither the schedule nor the counters of a removed target are forgotten:
      the pass that lists it again does what it would have done had the target
      stayed, and completes a cycle exactly when the interval has passed since
      the last probe before the removal, not at once. */
  lemma RemovedTargetKeepsSchedule(ps: seq<Pass>, gap: seq<Pass>, back: Pass)
    requires forall i | 0 <= i < |gap| :: gap[i].cfg.None?
    requires back.cfg.Some?
    ensures KeyRun(ps + gap + [back]) == PassStep(KeyRun(ps), back)
    ensures
      var last := KeyRun(ps).last;
      KeyRun(ps + gap + [back]).target.cycles == KeyRun(ps).target.cycles + 1 <==>
      var ms := back.cfg.value.intervalMs;
      last.None? || back.now - last.value >= if ms > 0 then ms * 1_000_000 else 1_000_000_000
  {
    hide Interval, M.Step;
    IntervalIs(back.cfg.value);
    StepCounts(KeyRun(ps).target, ResultOf(back));
    UnlistedPassesKeepState(ps, gap);
    assert (ps + gap + [back])[..|ps + gap|] == ps + gap;
  }

  /** The comment's "due immediately" and "forgotten" both fail: a target with
      failure threshold 2 fails once, leaves the list, is listed again within
      its interval and is not probed; one more failure after the interval
      makes it Unhealthy, the two failures counting as consecutive. */
  lemma ReturningTargetIsNotFresh(cfg: LocalCheck, up: bool, recovered: bool)
    requires cfg.failureThreshold == 2
    ensures
      var fail, gone := Pass(0, Some(cfg), false), Pass(1, None, up);
      var interval := if cfg.intervalMs > 0 then cfg.intervalMs * 1_000_000 else 1_000_000_000;
      var soon, later := Pass(2, Some(cfg), recovered), Pass(interval, Some(cfg), false);
      && KeyRun([fail, gone, soon]) == KeyRun([fail])
      && KeyRun([fail, gone, soon, later]).target.health == M.Unhealthy
  {
    var fail, gone := Pass(0, Some(cfg), false), Pass(1, None, up);
    var soon, later := Pass(2, Some(cfg), recovered), Pass(Interval(cfg), Some(cfg), false);
    IntervalIs(cfg);
    RemovedTargetKeepsSchedule([fail], [gone], soon);
    assert [fail] + [gone] + [soon] == [fail, gone, soon];
    assert [fail, gone, soon, later][..3] == [fail, gone, soon] && [fail][..0] == [];
    assert KeyRun([fail]) == KeyState(Some(0), M.TargetState(M.Unknown, 0, 1, 1));
  }

  // ---- A k8s check without a lister ----

  /** A probe of this prober can find `up`, whatever the endpoints ready now. */
  ghost predicate CanFind(p: Prober, up: bool) {
    p.K8s? && exists ready: nat :: up == ProbeK8s(p, ready)
  }

  ghost predicate FirstCheckIsK8s(records: seq<Record>, key: string) {
    exists a: nat, b: nat :: FirstCheck(records, a, b) &&
      records[a].localChecks[b].targetKey == key && records[a].localChecks[b].probe == "k8s"
  }

  /** From s on tick i's targets are built without a lister from some records
      whose first check of the key is a k8s check; they may change from tick
      to tick within these bounds. */
  ghost predicate ListsK8s(tick: Tick, records: seq<Record>, key: string, interval: int, f: nat) {
    && tick.targets == TargetsOf(records, false) && FirstCheckIsK8s(records, key)
    && (key in tick.targets ==>
          && AtMost(tick.targets[key].config, interval, f)
          && CanFind(tick.targets[key].prober, tick.up(key)))
  }

  /** A key whose first check is a k8s check is built without a lister, not
      skipped; and whatever its endpoints do, every run whose bundles list it
      from s on, with interval at most I and threshold at most F, makes it
      Unhealthy by s + F * (I + d). */
  lemma ListerlessK8sGoesDown(ticks: seq<Tick>, records: seq<seq<Record>>, key: string,
                              s: int, interval: int, f: nat, d: nat, t: int)
    requires ticks != [] && |records| == |ticks| && ticks[0].now <= s + d && interval > 0 && f >= 1
    requires forall i, j | 0 <= i <= j < |ticks| :: ticks[i].now <= ticks[j].now
    requires forall i | 0 < i < |ticks| && ticks[i].now >= s :: ticks[i].now - ticks[i - 1].now <= d
    requires forall i | 0 <= i < |ticks| && ticks[i].now >= s :: ListsK8s(ticks[i], records[i], key, interval, f)
    requires ticks[|ticks| - 1].now <= t <= ticks[|ticks| - 1].now + d
    ensures forall i | 0 <= i < |ticks| && ticks[i].now >= s :: key in ticks[i].targets
    ensures t >= s + f * (interval + d) ==> KeyRun(PassesOf(ticks, key)).target.health == M.Unhealthy
  {
    var ps := PassesOf(ticks, key);
    hide TargetsOf, Interval, KeyRun, CanFind, ListsK8s;
    forall i | 0 <= i < |ticks| && ticks[i].now >= s
      ensures key in ticks[i].targets && ps[i].cfg == Some(ticks[i].targets[key].config) && !ps[i].up
      ensures AtMost(ticks[i].targets[key].config, interval, f)
    {
      ListedFails(ticks[i], records[i], key, interval, f);
    }
    if t >= s + f * (interval + d) {
      assert Outage(ps, s, interval, f, d);
      DetectedInTime(ps, s, interval, f, d, t);
    }
  }

  lemma ListedFails(tick: Tick, records: seq<Record>, key: string, interval: int, f: nat)
    requires ListsK8s(tick, records, key, interval, f)
    ensures key in tick.targets && !tick.up(key)
    ensures AtMost(tick.targets[key].config, interval, f)
  {
    BuiltWithoutLister(records, key);
    hide TargetsOf, CanFind, Interval;
  }

  lemma BuiltWithoutLister(records: seq<Record>, key: string)
    requires FirstCheckIsK8s(records, key)
    ensures
      var targets := TargetsOf(records, false);
      key in targets && forall up :: CanFind(targets[key].prober, up) ==> !up
  {
    var a: nat, b: nat :| FirstCheck(records, a, b) && records[a].localChecks[b].targetKey == key
                          && records[a].localChecks[b].probe == "k8s";
    TargetsExactly(records, false, a, b);
    hide TargetsOf, FirstCheck, Listed;
  }
}
