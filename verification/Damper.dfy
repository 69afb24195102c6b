/** Flap damping of one record's answer set. Time is in nanoseconds. */
module Damping {
  import opened Bundles
  import opened Answers

  const WINDOW: int := 600_000_000_000
  const THRESHOLD: int := 3
  const QUIET: int := 1_200_000_000_000

  /** One record's damping bookkeeping. */
  datatype DampState = DampState(
    served: seq<Answer>, changeLog: seq<int>, frozen: bool, lastSuppressed: int)

  // ---- What one evaluation does, as functions ----

  /** The logged times still inside the rolling window that ends at `now`. */
  ghost function Prune(ts: seq<int>, now: int): seq<int> {
    if ts == [] then []
    else
      var n := |ts| - 1;
      if ts[n] > now - WINDOW then Prune(ts[..n], now) + [ts[n]] else Prune(ts[..n], now)
  }

  ghost function Unfreeze(rs: DampState, now: int): DampState {
    if rs.frozen && now - rs.lastSuppressed >= QUIET
    then rs.(frozen := false, changeLog := [])
    else rs
  }

  /** A differing, non-forced candidate meets an unfrozen record. */
  ghost function Admit(rs: DampState, candidate: seq<Answer>, now: int): DampState {
    var tentative := Prune(rs.changeLog + [now], now);
    if |tentative| > THRESHOLD
    then rs.(frozen := true, lastSuppressed := now)
    else rs.(changeLog := tentative, served := candidate)
  }

  /** One call of `Evaluate` for a name; the served set of the new state is
      the set returned to the caller. */
  datatype Call = Call(candidate: seq<Answer>, forced: bool, now: int)

  ghost function Step(prev: Option<DampState>, c: Call): DampState {
    match prev
    case None => DampState(c.candidate, [], false, 0)
    case Some(rs0) =>
      var rs := Unfreeze(rs0, c.now);
      if Same(rs.served, c.candidate) then rs
      else if c.forced then rs.(served := c.candidate)
      else if rs.frozen then rs.(lastSuppressed := c.now)
      else Admit(rs, c.candidate, c.now)
  }

  /** Every call either serves the candidate set or keeps the set it served. */
  lemma ServesNewOrOld(prev: Option<DampState>, c: Call)
    ensures Same(Step(prev, c).served, c.candidate)
            || (prev.Some? && Step(prev, c).served == prev.value.served)
  {
    hide Prune;
  }

  /** A forced call always serves the candidate set, frozen or not. */
  lemma ForcedAlwaysServed(prev: Option<DampState>, c: Call)
    requires c.forced
    ensures Same(Step(prev, c).served, c.candidate)
  {
  }

  lemma SameAlwaysServed(prev: Option<DampState>, c: Call)
    requires prev.Some? ==> Same(prev.value.served, c.candidate)
    ensures Same(Step(prev, c).served, c.candidate)
  {
  }

  // ---- The code, as it updates its state ----

  /** Compacts `ts` in place and returns how many entries it kept. */
  method PruneWindow(ts: array<int>, now: int) returns (kept: nat)
    modifies ts
    ensures kept <= ts.Length
    ensures ts[..kept] == Prune(old(ts[..]), now)
  {
    hide Prune;
    ghost var was := ts[..];
    assert Prune([], now) == [] by {
      PruneOld([], now);
    }
    var cutoff := now - WINDOW;
    kept := 0;
    for i := 0 to ts.Length
      invariant kept <= i
      invariant ts[..kept] == Prune(was[..i], now)
      invariant ts[i..] == was[i..]
    {
      ghost var done := ts[..kept];
      assert ts[i] == was[i];
      assert was[..i + 1] == was[..i] + [was[i]];
      PruneAppend(was[..i], was[i], now);
      if ts[i] > cutoff {
        ts[kept] := ts[i];
        kept := kept + 1;
        assert ts[..kept] == done + [was[i]];
      }
      assert ts[i + 1..] == was[i + 1..];
    }
    assert was[..ts.Length] == was;
  }

  /** Copies the log with `now` appended into a fresh buffer and prunes that. */
  method LogWithin(changeLog: seq<int>, now: int) returns (tentative: seq<int>)
    ensures tentative == Prune(changeLog + [now], now)
  {
    var log := changeLog + [now];
    var buffer := new int[|log|](i requires 0 <= i < |log| => log[i]);
    assert buffer[..] == log;
    var kept := PruneWindow(buffer, now);
    tentative := buffer[..kept];
  }

  class Damper {
    var records: map<string, DampState>

    constructor ()
      ensures records == map[]
    {
      records := map[];
    }

    /** The state of one name, if the damper has seen it. */
    ghost function StateOf(fqdn: string): Option<DampState>
      reads this
    {
      if fqdn in records then Some(records[fqdn]) else None
    }

    method Evaluate(fqdn: string, candidate: seq<Answer>, forced: bool, now: int)
      returns (served: seq<Answer>)
      modifies this
      ensures records == old(records)[fqdn := Step(old(StateOf(fqdn)), Call(candidate, forced, now))]
      ensures served == records[fqdn].served
    {
      hide Same, Prune;
      if fqdn !in records {
        records := records[fqdn := DampState(candidate, [], false, 0)];
        return candidate;
      }
      MaybeAutoUnfreeze(fqdn, now);
      var rs := records[fqdn];
      var equal := AnswerSetEqual(rs.served, candidate);
      if equal {
        return rs.served;
      }
      if forced {
        records := records[fqdn := rs.(served := candidate)];
        return candidate;
      }
      if rs.frozen {
        records := records[fqdn := rs.(lastSuppressed := now)];
        return rs.served;
      }
      var tentative := LogWithin(rs.changeLog, now);
      if |tentative| > THRESHOLD {
        records := records[fqdn := rs.(frozen := true, lastSuppressed := now)];
        return rs.served;
      }
      records := records[fqdn := rs.(changeLog := tentative, served := candidate)];
      return candidate;
    }

    method MaybeAutoUnfreeze(fqdn: string, now: int)
      requires fqdn in records
      modifies this
      ensures records == old(records)[fqdn := Unfreeze(old(records)[fqdn], now)]
    {
      var rs := records[fqdn];
      if !rs.frozen {
        return;
      }
      if now - rs.lastSuppressed >= QUIET {
        records := records[fqdn := rs.(frozen := false, changeLog := [])];
      }
    }
  }

  // ---- Whole runs of one name ----

  ghost predicate Monotone(trace: seq<Call>) {
    forall i, j | 0 <= i <= j < |trace| :: trace[i].now <= trace[j].now
  }

  ghost function Run(trace: seq<Call>): Option<DampState> {
    if trace == [] then None
    else Some(Step(Run(trace[..|trace| - 1]), trace[|trace| - 1]))
  }

  /** How many of the times fall in [lo, hi). */
  ghost function CountIn(ts: seq<int>, lo: int, hi: int): nat {
    if ts == [] then 0
    else
      var n := |ts| - 1;
      if lo <= ts[n] < hi then CountIn(ts[..n], lo, hi) + 1 else CountIn(ts[..n], lo, hi)
  }

  /** The times of the non-forced calls that changed the served set, read off
      the served sets alone. */
  ghost function ChangeTimes(trace: seq<Call>): seq<int> {
    if |trace| <= 1 then []
    else
      var n := |trace| - 1;
      ChangeTimes(trace[..n]) +
      if !trace[n].forced && !Same(Run(trace[..n]).value.served, Run(trace).value.served)
      then [trace[n].now] else []
  }

  // ---- A damper that never forgets ----

  /** Keeps every accepted change for ever: no pruning, no clearing. */
  datatype RefState = RefState(
    served: seq<Answer>, history: seq<int>, frozen: bool, lastSuppressed: int)

  ghost function RefStep(prev: Option<RefState>, c: Call): RefState {
    match prev
    case None => RefState(c.candidate, [], false, 0)
    case Some(rs) =>
      var frozen := rs.frozen && c.now - rs.lastSuppressed < QUIET;
      if Same(rs.served, c.candidate) then rs.(frozen := frozen)
      else if c.forced then rs.(served := c.candidate, frozen := frozen)
      else if frozen || CountIn(rs.history, c.now - WINDOW + 1, c.now + 1) >= THRESHOLD
      then rs.(frozen := true, lastSuppressed := c.now)
      else rs.(served := c.candidate, history := rs.history + [c.now], frozen := false)
  }

  ghost function RefRun(trace: seq<Call>): Option<RefState> {
    if trace == [] then None
    else Some(RefStep(RefRun(trace[..|trace| - 1]), trace[|trace| - 1]))
  }

  // ---- Facts about pruning and counting ----

  lemma {:induction false} PruneAppend(a: seq<int>, t: int, now: int)
    ensures Prune(a + [t], now) == if t > now - WINDOW then Prune(a, now) + [t] else Prune(a, now)
  {
    assert (a + [t])[..|a|] == a;
  }

  /** Pruning now and again later equals pruning later. */
  lemma {:induction false} PruneLater(a: seq<int>, t: int, now: int)
    requires t <= now
    ensures Prune(Prune(a, t), now) == Prune(a, now)
  {
    if a != [] {
      var n := |a| - 1;
      PruneLater(a[..n], t, now);
      if a[n] > t - WINDOW {
        PruneAppend(Prune(a[..n], t), a[n], now);
      } else {
        assert Prune(a, t) == Prune(a[..n], t);
      }
    }
  }

  lemma {:induction false} PruneOld(a: seq<int>, now: int)
    requires forall i | 0 <= i < |a| :: a[i] <= now - WINDOW
    ensures Prune(a, now) == []
  {
    if a != [] {
      PruneOld(a[..|a| - 1], now);
    }
  }

  lemma {:induction false} PruneCounts(a: seq<int>, now: int)
    requires forall i | 0 <= i < |a| :: a[i] <= now
    ensures |Prune(a, now)| == CountIn(a, now - WINDOW + 1, now + 1)
  {
    if a != [] {
      PruneCounts(a[..|a| - 1], now);
    }
  }

  lemma {:induction false} CountMonotone(a: seq<int>, lo: int, hi: int, lo': int, hi': int)
    requires forall i | 0 <= i < |a| :: lo <= a[i] < hi ==> lo' <= a[i] < hi'
    ensures CountIn(a, lo, hi) <= CountIn(a, lo', hi')
  {
    if a != [] {
      CountMonotone(a[..|a| - 1], lo, hi, lo', hi');
    }
  }

  lemma CountAppend(a: seq<int>, t: int, lo: int, hi: int)
    ensures CountIn(a + [t], lo, hi) == CountIn(a, lo, hi) + if lo <= t < hi then 1 else 0
  {
    assert (a + [t])[..|a|] == a;
  }

  // ---- Refinement ----

  /** The pruned and cleared log agrees with the full history at time `t` and
      so at every later time; while frozen nothing in the history is later
      than the last suppressed attempt. */
  ghost predicate Related(c: DampState, r: RefState, t: int) {
    && c.served == r.served
    && c.frozen == r.frozen
    && c.lastSuppressed == r.lastSuppressed
    && Prune(c.changeLog, t) == Prune(r.history, t)
    && (forall i | 0 <= i < |r.history| :: r.history[i] <= t)
    && (c.frozen ==> forall i | 0 <= i < |r.history| :: r.history[i] <= c.lastSuppressed)
  }

  lemma UnfreezeKeepsLog(c: DampState, r: RefState, t: int, now: int)
    requires Related(c, r, t) && t <= now
    ensures Prune(Unfreeze(c, now).changeLog, now) == Prune(r.history, now)
  {
    PruneLater(c.changeLog, t, now);
    PruneLater(r.history, t, now);
    if c.frozen && now - c.lastSuppressed >= QUIET {
      PruneOld(r.history, now);
    }
  }

  lemma LogsAgreeAfterAppend(log: seq<int>, history: seq<int>, now: int)
    requires Prune(log, now) == Prune(history, now)
    ensures Prune(Prune(log + [now], now), now) == Prune(history + [now], now)
    ensures |Prune(log + [now], now)| == |Prune(history, now)| + 1
  {
    PruneAppend(log, now, now);
    PruneAppend(history, now, now);
    PruneLater(log + [now], now, now);
  }

  lemma AdmitRelated(c: DampState, r: RefState, candidate: seq<Answer>, now: int)
    requires !c.frozen && !r.frozen && c.served == r.served && c.lastSuppressed == r.lastSuppressed
    requires Prune(c.changeLog, now) == Prune(r.history, now)
    requires forall i | 0 <= i < |r.history| :: r.history[i] <= now
    ensures
      var r' := if CountIn(r.history, now - WINDOW + 1, now + 1) >= THRESHOLD
                then r.(frozen := true, lastSuppressed := now)
                else r.(served := candidate, history := r.history + [now], frozen := false);
      Related(Admit(c, candidate, now), r', now)
  {
    LogsAgreeAfterAppend(c.changeLog, r.history, now);
    PruneCounts(r.history, now);
  }

  lemma StepRelated(c: DampState, r: RefState, t: int, call: Call)
    requires Related(c, r, t) && t <= call.now
    ensures Related(Step(Some(c), call), RefStep(Some(r), call), call.now)
  {
    hide Same, Prune, CountIn;
    UnfreezeKeepsLog(c, r, t, call.now);
    var c', r' := Unfreeze(c, call.now), r.(frozen := Unfreeze(c, call.now).frozen);
    assert Related(c', r', call.now);
    if Same(c.served, call.candidate) {
      assert Step(Some(c), call) == c' && RefStep(Some(r), call) == r';
    } else if call.forced {
      assert Step(Some(c), call) == c'.(served := call.candidate);
    } else if c'.frozen {
      assert Step(Some(c), call) == c'.(lastSuppressed := call.now);
    } else {
      assert Step(Some(c), call) == Admit(c', call.candidate, call.now);
      AdmitRelated(c', r', call.candidate, call.now);
    }
  }

  lemma {:induction false} RunsRelated(trace: seq<Call>)
    requires trace != [] && Monotone(trace)
    ensures Related(Run(trace).value, RefRun(trace).value, trace[|trace| - 1].now)
  {
    var n := |trace| - 1;
    if n > 0 {
      RunsRelated(trace[..n]);
      StepRelated(Run(trace[..n]).value, RefRun(trace[..n]).value, trace[n - 1].now, trace[n]);
    }
  }

  /** On every trace with a non-decreasing clock, the damper that prunes and
      clears its log serves the set, and is frozen, exactly when the damper
      that keeps the full history is. */
  lemma RefinesFullHistory(trace: seq<Call>, k: nat)
    requires Monotone(trace) && 0 < k <= |trace|
    ensures Run(trace[..k]).value.served == RefRun(trace[..k]).value.served
    ensures Run(trace[..k]).value.frozen == RefRun(trace[..k]).value.frozen
    ensures Run(trace[..k]).value.lastSuppressed == RefRun(trace[..k]).value.lastSuppressed
  {
    RunsRelated(trace[..k]);
  }

  // ---- Rate bound ----

  lemma RefStepHistory(r: RefState, c: Call)
    ensures
      var r' := RefStep(Some(r), c);
      if !c.forced && !Same(r.served, r'.served)
      then r'.history == r.history + [c.now]
           && CountIn(r.history, c.now - WINDOW + 1, c.now + 1) < THRESHOLD
      else r'.history == r.history
  {
    hide CountIn;
  }

  /** The reference history is exactly the observed change times. */
  lemma {:induction false} HistoryIsObserved(trace: seq<Call>)
    requires trace != [] && Monotone(trace)
    ensures RefRun(trace).value.history == ChangeTimes(trace)
  {
    var n := |trace| - 1;
    if n > 0 {
      hide Same, Prune, CountIn, Step, RefStep;
      HistoryIsObserved(trace[..n]);
      RunsRelated(trace[..n]);
      RunsRelated(trace);
      RefStepHistory(RefRun(trace[..n]).value, trace[n]);
    }
  }

  lemma WindowAppend(h: seq<int>, now: int, w: int)
    requires forall i | 0 <= i < |h| :: h[i] <= now
    requires CountIn(h, w, w + WINDOW) <= THRESHOLD
    requires CountIn(h, now - WINDOW + 1, now + 1) < THRESHOLD
    ensures CountIn(h + [now], w, w + WINDOW) <= THRESHOLD
  {
    CountAppend(h, now, w, w + WINDOW);
    if w <= now < w + WINDOW {
      CountMonotone(h, w, w + WINDOW, now - WINDOW + 1, now + 1);
    }
  }

  lemma RefStepRate(prev: Option<RefState>, c: Call, w: int)
    requires prev.Some? ==> forall i | 0 <= i < |prev.value.history| :: prev.value.history[i] <= c.now
    requires prev.Some? ==> CountIn(prev.value.history, w, w + WINDOW) <= THRESHOLD
    ensures CountIn(RefStep(prev, c).history, w, w + WINDOW) <= THRESHOLD
  {
    if prev.Some? {
      hide Same, CountIn;
      RefStepHistory(prev.value, c);
      if RefStep(prev, c).history != prev.value.history {
        WindowAppend(prev.value.history, c.now, w);
      }
    }
  }

  lemma {:induction false} RefRateBound(trace: seq<Call>, w: int)
    requires trace != [] && Monotone(trace)
    ensures CountIn(RefRun(trace).value.history, w, w + WINDOW) <= THRESHOLD
  {
    hide Same, Prune, CountIn, RefStep, Step;
    var n := |trace| - 1;
    if n > 0 {
      RefRateBound(trace[..n], w);
      RunsRelated(trace[..n]);
    }
    RefStepRate(RefRun(trace[..n]), trace[n], w);
  }

  /** Every half-open 10-minute window of every run holds at most three
      accepted non-forced changes, across freezes, forced moves and the log
      clearing on unfreeze. */
  lemma RateBound(trace: seq<Call>, w: int)
    requires Monotone(trace)
    ensures CountIn(ChangeTimes(trace), w, w + 600_000_000_000) <= 3
  {
    if trace != [] {
      RefRateBound(trace, w);
      HistoryIsObserved(trace);
    }
  }

  /** A non-forced differing candidate is applied exactly when the record is
      not frozen, or has been quiet for 20 minutes, and fewer than three
      changes were observed in the 10 minutes that end now. */
  lemma AppliedExactly(trace: seq<Call>, c: Call)
    requires trace != [] && Monotone(trace + [c]) && !c.forced
    requires !Same(Run(trace).value.served, c.candidate)
    ensures
      var rs := Run(trace).value;
      Same(Run(trace + [c]).value.served, c.candidate) <==>
      && (rs.frozen ==> c.now - rs.lastSuppressed >= 1_200_000_000_000)
      && CountIn(ChangeTimes(trace), c.now - 600_000_000_000 + 1, c.now + 1) < 3
  {
    hide Same, Prune, CountIn, ChangeTimes, Step, RefStep;
    var whole := trace + [c];
    assert whole[..|trace|] == trace;
    MonotonePrefix(trace, c);
    RunsRelated(trace);
    RunsRelated(whole);
    HistoryIsObserved(trace);
    RefStepApplies(RefRun(trace).value, c);
  }

  lemma MonotonePrefix(trace: seq<Call>, c: Call)
    requires Monotone(trace + [c])
    ensures Monotone(trace)
  {
    var whole := trace + [c];
    assert forall i | 0 <= i < |trace| :: whole[i] == trace[i];
  }

  lemma RefStepApplies(r: RefState, c: Call)
    requires !c.forced && !Same(r.served, c.candidate)
    ensures
      Same(RefStep(Some(r), c).served, c.candidate) <==>
      && (r.frozen ==> c.now - r.lastSuppressed >= QUIET)
      && CountIn(r.history, c.now - WINDOW + 1, c.now + 1) < THRESHOLD
  {
    hide CountIn;
  }

  // ---- Quiet period ----

  /** The same differing candidate, offered without force at each of `times`. */
  ghost function Offers(rs: DampState, candidate: seq<Answer>, times: seq<int>): DampState {
    if times == [] then rs
    else
      var n := |times| - 1;
      Step(Some(Offers(rs, candidate, times[..n])), Call(candidate, false, times[n]))
  }

  /** No offer comes 20 minutes or more after the one before it; the first is
      measured from `start`. */
  ghost predicate AlwaysSooner(start: int, times: seq<int>) {
    forall i | 0 <= i < |times| :: Gap(start, times, i) < 1_200_000_000_000
  }

  ghost function Gap(start: int, times: seq<int>, i: nat): int
    requires i < |times|
  {
    times[i] - if i == 0 then start else times[i - 1]
  }

  lemma AlwaysSoonerAppend(start: int, times: seq<int>)
    requires times != []
    ensures
      var n := |times| - 1;
      AlwaysSooner(start, times) <==>
      AlwaysSooner(start, times[..n]) && Gap(start, times, n) < QUIET
  {
    var front := times[..|times| - 1];
    if AlwaysSooner(start, times) {
      forall i | 0 <= i < |front| ensures Gap(start, front, i) < QUIET {
        assert Gap(start, times, i) < QUIET;
      }
    }
    if AlwaysSooner(start, front) {
      forall i | 0 <= i < |times| - 1 ensures Gap(start, times, i) < QUIET {
        assert Gap(start, front, i) < QUIET;
      }
    }
  }

  /** A suppressed attempt restarts the quiet clock: a frozen record offered a
      steady differing candidate keeps its old answers exactly as long as no
      gap between attempts reaches 20 minutes. */
  lemma {:induction false} FrozenWhileOfferedOften(rs: DampState, candidate: seq<Answer>, times: seq<int>)
    requires rs.frozen && !Same(rs.served, candidate)
    ensures
      var r := Offers(rs, candidate, times);
      if AlwaysSooner(rs.lastSuppressed, times)
      then r.served == rs.served && r.frozen
           && r.lastSuppressed == (if times == [] then rs.lastSuppressed else times[|times| - 1])
      else Same(r.served, candidate) && !r.frozen
  {
    if times != [] {
      var n := |times| - 1;
      FrozenWhileOfferedOften(rs, candidate, times[..n]);
      var before := Offers(rs, candidate, times[..n]);
      AlwaysSoonerAppend(rs.lastSuppressed, times);
      PruneAppend([], times[n], times[n]);
    }
  }
}
