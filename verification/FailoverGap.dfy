/** The gap in the forced move, shown by a life of the whole responder: one
    unchanged record, the targets built from it, and the probe passes whose
    health readings the evaluator sees. */
module FailoverGap {
  import opened Bundles
  import opened Answers
  import opened Evaluation
  import opened EvaluationRuns
  import opened Failover
  import opened FailoverLatency
  import P = ProbeRunner
  import M = Machine
  import T = Targets
  import D = Damping

  /** A second's interval, one result enough for either direction. */
  ghost function Check(key: string): LocalCheck {
    LocalCheck(key, "tcp", key, 80, "", "", "", 1000, 1, 1)
  }

  /** Two locally checked candidates, the first preferred. */
  ghost function Pair(a: seq<Answer>, b: seq<Answer>): Record {
    Record("svc.", 5, STATE_OK, "single", [],
           Some([Candidate("z-01", "a", HEALTHY, a), Candidate("z-02", "b", HEALTHY, b)]),
           [Check("a"), Check("b")])
  }

  /** Target "a" flaps every second and stays up at last; "b" then fails. */
  predicate Up(key: string, i: nat) {
    if key == "a" then i % 2 == 0 || i >= 9 else i < 9
  }

  /** One pass a second over the targets built from the record. */
  ghost function Ticks(a: seq<Answer>, b: seq<Answer>, n: nat): seq<P.Tick> {
    seq(n, i requires 0 <= i < n => P.Tick(T.TargetsOf([Pair(a, b)], false), key => Up(key, i), i * SECOND))
  }

  /** What the passes of the first n seconds make of a key. */
  ghost function Probed(a: seq<Answer>, b: seq<Answer>, n: nat, key: string): P.KeyState {
    P.KeyRun(P.PassesOf(Ticks(a, b, n), key))
  }

  /** A query for the record right after pass i, with the machine's readings. */
  ghost function Observed(a: seq<Answer>, b: seq<Answer>, i: nat): Query {
    Query(Pair(a, b),
          Some((c: nat) => ReadingOf(Probed(a, b, i + 1, if c == 0 then "a" else "b").target)),
          i * SECOND)
  }

  lemma PairTargets(a: seq<Answer>, b: seq<Answer>, key: string)
    requires key == "a" || key == "b"
    ensures
      var targets := T.TargetsOf([Pair(a, b)], false);
      key in targets && targets[key].config == Check(key)
  {
    var rec := Pair(a, b);
    assert [rec][..0] == [] && T.Checks([rec]) == [] + rec.localChecks;
    var checks := T.Checks([rec]);
    assert checks == [Check("a"), Check("b")];
    assert checks[..1] == [Check("a")] && checks[..1][..0] == [];
    assert T.Merge(checks[..1]) == map["a" := Check("a")];
    assert T.Merge(checks) == map["a" := Check("a"), "b" := Check("b")];
  }

  /** Every pass is due, and its result alone sets the health. */
  lemma {:induction false} ReadingFollowsProbe(a: seq<Answer>, b: seq<Answer>, n: nat, key: string)
    requires key == "a" || key == "b"
    ensures
      var ks := Probed(a, b, n + 1, key);
      && ks.last == Some(n * SECOND) && ks.target.cycles >= 1
      && ks.target.health == M.Direction(Up(key, n))
  {
    hide T.TargetsOf;
    PairTargets(a, b, key);
    var ps := P.PassesOf(Ticks(a, b, n + 1), key);
    assert ps[n] == P.Pass(n * SECOND, Some(Check(key)), Up(key, n));
    assert ps[..n] == P.PassesOf(Ticks(a, b, n), key);
    assert P.Interval(Check(key)) == SECOND;
    if n > 0 {
      ReadingFollowsProbe(a, b, n - 1, key);
    } else {
      assert Probed(a, b, 0, key) == P.KeyState(None, M.FRESH);
    }
    assert Probed(a, b, n + 1, key) == P.PassStep(Probed(a, b, n, key), ps[n]);
  }

  lemma PairHealth(a: seq<Answer>, b: seq<Answer>, i: nat)
    ensures
      var q := Observed(a, b, i);
      && |Cands(q)| == 2 && Cands(q)[0].targetKey == "a" && Cands(q)[1].targetKey == "b"
      && Cands(q)[0].answers == a && Cands(q)[1].answers == b && !All(q)
      && Unhealthy(q, 0) == !Up("a", i) && Unhealthy(q, 1) == !Up("b", i)
  {
    hide Probed, Up;
    var rec := Pair(a, b);
    assert rec.localChecks[0].targetKey == "a" && rec.localChecks[1].targetKey == "b";
    assert rec.localChecks[0] in rec.localChecks && rec.localChecks[1] in rec.localChecks;
    assert LocallyChecked(rec, "a") && LocallyChecked(rec, "b");
    ReadingFollowsProbe(a, b, i, "a");
    ReadingFollowsProbe(a, b, i, "b");
    var q := Observed(a, b, i);
    assert q.readings.value(0) == ReadingOf(Probed(a, b, i + 1, "a").target);
    assert q.readings.value(1) == ReadingOf(Probed(a, b, i + 1, "b").target);
    assert Gate(q, 0) == Some(q.readings.value(0)) && Gate(q, 1) == Some(q.readings.value(1));
  }

  lemma PairContributes(a: seq<Answer>, b: seq<Answer>, i: nat)
    requires a != [] && b != []
    ensures Contributors(Observed(a, b, i)) == [if Up("a", i) then 0 else 1]
  {
    var q := Observed(a, b, i);
    assert Up("a", i) || Up("b", i);
    hide Unhealthy, Cands, All, Observed, Up;
    PairHealth(a, b, i);
    assert Serving(q, 0) == [];
    assert Serving(q, 1) == if Up("a", i) then [0] else [];
  }

  lemma PairForced(a: seq<Answer>, b: seq<Answer>, i: nat)
    requires a != []
    ensures Up("a", i) ==> forall active :: !ForcedMove(Observed(a, b, i), active)
    ensures !Up("a", i) ==> ForcedMove(Observed(a, b, i), ["a"])
  {
    hide Unhealthy, Cands, All, Observed, Up;
    var q := Observed(a, b, i);
    PairHealth(a, b, i);
    assert Inspected(q, 0);
    if Up("a", i) {
      assert Serves(q, 0);
      assert !Inspected(q, 1);
    }
  }

  lemma PairWalk(a: seq<Answer>, b: seq<Answer>, i: nat)
    requires a != [] && b != []
    ensures
      var q, aUp := Observed(a, b, i), Up("a", i);
      && Walks(q)
      && Fresh(q) == (if aUp then a else b)
      && FreshKeys(q) == [if aUp then "a" else "b"]
      && (aUp ==> forall active :: !ForcedMove(q, active))
      && (!aUp ==> ForcedMove(q, ["a"]))
  {
    PairForced(a, b, i);
    PairContributes(a, b, i);
    PairHealth(a, b, i);
    hide Unhealthy, ForcedMove, Contributors, Up, Probed;
    var q, first := Observed(a, b, i), if Up("a", i) then 0 else 1;
    var answers := Cands(q)[first].answers;
    assert Groups(q, [first]) == [answers];
    assert Flatten([]) == [] && Flatten([answers]) == [] + answers;
  }

  /** One query a second. "a" fails (a forced move to "b") and recovers (a
      counted change back); its fourth recovery freezes the record on "b". */
  ghost function FlapRun(a: seq<Answer>, b: seq<Answer>, n: nat): seq<Query> {
    seq(n, i requires 0 <= i < n => Observed(a, b, i))
  }

  lemma NextQuery(a: seq<Answer>, b: seq<Answer>, m: nat)
    ensures RunAll(FlapRun(a, b, m + 1)) == After(RunAll(FlapRun(a, b, m)), Observed(a, b, m))
    ensures Observed(a, b, m).rec.fqdn == "svc." && Observed(a, b, m).now == m * SECOND
  {
    hide Observed, After;
    assert FlapRun(a, b, m + 1)[..m] == FlapRun(a, b, m);
    AtSecond(a, b, m);
  }

  lemma AtSecond(a: seq<Answer>, b: seq<Answer>, m: nat)
    ensures Observed(a, b, m).rec.fqdn == "svc." && Observed(a, b, m).now == m * SECOND
  {
  }

  /** After an odd number of queries "a" is served, after an even number "b";
      only the moves back to "a" are logged. */
  lemma {:induction false} FlapState(a: seq<Answer>, b: seq<Answer>, m: nat)
    requires a != [] && b != [] && !Same(a, b) && 1 <= m <= 8
    ensures
      var s := RunAll(FlapRun(a, b, m));
      if m % 2 == 1
      then Logged(s, "svc.", a, m / 2, 0) && ActiveOf(s, "svc.") == ["a"]
      else Logged(s, "svc.", b, m / 2 - 1, 0) && ActiveOf(s, "svc.") == ["b"]
  {
    hide Same, After, Walks, Fresh, FreshKeys, ForcedMove, Logged, Observed, FlapRun;
    var s, q := RunAll(FlapRun(a, b, m - 1)), Observed(a, b, m - 1);
    NextQuery(a, b, m - 1);
    PairWalk(a, b, m - 1);
    SameSymmetric(a, b);
    if m == 1 {
      NoQueries(a, b);
      First(s, q, 0);
    } else {
      FlapState(a, b, m - 1);
      if m % 2 == 1 {
        Change(s, q, b, m / 2 - 1, 0);
      } else {
        Force(s, q, a, m / 2 - 1, 0);
      }
    }
  }

  lemma NoQueries(a: seq<Answer>, b: seq<Answer>)
    ensures RunAll(FlapRun(a, b, 0)) == EvalState(map[], map[])
  {
  }

  lemma FlapRunFreezes(a: seq<Answer>, b: seq<Answer>)
    requires a != [] && b != [] && !Same(a, b)
    ensures
      var s := RunAll(FlapRun(a, b, 9));
      FrozenAt(s, "svc.", b, 8 * SECOND) && ActiveOf(s, "svc.") == ["b"]
  {
    hide Same, After, Walks, Fresh, FreshKeys, ForcedMove, Logged, FrozenAt, Observed, FlapRun, RunAll;
    NextQuery(a, b, 8);
    PairWalk(a, b, 8);
    SameSymmetric(a, b);
    FlapState(a, b, 8);
    FourthFreezes(RunAll(FlapRun(a, b, 8)), Observed(a, b, 8), b, 0);
  }

  /** From then on every query is suppressed and restarts the quiet clock. */
  lemma {:induction false} FlapStaysFrozen(a: seq<Answer>, b: seq<Answer>, n: nat)
    requires a != [] && b != [] && !Same(a, b) && n >= 9
    ensures
      var s := RunAll(FlapRun(a, b, n));
      FrozenAt(s, "svc.", b, (n - 1) * SECOND) && ActiveOf(s, "svc.") == ["b"]
  {
    hide Same, After, Walks, Fresh, FreshKeys, ForcedMove, FrozenAt, Observed, FlapRun, RunAll;
    if n == 9 {
      FlapRunFreezes(a, b);
    } else {
      FlapStaysFrozen(a, b, n - 1);
      NextQuery(a, b, n - 1);
      PairWalk(a, b, n - 1);
      SameSymmetric(a, b);
      FrozenKeepsOld(RunAll(FlapRun(a, b, n - 1)), Observed(a, b, n - 1), b, (n - 2) * SECOND);
    }
  }

  /** One record that never changes, probed and queried once a second, every
      reading the machine's own: after nine seconds the record is frozen on
      "b", and from the tenth on, for ever, the responder serves "b", which has
      turned unhealthy, although "a" is healthy and is what the walk picks. */
  lemma StuckOnUnhealthy(a: seq<Answer>, b: seq<Answer>, n: nat)
    requires a != [] && b != [] && !Same(a, b) && n >= 9
    ensures
      var run, q := FlapRun(a, b, n), Observed(a, b, n);
      && KeyActive(run, q.rec.fqdn, "b") && Unhealthy(q, 1) && Cands(q)[1].targetKey == "b"
      && !Unhealthy(q, 0) && Fresh(q) == a && OutcomeOf(RunAll(run), q) == Serve(b)
  {
    var run, q := FlapRun(a, b, n), Observed(a, b, n);
    assert q.rec.fqdn == "svc." && q.now == n * SECOND;
    hide Same, After, Walks, Fresh, FreshKeys, ForcedMove, D.Step, RunAll, Observed, FlapRun;
    FlapStaysFrozen(a, b, n);
    PairHealth(a, b, n);
    PairWalk(a, b, n);
    SameSymmetric(a, b);
    FrozenKeepsOld(RunAll(run), q, b, (n - 1) * SECOND);
  }
}
