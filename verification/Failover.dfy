/** Moving away from an unhealthy answer: when it beats a freeze, and the runs
    in which it does not. */
module Failover {
  import opened Bundles
  import opened Answers
  import opened Evaluation
  import opened EvaluationRuns
  import D = Damping

  ghost predicate KeyActive(run: seq<Query>, name: string, key: string) {
    key in ActiveOf(RunAll(run), name)
  }

  /** The call serves this round's walk and makes it the active one. */
  ghost predicate ServesFresh(s: EvalState, q: Query) {
    var o := OutcomeOf(s, q);
    && o.Serve? && Same(o.answers, Fresh(q))
    && ActiveOf(After(s, q), q.rec.fqdn) == FreshKeys(q)
  }

  lemma ForcedServesFresh(s: EvalState, q: Query)
    requires Walks(q) && ForcedMove(q, ActiveOf(s, q.rec.fqdn))
    ensures ServesFresh(s, q)
  {
    hide Same, D.Step, Fresh, FreshKeys, Contributors, ForcedMove;
    D.ForcedAlwaysServed(DampOf(s, q.rec.fqdn), DamperCall(s, q));
  }

  /** If an active key's candidate is effectively unhealthy and the walk
      reaches it (mode "all", or no serving candidate before it), the call
      serves the fresh walk in every reachable state, frozen or not, and the
      failed candidate contributes nothing to it. */
  lemma ForcedFailoverBeatsFreeze(run: seq<Query>, q: Query, i: nat)
    requires i < |Cands(q)| && Unhealthy(q, i)
    requires All(q) || forall j | 0 <= j < i :: !Serves(q, j)
    requires KeyActive(run, q.rec.fqdn, Cands(q)[i].targetKey)
    requires Walks(q)
    ensures ServesFresh(RunAll(run), q)
    ensures i !in Contributors(q)
  {
    assert Inspected(q, i);
    ForcedServesFresh(RunAll(run), q);
    ContributorsExactly(q, i);
  }

  // ---- Steps of the witness runs ----

  const SECOND: int := 1_000_000_000

  lemma {:induction false} PruneRecent(log: seq<int>, now: int)
    requires forall i | 0 <= i < |log| :: log[i] > now - D.WINDOW
    ensures D.Prune(log, now) == log
  {
    if log != [] {
      PruneRecent(log[..|log| - 1], now);
    }
  }

  /** The name serves `was`, with k changes logged, none before `since`. */
  ghost predicate Logged(s: EvalState, name: string, was: seq<Answer>, k: nat, since: int) {
    var d := DampOf(s, name);
    && d.Some? && d.value.served == was && !d.value.frozen && |d.value.changeLog| == k
    && forall i | 0 <= i < k :: d.value.changeLog[i] >= since
  }

  /** The name is frozen at `was`, and the quiet clock runs from `at`. */
  ghost predicate FrozenAt(s: EvalState, name: string, was: seq<Answer>, at: int) {
    var d := DampOf(s, name);
    d.Some? && d.value.served == was && d.value.frozen && d.value.lastSuppressed == at
  }

  ghost predicate Took(s: EvalState, q: Query) {
    ActiveOf(After(s, q), q.rec.fqdn) == FreshKeys(q)
  }

  lemma First(s: EvalState, q: Query, since: int)
    requires Walks(q) && q.rec.fqdn !in s.damp
    ensures Logged(After(s, q), q.rec.fqdn, Fresh(q), 0, since) && Took(s, q)
  {
    hide Contributors, Fresh, FreshKeys, ForcedMove;
  }

  lemma RecentLog(s: EvalState, q: Query, was: seq<Answer>, k: nat, since: int)
    requires Logged(s, q.rec.fqdn, was, k, since) && since <= q.now < since + D.WINDOW
    ensures
      var log := DampOf(s, q.rec.fqdn).value.changeLog;
      D.Prune(log + [q.now], q.now) == log + [q.now]
  {
    PruneRecent(DampOf(s, q.rec.fqdn).value.changeLog + [q.now], q.now);
  }

  lemma Change(s: EvalState, q: Query, was: seq<Answer>, k: nat, since: int)
    requires Walks(q) && !ForcedMove(q, ActiveOf(s, q.rec.fqdn))
    requires Logged(s, q.rec.fqdn, was, k, since) && k < 3 && !Same(was, Fresh(q))
    requires since <= q.now < since + D.WINDOW
    ensures Logged(After(s, q), q.rec.fqdn, Fresh(q), k + 1, since) && Took(s, q)
  {
    hide Contributors, Fresh, FreshKeys, ForcedMove, D.Prune;
    RecentLog(s, q, was, k, since);
  }

  lemma Force(s: EvalState, q: Query, was: seq<Answer>, k: nat, since: int)
    requires Walks(q) && ForcedMove(q, ActiveOf(s, q.rec.fqdn))
    requires Logged(s, q.rec.fqdn, was, k, since) && !Same(was, Fresh(q))
    ensures Logged(After(s, q), q.rec.fqdn, Fresh(q), k, since) && Took(s, q)
  {
    hide Contributors, Fresh, FreshKeys, ForcedMove, D.Prune;
  }

  lemma FourthFreezes(s: EvalState, q: Query, was: seq<Answer>, since: int)
    requires Walks(q) && !ForcedMove(q, ActiveOf(s, q.rec.fqdn))
    requires Logged(s, q.rec.fqdn, was, 3, since) && !Same(was, Fresh(q))
    requires since <= q.now < since + D.WINDOW
    ensures FrozenAt(After(s, q), q.rec.fqdn, was, q.now)
    ensures ActiveOf(After(s, q), q.rec.fqdn) == ActiveOf(s, q.rec.fqdn)
  {
    hide Contributors, Fresh, FreshKeys, ForcedMove, D.Prune;
    RecentLog(s, q, was, 3, since);
  }

  lemma FrozenKeepsOld(s: EvalState, q: Query, was: seq<Answer>, at: int)
    requires Walks(q) && !ForcedMove(q, ActiveOf(s, q.rec.fqdn))
    requires FrozenAt(s, q.rec.fqdn, was, at) && q.now - at < D.QUIET && !Same(was, Fresh(q))
    ensures OutcomeOf(s, q) == Serve(was)
    ensures FrozenAt(After(s, q), q.rec.fqdn, was, q.now)
    ensures ActiveOf(After(s, q), q.rec.fqdn) == ActiveOf(s, q.rec.fqdn)
  {
    hide Contributors, Fresh, FreshKeys, ForcedMove, D.Prune;
  }

  // ---- Exactly when the failover is guaranteed ----

  /** A query for the same name at another time, with one healthy candidate. */
  ghost function Lone(q: Query, key: string, answers: seq<Answer>, now: int): Query {
    Query(Record(q.rec.fqdn, 1, STATE_OK, "single", [],
                 Some([Candidate("", key, HEALTHY, answers)]), []), None, now)
  }

  lemma LoneWalk(q: Query, key: string, answers: seq<Answer>, now: int)
    requires answers != []
    ensures
      var l := Lone(q, key, answers, now);
      && Walks(l) && Fresh(l) == answers && FreshKeys(l) == [key]
      && forall active :: !ForcedMove(l, active)
  {
    var l := Lone(q, key, answers, now);
    assert Serves(l, 0);
    assert Serving(l, 0) == [] && Serving(l, 1) == [0];
    assert Contributors(l) == [0];
    assert Groups(l, [0]) == [answers];
    assert Flatten([]) == [] && Flatten([answers]) == [] + answers;
  }

  lemma PrefixStates(run: seq<Query>)
    ensures RunAll(run[..0]) == EvalState(map[], map[]) && run[..|run|] == run
    ensures forall k | 0 <= k < |run| :: RunAll(run[..k + 1]) == After(RunAll(run[..k]), run[k])
  {
    hide After;
    assert forall k | 0 <= k < |run| :: run[..k + 1][..k] == run[..k];
  }

  /** In the five seconds before q the bundle alternates between two answer
      sets, until the fourth change freezes the name on the set of `key`. */
  ghost function FreezeRun(q: Query, key: string, mine: seq<Answer>, other: seq<Answer>): seq<Query> {
    [Lone(q, key, other, q.now - 5 * SECOND), Lone(q, key, mine, q.now - 4 * SECOND),
     Lone(q, key, other, q.now - 3 * SECOND), Lone(q, key, mine, q.now - 2 * SECOND),
     Lone(q, key, other, q.now - SECOND)]
  }

  lemma FreezeRunFreezes(q: Query, key: string, mine: seq<Answer>, other: seq<Answer>)
    requires mine != [] && other != [] && !Same(mine, other)
    ensures
      var s := RunAll(FreezeRun(q, key, mine, other));
      FrozenAt(s, q.rec.fqdn, mine, q.now - SECOND) && ActiveOf(s, q.rec.fqdn) == [key]
  {
    hide Same, After, Walks, Fresh, FreshKeys, ForcedMove, D.Step, RunAll, Logged, FrozenAt;
    var run, since := FreezeRun(q, key, mine, other), q.now - 5 * SECOND;
    forall i | 0 <= i < 5
      ensures
        && Walks(run[i]) && Fresh(run[i]) == (if i % 2 == 0 then other else mine)
        && FreshKeys(run[i]) == [key] && forall active :: !ForcedMove(run[i], active)
    {
      LoneWalk(q, key, if i % 2 == 0 then other else mine, run[i].now);
    }
    SameSymmetric(mine, other);
    PrefixStates(run);
    First(RunAll(run[..0]), run[0], since);
    Change(RunAll(run[..1]), run[1], other, 0, since);
    Change(RunAll(run[..2]), run[2], mine, 1, since);
    Change(RunAll(run[..3]), run[3], other, 2, since);
    FourthFreezes(RunAll(run[..4]), run[4], mine, since);
  }

  lemma SameSymmetric(a: seq<Answer>, b: seq<Answer>)
    ensures Same(a, b) == Same(b, a)
  {
  }

  lemma LongerDiffers(a: seq<Answer>)
    requires a != []
    ensures !Same(a + [a[0]], a)
  {
    assert |multiset(a + [a[0]])| == |a| + 1 && |multiset(a)| == |a|;
  }

  ghost predicate FailoverGuaranteed(q: Query, key: string) {
    forall run: seq<Query> | Monotone(run + [q]) && KeyActive(run, q.rec.fqdn, key) ::
      ServesFresh(RunAll(run), q)
  }

  /** A call whose walk finds a serving candidate is guaranteed to serve it,
      in every run that left `key` active, exactly when the walk reaches an
      unhealthy candidate of that key. "ALWAYS allowed" needs that position
      condition. */
  lemma FailoverGuaranteedExactly(q: Query, key: string)
    requires Walks(q)
    ensures FailoverGuaranteed(q, key) <==>
            exists i | 0 <= i < |Cands(q)| ::
              && Cands(q)[i].targetKey == key && Unhealthy(q, i)
              && (All(q) || forall j | 0 <= j < i :: !Serves(q, j))
  {
    if i: nat :| i < |Cands(q)| && Cands(q)[i].targetKey == key && Unhealthy(q, i) && Inspected(q, i) {
      forall run: seq<Query> | Monotone(run + [q]) && KeyActive(run, q.rec.fqdn, key)
        ensures ServesFresh(RunAll(run), q)
      {
        ForcedFailoverBeatsFreeze(run, q, i);
      }
    } else {
      assert !ForcedMove(q, [key]);
      NotGuaranteed(q, key);
    }
  }

  lemma NotGuaranteed(q: Query, key: string)
    requires Walks(q) && !ForcedMove(q, [key])
    ensures !FailoverGuaranteed(q, key)
  {
    hide Same, After, Contributors, Fresh, FreshKeys, ForcedMove, D.Step, RunAll;
    FreshNonempty(q);
    var other, mine := Fresh(q), Fresh(q) + [Fresh(q)[0]];
    LongerDiffers(other);
    var run := FreezeRun(q, key, mine, other);
    FreezeRunFreezes(q, key, mine, other);
    FrozenKeepsOld(RunAll(run), q, mine, q.now - SECOND);
    assert Monotone(run + [q]);
    assert KeyActive(run, q.rec.fqdn, key);
    assert !ServesFresh(RunAll(run), q);
  }
}
