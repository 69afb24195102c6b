/** What holds of the evaluator over whole serialised runs of `Resolve`. */
module EvaluationRuns {
  import opened Bundles
  import opened Answers
  import opened Evaluation
  import D = Damping

  ghost function RunAll(run: seq<Query>): EvalState {
    if run == [] then EvalState(map[], map[])
    else After(RunAll(run[..|run| - 1]), run[|run| - 1])
  }

  ghost predicate Monotone(run: seq<Query>) {
    forall i, j | 0 <= i <= j < |run| :: run[i].now <= run[j].now
  }

  // ---- Active keys and served sets stay in step ----

  /** The keys and answers a walk contributed. */
  datatype Round = Round(keys: seq<string>, answers: seq<Answer>)

  /** Per name, the last round whose answers were the ones returned. */
  ghost function LastApplied(run: seq<Query>): map<string, Round> {
    if run == [] then map[]
    else
      var n := |run| - 1;
      var q, o := run[n], OutcomeOf(RunAll(run[..n]), run[n]);
      if q.rec.candidates.Some? && o.Serve? && Same(o.answers, Fresh(q))
      then LastApplied(run[..n])[q.rec.fqdn := Round(FreshKeys(q), Fresh(q))]
      else LastApplied(run[..n])
  }

  ghost predicate InSync(s: EvalState, rounds: map<string, Round>) {
    && s.active.Keys == s.damp.Keys == rounds.Keys
    && forall name | name in s.damp ::
         && s.active[name] == rounds[name].keys
         && Same(s.damp[name].served, rounds[name].answers)
         && s.damp[name].served != []
  }

  lemma SameNonempty(a: seq<Answer>, b: seq<Answer>)
    requires Same(a, b) && b != []
    ensures a != []
  {
    assert b[0] in multiset(b);
  }

  lemma InSyncStep(s: EvalState, rounds: map<string, Round>, q: Query)
    requires InSync(s, rounds) && Walks(q)
    ensures
      var s' := After(s, q);
      InSync(s', if Same(s'.damp[q.rec.fqdn].served, Fresh(q))
                 then rounds[q.rec.fqdn := Round(FreshKeys(q), Fresh(q))] else rounds)
  {
    hide Same, D.Step, Fresh, FreshKeys, Contributors, DamperCall;
    var name := q.rec.fqdn;
    D.ServesNewOrOld(DampOf(s, name), DamperCall(s, q));
    assert DamperCall(s, q).candidate == Fresh(q) by {
      CallCandidate(s, q);
    }
    FreshNonempty(q);
    var d := D.Step(DampOf(s, name), DamperCall(s, q));
    if Same(d.served, Fresh(q)) {
      SameNonempty(d.served, Fresh(q));
    }
  }

  lemma CallCandidate(s: EvalState, q: Query)
    ensures DamperCall(s, q).candidate == Fresh(q) && DamperCall(s, q).now == q.now
    ensures DamperCall(s, q).forced == ForcedMove(q, ActiveOf(s, q.rec.fqdn))
  {
  }

  /** Over every run, the active keys and the damper know the same names, and
      each name's served set is, as a multiset, the answers its active keys
      contributed in the last round that was applied; it is never empty. */
  lemma {:induction false} ActiveKeysMatchServed(run: seq<Query>)
    ensures InSync(RunAll(run), LastApplied(run))
  {
    if run != [] {
      hide Same, After, Fresh, FreshKeys, Contributors;
      var n := |run| - 1;
      ActiveKeysMatchServed(run[..n]);
      StepOrStay(RunAll(run[..n]), LastApplied(run[..n]), run[n]);
    }
  }

  lemma StepOrStay(s: EvalState, rounds: map<string, Round>, q: Query)
    requires InSync(s, rounds)
    ensures
      var o := OutcomeOf(s, q);
      InSync(After(s, q), if q.rec.candidates.Some? && o.Serve? && Same(o.answers, Fresh(q))
                          then rounds[q.rec.fqdn := Round(FreshKeys(q), Fresh(q))] else rounds)
  {
    if Walks(q) {
      InSyncStep(s, rounds, q);
    }
  }

  // ---- What the answers returned are ----

  /** Call n of the run returned, as a multiset, the answers its walk gathered. */
  ghost predicate Applied(run: seq<Query>, n: nat)
    requires n < |run|
  {
    var o := OutcomeOf(RunAll(run[..n]), run[n]);
    run[n].rec.candidates.Some? && o.Serve? && Same(o.answers, Fresh(run[n]))
  }

  /** Call n is the last one for the name that was applied. */
  ghost predicate LastAppliedAt(run: seq<Query>, name: string, n: nat)
    requires n < |run|
  {
    && run[n].rec.fqdn == name && Applied(run, n)
    && forall m | n < m < |run| :: run[m].rec.fqdn == name ==> !Applied(run, m)
  }

  /** Each answer occurs as often as the contributing candidates of the call
      offer it together, and the keys are exactly theirs. */
  ghost predicate IsUnionOf(q: Query, answers: seq<Answer>, keys: seq<string>) {
    && (forall x :: multiset(answers)[x] == Offered(q, x, |Cands(q)|))
    && (forall key :: key in keys <==>
          exists i | 0 <= i < |Cands(q)| :: Contributes(q, i) && Cands(q)[i].targetKey == key)
  }

  lemma {:induction false} LastAppliedIsRound(run: seq<Query>, name: string)
    ensures name in LastApplied(run) ==> exists n | 0 <= n < |run| ::
              LastAppliedAt(run, name, n) && LastApplied(run)[name] == Round(FreshKeys(run[n]), Fresh(run[n]))
  {
    hide OutcomeOf, Same, Fresh, FreshKeys, RunAll;
    var k := |run| - 1;
    if name in LastApplied(run) && run[k].rec.fqdn == name && Applied(run, k) {
      assert LastAppliedAt(run, name, k);
    } else if name in LastApplied(run) {
      LastAppliedIsRound(run[..k], name);
      var n :| 0 <= n < k && LastAppliedAt(run[..k], name, n)
               && LastApplied(run[..k])[name] == Round(FreshKeys(run[..k][n]), Fresh(run[..k][n]));
      forall m | 0 <= m < k ensures run[..k][m] == run[m] && Applied(run[..k], m) == Applied(run, m) {
        assert run[..k][..m] == run[..m];
      }
      assert LastAppliedAt(run, name, n);
    }
  }

  /** What any candidate-walk call returns, in every run, is the union of the
      groups that contributed to one call for its name, this one or an earlier
      one, and that call's contributing keys are the ones now active. */
  lemma AnswersAreAUnion(run: seq<Query>, q: Query)
    requires q.rec.candidates.Some?
    ensures
      var whole, o := run + [q], OutcomeOf(RunAll(run), q);
      o.Serve? ==> exists n | 0 <= n < |whole| ::
        LastAppliedAt(whole, q.rec.fqdn, n)
        && IsUnionOf(whole[n], o.answers, ActiveOf(RunAll(whole), q.rec.fqdn))
  {
    var whole, o, name := run + [q], OutcomeOf(RunAll(run), q), q.rec.fqdn;
    ServedIsRound(run, q);
    LastAppliedIsRound(whole, name);
    hide *;
    if o.Serve? {
      var n :| 0 <= n < |whole| && LastAppliedAt(whole, name, n)
               && LastApplied(whole)[name] == Round(FreshKeys(whole[n]), Fresh(whole[n]));
      RoundHolds(whole[n], o.answers);
    }
  }

  lemma RoundHolds(q: Query, answers: seq<Answer>)
    requires Same(answers, Fresh(q))
    ensures IsUnionOf(q, answers, FreshKeys(q))
  {
    hide Fresh, FreshKeys, Contributes, Offered;
    forall x ensures multiset(answers)[x] == Offered(q, x, |Cands(q)|) {
      FreshIsTheUnion(q, x, 0);
    }
    forall key ensures key in FreshKeys(q) <==>
                       exists i | 0 <= i < |Cands(q)| :: Contributes(q, i) && Cands(q)[i].targetKey == key
    {
      FreshKeysExactly(q, key);
    }
  }

  lemma ServedIsRound(run: seq<Query>, q: Query)
    requires q.rec.candidates.Some?
    ensures
      var rounds, name, o := LastApplied(run + [q]), q.rec.fqdn, OutcomeOf(RunAll(run), q);
      o.Serve? ==>
        && name in rounds && Same(o.answers, rounds[name].answers)
        && ActiveOf(RunAll(run + [q]), name) == rounds[name].keys
  {
    hide OutcomeOf, After, LastApplied, Same;
    if OutcomeOf(RunAll(run), q).Serve? {
      assert (run + [q])[..|run|] == run;
      ServedAfter(RunAll(run), q);
      ActiveKeysMatchServed(run + [q]);
    }
  }

  lemma ServedAfter(s: EvalState, q: Query)
    requires q.rec.candidates.Some? && OutcomeOf(s, q).Serve?
    ensures DampOf(After(s, q), q.rec.fqdn).Some?
    ensures OutcomeOf(s, q).answers == DampOf(After(s, q), q.rec.fqdn).value.served
  {
    hide Same, D.Step, Fresh, FreshKeys, ForcedMove, Contributors;
  }

  // ---- When a call answers ----

  /** A candidate-walk record fails exactly when no candidate serves, whatever
      the damper's state; and in every reachable state it never serves an
      empty set. */
  lemma FailsExactlyWhenNoneServes(run: seq<Query>, q: Query)
    requires q.rec.candidates.Some?
    ensures OutcomeOf(RunAll(run), q) == ServFail <==> forall i | 0 <= i < |Cands(q)| :: !Serves(q, i)
    ensures OutcomeOf(RunAll(run), q).Serve? ==> OutcomeOf(RunAll(run), q).answers != []
  {
    if s: nat :| s < |Cands(q)| && Serves(q, s) {
      ServingExactly(q, |Cands(q)|, s);
      ActiveKeysMatchServed(run);
      InSyncStep(RunAll(run), LastApplied(run), q);
    } else {
      if Contributors(q) != [] {
        assert Contributors(q)[0] in Contributors(q);
        ContributorsExactly(q, Contributors(q)[0]);
      }
    }
  }

  // ---- Independence of names ----

  ghost function Only(run: seq<Query>, name: string): seq<Query> {
    if run == [] then []
    else
      var n := |run| - 1;
      if run[n].rec.fqdn == name then Only(run[..n], name) + [run[n]] else Only(run[..n], name)
  }

  ghost predicate AgreeOn(s: EvalState, t: EvalState, name: string) {
    && DampOf(s, name) == DampOf(t, name)
    && (name in s.active <==> name in t.active)
    && ActiveOf(s, name) == ActiveOf(t, name)
  }

  lemma AgreeStep(s: EvalState, t: EvalState, q: Query)
    requires AgreeOn(s, t, q.rec.fqdn)
    ensures AgreeOn(After(s, q), After(t, q), q.rec.fqdn)
    ensures OutcomeOf(s, q) == OutcomeOf(t, q)
  {
    hide Same, D.Step, Fresh, FreshKeys, Contributors, ForcedMove;
  }

  lemma OtherNameKept(s: EvalState, q: Query, name: string)
    requires q.rec.fqdn != name
    ensures AgreeOn(After(s, q), s, name)
  {
    hide Same, D.Step, Fresh, FreshKeys, Contributors, ForcedMove;
  }

  lemma {:induction false} OnlyAgrees(run: seq<Query>, name: string)
    ensures AgreeOn(RunAll(run), RunAll(Only(run, name)), name)
  {
    if run != [] {
      hide After;
      var n := |run| - 1;
      OnlyAgrees(run[..n], name);
      var mine := Only(run[..n], name);
      if run[n].rec.fqdn == name {
        AgreeStep(RunAll(run[..n]), RunAll(mine), run[n]);
        assert (mine + [run[n]])[..|mine|] == mine;
      } else {
        OtherNameKept(RunAll(run[..n]), run[n], name);
      }
    }
  }

  /** In any interleaved run, a call answers as it would after the calls for
      its own name alone, made with the same clock and the same readings. */
  lemma NamesAreIndependent(run: seq<Query>, q: Query)
    ensures OutcomeOf(RunAll(run), q) == OutcomeOf(RunAll(Only(run, q.rec.fqdn)), q)
  {
    OnlyAgrees(run, q.rec.fqdn);
    AgreeStep(RunAll(run), RunAll(Only(run, q.rec.fqdn)), q);
  }

  // ---- Rate bound for answers ----

  /** The damper calls a run makes for one name. */
  ghost function DampTrace(run: seq<Query>, name: string): seq<D.Call> {
    if run == [] then []
    else
      var n := |run| - 1;
      if run[n].rec.fqdn == name && Walks(run[n])
      then DampTrace(run[..n], name) + [DamperCall(RunAll(run[..n]), run[n])]
      else DampTrace(run[..n], name)
  }

  /** The answers the last candidate-walk call for the name returned. */
  ghost function LastAnswers(run: seq<Query>, name: string): Option<seq<Answer>> {
    if run == [] then None
    else
      var n := |run| - 1;
      var q, o := run[n], OutcomeOf(RunAll(run[..n]), run[n]);
      if q.rec.fqdn == name && q.rec.candidates.Some? && o.Serve? then Some(o.answers)
      else LastAnswers(run[..n], name)
  }

  /** Times at which a candidate-walk call for the name returns another answer
      set than the one returned before, and is not a forced move. */
  ghost function AnswerChanges(run: seq<Query>, name: string): seq<int> {
    if run == [] then []
    else
      var n := |run| - 1;
      var before, after := LastAnswers(run[..n], name), LastAnswers(run, name);
      if && before.Some? && after.Some?
         && !ForcedMove(run[n], ActiveOf(RunAll(run[..n]), name))
         && !Same(before.value, after.value)
      then AnswerChanges(run[..n], name) + [run[n].now]
      else AnswerChanges(run[..n], name)
  }

  /** What a call returns is what its name's record then serves. */
  lemma OutcomeIsServed(s: EvalState, q: Query)
    requires q.rec.candidates.Some?
    ensures OutcomeOf(s, q) ==
            if Walks(q) then Serve(D.Step(DampOf(s, q.rec.fqdn), DamperCall(s, q)).served) else ServFail
  {
    hide Same, D.Step, Fresh, FreshKeys, Contributors, ForcedMove;
  }

  lemma {:induction false} LastAnswersAreServed(run: seq<Query>, name: string)
    ensures LastAnswers(run, name) ==
            match DampOf(RunAll(run), name)
            case None => None
            case Some(d) => Some(d.served)
  {
    if run != [] {
      hide Walks, After, DamperCall, D.Step;
      var n := |run| - 1;
      LastAnswersAreServed(run[..n], name);
      DampStep(RunAll(run[..n]), run[n], name);
      if run[n].rec.candidates.Some? {
        OutcomeIsServed(RunAll(run[..n]), run[n]);
      } else {
        LegacyKeepsState(RunAll(run[..n]), run[n]);
      }
    }
  }

  /** The legacy path bypasses the damper: it neither changes the state nor
      depends on it, so nothing here bounds how often its answers change. */
  lemma LegacyKeepsState(s: EvalState, q: Query)
    requires q.rec.candidates.None?
    ensures !Walks(q) && After(s, q) == s
    ensures OutcomeOf(s, q) == if q.rec.state == "ok" || q.rec.state == "degraded"
                               then Serve(q.rec.answers) else ServFail
  {
  }

  lemma DampStep(s: EvalState, q: Query, name: string)
    ensures DampOf(After(s, q), name) ==
            if q.rec.fqdn == name && Walks(q) then Some(D.Step(DampOf(s, name), DamperCall(s, q)))
            else DampOf(s, name)
  {
    hide Same, D.Step, Fresh, FreshKeys, Contributors, ForcedMove;
  }

  lemma {:induction false} DampIsTrace(run: seq<Query>, name: string)
    ensures DampOf(RunAll(run), name) == D.Run(DampTrace(run, name))
  {
    if run != [] {
      hide After, DamperCall, D.Step, Walks;
      var n := |run| - 1;
      DampIsTrace(run[..n], name);
      DampStep(RunAll(run[..n]), run[n], name);
      CallCandidate(RunAll(run[..n]), run[n]);
      var t, c := DampTrace(run[..n], name), DamperCall(RunAll(run[..n]), run[n]);
      assert (t + [c])[..|t|] == t;
    }
  }

  lemma {:induction false} TraceMonotone(run: seq<Query>, name: string)
    requires Monotone(run)
    ensures D.Monotone(DampTrace(run, name))
    ensures forall i | 0 <= i < |DampTrace(run, name)| ::
              run != [] && DampTrace(run, name)[i].now <= run[|run| - 1].now
  {
    if run != [] {
      hide RunAll, DamperCall, Walks;
      var n := |run| - 1;
      TraceMonotone(run[..n], name);
      CallCandidate(RunAll(run[..n]), run[n]);
    }
  }

  lemma {:induction false} ChangesAreDamped(run: seq<Query>, name: string)
    ensures AnswerChanges(run, name) == D.ChangeTimes(DampTrace(run, name))
  {
    if run != [] {
      hide Same, After, DamperCall, ForcedMove, D.Step, Walks, LastAnswers, OutcomeOf;
      var n := |run| - 1;
      ChangesAreDamped(run[..n], name);
      DampIsTrace(run[..n], name);
      DampIsTrace(run, name);
      DampStep(RunAll(run[..n]), run[n], name);
      CallCandidate(RunAll(run[..n]), run[n]);
      var t, c := DampTrace(run[..n], name), DamperCall(RunAll(run[..n]), run[n]);
      assert (t + [c])[..|t|] == t;
      LastAnswersAreServed(run[..n], name);
      LastAnswersAreServed(run, name);
      SameReflexive(run[..n], name);
    }
  }

  lemma SameReflexive(run: seq<Query>, name: string)
    ensures DampOf(RunAll(run), name).Some? ==>
              Same(DampOf(RunAll(run), name).value.served, DampOf(RunAll(run), name).value.served)
  {
  }

  /** In every run with a non-decreasing clock, the answers that candidate-walk
      calls return for a name change at most three times in any 10-minute
      window, forced moves aside. */
  lemma AnswerRateBound(run: seq<Query>, name: string, w: int)
    requires Monotone(run)
    ensures D.CountIn(AnswerChanges(run, name), w, w + 600_000_000_000) <= 3
  {
    TraceMonotone(run, name);
    D.RateBound(DampTrace(run, name), w);
    ChangesAreDamped(run, name);
  }

  /** The name is not frozen, or has been quiet for 20 minutes. */
  ghost predicate NotFrozen(s: EvalState, name: string, now: int) {
    match DampOf(s, name)
    case None => true
    case Some(d) => d.frozen ==> now - d.lastSuppressed >= 1_200_000_000_000
  }

  lemma AppliedIsStep(run: seq<Query>, q: Query)
    requires Walks(q)
    ensures Applied(run + [q], |run|) <==>
            Same(D.Step(DampOf(RunAll(run), q.rec.fqdn), DamperCall(RunAll(run), q)).served, Fresh(q))
  {
    hide D.Step, Same, Fresh, DamperCall, Contributors;
    assert (run + [q])[..|run|] == run;
    OutcomeIsServed(RunAll(run), q);
  }

  lemma TraceGrows(run: seq<Query>, q: Query)
    requires Walks(q) && Monotone(run + [q])
    ensures
      var trace, c := DampTrace(run, q.rec.fqdn), DamperCall(RunAll(run), q);
      DampTrace(run + [q], q.rec.fqdn) == trace + [c] && D.Monotone(trace + [c])
  {
    hide Walks, DamperCall, RunAll;
    assert (run + [q])[..|run|] == run;
    TraceMonotone(run + [q], q.rec.fqdn);
  }

  /** A damper call serves its candidate set exactly in these cases. */
  lemma AppliedStep(trace: seq<D.Call>, c: D.Call)
    requires D.Monotone(trace + [c])
    ensures D.Run(trace).None? <==> trace == []
    ensures
      Same(D.Step(D.Run(trace), c).served, c.candidate) <==>
      || trace == [] || c.forced || Same(D.Run(trace).value.served, c.candidate)
      || ((D.Run(trace).value.frozen ==> c.now - D.Run(trace).value.lastSuppressed >= 1_200_000_000_000)
          && D.CountIn(D.ChangeTimes(trace), c.now - 600_000_000_000 + 1, c.now + 1) < 3)
  {
    assert (trace + [c])[..|trace|] == trace;
    hide D.Step, Same, D.ChangeTimes, D.CountIn, D.Monotone;
    if trace == [] {
      D.SameAlwaysServed(None, c);
    } else if c.forced {
      D.ForcedAlwaysServed(D.Run(trace), c);
    } else if Same(D.Run(trace).value.served, c.candidate) {
      D.SameAlwaysServed(D.Run(trace), c);
    } else {
      D.AppliedExactly(trace, c);
    }
  }

  /** Exactly when a call returns what its walk gathers: always for the name's
      first answer, for a forced move and for the answers already served;
      otherwise when the name is not frozen (or has been quiet for 20 minutes)
      and its answers changed fewer than three times in the last 10 minutes. */
  lemma AppliedExactly(run: seq<Query>, q: Query)
    requires Walks(q) && Monotone(run + [q])
    ensures
      var name := q.rec.fqdn;
      var before := LastAnswers(run, name);
      Applied(run + [q], |run|) <==>
      || before.None? || ForcedMove(q, ActiveOf(RunAll(run), name))
      || multiset(before.value) == multiset(Fresh(q))
      || (NotFrozen(RunAll(run), name, q.now)
          && D.CountIn(AnswerChanges(run, name), q.now - 600_000_000_000 + 1, q.now + 1) < 3)
  {
    hide Walks, RunAll, DampTrace, AnswerChanges, LastAnswers, DamperCall, Applied, ForcedMove, Fresh, ActiveOf,
      Same, D.Step, D.Run, D.ChangeTimes, D.CountIn, Monotone, D.Monotone, DampOf;
    var name := q.rec.fqdn;
    var trace, c := DampTrace(run, name), DamperCall(RunAll(run), q);
    AppliedIsStep(run, q);
    TraceGrows(run, q);
    LastAnswersAreServed(run, name);
    DampIsTrace(run, name);
    ChangesAreDamped(run, name);
    CallCandidate(RunAll(run), q);
    AppliedStep(trace, c);
    SameMeansMultiset();
  }

  lemma SameMeansMultiset()
    ensures forall a, b :: Same(a, b) <==> multiset(a) == multiset(b)
  {
  }
}
