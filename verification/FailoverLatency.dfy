/** From a failing probe to a changed answer: the scheduler, the health machine
    and the candidate walk taken together. */
module FailoverLatency {
  import opened Bundles
  import opened Evaluation
  import opened EvaluationRuns
  import opened Failover
  import P = ProbeRunner
  import M = Machine

  function HealthName(h: M.Health): string {
    match h
    case Healthy => HEALTHY
    case Unhealthy => UNHEALTHY
    case Unknown => UNKNOWN
  }

  /** What the evaluator reads of a target in this state. */
  function ReadingOf(t: M.TargetState): Reading {
    Reading(HealthName(t.health), t.cycles >= 1)
  }

  /** The machine and the evaluator agree on the post-boot grace: the pushed
      health decides exactly before the first completed probe. */
  lemma {:induction false} GraceEndsWithFirstProbe(h: seq<M.Result>, cand: Candidate)
    ensures EffectiveHealth(cand, Some(ReadingOf(M.Run(h)))) ==
            if h == [] then cand.health else HealthName(M.Run(h).health)
  {
    M.CountersMeasureRun(h, true, 0);
  }

  /** Bounded failover: if every probe of an active candidate's target fails
      from time s on, with passes at most d apart, interval at most I and
      failure threshold at most F, then every call made at s + F * (I + d) or
      later whose walk reaches that candidate and finds another one serving
      answers from the serving candidates alone, frozen or not. `ps` are the
      passes made by the time of the call. */
  lemma FailoverIsBounded(ps: seq<P.Pass>, s: int, interval: int, f: nat, d: nat,
                          run: seq<Query>, q: Query, i: nat)
    requires ps != [] && interval > 0 && f >= 1 && P.Outage(ps, s, interval, f, d)
    requires ps[|ps| - 1].now <= q.now <= ps[|ps| - 1].now + d
    requires q.now >= s + f * (interval + d)
    requires i < |Cands(q)| && LocallyChecked(q.rec, Cands(q)[i].targetKey)
    requires q.readings.Some? && q.readings.value(i) == ReadingOf(P.KeyRun(ps).target)
    requires KeyActive(run, q.rec.fqdn, Cands(q)[i].targetKey)
    requires All(q) || forall j | 0 <= j < i :: !Serves(q, j)
    requires Walks(q)
    ensures ServesFresh(RunAll(run), q)
    ensures i !in Contributors(q)
  {
    P.DetectedInTime(ps, s, interval, f, d, q.now);
    hide RunAll, P.KeyRun, P.Outage, Walks, ServesFresh;
    assert Unhealthy(q, i);
    ForcedFailoverBeatsFreeze(run, q, i);
  }
}
