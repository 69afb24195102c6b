/** The candidate walk and the state it keeps in step with the damper.
    Calls of `Resolve` are taken one after the other. */
module Evaluation {
  import opened Bundles
  import opened Answers
  import D = Damping

  /** What the local state machine says of one target. */
  datatype Reading = Reading(state: string, ready: bool)

  /** One call of `Resolve`. `readings` is None when there is no local machine;
      otherwise `readings.value(i)` is what the machine says when the walk
      reaches candidate i, so the machine may move while the walk goes on. */
  datatype Query = Query(rec: Record, readings: Option<nat -> Reading>, now: int)

  datatype Outcome = ServFail | Serve(answers: seq<Answer>)

  // ---- The fresh walk, read declaratively ----

  ghost function Cands(q: Query): seq<Candidate> {
    if q.rec.candidates.Some? then q.rec.candidates.value else []
  }

  ghost predicate All(q: Query) {
    q.rec.mode == MODE_ALL
  }

  ghost predicate LocallyChecked(rec: Record, key: string) {
    exists lc | lc in rec.localChecks :: lc.targetKey == key
  }

  /** The reading that gates candidate i, if it is checked by this cluster. */
  ghost function Gate(q: Query, i: nat): Option<Reading>
    requires i < |Cands(q)|
  {
    if q.readings.Some? && LocallyChecked(q.rec, Cands(q)[i].targetKey)
    then Some(q.readings.value(i)) else None
  }

  /** A local reading overrides the pushed health, except while the target is
      unknown and has completed no check cycle. */
  function EffectiveHealth(cand: Candidate, gate: Option<Reading>): string {
    match gate
    case None => cand.health
    case Some(r) => if r.state == UNKNOWN && !r.ready then cand.health else r.state
  }

  ghost predicate Unhealthy(q: Query, i: nat)
    requires i < |Cands(q)|
  {
    EffectiveHealth(Cands(q)[i], Gate(q, i)) == UNHEALTHY
  }

  /** Candidate i can serve traffic: not unhealthy and with addresses. */
  ghost predicate Serves(q: Query, i: nat)
    requires i < |Cands(q)|
  {
    !Unhealthy(q, i) && Cands(q)[i].answers != []
  }

  /** The serving candidates among the first n, in order. */
  ghost function Serving(q: Query, n: nat): (s: seq<nat>)
    requires n <= |Cands(q)|
    ensures forall k | 0 <= k < |s| :: s[k] < n
  {
    if n == 0 then []
    else if Serves(q, n - 1) then Serving(q, n - 1) + [n - 1]
    else Serving(q, n - 1)
  }

  /** All serving candidates in mode "all", the first one otherwise. */
  ghost function Contributors(q: Query): (s: seq<nat>)
    ensures forall k | 0 <= k < |s| :: s[k] < |Cands(q)|
  {
    var s := Serving(q, |Cands(q)|);
    if All(q) || s == [] then s else s[..1]
  }

  /** The walk reaches candidate i. */
  ghost predicate Inspected(q: Query, i: nat)
    requires i < |Cands(q)|
  {
    All(q) || forall j | 0 <= j < i :: !Serves(q, j)
  }

  /** Candidate i is one the walk takes: all that serve in mode "all", the
      first that serves in any other mode. */
  ghost predicate Contributes(q: Query, i: nat)
    requires i < |Cands(q)|
  {
    Serves(q, i) && (q.rec.mode == "all" || forall j | 0 <= j < i :: !Serves(q, j))
  }

  /** Some inspected candidate whose key was active is now unhealthy. */
  ghost predicate ForcedMove(q: Query, active: seq<string>) {
    exists i | 0 <= i < |Cands(q)| ::
      Inspected(q, i) && Unhealthy(q, i) && Cands(q)[i].targetKey in active
  }

  ghost function Groups(q: Query, idx: seq<nat>): seq<seq<Answer>>
    requires forall k | 0 <= k < |idx| :: idx[k] < |Cands(q)|
  {
    seq(|idx|, k requires 0 <= k < |idx| => Cands(q)[idx[k]].answers)
  }

  ghost function KeysAt(q: Query, idx: seq<nat>): seq<string>
    requires forall k | 0 <= k < |idx| :: idx[k] < |Cands(q)|
  {
    seq(|idx|, k requires 0 <= k < |idx| => Cands(q)[idx[k]].targetKey)
  }

  ghost function Flatten(groups: seq<seq<Answer>>): seq<Answer> {
    if groups == [] then [] else Flatten(groups[..|groups| - 1]) + groups[|groups| - 1]
  }

  ghost function Fresh(q: Query): seq<Answer> {
    Flatten(Groups(q, Contributors(q)))
  }

  ghost function FreshKeys(q: Query): seq<string> {
    KeysAt(q, Contributors(q))
  }

  lemma {:induction false} ServingExactly(q: Query, n: nat, i: nat)
    requires n <= |Cands(q)|
    ensures i in Serving(q, n) <==> i < n && Serves(q, i)
  {
    if n > 0 {
      ServingExactly(q, n - 1, i);
    }
  }

  lemma {:induction false} ServingPrefix(q: Query, m: nat, n: nat)
    requires m <= n <= |Cands(q)|
    ensures Serving(q, m) <= Serving(q, n)
  {
    hide Serves;
    if m < n {
      ServingPrefix(q, m, n - 1);
    }
  }

  /** The walk is "first (or all) candidates that serve": in mode "all" the
      contributors are exactly the serving candidates, in any other mode exactly
      the serving candidate that no serving candidate precedes. */
  lemma ContributorsExactly(q: Query, i: nat)
    requires i < |Cands(q)|
    ensures i in Contributors(q) <==> Contributes(q, i)
  {
    var n := |Cands(q)|;
    ServingExactly(q, n, i);
    if !All(q) {
      var s := Serving(q, n);
      if s != [] {
        var f := s[0];
        assert f in s;
        ServingExactly(q, n, f);
        FirstIsLeast(q, f, n);
      }
    }
  }

  lemma FirstIsLeast(q: Query, f: nat, n: nat)
    requires n <= |Cands(q)| && Serving(q, n) != [] && f == Serving(q, n)[0]
    ensures f < n && Serves(q, f) && forall j | 0 <= j < f :: !Serves(q, j)
  {
    assert f in Serving(q, n);
    ServingExactly(q, n, f);
    ServingPrefix(q, f, n);
    assert Serving(q, f) == [];
    forall j | 0 <= j < f ensures !Serves(q, j) {
      ServingExactly(q, f, j);
    }
  }

  lemma {:induction false} FlattenNonempty(groups: seq<seq<Answer>>)
    requires groups != [] && groups[|groups| - 1] != []
    ensures Flatten(groups) != []
  {
  }

  lemma FreshNonempty(q: Query)
    requires Contributors(q) != []
    ensures Fresh(q) != []
  {
    var s := Contributors(q);
    var last := s[|s| - 1];
    assert last in s;
    ContributorsExactly(q, last);
    FlattenNonempty(Groups(q, s));
  }

  // ---- What decides a candidate's health ----

  /** The candidate is checked by this cluster, and the local machine is there
      to ask. */
  ghost predicate Gated(q: Query, i: nat)
    requires i < |Cands(q)|
  {
    q.readings.Some? && exists lc | lc in q.rec.localChecks :: lc.targetKey == Cands(q)[i].targetKey
  }

  /** The pushed health decides for a candidate that this cluster does not
      check, and for one it checks whose target is unknown and has completed no
      check; with answers and reached by the walk it contributes exactly when it
      is not pushed as unhealthy. */
  lemma PushedHealthDecides(q: Query, i: nat)
    requires i < |Cands(q)|
    requires Gated(q, i) ==> q.readings.value(i).state == "unknown" && !q.readings.value(i).ready
    ensures
      var c := Cands(q)[i];
      i in Contributors(q) <==>
      && c.health != "unhealthy" && |c.answers| > 0
      && (q.rec.mode == "all" || forall j | 0 <= j < i :: j !in Contributors(q))
  {
    ContributorsExactly(q, i);
    Preceded(q, i);
    hide Serving, Contributors;
  }

  /** For any other candidate the local state decides, whatever was pushed. */
  lemma LocalHealthDecides(q: Query, i: nat)
    requires i < |Cands(q)| && Gated(q, i)
    requires q.readings.value(i).state != "unknown" || q.readings.value(i).ready
    ensures
      var c := Cands(q)[i];
      i in Contributors(q) <==>
      && q.readings.value(i).state != "unhealthy" && |c.answers| > 0
      && (q.rec.mode == "all" || forall j | 0 <= j < i :: j !in Contributors(q))
  {
    ContributorsExactly(q, i);
    Preceded(q, i);
    hide Serving, Contributors;
  }

  /** No candidate before i serves exactly when none before it contributes. */
  lemma Preceded(q: Query, i: nat)
    requires i < |Cands(q)|
    ensures (forall j | 0 <= j < i :: !Serves(q, j)) <==> forall j | 0 <= j < i :: j !in Contributors(q)
  {
    forall j | 0 <= j < i ensures j in Contributors(q) <==> Contributes(q, j) {
      ContributorsExactly(q, j);
    }
    hide Serves, Contributors;
    if j: nat :| j < i && Serves(q, j) {
      LeastServing(q, j);
    }
  }

  lemma {:induction false} LeastServing(q: Query, i: nat)
    requires i < |Cands(q)| && Serves(q, i)
    ensures exists j | 0 <= j <= i :: Contributes(q, j)
  {
    hide Serves;
    if j: nat :| j < i && Serves(q, j) {
      LeastServing(q, j);
    } else {
      assert Contributes(q, i);
    }
  }

  // ---- What the union of the contributing groups holds ----

  /** How many times the contributing candidates among the first n offer x. */
  ghost function Offered(q: Query, x: Answer, n: nat): nat
    requires n <= |Cands(q)|
  {
    if n == 0 then 0
    else Offered(q, x, n - 1) + if Contributes(q, n - 1) then multiset(Cands(q)[n - 1].answers)[x] else 0
  }

  /** How many answers the contributing candidates among the first n have. */
  ghost function Offset(q: Query, n: nat): nat
    requires n <= |Cands(q)|
  {
    if n == 0 then 0
    else Offset(q, n - 1) + if Contributes(q, n - 1) then |Cands(q)[n - 1].answers| else 0
  }

  /** The contributors among the first n. */
  ghost function Taken(q: Query, n: nat): (s: seq<nat>)
    requires n <= |Cands(q)|
    ensures forall k | 0 <= k < |s| :: s[k] < n
  {
    if n == 0 then [] else if Contributes(q, n - 1) then Taken(q, n - 1) + [n - 1] else Taken(q, n - 1)
  }

  lemma {:induction false} TakenIsServing(q: Query, n: nat)
    requires n <= |Cands(q)|
    ensures Taken(q, n) == if q.rec.mode == "all" || Serving(q, n) == [] then Serving(q, n) else Serving(q, n)[..1]
  {
    if n > 0 {
      hide Serves, Contributes;
      TakenIsServing(q, n - 1);
      ContributesNext(q, n - 1);
    }
  }

  lemma ContributesNext(q: Query, i: nat)
    requires i < |Cands(q)|
    ensures Contributes(q, i) <==> Serves(q, i) && (q.rec.mode == "all" || Serving(q, i) == [])
  {
    hide Serves;
    forall j | 0 <= j < i ensures j in Serving(q, i) <==> Serves(q, j) {
      ServingExactly(q, i, j);
    }
    if Serving(q, i) != [] {
      assert Serving(q, i)[0] in Serving(q, i);
    }
  }

  lemma FlattenAppend(groups: seq<seq<Answer>>, g: seq<Answer>)
    ensures Flatten(groups + [g]) == Flatten(groups) + g
  {
    assert (groups + [g])[..|groups|] == groups;
  }

  /** The union of the first n candidates' contributions. */
  ghost function Union(q: Query, n: nat): seq<Answer>
    requires n <= |Cands(q)|
  {
    Flatten(Groups(q, Taken(q, n)))
  }

  lemma UnionStep(q: Query, n: nat)
    requires n < |Cands(q)|
    ensures Union(q, n + 1) == Union(q, n) + if Contributes(q, n) then Cands(q)[n].answers else []
  {
    hide Flatten, Contributes;
    if Contributes(q, n) {
      assert Groups(q, Taken(q, n) + [n]) == Groups(q, Taken(q, n)) + [Cands(q)[n].answers];
      FlattenAppend(Groups(q, Taken(q, n)), Cands(q)[n].answers);
    }
  }

  lemma {:induction false} UnionHolds(q: Query, x: Answer, n: nat)
    requires n <= |Cands(q)|
    ensures multiset(Union(q, n))[x] == Offered(q, x, n) && |Union(q, n)| == Offset(q, n)
  {
    hide Contributes, Union;
    if n > 0 {
      UnionHolds(q, x, n - 1);
      UnionStep(q, n - 1);
    } else {
      NothingTaken(q);
    }
  }

  lemma NothingTaken(q: Query)
    ensures Union(q, 0) == []
  {
  }

  lemma {:induction false} UnionExtends(q: Query, m: nat, n: nat)
    requires m <= n <= |Cands(q)|
    ensures Union(q, m) <= Union(q, n)
  {
    hide Union, Contributes;
    if m < n {
      UnionExtends(q, m, n - 1);
      UnionStep(q, n - 1);
    }
  }

  lemma FreshIsUnion(q: Query)
    ensures Fresh(q) == Union(q, |Cands(q)|)
  {
    hide Flatten, Groups, Contributes, Serves;
    TakenIsServing(q, |Cands(q)|);
  }

  /** The fresh set is every contributing candidate's answers, one candidate
      after the other: each answer as often as they offer it together, and
      candidate i's answers in its place. */
  lemma FreshIsTheUnion(q: Query, x: Answer, i: nat)
    ensures multiset(Fresh(q))[x] == Offered(q, x, |Cands(q)|)
    ensures |Fresh(q)| == Offset(q, |Cands(q)|)
    ensures i < |Cands(q)| && Contributes(q, i) ==>
              && Offset(q, i) + |Cands(q)[i].answers| <= |Fresh(q)|
              && Fresh(q)[Offset(q, i)..Offset(q, i) + |Cands(q)[i].answers|] == Cands(q)[i].answers
  {
    hide Union, Contributes, Fresh, Offered;
    FreshIsUnion(q);
    UnionHolds(q, x, |Cands(q)|);
    if i < |Cands(q)| && Contributes(q, i) {
      UnionHolds(q, x, i);
      UnionStep(q, i);
      UnionExtends(q, i + 1, |Cands(q)|);
    }
  }

  /** The keys gathered are exactly those of the contributing candidates. */
  lemma FreshKeysExactly(q: Query, key: string)
    ensures key in FreshKeys(q) <==>
            exists i | 0 <= i < |Cands(q)| :: Contributes(q, i) && Cands(q)[i].targetKey == key
  {
    var s := Contributors(q);
    hide Contributors;
    if key in FreshKeys(q) {
      var k :| 0 <= k < |s| && Cands(q)[s[k]].targetKey == key;
      assert s[k] in s;
      ContributorsExactly(q, s[k]);
    }
    if i: nat :| i < |Cands(q)| && Contributes(q, i) && Cands(q)[i].targetKey == key {
      ContributorsExactly(q, i);
      var k :| 0 <= k < |s| && s[k] == i;
      assert FreshKeys(q)[k] == key;
    }
  }

  // ---- The state and what one call does to it ----

  datatype EvalState = EvalState(damp: map<string, D.DampState>, active: map<string, seq<string>>)

  ghost function DampOf(s: EvalState, name: string): Option<D.DampState> {
    if name in s.damp then Some(s.damp[name]) else None
  }

  ghost function ActiveOf(s: EvalState, name: string): seq<string> {
    if name in s.active then s.active[name] else []
  }

  /** The damper call a query makes, when its walk finds a contributor. */
  ghost function DamperCall(s: EvalState, q: Query): D.Call {
    D.Call(Fresh(q), ForcedMove(q, ActiveOf(s, q.rec.fqdn)), q.now)
  }

  ghost predicate Walks(q: Query) {
    q.rec.candidates.Some? && Contributors(q) != []
  }

  ghost function After(s: EvalState, q: Query): EvalState {
    if !Walks(q) then s
    else
      var name := q.rec.fqdn;
      var d := D.Step(DampOf(s, name), DamperCall(s, q));
      EvalState(s.damp[name := d],
                if Same(d.served, Fresh(q)) then s.active[name := FreshKeys(q)] else s.active)
  }

  ghost function OutcomeOf(s: EvalState, q: Query): Outcome {
    if q.rec.candidates.None? then
      if q.rec.state == STATE_OK || q.rec.state == STATE_DEGRADED then Serve(q.rec.answers) else ServFail
    else if Contributors(q) == [] then ServFail
    else Serve(After(s, q).damp[q.rec.fqdn].served)
  }

  // ---- The code, as it updates its state ----

  class Evaluator {
    const damper: D.Damper
    var activeKeys: map<string, seq<string>>

    constructor ()
      ensures View() == EvalState(map[], map[])
      ensures fresh(damper)
    {
      damper := new D.Damper();
      activeKeys := map[];
    }

    ghost function View(): EvalState
      reads this, damper
    {
      EvalState(damper.records, activeKeys)
    }

    method Resolve(rec: Record, readings: Option<nat -> Reading>, now: int)
      returns (answers: seq<Answer>, ok: bool)
      modifies this, damper
      ensures
        var q := Query(rec, readings, now);
        && View() == After(old(View()), q)
        && OutcomeOf(old(View()), q) == (if ok then Serve(answers) else ServFail)
    {
      hide Contributors, ForcedMove, Flatten, Same, D.Step, Serving, KeysAt;
      if rec.candidates.None? {
        if rec.state == STATE_OK || rec.state == STATE_DEGRADED {
          return rec.answers, true;
        }
        return [], false;
      }
      ghost var q := Query(rec, readings, now);
      var prevKeys := if rec.fqdn in activeKeys then activeKeys[rec.fqdn] else [];
      var keys, groups, forced := Walk(rec, rec.candidates.value, readings, prevKeys, q);
      if |groups| == 0 {
        return [], false;
      }
      var union := Concat(groups);
      var served := damper.Evaluate(rec.fqdn, union, forced, now);
      var applied := AnswerSetEqual(served, union);
      if applied {
        activeKeys := activeKeys[rec.fqdn := keys];
      }
      return served, true;
    }
  }

  method Concat(groups: seq<seq<Answer>>) returns (union: seq<Answer>)
    ensures union == Flatten(groups)
  {
    union := [];
    for i := 0 to |groups|
      invariant union == Flatten(groups[..i])
    {
      assert groups[..i + 1][..i] == groups[..i];
      union := union + groups[i];
    }
    assert groups[..|groups|] == groups;
  }

  method Viable(cand: Candidate, localTargets: set<string>, reading: Option<Reading>)
    returns (viable: bool, effectiveUnhealthy: bool)
    ensures effectiveUnhealthy <==>
            EffectiveHealth(cand, if cand.targetKey in localTargets then reading else None) == UNHEALTHY
    ensures viable <==> !effectiveUnhealthy
  {
    if cand.targetKey in localTargets && reading.Some? {
      var effective := reading.value.state;
      if effective == UNKNOWN && !reading.value.ready {
        effective := cand.health;
      }
      return effective != UNHEALTHY, effective == UNHEALTHY;
    }
    return cand.health != UNHEALTHY, cand.health == UNHEALTHY;
  }

  method LocalTargets(rec: Record) returns (keys: set<string>)
    ensures forall k :: k in keys <==> LocallyChecked(rec, k)
  {
    keys := {};
    for i := 0 to |rec.localChecks|
      invariant forall k :: k in keys <==> exists j | 0 <= j < i :: rec.localChecks[j].targetKey == k
    {
      keys := keys + {rec.localChecks[i].targetKey};
    }
    forall k ensures k in keys <==> LocallyChecked(rec, k) {
      if LocallyChecked(rec, k) {
        var lc :| lc in rec.localChecks && lc.targetKey == k;
        var j :| 0 <= j < |rec.localChecks| && rec.localChecks[j] == lc;
      }
    }
  }

  ghost predicate ForcedBelow(q: Query, active: seq<string>, n: nat)
    requires n <= |Cands(q)|
  {
    exists i | 0 <= i < n :: Unhealthy(q, i) && Cands(q)[i].targetKey in active
  }

  lemma NoneForced(q: Query, active: seq<string>)
    ensures !ForcedBelow(q, active, 0)
  {
  }

  lemma ForcedNext(q: Query, active: seq<string>, i: nat)
    requires i < |Cands(q)|
    ensures ForcedBelow(q, active, i + 1) <==>
            ForcedBelow(q, active, i) || (Unhealthy(q, i) && Cands(q)[i].targetKey in active)
  {
    hide Unhealthy;
  }

  /** The walk loop: it stops at the first serving candidate unless the mode
      is "all". */
  method Walk(rec: Record, cands: seq<Candidate>, readings: Option<nat -> Reading>,
              prevKeys: seq<string>, ghost q: Query)
    returns (keys: seq<string>, groups: seq<seq<Answer>>, forced: bool)
    requires q.rec == rec && rec.candidates == Some(cands) && q.readings == readings
    ensures groups == Groups(q, Contributors(q))
    ensures keys == FreshKeys(q)
    ensures forced == ForcedMove(q, prevKeys)
  {
    hide EffectiveHealth, LocallyChecked, Contributors, ForcedMove, ForcedBelow, Flatten;
    NoneForced(q, prevKeys);
    var localTargets := LocalTargets(rec);
    keys, groups, forced := [], [], false;
    var i := 0;
    while i < |cands|
      invariant 0 <= i <= |cands|
      invariant groups == Groups(q, Serving(q, i)) && keys == KeysAt(q, Serving(q, i))
      invariant forced == ForcedBelow(q, prevKeys, i)
      invariant !All(q) ==> Serving(q, i) == []
    {
      var cand := cands[i];
      var viable, effectiveUnhealthy :=
        Viable(cand, localTargets, if readings.Some? then Some(readings.value(i)) else None);
      assert effectiveUnhealthy == Unhealthy(q, i);
      if cand.targetKey in prevKeys && effectiveUnhealthy {
        forced := true;
      }
      ForcedNext(q, prevKeys, i);
      if viable && |cand.answers| != 0 {
        assert Serving(q, i + 1) == Serving(q, i) + [i];
        keys := keys + [cand.targetKey];
        groups := groups + [cand.answers];
        if rec.mode != MODE_ALL {
          i := i + 1;
          break;
        }
      }
      i := i + 1;
    }
    WalkEnds(q, prevKeys, i);
  }

  /** Where the walk may stop, what it gathered is what the whole list asks. */
  lemma WalkEnds(q: Query, active: seq<string>, i: nat)
    requires i <= |Cands(q)|
    requires i == |Cands(q)| || (!All(q) && Serving(q, i) != [])
    requires !All(q) ==> i == 0 || Serving(q, i - 1) == []
    ensures Serving(q, i) == Contributors(q)
    ensures ForcedBelow(q, active, i) == ForcedMove(q, active)
  {
    hide Unhealthy;
    ServingPrefix(q, i, |Cands(q)|);
    if !All(q) && i > 0 {
      forall j | 0 <= j < i - 1 ensures !Serves(q, j) {
        ServingExactly(q, i - 1, j);
      }
      if Serves(q, i - 1) {
        assert forall j | i <= j < |Cands(q)| :: !Inspected(q, j);
      }
    }
  }
}
