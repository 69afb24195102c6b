/** Names with and without their trailing dot. Questions, domains and records
    may be spelled either way; the evaluator's memory is keyed by the record's
    own spelling. */
module Spelling {
  import opened Bundles
  import opened Answers
  import opened Evaluation
  import opened EvaluationRuns
  import opened Failover
  import opened Handler

  /** b is a, which does not end in a dot, with one put behind it. */
  ghost predicate DotAdded(a: string, b: string) {
    (a == "" || a[|a| - 1] != '.') && b == a + "."
  }

  ghost predicate Alike(a: string, b: string) {
    a == b || DotAdded(a, b) || DotAdded(b, a)
  }

  ghost predicate RecordsAlike(a: seq<Record>, b: seq<Record>) {
    && |a| == |b|
    && forall i | 0 <= i < |a| :: Alike(a[i].fqdn, b[i].fqdn) && a[i].(fqdn := b[i].fqdn) == b[i]
  }

  /** The same request over the same bundle, up to the trailing dots of the
      names asked for, of the domain and of the records. */
  ghost predicate RequestsAlike(r: Request, r': Request) {
    && r.readings == r'.readings && r.now == r'.now
    && |r.questions| == |r'.questions|
    && (forall i | 0 <= i < |r.questions| ::
          && Alike(r.questions[i].name, r'.questions[i].name)
          && r.questions[i].qtype == r'.questions[i].qtype)
    && (r.current.Some? <==> r'.current.Some?)
    && (r.current.Some? ==>
          && Alike(r.current.value.domain, r'.current.value.domain)
          && RecordsAlike(r.current.value.records, r'.current.value.records))
  }

  lemma AlikeDotted(a: string, b: string)
    requires Alike(a, b)
    ensures Fqdn(a) == Fqdn(b)
  {
  }

  /** The same record is found, whatever its spelling. */
  lemma {:induction false} AlikeFound(lib: Library, a: seq<Record>, b: seq<Record>, name: string)
    requires RecordsAlike(a, b)
    ensures FirstMatch(lib, a, name).Some? <==> FirstMatch(lib, b, name).Some?
    ensures FirstMatch(lib, a, name).Some? ==>
              var x, y := FirstMatch(lib, a, name).value, FirstMatch(lib, b, name).value;
              y == x.(fqdn := y.fqdn)
  {
    if a != [] {
      hide Alike, Fqdn;
      AlikeDotted(a[0].fqdn, b[0].fqdn);
      AlikeFound(lib, a[1..], b[1..], name);
    }
  }

  // ---- A query under another spelling ----

  ghost function Respelled(q: Query, name: string): Query {
    q.(rec := q.rec.(fqdn := name))
  }

  lemma SameCandidates(q: Query, name: string)
    ensures
      var q' := Respelled(q, name);
      && Cands(q') == Cands(q) && All(q') == All(q)
      && forall i | 0 <= i < |Cands(q)| :: Serves(q', i) == Serves(q, i) && Unhealthy(q', i) == Unhealthy(q, i)
  {
    var q' := Respelled(q, name);
    assert forall key :: LocallyChecked(q'.rec, key) == LocallyChecked(q.rec, key);
    hide LocallyChecked, EffectiveHealth;
  }

  lemma {:induction false} SameServing(q: Query, name: string, n: nat)
    requires n <= |Cands(q)|
    ensures |Cands(Respelled(q, name))| == |Cands(q)|
    ensures Serving(Respelled(q, name), n) == Serving(q, n)
  {
    hide Serves;
    SameCandidates(q, name);
    if n > 0 {
      SameServing(q, name, n - 1);
    }
  }

  lemma SameWalk(q: Query, name: string)
    ensures
      var q' := Respelled(q, name);
      && Walks(q') == Walks(q) && Fresh(q') == Fresh(q)
      && forall active :: ForcedMove(q', active) == ForcedMove(q, active)
  {
    var q' := Respelled(q, name);
    SameCandidates(q, name);
    SameServing(q, name, |Cands(q)|);
    hide Serves, Unhealthy, Serving, Flatten;
    assert Contributors(q') == Contributors(q);
    assert Groups(q', Contributors(q)) == Groups(q, Contributors(q));
    forall active ensures ForcedMove(q', active) == ForcedMove(q, active) {
      assert forall i | 0 <= i < |Cands(q)| :: Inspected(q', i) == Inspected(q, i);
    }
  }

  /** The evaluator remembers the same under both names. */
  ghost predicate RememberedAlike(s: EvalState, a: string, b: string) {
    DampOf(s, a) == DampOf(s, b) && ActiveOf(s, a) == ActiveOf(s, b)
  }

  lemma SameOutcome(s: EvalState, q: Query, name: string)
    requires q.rec.candidates.None? || !Walks(q) || RememberedAlike(s, q.rec.fqdn, name)
    ensures OutcomeOf(s, Respelled(q, name)) == OutcomeOf(s, q)
  {
    var q' := Respelled(q, name);
    SameWalk(q, name);
    hide Walks, Fresh, ForcedMove;
    if q.rec.candidates.Some? {
      OutcomeIsServed(s, q);
      OutcomeIsServed(s, q');
      CallCandidate(s, q);
      CallCandidate(s, q');
    }
  }

  // ---- Replies ----

  /** Both requests are answered from the same record, spelled differently, and
      through the damper. */
  ghost predicate Respells(lib: Library, r: Request, r': Request) {
    && Resolves(lib, r) && Resolves(lib, r')
    && RecordFor(lib, r).value.candidates.Some?
    && RecordFor(lib, r).value.fqdn != RecordFor(lib, r').value.fqdn
  }

  lemma SameClass(lib: Library, r: Request, r': Request)
    requires RequestsAlike(r, r')
    ensures Asks(lib, r) == Asks(lib, r') && Resolves(lib, r) == Resolves(lib, r')
    ensures |r.questions| == 1 ==> Name(r) == Name(r')
    ensures r.current.Some? ==> Fqdn(r.current.value.domain) == Fqdn(r'.current.value.domain)
    ensures Asks(lib, r) ==> RecordFor(lib, r).Some? == RecordFor(lib, r').Some?
    ensures Resolves(lib, r) ==>
              && QueryOf(lib, r') == Respelled(QueryOf(lib, r), RecordFor(lib, r').value.fqdn)
              && RecordFor(lib, r').value.ttl == RecordFor(lib, r).value.ttl
  {
    hide FirstMatch, Fqdn, Alike;
    if |r.questions| == 1 {
      AlikeDotted(r.questions[0].name, r'.questions[0].name);
      if r.current.Some? {
        AlikeDotted(r.current.value.domain, r'.current.value.domain);
        AlikeFound(lib, r.current.value.records, r'.current.value.records, Name(r));
      }
    } else if r.current.Some? {
      AlikeDotted(r.current.value.domain, r'.current.value.domain);
    }
  }

  lemma ReplyFollowsOutcome(lib: Library, s: EvalState, r: Request, r': Request)
    requires RequestsAlike(r, r')
    requires Resolves(lib, r) && Resolves(lib, r') ==>
               OutcomeOf(s, QueryOf(lib, r)) == OutcomeOf(s, QueryOf(lib, r'))
    ensures ReplyTo(lib, s, r) == ReplyTo(lib, s, r')
  {
    SameClass(lib, r, r');
    hide Asks, RecordFor, OutcomeOf, Fqdn, ReplyA;
  }

  /** In every state of the evaluator the reply is the same however the name
      asked for and the domain are spelled, and however the records are, as long
      as the evaluator remembers the same under both spellings of the record. */
  lemma SpellingIsIrrelevant(lib: Library, s: EvalState, r: Request, r': Request)
    requires RequestsAlike(r, r')
    requires Respells(lib, r, r') ==>
               RememberedAlike(s, RecordFor(lib, r).value.fqdn, RecordFor(lib, r').value.fqdn)
    ensures ReplyTo(lib, s, r) == ReplyTo(lib, s, r')
  {
    SameClass(lib, r, r');
    hide Asks, RecordFor, OutcomeOf, Walks;
    if Resolves(lib, r) {
      SameOutcome(s, QueryOf(lib, r), RecordFor(lib, r').value.fqdn);
    }
    ReplyFollowsOutcome(lib, s, r, r');
  }

  // ---- When the spelling of a record does matter ----

  /** The run is over by the given time. */
  ghost predicate Before(run: seq<Query>, now: int) {
    Monotone(run) && forall i | 0 <= i < |run| :: run[i].now <= now
  }

  ghost predicate SameRepliesAlways(lib: Library, r: Request, r': Request) {
    forall run | Before(run, r.now) :: ReplyTo(lib, RunAll(run), r) == ReplyTo(lib, RunAll(run), r')
  }

  lemma {:induction false} NoneServed(lib: Library, answers: seq<Answer>, name: string, ttl: int)
    requires forall ip :: lib.parse4(ip).None?
    ensures ARecords(lib, answers, name, ttl) == []
  {
    if answers != [] {
      NoneServed(lib, answers[..|answers| - 1], name, ttl);
    }
  }

  /** A string longer than every key of the candidates. */
  lemma {:induction false} FreshKeyExists(cands: seq<Candidate>) returns (key: string)
    ensures forall i | 0 <= i < |cands| :: |cands[i].targetKey| < |key|
  {
    if cands == [] {
      key := "";
    } else {
      var n := |cands| - 1;
      var k := FreshKeyExists(cands[..n]);
      key := k + cands[n].targetKey + "k";
      assert forall i | 0 <= i < n :: cands[i] == cands[..n][i];
    }
  }

  /** Copies of one answer. */
  ghost function Copies(a: Answer, n: nat): seq<Answer> {
    seq(n, _ => a)
  }

  lemma {:induction false} ParsableIsShorter(lib: Library, answers: seq<Answer>)
    ensures |Parsable(lib, answers)| <= |answers|
  {
    if answers != [] {
      ParsableIsShorter(lib, answers[..|answers| - 1]);
    }
  }

  lemma {:induction false} NothingForOthers(run: seq<Query>, name: string)
    requires forall i | 0 <= i < |run| :: run[i].rec.fqdn != name
    ensures Only(run, name) == []
  {
    if run != [] {
      NothingForOthers(run[..|run| - 1], name);
    }
  }

  /** A name the run never asked for is served its fresh walk. */
  lemma UnseenServesFresh(run: seq<Query>, q: Query)
    requires Walks(q) && forall i | 0 <= i < |run| :: run[i].rec.fqdn != q.rec.fqdn
    ensures OutcomeOf(RunAll(run), q) == Serve(Fresh(q))
  {
    NothingForOthers(run, q.rec.fqdn);
    NamesAreIndependent(run, q);
    OutcomeIsServed(RunAll([]), q);
    CallCandidate(RunAll([]), q);
    hide Walks, Fresh, RunAll, Only;
    assert RunAll([]) == EvalState(map[], map[]) by {
      EmptyRun();
    }
  }

  lemma EmptyRun()
    ensures RunAll([]) == EvalState(map[], map[])
  {
  }

  /** A run that freezes the name on `mine`, by records of the same spelling. */
  lemma FrozenServesOld(q: Query, mine: seq<Answer>) returns (run: seq<Query>)
    requires Walks(q) && mine != [] && !Same(mine, Fresh(q))
    ensures Before(run, q.now) && forall i | 0 <= i < |run| :: run[i].rec.fqdn == q.rec.fqdn
    ensures OutcomeOf(RunAll(run), q) == Serve(mine)
  {
    hide Same, After, Contributors, Fresh, FreshKeys, ForcedMove, RunAll, OutcomeOf;
    FreshNonempty(q);
    var key := FreshKeyExists(Cands(q));
    run := FreezeRun(q, key, mine, Fresh(q));
    FreezeRunFreezes(q, key, mine, Fresh(q));
    UnusedKeyForcesNothing(q, key);
    FrozenKeepsOld(RunAll(run), q, mine, q.now - SECOND);
  }

  lemma UnusedKeyForcesNothing(q: Query, key: string)
    requires forall i | 0 <= i < |Cands(q)| :: |Cands(q)[i].targetKey| < |key|
    ensures !ForcedMove(q, [key])
  {
    hide Inspected, Unhealthy;
  }

  /** More copies of one address than the walk gathers. */
  lemma MoreRecords(lib: Library, walk: seq<Answer>, ip: string, name: string, ttl: int)
    requires lib.parse4(ip).Some?
    ensures
      var mine := Copies(Answer(ip, 80), |walk| + 1);
      && mine != [] && !Same(mine, walk)
      && ReplyA(lib, Serve(mine), name, ttl) != ReplyA(lib, Serve(walk), name, ttl)
  {
    var mine := Copies(Answer(ip, 80), |walk| + 1);
    assert |multiset(mine)| != |multiset(walk)|;
    AllParsable(lib, mine);
    ParsableIsShorter(lib, walk);
    ARecordsExactly(lib, mine, name, ttl);
    ARecordsExactly(lib, walk, name, ttl);
    hide Parsable, ARecords;
  }

  lemma RespelledDiffers(lib: Library, r: Request, r': Request, ip: string)
    requires RequestsAlike(r, r') && Respells(lib, r, r')
    ensures lib.parse4(ip).Some? && Walks(QueryOf(lib, r)) ==> !SameRepliesAlways(lib, r, r')
  {
    hide Same, Fresh, RunAll, OutcomeOf, Walks, RecordFor, ReplyA, Copies, Fqdn, RequestsAlike, Before;
    SameClass(lib, r, r');
    var q, q' := QueryOf(lib, r), QueryOf(lib, r');
    if lib.parse4(ip).Some? && Walks(q) {
      SameWalk(q, q'.rec.fqdn);
      var mine := Copies(Answer(ip, 80), |Fresh(q)| + 1);
      MoreRecords(lib, Fresh(q), ip, Name(r), q.rec.ttl);
      var run := FrozenServesOld(q, mine);
      UnseenServesFresh(run, q');
      assert Before(run, r.now) && ReplyTo(lib, RunAll(run), r) != ReplyTo(lib, RunAll(run), r');
    }
  }

  lemma ServingWalks(q: Query, i: nat)
    requires q.rec.candidates.Some? && i < |Cands(q)| && Serves(q, i)
    ensures Walks(q)
  {
    hide Serves;
    ServingExactly(q, |Cands(q)|, i);
  }

  /** Exactly when the spelling matters: over all runs before the request the two
      replies agree unless both come from one record through the damper, under
      two spellings, a candidate serves, and some address has an IPv4 form. A
      bundle that respells a frozen record so has its damping forgotten. */
  lemma SpellingMattersExactly(lib: Library, r: Request, r': Request)
    requires RequestsAlike(r, r')
    ensures SameRepliesAlways(lib, r, r') <==>
            !(&& Respells(lib, r, r') && (exists ip :: lib.parse4(ip).Some?)
              && exists i | 0 <= i < |Cands(QueryOf(lib, r))| :: Serves(QueryOf(lib, r), i))
  {
    SameClass(lib, r, r');
    hide ReplyTo, RunAll, Serves, FirstMatch, Before, RequestsAlike;
    if Respells(lib, r, r') {
      var q := QueryOf(lib, r);
      if ip, i :| lib.parse4(ip).Some? && 0 <= i < |Cands(q)| && Serves(q, i) {
        ServingWalks(q, i);
        RespelledDiffers(lib, r, r', ip);
      } else {
        forall run | Before(run, r.now) ensures ReplyTo(lib, RunAll(run), r) == ReplyTo(lib, RunAll(run), r') {
          UnparsedOrUnserved(lib, run, r, r');
        }
      }
    } else {
      forall run | Before(run, r.now) ensures ReplyTo(lib, RunAll(run), r) == ReplyTo(lib, RunAll(run), r') {
        SpellingIsIrrelevant(lib, RunAll(run), r, r');
      }
    }
  }

  lemma UnparsedOrUnserved(lib: Library, run: seq<Query>, r: Request, r': Request)
    requires RequestsAlike(r, r') && Respells(lib, r, r')
    requires || (forall ip :: lib.parse4(ip).None?)
             || forall i | 0 <= i < |Cands(QueryOf(lib, r))| :: !Serves(QueryOf(lib, r), i)
    ensures ReplyTo(lib, RunAll(run), r) == ReplyTo(lib, RunAll(run), r')
  {
    SameClass(lib, r, r');
    hide RunAll, Serves, Cands, RecordFor, RequestsAlike;
    if forall ip :: lib.parse4(ip).None? {
      UnparsedFails(lib, RunAll(run), r);
      UnparsedFails(lib, RunAll(run), r');
    } else {
      Unserved(run, QueryOf(lib, r), QueryOf(lib, r').rec.fqdn);
      ReplyFollowsOutcome(lib, RunAll(run), r, r');
    }
  }

  lemma UnparsedFails(lib: Library, s: EvalState, r: Request)
    requires Resolves(lib, r) && forall ip :: lib.parse4(ip).None?
    ensures ReplyTo(lib, s, r) == Reply(ServerFailure, [], [])
  {
    hide OutcomeOf, FirstMatch, ARecords, Fqdn;
    var o := OutcomeOf(s, QueryOf(lib, r));
    if o.Serve? {
      NoneServed(lib, o.answers, Name(r), RecordFor(lib, r).value.ttl);
    }
  }

  lemma Unserved(run: seq<Query>, q: Query, name: string)
    requires q.rec.candidates.Some? && forall i | 0 <= i < |Cands(q)| :: !Serves(q, i)
    ensures OutcomeOf(RunAll(run), Respelled(q, name)) == OutcomeOf(RunAll(run), q)
  {
    hide OutcomeOf, RunAll, Serves;
    SameCandidates(q, name);
    FailsExactlyWhenNoneServes(run, q);
    FailsExactlyWhenNoneServes(run, Respelled(q, name));
  }
}
