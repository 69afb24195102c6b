/** Classification of DNS queries for one zone. Zone membership, lower-casing
    and IPv4 parsing are given functions of the libraries. */
module Handler {
  import opened Bundles
  import opened Answers
  import opened Evaluation
  import opened EvaluationRuns
  import D = Damping

  datatype Rcode = NoError | ServerFailure | NameError | Refused
  datatype QType = TypeA | TypeAAAA | TypeOther(code: int)
  datatype Question = Question(name: string, qtype: QType)
  datatype ARecord = ARecord(name: string, ttl: int, ip: bv32)
  datatype Soa = Soa(zone: string, ttl: int)

  const NEGATIVE_TTL := 5

  /** The libraries' part: zone membership, lower case, and the IPv4 form of
      an address if it has one. */
  datatype Library = Library(
    inZone: (string, string) -> bool, lower: string -> string, parse4: string -> Option<bv32>)

  datatype Reply = Reply(rcode: Rcode, answer: seq<ARecord>, ns: seq<Soa>)

  // ---- Names ----

  predicate Dotted(s: string) {
    s != "" && s[|s| - 1] == '.'
  }

  /** The shortest string that extends s and ends in a dot. */
  function Fqdn(s: string): (d: string)
    ensures s <= d && Dotted(d)
    ensures forall t | s <= t && Dotted(t) :: |d| <= |t|
  {
    if s != [] && s[|s| - 1] == '.' then s else s + "."
  }

  predicate Matches(lib: Library, r: Record, name: string) {
    lib.lower(Fqdn(r.fqdn)) == lib.lower(name)
  }

  ghost predicate Known(lib: Library, b: Bundle, name: string) {
    exists r | r in b.records :: Named(lib, r, name)
  }

  /** The record a name is answered from: the first that matches. */
  ghost function FirstMatch(lib: Library, records: seq<Record>, name: string): Option<Record> {
    if records == [] then None
    else if Matches(lib, records[0], name) then Some(records[0])
    else FirstMatch(lib, records[1..], name)
  }

  /** The record's name, with a dot put behind it unless it ends in one, is
      the asked name when both are in lower case. */
  ghost predicate Named(lib: Library, r: Record, name: string) {
    lib.lower(if r.fqdn != "" && r.fqdn[|r.fqdn| - 1] == '.' then r.fqdn else r.fqdn + ".") == lib.lower(name)
  }

  /** Record i is the first of that name. */
  ghost predicate FirstNamed(lib: Library, records: seq<Record>, name: string, i: nat) {
    i < |records| && Named(lib, records[i], name) && forall j | 0 <= j < i :: !Named(lib, records[j], name)
  }

  lemma {:induction false} FirstMatchExactly(lib: Library, records: seq<Record>, name: string)
    ensures FirstMatch(lib, records, name).Some? <==> exists r | r in records :: Named(lib, r, name)
    ensures FirstMatch(lib, records, name).Some? ==>
              exists i: nat :: FirstNamed(lib, records, name, i) && FirstMatch(lib, records, name) == Some(records[i])
  {
    if records != [] {
      FirstMatchExactly(lib, records[1..], name);
      MatchesNamed(lib, records[0], name);
      hide Matches, Named;
      assert forall r :: r in records <==> r == records[0] || r in records[1..];
      if Named(lib, records[0], name) {
        assert FirstNamed(lib, records, name, 0);
      } else if FirstMatch(lib, records, name).Some? {
        var i: nat :| FirstNamed(lib, records[1..], name, i)
                      && FirstMatch(lib, records[1..], name) == Some(records[1..][i]);
        assert forall j | 1 <= j < |records| :: records[j] == records[1..][j - 1];
        assert FirstNamed(lib, records, name, i + 1);
      }
    }
  }

  lemma MatchesNamed(lib: Library, r: Record, name: string)
    ensures Matches(lib, r, name) <==> Named(lib, r, name)
  {
  }

  /** The record found is the first of the asked name. */
  method Lookup(lib: Library, b: Bundle, name: string) returns (r: Option<Record>)
    ensures r == FirstMatch(lib, b.records, name)
    ensures r.None? ==> forall s | s in b.records :: !Named(lib, s, name)
    ensures r.Some? ==> exists i: nat :: FirstNamed(lib, b.records, name, i) && r == Some(b.records[i])
  {
    FirstMatchExactly(lib, b.records, name);
    hide Matches, Named, FirstNamed;
    for i := 0 to |b.records|
      invariant FirstMatch(lib, b.records, name) == FirstMatch(lib, b.records[i..], name)
    {
      if Matches(lib, b.records[i], name) {
        return Some(b.records[i]);
      }
      assert b.records[i..][1..] == b.records[i + 1..];
    }
    return None;
  }

  // ---- What a reply must be ----

  /** The A records of the answers that have an IPv4 form, in order. */
  ghost function ARecords(lib: Library, answers: seq<Answer>, name: string, ttl: int): seq<ARecord> {
    if answers == [] then []
    else
      var n := |answers| - 1;
      var rest, ip := ARecords(lib, answers[..n], name, ttl), lib.parse4(answers[n].ip);
      if ip.Some? then rest + [ARecord(name, ttl % 0x1_0000_0000, ip.value)] else rest
  }

  ghost function NxDomain(zone: string): Reply {
    Reply(NameError, [], [Soa(zone, NEGATIVE_TTL)])
  }

  ghost function ReplyA(lib: Library, o: Outcome, name: string, ttl: int): Reply {
    if o.ServFail? then Reply(ServerFailure, [], [])
    else
      var rrs := ARecords(lib, o.answers, name, ttl);
      Reply(if rrs == [] then ServerFailure else NoError, rrs, [])
  }

  /** A DNS request as the handler meets it: what the store holds, and what
      the local machine says, at that moment. */
  datatype Request = Request(
    questions: seq<Question>, current: Option<Bundle>, readings: Option<nat -> Reading>, now: int)

  /** The name asked for, when the handler gets as far as looking it up. */
  ghost predicate Asks(lib: Library, r: Request) {
    && |r.questions| == 1 && r.current.Some?
    && lib.inZone(Fqdn(r.current.value.domain), Fqdn(r.questions[0].name))
  }

  ghost function Name(r: Request): string
    requires |r.questions| == 1
  {
    Fqdn(r.questions[0].name)
  }

  ghost function RecordFor(lib: Library, r: Request): Option<Record>
    requires |r.questions| == 1 && r.current.Some?
  {
    FirstMatch(lib, r.current.value.records, Name(r))
  }

  /** The query an A request puts to the evaluator, if it puts one. */
  ghost predicate Resolves(lib: Library, r: Request) {
    Asks(lib, r) && r.questions[0].qtype.TypeA? && RecordFor(lib, r).Some?
  }

  ghost function QueryOf(lib: Library, r: Request): Query
    requires Resolves(lib, r)
  {
    Query(RecordFor(lib, r).value, r.readings, r.now)
  }

  ghost function StateAfter(lib: Library, s: EvalState, r: Request): EvalState {
    if Resolves(lib, r) then After(s, QueryOf(lib, r)) else s
  }

  ghost function ReplyTo(lib: Library, s: EvalState, r: Request): Reply {
    if |r.questions| != 1 then Reply(Refused, [], [])
    else if r.current.None? then Reply(ServerFailure, [], [])
    else if !Asks(lib, r) then Reply(Refused, [], [])
    else if RecordFor(lib, r).None? then NxDomain(Fqdn(r.current.value.domain))
    else if r.questions[0].qtype.TypeA?
    then ReplyA(lib, OutcomeOf(s, QueryOf(lib, r)), Name(r), RecordFor(lib, r).value.ttl)
    else Reply(NoError, [], [])
  }

  // ---- The code, as it fills in a message ----

  class Msg {
    var rcode: Rcode
    var answer: seq<ARecord>
    var ns: seq<Soa>
    var authoritative: bool
    var recursionAvailable: bool

    /** An empty authoritative reply that offers no recursion. */
    constructor ()
      ensures View() == Reply(NoError, [], []) && authoritative && !recursionAvailable
    {
      rcode, answer, ns, authoritative, recursionAvailable := NoError, [], [], true, false;
    }

    ghost function View(): Reply
      reads this
    {
      Reply(rcode, answer, ns)
    }

    method SetNxDomain(zone: string)
      modifies this`rcode, this`ns
      ensures rcode == NameError && ns == old(ns) + [Soa(zone, NEGATIVE_TTL)]
    {
      rcode := NameError;
      ns := ns + [Soa(zone, NEGATIVE_TTL)];
    }
  }

  class DnsHandler {
    const evaluator: Evaluator
    const lib: Library

    constructor (lib: Library)
      ensures this.lib == lib && fresh(evaluator) && fresh(evaluator.damper)
      ensures evaluator.View() == RunAll([])
    {
      this.lib := lib;
      evaluator := new Evaluator();
    }

    method ServeDns(questions: seq<Question>, current: Option<Bundle>,
                    readings: Option<nat -> Reading>, now: int) returns (msg: Msg)
      modifies evaluator, evaluator.damper
      ensures fresh(msg) && msg.authoritative && !msg.recursionAvailable
      ensures
        var r := Request(questions, current, readings, now);
        && msg.View() == ReplyTo(lib, old(evaluator.View()), r)
        && evaluator.View() == StateAfter(lib, old(evaluator.View()), r)
    {
      hide FirstMatch, Matches, Fqdn, After, ReplyA, OutcomeOf;
      msg := new Msg();
      if |questions| != 1 {
        msg.rcode := Refused;
        return;
      }
      if current.None? {
        msg.rcode := ServerFailure;
        return;
      }
      var zone, name := Fqdn(current.value.domain), Fqdn(questions[0].name);
      if !lib.inZone(zone, name) {
        msg.rcode := Refused;
        return;
      }
      var rec := Lookup(lib, current.value, name);
      if rec.None? {
        msg.SetNxDomain(zone);
      } else if questions[0].qtype.TypeA? {
        AnswerA(msg, rec.value, name, readings, now);
      }
    }

    method AnswerA(msg: Msg, rec: Record, name: string, readings: Option<nat -> Reading>, now: int)
      requires msg.View() == Reply(NoError, [], [])
      modifies msg`rcode, msg`answer, evaluator, evaluator.damper
      ensures msg.View() == ReplyA(lib, OutcomeOf(old(evaluator.View()), Query(rec, readings, now)), name, rec.ttl)
      ensures evaluator.View() == After(old(evaluator.View()), Query(rec, readings, now))
    {
      hide After, OutcomeOf;
      var answers, ok := evaluator.Resolve(rec, readings, now);
      if !ok {
        msg.rcode := ServerFailure;
        return;
      }
      for i := 0 to |answers|
        invariant msg.rcode == NoError && msg.ns == []
        invariant msg.answer == ARecords(lib, answers[..i], name, rec.ttl)
        invariant evaluator.View() == After(old(evaluator.View()), Query(rec, readings, now))
      {
        assert answers[..i + 1][..i] == answers[..i];
        var ip := lib.parse4(answers[i].ip);
        if ip.Some? {
          msg.answer := msg.answer + [ARecord(name, rec.ttl % 0x1_0000_0000, ip.value)];
        }
      }
      assert answers[..|answers|] == answers;
      if |msg.answer| == 0 {
        msg.rcode := ServerFailure;
      }
    }
  }

  // ---- Properties of every reply ----

  /** The classification, for every evaluator state and every request:
      - REFUSED is exactly more or fewer questions than one, or a name outside
        the zone of the bundle held; with no bundle the answer is SERVFAIL;
      - NXDOMAIN is exactly an in-zone name no record has, and is exactly when
        there is an authority section: one SOA of the zone, for five seconds;
      - an empty NOERROR is exactly a known in-zone name asked for another
        type than A, whatever the record's state;
      - answers come only with NOERROR, and only to A queries, and only these
        touch the evaluator. */
  lemma Classification(lib: Library, s: EvalState, r: Request)
    ensures
      var p, one := ReplyTo(lib, s, r), |r.questions| == 1;
      var asked := one && r.current.Some? && lib.inZone(Fqdn(r.current.value.domain), Fqdn(r.questions[0].name));
      var known := asked && exists x | x in r.current.value.records :: Named(lib, x, Fqdn(r.questions[0].name));
      && (p.rcode == Refused <==> !one || (r.current.Some? && !asked))
      && (one && r.current.None? ==> p.rcode == ServerFailure)
      && (p.rcode == NameError <==> asked && !known)
      && p.ns == (if asked && !known then [Soa(Fqdn(r.current.value.domain), 5)] else [])
      && (p.rcode == NoError && p.answer == [] <==> known && r.questions[0].qtype != TypeA)
      && (p.answer != [] ==> p.rcode == NoError && known && r.questions[0].qtype == TypeA)
      && (StateAfter(lib, s, r) != s ==> known && r.questions[0].qtype == TypeA)
  {
    hide FirstMatch, Named, OutcomeOf, Fqdn, After, ARecords;
    if Asks(lib, r) {
      FirstMatchExactly(lib, r.current.value.records, Name(r));
    }
  }

  /** Never an empty NOERROR for A: a known name gets NOERROR with at least
      one record or SERVFAIL with none, never NXDOMAIN. */
  lemma KnownAIsAnswerOrServfail(lib: Library, s: EvalState, r: Request)
    requires Asks(lib, r) && Known(lib, r.current.value, Name(r)) && r.questions[0].qtype.TypeA?
    ensures
      var p := ReplyTo(lib, s, r);
      && p.ns == []
      && ((p.rcode == NoError && p.answer != []) || (p.rcode == ServerFailure && p.answer == []))
  {
    hide FirstMatch, Matches, OutcomeOf, Fqdn;
    FirstMatchExactly(lib, r.current.value.records, Name(r));
  }

  // ---- SERVFAIL exactly ----

  /** The answers that have an IPv4 form, in order. */
  ghost function Parsable(lib: Library, answers: seq<Answer>): (s: seq<Answer>)
    ensures forall i | 0 <= i < |s| :: lib.parse4(s[i].ip).Some?
  {
    if answers == [] then []
    else
      var n := |answers| - 1;
      if lib.parse4(answers[n].ip).Some? then Parsable(lib, answers[..n]) + [answers[n]]
      else Parsable(lib, answers[..n])
  }

  lemma {:induction false} NoneParsable(lib: Library, answers: seq<Answer>)
    ensures Parsable(lib, answers) == [] <==> forall a | a in answers :: lib.parse4(a.ip).None?
  {
    if answers != [] {
      var n := |answers| - 1;
      NoneParsable(lib, answers[..n]);
      assert answers[n] in answers;
      assert forall a | a in answers :: a in answers[..n] || a == answers[n];
      assert forall a | a in answers[..n] :: a in answers;
    }
  }

  /** With IPv4 addresses only, every answer served is in the reply. */
  lemma {:induction false} AllParsable(lib: Library, answers: seq<Answer>)
    requires forall i | 0 <= i < |answers| :: lib.parse4(answers[i].ip).Some?
    ensures Parsable(lib, answers) == answers
  {
    if answers != [] {
      AllParsable(lib, answers[..|answers| - 1]);
    }
  }

  ghost function RecordOf(lib: Library, a: Answer, name: string, ttl: int): ARecord
    requires lib.parse4(a.ip).Some?
  {
    ARecord(name, ttl % 0x1_0000_0000, lib.parse4(a.ip).value)
  }

  /** One record for each answer with an IPv4 form. */
  lemma {:induction false} ARecordsExactly(lib: Library, answers: seq<Answer>, name: string, ttl: int)
    ensures
      var rrs, kept := ARecords(lib, answers, name, ttl), Parsable(lib, answers);
      |rrs| == |kept| && forall i | 0 <= i < |kept| :: rrs[i] == RecordOf(lib, kept[i], name, ttl)
  {
    if answers != [] {
      ARecordsExactly(lib, answers[..|answers| - 1], name, ttl);
    }
  }

  lemma SameElements(a: seq<Answer>, b: seq<Answer>)
    requires Same(a, b)
    ensures forall x :: x in a <==> x in b
  {
    forall x ensures x in a <==> x in b {
      assert x in multiset(a) <==> x in multiset(b);
    }
  }

  lemma LastServed(run: seq<Query>, q: Query)
    requires q.rec.candidates.Some? && OutcomeOf(RunAll(run), q).Serve?
    ensures DampOf(RunAll(run + [q]), q.rec.fqdn).Some?
    ensures OutcomeOf(RunAll(run), q).answers == DampOf(RunAll(run + [q]), q.rec.fqdn).value.served
  {
    hide Same, D.Step, Fresh, FreshKeys, ForcedMove, Contributors;
    assert (run + [q])[..|run|] == run;
  }

  /** In every run, an A request for a candidate-walk record fails exactly when
      no candidate serves, or when the round now being served (this one, or the
      last applied before it) contributed no IPv4 address; otherwise the reply
      holds one record for each answer served that has an IPv4 form, in order. */
  lemma ServfailExactly(lib: Library, run: seq<Query>, r: Request)
    requires Resolves(lib, r) && RecordFor(lib, r).value.candidates.Some?
    ensures
      var q, p := QueryOf(lib, r), ReplyTo(lib, RunAll(run), r);
      var rounds, name := LastApplied(run + [q]), q.rec.fqdn;
      && (p.rcode == ServerFailure <==>
          || (forall i | 0 <= i < |Cands(q)| :: !Serves(q, i))
          || (name in rounds && forall a | a in rounds[name].answers :: lib.parse4(a.ip).None?))
      && (p.rcode != ServerFailure ==>
            var served := OutcomeOf(RunAll(run), q).answers;
            var kept := Parsable(lib, served);
            && ((forall i | 0 <= i < |served| :: lib.parse4(served[i].ip).Some?) ==> kept == served)
            && p.rcode == NoError && |p.answer| == |kept|
            && forall i | 0 <= i < |kept| :: p.answer[i] == RecordOf(lib, kept[i], Name(r), q.rec.ttl))
  {
    hide Serves, After, RunAll, FirstMatch, LastApplied, Same;
    var q := QueryOf(lib, r);
    FailsExactlyWhenNoneServes(run, q);
    var o := OutcomeOf(RunAll(run), q);
    if o.Serve? {
      LastServed(run, q);
      ActiveKeysMatchServed(run + [q]);
      SameElements(o.answers, LastApplied(run + [q])[q.rec.fqdn].answers);
      NoneParsable(lib, o.answers);
      if forall i | 0 <= i < |o.answers| :: lib.parse4(o.answers[i].ip).Some? {
        AllParsable(lib, o.answers);
      }
      ARecordsExactly(lib, o.answers, Name(r), RecordFor(lib, r).value.ttl);
    }
  }

  /** A v1.0 record, without candidates, is answered by its state alone: SERVFAIL
      exactly when the state is neither "ok" nor "degraded" or no answer has an
      IPv4 form, otherwise one record for each that has; the evaluator is not
      touched. */
  lemma LegacyReplyExactly(lib: Library, s: EvalState, r: Request)
    requires Resolves(lib, r) && RecordFor(lib, r).value.candidates.None?
    ensures
      var rec, p := RecordFor(lib, r).value, ReplyTo(lib, s, r);
      var kept := Parsable(lib, rec.answers);
      && StateAfter(lib, s, r) == s
      && (p.rcode == ServerFailure <==>
          (rec.state != "ok" && rec.state != "degraded") || forall a | a in rec.answers :: lib.parse4(a.ip).None?)
      && (p.rcode != ServerFailure ==>
            && p.rcode == NoError && |p.answer| == |kept|
            && forall i | 0 <= i < |kept| :: p.answer[i] == RecordOf(lib, kept[i], Name(r), rec.ttl))
  {
    var rec := RecordFor(lib, r).value;
    LegacyKeepsState(s, QueryOf(lib, r));
    NoneParsable(lib, rec.answers);
    ARecordsExactly(lib, rec.answers, Name(r), rec.ttl);
    hide FirstMatch, OutcomeOf, After, ARecords, Parsable;
  }

  /** A single-mode record whose first serving candidate has only a non-IPv4
      address, and whose second has an IPv4 one. */
  ghost function TwoFamilies(fqdn: string, ip6: string, ip4: string): Record {
    Record(fqdn, 5, STATE_OK, "single", [],
           Some([Candidate("z-01", "a", HEALTHY, [Answer(ip6, 80)]),
                 Candidate("z-02", "b", HEALTHY, [Answer(ip4, 80)])]), [])
  }

  /** The walk does not look at addresses: such a record is answered SERVFAIL
      although its second candidate could be answered from. */
  lemma UnparsableFirstHidesLater(lib: Library, fqdn: string, ip6: string, ip4: string, r: Request)
    requires lib.parse4(ip6).None? && lib.parse4(ip4).Some?
    requires Resolves(lib, r) && RecordFor(lib, r) == Some(TwoFamilies(fqdn, ip6, ip4))
    ensures
      var q, p := QueryOf(lib, r), ReplyTo(lib, RunAll([]), r);
      && Serves(q, 0) && Serves(q, 1) && lib.parse4(Cands(q)[1].answers[0].ip).Some?
      && p.rcode == ServerFailure
  {
    var q := QueryOf(lib, r);
    FirstFamilyServed(q, fqdn, ip6, ip4);
    NoneParsable(lib, [Answer(ip6, 80)]);
    ARecordsExactly(lib, [Answer(ip6, 80)], Name(r), 5);
    hide FirstMatch, RunAll, OutcomeOf, Serves, ARecords, Parsable;
  }

  lemma FirstFamilyServed(q: Query, fqdn: string, ip6: string, ip4: string)
    requires q.rec == TwoFamilies(fqdn, ip6, ip4)
    ensures Serves(q, 0) && Serves(q, 1)
    ensures OutcomeOf(RunAll([]), q) == Serve([Answer(ip6, 80)])
  {
    FirstFamilyTaken(q, fqdn, ip6, ip4);
    assert Groups(q, [0]) == [[Answer(ip6, 80)]];
    assert Flatten([]) == [] && Fresh(q) == [Answer(ip6, 80)];
    hide Contributors, Serves, ForcedMove, Fresh, FreshKeys, Same;
  }

  lemma FirstFamilyTaken(q: Query, fqdn: string, ip6: string, ip4: string)
    requires q.rec == TwoFamilies(fqdn, ip6, ip4)
    ensures Serves(q, 0) && Serves(q, 1) && Contributors(q) == [0]
  {
    assert q.rec.localChecks == [];
    assert Gate(q, 0).None? && Gate(q, 1).None?;
    assert Serving(q, 0) == [] && Serving(q, 1) == [0];
    ServingPrefix(q, 1, 2);
  }
}
