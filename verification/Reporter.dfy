/** The health reporter: probe goroutines queue transitions under a lock and
    offer a token to a one-slot wake channel; a single sender swaps the queue
    out, takes a snapshot of the machine and sends. Every lock-protected block
    and every channel operation is one atomic step. */
module Reporting {
  import M = Machine

  const MAX_RETRIES: nat := 5

  datatype Transition = Transition(key: string, health: M.Health)
  datatype Report = Report(transitions: seq<Transition>, states: map<string, M.Health>)

  // ---- The state the goroutines share ----

  datatype Shared = Shared(initialized: bool, pending: seq<Transition>, wake: bool)

  ghost function Initialized(s: Shared): Shared {
    if s.initialized then s else s.(initialized := true, wake := false)
  }

  ghost function Queued(s: Shared, t: Transition): Shared {
    s.(pending := s.pending + [t])
  }

  /** A non-blocking send to the slot: a full slot keeps its token. */
  ghost function Offered(s: Shared): Shared {
    s.(wake := true)
  }

  ghost function Taken(s: Shared): Shared {
    s.(wake := false)
  }

  ghost function Emptied(s: Shared): Shared {
    s.(pending := [])
  }

  class HealthReporter {
    var initialized: bool
    var pending: seq<Transition>
    var wake: bool

    constructor ()
      ensures View() == Shared(false, [], false)
    {
      initialized, pending, wake := false, [], false;
    }

    ghost function View(): Shared
      reads this
    {
      Shared(initialized, pending, wake)
    }

    method EnsureInit()
      modifies this
      ensures View() == Initialized(old(View()))
    {
      if !initialized {
        wake := false;
        initialized := true;
      }
    }

    method AppendPending(t: Transition)
      modifies this
      ensures View() == Queued(old(View()), t)
    {
      pending := pending + [t];
    }

    method OfferWake()
      modifies this
      ensures View() == Offered(old(View()))
    {
      if !wake {
        wake := true;
      }
    }

    /** The three steps one after the other, when no other goroutine runs. */
    method NotifyTransition(t: Transition)
      modifies this
      ensures View() == Offered(Queued(Initialized(old(View())), t))
    {
      EnsureInit();
      AppendPending(t);
      OfferWake();
    }

    method SwapPending() returns (batch: seq<Transition>)
      modifies this
      ensures batch == old(pending) && View() == Emptied(old(View()))
    {
      batch := pending;
      pending := [];
    }

    /** The receive of the sender's loop, when the slot holds a token. */
    method TakeWake() returns (woken: bool)
      modifies this
      ensures woken == old(wake)
      ensures View() == if woken then Taken(old(View())) else old(View())
    {
      woken := wake;
      wake := false;
    }
  }

  /** What an attempt to send a report meets. */
  datatype Attempt = Ok | Failed | Cancelled

  // ---- Interleaved steps ----

  /** A probe goroutine in NotifyTransition. */
  datatype Notifier = Idle | Holding(t: Transition) | Ready(t: Transition) | Appended

  datatype Sender =
    | NotStarted
    | Waiting
    | Woken
    | Swapped(batch: seq<Transition>)
    | Sending(report: Report, attempt: nat)
    | Stopped

  /** `events` is what the machine has recorded; `appended` and `reports` are
      the histories of what was queued and of the reports built, whether
      delivered or dropped. */
  datatype Sys = Sys(
    events: seq<M.Event>, notifiers: map<nat, Notifier>, shared: Shared, sender: Sender,
    appended: seq<Transition>, reports: seq<Report>)

  datatype Step =
    | Record(id: nat, event: M.Event)
    | NotifyInit(id: nat)
    | NotifyAppend(id: nat)
    | NotifyWake(id: nat)
    | Start
    | Receive
    | Heartbeat
    | Swap
    | Snapshot
    | Send(outcome: Attempt)
    | Stop

  ghost function HealthOf(events: seq<M.Event>, key: string): M.Health {
    if key in M.RunAll(events) then M.RunAll(events)[key].health else M.Unknown
  }

  /** The machine's transition history. */
  ghost function TransitionsOf(events: seq<M.Event>): seq<Transition> {
    if events == [] then []
    else
      var n := |events| - 1;
      var key := events[n].key;
      if HealthOf(events, key) != HealthOf(events[..n], key)
      then TransitionsOf(events[..n]) + [Transition(key, HealthOf(events, key))]
      else TransitionsOf(events[..n])
  }

  ghost function StatesOf(events: seq<M.Event>): map<string, M.Health> {
    M.HealthMap(M.RunAll(events))
  }

  ghost function Initial(ids: set<nat>): Sys {
    Sys([], map id | id in ids :: Idle, Shared(false, [], false), NotStarted, [], [])
  }

  /** One step of a notifier; a step that is not enabled changes nothing. */
  ghost function NotifierStep(s: Sys, id: nat, step: Step): Sys
    requires id in s.notifiers
  {
    match (s.notifiers[id], step)
    case (Idle, Record(_, e)) =>
      var key, events := e.key, s.events + [e];
      s.(events := events,
         notifiers := s.notifiers[id := if HealthOf(events, key) != HealthOf(s.events, key)
                                        then Holding(Transition(key, HealthOf(events, key))) else Idle])
    case (Holding(t), NotifyInit(_)) =>
      s.(shared := Initialized(s.shared), notifiers := s.notifiers[id := Ready(t)])
    case (Ready(t), NotifyAppend(_)) =>
      s.(shared := Queued(s.shared, t), appended := s.appended + [t],
         notifiers := s.notifiers[id := Appended])
    case (Appended, NotifyWake(_)) =>
      s.(shared := Offered(s.shared), notifiers := s.notifiers[id := Idle])
    case _ => s
  }

  ghost function SenderStep(s: Sys, step: Step): Sys {
    match (s.sender, step)
    case (NotStarted, Start) => s.(shared := Initialized(s.shared), sender := Waiting)
    case (Waiting, Receive) =>
      if s.shared.wake then s.(shared := Taken(s.shared), sender := Woken) else s
    case (Waiting, Heartbeat) => s.(sender := Woken)
    case (Waiting, Stop) => s.(sender := Stopped)
    case (Woken, Swap) => s.(shared := Emptied(s.shared), sender := Swapped(s.shared.pending))
    case (Swapped(batch), Snapshot) =>
      var report := Report(batch, StatesOf(s.events));
      s.(sender := Sending(report, 0), reports := s.reports + [report])
    case (Sending(report, attempt), Send(outcome)) =>
      if outcome == Failed && attempt < MAX_RETRIES then s.(sender := Sending(report, attempt + 1))
      else s.(sender := Waiting)
    case _ => s
  }

  ghost predicate OfNotifier(step: Step) {
    step.Record? || step.NotifyInit? || step.NotifyAppend? || step.NotifyWake?
  }

  ghost function Apply(s: Sys, step: Step): Sys {
    if OfNotifier(step) then (if step.id in s.notifiers then NotifierStep(s, step.id, step) else s)
    else SenderStep(s, step)
  }

  /** The state after any interleaving of the goroutines' steps. */
  ghost function Run(ids: set<nat>, steps: seq<Step>): Sys {
    if steps == [] then Initial(ids) else Apply(Run(ids, steps[..|steps| - 1]), steps[|steps| - 1])
  }

  /** The first n sends of a round, nothing else moving. */
  ghost function Sends(s: Sys, outcome: nat -> Attempt, n: nat): Sys {
    if n == 0 then s else SenderStep(Sends(s, outcome, n - 1), Send(outcome(n - 1)))
  }

  lemma OneMoreSend(s: Sys, outcome: nat -> Attempt, n: nat)
    requires s.sender.Sending?
    requires Sends(s, outcome, n) == s.(sender := Sending(s.sender.report, n))
    ensures Sends(s, outcome, n + 1) ==
            s.(sender := if outcome(n) == Failed && n < MAX_RETRIES then Sending(s.sender.report, n + 1) else Waiting)
  {
    hide StatesOf;
  }

  /** The retry loop of one round: it makes at most six attempts, stops at the
      first that is not a plain failure, and delivers exactly when that one
      succeeds. Its attempts are the sends that take the sender of any
      system `s` about to send back to waiting, and no earlier. */
  method SendRound(outcome: nat -> Attempt, ghost s: Sys) returns (calls: nat, delivered: bool)
    requires s.sender.Sending? && s.sender.attempt == 0
    ensures 1 <= calls <= 6
    ensures forall k | 0 <= k < calls - 1 :: outcome(k) == Failed
    ensures outcome(calls - 1) == Failed ==> calls == 6
    ensures delivered <==> outcome(calls - 1) == Ok
    ensures Sends(s, outcome, calls) == s.(sender := Waiting)
    ensures forall k: nat | k < calls :: Sends(s, outcome, k).sender.Sending?
  {
    assert Sends(s, outcome, 0) == s;
    hide Sends;
    var attempt := 0;
    while true
      invariant attempt <= MAX_RETRIES
      invariant forall k | 0 <= k < attempt :: outcome(k) == Failed
      invariant Sends(s, outcome, attempt) == s.(sender := Sending(s.sender.report, attempt))
      invariant forall k: nat | k <= attempt :: Sends(s, outcome, k).sender.Sending?
      decreases MAX_RETRIES - attempt
    {
      OneMoreSend(s, outcome, attempt);
      var result := outcome(attempt);
      if result == Ok {
        return attempt + 1, true;
      }
      if result == Cancelled {
        return attempt + 1, false;
      }
      attempt := attempt + 1;
      if attempt > MAX_RETRIES {
        return attempt, false;
      }
    }
  }

  // ---- No lost wake-up, with any number of notifiers ----

  ghost predicate SomeAppended(s: Sys) {
    exists id :: id in s.notifiers && s.notifiers[id] == Appended
  }

  ghost predicate WakeInv(s: Sys) {
    && (s.shared.pending != [] ==> s.shared.wake || s.sender.Woken? || SomeAppended(s))
    && (!s.shared.initialized ==>
          && s.shared.pending == [] && !s.shared.wake && s.sender.NotStarted?
          && forall id :: id in s.notifiers ==> s.notifiers[id].Idle? || s.notifiers[id].Holding?)
  }

  lemma WakeNotifier(s: Sys, step: Step)
    requires WakeInv(s) && OfNotifier(step) && step.id in s.notifiers
    ensures WakeInv(NotifierStep(s, step.id, step))
  {
    hide HealthOf;
    var s' := NotifierStep(s, step.id, step);
    var id := step.id;
    if SomeAppended(s) {
      var other :| other in s.notifiers && s.notifiers[other] == Appended;
      assert other == id || s'.notifiers[other] == Appended;
    }
    assert s.notifiers[id].Ready? && step.NotifyAppend? ==> s'.notifiers[id] == Appended;
  }

  lemma WakeSender(s: Sys, step: Step)
    requires WakeInv(s)
    ensures WakeInv(SenderStep(s, step))
  {
    hide StatesOf;
    assert SenderStep(s, step).notifiers == s.notifiers;
  }

  /** In every reachable state a queued transition has a token in the wake
      slot, a sender between waking and swapping, or a notifier between its
      append and its wake attempt. */
  lemma {:induction false} NoLostWakeup(ids: set<nat>, steps: seq<Step>)
    ensures WakeInv(Run(ids, steps))
  {
    if steps != [] {
      hide NotifierStep, SenderStep, WakeInv;
      var n := |steps| - 1;
      NoLostWakeup(ids, steps[..n]);
      var s := Run(ids, steps[..n]);
      if OfNotifier(steps[n]) {
        if steps[n].id in s.notifiers {
          WakeNotifier(s, steps[n]);
        }
      } else {
        WakeSender(s, steps[n]);
      }
    }
  }

  /** Nothing is on its way: no notifier is at work and the sender waits
      before an empty slot. */
  ghost predicate Quiescent(s: Sys) {
    && (forall id :: id in s.notifiers ==> s.notifiers[id].Idle?)
    && s.sender.Waiting? && !s.shared.wake
  }

  lemma QuiescentMeansSent(ids: set<nat>, steps: seq<Step>)
    requires Quiescent(Run(ids, steps))
    ensures Run(ids, steps).shared.pending == []
  {
    NoLostWakeup(ids, steps);
  }

  // ---- Nothing is lost, repeated or reordered on the way ----

  ghost function Flat(reports: seq<Report>): seq<Transition> {
    if reports == [] then []
    else Flat(reports[..|reports| - 1]) + reports[|reports| - 1].transitions
  }

  ghost function InFlight(s: Sys): seq<Transition> {
    if s.sender.Swapped? then s.sender.batch else []
  }

  ghost predicate QueueInv(s: Sys) {
    && Flat(s.reports) + InFlight(s) + s.shared.pending == s.appended
    && (s.sender.Sending? ==> s.sender.attempt <= 5)
  }

  lemma FlatAppend(reports: seq<Report>, r: Report)
    ensures Flat(reports + [r]) == Flat(reports) + r.transitions
  {
    assert (reports + [r])[..|reports|] == reports;
  }

  lemma QueueStep(s: Sys, step: Step)
    requires QueueInv(s)
    ensures QueueInv(Apply(s, step))
  {
    hide HealthOf, StatesOf, Flat;
    if s.sender.Swapped? {
      FlatAppend(s.reports, Report(s.sender.batch, StatesOf(s.events)));
    }
  }

  /** With any number of notifiers, what was queued is exactly what the reports
      carry, then what the sender holds, then what is still pending, in the
      order it was queued; no report is tried more than six times. */
  lemma {:induction false} QueueIsConserved(ids: set<nat>, steps: seq<Step>)
    ensures QueueInv(Run(ids, steps))
  {
    if steps != [] {
      hide QueueInv, Apply;
      QueueIsConserved(ids, steps[..|steps| - 1]);
      QueueStep(Run(ids, steps[..|steps| - 1]), steps[|steps| - 1]);
    }
  }

  // ---- One probe goroutine: reported states never lag transitions ----

  /** The transition the probe goroutine has recorded but not yet queued. */
  ghost function InHand(s: Sys): seq<Transition> {
    if 0 in s.notifiers && (s.notifiers[0].Holding? || s.notifiers[0].Ready?) then [s.notifiers[0].t] else []
  }

  ghost predicate OrderInv(s: Sys) {
    s.notifiers.Keys == {0} && s.appended + InHand(s) == TransitionsOf(s.events)
  }

  lemma TransitionsAppend(events: seq<M.Event>, e: M.Event)
    ensures
      var after := events + [e];
      TransitionsOf(after) ==
      if HealthOf(after, e.key) != HealthOf(events, e.key)
      then TransitionsOf(events) + [Transition(e.key, HealthOf(after, e.key))] else TransitionsOf(events)
  {
    hide HealthOf;
    assert (events + [e])[..|events|] == events;
  }

  lemma OrderStep(s: Sys, step: Step)
    requires OrderInv(s)
    ensures OrderInv(Apply(s, step))
  {
    hide HealthOf, StatesOf, TransitionsOf;
    if step.Record? {
      TransitionsAppend(s.events, step.event);
    }
  }

  lemma {:induction false} OrderKept(steps: seq<Step>)
    ensures OrderInv(Run({0}, steps))
  {
    if steps != [] {
      hide OrderInv, Apply;
      OrderKept(steps[..|steps| - 1]);
      OrderStep(Run({0}, steps[..|steps| - 1]), steps[|steps| - 1]);
    }
  }

  // ---- What a report shows ----

  /** The states name exactly the keys that have a result, with the health that
      the key's own results give. */
  ghost predicate Shows(states: map<string, M.Health>, events: seq<M.Event>) {
    && (forall key :: key in states <==> exists e | e in events :: e.key == key)
    && (forall key | key in states :: states[key] == M.Run(M.Only(events, key)).health)
  }

  lemma {:induction false} OwnResults(events: seq<M.Event>, key: string)
    ensures M.Only(events, key) != [] <==> exists e | e in events :: e.key == key
  {
    if events != [] {
      var n := |events| - 1;
      OwnResults(events[..n], key);
      assert events[n] in events;
      assert forall e :: e in events <==> e in events[..n] || e == events[n];
    }
  }

  lemma SnapshotShows(events: seq<M.Event>)
    ensures Shows(StatesOf(events), events)
  {
    forall key
      ensures key in StatesOf(events) <==> exists e | e in events :: e.key == key
      ensures key in StatesOf(events) ==> StatesOf(events)[key] == M.Run(M.Only(events, key)).health
    {
      M.KeysAreIndependent(events, key);
      OwnResults(events, key);
    }
  }

  lemma HealthIsOwn(events: seq<M.Event>, key: string)
    ensures HealthOf(events, key) == M.Run(M.Only(events, key)).health
  {
    M.KeysAreIndependent(events, key);
  }

  /** The healths that transitions of one key lead to. */
  ghost function HealthsFor(ts: seq<Transition>, key: string): seq<M.Health> {
    if ts == [] then []
    else
      var n := |ts| - 1;
      if ts[n].key == key then HealthsFor(ts[..n], key) + [ts[n].health] else HealthsFor(ts[..n], key)
  }

  /** The machine's transition history is, key by key, the moves that the key's
      own results make. */
  lemma {:induction false} TransitionsAreMoves(events: seq<M.Event>, key: string)
    ensures HealthsFor(TransitionsOf(events), key) == M.Moves(M.Only(events, key))
  {
    if events != [] {
      hide HealthOf, M.Run;
      var n := |events| - 1;
      var e, ts := events[n], TransitionsOf(events[..n]);
      TransitionsAreMoves(events[..n], key);
      HealthIsOwn(events, e.key);
      HealthIsOwn(events[..n], e.key);
      var t := Transition(e.key, HealthOf(events, e.key));
      assert (ts + [t])[..|ts|] == ts;
      var mine := M.Only(events[..n], key);
      assert (mine + [e.result])[..|mine|] == mine;
    }
  }

  /** The k-th report shows the machine after some prefix of its history that
      already holds every transition reported so far. */
  ghost predicate Fresh(reports: seq<Report>, k: nat, events: seq<M.Event>)
    requires k < |reports|
  {
    exists p: nat :: p <= |events| && FreshAt(reports, k, events, p)
  }

  ghost predicate FreshAt(reports: seq<Report>, k: nat, events: seq<M.Event>, p: nat)
    requires k < |reports| && p <= |events|
  {
    && Shows(reports[k].states, events[..p])
    && Flat(reports[..k + 1]) <= TransitionsOf(events[..p])
  }

  ghost predicate FreshInv(s: Sys) {
    forall k: nat | k < |s.reports| :: Fresh(s.reports, k, s.events)
  }

  lemma FreshSurvives(reports: seq<Report>, k: nat, events: seq<M.Event>, r: seq<Report>, e: seq<M.Event>)
    requires k < |reports| && Fresh(reports, k, events)
    ensures Fresh(reports + r, k, events + e)
  {
    hide Shows;
    var p: nat :| p <= |events| && FreshAt(reports, k, events, p);
    assert (events + e)[..p] == events[..p];
    assert (reports + r)[..k + 1] == reports[..k + 1];
    assert FreshAt(reports + r, k, events + e, p);
  }

  lemma SnapshotIsFresh(s: Sys)
    requires QueueInv(s) && OrderInv(s) && s.sender.Swapped?
    ensures
      var r := Report(s.sender.batch, StatesOf(s.events));
      Fresh(s.reports + [r], |s.reports|, s.events)
  {
    hide StatesOf, Flat, TransitionsOf, Shows;
    SnapshotShows(s.events);
    var r := Report(s.sender.batch, StatesOf(s.events));
    FlatAppend(s.reports, r);
    assert (s.reports + [r])[..|s.reports| + 1] == s.reports + [r];
    assert s.events[..|s.events|] == s.events;
    assert FreshAt(s.reports + [r], |s.reports|, s.events, |s.events|);
  }

  lemma FreshStep(s: Sys, step: Step)
    requires QueueInv(s) && OrderInv(s) && FreshInv(s)
    ensures FreshInv(Apply(s, step))
  {
    var s' := Apply(s, step);
    GrowsByOne(s, step);
    forall k: nat | k < |s'.reports| ensures Fresh(s'.reports, k, s'.events) {
      if k < |s.reports| {
        FreshSurvives(s.reports, k, s.events, s'.reports[|s.reports|..], s'.events[|s.events|..]);
      } else {
        SnapshotIsFresh(s);
      }
    }
  }

  lemma GrowsByOne(s: Sys, step: Step)
    ensures
      var s' := Apply(s, step);
      && s.events <= s'.events && s.reports <= s'.reports
      && s'.events == s.events + s'.events[|s.events|..]
      && s'.reports == s.reports + s'.reports[|s.reports|..]
      && (s'.reports != s.reports ==>
            && s.sender.Swapped? && s'.events == s.events
            && s'.reports == s.reports + [Report(s.sender.batch, StatesOf(s.events))])
  {
    hide HealthOf, StatesOf;
  }

  lemma {:induction false} FreshKept(steps: seq<Step>)
    ensures FreshInv(Run({0}, steps))
  {
    if steps != [] {
      hide FreshInv, QueueInv, OrderInv, Apply;
      var front := steps[..|steps| - 1];
      FreshKept(front);
      QueueIsConserved({0}, front);
      OrderKept(front);
      FreshStep(Run({0}, front), steps[|steps| - 1]);
    }
  }

  /** In every interleaving of the probe goroutine and the sender, the
      transitions reported so far, delivered or dropped, are in order a prefix
      of the machine's transition history, and no report's states lag behind
      the transitions reported up to and with it. */
  lemma StatesNeverLagTransitions(steps: seq<Step>, k: nat)
    requires k < |Run({0}, steps).reports|
    ensures
      var s := Run({0}, steps);
      Flat(s.reports) <= TransitionsOf(s.events) && Fresh(s.reports, k, s.events)
  {
    hide Flat, TransitionsOf, Fresh;
    QueueIsConserved({0}, steps);
    OrderKept(steps);
    FreshKept(steps);
  }

  // ---- At rest the last report is the true picture ----

  lemma {:induction false} NoTransitionNoChange(events: seq<M.Event>, p: nat, key: string)
    requires p <= |events|
    ensures |TransitionsOf(events[..p])| <= |TransitionsOf(events)|
    ensures |TransitionsOf(events[..p])| == |TransitionsOf(events)| ==>
              HealthOf(events[..p], key) == HealthOf(events, key)
    decreases |events|
  {
    var n := |events| - 1;
    if p == |events| {
      assert events[..p] == events;
    } else {
      NoTransitionNoChange(events[..n], p, key);
      assert events[..n][..p] == events[..p];
      if |TransitionsOf(events[..p])| == |TransitionsOf(events)| {
        OtherKeyKept(events, key);
      }
    }
  }

  lemma OtherKeyKept(events: seq<M.Event>, key: string)
    requires events != []
    requires TransitionsOf(events) == TransitionsOf(events[..|events| - 1])
    ensures HealthOf(events, key) == HealthOf(events[..|events| - 1], key)
  {
  }

  /** At quiescence, if the machine ever made a transition, the last report's
      states agree with the machine on every key: a key the report does not
      name is still Unknown. */
  lemma QuiescentReportIsCurrent(steps: seq<Step>, key: string)
    requires Quiescent(Run({0}, steps)) && TransitionsOf(Run({0}, steps).events) != []
    ensures
      var s := Run({0}, steps);
      && s.reports != []
      && var states := s.reports[|s.reports| - 1].states;
         M.Run(M.Only(s.events, key)).health == if key in states then states[key] else M.Unknown
  {
    var s := Run({0}, steps);
    QuiescentMeansSent({0}, steps);
    QueueIsConserved({0}, steps);
    OrderKept(steps);
    FreshKept(steps);
    hide Run, WakeInv, TransitionsOf;
    assert Flat(s.reports) == TransitionsOf(s.events);
    var k := |s.reports| - 1;
    assert Fresh(s.reports, k, s.events);
    var p: nat :| p <= |s.events| && FreshAt(s.reports, k, s.events, p);
    assert s.reports[..k + 1] == s.reports;
    NoTransitionNoChange(s.events, p, key);
    HealthIsOwn(s.events, key);
    HealthIsOwn(s.events[..p], key);
    OwnResults(s.events[..p], key);
  }

  // ---- Every round reports ----

  ghost predicate OnlyNotifiers(steps: seq<Step>) {
    forall i | 0 <= i < |steps| :: OfNotifier(steps[i])
  }

  lemma RunAppend(ids: set<nat>, steps: seq<Step>, step: Step)
    ensures Run(ids, steps + [step]) == Apply(Run(ids, steps), step)
  {
    hide Apply;
    assert (steps + [step])[..|steps|] == steps;
  }

  lemma {:induction false} NotifiersKeepSender(ids: set<nat>, steps: seq<Step>, more: seq<Step>)
    requires OnlyNotifiers(more)
    ensures Run(ids, steps + more).sender == Run(ids, steps).sender
    ensures Run(ids, steps + more).reports == Run(ids, steps).reports
  {
    if more == [] {
      assert steps + more == steps;
    } else {
      hide HealthOf;
      var n := |more| - 1;
      NotifiersKeepSender(ids, steps, more[..n]);
      assert steps + more == steps + more[..n] + [more[n]];
      RunAppend(ids, steps + more[..n], more[n]);
    }
  }

  /** A heartbeat, or a token, makes a waiting sender build one more report,
      however the notifiers interleave: it carries all that is pending at the
      swap, even if that is nothing, and shows every key the machine has a
      result for at the snapshot. */
  lemma EveryRoundReports(ids: set<nat>, steps: seq<Step>, first: Step, a: seq<Step>, b: seq<Step>)
    requires Run(ids, steps).sender.Waiting? && OnlyNotifiers(a) && OnlyNotifiers(b)
    requires first.Heartbeat? || (first.Receive? && Run(ids, steps).shared.wake)
    ensures
      var swap := steps + [first] + a;
      var snapshot := swap + [Swap] + b;
      var s, last := Run(ids, snapshot + [Snapshot]), Run(ids, snapshot);
      && |s.reports| == |Run(ids, steps).reports| + 1
      && s.reports[..|s.reports| - 1] == Run(ids, steps).reports
      && s.reports[|s.reports| - 1].transitions == Run(ids, swap).shared.pending
      && Shows(s.reports[|s.reports| - 1].states, last.events)
      && s.sender == Sending(s.reports[|s.reports| - 1], 0)
      && Run(ids, swap + [Swap]).shared.pending == []
  {
    hide StatesOf, Shows, Run, NotifierStep;
    var swap := steps + [first] + a;
    var snapshot := swap + [Swap] + b;
    RunAppend(ids, steps, first);
    NotifiersKeepSender(ids, steps + [first], a);
    RunAppend(ids, swap, Swap);
    NotifiersKeepSender(ids, swap + [Swap], b);
    RunAppend(ids, snapshot, Snapshot);
    SnapshotShows(Run(ids, snapshot).events);
  }

  // ---- The reporter can always come to rest ----

  /** Steps that finish what is under way: no new result, no heartbeat, no stop. */
  ghost predicate Finishing(steps: seq<Step>) {
    forall i | 0 <= i < |steps| ::
      !steps[i].Record? && !steps[i].Heartbeat? && !steps[i].Start? && !steps[i].Stop?
  }

  ghost function NotifierLoad(n: Notifier): nat {
    match n
    case Idle => 0
    case Appended => 7
    case Ready(_) => 8
    case Holding(_) => 9
  }

  ghost function Loads(notifiers: map<nat, Notifier>, n: nat): nat {
    if n == 0 then 0
    else Loads(notifiers, n - 1) + if n - 1 in notifiers then NotifierLoad(notifiers[n - 1]) else 0
  }

  /** What is left to do before rest. */
  ghost function Load(s: Sys, n: nat): nat {
    var wake := if s.shared.wake then 5 else 0;
    var sender :=
      match s.sender
      case Woken => 4
      case Swapped(_) => 3
      case Sending(_, _) => 2
      case _ => 0;
    Loads(s.notifiers, n) + wake + sender
  }

  lemma {:induction false} LoadsUpdate(notifiers: map<nat, Notifier>, id: nat, x: Notifier, n: nat)
    requires id in notifiers
    ensures Loads(notifiers[id := x], n) ==
            Loads(notifiers, n) + if id < n then NotifierLoad(x) - NotifierLoad(notifiers[id]) else 0
  {
    if n > 0 {
      LoadsUpdate(notifiers, id, x, n - 1);
    }
  }

  ghost predicate Started(s: Sys) {
    !s.sender.NotStarted? && !s.sender.Stopped?
  }

  /** A step that brings the system nearer to rest. */
  lemma NextFinishing(s: Sys, n: nat) returns (step: Step)
    requires Started(s) && !Quiescent(s) && forall id :: id in s.notifiers ==> id < n
    ensures Finishing([step]) && Started(Apply(s, step)) && Load(Apply(s, step), n) < Load(s, n)
    ensures Apply(s, step).notifiers.Keys == s.notifiers.Keys
  {
    hide HealthOf, StatesOf, Loads;
    if id :| id in s.notifiers && !s.notifiers[id].Idle? {
      match s.notifiers[id]
      case Holding(t) => step := NotifyInit(id); LoadsUpdate(s.notifiers, id, Ready(t), n);
      case Ready(t) => step := NotifyAppend(id); LoadsUpdate(s.notifiers, id, Appended, n);
      case Appended => step := NotifyWake(id); LoadsUpdate(s.notifiers, id, Idle, n);
    } else {
      match s.sender
      case Waiting => step := Receive;
      case Woken => step := Swap;
      case Swapped(_) => step := Snapshot;
      case Sending(_, _) => step := Send(Ok);
    }
  }

  /** From every state the reporter can reach while its sender runs, finishing
      what is under way brings it to rest. */
  lemma {:induction false} FinishesAtRest(ids: set<nat>, steps: seq<Step>, n: nat) returns (more: seq<Step>)
    requires Started(Run(ids, steps)) && forall id :: id in Run(ids, steps).notifiers ==> id < n
    ensures Finishing(more) && Quiescent(Run(ids, steps + more))
    decreases Load(Run(ids, steps), n)
  {
    hide Run, Apply, Started, Quiescent, Load;
    if Quiescent(Run(ids, steps)) {
      more := [];
      assert steps + more == steps;
    } else {
      var step := NextFinishing(Run(ids, steps), n);
      RunAppend(ids, steps, step);
      var rest := FinishesAtRest(ids, steps + [step], n);
      more := [step] + rest;
      assert steps + [step] + rest == steps + more;
    }
  }

  lemma {:induction false} Bounded(ids: set<nat>) returns (n: nat)
    ensures forall id | id in ids :: id < n
    decreases |ids|
  {
    n := 0;
    if id :| id in ids {
      var m := Bounded(ids - {id});
      n := if id < m then m else id + 1;
      assert forall x | x in ids :: x == id || x in ids - {id};
    }
  }

  /** Rest can always be reached, and there everything ever queued has been
      reported, in order. */
  lemma RestIsReachable(ids: set<nat>, steps: seq<Step>)
    requires Started(Run(ids, steps))
    ensures exists more ::
              && Finishing(more) && Quiescent(Run(ids, steps + more))
              && Run(ids, steps + more).shared.pending == []
              && Flat(Run(ids, steps + more).reports) == Run(ids, steps + more).appended
  {
    hide Run, Started, Flat, WakeInv;
    var n := Bounded(Run(ids, steps).notifiers.Keys);
    var more := FinishesAtRest(ids, steps, n);
    QuiescentMeansSent(ids, steps + more);
    QueueIsConserved(ids, steps + more);
    assert Finishing(more) && Quiescent(Run(ids, steps + more));
  }
}
