/** The local health state machine: threshold hysteresis per target. */
module Machine {
  datatype Health = Healthy | Unhealthy | Unknown

  datatype TargetState = TargetState(
    health: Health, consecSuccess: nat, consecFail: nat, cycles: nat)

  /** One probe result with the thresholds of its call. */
  datatype Result = Result(up: bool, failureThreshold: int, recoveryThreshold: int)

  const FRESH: TargetState := TargetState(Unknown, 0, 0, 0)

  function Clamp(threshold: int): nat {
    if threshold < 1 then 1 else threshold
  }

  /** The threshold that counts for the direction of this result. */
  function Needed(r: Result): nat {
    if r.up then Clamp(r.recoveryThreshold) else Clamp(r.failureThreshold)
  }

  function Direction(up: bool): Health {
    if up then Healthy else Unhealthy
  }

  ghost function Step(t: TargetState, r: Result): TargetState {
    var n := 1 + if r.up then t.consecSuccess else t.consecFail;
    TargetState(
      if n >= Needed(r) then Direction(r.up) else t.health,
      if r.up then n else 0, if r.up then 0 else n, t.cycles + 1)
  }

  // ---- The code, as it updates its state ----

  class StateMachine {
    var targets: map<string, TargetState>

    constructor ()
      ensures targets == map[]
    {
      targets := map[];
    }

    ghost function StateOf(key: string): TargetState
      reads this
    {
      if key in targets then targets[key] else FRESH
    }

    method RecordResult(key: string, up: bool, failureThreshold: int, recoveryThreshold: int)
      returns (transitioned: bool, newHealth: Health)
      modifies this
      ensures targets == old(targets)[key := Step(old(StateOf(key)), Result(up, failureThreshold, recoveryThreshold))]
      ensures newHealth == targets[key].health
      ensures transitioned <==> newHealth != old(StateOf(key)).health
    {
      var failT := if failureThreshold < 1 then 1 else failureThreshold;
      var recT := if recoveryThreshold < 1 then 1 else recoveryThreshold;
      if key !in targets {
        targets := targets[key := TargetState(Unknown, 0, 0, 0)];
      }
      var t := targets[key];
      var prev := t.health;
      t := t.(cycles := t.cycles + 1);
      if up {
        t := t.(consecSuccess := t.consecSuccess + 1, consecFail := 0);
        if t.health != Healthy && t.consecSuccess >= recT {
          t := t.(health := Healthy);
        }
      } else {
        t := t.(consecFail := t.consecFail + 1, consecSuccess := 0);
        if t.health != Unhealthy && t.consecFail >= failT {
          t := t.(health := Unhealthy);
        }
      }
      targets := targets[key := t];
      return t.health != prev, t.health;
    }

    method State(key: string) returns (h: Health)
      ensures h == StateOf(key).health
    {
      if key !in targets {
        return Unknown;
      }
      return targets[key].health;
    }

    method Ready(key: string) returns (ready: bool)
      ensures ready <==> key in targets && targets[key].cycles >= 1
    {
      return key in targets && targets[key].cycles >= 1;
    }

    method States() returns (out: map<string, Health>)
      ensures out == HealthMap(targets)
    {
      out := map[];
      var left := targets.Keys;
      while left != {}
        invariant left <= targets.Keys
        invariant out == HealthMap(map k | k in targets && k !in left :: targets[k])
        decreases |left|
      {
        var k :| k in left;
        left := left - {k};
        out := out[k := targets[k].health];
      }
      assert (map k | k in targets && k !in left :: targets[k]) == targets;
    }
  }

  ghost function HealthMap(targets: map<string, TargetState>): map<string, Health> {
    map k | k in targets :: targets[k].health
  }

  // ---- One key's history ----

  ghost function Run(h: seq<Result>): TargetState {
    if h == [] then FRESH else Step(Run(h[..|h| - 1]), h[|h| - 1])
  }

  /** The last n results of the history all point the same way. */
  ghost predicate LastAgree(h: seq<Result>, up: bool, n: nat) {
    n <= |h| && forall j | |h| - n <= j < |h| :: h[j].up == up
  }

  /** Result i completes a run of same-direction results, itself included, as
      long as the threshold of its own call asks; any threshold below two asks
      for that result alone. */
  ghost predicate Decisive(h: seq<Result>, i: nat)
    requires i < |h|
  {
    var n := if h[i].up then h[i].recoveryThreshold else h[i].failureThreshold;
    n <= i + 1 && forall j | 0 <= j <= i && i - j < n :: h[j].up == h[i].up
  }

  lemma DecisiveAgrees(h: seq<Result>, i: nat)
    requires i < |h|
    ensures Decisive(h, i) <==> LastAgree(h[..i + 1], h[i].up, Needed(h[i]))
  {
    var g, n := h[..i + 1], if h[i].up then h[i].recoveryThreshold else h[i].failureThreshold;
    assert forall j | 0 <= j <= i :: g[j] == h[j];
    if Decisive(h, i) {
      forall j | |g| - Needed(h[i]) <= j < |g| ensures g[j].up == h[i].up {
        assert i - j < n || j == i;
      }
    }
  }

  /** The counters measure the run that ends the history. */
  lemma {:induction false} CountersMeasureRun(h: seq<Result>, up: bool, n: nat)
    ensures LastAgree(h, up, n) <==> n <= (if up then Run(h).consecSuccess else Run(h).consecFail)
    ensures Run(h).cycles == |h|
  {
    if h != [] {
      var k := |h| - 1;
      CountersMeasureRun(h[..k], up, if n == 0 then 0 else n - 1);
      if n > 0 {
        assert LastAgree(h, up, n) <==> h[k].up == up && LastAgree(h[..k], up, n - 1) by {
          if LastAgree(h, up, n) {
            assert h[k].up == up;
            assert forall j | k - (n - 1) <= j < k :: h[..k][j] == h[j];
          }
          if h[k].up == up && LastAgree(h[..k], up, n - 1) {
            assert forall j | k - (n - 1) <= j < k :: h[j] == h[..k][j];
          }
        }
      }
    }
  }

  lemma LastResult(h: seq<Result>)
    requires h != []
    ensures
      var n := |h| - 1;
      Run(h).health == if Decisive(h, n) then Direction(h[n].up) else Run(h[..n]).health
  {
    hide LastAgree, Decisive;
    var n := |h| - 1;
    assert h[..n + 1] == h;
    DecisiveAgrees(h, n);
    CountersMeasureRun(h, h[n].up, Needed(h[n]));
  }

  lemma DecisiveInPrefix(h: seq<Result>, n: nat, i: nat)
    requires i < n <= |h|
    ensures Decisive(h, i) == Decisive(h[..n], i)
  {
  }

  /** The machine is a declarative reading of the history, even when thresholds
      vary from call to call: a decisive result that no decisive result
      follows sets the health; without any the health is Unknown. */
  lemma {:induction false} HealthIsLatestDecisive(h: seq<Result>)
    ensures Run(h).health == Unknown <==> forall i | 0 <= i < |h| :: !Decisive(h, i)
    ensures forall i | 0 <= i < |h| && Decisive(h, i) && (forall j | i < j < |h| :: !Decisive(h, j)) ::
              Run(h).health == Direction(h[i].up)
  {
    if h != [] {
      hide Run, Decisive;
      var n := |h| - 1;
      HealthIsLatestDecisive(h[..n]);
      forall i | 0 <= i < n ensures Decisive(h, i) == Decisive(h[..n], i) {
        DecisiveInPrefix(h, n, i);
      }
      LastResult(h);
    }
  }

  /** Once a target has a known health it never returns to Unknown. */
  lemma {:induction false} NeverUnknownAgain(h: seq<Result>, more: seq<Result>)
    requires Run(h).health != Unknown
    ensures Run(h + more).health != Unknown
  {
    if more == [] {
      assert h + more == h;
    } else {
      var n := |more| - 1;
      NeverUnknownAgain(h, more[..n]);
      assert (h + more)[..|h + more| - 1] == h + more[..n];
    }
  }

  // ---- Hysteresis ----

  /** A threshold that asks for n results; those below one ask for one. */
  ghost predicate AsksFor(threshold: int, n: nat) {
    n >= 1 && (threshold == n || (threshold < 1 && n == 1))
  }

  ghost predicate Fixed(h: seq<Result>, f: nat, r: nat) {
    forall i | 0 <= i < |h| :: AsksFor(h[i].failureThreshold, f) && AsksFor(h[i].recoveryThreshold, r)
  }

  /** The healths a key moved to, in order. */
  ghost function Moves(h: seq<Result>): seq<Health> {
    if h == [] then []
    else
      var n := |h| - 1;
      if Run(h).health != Run(h[..n]).health then Moves(h[..n]) + [Run(h).health] else Moves(h[..n])
  }

  /** Moves strictly alternate between Healthy and Unhealthy; the last one is
      the present health. */
  lemma {:induction false} MovesAlternate(h: seq<Result>)
    ensures Moves(h) == [] <==> Run(h).health == Unknown
    ensures Moves(h) != [] ==> Moves(h)[|Moves(h)| - 1] == Run(h).health
    ensures forall i | 0 <= i < |Moves(h)| :: Moves(h)[i] != Unknown
    ensures forall i | 0 < i < |Moves(h)| :: Moves(h)[i] != Moves(h)[i - 1]
  {
    if h != [] {
      MovesAlternate(h[..|h| - 1]);
    }
  }

  /** The results that the moves so far must have used up. */
  ghost function Cost(moves: seq<Health>, f: nat, r: nat): nat {
    if moves == [] then 0
    else Cost(moves[..|moves| - 1], f, r) + if moves[|moves| - 1] == Healthy then r else f
  }

  /** Results counted against the present health. */
  ghost function Against(t: TargetState): nat {
    match t.health
    case Healthy => t.consecFail
    case Unhealthy => t.consecSuccess
    case Unknown => 0
  }

  lemma CostAppend(m: seq<Health>, x: Health, f: nat, r: nat)
    ensures Cost(m + [x], f, r) == Cost(m, f, r) + if x == Healthy then r else f
    ensures Cost([], f, r) == 0
  {
    assert (m + [x])[..|m|] == m;
  }

  /** One result, paid for by itself and the run against the present health;
      the first move of a key by the n results so far. */
  lemma PayStep(t: TargetState, x: Result, f: nat, r: nat, n: nat)
    requires AsksFor(x.failureThreshold, f) && AsksFor(x.recoveryThreshold, r)
    requires t.consecSuccess <= n && t.consecFail <= n
    ensures
      var t' := Step(t, x);
      var cost := if t'.health == t.health then 0 else if t'.health == Healthy then r else f;
      && t'.consecSuccess <= n + 1 && t'.consecFail <= n + 1
      && cost + Against(t') <= if t.health == Unknown then n + 1 else Against(t) + 1
  {
  }

  /** Every result is paid for once: what the moves cost, plus the present run
      against the present health, fits in the history. */
  lemma {:induction false} MovesArePaidFor(h: seq<Result>, f: nat, r: nat)
    requires Fixed(h, f, r)
    ensures
      var t := Run(h);
      && t.consecSuccess <= |h| && t.consecFail <= |h|
      && Cost(Moves(h), f, r) + Against(t) <= |h|
  {
    if h != [] {
      hide Step, Run, Moves, Cost, Against, AsksFor;
      var n := |h| - 1;
      MovesArePaidFor(h[..n], f, r);
      MovesAlternate(h[..n]);
      assert h == h[..n] + [h[n]];
      MovesAppend(h[..n], h[n]);
      PayStep(Run(h[..n]), h[n], f, r, n);
      CostAppend(Moves(h[..n]), Run(h).health, f, r);
    } else {
      assert Moves(h) == [] && Run(h) == FRESH;
      CostAppend([], Unknown, f, r);
    }
  }

  ghost predicate Alternating(m: seq<Health>) {
    && (forall i | 0 <= i < |m| :: m[i] != Unknown)
    && (forall i | 0 < i < |m| :: m[i] != m[i - 1])
  }

  /** The last two moves of an alternating list cost one of each. */
  lemma LastPair(m: seq<Health>, f: nat, r: nat)
    requires Alternating(m) && |m| >= 2
    ensures Alternating(m[..|m| - 2]) && Cost(m, f, r) == Cost(m[..|m| - 2], f, r) + f + r
  {
    hide Cost;
    var n := |m| - 2;
    assert m == m[..n] + [m[n]] + [m[n + 1]];
    CostAppend(m[..n], m[n], f, r);
    CostAppend(m[..n] + [m[n]], m[n + 1], f, r);
  }

  lemma {:induction false} AlternatingCost(m: seq<Health>, f: nat, r: nat)
    requires Alternating(m)
    ensures Cost(m, f, r) >= |m| / 2 * (f + r)
  {
    hide Cost, Alternating;
    if |m| >= 2 {
      LastPair(m, f, r);
      AlternatingCost(m[..|m| - 2], f, r);
      OneMorePair(|m| - 2, f + r);
    } else {
      assert |m| / 2 == 0;
    }
  }

  lemma OneMorePair(n: nat, x: nat)
    ensures (n + 2) / 2 * x == n / 2 * x + x
  {
    assert (n + 2) / 2 == n / 2 + 1;
  }

  /** With fixed thresholds F and R, t moves within the first n results of a
      key satisfy floor(t/2) * (F + R) <= n. */
  lemma FlapsAreBounded(h: seq<Result>, f: nat, r: nat)
    requires Fixed(h, f, r)
    ensures |Moves(h)| / 2 * (f + r) <= |h|
  {
    MovesArePaidFor(h, f, r);
    MovesAlternate(h);
    AlternatingCost(Moves(h), f, r);
  }

  lemma MovesAppend(h: seq<Result>, x: Result)
    ensures
      Moves(h + [x]) ==
      if Run(h + [x]).health != Run(h).health then Moves(h) + [Run(h + [x]).health] else Moves(h)
    ensures Run(h + [x]) == Step(Run(h), x)
  {
    hide Step;
    assert (h + [x])[..|h|] == h;
  }

  /** What the moves inside `more` after its first one cost, and the present
      run against the present health, fit in `more` beside that first one. */
  ghost predicate WindowPaid(h: seq<Result>, more: seq<Result>, f: nat, r: nat) {
    var m, a := Moves(h + more), |Moves(h)|;
    && a <= |m| && m[..a] == Moves(h)
    && (|m| > a ==> Cost(m[a + 1..], f, r) + 1 + Against(Run(h + more)) <= |more|)
  }

  lemma PaidStep(m: seq<Health>, a: nat, t: TargetState, x: Result, f: nat, r: nat, n: nat)
    requires a <= |m| && AsksFor(x.failureThreshold, f) && AsksFor(x.recoveryThreshold, r)
    requires |m| > a ==> t.health != Unknown && Cost(m[a + 1..], f, r) + 1 + Against(t) <= n
    ensures
      var t' := Step(t, x);
      var m' := if t'.health != t.health then m + [t'.health] else m;
      |m'| > a ==> Cost(m'[a + 1..], f, r) + 1 + Against(t') <= n + 1
  {
    var t' := Step(t, x);
    var m' := m + [t'.health];
    if t'.health != t.health {
      if |m| == a {
        assert m'[a + 1..] == [];
      } else {
        assert m'[a + 1..] == m[a + 1..] + [t'.health];
        assert m'[a + 1..][..|m| - a - 1] == m[a + 1..];
      }
    }
  }

  lemma WindowStep(h: seq<Result>, front: seq<Result>, x: Result, f: nat, r: nat)
    requires WindowPaid(h, front, f, r)
    requires AsksFor(x.failureThreshold, f) && AsksFor(x.recoveryThreshold, r)
    ensures WindowPaid(h, front + [x], f, r)
  {
    hide Step, Cost, Against, Run, Moves, AsksFor;
    var g, m, a := h + front, Moves(h + front), |Moves(h)|;
    assert h + (front + [x]) == g + [x];
    MovesAppend(g, x);
    MovesAlternate(g);
    PaidStep(m, a, Run(g), x, f, r, |front|);
    assert (m + [Run(g + [x]).health])[..a] == m[..a];
  }

  lemma {:induction false} WindowIsPaidFor(h: seq<Result>, more: seq<Result>, f: nat, r: nat)
    requires Fixed(more, f, r)
    ensures WindowPaid(h, more, f, r)
  {
    if more == [] {
      assert h + more == h;
    } else {
      hide WindowPaid;
      var n := |more| - 1;
      WindowIsPaidFor(h, more[..n], f, r);
      assert more == more[..n] + [more[n]];
      WindowStep(h, more[..n], more[n], f, r);
    }
  }

  /** In every window of results, with the window's thresholds fixed and any
      history before it, t > 0 moves satisfy
      floor((t-1)/2) * (F + R) < |more|. */
  lemma FlapsInWindowAreBounded(h: seq<Result>, more: seq<Result>, f: nat, r: nat)
    requires Fixed(more, f, r)
    ensures
      var t := |Moves(h + more)| - |Moves(h)|;
      t > 0 ==> (t - 1) / 2 * (f + r) < |more|
  {
    WindowIsPaidFor(h, more, f, r);
    MovesAlternate(h + more);
    var m, a := Moves(h + more), |Moves(h)|;
    if |m| > a {
      hide Moves, Cost, Run, Against;
      AlternatingCost(m[a + 1..], f, r);
    }
  }

  /** The first move of a window may be half paid for before it: two moves in
      three results although F + R is 4. */
  lemma WindowMayStartHalfPaid()
    ensures
      var up, down := Result(true, 2, 2), Result(false, 2, 2);
      |Moves([down] + [down, up, up])| - |Moves([down])| == 2
  {
    var up, down := Result(true, 2, 2), Result(false, 2, 2);
    MovesAppend([], down);
    MovesAppend([down], down);
    MovesAppend([down, down], up);
    MovesAppend([down, down, up], up);
    assert [] + [down] == [down] && [down] + [down] == [down, down];
    assert [down, down] + [up] == [down, down, up];
    assert [down] + [down, up, up] == [down, down, up] + [up];
  }

  // ---- Independence of keys ----

  datatype Event = Event(key: string, result: Result)

  ghost function RunAll(events: seq<Event>): map<string, TargetState> {
    if events == [] then map[]
    else
      var e, before := events[|events| - 1], RunAll(events[..|events| - 1]);
      before[e.key := Step(if e.key in before then before[e.key] else FRESH, e.result)]
  }

  ghost function Only(events: seq<Event>, key: string): seq<Result> {
    if events == [] then []
    else
      var n := |events| - 1;
      if events[n].key == key then Only(events[..n], key) + [events[n].result] else Only(events[..n], key)
  }

  /** In any interleaving, a key's state is what its own results make it; a
      key with no result yet is unknown to the machine. */
  lemma {:induction false} KeysAreIndependent(events: seq<Event>, key: string)
    ensures key in RunAll(events) <==> Only(events, key) != []
    ensures key in RunAll(events) ==> RunAll(events)[key] == Run(Only(events, key))
  {
    if events != [] {
      hide Step;
      var n := |events| - 1;
      KeysAreIndependent(events[..n], key);
      var mine := Only(events[..n], key);
      assert (mine + [events[n].result])[..|mine|] == mine;
    }
  }
}
