/** Whole lives of a responder: boots, pushes, polls, failed saves, crashes
    between any two steps of a save, and power losses. */
module StoreRuns {
  import opened Bundles
  import opened Store

  /** Event i leads from state i to state i + 1. */
  datatype Trace = Trace(states: seq<Sys>, events: seq<Event>)

  ghost predicate IsRun(decode: Decoder, t: Trace) {
    && |t.states| == |t.events| + 1
    && forall i | 0 <= i < |t.events| :: Next(decode, t.states[i], t.events[i], t.states[i + 1])
  }

  // ---- The cache never holds part of a bundle ----

  ghost predicate Intact(decode: Decoder, f: Option<File>) {
    f.Some? ==> f.value.synced && Parse(decode, f.value.content).Some?
  }

  ghost predicate CacheIntact(decode: Decoder, d: Disk) {
    Intact(decode, d.cache) && forall f | f in d.older :: Intact(decode, f)
  }

  /** A boot from a bundle file that reads valid bytes first, then others that
      are not valid, and saves the latter. */
  ghost predicate BadReRead(decode: Decoder, e: Event) {
    && e.BootFile? && e.fault.Completes()
    && e.first.Some? && Parse(decode, e.first.value).Some?
    && e.second.Some? && Parse(decode, e.second.value).None?
  }

  lemma SavedIntact(decode: Decoder, d: Disk, raw: Bytes, fault: Fault, d': Disk)
    requires CacheIntact(decode, d) && Saved(d, raw, fault, d')
    requires fault.Completes() ==> Parse(decode, raw).Some?
    ensures CacheIntact(decode, d')
  {
    hide Parse;
  }

  lemma IntactStep(decode: Decoder, s: Sys, e: Event, s': Sys)
    requires CacheIntact(decode, s.disk) && Next(decode, s, e, s') && !BadReRead(decode, e)
    ensures CacheIntact(decode, s'.disk)
  {
    hide Parse, Open, Saved, SameHash;
    match e
    case BootFetch(a, now, fault) =>
      if k: nat :| FirstGood(decode, a, k) && Swapped(decode, s.disk, a.fetch(k).raw, now, fault, s') {
        SavedIntact(decode, s.disk, a.fetch(k).raw, fault, s'.disk);
      }
    case BootFile(first, second, mt, fault) =>
      if first.Some? && Parse(decode, first.value).Some? && second.Some? {
        SavedIntact(decode, s.disk, second.value, fault, s'.disk);
      }
    case Push(raw, now, fault) =>
      if Parse(decode, raw).Some? && !SameHash(s.proc.current, Parse(decode, raw).value) {
        SavedIntact(decode, s.disk, raw, fault, s'.disk);
      }
    case Poll(stat, read, fault) =>
      if stat.Some? && stat.value != s.proc.modTime && read.Some? && Parse(decode, read.value).Some? {
        SavedIntact(decode, s.disk, read.value, fault, s'.disk);
      }
    case ProcessCrash =>
    case PowerLoss =>
      var f :| f in s.disk.older + {s.disk.cache} && Survives(f, s'.disk.cache);
      assert Intact(decode, f);
  }

  /** For every sequence of boots, pushes, polls and failed saves, with a crash
      between any two steps of a save and power losses at any moment, a cache
      that starts absent or valid holds nothing but the full bytes of a
      validated bundle as long as no file boot re-read bad bytes. */
  lemma {:induction false} CacheNeverPartial(decode: Decoder, t: Trace, n: nat)
    requires IsRun(decode, t) && n < |t.states|
    requires CacheIntact(decode, t.states[0].disk)
    requires forall i | 0 <= i < n :: !BadReRead(decode, t.events[i])
    ensures CacheIntact(decode, t.states[n].disk)
  {
    hide Next, CacheIntact, BadReRead;
    if n > 0 {
      CacheNeverPartial(decode, t, n - 1);
      IntactStep(decode, t.states[n - 1], t.events[n - 1], t.states[n]);
    }
  }

  /** A boot from a file whose first read is valid keeps the cache intact
      exactly when the save does not complete, the second read fails, or the
      second read is valid too: the bytes cached are not those validated. */
  lemma FileBootIntactExactly(decode: Decoder, s: Sys, first: Bytes, second: Option<Bytes>,
                              mt: int, fault: Fault, s': Sys)
    requires CacheIntact(decode, s.disk) && Parse(decode, first).Some?
    requires Next(decode, s, BootFile(Some(first), second, mt, fault), s')
    ensures CacheIntact(decode, s'.disk) <==>
            !fault.Completes() || second.None? || Parse(decode, second.value).Some?
  {
    hide Parse;
  }

  /** Over every life that starts with a cache absent or valid, the cache is
      intact at every moment exactly when no file boot saved a bad re-read. */
  lemma CacheIntactExactly(decode: Decoder, t: Trace)
    requires IsRun(decode, t) && CacheIntact(decode, t.states[0].disk)
    ensures (forall n: nat | n < |t.states| :: CacheIntact(decode, t.states[n].disk))
            <==> forall i | 0 <= i < |t.events| :: !BadReRead(decode, t.events[i])
  {
    if i: nat :| i < |t.events| && BadReRead(decode, t.events[i]) {
      hide Next, CacheIntact;
      var e := t.events[i];
      if CacheIntact(decode, t.states[i].disk) {
        FileBootIntactExactly(decode, t.states[i], e.first.value, e.second, e.modTime, e.fault, t.states[i + 1]);
      }
    } else {
      forall n: nat | n < |t.states| ensures CacheIntact(decode, t.states[n].disk) {
        CacheNeverPartial(decode, t, n);
      }
    }
  }

  /** The bundle file changes between the two reads of a boot; after a crash
      the file is gone and only the cache is left to boot from. */
  ghost function SpoiledTrace(decode: Decoder, good: Bytes, bad: Bytes, mt: int): Trace {
    var before := Disk(Some(File(good, true)), None, {});
    var after := Disk(Some(File(bad, true)), None, {Some(File(good, true))});
    Trace([Sys(before, DOWN), Sys(after, Proc(Parse(decode, good), mt)), Sys(after, DOWN), Sys(after, DOWN)],
          [BootFile(Some(good), Some(bad), mt, NoFault), ProcessCrash, BootFile(None, None, 0, NoFault)])
  }

  /** A responder with a valid cache, and no power loss, can so lose it and
      fail to boot. */
  lemma BadReReadBricksBoot(decode: Decoder, good: Bytes, bad: Bytes, mt: int)
    requires Parse(decode, good).Some? && Parse(decode, bad).None?
    ensures
      var t := SpoiledTrace(decode, good, bad, mt);
      && IsRun(decode, t) && t.states[0].proc == DOWN
      && CacheIntact(decode, t.states[0].disk) && NeverAbsent(t.states[0].disk)
      && t.states[1].proc.current == Parse(decode, good)
      && t.states[3].proc.current == None
  {
    hide Parse;
    var t := SpoiledTrace(decode, good, bad, mt);
    assert Next(decode, t.states[0], t.events[0], t.states[1]);
    assert Next(decode, t.states[1], t.events[1], t.states[2]);
    assert Next(decode, t.states[2], t.events[2], t.states[3]);
  }

  // ---- The cache holds the last bundle saved ----

  /** The event saves these bytes, rename included. */
  ghost predicate Puts(decode: Decoder, s: Sys, e: Event, raw: Bytes) {
    match e
    case BootFetch(a, _, fault) =>
      fault.Completes() && exists k: nat :: FirstGood(decode, a, k) && a.fetch(k) == Got(raw)
    case BootFile(first, second, _, fault) =>
      fault.Completes() && second == Some(raw) && first.Some? && Parse(decode, first.value).Some?
    case Push(pushed, _, fault) =>
      && fault.Completes() && pushed == raw && Parse(decode, raw).Some?
      && !SameHash(s.proc.current, Parse(decode, raw).value)
    case Poll(stat, read, fault) =>
      && fault.Completes() && read == Some(raw) && Parse(decode, raw).Some?
      && stat.Some? && stat.value != s.proc.modTime
    case _ => false
  }

  ghost predicate PutsNothing(decode: Decoder, s: Sys, e: Event) {
    forall raw :: !Puts(decode, s, e, raw)
  }

  lemma PutStep(decode: Decoder, s: Sys, e: Event, s': Sys, raw: Bytes)
    requires Next(decode, s, e, s') && Puts(decode, s, e, raw)
    ensures s'.disk.cache == Some(File(raw, true))
  {
    hide Parse, Open, SameHash;
    if e.BootFetch? {
      var k: nat :| FirstGood(decode, e.attempts, k) && e.attempts.fetch(k) == Got(raw);
      FirstGoodUnique(decode, e.attempts, k);
    }
  }

  lemma NoPutStep(decode: Decoder, s: Sys, e: Event, s': Sys)
    requires Next(decode, s, e, s') && PutsNothing(decode, s, e) && !e.PowerLoss?
    ensures s'.disk.cache == s.disk.cache
  {
    hide Parse, Open, SameHash;
    match e
    case BootFetch(a, now, fault) =>
      if k: nat :| FirstGood(decode, a, k) && Swapped(decode, s.disk, a.fetch(k).raw, now, fault, s') {
        assert !Puts(decode, s, e, a.fetch(k).raw);
      }
    case BootFile(first, second, mt, fault) =>
      assert second.Some? ==> !Puts(decode, s, e, second.value);
    case Push(raw, now, fault) =>
      assert !Puts(decode, s, e, raw);
    case Poll(stat, read, fault) =>
      assert read.Some? ==> !Puts(decode, s, e, read.value);
    case ProcessCrash =>
  }

  /** Without power loss the cache holds the bytes of the last completed save,
      through any crashes and any failed saves since. */
  lemma {:induction false} CacheIsLastSaved(decode: Decoder, t: Trace, i: nat, n: nat, raw: Bytes)
    requires IsRun(decode, t) && i < n < |t.states|
    requires Puts(decode, t.states[i], t.events[i], raw)
    requires forall j | i < j < n :: PutsNothing(decode, t.states[j], t.events[j]) && !t.events[j].PowerLoss?
    ensures t.states[n].disk.cache == Some(File(raw, true))
  {
    hide Next, Puts, PutsNothing;
    if n == i + 1 {
      PutStep(decode, t.states[i], t.events[i], t.states[n], raw);
    } else {
      CacheIsLastSaved(decode, t, i, n - 1, raw);
      NoPutStep(decode, t.states[n - 1], t.events[n - 1], t.states[n]);
    }
  }

  lemma PutsValid(decode: Decoder, s: Sys, e: Event, raw: Bytes)
    requires Puts(decode, s, e, raw) && !BadReRead(decode, e)
    ensures Parse(decode, raw).Some?
  {
    hide Parse, Open, SameHash;
  }

  /** Once a save of validated bytes has succeeded, and whatever happened
      before it, a reboot in which every fetch fails, or returns nothing valid,
      serves the last bundle saved. */
  lemma RebootServesLastSaved(decode: Decoder, t: Trace, i: nat, raw: Bytes)
    requires IsRun(decode, t) && i + 1 < |t.events|
    requires Puts(decode, t.states[i], t.events[i], raw) && !BadReRead(decode, t.events[i])
    requires forall j | i < j < |t.events| ::
               PutsNothing(decode, t.states[j], t.events[j]) && !t.events[j].PowerLoss?
    requires
      var last := t.events[|t.events| - 1];
      last.BootFetch? && forall k: nat | Open(last.attempts, k) :: !Good(decode, last.attempts, k)
    ensures
      var current := t.states[|t.events|].proc.current;
      current.Some? && current == Parse(decode, raw)
  {
    var n := |t.events| - 1;
    CacheIsLastSaved(decode, t, i, n, raw);
    PutsValid(decode, t.states[i], t.events[i], raw);
    hide Parse, Puts, PutsNothing, BadReRead;
    var a := t.events[n].attempts;
    assert forall k: nat :: !FirstGood(decode, a, k);
    assert Next(decode, t.states[n], t.events[n], t.states[n + 1]);
  }

  // ---- With power losses ----

  /** A cache is there, and was there at every moment a power loss may bring back. */
  ghost predicate NeverAbsent(d: Disk) {
    d.cache.Some? && forall f: Option<File> | f in d.older :: f.Some?
  }

  lemma NeverAbsentStep(decode: Decoder, s: Sys, e: Event, s': Sys)
    requires NeverAbsent(s.disk) && Next(decode, s, e, s')
    ensures NeverAbsent(s'.disk)
  {
    hide Parse, FirstGood, SameHash;
    if e.PowerLoss? {
      var f :| f in s.disk.older + {s.disk.cache} && Survives(f, s'.disk.cache);
    }
  }

  /** Even when renames are lost with the power, a responder that started with
      a valid cache can boot from the cache at every moment, as long as no file
      boot saved a bad re-read. */
  lemma {:induction false} BootsAfterPowerLoss(decode: Decoder, t: Trace, n: nat)
    requires IsRun(decode, t) && n < |t.states|
    requires CacheIntact(decode, t.states[0].disk) && NeverAbsent(t.states[0].disk)
    requires forall i | 0 <= i < n :: !BadReRead(decode, t.events[i])
    ensures NeverAbsent(t.states[n].disk) && Cached(decode, t.states[n].disk).Some?
  {
    hide Next, Parse, BadReRead;
    if n > 0 {
      BootsAfterPowerLoss(decode, t, n - 1);
      NeverAbsentStep(decode, t.states[n - 1], t.events[n - 1], t.states[n]);
    }
    CacheNeverPartial(decode, t, n);
  }

  /** A power loss is sure to leave a bootable cache exactly when no value it
      may bring back is an absent file. */
  lemma PowerLossHarmlessExactly(decode: Decoder, s: Sys)
    requires CacheIntact(decode, s.disk)
    ensures (forall s' :: Next(decode, s, PowerLoss, s') ==> Cached(decode, s'.disk).Some?)
            <==> NeverAbsent(s.disk)
  {
    hide Parse;
    if NeverAbsent(s.disk) {
      forall s' | Next(decode, s, PowerLoss, s') ensures Cached(decode, s'.disk).Some? {
        NeverAbsentStep(decode, s, PowerLoss, s');
        IntactStep(decode, s, PowerLoss, s');
      }
    } else {
      var gone := Sys(Disk(None, None, {}), DOWN);
      var absent: Option<File> := None;
      assert absent in s.disk.older + {s.disk.cache} && Survives(absent, gone.disk.cache);
      assert Next(decode, s, PowerLoss, gone);
    }
  }

  lemma OnlyPowerLossSettles(decode: Decoder, s: Sys, e: Event, s': Sys)
    requires Next(decode, s, e, s') && !NeverAbsent(s.disk)
    ensures NeverAbsent(s'.disk) <==> e.PowerLoss? && s'.disk.cache.Some?
  {
    hide Parse, FirstGood, SameHash;
  }

  /** No power loss has yet left the cache file in place. */
  ghost predicate Unsettled(t: Trace, n: nat)
    requires n < |t.states| == |t.events| + 1
  {
    forall i | 0 <= i < n :: t.events[i].PowerLoss? ==> t.states[i + 1].disk.cache.None?
  }

  lemma {:induction false} SettledExactly(decode: Decoder, t: Trace, n: nat)
    requires IsRun(decode, t) && n < |t.states| && !NeverAbsent(t.states[0].disk)
    ensures NeverAbsent(t.states[n].disk) <==> !Unsettled(t, n)
  {
    hide Next, NeverAbsent;
    if n > 0 {
      SettledExactly(decode, t, n - 1);
      assert Unsettled(t, n) <==>
             (Unsettled(t, n - 1) && (t.events[n - 1].PowerLoss? ==> t.states[n].disk.cache.None?));
      if NeverAbsent(t.states[n - 1].disk) {
        NeverAbsentStep(decode, t.states[n - 1], t.events[n - 1], t.states[n]);
      } else {
        OnlyPowerLossSettles(decode, t.states[n - 1], t.events[n - 1], t.states[n]);
      }
    }
  }

  /** The exact condition for "once saved, always bootable" under power loss.
      The directory is not flushed after a rename, so on every life that began
      without a cache, and however many saves succeeded, the next power loss
      is sure to leave a bootable cache exactly when an earlier one already
      left the cache file in place; no file boot saved a bad re-read. */
  lemma SavesSurvivePowerLossExactly(decode: Decoder, t: Trace, n: nat)
    requires IsRun(decode, t) && n < |t.states|
    requires CacheIntact(decode, t.states[0].disk) && t.states[0].disk.cache == None
    requires forall i | 0 <= i < n :: !BadReRead(decode, t.events[i])
    ensures (forall s' :: Next(decode, t.states[n], PowerLoss, s') ==> Cached(decode, s'.disk).Some?)
            <==> exists i | 0 <= i < n :: t.events[i].PowerLoss? && t.states[i + 1].disk.cache.Some?
  {
    CacheNeverPartial(decode, t, n);
    SettledExactly(decode, t, n);
    PowerLossHarmlessExactly(decode, t.states[n]);
    hide Next, NeverAbsent;
  }

  /** A life from nothing: a boot fetches and saves the bundle, the power
      fails, and the next boot has no fetch to go by. */
  ghost function LossTrace(decode: Decoder, raw: Bytes, now: int): Trace {
    var empty := Disk(None, None, {});
    var online := Attempts(_ => Got(raw), 0, false, _ => false);
    var offline := Attempts(_ => FetchFailed, 0, false, _ => false);
    Trace([Sys(empty, DOWN),
           Sys(Disk(Some(File(raw, true)), None, {None}), Proc(Parse(decode, raw), now)),
           Sys(empty, DOWN),
           Sys(empty, DOWN)],
          [BootFetch(online, now, NoFault), PowerLoss, BootFetch(offline, now, NoFault)])
  }

  /** So the first save can be lost after it was reported done, and the
      responder then fails to boot. */
  lemma FirstSaveCanBeLost(decode: Decoder, raw: Bytes, now: int)
    requires Parse(decode, raw).Some?
    ensures
      var t := LossTrace(decode, raw, now);
      && IsRun(decode, t)
      && t.states[0] == Sys(Disk(None, None, {}), DOWN)
      && Puts(decode, t.states[0], t.events[0], raw) && t.states[1].proc.current == Parse(decode, raw)
      && t.states[3].proc.current == None
  {
    hide Parse;
    var t := LossTrace(decode, raw, now);
    assert FirstGood(decode, t.events[0].attempts, 0);
    FirstGoodUnique(decode, t.events[0].attempts, 0);
    assert Next(decode, t.states[0], t.events[0], t.states[1]);
    var absent: Option<File> := None;
    assert absent in t.states[1].disk.older && Survives(absent, t.states[2].disk.cache);
    assert Next(decode, t.states[1], t.events[1], t.states[2]);
    assert forall k: nat :: !FirstGood(decode, t.events[2].attempts, k);
    assert Next(decode, t.states[2], t.events[2], t.states[3]);
  }

  // ---- What one event makes of the serving bundle ----

  /** The bytes decode to a bundle of version 1 with a domain, in which every
      record has a name and a positive TTL. */
  ghost predicate Acceptable(decode: Decoder, raw: Bytes) {
    decode(raw).Some? &&
    var b := decode(raw).value;
    && b.protocolVersion == 1 && |b.domain| > 0
    && forall i | 0 <= i < |b.records| :: |b.records[i].fqdn| > 0 && b.records[i].ttl > 0
  }

  lemma ParsesAcceptable(decode: Decoder, raw: Bytes)
    ensures Parse(decode, raw) == if Acceptable(decode, raw) then decode(raw) else None
    ensures Parse(decode, raw).Some? <==> Acceptable(decode, raw)
  {
    if decode(raw).Some? {
      var b := decode(raw).value;
      assert forall i | 0 <= i < |b.records| :: b.records[i] in b.records;
    }
  }

  /** The pushed bundle is new: it has no hash, or another than the one served. */
  ghost predicate NewHash(current: Option<Bundle>, b: Bundle) {
    current.Some? ==> b.contentHash == "" || b.contentHash != current.value.contentHash
  }

  /** A push is taken exactly when its bytes are acceptable and its hash is new:
      then the bundle is served and the cache holds its bytes unless the save
      did not complete; otherwise nothing changes at all. */
  lemma PushIsServedExactly(decode: Decoder, s: Sys, raw: Bytes, now: int, fault: Fault, s': Sys)
    requires Next(decode, s, Push(raw, now, fault), s')
    ensures
      if Acceptable(decode, raw) && NewHash(s.proc.current, decode(raw).value)
      then && s'.proc == (if fault.CrashBefore? || fault.CrashAfter? then Proc(None, 0) else Proc(decode(raw), now))
           && s'.disk.cache == if fault.NoFault? || fault.CrashAfter? then Some(File(raw, true)) else s.disk.cache
      else s' == s
  {
    ParsesAcceptable(decode, raw);
    hide Parse, Acceptable;
  }

  /** A poll of the bundle file takes acceptable bytes exactly when the file's
      time is not the one remembered, and remembers the time of any file it
      could read; otherwise nothing changes. */
  lemma PollIsServedExactly(decode: Decoder, s: Sys, stat: Option<int>, read: Option<Bytes>, fault: Fault, s': Sys)
    requires Next(decode, s, Poll(stat, read, fault), s')
    ensures
      if stat.None? || stat.value == s.proc.modTime || read.None? then s' == s
      else if !Acceptable(decode, read.value)
      then s' == Sys(s.disk, Proc(s.proc.current, stat.value))
      else && s'.proc == (if fault.CrashBefore? || fault.CrashAfter? then Proc(None, 0)
                          else Proc(decode(read.value), stat.value))
           && s'.disk.cache ==
              if fault.NoFault? || fault.CrashAfter? then Some(File(read.value, true)) else s.disk.cache
  {
    if read.Some? {
      ParsesAcceptable(decode, read.value);
    }
    hide Parse, Acceptable;
  }

  /** What a boot from the cache alone serves. */
  ghost function FromCache(decode: Decoder, d: Disk): Option<Bundle> {
    if d.cache.Some? && Acceptable(decode, d.cache.value.content) then decode(d.cache.value.content) else None
  }

  /** Attempt k is made if every attempt before it failed: it is within the
      retries, and the wait before every attempt but the first, which needs a
      backoff, is not cancelled. */
  ghost predicate Reached(a: Attempts, k: nat) {
    k <= a.retries && forall j: nat | 1 <= j <= k :: a.backoff && !a.cancelled(j)
  }

  ghost predicate Fetches(decode: Decoder, a: Attempts, k: nat) {
    a.fetch(k).Got? && Acceptable(decode, a.fetch(k).raw)
  }

  lemma FirstGoodIs(decode: Decoder, a: Attempts, k: nat)
    ensures FirstGood(decode, a, k) <==>
            Reached(a, k) && Fetches(decode, a, k) && forall j: nat | j < k :: !Fetches(decode, a, j)
  {
    forall j: nat ensures Good(decode, a, j) <==> Fetches(decode, a, j) {
      if a.fetch(j).Got? {
        ParsesAcceptable(decode, a.fetch(j).raw);
      }
    }
    hide Parse, Acceptable, Good, Fetches;
    assert a.cancelled(k) || !a.cancelled(k);
  }

  /** A boot from fetches serves the first acceptable bundle fetched by an
      attempt that is made, whatever attempts failed before it, and the cached
      bundle exactly when there is none. */
  lemma FetchBootServesExactly(decode: Decoder, s: Sys, a: Attempts, now: int, fault: Fault, s': Sys)
    requires Next(decode, s, BootFetch(a, now, fault), s')
    ensures forall k: nat | Reached(a, k) && Fetches(decode, a, k) && forall j: nat | j < k :: !Fetches(decode, a, j) ::
              && s'.proc == (if fault.CrashBefore? || fault.CrashAfter? then Proc(None, 0)
                             else Proc(decode(a.fetch(k).raw), now))
              && s'.disk.cache ==
                 if fault.NoFault? || fault.CrashAfter? then Some(File(a.fetch(k).raw, true)) else s.disk.cache
    ensures (forall k: nat | Reached(a, k) :: !Fetches(decode, a, k)) ==>
              s' == Sys(s.disk, Proc(FromCache(decode, s.disk), 0))
  {
    forall k: nat ensures FirstGood(decode, a, k) <==>
                          Reached(a, k) && Fetches(decode, a, k) && forall j: nat | j < k :: !Fetches(decode, a, j) {
      FirstGoodIs(decode, a, k);
    }
    if s.disk.cache.Some? {
      ParsesAcceptable(decode, s.disk.cache.value.content);
    }
    hide Parse, Acceptable, Reached;
    if k: nat :| FirstGood(decode, a, k) {
      ParsesAcceptable(decode, a.fetch(k).raw);
      FirstGoodUnique(decode, a, k);
    }
    hide FirstGood;
  }

  /** A boot from a bundle file serves what was read first if that is
      acceptable, and the cached bundle otherwise. */
  lemma FileBootServesExactly(decode: Decoder, s: Sys, first: Option<Bytes>, second: Option<Bytes>, mt: int,
                              fault: Fault, s': Sys)
    requires Next(decode, s, BootFile(first, second, mt, fault), s')
    ensures
      if first.Some? && Acceptable(decode, first.value)
      then && s'.proc == (if second.Some? && (fault.CrashBefore? || fault.CrashAfter?) then Proc(None, 0)
                          else Proc(decode(first.value), mt))
           && s'.disk.cache == if second.Some? && (fault.NoFault? || fault.CrashAfter?)
                               then Some(File(second.value, true)) else s.disk.cache
      else s' == Sys(s.disk, Proc(FromCache(decode, s.disk), 0))
  {
    if first.Some? {
      ParsesAcceptable(decode, first.value);
    }
    if s.disk.cache.Some? {
      ParsesAcceptable(decode, s.disk.cache.value.content);
    }
    hide Parse, Acceptable;
  }

  /** A serving responder takes this bundle from a push or from the file, and
      lives on. */
  ghost predicate Takes(decode: Decoder, s: Sys, e: Event, b: Bundle) {
    match e
    case Push(raw, _, fault) =>
      && Acceptable(decode, raw) && decode(raw) == Some(b) && NewHash(s.proc.current, b)
      && !fault.CrashBefore? && !fault.CrashAfter?
    case Poll(stat, read, fault) =>
      && stat.Some? && stat.value != s.proc.modTime && read.Some?
      && Acceptable(decode, read.value) && decode(read.value) == Some(b)
      && !fault.CrashBefore? && !fault.CrashAfter?
    case _ => false
  }

  /** An offer to a serving responder that it has no reason to take. */
  ghost predicate TakesNothing(decode: Decoder, s: Sys, e: Event) {
    match e
    case Push(raw, _, _) => !Acceptable(decode, raw) || !NewHash(s.proc.current, decode(raw).value)
    case Poll(stat, read, _) =>
      stat.None? || stat.value == s.proc.modTime || read.None? || !Acceptable(decode, read.value)
    case _ => false
  }

  /** The last bundle accepted is the one served: it is what was offered in the
      event that accepted it, and stays through any offers not taken. */
  lemma {:induction false} LastAcceptedIsServed(decode: Decoder, t: Trace, i: nat, n: nat, b: Bundle)
    requires IsRun(decode, t) && i < n < |t.states| && Takes(decode, t.states[i], t.events[i], b)
    requires forall j | i < j < n :: TakesNothing(decode, t.states[j], t.events[j])
    ensures t.states[n].proc.current == Some(b)
  {
    hide Acceptable, NewHash;
    if n > i + 1 {
      LastAcceptedIsServed(decode, t, i, n - 1, b);
    }
    var s, s' := t.states[n - 1], t.states[n];
    assert Next(decode, s, t.events[n - 1], s');
    hide Next;
    match t.events[n - 1]
    case Push(raw, now, fault) => PushIsServedExactly(decode, s, raw, now, fault, s');
    case Poll(stat, read, fault) => PollIsServedExactly(decode, s, stat, read, fault, s');
    case _ =>
  }

  // ---- What is served ----

  lemma ServedStep(decode: Decoder, s: Sys, e: Event, s': Sys)
    requires Next(decode, s, e, s')
    requires s.proc.current.Some? ==> Valid(s.proc.current.value)
    ensures s'.proc.current.Some? ==> Valid(s'.proc.current.value)
  {
    hide Valid, Open, SameHash, Saved;
  }

  /** Every bundle served at any moment of any life has version 1, a domain and,
      in every record, a name and a positive TTL. */
  lemma {:induction false} ServesOnlyValid(decode: Decoder, t: Trace, n: nat)
    requires IsRun(decode, t) && n < |t.states| && t.states[0].proc == DOWN
    ensures t.states[n].proc.current.Some? ==>
              var b := t.states[n].proc.current.value;
              && b.protocolVersion == 1 && |b.domain| > 0
              && forall r | r in b.records :: |r.fqdn| > 0 && r.ttl > 0
    ensures t.states[n].proc.current.Some? ==> Valid(t.states[n].proc.current.value)
  {
    hide Next;
    if n > 0 {
      ServesOnlyValid(decode, t, n - 1);
      ServedStep(decode, t.states[n - 1], t.events[n - 1], t.states[n]);
    }
  }

  /** The event offers nothing the store accepts. */
  ghost predicate Rejected(decode: Decoder, e: Event) {
    || (e.Push? && Parse(decode, e.raw).None?)
    || (e.Poll? && (e.stat.None? || e.read.None? || Parse(decode, e.read.value).None?))
  }

  /** After any number of rejections the last accepted bundle is still served
      and the disk is untouched. */
  lemma {:induction false} RejectionsChangeNothing(decode: Decoder, t: Trace, i: nat, n: nat)
    requires IsRun(decode, t) && i <= n < |t.states|
    requires forall j | i <= j < n :: Rejected(decode, t.events[j])
    ensures t.states[n].proc.current == t.states[i].proc.current
    ensures t.states[n].disk == t.states[i].disk
  {
    hide Parse;
    if n > i {
      RejectionsChangeNothing(decode, t, i, n - 1);
      assert Next(decode, t.states[n - 1], t.events[n - 1], t.states[n]);
      assert Rejected(decode, t.events[n - 1]);
    }
  }
}
