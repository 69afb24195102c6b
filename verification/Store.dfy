/** The bundle store: validation, the crash-safe cache file, boot and hot
    reload. JSON decoding is a given deterministic function of the bytes. */
module Store {
  import opened Bundles

  type Bytes = seq<bv8>
  type Decoder = Bytes -> Option<Bundle>

  const SUPPORTED_PROTOCOL_VERSION := 1

  // ---- Validation ----

  datatype ParseError = BadJson | BadVersion(version: int) | NoDomain | EmptyFqdn(index: nat) | BadTtl(index: nat)
  datatype Parsed = Accepted(bundle: Bundle) | Rejected(error: ParseError)

  predicate RecordOk(r: Record) {
    r.fqdn != "" && r.ttl > 0
  }

  ghost predicate Valid(b: Bundle) {
    && b.protocolVersion == SUPPORTED_PROTOCOL_VERSION && b.domain != ""
    && forall r | r in b.records :: RecordOk(r)
  }

  /** The bundle the bytes stand for, if they decode to a valid one. */
  ghost function Parse(decode: Decoder, raw: Bytes): Option<Bundle> {
    if decode(raw).Some? && Valid(decode(raw).value) then decode(raw) else None
  }

  /** Accepts exactly the bundles of version 1 with a domain and, in every
      record, a name and a positive TTL; otherwise reports the first fault. */
  method ParseAndValidate(decode: Decoder, raw: Bytes) returns (p: Parsed)
    ensures Parse(decode, raw) == if p.Accepted? then Some(p.bundle) else None
    ensures p.Accepted? ==> decode(raw) == Some(p.bundle)
    ensures p.Accepted? <==>
              decode(raw).Some? &&
              var b := decode(raw).value;
              && b.protocolVersion == 1 && |b.domain| > 0
              && forall i | 0 <= i < |b.records| :: |b.records[i].fqdn| > 0 && b.records[i].ttl > 0
    ensures p.Rejected? ==> (p.error.BadJson? <==> decode(raw).None?)
    ensures p.Rejected? && p.error.BadVersion? ==>
              decode(raw).value.protocolVersion == p.error.version != 1
    ensures p.Rejected? && p.error.NoDomain? ==>
              decode(raw).value.protocolVersion == 1 && decode(raw).value.domain == ""
    ensures p.Rejected? && (p.error.EmptyFqdn? || p.error.BadTtl?) ==>
              decode(raw).value.protocolVersion == 1 && decode(raw).value.domain != ""
    ensures p.Rejected? && p.error.EmptyFqdn? ==>
              var rs, i := decode(raw).value.records, p.error.index;
              i < |rs| && rs[i].fqdn == "" && forall j | 0 <= j < i :: RecordOk(rs[j])
    ensures p.Rejected? && p.error.BadTtl? ==>
              var rs, i := decode(raw).value.records, p.error.index;
              i < |rs| && rs[i].fqdn != "" && rs[i].ttl <= 0 && forall j | 0 <= j < i :: RecordOk(rs[j])
  {
    var decoded := decode(raw);
    if decoded.None? {
      return Rejected(BadJson);
    }
    var b := decoded.value;
    if b.protocolVersion != SUPPORTED_PROTOCOL_VERSION {
      return Rejected(BadVersion(b.protocolVersion));
    }
    if b.domain == "" {
      return Rejected(NoDomain);
    }
    for i := 0 to |b.records|
      invariant forall j | 0 <= j < i :: RecordOk(b.records[j])
    {
      var r := b.records[i];
      if r.fqdn == "" {
        assert r in b.records && !RecordOk(r);
        return Rejected(EmptyFqdn(i));
      }
      if r.ttl <= 0 {
        assert r in b.records && !RecordOk(r);
        return Rejected(BadTtl(i));
      }
    }
    return Accepted(b);
  }

  // ---- The cache directory ----

  /** A file's bytes, and whether they have been flushed. */
  datatype File = File(content: Bytes, synced: bool)

  /** The cache file and the temporary file beside it. `older` holds earlier
      values of the cache file: renames are not flushed, so a power loss may
      bring one back. */
  datatype Disk = Disk(cache: Option<File>, tmp: Option<File>, older: set<Option<File>>)

  datatype SaveStep = Mkdir | OpenTemp | Write | Fsync | Close | Rename

  /** What befalls one save: a step fails, or the process dies just before a
      step, or after the last. A write that fails or is cut short leaves
      `written` bytes; the clean-up after a failure may fail too. */
  datatype Fault =
    | NoFault
    | Fails(step: SaveStep, written: nat, removed: bool)
    | CrashBefore(step: SaveStep, written: nat)
    | CrashAfter
  {
    predicate Crash() {
      CrashBefore? || CrashAfter?
    }

    /** The save gets as far as a completed rename. */
    predicate Completes() {
      NoFault? || CrashAfter?
    }
  }

  /** What a save does to the cache file: all of it, flushed, or nothing. */
  ghost predicate Saved(d: Disk, raw: Bytes, fault: Fault, d': Disk) {
    if fault.Completes()
    then d'.cache == Some(File(raw, true)) && d'.tmp == None && d'.older == d.older + {d.cache}
    else d'.cache == d.cache && d'.older == d.older
  }

  datatype SaveEnd = SaveOk | SaveFailed | SaveCrashed

  class CacheDir {
    var disk: Disk

    constructor ()
      ensures disk == Disk(None, None, {})
    {
      disk := Disk(None, None, {});
    }

    /** Writes a temporary file, flushes it and renames it into place. */
    method SaveCache(raw: Bytes, fault: Fault) returns (end: SaveEnd)
      modifies this
      ensures Saved(old(disk), raw, fault, disk)
      ensures if fault.NoFault? || fault.CrashAfter?
              then disk == Disk(Some(File(raw, true)), None, old(disk.older) + {old(disk.cache)})
              else disk.cache == old(disk.cache) && disk.older == old(disk.older)
      ensures end == if fault.Crash() then SaveCrashed else if fault.NoFault? then SaveOk else SaveFailed
    {
      if fault.CrashBefore? && fault.step == Mkdir { return SaveCrashed; }
      if fault.Fails? && fault.step == Mkdir { return SaveFailed; }

      if fault.CrashBefore? && fault.step == OpenTemp { return SaveCrashed; }
      if fault.Fails? && fault.step == OpenTemp { return SaveFailed; }
      disk := disk.(tmp := Some(File([], false)));

      if (fault.CrashBefore? || fault.Fails?) && fault.step == Write {
        disk := disk.(tmp := Some(File(raw[..if fault.written < |raw| then fault.written else |raw|], false)));
        if fault.Fails? {
          RemoveTemp(fault.removed);
          return SaveFailed;
        }
        return SaveCrashed;
      }
      disk := disk.(tmp := Some(File(raw, false)));

      if fault.CrashBefore? && fault.step == Fsync { return SaveCrashed; }
      if fault.Fails? && fault.step == Fsync {
        RemoveTemp(fault.removed);
        return SaveFailed;
      }
      disk := disk.(tmp := Some(File(disk.tmp.value.content, true)));

      if fault.CrashBefore? && fault.step == Close { return SaveCrashed; }
      if fault.Fails? && fault.step == Close {
        RemoveTemp(fault.removed);
        return SaveFailed;
      }

      if fault.CrashBefore? && fault.step == Rename { return SaveCrashed; }
      if fault.Fails? && fault.step == Rename {
        RemoveTemp(fault.removed);
        return SaveFailed;
      }
      disk := Disk(disk.tmp, None, disk.older + {disk.cache});
      return if fault.CrashAfter? then SaveCrashed else SaveOk;
    }

    method RemoveTemp(removed: bool)
      modifies this
      ensures disk == old(disk).(tmp := if removed then None else old(disk).tmp)
    {
      if removed {
        disk := disk.(tmp := None);
      }
    }

    method LoadCache(decode: Decoder) returns (b: Option<Bundle>)
      ensures b == Cached(decode, disk)
    {
      if disk.cache.None? {
        return None;
      }
      var p := ParseAndValidate(decode, disk.cache.value.content);
      return if p.Accepted? then Some(p.bundle) else None;
    }
  }

  /** The bundle a fallback to the cache file yields. */
  ghost function Cached(decode: Decoder, d: Disk): Option<Bundle> {
    if d.cache.Some? then Parse(decode, d.cache.value.content) else None
  }

  // ---- Events in the life of a responder ----

  /** The serving process; `current` is None while no process serves. */
  datatype Proc = Proc(current: Option<Bundle>, modTime: int)

  const DOWN: Proc := Proc(None, 0)

  datatype Sys = Sys(disk: Disk, proc: Proc)

  datatype Fetch = FetchFailed | Got(raw: Bytes)

  /** A boot from fetches: at most retries + 1 attempts; `cancelled(k)` says the
      wait before attempt k is cut short for good. */
  datatype Attempts = Attempts(fetch: nat -> Fetch, retries: nat, backoff: bool, cancelled: nat -> bool)

  ghost predicate Open(a: Attempts, k: nat) {
    k <= a.retries && (k > 0 ==> a.backoff) && forall j: nat | 1 <= j <= k :: !a.cancelled(j)
  }

  ghost predicate Good(decode: Decoder, a: Attempts, k: nat) {
    a.fetch(k).Got? && Parse(decode, a.fetch(k).raw).Some?
  }

  /** Attempt k is made and is the first to return a valid bundle. */
  ghost predicate FirstGood(decode: Decoder, a: Attempts, k: nat) {
    Open(a, k) && Good(decode, a, k) && forall j: nat | j < k :: !Good(decode, a, j)
  }

  datatype Event =
    | BootFetch(attempts: Attempts, now: int, fault: Fault)
    | BootFile(first: Option<Bytes>, second: Option<Bytes>, modTime: int, fault: Fault)
    | Push(raw: Bytes, now: int, fault: Fault)
    | Poll(stat: Option<int>, read: Option<Bytes>, fault: Fault)
    | ProcessCrash
    | PowerLoss

  /** A valid bundle is swapped in and then saved. */
  ghost predicate Swapped(decode: Decoder, d: Disk, raw: Bytes, mt: int, fault: Fault, s': Sys) {
    && Saved(d, raw, fault, s'.disk)
    && s'.proc == if fault.Crash() then DOWN else Proc(Parse(decode, raw), mt)
  }

  ghost predicate FellBack(decode: Decoder, d: Disk, s': Sys) {
    s'.disk == d && s'.proc == Proc(Cached(decode, d), 0)
  }

  ghost predicate SameHash(current: Option<Bundle>, b: Bundle) {
    current.Some? && b.contentHash != "" && current.value.contentHash == b.contentHash
  }

  /** What is left of a file after a power loss: flushed bytes, or any bytes. */
  ghost predicate Survives(f: Option<File>, f': Option<File>) {
    match f
    case None => f'.None?
    case Some(file) => f'.Some? && f'.value.synced && (file.synced ==> f'.value.content == file.content)
  }

  /** Fetched bytes are applied if they are valid and their hash is new. */
  ghost predicate Pushed(decode: Decoder, s: Sys, raw: Bytes, now: int, fault: Fault, s': Sys) {
    var b := Parse(decode, raw);
    if b.None? || SameHash(s.proc.current, b.value) then s' == s
    else Swapped(decode, s.disk, raw, now, fault, s')
  }

  /** The bundle file is looked at: applied if its time changed and it is
      valid; the time of a bad file is remembered. */
  ghost predicate Polled(decode: Decoder, s: Sys, stat: Option<int>, read: Option<Bytes>, fault: Fault, s': Sys) {
    if stat.None? || stat.value == s.proc.modTime || read.None? then s' == s
    else if Parse(decode, read.value).None? then s' == s.(proc := s.proc.(modTime := stat.value))
    else Swapped(decode, s.disk, read.value, stat.value, fault, s')
  }

  /** One event; pushes and polls reach a serving process only. */
  ghost predicate Next(decode: Decoder, s: Sys, e: Event, s': Sys) {
    match e
    case BootFetch(a, now, fault) =>
      s.proc == DOWN &&
      if k: nat :| FirstGood(decode, a, k)
      then Swapped(decode, s.disk, a.fetch(k).raw, now, fault, s')
      else FellBack(decode, s.disk, s')
    case BootFile(first, second, mt, fault) =>
      s.proc == DOWN &&
      if first.None? || Parse(decode, first.value).None? then FellBack(decode, s.disk, s')
      else if second.None? then s'.disk == s.disk && s'.proc == Proc(Parse(decode, first.value), mt)
      else Saved(s.disk, second.value, fault, s'.disk)
           && s'.proc == if fault.Crash() then DOWN else Proc(Parse(decode, first.value), mt)
    case Push(raw, now, fault) =>
      s.proc.current.Some? && Pushed(decode, s, raw, now, fault, s')
    case Poll(stat, read, fault) =>
      s.proc.current.Some? && Polled(decode, s, stat, read, fault, s')
    case ProcessCrash =>
      s' == s.(proc := DOWN)
    case PowerLoss =>
      && s'.proc == DOWN && s'.disk.older == {}
      && exists f | f in s.disk.older + {s.disk.cache} :: Survives(f, s'.disk.cache)
  }

  // ---- The code of the store ----

  class BundleStore {
    const dir: CacheDir
    const decode: Decoder
    var current: Option<Bundle>
    var modTime: int

    constructor (dir: CacheDir, decode: Decoder)
      ensures this.dir == dir && this.decode == decode && current == None && modTime == 0
    {
      this.dir, this.decode := dir, decode;
      current, modTime := None, 0;
    }

    /** The state of the responder; a crash in the last call leaves no process. */
    ghost function View(crashed: bool): Sys
      reads this, dir
    {
      Sys(dir.disk, if crashed then DOWN else Proc(current, modTime))
    }

    /** The swap that boot, push and hot reload share. */
    method ApplyBundle(raw: Bytes, mt: int, fault: Fault) returns (applied: bool, crashed: bool)
      modifies this, dir
      ensures applied <==> Parse(decode, raw).Some?
      ensures applied ==> Swapped(decode, old(dir.disk), raw, mt, fault, View(crashed))
      ensures !applied ==> !crashed && View(false) == old(View(false))
      ensures crashed <==> applied && fault.Crash()
    {
      var p := ParseAndValidate(decode, raw);
      if p.Rejected? {
        return false, false;
      }
      current, modTime := Some(p.bundle), mt;
      var end := dir.SaveCache(raw, fault);
      return true, end == SaveCrashed;
    }

    method ApplyIfChanged(raw: Bytes, now: int, fault: Fault) returns (applied: bool, crashed: bool)
      modifies this, dir
      ensures Pushed(decode, old(View(false)), raw, now, fault, View(crashed))
      ensures applied <==> Parse(decode, raw).Some? && !SameHash(old(current), Parse(decode, raw).value)
    {
      var p := ParseAndValidate(decode, raw);
      if p.Rejected? {
        return false, false;
      }
      if current.Some? && p.bundle.contentHash != "" && current.value.contentHash == p.bundle.contentHash {
        return false, false;
      }
      applied, crashed := ApplyBundle(raw, now, fault);
    }

    method ReloadIfChanged(stat: Option<int>, read: Option<Bytes>, fault: Fault) returns (crashed: bool)
      modifies this, dir
      ensures Polled(decode, old(View(false)), stat, read, fault, View(crashed))
    {
      if stat.None? || stat.value == modTime || read.None? {
        return false;
      }
      var applied;
      applied, crashed := ApplyBundle(read.value, stat.value, fault);
      if !applied {
        modTime := stat.value;
      }
    }

    /** The attempt loop of a boot from fetches, then the cache. The boot fails
        exactly when the new state has no current bundle and no crash. */
    method BootFromFetch(a: Attempts, now: int, fault: Fault) returns (crashed: bool)
      requires current == None && modTime == 0
      modifies this, dir
      ensures Next(decode, old(View(false)), BootFetch(a, now, fault), View(crashed))
    {
      hide Parse;
      var attempt := 0;
      while attempt <= a.retries
        invariant attempt <= a.retries + 1
        invariant View(false) == old(View(false))
        invariant forall j: nat | j < attempt :: Open(a, j) && !Good(decode, a, j)
      {
        if attempt > 0 && (!a.backoff || a.cancelled(attempt)) {
          break;
        }
        assert Open(a, attempt) by {
          if attempt > 0 {
            assert Open(a, attempt - 1);
          }
        }
        var f := a.fetch(attempt);
        if f.Got? {
          var applied;
          applied, crashed := ApplyBundle(f.raw, now, fault);
          if applied {
            assert FirstGood(decode, a, attempt);
            FirstGoodUnique(decode, a, attempt);
            return;
          }
        }
        attempt := attempt + 1;
      }
      assert forall k: nat :: !FirstGood(decode, a, k);
      var cached := dir.LoadCache(decode);
      current, modTime := cached, 0;
      return false;
    }

    /** A boot from a bundle file, read once to validate and again to cache. */
    method BootFromFile(first: Option<Bytes>, second: Option<Bytes>, mt: int, fault: Fault) returns (crashed: bool)
      requires current == None && modTime == 0
      modifies this, dir
      ensures Next(decode, old(View(false)), BootFile(first, second, mt, fault), View(crashed))
    {
      hide Parse;
      if first.Some? {
        var p := ParseAndValidate(decode, first.value);
        if p.Accepted? {
          current, modTime := Some(p.bundle), mt;
          if second.Some? {
            var end := dir.SaveCache(second.value, fault);
            return end == SaveCrashed;
          }
          return false;
        }
      }
      var cached := dir.LoadCache(decode);
      current, modTime := cached, 0;
      return false;
    }
  }

  lemma FirstGoodUnique(decode: Decoder, a: Attempts, k: nat)
    requires FirstGood(decode, a, k)
    ensures forall j: nat | FirstGood(decode, a, j) :: j == k
  {
    forall j: nat | FirstGood(decode, a, j) ensures j == k {
      assert j < k ==> !Good(decode, a, j);
      assert k < j ==> !Good(decode, a, k);
    }
  }
}
