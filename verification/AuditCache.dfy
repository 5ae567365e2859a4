/** The audit-settings cache of `_load_audit_settings` (app/main.py:354-414).

    Any number of threads run the function concurrently.  Every read or write of
    the two globals, and every lock operation, is one atomic step, and steps of
    different threads interleave arbitrarily with clock ticks and with changes of
    the settings rows in the database.

    Fields marked "history" do not exist in the program: they record when
    something happened, so that the theorems can speak about it, and no step's
    effect on the real fields depends on them. */
module AuditCache {
  import opened Options

  /** `_AUDIT_SETTINGS_CACHE_TTL_SECONDS`. */
  const TTL: real := 30.0

  type ThreadId = nat

  /** What lines 386-409 build out of the rows they read. */
  datatype Settings = Settings(enabled: bool, methods: set<string>, skipPaths: seq<string>,
                               readTriggerHeader: string, readTriggerQuery: string)

  /** One settings dictionary.  History: `at` is the `now` of the call that built
      it, `loaded` the step at which that call queried the database. */
  datatype Entry = Entry(settings: Settings, at: real, loaded: nat)

  /** How a call obtained its result.  History: the steps at which a fast call
      read the cache (`seen`) and its timestamp (`stamped`), with the numbers of
      cache writes and of complete installs at those moments; for a call that
      went through the lock, a step at which its result was the cached value. */
  datatype Path =
    | Fast(seen: nat, stamped: nat, writes: nat, complete: nat)
    | Locked(shown: nat)

  /** The program counter of a thread with its local variables; every constructor
      is named after the line about to run.  History: `call` is the step of line 361. */
  datatype Pc =
    | Idle
    | AtCacheRead(now: real, call: nat)                                         // 366
    | AtStampRead(now: real, call: nat, cache: Option<Entry>, seen: nat, writes: nat)  // 367
    | AtDecision(now: real, call: nat, cache: Option<Entry>, stamp: Option<real>,
                 seen: nat, writes: nat, stamped: nat, complete: nat)           // 368
    | AtAcquire(now: real, call: nat)                                           // 374
    | AtRecheckCache(now: real, call: nat)                                      // 377
    | AtRecheckStamp(now: real, call: nat)                                      // 378
    | AtRecheckAge(now: real, call: nat)                                        // 379
    | AtLockedRead(now: real, call: nat)                                        // 383
    | AtQuery(now: real, call: nat)                                             // 393
    | AtWriteCache(now: real, call: nat, entry: Entry)                          // 411
    | AtWriteStamp(now: real, call: nat, entry: Entry)                          // 412
    | AtRelease(now: real, call: nat, result: Option<Entry>, shown: nat)        // leaving the `with` block
    | Returned(now: real, call: nat, value: Entry, path: Path)
    | Raised(now: real, call: nat)
  {
    /** The thread owns `_AUDIT_SETTINGS_LOCK`. */
    predicate Holding() {
      AtRecheckCache? || AtRecheckStamp? || AtRecheckAge? || AtLockedRead? || AtQuery?
      || AtWriteCache? || AtWriteStamp? || AtRelease?
    }
  }

  /** `steps`, `written` (every entry ever stored in the cache, in order) and
      `complete` (how many of them also got their timestamp stored) are history. */
  datatype State = State(clock: real, db: Settings,
                         cache: Option<Entry>, cacheAt: Option<real>,
                         lock: Option<ThreadId>, threads: map<ThreadId, Pc>,
                         steps: nat, written: seq<Entry>, complete: nat)

  datatype Action =
    | Tick(d: real)
    | ChangeRows(settings: Settings)
    | Step(t: ThreadId, queryOk: bool)

  function PcOf(s: State, t: ThreadId): Pc {
    if t in s.threads then s.threads[t] else Idle
  }

  predicate Init(s: State) {
    s.cache == None && s.cacheAt == None && s.lock == None && s.threads == map[]
    && s.steps == 0 && s.written == [] && s.complete == 0
  }

  /** Lines 368 and 376-380: the cached value is valid for a call that began at `now`. */
  predicate Hit(now: real, cache: Option<Entry>, stamp: Option<real>) {
    cache.Some? && stamp.Some? && now - stamp.value < TTL
  }

  /** The clock never runs backwards, and a thread waits at line 374 while the lock is taken. */
  predicate Enabled(s: State, a: Action) {
    match a
    case Tick(d) => d >= 0.0
    case ChangeRows(_) => true
    case Step(t, _) => PcOf(s, t).AtAcquire? ==> s.lock == None
  }

  function Apply(s: State, a: Action): State {
    match a
    case Tick(d) => s.(clock := s.clock + d, steps := s.steps + 1)
    case ChangeRows(rows) => s.(db := rows, steps := s.steps + 1)
    case Step(t, queryOk) => Advance(s, t, PcOf(s, t), queryOk)
  }

  /** One atomic step of thread `t`, which stands at `pc`.  Only four lines write
      shared variables: 374 takes the lock, 411 stores the dictionary, 412 its
      timestamp, and leaving the `with` block frees the lock. */
  function Advance(s: State, t: ThreadId, pc: Pc, queryOk: bool): State {
    s.(threads := s.threads[t := NextPc(s, pc, queryOk)],
       steps := s.steps + 1,
       lock := if pc.AtAcquire? then Some(t) else if pc.AtRelease? then None else s.lock,
       cache := if pc.AtWriteCache? then Some(pc.entry) else s.cache,
       written := if pc.AtWriteCache? then s.written + [pc.entry] else s.written,
       cacheAt := if pc.AtWriteStamp? then Some(pc.now) else s.cacheAt,
       complete := if pc.AtWriteStamp? then s.complete + 1 else s.complete)
  }

  /** Where a thread at `pc` stands after its step; `queryOk` says whether the
      queries of lines 393-409 return rather than raise. */
  function NextPc(s: State, pc: Pc, queryOk: bool): Pc {
    match pc
    case Idle => AtCacheRead(s.clock, s.steps)
    case Returned(_, _, _, _) => AtCacheRead(s.clock, s.steps)
    case Raised(_, _) => AtCacheRead(s.clock, s.steps)
    case AtCacheRead(now, call) => AtStampRead(now, call, s.cache, s.steps, |s.written|)
    case AtStampRead(now, call, cache, seen, writes) =>
      AtDecision(now, call, cache, s.cacheAt, seen, writes, s.steps, s.complete)
    case AtDecision(now, call, cache, stamp, seen, writes, stamped, complete) =>
      if Hit(now, cache, stamp)
      then Returned(now, call, cache.value, Fast(seen, stamped, writes, complete))
      else AtAcquire(now, call)
    case AtAcquire(now, call) => AtRecheckCache(now, call)
    case AtRecheckCache(now, call) =>
      if s.cache.Some? then AtRecheckStamp(now, call) else AtQuery(now, call)
    case AtRecheckStamp(now, call) =>
      if s.cacheAt.Some? then AtRecheckAge(now, call) else AtQuery(now, call)
    case AtRecheckAge(now, call) =>
      if s.cacheAt.Some? && now - s.cacheAt.value < TTL then AtLockedRead(now, call) else AtQuery(now, call)
    case AtLockedRead(now, call) => AtRelease(now, call, s.cache, s.steps)
    case AtQuery(now, call) =>
      if queryOk then AtWriteCache(now, call, Entry(s.db, now, s.steps))
      else AtRelease(now, call, None, s.steps)
    case AtWriteCache(now, call, entry) => AtWriteStamp(now, call, entry)
    case AtWriteStamp(now, call, entry) => AtRelease(now, call, Some(entry), s.steps)
    case AtRelease(now, call, result, shown) =>
      if result.Some? then Returned(now, call, result.value, Locked(shown)) else Raised(now, call)
  }

  // ---------------------------------------------------------------- invariant

  /** The value the cache holds after the writes `written`. */
  function CacheAfter(written: seq<Entry>): Option<Entry> {
    if written == [] then None else Some(written[|written| - 1])
  }

  /** The timestamp stored once the first `complete` installs are complete. */
  function StampAfter(written: seq<Entry>, complete: nat): Option<real>
    requires complete <= |written|
  {
    if complete == 0 then None else Some(written[complete - 1].at)
  }

  /** Consecutive installs are at least the TTL apart. */
  ghost predicate Spaced(written: seq<Entry>) {
    forall i {:trigger written[i]} :: 0 < i < |written| ==> written[i].at >= written[i - 1].at + TTL
  }

  /** A call that began at `now` may install a new value after `written`. */
  predicate Expired(written: seq<Entry>, now: real) {
    written == [] || now >= written[|written| - 1].at + TTL
  }

  /** The last cache write still lacks its timestamp exactly while its writer stands at line 412. */
  ghost predicate PcOk(s: State, pc: Pc)
    requires s.complete <= |s.written|
  {
    match pc
    case Idle => true
    case AtCacheRead(now, call) => true
    case AtStampRead(now, call, cache, seen, writes) =>
      writes <= |s.written| && cache == CacheAfter(s.written[..writes])
    case AtDecision(now, call, cache, stamp, seen, writes, stamped, complete) =>
      && writes <= |s.written| && cache == CacheAfter(s.written[..writes])
      && complete <= s.complete && stamp == StampAfter(s.written, complete)
    case AtAcquire(now, call) => true
    case AtRecheckCache(now, call) => s.complete == |s.written|
    case AtRecheckStamp(now, call) => s.complete == |s.written| && s.written != []
    case AtRecheckAge(now, call) => s.complete == |s.written| && s.written != []
    case AtLockedRead(now, call) =>
      s.complete == |s.written| && s.written != [] && !Expired(s.written, now)
    case AtQuery(now, call) => s.complete == |s.written| && Expired(s.written, now)
    case AtWriteCache(now, call, entry) =>
      s.complete == |s.written| && Expired(s.written, now) && entry.at == now
    case AtWriteStamp(now, call, entry) =>
      s.complete + 1 == |s.written| && entry == s.written[s.complete] && entry.at == now
    case AtRelease(now, call, result, shown) =>
      && s.complete == |s.written|
      && (result.Some? ==> result.value in s.written && now - result.value.at < TTL)
    case Returned(now, call, value, Locked(_)) =>
      value in s.written && now - value.at < TTL
    case Returned(now, call, value, Fast(seen, stamped, writes, complete)) =>
      && 0 < writes <= |s.written| && value == s.written[writes - 1]
      && 0 < complete <= s.complete && now - s.written[complete - 1].at < TTL
    case Raised(now, call) => true
  }

  /** The two globals are determined by the log of writes. */
  ghost predicate SharedOk(s: State) {
    && s.complete <= |s.written|
    && s.cache == CacheAfter(s.written)
    && s.cacheAt == StampAfter(s.written, s.complete)
    && Spaced(s.written)
  }

  /** Mutual exclusion; with the lock free, no install is half done. */
  ghost predicate LockOk(s: State) {
    && (s.lock == None ==> s.complete == |s.written|)
    && (forall t: ThreadId :: s.lock == Some(t) <==> PcOf(s, t).Holding())
  }

  ghost predicate Inv(s: State) {
    SharedOk(s) && LockOk(s) && forall t: ThreadId :: PcOk(s, PcOf(s, t))
  }

  lemma InitInv(s: State)
    requires Init(s)
    ensures Inv(s)
  {
  }

  /** What a thread knows survives every step of another thread: the log of
      writes and the count of complete installs only grow. */
  lemma OtherThreadKeepsPcOk(s: State, s': State, pc: Pc)
    requires s.complete <= |s.written| && PcOk(s, pc)
    requires s'.complete <= |s'.written| && s.complete <= s'.complete && s.written <= s'.written
    requires pc.Holding() ==> s'.complete == s.complete && s'.written == s.written
    ensures PcOk(s', pc)
  {
  }

  /** What one step of `t` does to the shared variables and to its own knowledge. */
  ghost predicate StepOk(s: State, t: ThreadId, s': State) {
    && s.complete <= s'.complete && s.written <= s'.written
    && SharedOk(s')
    && PcOk(s', PcOf(s', t))
    && (!PcOf(s, t).Holding() ==> s'.complete == s.complete && s'.written == s.written)
  }

  /** Line 411: the new entry is a TTL younger than the one it replaces. */
  lemma CacheWriteOk(s: State, t: ThreadId)
    requires SharedOk(s) && PcOk(s, PcOf(s, t)) && PcOf(s, t).AtWriteCache?
    ensures StepOk(s, t, Apply(s, Step(t, true)))
    ensures Apply(s, Step(t, false)) == Apply(s, Step(t, true))
  {
  }

  /** Lines 361-374: the steps taken without the lock touch no shared variable. */
  lemma UnlockedStepOk(s: State, t: ThreadId, queryOk: bool)
    requires SharedOk(s) && PcOk(s, PcOf(s, t)) && !PcOf(s, t).Holding()
    requires PcOf(s, t).AtAcquire? ==> s.complete == |s.written|
    ensures StepOk(s, t, Apply(s, Step(t, queryOk)))
  {
  }

  /** Lines 377-414 except the cache write. */
  lemma LockedStepOk(s: State, t: ThreadId, queryOk: bool)
    requires SharedOk(s) && PcOk(s, PcOf(s, t)) && PcOf(s, t).Holding() && !PcOf(s, t).AtWriteCache?
    ensures StepOk(s, t, Apply(s, Step(t, queryOk)))
  {
  }

  lemma StepKeepsOwn(s: State, t: ThreadId, queryOk: bool)
    requires Inv(s) && Enabled(s, Step(t, queryOk))
    ensures StepOk(s, t, Apply(s, Step(t, queryOk)))
  {
    assert PcOk(s, PcOf(s, t));
    if PcOf(s, t).AtWriteCache? {
      CacheWriteOk(s, t);
    } else if PcOf(s, t).Holding() {
      LockedStepOk(s, t, queryOk);
    } else {
      UnlockedStepOk(s, t, queryOk);
    }
  }

  lemma StepKeepsLock(s: State, t: ThreadId, queryOk: bool)
    requires Inv(s) && Enabled(s, Step(t, queryOk))
    ensures var s' := Apply(s, Step(t, queryOk));
            && (s'.lock == None ==> s'.complete == |s'.written|)
            && (forall u: ThreadId :: s'.lock == Some(u) <==> PcOf(s', u).Holding())
  {
    var s' := Apply(s, Step(t, queryOk));
    assert PcOk(s, PcOf(s, t));
    forall u: ThreadId ensures s'.lock == Some(u) <==> PcOf(s', u).Holding() {
      assert u != t ==> PcOf(s', u) == PcOf(s, u);
      assert s.lock == Some(u) <==> PcOf(s, u).Holding();
      assert s.lock == Some(t) <==> PcOf(s, t).Holding();
    }
  }

  /** A clock tick or a change of the rows touches neither globals nor threads. */
  lemma EnvironmentKeepsInv(s: State, a: Action)
    requires Inv(s) && Enabled(s, a) && !a.Step?
    ensures Inv(Apply(s, a))
  {
  }

  lemma NextKeepsInv(s: State, a: Action)
    requires Inv(s) && Enabled(s, a)
    ensures Inv(Apply(s, a))
  {
    if a.Step? {
      StepKeepsInv(s, a.t, a.queryOk);
    } else {
      EnvironmentKeepsInv(s, a);
    }
  }

  lemma StepKeepsInv(s: State, t: ThreadId, queryOk: bool)
    requires Inv(s) && Enabled(s, Step(t, queryOk))
    ensures Inv(Apply(s, Step(t, queryOk)))
  {
    var s' := Apply(s, Step(t, queryOk));
    StepKeepsOwn(s, t, queryOk);
    StepKeepsLock(s, t, queryOk);
    assert SharedOk(s') && LockOk(s');
    assert forall u: ThreadId :: PcOk(s', PcOf(s', u)) by {
      forall u: ThreadId | u != t ensures PcOf(s', u) == PcOf(s, u) {
        SamePc(s, Step(t, queryOk), u);
      }
      OthersKeepPcOk(s, t, s');
    }
  }

  lemma SamePc(s: State, a: Action, t: ThreadId)
    requires !(a.Step? && a.t == t)
    ensures PcOf(Apply(s, a), t) == PcOf(s, t)
  {
  }

  lemma OthersKeepPcOk(s: State, t: ThreadId, s': State)
    requires Inv(s) && StepOk(s, t, s')
    requires forall u: ThreadId :: u != t ==> PcOf(s', u) == PcOf(s, u)
    ensures forall u: ThreadId :: PcOk(s', PcOf(s', u))
  {
    forall u: ThreadId ensures PcOk(s', PcOf(s', u)) {
      if u != t {
        assert PcOf(s', u) == PcOf(s, u);
        assert s.lock == Some(u) <==> PcOf(s, u).Holding();
        assert s.lock == Some(t) <==> PcOf(s, t).Holding();
        OtherThreadKeepsPcOk(s, s', PcOf(s, u));
      }
    }
  }

  // --------------------------------------------------------------------- runs

  ghost predicate Next(s: State, s': State) {
    exists a :: Enabled(s, a) && s' == Apply(s, a)
  }

  /** A finite run: the states of the program at steps 0, 1, 2, ... */
  ghost predicate IsRun(r: seq<State>) {
    |r| > 0 && Init(r[0]) && forall i {:trigger r[i]} :: 0 < i < |r| ==> Next(r[i - 1], r[i])
  }

  lemma ActionAt(r: seq<State>, k: nat) returns (a: Action)
    requires IsRun(r) && 0 < k < |r|
    ensures Enabled(r[k - 1], a) && r[k] == Apply(r[k - 1], a)
  {
    assert Next(r[k - 1], r[k]);
    a :| Enabled(r[k - 1], a) && r[k] == Apply(r[k - 1], a);
  }

  lemma {:induction false} RunInv(r: seq<State>, k: nat)
    requires IsRun(r) && k < |r|
    ensures Inv(r[k]) && r[k].steps == k
  {
    if k == 0 {
      InitInv(r[0]);
    } else {
      RunInv(r, k - 1);
      var a := ActionAt(r, k);
      NextKeepsInv(r[k - 1], a);
    }
  }

  lemma {:induction false} ClockMonotone(r: seq<State>, i: nat, k: nat)
    requires IsRun(r) && i <= k < |r|
    ensures r[i].clock <= r[k].clock
  {
    if i < k {
      ClockMonotone(r, i, k - 1);
      assert Next(r[k - 1], r[k]);
    }
  }

  /** The entry carries what the database held at one step after its call began. */
  ghost predicate LoadedInRun(r: seq<State>, k: nat, e: Entry) {
    e.loaded < k < |r| && r[e.loaded].db == e.settings && r[e.loaded].clock >= e.at
  }

  /** `pc` belongs to the call that began at step `call`. */
  predicate InCall(pc: Pc, call: nat) {
    !pc.Idle? && pc.call == call
  }

  /** The thread has been in one and the same call from the step after `call` until `k`. */
  ghost predicate CallSpan(r: seq<State>, k: nat, t: ThreadId, now: real, call: nat)
    requires k < |r|
  {
    call < k && r[call].clock == now
    && forall j {:trigger r[j]} :: call < j <= k ==> InCall(PcOf(r[j], t), call)
  }

  /** The history fields of `pc` tell the truth about the run. */
  ghost predicate PcHistory(r: seq<State>, k: nat, pc: Pc)
    requires k < |r|
  {
    match pc
    case AtStampRead(now, call, cache, seen, writes) =>
      call < seen < k && r[seen].cache == cache && |r[seen].written| == writes
    case AtDecision(now, call, cache, stamp, seen, writes, stamped, complete) =>
      && call < seen < stamped < k && r[seen].cache == cache && |r[seen].written| == writes
      && r[stamped].complete == complete
    case AtWriteCache(now, call, entry) => LoadedInRun(r, k, entry)
    case AtRelease(now, call, result, shown) =>
      result.Some? ==> call < shown < k && r[shown].cache == result
    case Returned(now, call, value, Locked(shown)) => call < shown < k && r[shown].cache == Some(value)
    case Returned(now, call, value, Fast(seen, stamped, writes, complete)) =>
      && call < seen < stamped < k && r[seen].cache == Some(value) && |r[seen].written| == writes
      && r[stamped].complete == complete
    case _ => true
  }

  ghost predicate RunHistory(r: seq<State>, k: nat)
    requires k < |r|
  {
    && (forall e :: e in r[k].written ==> LoadedInRun(r, k, e))
    && (forall t: ThreadId :: PcHistory(r, k, PcOf(r[k], t)))
    && (forall t: ThreadId :: !PcOf(r[k], t).Idle? ==>
          CallSpan(r, k, t, PcOf(r[k], t).now, PcOf(r[k], t).call))
  }

  lemma StepHistory(r: seq<State>, k: nat, t: ThreadId, queryOk: bool)
    requires IsRun(r) && k + 1 < |r| && SharedOk(r[k]) && r[k].steps == k
    requires PcOk(r[k], PcOf(r[k], t)) && PcHistory(r, k, PcOf(r[k], t))
    requires !PcOf(r[k], t).Idle? ==> PcOf(r[k], t).call < k && PcOf(r[k], t).now <= r[k].clock
    requires r[k + 1] == Apply(r[k], Step(t, queryOk))
    ensures PcHistory(r, k + 1, PcOf(r[k + 1], t))
  {
    assert PcOf(r[k + 1], t) == NextPc(r[k], PcOf(r[k], t), queryOk);
  }

  lemma ExtendCallSpan(r: seq<State>, k: nat, t: ThreadId, now: real, call: nat)
    requires k + 1 < |r| && CallSpan(r, k, t, now, call) && InCall(PcOf(r[k + 1], t), call)
    ensures CallSpan(r, k + 1, t, now, call)
  {
  }

  /** A step either begins a new call or stays in the current one. */
  lemma StepCallSpan(r: seq<State>, k: nat, t: ThreadId, queryOk: bool)
    requires k + 1 < |r| && r[k].steps == k
    requires !PcOf(r[k], t).Idle? ==> CallSpan(r, k, t, PcOf(r[k], t).now, PcOf(r[k], t).call)
    requires PcOf(r[k + 1], t) == NextPc(r[k], PcOf(r[k], t), queryOk)
    ensures !PcOf(r[k + 1], t).Idle? && CallSpan(r, k + 1, t, PcOf(r[k + 1], t).now, PcOf(r[k + 1], t).call)
  {
  }

  lemma {:induction false} RunHistoryHolds(r: seq<State>, k: nat)
    requires IsRun(r) && k < |r|
    ensures RunHistory(r, k)
  {
    if k > 0 {
      RunHistoryHolds(r, k - 1);
      RunInv(r, k - 1);
      var a := ActionAt(r, k);
      forall t: ThreadId
        ensures PcHistory(r, k, PcOf(r[k], t))
        ensures !PcOf(r[k], t).Idle? ==> CallSpan(r, k, t, PcOf(r[k], t).now, PcOf(r[k], t).call)
      {
        assert PcHistory(r, k - 1, PcOf(r[k - 1], t)) && PcOk(r[k - 1], PcOf(r[k - 1], t));
        ThreadHistory(r, k - 1, t, a);
      }
      forall e | e in r[k].written ensures LoadedInRun(r, k, e) {
        EntryHistory(r, k, a, e);
      }
    }
  }

  lemma ThreadHistory(r: seq<State>, k: nat, t: ThreadId, a: Action)
    requires IsRun(r) && k + 1 < |r| && SharedOk(r[k]) && r[k].steps == k
    requires PcOk(r[k], PcOf(r[k], t)) && PcHistory(r, k, PcOf(r[k], t))
    requires !PcOf(r[k], t).Idle? ==> CallSpan(r, k, t, PcOf(r[k], t).now, PcOf(r[k], t).call)
    requires Enabled(r[k], a) && r[k + 1] == Apply(r[k], a)
    ensures PcHistory(r, k + 1, PcOf(r[k + 1], t))
    ensures !PcOf(r[k + 1], t).Idle? ==> CallSpan(r, k + 1, t, PcOf(r[k + 1], t).now, PcOf(r[k + 1], t).call)
  {
    var pc := PcOf(r[k], t);
    if !pc.Idle? {
      ClockMonotone(r, pc.call, k);
    }
    if a.Step? && a.t == t {
      assert PcOf(r[k + 1], t) == NextPc(r[k], pc, a.queryOk);
      StepHistory(r, k, t, a.queryOk);
      StepCallSpan(r, k, t, a.queryOk);
    } else {
      SamePc(r[k], a, t);
      IdleHistory(r, k, pc);
      if !pc.Idle? {
        ExtendCallSpan(r, k, t, pc.now, pc.call);
      }
    }
  }

  lemma IdleHistory(r: seq<State>, k: nat, pc: Pc)
    requires k + 1 < |r| && PcHistory(r, k, pc)
    ensures PcHistory(r, k + 1, pc)
  {
  }

  lemma EntryHistory(r: seq<State>, k: nat, a: Action, e: Entry)
    requires IsRun(r) && 0 < k < |r| && RunHistory(r, k - 1)
    requires r[k] == Apply(r[k - 1], a) && e in r[k].written
    ensures LoadedInRun(r, k, e)
  {
    if e in r[k - 1].written {
      assert LoadedInRun(r, k - 1, e);
    } else {
      assert a.Step? && PcOf(r[k - 1], a.t).AtWriteCache?;
      assert PcHistory(r, k - 1, PcOf(r[k - 1], a.t));
    }
  }

  // ----------------------------------------------------------------- theorems

  /** At most one thread at a time is inside the locked region, in particular at
      most one is querying the database. */
  lemma MutualExclusion(r: seq<State>, k: nat, t: ThreadId, u: ThreadId)
    requires IsRun(r) && k < |r| && PcOf(r[k], t).Holding() && PcOf(r[k], u).Holding()
    ensures t == u
  {
    RunInv(r, k);
    assert r[k].lock == Some(t) && r[k].lock == Some(u);
  }

  lemma {:induction false} SpacingGrows(written: seq<Entry>, i: nat, j: nat)
    requires Spaced(written) && i <= j < |written|
    ensures written[j].at >= written[i].at + TTL * (j - i) as real
  {
    if i < j {
      SpacingGrows(written, i, j - 1);
      assert written[j].at >= written[j - 1].at + TTL;
    }
  }

  /** Any two installs of a run are as many TTLs apart as there are installs
      between them, although each timestamp was taken before waiting for the lock. */
  lemma InstallsAreSpaced(r: seq<State>, k: nat, i: nat, j: nat)
    requires IsRun(r) && k < |r| && i <= j < |r[k].written|
    ensures r[k].written[j].at >= r[k].written[i].at + TTL * (j - i) as real
  {
    RunInv(r, k);
    SpacingGrows(r[k].written, i, j);
  }

  /** Hence among any installs with timestamps in a span of length `span` there
      are at most floor(span / TTL) + 1. */
  lemma InstallsPerSpan(r: seq<State>, k: nat, start: real, span: real, i: nat, j: nat)
    requires IsRun(r) && k < |r| && i <= j < |r[k].written| && span >= 0.0
    requires start <= r[k].written[i].at && r[k].written[j].at <= start + span
    ensures j - i + 1 <= (span / TTL).Floor + 1
  {
    InstallsAreSpaced(r, k, i, j);
    assert TTL * (j - i) as real <= span;
    assert (j - i) as real <= span / TTL;
  }

  /** The result is what the database held at some instant less than a TTL before the call began, or later. */
  ghost predicate Fresh(r: seq<State>, k: nat, now: real, settings: Settings)
    requires k < |r|
  {
    exists i {:trigger r[i]} :: 0 <= i < k && r[i].db == settings && r[i].clock > now - TTL
  }

  /** More installs were complete (both 411 and 412) at the unlocked read of the
      timestamp (367) than had even begun (411) at the unlocked read of the cache
      (366): a whole newer install fell between the two reads. */
  ghost predicate InstallBetweenReads(r: seq<State>, k: nat, call: nat, path: Path) {
    path.Fast? && call < path.seen < path.stamped < k < |r|
    && |r[path.seen].written| < r[path.stamped].complete
  }

  /** An install is half done: its thread stands between lines 411 and 412. */
  predicate HalfDone(s: State) {
    s.lock.Some? && PcOf(s, s.lock.value).AtWriteStamp?
  }

  /** The timestamp that belongs to the cached dictionary: the stored one, or, while an
      install is half done, the `now` that line 412 is about to store. */
  function DueStamp(s: State): Option<real> {
    if HalfDone(s) then Some(PcOf(s, s.lock.value).now) else s.cacheAt
  }

  lemma DueStampIs(s: State)
    requires Inv(s) && s.cache.Some?
    ensures DueStamp(s) == Some(s.cache.value.at)
  {
    if s.lock.Some? {
      assert PcOk(s, PcOf(s, s.lock.value)) && PcOf(s, s.lock.value).Holding();
    }
  }

  /** The cached dictionary, seen together with its own timestamp at the moment of the
      unlocked read of line 366, was no longer valid for the call. */
  predicate WasExpired(r: seq<State>, now: real, path: Path) {
    path.Fast? && path.seen < |r| && !Hit(now, r[path.seen].cache, DueStamp(r[path.seen]))
  }

  /** A fast hit returns the dictionary its first read saw. It is older than the TTL
      exactly if that dictionary had expired when it was read, that is, with no install
      half done, exactly if reading both globals at once would have missed. This takes
      a whole install between the two reads. */
  lemma FastValue(r: seq<State>, k: nat, t: ThreadId)
    requires IsRun(r) && k < |r| && PcOf(r[k], t).Returned? && PcOf(r[k], t).path.Fast?
    ensures var pc := PcOf(r[k], t);
            && pc.path.seen < k && r[pc.path.seen].cache == Some(pc.value)
            && (pc.now - pc.value.at >= TTL <==> WasExpired(r, pc.now, pc.path))
            && (WasExpired(r, pc.now, pc.path) ==> InstallBetweenReads(r, k, pc.call, pc.path))
    ensures var pc := PcOf(r[k], t);
            var s := r[pc.path.seen];
            !HalfDone(s) ==> (pc.now - pc.value.at >= TTL <==> s.cacheAt.Some? && pc.now - s.cacheAt.value >= TTL)
  {
    var pc := PcOf(r[k], t);
    RunInv(r, k);
    RunHistoryHolds(r, k);
    assert PcOk(r[k], pc) && PcHistory(r, k, pc);
    RunInv(r, pc.path.seen);
    DueStampIs(r[pc.path.seen]);
    hide PcOk, PcHistory, DueStamp, HalfDone;
    assert !HalfDone(r[pc.path.seen]) ==> DueStamp(r[pc.path.seen]) == r[pc.path.seen].cacheAt by {
      StoredStamp(r[pc.path.seen]);
    }
    ExpiredHit(r, k, pc);
  }

  lemma StoredStamp(s: State)
    ensures !HalfDone(s) ==> DueStamp(s) == s.cacheAt
  {
  }

  /** An expired value passes line 368 only by the timestamp of a later install. */
  lemma ExpiredHit(r: seq<State>, k: nat, pc: Pc)
    requires k < |r| && Inv(r[k]) && PcOk(r[k], pc) && PcHistory(r, k, pc)
    requires pc.Returned? && pc.path.Fast?
    ensures pc.now - pc.value.at >= TTL ==> InstallBetweenReads(r, k, pc.call, pc.path)
  {
    if pc.path.complete <= pc.path.writes {
      SpacingGrows(r[k].written, pc.path.complete - 1, pc.path.writes - 1);
    }
  }

  /** The main theorem: a value returned by a call was the cached value at some
      instant during that very call, and it is fresh unless it had expired when the
      call read it and a complete newer install fell between the two unlocked reads. */
  lemma ReturnedValue(r: seq<State>, k: nat, t: ThreadId)
    requires IsRun(r) && k < |r| && PcOf(r[k], t).Returned?
    ensures var pc := PcOf(r[k], t);
            CallSpan(r, k, t, pc.now, pc.call)
    ensures var pc := PcOf(r[k], t);
            exists i {:trigger r[i]} :: pc.call < i < k && r[i].cache == Some(pc.value)
    ensures var pc := PcOf(r[k], t);
            || Fresh(r, k, pc.now, pc.value.settings)
            || (WasExpired(r, pc.now, pc.path) && InstallBetweenReads(r, k, pc.call, pc.path))
  {
    RunInv(r, k);
    RunHistoryHolds(r, k);
    var pc := PcOf(r[k], t);
    assert CallSpan(r, k, t, pc.now, pc.call);
    assert PcOk(r[k], pc) && PcHistory(r, k, pc);
    if pc.path.Locked? {
      assert r[pc.path.shown].cache == Some(pc.value);
    } else {
      FastValue(r, k, t);
    }
    hide WasExpired, DueStamp, HalfDone;
    assert LoadedInRun(r, k, pc.value);
    if pc.value.at > pc.now - TTL {
      assert r[pc.value.loaded].clock > pc.now - TTL;
    }
  }

  // ------------------------------------------- the exception does happen

  /** A run under construction: a starting state and the actions taken so far. */
  datatype Trace = Start(s: State) | More(prev: Trace, a: Action)

  function End(tr: Trace): State {
    match tr
    case Start(s) => s
    case More(prev, a) => Apply(End(prev), a)
  }

  /** The trace is a run along which, ever since the clock passed `limit`, the
      database has not held `stale`. */
  predicate Changed(tr: Trace, limit: real, stale: Settings) {
    && (End(tr).clock > limit ==> End(tr).db != stale)
    && match tr
       case Start(s) => Init(s)
       case More(prev, a) => Enabled(End(prev), a) && Changed(prev, limit, stale)
  }

  lemma {:induction false} RunOfTrace(tr: Trace, limit: real, stale: Settings) returns (r: seq<State>)
    requires Changed(tr, limit, stale)
    ensures IsRun(r) && r[|r| - 1] == End(tr)
    ensures forall i {:trigger r[i]} :: 0 <= i < |r| && r[i].clock > limit ==> r[i].db != stale
  {
    match tr
    case Start(s) => r := [s];
    case More(prev, a) =>
      var p := RunOfTrace(prev, limit, stale);
      r := p + [End(tr)];
      assert Next(End(prev), End(tr));
      forall i {:trigger r[i]} | 0 < i < |r| ensures Next(r[i - 1], r[i]) {
        if i < |p| {
          assert r[i] == p[i] && r[i - 1] == p[i - 1];
        }
      }
  }

  /** Between `s` and `s'` only thread `t` and possibly the lock changed. */
  ghost predicate Moved(s: State, s': State, t: ThreadId) {
    && s'.clock == s.clock && s'.db == s.db && s'.cache == s.cache && s'.cacheAt == s.cacheAt
    && OthersStay(s, s', t)
  }

  ghost predicate OthersStay(s: State, s': State, t: ThreadId) {
    forall u: ThreadId :: u != t ==> PcOf(s', u) == PcOf(s, u)
  }

  /** The unlocked reads, with nothing in between: lines 361-367. */
  lemma ReadBoth(tr: Trace, t: ThreadId, limit: real, stale: Settings) returns (tr': Trace)
    requires Changed(tr, limit, stale) && PcOf(End(tr), t) == Idle
    ensures Changed(tr', limit, stale) && Moved(End(tr), End(tr'), t) && End(tr').lock == End(tr).lock
    ensures var pc, s := PcOf(End(tr'), t), End(tr);
            pc.AtDecision? && pc.now == s.clock && pc.cache == s.cache && pc.stamp == s.cacheAt
  {
    tr' := More(tr, Step(t, true));
    assert PcOf(End(tr'), t).AtCacheRead? && Changed(tr', limit, stale);
    tr' := More(tr', Step(t, true));
    assert PcOf(End(tr'), t).AtStampRead? && Changed(tr', limit, stale);
    tr' := More(tr', Step(t, true));
  }

  /** A call that misses on the fast path goes on to take the free lock: lines 361-374. */
  lemma MissAndLock(tr: Trace, t: ThreadId, limit: real, stale: Settings) returns (tr': Trace)
    requires Changed(tr, limit, stale) && PcOf(End(tr), t) == Idle && End(tr).lock == None
    requires !Hit(End(tr).clock, End(tr).cache, End(tr).cacheAt)
    ensures Changed(tr', limit, stale) && Moved(End(tr), End(tr'), t) && End(tr').lock == Some(t)
    ensures PcOf(End(tr'), t).AtRecheckCache? && PcOf(End(tr'), t).now == End(tr).clock
  {
    tr' := ReadBoth(tr, t, limit, stale);
    tr' := More(tr', Step(t, true));
    assert PcOf(End(tr'), t).AtAcquire? && Changed(tr', limit, stale);
    tr' := More(tr', Step(t, true));
  }

  /** Lines 377-379 find nothing valid, whichever of the three reads says so. */
  lemma RecheckMisses(tr: Trace, t: ThreadId, limit: real, stale: Settings) returns (tr': Trace)
    requires Changed(tr, limit, stale) && PcOf(End(tr), t).AtRecheckCache?
    requires !Hit(PcOf(End(tr), t).now, End(tr).cache, End(tr).cacheAt)
    ensures Changed(tr', limit, stale) && Moved(End(tr), End(tr'), t) && End(tr').lock == End(tr).lock
    ensures PcOf(End(tr'), t).AtQuery? && PcOf(End(tr'), t).now == PcOf(End(tr), t).now
  {
    tr' := More(tr, Step(t, true));
    if PcOf(End(tr'), t).AtRecheckStamp? {
      tr' := More(tr', Step(t, true));
      if PcOf(End(tr'), t).AtRecheckAge? {
        tr' := More(tr', Step(t, true));
      }
    }
  }

  /** Lines 393-412. */
  lemma QueryAndInstall(tr: Trace, t: ThreadId, limit: real, stale: Settings) returns (tr': Trace)
    requires Changed(tr, limit, stale) && PcOf(End(tr), t).AtQuery?
    ensures Changed(tr', limit, stale) && OthersStay(End(tr), End(tr'), t) && PcOf(End(tr'), t).AtRelease?
    ensures var s, s' := End(tr), End(tr');
            && s'.lock == s.lock && s'.clock == s.clock && s'.db == s.db
            && s'.cacheAt == Some(PcOf(s, t).now)
            && s'.cache.Some? && s'.cache.value.settings == s.db
  {
    tr' := More(tr, Step(t, true));
    assert PcOf(End(tr'), t) == AtWriteCache(PcOf(End(tr), t).now, PcOf(End(tr), t).call,
                                             Entry(End(tr).db, PcOf(End(tr), t).now, End(tr).steps));
    tr' := More(tr', Step(t, true));
    assert PcOf(End(tr'), t).AtWriteStamp?;
    tr' := More(tr', Step(t, true));
  }

  /** A whole call that misses, up to the end of line 412. */
  lemma InstallingCall(tr: Trace, t: ThreadId, limit: real, stale: Settings) returns (tr': Trace)
    requires Changed(tr, limit, stale) && PcOf(End(tr), t) == Idle && End(tr).lock == None
    requires !Hit(End(tr).clock, End(tr).cache, End(tr).cacheAt)
    ensures Changed(tr', limit, stale) && OthersStay(End(tr), End(tr'), t) && PcOf(End(tr'), t).AtRelease?
    ensures var s, s' := End(tr), End(tr');
            && s'.lock == Some(t) && s'.clock == s.clock && s'.db == s.db
            && s'.cacheAt == Some(s.clock)
            && s'.cache.Some? && s'.cache.value.settings == s.db
  {
    var locked := MissAndLock(tr, t, limit, stale);
    var missed := RecheckMisses(locked, t, limit, stale);
    tr' := QueryAndInstall(missed, t, limit, stale);
  }

  /** Thread 1 installs `stale`; then the rows change and the entry expires. */
  lemma StaleInstalled(age: real, stale: Settings, current: Settings) returns (tr: Trace)
    requires age >= 0.0 && stale != current
    ensures Changed(tr, TTL, stale) && StaleAndExpired(End(tr), age, stale)
  {
    var start := Start(State(0.0, stale, None, None, None, map[], 0, [], 0));
    var installed := InstallingCall(start, 1, TTL, stale);
    assert PcOf(End(start), 2) == Idle && PcOf(End(start), 3) == Idle;
    assert PcOf(End(installed), 2) == Idle && PcOf(End(installed), 3) == Idle;
    var released := More(installed, Step(1, true));
    var changed := More(released, ChangeRows(current));
    assert End(released).lock == None && PcOf(End(released), 2) == Idle && PcOf(End(released), 3) == Idle;
    tr := More(changed, Tick(age + TTL));
    assert PcOf(End(tr), 2) == Idle && PcOf(End(tr), 3) == Idle;
  }

  ghost predicate StaleAndExpired(s: State, age: real, stale: Settings) {
    && s.clock == age + TTL && s.cacheAt == Some(0.0) && s.lock == None && s.db != stale
    && s.cache.Some? && s.cache.value.settings == stale
    && PcOf(s, 2) == Idle && PcOf(s, 3) == Idle
  }

  /** Thread 2 reads the cache, thread 3 refreshes it, thread 2 reads the new timestamp. */
  lemma SplitRead(tr: Trace, age: real, stale: Settings) returns (tr': Trace)
    requires age >= 0.0 && Changed(tr, TTL, stale) && StaleAndExpired(End(tr), age, stale)
    ensures Changed(tr', TTL, stale) && PcOf(End(tr'), 2).Returned?
    ensures PcOf(End(tr'), 2).value.settings == stale && PcOf(End(tr'), 2).now == age + TTL
  {
    var called := More(tr, Step(2, true));
    assert PcOf(End(called), 2).AtCacheRead? && PcOf(End(called), 3) == Idle;
    var half := More(called, Step(2, true));
    var pc := PcOf(End(half), 2);
    assert pc.AtStampRead? && pc.cache == End(tr).cache && PcOf(End(half), 3) == Idle;
    var refreshed := InstallingCall(half, 3, TTL, stale);
    assert PcOf(End(refreshed), 2) == pc;
    var both := More(refreshed, Step(2, true));
    assert PcOf(End(both), 2).AtDecision? && PcOf(End(both), 2).cache == pc.cache;
    tr' := More(both, Step(2, true));
  }

  /** The exception is real and unbounded: for every age there is a run in which a
      call returns settings that the database had not held at any instant of the
      last `age` seconds before the call began. */
  lemma StaleSplitRead(age: real, stale: Settings, current: Settings) returns (r: seq<State>, t: ThreadId)
    requires age >= 0.0 && stale != current
    ensures IsRun(r)
    ensures var pc := PcOf(r[|r| - 1], t);
            && pc.Returned? && pc.value.settings == stale
            && forall i {:trigger r[i]} :: 0 <= i < |r| && r[i].clock > pc.now - age ==> r[i].db != stale
  {
    var installed := StaleInstalled(age, stale, current);
    var tr := SplitRead(installed, age, stale);
    r := RunOfTrace(tr, TTL, stale);
    t := 2;
  }
}
