/** What becomes of one call of `_load_audit_settings` (app/main.py:354-414): a call that
    has to query returns what the database held, one that finds the cache valid returns
    the cached value, and one raises only because its own query did. */
module AuditCalls {
  import opened Options
  import opened AuditCache

  /** From step `q` on to `q + 1`, thread `t` ran its query, and the query returned or raised. */
  ghost predicate QueryAt(r: seq<State>, q: nat, t: ThreadId, returned: bool) {
    q + 1 < |r| && PcOf(r[q], t).AtQuery? && r[q + 1] == Apply(r[q], Step(t, returned))
  }

  /** At step `q` thread `t`, holding the lock, read the cached value (line 383). */
  ghost predicate RecheckAt(r: seq<State>, q: nat, t: ThreadId) {
    q + 1 < |r| && PcOf(r[q], t).AtLockedRead? && r[q + 1] == Apply(r[q], Step(t, true)) && r[q].cache.Some?
  }

  /** The thread is about to return `e`, or has returned it. */
  predicate Carries(pc: Pc, e: Entry) {
    match pc
    case AtWriteCache(_, _, entry) => entry == e
    case AtWriteStamp(_, _, entry) => entry == e
    case AtRelease(_, _, result, _) => result == Some(e)
    case Returned(_, _, value, _) => value == e
    case _ => false
  }

  /** The thread is about to raise, or has raised; it stores nothing any more. */
  predicate Fails(pc: Pc) {
    pc.Raised? || (pc.AtRelease? && pc.result.None?)
  }

  /** The call has ended. */
  predicate Ended(pc: Pc) {
    pc.Returned? || pc.Raised?
  }

  // ---------------------------------------------------------- from the query on

  /** A thread that stays in its call keeps what it carries. */
  lemma CarriesOn(s: State, t: ThreadId, queryOk: bool, e: Entry)
    requires Carries(PcOf(s, t), e) && !Ended(PcOf(s, t))
    ensures Carries(PcOf(Apply(s, Step(t, queryOk)), t), e)
  {
  }

  lemma FailsOn(s: State, t: ThreadId, queryOk: bool)
    requires Fails(PcOf(s, t)) && !Ended(PcOf(s, t))
    ensures Fails(PcOf(Apply(s, Step(t, queryOk)), t))
  {
  }

  /** A call that has ended stays there, or another call begins. */
  lemma EndedStays(s: State, a: Action, t: ThreadId)
    requires Ended(PcOf(s, t)) && PcOf(s, t).call < s.steps && InCall(PcOf(Apply(s, a), t), PcOf(s, t).call)
    ensures PcOf(Apply(s, a), t) == PcOf(s, t)
  {
    if !(a.Step? && a.t == t) {
      SamePc(s, a, t);
    }
  }

  lemma CallBegan(r: seq<State>, k: nat, t: ThreadId)
    requires IsRun(r) && k < |r|
    ensures r[k].steps == k && (!PcOf(r[k], t).Idle? ==> PcOf(r[k], t).call < k)
  {
    RunInv(r, k);
    RunHistoryHolds(r, k);
    hide Inv, PcHistory;
  }

  lemma CarriesStep(s: State, a: Action, t: ThreadId, call: nat, e: Entry)
    requires Carries(PcOf(s, t), e) && call < s.steps
    requires InCall(PcOf(s, t), call) && InCall(PcOf(Apply(s, a), t), call)
    ensures Carries(PcOf(Apply(s, a), t), e)
  {
    hide Carries, Apply;
    if Ended(PcOf(s, t)) {
      EndedStays(s, a, t);
    } else if a.Step? && a.t == t {
      CarriesOn(s, t, a.queryOk, e);
    } else {
      SamePc(s, a, t);
    }
  }

  lemma FailsStep(s: State, a: Action, t: ThreadId, call: nat)
    requires Fails(PcOf(s, t)) && call < s.steps
    requires InCall(PcOf(s, t), call) && InCall(PcOf(Apply(s, a), t), call)
    ensures Fails(PcOf(Apply(s, a), t))
  {
    hide Fails, Apply;
    if Ended(PcOf(s, t)) {
      EndedStays(s, a, t);
    } else if a.Step? && a.t == t {
      FailsOn(s, t, a.queryOk);
    } else {
      SamePc(s, a, t);
    }
  }

  /** The thread has been in its call all the time. */
  ghost predicate Stays(r: seq<State>, q: nat, k: nat, t: ThreadId, call: nat) {
    forall j {:trigger r[j]} :: q <= j <= k < |r| ==> InCall(PcOf(r[j], t), call)
  }

  /** Once it carries an entry a call ends, if it ends, by returning that entry. */
  lemma {:induction false} CarriesUntilEnd(r: seq<State>, q: nat, k: nat, t: ThreadId, call: nat, e: Entry)
    requires IsRun(r) && q <= k < |r| && Carries(PcOf(r[q], t), e) && Stays(r, q, k, t, call)
    ensures Carries(PcOf(r[k], t), e)
  {
    hide Carries, Apply, IsRun;
    if q < k {
      CarriesUntilEnd(r, q, k - 1, t, call, e);
      CallBegan(r, k - 1, t);
      var a := ActionAt(r, k);
      assert InCall(PcOf(r[k - 1], t), call) && InCall(PcOf(r[k], t), call);
      CarriesStep(r[k - 1], a, t, call, e);
    }
  }

  lemma {:induction false} FailsUntilEnd(r: seq<State>, q: nat, k: nat, t: ThreadId, call: nat)
    requires IsRun(r) && q <= k < |r| && Fails(PcOf(r[q], t)) && Stays(r, q, k, t, call)
    ensures Fails(PcOf(r[k], t))
  {
    hide Fails, Apply, IsRun;
    if q < k {
      FailsUntilEnd(r, q, k - 1, t, call);
      CallBegan(r, k - 1, t);
      var a := ActionAt(r, k);
      assert InCall(PcOf(r[k - 1], t), call) && InCall(PcOf(r[k], t), call);
      FailsStep(r[k - 1], a, t, call);
    }
  }

  /** A call whose query returned ends, if it has ended, by returning what the database
      held at the query; one whose query raised ends by raising. */
  lemma QueryDecides(r: seq<State>, q: nat, k: nat, t: ThreadId, returned: bool)
    requires IsRun(r) && QueryAt(r, q, t, returned) && q < k < |r|
    requires CallSpan(r, k, t, PcOf(r[q], t).now, PcOf(r[q], t).call)
    ensures Ended(PcOf(r[k], t)) ==>
              if returned then PcOf(r[k], t).Returned? && PcOf(r[k], t).value == Entry(r[q].db, PcOf(r[q], t).now, q)
              else PcOf(r[k], t).Raised?
  {
    hide IsRun, CallSpan, Stays, Apply, Carries, Fails;
    var now, call := PcOf(r[q], t).now, PcOf(r[q], t).call;
    hide QueryAt;
    CallBegan(r, q, t);
    SpanStays(r, q + 1, k, t, now, call);
    AfterQuery(r, q, t, returned);
    if returned {
      CarriesUntilEnd(r, q + 1, k, t, call, Entry(r[q].db, now, q));
      CarriesMeans(PcOf(r[k], t), Entry(r[q].db, now, q));
    } else {
      FailsUntilEnd(r, q + 1, k, t, call);
      FailsMeans(PcOf(r[k], t));
    }
  }

  lemma SpanStays(r: seq<State>, q: nat, k: nat, t: ThreadId, now: real, call: nat)
    requires k < |r| && CallSpan(r, k, t, now, call) && call < q <= k
    ensures Stays(r, q, k, t, call)
  {
  }

  lemma CarriesMeans(pc: Pc, e: Entry)
    requires Carries(pc, e)
    ensures Ended(pc) ==> pc.Returned? && pc.value == e
  {
  }

  lemma FailsMeans(pc: Pc)
    requires Fails(pc)
    ensures Ended(pc) ==> pc.Raised?
  {
  }

  lemma AfterQuery(r: seq<State>, q: nat, t: ThreadId, returned: bool)
    requires QueryAt(r, q, t, returned) && r[q].steps == q
    ensures if returned then Carries(PcOf(r[q + 1], t), Entry(r[q].db, PcOf(r[q], t).now, q))
            else Fails(PcOf(r[q + 1], t))
  {
  }

  /** A call that finds the cache valid under the lock ends, if it has ended, by returning the cached value. */
  lemma RecheckDecides(r: seq<State>, q: nat, k: nat, t: ThreadId)
    requires IsRun(r) && RecheckAt(r, q, t) && q < k < |r|
    requires CallSpan(r, k, t, PcOf(r[q], t).now, PcOf(r[q], t).call)
    ensures Ended(PcOf(r[k], t)) ==> PcOf(r[k], t).Returned? && Some(PcOf(r[k], t).value) == r[q].cache
  {
    hide IsRun, CallSpan, Stays, Apply, Carries;
    var now, call := PcOf(r[q], t).now, PcOf(r[q], t).call;
    hide RecheckAt;
    CallBegan(r, q, t);
    SpanStays(r, q + 1, k, t, now, call);
    AfterRecheck(r, q, t);
    CarriesUntilEnd(r, q + 1, k, t, call, r[q].cache.value);
    CarriesMeans(PcOf(r[k], t), r[q].cache.value);
  }

  lemma AfterRecheck(r: seq<State>, q: nat, t: ThreadId)
    requires RecheckAt(r, q, t)
    ensures r[q].cache.Some? && Carries(PcOf(r[q + 1], t), r[q].cache.value)
  {
  }

  // ------------------------------------------------------- back to the reason

  /** Where a call past its query or its recheck got what it carries from. */
  ghost predicate Explained(r: seq<State>, k: nat, t: ThreadId)
    requires k < |r|
  {
    match PcOf(r[k], t)
    case AtWriteCache(now, call, entry) => Queried(r, k, t, now, call, entry)
    case AtWriteStamp(now, call, entry) => Queried(r, k, t, now, call, entry)
    case AtRelease(now, call, Some(e), _) => Queried(r, k, t, now, call, e) || Rechecked(r, k, t, call, e)
    case AtRelease(now, call, None, _) => QueryRaised(r, k, t, call)
    case Returned(now, call, e, Locked(_)) => Queried(r, k, t, now, call, e) || Rechecked(r, k, t, call, e)
    case Raised(now, call) => QueryRaised(r, k, t, call)
    case _ => true
  }

  /** The call queried the database and built `e` from what it held. */
  ghost predicate Queried(r: seq<State>, k: nat, t: ThreadId, now: real, call: nat, e: Entry) {
    exists q: nat :: call < q < k && QueryAt(r, q, t, true) && e == Entry(r[q].db, now, q)
  }

  /** The call found `e` valid under the lock. */
  ghost predicate Rechecked(r: seq<State>, k: nat, t: ThreadId, call: nat, e: Entry) {
    exists q: nat :: call < q < k && RecheckAt(r, q, t) && r[q].cache == Some(e)
  }

  /** The query of the call raised, and the call stored nothing. */
  ghost predicate QueryRaised(r: seq<State>, k: nat, t: ThreadId, call: nat) {
    exists q: nat :: call < q < k && QueryAt(r, q, t, false) && StoresNothing(r, q, k, t)
  }

  /** Neither global is written by `t` from step `q` to step `k`. */
  ghost predicate StoresNothing(r: seq<State>, q: nat, k: nat, t: ThreadId) {
    forall j {:trigger r[j]} :: q <= j <= k < |r| ==> !PcOf(r[j], t).AtWriteCache? && !PcOf(r[j], t).AtWriteStamp?
  }

  lemma StepExplained(r: seq<State>, k: nat, t: ThreadId, queryOk: bool)
    requires k + 1 < |r| && r[k].steps == k && Explained(r, k, t) && SharedOk(r[k]) && PcOk(r[k], PcOf(r[k], t))
    requires !PcOf(r[k], t).Idle? ==> PcOf(r[k], t).call < k
    requires r[k + 1] == Apply(r[k], Step(t, queryOk))
    ensures Explained(r, k + 1, t)
  {
    var pc := PcOf(r[k], t);
    match pc
    case AtQuery(now, call) =>
      assert QueryAt(r, k, t, queryOk);
      assert !queryOk ==> StoresNothing(r, k, k + 1, t);
    case AtLockedRead(now, call) =>
      assert RecheckAt(r, k, t) && r[k].cache == Some(r[k].cache.value);
    case AtRelease(now, call, result, _) =>
      if result.None? {
        var q: nat :| call < q < k && QueryAt(r, q, t, false) && StoresNothing(r, q, k, t);
        assert StoresNothing(r, q, k + 1, t);
      }
    case _ =>
  }

  lemma RestExplained(r: seq<State>, k: nat, t: ThreadId)
    requires k + 1 < |r| && Explained(r, k, t) && PcOf(r[k + 1], t) == PcOf(r[k], t)
    ensures Explained(r, k + 1, t)
  {
    var pc := PcOf(r[k], t);
    if Fails(pc) {
      var q: nat :| pc.call < q < k && QueryAt(r, q, t, false) && StoresNothing(r, q, k, t);
      assert StoresNothing(r, q, k + 1, t);
    }
    hide QueryAt, RecheckAt, StoresNothing;
  }

  lemma {:induction false} RunExplained(r: seq<State>, k: nat, t: ThreadId)
    requires IsRun(r) && k < |r|
    ensures Explained(r, k, t)
  {
    hide Explained, PcOk, SharedOk, LockOk, Apply, IsRun;
    if k == 0 {
      StartExplained(r, t);
    } else {
      RunExplained(r, k - 1, t);
      RunInv(r, k - 1);
      CallBegan(r, k - 1, t);
      var a := ActionAt(r, k);
      if a.Step? && a.t == t {
        StepExplained(r, k - 1, t, a.queryOk);
      } else {
        SamePc(r[k - 1], a, t);
        RestExplained(r, k - 1, t);
      }
    }
  }

  lemma StartExplained(r: seq<State>, t: ThreadId)
    requires IsRun(r)
    ensures Explained(r, 0, t)
  {
  }

  /** A call raises only because its own query did, and then it has stored nothing. */
  lemma RaisedBecause(r: seq<State>, k: nat, t: ThreadId)
    requires IsRun(r) && k < |r| && PcOf(r[k], t).Raised?
    ensures CallSpan(r, k, t, PcOf(r[k], t).now, PcOf(r[k], t).call)
    ensures QueryRaised(r, k, t, PcOf(r[k], t).call)
  {
    RunExplained(r, k, t);
    RunHistoryHolds(r, k);
  }

  /** A call that returned through the lock queried the database, and returned the entry
      built from what it held, or found the cached value valid and returned that. */
  lemma ReturnedBecause(r: seq<State>, k: nat, t: ThreadId)
    requires IsRun(r) && k < |r| && PcOf(r[k], t).Returned? && PcOf(r[k], t).path.Locked?
    ensures var pc := PcOf(r[k], t);
            Queried(r, k, t, pc.now, pc.call, pc.value) || Rechecked(r, k, t, pc.call, pc.value)
  {
    RunExplained(r, k, t);
  }

  // ------------------------------------------------------------ a call by itself

  /** `n` steps of one thread, its query returning. */
  function Alone(s: State, t: ThreadId, n: nat): State {
    if n == 0 then s else Apply(Alone(s, t, n - 1), Step(t, true))
  }

  /** The stored value is valid at this moment: it is there, and less than half a minute old. */
  predicate ValidNow(s: State) {
    s.cache.Some? && s.cacheAt.Some? && s.clock - s.cacheAt.value < 30.0
  }

  lemma AloneStep(s: State, t: ThreadId, n: nat)
    ensures Alone(s, t, n + 1) == Apply(Alone(s, t, n), Step(t, true))
  {
    hide Apply;
  }

  /** Lines 361-367 without interruption. */
  lemma ReadsAlone(s: State, t: ThreadId)
    requires PcOf(s, t).Idle? || Ended(PcOf(s, t))
    ensures var s', pc := Alone(s, t, 3), PcOf(Alone(s, t, 3), t);
            && pc.AtDecision? && pc.now == s.clock && pc.cache == s.cache && pc.stamp == s.cacheAt
            && SameShared(s, s')
  {
    AloneStep(s, t, 0);
    AloneStep(s, t, 1);
    AloneStep(s, t, 2);
    hide Alone;
    var s0, s1, s2 := Alone(s, t, 0), Alone(s, t, 1), Alone(s, t, 2);
    assert s0 == s by {
      AloneNone(s, t);
    }
    assert PcOf(s1, t).AtCacheRead? && PcOf(s1, t).now == s.clock && SameShared(s, s1);
    assert PcOf(s2, t).AtStampRead? && PcOf(s2, t).now == s.clock && PcOf(s2, t).cache == s.cache && SameShared(s, s2);
  }

  lemma AloneNone(s: State, t: ThreadId)
    ensures Alone(s, t, 0) == s
  {
  }

  /** Clock, rows, globals and lock are the same. */
  predicate SameShared(s: State, s': State) {
    && s'.clock == s.clock && s'.db == s.db && s'.cache == s.cache && s'.cacheAt == s.cacheAt && s'.lock == s.lock
  }

  /** With a valid cache a call alone returns the cached value after its two reads,
      without the lock, and changes nothing that others see. */
  lemma WarmCall(s: State, t: ThreadId)
    requires (PcOf(s, t).Idle? || Ended(PcOf(s, t))) && ValidNow(s)
    ensures var s' := Alone(s, t, 4);
            && PcOf(s', t).Returned? && Some(PcOf(s', t).value) == s.cache && PcOf(s', t).path.Fast?
            && SameShared(s, s')
  {
    ReadsAlone(s, t);
    AloneStep(s, t, 3);
    hide Alone;
  }

  /** Otherwise, with the lock free, it queries, stores and returns what the database
      holds, stamped with the time the call began, and leaves the lock free. */
  lemma ColdCall(s: State, t: ThreadId) returns (n: nat)
    requires (PcOf(s, t).Idle? || Ended(PcOf(s, t))) && !ValidNow(s) && s.lock == None
    ensures 10 <= n <= 12
    ensures var s' := Alone(s, t, n);
            && PcOf(s', t).Returned? && PcOf(s', t).value.settings == s.db && PcOf(s', t).path.Locked?
            && s'.cache == Some(PcOf(s', t).value) && s'.cacheAt == Some(s.clock) && s'.lock == None && s'.db == s.db
  {
    MissAlone(s, t);
    hide Alone, Apply;
    var m := RecheckAlone(Alone(s, t, 5), t);
    AloneAdd(s, t, 5, m);
    InstallAlone(Alone(s, t, 5 + m), t);
    AloneAdd(s, t, 5 + m, 4);
    n := 5 + m + 4;
  }

  lemma {:induction false} AloneAdd(s: State, t: ThreadId, m: nat, n: nat)
    ensures Alone(s, t, m + n) == Alone(Alone(s, t, m), t, n)
    decreases n
  {
    hide Apply;
    if n > 0 {
      AloneAdd(s, t, m, n - 1);
    }
  }

  lemma MissAlone(s: State, t: ThreadId)
    requires (PcOf(s, t).Idle? || Ended(PcOf(s, t))) && !ValidNow(s) && s.lock == None
    ensures var s' := Alone(s, t, 5);
            && PcOf(s', t).AtRecheckCache? && PcOf(s', t).now == s.clock && s'.lock == Some(t)
            && s'.cache == s.cache && s'.cacheAt == s.cacheAt && s'.clock == s.clock && s'.db == s.db
  {
    ReadsAlone(s, t);
    AloneStep(s, t, 3);
    AloneStep(s, t, 4);
    hide Alone;
    var s4 := Alone(s, t, 4);
    assert PcOf(s4, t).AtAcquire? && PcOf(s4, t).now == s.clock && SameShared(s, s4);
  }

  lemma RecheckAlone(s: State, t: ThreadId) returns (n: nat)
    requires PcOf(s, t).AtRecheckCache? && PcOf(s, t).now == s.clock && s.lock == Some(t) && !ValidNow(s)
    ensures 1 <= n <= 3
    ensures var s' := Alone(s, t, n);
            PcOf(s', t).AtQuery? && PcOf(s', t).now == s.clock && SameShared(s, s')
  {
    AloneNone(s, t);
    AloneStep(s, t, 0);
    AloneStep(s, t, 1);
    AloneStep(s, t, 2);
    hide Alone;
    n := 1;
    var s1, s2 := Alone(s, t, 1), Alone(s, t, 2);
    assert SameShared(s, s1) && PcOf(s1, t).now == s.clock;
    if s.cache.Some? {
      n := 2;
      assert PcOf(s1, t).AtRecheckStamp? && SameShared(s, s2) && PcOf(s2, t).now == s.clock;
      if s.cacheAt.Some? {
        n := 3;
        assert PcOf(s2, t).AtRecheckAge?;
      }
    }
  }

  lemma InstallAlone(s: State, t: ThreadId)
    requires PcOf(s, t).AtQuery? && s.lock == Some(t)
    ensures var s' := Alone(s, t, 4);
            && PcOf(s', t).Returned? && PcOf(s', t).value.settings == s.db && PcOf(s', t).path.Locked?
            && s'.cache == Some(PcOf(s', t).value) && s'.cacheAt == Some(PcOf(s, t).now) && s'.lock == None
            && s'.db == s.db
  {
    AloneNone(s, t);
    AloneStep(s, t, 0);
    AloneStep(s, t, 1);
    AloneStep(s, t, 2);
    AloneStep(s, t, 3);
    hide Alone;
    var s1, s2, s3 := Alone(s, t, 1), Alone(s, t, 2), Alone(s, t, 3);
    var e := Entry(s.db, PcOf(s, t).now, s.steps);
    assert PcOf(s1, t).AtWriteCache? && PcOf(s1, t).entry == e && PcOf(s1, t).now == e.at && s1.db == s.db;
    assert PcOf(s2, t).AtWriteStamp? && PcOf(s2, t).entry == e && PcOf(s2, t).now == e.at && s2.db == s.db;
    assert s2.cache == Some(e);
    assert PcOf(s3, t).AtRelease? && PcOf(s3, t).result == Some(e) && s3.cacheAt == Some(e.at) && s3.cache == Some(e);
    assert s3.db == s.db;
  }
}
