/** Login rate limiting: one record per identifier, under the key
    "rate_limit_" + md5(identifier), counting failed attempts within a
    window that opens at the first attempt. The clock value `now` and the
    digest function stand for time() and md5. */
module RateLimit {
  import opened Session

  /** Default attempt limit and window length (seconds) from the
      application configuration. */
  const MaxLoginAttempts: int := 5
  const LoginLockoutTime: int := 900

  /** The record a first look or a window reset writes. */
  function Fresh(now: int): RateRecord
  {
    RateRecord(0, now)
  }

  /** What isRateLimited returns, paired with the session it leaves. */
  datatype Check = Check(limited: bool, session: Session)

  /** The record stored for `id`. */
  function RecordOf(s: Session, digest: string -> string, id: string): RateRecord
    requires Wf(s) && RateKey(digest, id) in s
  {
    RateKeyShape(digest, id);
    s[RateKey(digest, id)].rec
  }

  /** isRateLimited. A missing record is created as Fresh(now) first. A
      window older than `timeWindow` is reset to Fresh(now) and reports
      not limited; otherwise the verdict is attempts >= maxAttempts. */
  function IsRateLimited(s: Session, digest: string -> string, id: string,
                         maxAttempts: int, timeWindow: int, now: int): (r: Check)
    requires Wf(s)
    ensures Wf(r.session)
    ensures AgreeExcept(s, r.session, RateKey(digest, id))
    ensures RateKey(digest, id) in r.session
    ensures RateKey(digest, id) !in s ==>
      && r.session == s[RateKey(digest, id) := Record(Fresh(now))]
      && (r.limited <==> 0 <= timeWindow && maxAttempts <= 0)
    ensures RateKey(digest, id) in s ==>
      var rec := RecordOf(s, digest, id);
      if now - rec.firstAttempt > timeWindow then
        !r.limited && r.session == s[RateKey(digest, id) := Record(Fresh(now))]
      else
        r.session == s && (r.limited <==> rec.attempts >= maxAttempts)
  {
    var key := RateKey(digest, id);
    RateKeyShape(digest, id);
    WfUpdate(s, key, Record(Fresh(now)));
    AgreeExceptUpdate(s, key, Record(Fresh(now)));
    var s1 := if key in s then s else s[key := Record(Fresh(now))];
    var data := s1[key].rec;
    if now - data.firstAttempt > timeWindow then
      assert s1[key := Record(Fresh(now))] == s[key := Record(Fresh(now))];
      Check(false, s1[key := Record(Fresh(now))])
    else
      Check(data.attempts >= maxAttempts, s1)
  }

  /** incrementRateLimit: one more attempt in the current window; a missing
      record starts a window at `now`. */
  function Increment(s: Session, digest: string -> string, id: string, now: int): (r: Session)
    requires Wf(s)
    ensures Wf(r)
    ensures AgreeExcept(s, r, RateKey(digest, id))
    ensures RateKey(digest, id) in r
    ensures RateKey(digest, id) in s ==>
      var old_ := RecordOf(s, digest, id);
      RecordOf(r, digest, id) == RateRecord(old_.attempts + 1, old_.firstAttempt)
    ensures RateKey(digest, id) !in s ==> RecordOf(r, digest, id) == RateRecord(1, now)
  {
    var key := RateKey(digest, id);
    RateKeyShape(digest, id);
    var data := if key in s then s[key].rec else Fresh(now);
    var v := Record(RateRecord(data.attempts + 1, data.firstAttempt));
    WfUpdate(s, key, v);
    AgreeExceptUpdate(s, key, v);
    s[key := v]
  }

  /** resetRateLimit: forget the identifier's record. */
  function Reset(s: Session, digest: string -> string, id: string): (r: Session)
    requires Wf(s)
    ensures Wf(r)
    ensures AgreeExcept(s, r, RateKey(digest, id))
    ensures RateKey(digest, id) !in r
    ensures r.Keys == s.Keys - {RateKey(digest, id)}
  {
    WfRemove(s, RateKey(digest, id));
    AgreeExceptRemove(s, RateKey(digest, id));
    s - {RateKey(digest, id)}
  }

  /** A sequence of failed attempts at the given clock values. */
  function IncrementAll(s: Session, digest: string -> string, id: string, times: seq<int>): (r: Session)
    requires Wf(s)
    ensures Wf(r)
    decreases |times|
  {
    if times == [] then s
    else IncrementAll(Increment(s, digest, id, times[0]), digest, id, times[1..])
  }

  /** Increments on an existing record add their number to the count and
      keep the window start. */
  lemma {:induction false} IncrementAllExisting(s: Session, digest: string -> string, id: string, times: seq<int>)
    requires Wf(s) && RateKey(digest, id) in s
    ensures var r := IncrementAll(s, digest, id, times);
      RateKey(digest, id) in r &&
      RecordOf(r, digest, id) == RateRecord(RecordOf(s, digest, id).attempts + |times|, RecordOf(s, digest, id).firstAttempt)
    decreases |times|
  {
    if times != [] {
      IncrementAllExisting(Increment(s, digest, id, times[0]), digest, id, times[1..]);
    }
  }

  /** Starting from no record, n increments leave n attempts in a window
      opened by the first of them. */
  lemma IncrementAllFresh(s: Session, digest: string -> string, id: string, times: seq<int>)
    requires Wf(s) && RateKey(digest, id) !in s && times != []
    ensures var r := IncrementAll(s, digest, id, times);
      RateKey(digest, id) in r && RecordOf(r, digest, id) == RateRecord(|times|, times[0])
  {
    IncrementAllExisting(Increment(s, digest, id, times[0]), digest, id, times[1..]);
  }

  /** Increments for one identifier leave every other key alone. */
  lemma {:induction false} IncrementAllFrame(s: Session, digest: string -> string, id: string, times: seq<int>)
    requires Wf(s)
    ensures AgreeExcept(s, IncrementAll(s, digest, id, times), RateKey(digest, id))
    decreases |times|
  {
    if times != [] {
      IncrementAllFrame(Increment(s, digest, id, times[0]), digest, id, times[1..]);
    }
  }

  /** Once `maxAttempts` failures have been counted inside the window, the
      identifier is limited: whether the failures land on an existing
      record (the usual flow, where a check has already created one) or
      the first of them creates it. */
  lemma LockedAfterMaxFailures(s: Session, digest: string -> string, id: string, times: seq<int>,
                               maxAttempts: int, timeWindow: int, now: int)
    requires Wf(s) && |times| >= maxAttempts
    requires RateKey(digest, id) in s ==> now - RecordOf(s, digest, id).firstAttempt <= timeWindow
    requires RateKey(digest, id) !in s ==> times != [] && now - times[0] <= timeWindow
    ensures IsRateLimited(IncrementAll(s, digest, id, times), digest, id, maxAttempts, timeWindow, now).limited
  {
    if RateKey(digest, id) in s {
      IncrementAllExisting(s, digest, id, times);
    } else {
      IncrementAllFresh(s, digest, id, times);
    }
  }

  /** The login flow for a new identifier: a check at `t0` opens the window,
      then at least `maxAttempts` failures follow; a check inside the window
      reports limited. */
  lemma LoginFlowLocks(s: Session, digest: string -> string, id: string, t0: int, times: seq<int>,
                       maxAttempts: int, timeWindow: int, now: int)
    requires Wf(s) && RateKey(digest, id) !in s
    requires |times| >= maxAttempts && now - t0 <= timeWindow
    ensures var s1 := IsRateLimited(s, digest, id, maxAttempts, timeWindow, t0).session;
      IsRateLimited(IncrementAll(s1, digest, id, times), digest, id, maxAttempts, timeWindow, now).limited
  {
    var s1 := IsRateLimited(s, digest, id, maxAttempts, timeWindow, t0).session;
    assert RecordOf(s1, digest, id) == Fresh(t0);
    LockedAfterMaxFailures(s1, digest, id, times, maxAttempts, timeWindow, now);
  }

  /** An expired window unlocks whatever the attempt count, and the check
      restarts the window with no attempts. */
  lemma ExpiryTakesPrecedence(s: Session, digest: string -> string, id: string, attempts: nat, first: int,
                              maxAttempts: int, timeWindow: int, now: int)
    requires Wf(s) && now - first > timeWindow
    ensures var s1 := s[RateKey(digest, id) := Record(RateRecord(attempts, first))];
      Wf(s1) &&
      var r := IsRateLimited(s1, digest, id, maxAttempts, timeWindow, now);
      !r.limited && RecordOf(r.session, digest, id) == Fresh(now)
  {
    RateKeyShape(digest, id);
    WfUpdate(s, RateKey(digest, id), Record(RateRecord(attempts, first)));
  }

  /** After a reset the identifier is not limited, for any positive limit
      and any window (a negative window takes the reset branch). */
  lemma ResetUnlocks(s: Session, digest: string -> string, id: string,
                     maxAttempts: int, timeWindow: int, now: int)
    requires Wf(s) && maxAttempts > 0
    ensures !IsRateLimited(Reset(s, digest, id), digest, id, maxAttempts, timeWindow, now).limited
  {
  }

  /** Operations on one identifier do not change the verdict for another
      whose digest differs. */
  lemma Independent(s: Session, digest: string -> string, a: string, b: string,
                    maxAttempts: int, timeWindow: int, now: int, t: int)
    requires Wf(s) && digest(a) != digest(b)
    ensures IsRateLimited(Increment(s, digest, a, t), digest, b, maxAttempts, timeWindow, now).limited
         == IsRateLimited(s, digest, b, maxAttempts, timeWindow, now).limited
    ensures IsRateLimited(Reset(s, digest, a), digest, b, maxAttempts, timeWindow, now).limited
         == IsRateLimited(s, digest, b, maxAttempts, timeWindow, now).limited
  {
    RateKeyInjective(digest, a, b);
  }

  /** With the configured defaults: five failures lock the identifier at
      every time up to 900 seconds after the first; a check at 901 seconds
      unlocks it and restarts the count. */
  lemma DefaultsScenario(s: Session, digest: string -> string, id: string, t0: int, t: int)
    requires Wf(s) && RateKey(digest, id) !in s && t <= t0 + 900
    ensures var s5 := IncrementAll(s, digest, id, [t0, t0 + 1, t0 + 2, t0 + 3, t0 + 4]);
      && IsRateLimited(s5, digest, id, MaxLoginAttempts, LoginLockoutTime, t).limited
      && !IsRateLimited(s5, digest, id, MaxLoginAttempts, LoginLockoutTime, t0 + 901).limited
      && RecordOf(IsRateLimited(s5, digest, id, MaxLoginAttempts, LoginLockoutTime, t0 + 901).session, digest, id).attempts == 0
  {
    IncrementAllFresh(s, digest, id, [t0, t0 + 1, t0 + 2, t0 + 3, t0 + 4]);
  }
}
