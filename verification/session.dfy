/** The server-side session as the security layer sees it: a map from
    string keys to stored values. Only two kinds of key belong to the
    security layer: "csrf_token" and "rate_limit_" followed by a digest of
    an identifier. */
module Session {

  /** The array stored under a rate-limit key: the number of failed
      attempts and the clock value at which the current window opened. */
  datatype RateRecord = RateRecord(attempts: int, firstAttempt: int)

  /** A session value written by the security layer. */
  datatype Value = Str(str: string) | Record(rec: RateRecord)

  type Session = map<string, Value>

  const CsrfKey: string := "csrf_token"
  const RatePrefix: string := "rate_limit_"

  /** The session key for an identifier; `digest` stands for md5. */
  function RateKey(digest: string -> string, id: string): string
  {
    RatePrefix + digest(id)
  }

  predicate IsRateKey(k: string)
  {
    |RatePrefix| <= |k| && k[..|RatePrefix|] == RatePrefix
  }

  /** The shape the security layer relies on: a string under the CSRF key
      and, under every rate-limit key, a rate record whose attempt count is
      not negative (the class only ever writes 0 and then adds 1). */
  predicate Wf(s: Session)
  {
    && (CsrfKey in s ==> s[CsrfKey].Str?)
    && forall k :: k in s && IsRateKey(k) ==> s[k].Record? && s[k].rec.attempts >= 0
  }

  /** `s'` differs from `s` at most at key `k`. */
  predicate AgreeExcept(s: Session, s': Session, k: string)
  {
    && s.Keys - {k} == s'.Keys - {k}
    && forall k' :: k' in s && k' != k ==> k' in s' && s[k'] == s'[k']
  }

  /** Every rate key has the rate-limit shape, so it is never the CSRF key. */
  lemma RateKeyShape(digest: string -> string, id: string)
    ensures IsRateKey(RateKey(digest, id))
    ensures RateKey(digest, id) != CsrfKey
  {
    var k := RateKey(digest, id);
    assert k[..|RatePrefix|] == RatePrefix;
    assert k[0] == 'r' && CsrfKey[0] == 'c';
  }

  /** Two identifiers share a session record exactly when their digests
      collide. */
  lemma RateKeyInjective(digest: string -> string, a: string, b: string)
    ensures RateKey(digest, a) == RateKey(digest, b) <==> digest(a) == digest(b)
  {
    if RateKey(digest, a) == RateKey(digest, b) {
      assert digest(a) == RateKey(digest, a)[|RatePrefix|..];
      assert digest(b) == RateKey(digest, b)[|RatePrefix|..];
    }
  }

  /** Writing a value of the right kind keeps the session well formed. */
  lemma WfUpdate(s: Session, k: string, v: Value)
    requires Wf(s)
    requires k == CsrfKey ==> v.Str?
    requires IsRateKey(k) ==> v.Record? && v.rec.attempts >= 0
    ensures Wf(s[k := v])
  {
  }

  /** Deleting a key keeps the session well formed. */
  lemma WfRemove(s: Session, k: string)
    requires Wf(s)
    ensures Wf(s - {k})
  {
  }

  /** The CSRF key is shorter than the rate-limit prefix. */
  lemma CsrfKeyNotRateKey()
    ensures !IsRateKey(CsrfKey)
  {
  }

  /** An update at `k` changes nothing but `k`. */
  lemma AgreeExceptUpdate(s: Session, k: string, v: Value)
    ensures AgreeExcept(s, s[k := v], k)
  {
    assert s.Keys - {k} == s[k := v].Keys - {k};
  }

  /** A deletion at `k` changes nothing but `k`. */
  lemma AgreeExceptRemove(s: Session, k: string)
    ensures AgreeExcept(s, s - {k}, k)
  {
    assert s.Keys - {k} == (s - {k}).Keys - {k};
  }
}
