/** The anti-forgery token lifecycle: one token per session under
    "csrf_token", issued once, checked without being consumed, and removed
    explicitly after use. */
module Csrf {
  import opened Bytes
  import opened Hex
  import opened Session

  /** Number of random bytes behind a token. */
  const TokenBytes: nat := 32

  /** What generateCSRFToken returns, paired with the session it leaves. */
  datatype Issued = Issued(token: string, session: Session)

  /** PHP's empty() on a string: only "" and "0" are empty. */
  predicate PhpEmpty(t: string)
  {
    t == "" || t == "0"
  }

  datatype Option<T> = None | Some(value: T)

  /** The token currently live in the session, if any. */
  function Stored(s: Session): Option<string>
    requires Wf(s)
  {
    if CsrfKey in s then Some(s[CsrfKey].str) else None
  }

  /** generateCSRFToken: keep an existing token, otherwise store the hex
      encoding of the supplied random bytes. */
  function Generate(s: Session, random: seq<Byte>): (r: Issued)
    requires Wf(s) && |random| == TokenBytes
    ensures Wf(r.session)
    ensures Stored(r.session) == Some(r.token)
    ensures CsrfKey in s ==> r.session == s
    ensures CsrfKey !in s ==> |r.token| == 2 * TokenBytes && IsHexString(r.token) && Hex.Decode(r.token) == random
    ensures AgreeExcept(s, r.session, CsrfKey)
  {
    if CsrfKey in s then
      Issued(s[CsrfKey].str, s)
    else
      var token := Encode(random);
      DecodeEncode(random);
      CsrfKeyNotRateKey();
      WfUpdate(s, CsrfKey, Str(token));
      AgreeExceptUpdate(s, CsrfKey, Str(token));
      Issued(token, s[CsrfKey := Str(token)])
  }

  /** The verdict validateCSRFToken reaches: a token must be stored, the
      submission must not be PHP-empty, and the two must be equal. */
  predicate Accepts(s: Session, submitted: string)
    requires Wf(s)
  {
    CsrfKey in s && !PhpEmpty(submitted) && s[CsrfKey].str == submitted
  }

  /** hash_equals: unequal lengths are rejected at once; equal lengths are
      compared at every position without stopping at the first mismatch.
      `steps` counts the positions visited. */
  method HashEquals(known: string, user: string) returns (equal: bool, ghost steps: nat)
    ensures equal <==> known == user
    ensures |known| == |user| ==> steps == |known|
  {
    steps := 0;
    if |known| != |user| {
      return false, steps;
    }
    var differ := false;
    var i := 0;
    while i < |known|
      invariant 0 <= i <= |known|
      invariant steps == i
      invariant differ <==> exists j :: 0 <= j < i && known[j] != user[j]
    {
      if known[i] != user[i] {
        differ := true;
      }
      i := i + 1;
      steps := steps + 1;
    }
    equal := !differ;
  }

  /** validateCSRFToken: fails closed and leaves the session alone (it
      receives the session but returns none). */
  method Validate(s: Session, submitted: string) returns (valid: bool)
    requires Wf(s)
    ensures valid <==> Accepts(s, submitted)
    ensures CsrfKey !in s || PhpEmpty(submitted) ==> !valid
  {
    if CsrfKey !in s || PhpEmpty(submitted) {
      return false;
    }
    ghost var steps;
    valid, steps := HashEquals(s[CsrfKey].str, submitted);
  }

  /** removeCSRFToken: drop the token and nothing else. */
  function Remove(s: Session): (r: Session)
    requires Wf(s)
    ensures Wf(r)
    ensures CsrfKey !in r && Stored(r) == None
    ensures AgreeExcept(s, r, CsrfKey)
    ensures r.Keys == s.Keys - {CsrfKey}
  {
    WfRemove(s, CsrfKey);
    AgreeExceptRemove(s, CsrfKey);
    s - {CsrfKey}
  }

  /** Issuing is idempotent: a second call, whatever its random bytes,
      returns the same token and leaves the same session. */
  lemma GenerateIdempotent(s: Session, r1: seq<Byte>, r2: seq<Byte>)
    requires Wf(s) && |r1| == TokenBytes && |r2| == TokenBytes
    ensures Generate(Generate(s, r1).session, r2) == Generate(s, r1)
  {
  }

  /** A freshly issued token validates. An existing token validates after
      a repeated issue exactly when it is not PHP-empty, which never
      happens to a token this module stored itself. */
  lemma AcceptsGenerated(s: Session, random: seq<Byte>)
    requires Wf(s) && |random| == TokenBytes
    ensures var r := Generate(s, random);
      Accepts(r.session, r.token) <==> !(CsrfKey in s && PhpEmpty(s[CsrfKey].str))
  {
    var r := Generate(s, random);
    if CsrfKey !in s {
      assert |r.token| == 64;
    }
  }

  /** After removal nothing validates. */
  lemma RemovedRejectsAll(s: Session, submitted: string)
    requires Wf(s)
    ensures !Accepts(Remove(s), submitted)
  {
  }

  /** After removal a new token is issued from fresh random bytes. */
  lemma RegenerateAfterRemove(s: Session, random: seq<Byte>)
    requires Wf(s) && |random| == TokenBytes
    ensures Generate(Remove(s), random).token == Encode(random)
  {
  }
}
