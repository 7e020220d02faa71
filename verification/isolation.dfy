/** The CSRF token and the rate-limit records share one session but never
    disturb each other. */
module Isolation {
  import opened Bytes
  import opened Session
  import Csrf
  import RateLimit

  /** Rate-limit operations leave the CSRF token as it was. */
  lemma RateLimitKeepsToken(s: Session, digest: string -> string, id: string,
                            maxAttempts: int, timeWindow: int, now: int)
    requires Wf(s)
    ensures Csrf.Stored(RateLimit.IsRateLimited(s, digest, id, maxAttempts, timeWindow, now).session) == Csrf.Stored(s)
    ensures Csrf.Stored(RateLimit.Increment(s, digest, id, now)) == Csrf.Stored(s)
    ensures Csrf.Stored(RateLimit.Reset(s, digest, id)) == Csrf.Stored(s)
  {
    RateKeyShape(digest, id);
  }

  /** Issuing or removing the CSRF token changes no rate-limit verdict. */
  lemma TokenKeepsRateLimits(s: Session, random: seq<Byte>, digest: string -> string, id: string,
                             maxAttempts: int, timeWindow: int, now: int)
    requires Wf(s) && |random| == Csrf.TokenBytes
    ensures RateLimit.IsRateLimited(Csrf.Generate(s, random).session, digest, id, maxAttempts, timeWindow, now).limited
         == RateLimit.IsRateLimited(s, digest, id, maxAttempts, timeWindow, now).limited
    ensures RateLimit.IsRateLimited(Csrf.Remove(s), digest, id, maxAttempts, timeWindow, now).limited
         == RateLimit.IsRateLimited(s, digest, id, maxAttempts, timeWindow, now).limited
  {
    RateKeyShape(digest, id);
  }
}
