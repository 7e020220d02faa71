# MijSys CMS security layer, modelled in Dafny

This project models the session-bound logic of the `Security` class of
MijSys CMS (`includes/security.class.php`):

- the CSRF token lifecycle (`generateCSRFToken`, `validateCSRFToken`,
  `removeCSRFToken`), including the `hash_equals` comparison it relies on;
- the login rate limiter (`isRateLimited`, `incrementRateLimit`,
  `resetRateLimit`) with its per-identifier record `{attempts, first_attempt}`;
- password strength scoring (`checkPasswordStrength`);
- recursive input sanitisation (`sanitizeInput`), with `trim` and
  `stripslashes` written out character by character.

The PHP session (`$_SESSION`) is an explicit, immutable `map<string, Value>`;
every operation takes it and returns the session it leaves behind. The
clock (`time()`), the random bytes (`random_bytes(32)`) and the digest
(`md5`) are parameters: `now: int`, `random: seq<Byte>` with 32 bytes, and
`digest: string -> string`, an arbitrary function. Nothing about md5 is
assumed; where two identifiers must have separate records, the lemma asks
for `digest(a) != digest(b)`.

Files and modules:

| file | module | models |
|---|---|---|
| bytes.dfy | `Bytes` | the byte type shared by random bytes and passwords |
| hex.dfy | `Hex` | `bin2hex` and its inverse |
| session.dfy | `Session` | session values, the two key families, the well-formedness invariant |
| csrf.dfy | `Csrf` | CSRF token issue, validation, removal; `hash_equals` |
| rate_limit.dfy | `RateLimit` | the rate limiter and the configured defaults |
| password_strength.dfy | `PasswordStrength` | the six checks, the score and the level table |
| sanitize.dfy | `Sanitize` | `trim`, `stripslashes`, recursive sanitisation |
| isolation.dfy | `Isolation` | CSRF and rate-limit state do not disturb each other |

Modelling decisions:

- `Session.Wf` is the shape the class relies on: a string under
  `csrf_token` and a `{attempts, first_attempt}` record with
  `attempts >= 0` under every `rate_limit_…` key (the class only ever
  writes 0 and then adds 1). PHP would raise an error on anything else (for
  example `hash_equals` given a non-string). Every operation requires `Wf`
  and preserves it, so any session built from an empty one by these
  operations satisfies it.
- `isRateLimited` writes to the session: a missing record is created as
  `{0, now}` before the check. A read-only check would be the safer design,
  but the model follows the code.
- The window expires when `now - first_attempt > timeWindow`, strictly.
  So a check exactly `timeWindow` seconds after the first attempt is still
  inside the window (`RateLimit.DefaultsScenario` shows this at 900 s);
  reaching `first_attempt + timeWindow` is not enough to unlock.
- Passwords are byte strings (`strlen` counts bytes and the `preg_match`
  classes have no `/u` flag). `percentage` is an exact `real`.
- `floor($strength / 1.5)` is modelled as the integer `(2 * score) / 3`.
  `PasswordStrength.FloorOfScore` proves the two equal over the reals. For
  scores 0..6 the double-precision division is exact or far from an
  integer, so the float floor agrees too.
- `validateCSRFToken` is a method. It calls `HashEquals`, a loop that
  visits every position once the lengths agree and does not stop at the
  first mismatch, as `hash_equals` does. The ghost counter `steps` records
  the positions visited.

## Model

| member | source | states |
|---|---|---|
| Hex.Encode | includes/security.class.php:17 | bin2hex gives two lower-case hex digits per byte, so 32 random bytes give a 64-character token |
| Hex.DecodeEncode | includes/security.class.php:17 | decoding a bin2hex token gives back the random bytes it came from |
| Hex.EncodeDecode | includes/security.class.php:17 | every even-length lower-case hex string is the encoding of its decoding |
| Hex.EncodeInjective | includes/security.class.php:17 | distinct random bytes give distinct tokens, and equal tokens come from equal bytes |
| Session.RateKeyShape | includes/security.class.php:179 | a rate-limit key always starts with `rate_limit_` and is never `csrf_token` |
| Session.RateKeyInjective | includes/security.class.php:179 | two identifiers share a record exactly when their digests are equal |
| Csrf.Generate | includes/security.class.php:15-20 | the returned token is the one stored afterwards; an existing token is returned with the session unchanged; otherwise the stored token is 64 hex digits that decode to the supplied bytes; no other key changes |
| Csrf.GenerateIdempotent | includes/security.class.php:16-19 | a second issue, with any random bytes, returns the same token and the same session |
| Csrf.HashEquals | includes/security.class.php:31 | the comparison is true exactly when the strings are equal, and for equal lengths it visits every position |
| Csrf.Validate | includes/security.class.php:27-32 | fails closed: false without a stored token or for an empty submission ("" or "0"), otherwise true exactly when the submission equals the stored token; the session is only read |
| Csrf.AcceptsGenerated | includes/security.class.php:15-32 | the token just issued validates, unless an existing stored token was itself PHP-empty; both directions |
| Csrf.Remove | includes/security.class.php:37-39 | removes `csrf_token` and keeps every other key and value |
| Csrf.RemovedRejectsAll | includes/security.class.php:27-39 | after removal no submitted string validates |
| Csrf.RegenerateAfterRemove | includes/security.class.php:15-39 | after removal the next issue stores a token made from the new random bytes |
| RateLimit.IsRateLimited | includes/security.class.php:178-205 | a missing record becomes `{0, now}`, and the answer is then true only for a limit of 0 or less with a non-negative window; an expired window is reset to `{0, now}` and answers false; otherwise the session is unchanged and the answer is attempts >= limit; only the identifier's key changes |
| RateLimit.Increment | includes/security.class.php:211-222 | attempts rise by exactly one and the window start is kept; a missing record becomes `{1, now}`; only the identifier's key changes |
| RateLimit.Reset | includes/security.class.php:228-231 | deletes the identifier's key and nothing else |
| RateLimit.IncrementAllExisting | includes/security.class.php:211-222 | n increments on an existing record add n attempts and keep the window start |
| RateLimit.IncrementAllFresh | includes/security.class.php:214-221 | n increments from no record give `{n, time of the first}` |
| RateLimit.IncrementAllFrame | includes/security.class.php:211-222 | repeated increments change no key but the identifier's |
| RateLimit.LockedAfterMaxFailures | includes/security.class.php:178-222 | after at least maxAttempts increments, a check inside the window reports limited, both when the increments land on an existing record (window start kept) and when the first of them creates the record |
| RateLimit.LoginFlowLocks | includes/security.class.php:178-222 | for a new identifier, a check at t0 opens the window; after at least maxAttempts failures, any check within timeWindow of t0 reports limited |
| RateLimit.ExpiryTakesPrecedence | includes/security.class.php:190-197 | with an expired window the check answers false and restarts the window at zero, whatever the (non-negative) attempt count |
| RateLimit.ResetUnlocks | includes/security.class.php:178-231 | after a reset the identifier is not limited for any positive limit and any window |
| RateLimit.Independent | includes/security.class.php:178-231 | incrementing or resetting one identifier does not change the verdict for another with a different digest |
| RateLimit.DefaultsScenario | config.php:55-59 | with limit 5 and window 900 s: five failures lock the identifier at every time up to 900 s after the first, and a check at 901 s unlocks it and zeroes the count |
| PasswordStrength.Count | includes/security.class.php:151-159 | the running counter never exceeds the number of checks |
| PasswordStrength.CountIsCardinality | includes/security.class.php:151-159 | over distinct checks the running counter equals the number of checks passed |
| PasswordStrength.Score | includes/security.class.php:151-159 | the score is the number of the six checks the password passes, so it lies in 0..6 |
| PasswordStrength.LevelIndex | includes/security.class.php:161-162 | the index is min(floor(score / 1.5), 4) computed over the reals and always names one of the five levels |
| PasswordStrength.FloorOfScore | includes/security.class.php:162 | floor(n / 1.5) equals the integer quotient (2 * n) / 3 for every n |
| PasswordStrength.CheckStrength | includes/security.class.php:150-168 | score is the count of passed checks, level is the table entry at the level index, percentage is score * 100 / 6 and never above 100 |
| PasswordStrength.LevelMonotone | includes/security.class.php:161-162 | a higher score never gives a lower level |
| PasswordStrength.ExtremeLevels | includes/security.class.php:161-167 | "very strong" exactly at score 6, "weak" exactly at scores 0 and 1, percentage 100 exactly at score 6 |
| PasswordStrength.ShortLowercaseIsWeak | includes/security.class.php:150-168 | "abc" scores 1 and rates weak |
| PasswordStrength.MixedLongIsVeryStrong | includes/security.class.php:150-168 | "Abc123!@#longenough" scores 6, rates very strong, percentage 100 |
| Sanitize.TrimLeft | includes/security.class.php:52 | the result is a suffix of the input, everything dropped is a trim character, and it does not start with one |
| Sanitize.TrimRight | includes/security.class.php:52 | the result is a prefix of the input, everything dropped is a trim character, and it does not end with one |
| Sanitize.Trim | includes/security.class.php:52 | the result is a slice of the input with only trim characters outside it and none at either end |
| Sanitize.TrimFixed | includes/security.class.php:52 | a string with no trim character at either end is unchanged |
| Sanitize.TrimIdempotent | includes/security.class.php:52 | trimming twice equals trimming once |
| Sanitize.StripSlashes | includes/security.class.php:53 | the result is never longer, and a string without backslashes is unchanged |
| Sanitize.StripAddRoundTrip | includes/security.class.php:53 | stripslashes undoes addslashes for every string |
| Sanitize.Clean | includes/security.class.php:52-53 | cleaning a leaf never makes it longer |
| Sanitize.CleanNotIdempotent | includes/security.class.php:52-53 | cleaning twice can differ from cleaning once: two backslashes become one, then none |
| Sanitize.SanitizeInput | includes/security.class.php:46-56 | arrays keep their keys, order and nesting; a string becomes its cleaned form |
| Sanitize.SanitizeCleansLeaves | includes/security.class.php:46-56 | the leaves of the result, left to right, are the cleaned leaves of the input |
| Sanitize.SanitizeCleansLeavesFrom | includes/security.class.php:47-50 | the same, for the entries of an array from a given position on |
| Sanitize.SanitizeShrinksLeaves | includes/security.class.php:46-56 | the number of leaves is kept and no leaf becomes longer |
| Isolation.RateLimitKeepsToken | includes/security.class.php:178-231 | checks, increments and resets leave the CSRF token as it was |
| Isolation.TokenKeepsRateLimits | includes/security.class.php:15-39 | issuing or removing the CSRF token changes no rate-limit verdict |

## Left out

- `hashPassword` and `verifyPassword`: bcrypt through `password_hash` and `password_verify`, foreign calls with no visible logic.
- `encrypt` and `decrypt`: AES-256-CBC through OpenSSL plus base64, foreign calls.
- `validateEmail`, `validateURL`: thin wrappers over `filter_var`.
- `sanitizeOutput`, `preventXSS`, `sanitizeHTML`: thin wrappers over `htmlspecialchars` and `strip_tags`, whose exact behaviour lies in the PHP runtime.
- `generateRandomString`, and the real `random_bytes`, `time()` and `md5`: randomness, the clock and the digest are parameters.
- Csrf.Validate: the timing behaviour of `hash_equals` is only described by the ghost `steps` counter, not proved against real time.
- Csrf.Validate: a submitted token that is not a string (an array from the form, null) is not modelled; PHP's `empty` and `hash_equals` treat those separately.
- RateLimit.Increment: PHP's switch from integer to float past `PHP_INT_MAX` attempts is not modelled; attempts are unbounded integers.
- Session values other than strings and rate records (for example null, for which `isset` is false) are not modelled; `Session.Wf` requires the security layer's own keys to hold its own kinds of value.
- Sanitize.SanitizeInput: non-string scalars (integers, booleans, null), which PHP's `trim` would convert to strings, are not modelled; leaves are strings, as request data is.
- All of config.php except the two limits used by `RateLimit.DefaultsScenario`: constant definitions, error reporting, the autoloader and session start-up are runtime plumbing.
- Races between concurrent requests in one session: the model is one request at a time.
