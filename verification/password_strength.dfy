/** checkPasswordStrength: six independent checks on the password bytes
    give a score of 0..6, bucketed into five named levels. */
module PasswordStrength {
  import opened Bytes

  /** The six checks, in the order the source applies them. */
  datatype Criterion = MinLength | LongLength | HasLower | HasUpper | HasDigit | HasSymbol

  const Checks: seq<Criterion> := [MinLength, LongLength, HasLower, HasUpper, HasDigit, HasSymbol]

  predicate IsLower(b: Byte) { 'a' as int <= b <= 'z' as int }
  predicate IsUpper(b: Byte) { 'A' as int <= b <= 'Z' as int }
  predicate IsDigit(b: Byte) { '0' as int <= b <= '9' as int }
  /** The class [^a-zA-Z0-9]. */
  predicate IsSymbol(b: Byte) { !IsLower(b) && !IsUpper(b) && !IsDigit(b) }

  /** Some byte of `p` satisfies `f` (a preg_match character class). */
  predicate Contains(p: seq<Byte>, f: Byte -> bool)
  {
    exists i :: 0 <= i < |p| && f(p[i])
  }

  /** Whether password `p` (strlen counts bytes) passes check `c`. */
  predicate Meets(c: Criterion, p: seq<Byte>)
  {
    match c
    case MinLength => |p| >= 8
    case LongLength => |p| >= 12
    case HasLower => Contains(p, IsLower)
    case HasUpper => Contains(p, IsUpper)
    case HasDigit => Contains(p, IsDigit)
    case HasSymbol => Contains(p, IsSymbol)
  }

  /** The checks `p` passes. */
  function Passed(p: seq<Byte>): set<Criterion>
  {
    set c | c in Checks && Meets(c, p)
  }

  const Levels: seq<string> := ["weak", "fair", "good", "strong", "very strong"]

  /** The array checkPasswordStrength returns; the percentage is exact. */
  datatype Strength = Strength(score: nat, level: string, percentage: real)

  predicate Distinct(xs: seq<Criterion>)
  {
    forall i, j :: 0 <= i < j < |xs| ==> xs[i] != xs[j]
  }

  /** The source's running counter: one increment per check passed, taken
      in order. */
  function Count(xs: seq<Criterion>, p: seq<Byte>): (n: nat)
    ensures n <= |xs|
  {
    if xs == [] then 0 else (if Meets(xs[0], p) then 1 else 0) + Count(xs[1..], p)
  }

  /** Over distinct checks the running counter is the number of checks
      passed. */
  lemma {:induction false} CountIsCardinality(xs: seq<Criterion>, p: seq<Byte>)
    requires Distinct(xs)
    ensures Count(xs, p) == |set c | c in xs && Meets(c, p)|
  {
    if xs != [] {
      var rest := set c | c in xs[1..] && Meets(c, p);
      var here: set<Criterion> := if Meets(xs[0], p) then {xs[0]} else {};
      assert (set c | c in xs && Meets(c, p)) == here + rest;
      assert xs[0] !in rest by {
        forall i | 0 <= i < |xs[1..]| ensures xs[1..][i] != xs[0] {
          assert xs[1..][i] == xs[i + 1];
        }
      }
      assert here !! rest;
      assert Distinct(xs[1..]) by {
        forall i, j | 0 <= i < j < |xs[1..]| ensures xs[1..][i] != xs[1..][j] {
          assert xs[1..][i] == xs[i + 1] && xs[1..][j] == xs[j + 1];
        }
      }
      CountIsCardinality(xs[1..], p);
    }
  }

  /** The score: how many of the six checks `p` passes. */
  function Score(p: seq<Byte>): (n: nat)
    ensures n == |Passed(p)|
    ensures n <= 6
  {
    CountIsCardinality(Checks, p);
    Count(Checks, p)
  }

  /** The level index min(floor(score / 1.5), 4), in integer arithmetic. */
  function LevelIndex(score: nat): (i: nat)
    ensures i < |Levels|
    ensures var f := ((score as real) / 1.5).Floor; i == if f < 4 then f else 4
  {
    FloorOfScore(score);
    if (2 * score) / 3 < 4 then (2 * score) / 3 else 4
  }

  /** floor(n / 1.5) is exactly the integer quotient (2 * n) / 3. */
  lemma FloorOfScore(n: nat)
    ensures ((n as real) / 1.5).Floor == (2 * n) / 3
  {
    var q, r := (2 * n) / 3, (2 * n) % 3;
    assert 2 * n == 3 * q + r && 0 <= r < 3;
    assert (n as real) / 1.5 == (q as real) + (r as real) / 3.0;
  }

  /** checkPasswordStrength. */
  function CheckStrength(p: seq<Byte>): (r: Strength)
    ensures r.score == |Passed(p)| <= 6
    ensures r.level == Levels[LevelIndex(r.score)]
    ensures r.percentage == (r.score as real) * 100.0 / 6.0
    ensures 0.0 <= r.percentage <= 100.0
  {
    var score := Score(p);
    var pct := (score as real) / 6.0 * 100.0;
    Strength(score, Levels[LevelIndex(score)], if pct < 100.0 then pct else 100.0)
  }

  /** A higher score never gives a lower level. */
  lemma LevelMonotone(a: nat, b: nat)
    requires a <= b
    ensures LevelIndex(a) <= LevelIndex(b)
  {
  }

  /** The extreme levels: "very strong" exactly at score 6, "weak" exactly
      at scores 0 and 1. */
  lemma ExtremeLevels(p: seq<Byte>)
    ensures CheckStrength(p).level == "very strong" <==> CheckStrength(p).score == 6
    ensures CheckStrength(p).level == "weak" <==> CheckStrength(p).score <= 1
    ensures CheckStrength(p).percentage == 100.0 <==> CheckStrength(p).score == 6
  {
  }

  /** The bytes of an ASCII string. */
  function Ascii(s: string): seq<Byte>
    requires forall i :: 0 <= i < |s| ==> s[i] as int < 256
  {
    seq(|s|, i requires 0 <= i < |s| => s[i] as int as Byte)
  }

  /** "abc" passes only the lower-case check and rates weak. */
  lemma ShortLowercaseIsWeak()
    ensures CheckStrength(Ascii("abc")).score == 1
    ensures CheckStrength(Ascii("abc")).level == "weak"
  {
    var p := Ascii("abc");
    assert IsLower(p[0]);
    assert forall i :: 0 <= i < 3 ==> IsLower(p[i]);
    assert Passed(p) == {HasLower};
  }

  /** A long mixed password passes every check and rates very strong. */
  lemma MixedLongIsVeryStrong()
    ensures CheckStrength(Ascii("Abc123!@#longenough")).score == 6
    ensures CheckStrength(Ascii("Abc123!@#longenough")).level == "very strong"
    ensures CheckStrength(Ascii("Abc123!@#longenough")).percentage == 100.0
  {
    var p := Ascii("Abc123!@#longenough");
    assert IsUpper(p[0]) && IsLower(p[1]) && IsDigit(p[3]) && IsSymbol(p[6]);
    assert forall c :: Meets(c, p);
    assert Passed(p) == {MinLength, LongLength, HasLower, HasUpper, HasDigit, HasSymbol};
  }
}
