/** sanitizeInput: every string leaf of a (possibly nested) request value
    is passed through trim and then stripslashes; arrays keep their keys,
    order and nesting. */
module Sanitize {

  /** The characters PHP's trim strips by default: space, tab, newline,
      carriage return, NUL and vertical tab. */
  predicate IsTrimmed(c: char)
  {
    c == ' ' || c == '\t' || c == '\n' || c == '\r' || c == '\0' || c == 11 as char
  }

  /** ltrim: drop the leading run of trimmed characters. */
  function TrimLeft(s: string): (r: string)
    ensures |r| <= |s| && r == s[|s| - |r|..]
    ensures forall i :: 0 <= i < |s| - |r| ==> IsTrimmed(s[i])
    ensures r == [] || !IsTrimmed(r[0])
  {
    if s != [] && IsTrimmed(s[0]) then TrimLeft(s[1..]) else s
  }

  /** rtrim: drop the trailing run of trimmed characters. */
  function TrimRight(s: string): (r: string)
    ensures |r| <= |s| && r == s[..|r|]
    ensures forall i :: |r| <= i < |s| ==> IsTrimmed(s[i])
    ensures r == [] || !IsTrimmed(r[|r| - 1])
  {
    if s != [] && IsTrimmed(s[|s| - 1]) then TrimRight(s[..|s| - 1]) else s
  }

  /** trim: `r` is the slice s[lo..lo+|r|] with only trimmed characters
      outside it and none at either end of it. */
  function Trim(s: string): (r: string)
    ensures |r| <= |s|
    ensures exists lo :: TrimmedSlice(s, lo, r)
    ensures r == [] || (!IsTrimmed(r[0]) && !IsTrimmed(r[|r| - 1]))
  {
    var l := TrimLeft(s);
    var r := TrimRight(l);
    var lo := |s| - |l|;
    assert r == s[lo..lo + |r|];
    assert forall i :: lo + |r| <= i < |s| ==> s[i] == l[i - lo];
    assert TrimmedSlice(s, lo, r);
    r
  }

  /** `r` is s[lo..lo+|r|] and only trimmed characters lie outside it. */
  predicate TrimmedSlice(s: string, lo: int, r: string)
  {
    && 0 <= lo <= |s| - |r|
    && r == s[lo..lo + |r|]
    && (forall i :: 0 <= i < lo ==> IsTrimmed(s[i]))
    && (forall i :: lo + |r| <= i < |s| ==> IsTrimmed(s[i]))
  }

  /** A string with nothing to trim at either end is its own trim. */
  lemma TrimFixed(s: string)
    requires s == [] || (!IsTrimmed(s[0]) && !IsTrimmed(s[|s| - 1]))
    ensures Trim(s) == s
  {
    assert TrimLeft(s) == s;
    assert TrimRight(s) == s;
  }

  /** trim is idempotent. */
  lemma TrimIdempotent(s: string)
    ensures Trim(Trim(s)) == Trim(s)
  {
    TrimFixed(Trim(s));
  }

  /** stripslashes: a backslash is dropped and the character after it kept
      literally, except that backslash-zero becomes NUL; a lone trailing
      backslash disappears. */
  function StripSlashes(s: string): (r: string)
    ensures |r| <= |s|
    ensures (forall i :: 0 <= i < |s| ==> s[i] != '\\') ==> r == s
    decreases |s|
  {
    if s == [] then []
    else if s[0] != '\\' then [s[0]] + StripSlashes(s[1..])
    else if |s| == 1 then []
    else (if s[1] == '0' then ['\0'] else [s[1]]) + StripSlashes(s[2..])
  }

  /** addslashes, the escaping stripslashes undoes: quote, double quote
      and backslash get a backslash in front, NUL becomes backslash-zero. */
  function Escape(c: char): string
  {
    if c == '\'' || c == '"' || c == '\\' then ['\\', c]
    else if c == '\0' then ['\\', '0']
    else [c]
  }

  function AddSlashes(s: string): (r: string)
    ensures |s| <= |r| <= 2 * |s|
  {
    if s == [] then [] else Escape(s[0]) + AddSlashes(s[1..])
  }

  /** stripslashes consumes exactly one escaped character at the front. */
  lemma StripEscape(c: char, rest: string)
    ensures StripSlashes(Escape(c) + rest) == [c] + StripSlashes(rest)
  {
    var e := Escape(c) + rest;
    assert e[|Escape(c)|..] == rest;
  }

  /** stripslashes inverts addslashes. */
  lemma {:induction false} StripAddRoundTrip(s: string)
    ensures StripSlashes(AddSlashes(s)) == s
  {
    if s != [] {
      StripEscape(s[0], AddSlashes(s[1..]));
      StripAddRoundTrip(s[1..]);
      assert [s[0]] + s[1..] == s;
    }
  }

  /** One leaf's cleaning: trim, then stripslashes. */
  function Clean(s: string): (r: string)
    ensures |r| <= |s|
  {
    StripSlashes(Trim(s))
  }

  /** Cleaning is not idempotent: two backslashes become one, then none. */
  lemma CleanNotIdempotent()
    ensures Clean(Clean("\\\\")) != Clean("\\\\")
  {
    TrimFixed("\\\\");
    assert Clean("\\\\") == "\\";
    TrimFixed("\\");
  }

  /** A PHP array key. */
  datatype ArrayKey = IntKey(i: int) | StringKey(s: string)

  /** A request value: a string, or an ordered array of keyed values. */
  datatype Input = Text(s: string) | Array(entries: seq<(ArrayKey, Input)>)

  /** Same keys, in the same order, at every level of nesting; leaves may
      differ. */
  predicate SameShape(x: Input, y: Input)
  {
    match (x, y)
    case (Text(_), Text(_)) => true
    case (Array(es), Array(fs)) =>
      |es| == |fs| && forall i :: 0 <= i < |es| ==> es[i].0 == fs[i].0 && SameShape(es[i].1, fs[i].1)
    case _ => false
  }

  /** The string leaves of `x`, left to right. */
  function Leaves(x: Input): seq<string>
    decreases x, 1, 0
  {
    match x
    case Text(s) => [s]
    case Array(_) => LeavesFrom(x, 0)
  }

  /** The leaves of the entries of array `x` from position `i` on. */
  function LeavesFrom(x: Input, i: nat): seq<string>
    requires x.Array? && i <= |x.entries|
    decreases x, 0, |x.entries| - i
  {
    if i == |x.entries| then [] else Leaves(x.entries[i].1) + LeavesFrom(x, i + 1)
  }

  /** Every string of `ls`, cleaned. */
  function CleanAll(ls: seq<string>): seq<string>
  {
    seq(|ls|, i requires 0 <= i < |ls| => Clean(ls[i]))
  }

  /** sanitizeInput. */
  function SanitizeInput(x: Input): (r: Input)
    ensures SameShape(x, r)
    ensures x.Text? ==> r == Text(Clean(x.s))
  {
    match x
    case Text(s) => Text(Clean(s))
    case Array(es) => Array(seq(|es|, i requires 0 <= i < |es| => (es[i].0, SanitizeInput(es[i].1))))
  }

  /** Each leaf of the sanitised value is the cleaned leaf at the same
      position of the input. */
  lemma {:induction false} SanitizeCleansLeaves(x: Input)
    ensures Leaves(SanitizeInput(x)) == CleanAll(Leaves(x))
    decreases x, 1, 0
  {
    match x
    case Text(_) =>
    case Array(_) => SanitizeCleansLeavesFrom(x, 0);
  }

  lemma {:induction false} SanitizeCleansLeavesFrom(x: Input, i: nat)
    requires x.Array? && i <= |x.entries|
    ensures SanitizeInput(x).Array? && |SanitizeInput(x).entries| == |x.entries|
    ensures LeavesFrom(SanitizeInput(x), i) == CleanAll(LeavesFrom(x, i))
    decreases x, 0, |x.entries| - i
  {
    var y := SanitizeInput(x);
    assert y.Array? && |y.entries| == |x.entries|;
    if i < |x.entries| {
      var child := x.entries[i].1;
      assert y.entries[i].1 == SanitizeInput(child);
      SanitizeCleansLeaves(child);
      SanitizeCleansLeavesFrom(x, i + 1);
      CleanAllAppend(Leaves(child), LeavesFrom(x, i + 1));
    }
  }

  /** Cleaning distributes over concatenation. */
  lemma CleanAllAppend(a: seq<string>, b: seq<string>)
    ensures CleanAll(a + b) == CleanAll(a) + CleanAll(b)
  {
  }

  /** No leaf gets longer, and the number of leaves is unchanged. */
  lemma SanitizeShrinksLeaves(x: Input)
    ensures |Leaves(SanitizeInput(x))| == |Leaves(x)|
    ensures forall i :: 0 <= i < |Leaves(x)| ==> |Leaves(SanitizeInput(x))[i]| <= |Leaves(x)[i]|
  {
    SanitizeCleansLeaves(x);
  }
}
