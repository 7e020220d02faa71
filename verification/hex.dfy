/** Lower-case hexadecimal encoding of byte strings, the encoding PHP's
    bin2hex applies to the random bytes behind a CSRF token. */
module Hex {
  import opened Bytes

  /** The sixteen digits bin2hex emits, in value order. */
  const Digits: string := "0123456789abcdef"

  predicate IsHexString(h: string)
  {
    forall i :: 0 <= i < |h| ==> h[i] in Digits
  }

  /** The value of one hex digit. */
  function DigitValue(c: char): (n: int)
    requires c in Digits
    ensures 0 <= n < 16 && Digits[n] == c
  {
    if '0' <= c <= '9' then c as int - '0' as int else c as int - 'a' as int + 10
  }

  /** bin2hex: every byte becomes two digits, high nibble first. */
  function Encode(bs: seq<Byte>): (h: string)
    ensures |h| == 2 * |bs| && |h| % 2 == 0
    ensures IsHexString(h)
  {
    if bs == [] then []
    else [Digits[bs[0] / 16], Digits[bs[0] % 16]] + Encode(bs[1..])
  }

  /** hex2bin on well-formed input: the inverse of Encode. */
  function Decode(h: string): (bs: seq<Byte>)
    requires |h| % 2 == 0 && IsHexString(h)
    ensures 2 * |bs| == |h|
    decreases |h|
  {
    if h == [] then []
    else [DigitValue(h[0]) * 16 + DigitValue(h[1])] + Decode(h[2..])
  }

  /** Reading back the digit of a nibble gives the nibble. */
  lemma DigitOfNibble(n: int)
    requires 0 <= n < 16
    ensures DigitValue(Digits[n]) == n
  {
    var m := DigitValue(Digits[n]);
    assert Digits[m] == Digits[n];
    assert forall i, j :: 0 <= i < j < 16 ==> Digits[i] != Digits[j];
  }

  /** A byte is its high nibble times sixteen plus its low nibble. */
  lemma NibbleSplit(b: Byte)
    ensures 0 <= b / 16 < 16 && 0 <= b % 16 < 16
    ensures b / 16 * 16 + b % 16 == b
  {
  }

  /** Decoding the two digits of one byte in front of a hex string. */
  lemma DecodeCons(b: Byte, rest: string)
    requires |rest| % 2 == 0 && IsHexString(rest)
    ensures var h := [Digits[b / 16], Digits[b % 16]] + rest;
      |h| % 2 == 0 && IsHexString(h) && Decode(h) == [b] + Decode(rest)
  {
    var h := [Digits[b / 16], Digits[b % 16]] + rest;
    NibbleSplit(b);
    DigitOfNibble(b / 16);
    DigitOfNibble(b % 16);
    assert h[2..] == rest;
  }

  /** Decoding an encoding gives the bytes back. */
  lemma {:induction false} DecodeEncode(bs: seq<Byte>)
    ensures Decode(Encode(bs)) == bs
  {
    if bs != [] {
      var rest := Encode(bs[1..]);
      DecodeCons(bs[0], rest);
      DecodeEncode(bs[1..]);
      assert [bs[0]] + bs[1..] == bs;
    }
  }

  /** Encoding a decoding gives the hex string back: Encode is onto the
      even-length lower-case hex strings. */
  lemma {:induction false} EncodeDecode(h: string)
    requires |h| % 2 == 0 && IsHexString(h)
    ensures Encode(Decode(h)) == h
    decreases |h|
  {
    if h != [] {
      var b: Byte := DigitValue(h[0]) * 16 + DigitValue(h[1]);
      assert b / 16 == DigitValue(h[0]) && b % 16 == DigitValue(h[1]);
      EncodeDecode(h[2..]);
      assert Decode(h) == [b] + Decode(h[2..]);
      assert Encode(Decode(h)) == [Digits[b / 16], Digits[b % 16]] + Encode(Decode(h[2..]));
    }
  }

  /** Encode is injective: distinct random bytes give distinct tokens. */
  lemma EncodeInjective(a: seq<Byte>, b: seq<Byte>)
    ensures Encode(a) == Encode(b) <==> a == b
  {
    if Encode(a) == Encode(b) {
      DecodeEncode(a);
      DecodeEncode(b);
    }
  }
}
