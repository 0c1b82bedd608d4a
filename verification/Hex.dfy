/** Lowercase hexadecimal, as hashes are written in proof bundles. */
module Hex {
  import opened Bytes

  predicate IsDigit(c: char) {
    '0' <= c <= '9' || 'a' <= c <= 'f'
  }

  function DigitValue(c: char): (n: nat)
    requires IsDigit(c)
    ensures n < 16
  {
    if c <= '9' then (c as int) - ('0' as int) else (c as int) - ('a' as int) + 10
  }

  function DigitOf(n: nat): (c: char)
    requires n < 16
    ensures IsDigit(c) && DigitValue(c) == n
  {
    if n < 10 then ('0' as int + n) as char else ('a' as int + n - 10) as char
  }

  function EncodeByte(x: byte): (s: string)
    ensures |s| == 2 && IsDigit(s[0]) && IsDigit(s[1])
  {
    [DigitOf(x as int / 16), DigitOf(x as int % 16)]
  }

  function DecodeByte(high: char, low: char): byte
    requires IsDigit(high) && IsDigit(low)
  {
    (16 * DigitValue(high) + DigitValue(low)) as byte
  }

  function Encode(b: ByteString): (s: string)
    ensures |s| == 2 * |b| && forall i :: 0 <= i < |s| ==> IsDigit(s[i])
  {
    if b == [] then [] else EncodeByte(b[0]) + Encode(b[1..])
  }

  predicate IsHex(s: string) {
    |s| % 2 == 0 && forall i :: 0 <= i < |s| ==> IsDigit(s[i])
  }

  function Decode(s: string): (b: ByteString)
    requires IsHex(s)
    ensures |b| == |s| / 2
  {
    if s == [] then []
    else [DecodeByte(s[0], s[1])] + Decode(s[2..])
  }

  const DIGITS := "0123456789abcdef"

  /** The two digits of every byte, the high one first. */
  lemma {:induction false} EncodedAt(b: ByteString, i: nat)
    requires i < |b|
    ensures Encode(b)[2 * i] == DIGITS[b[i] as int / 16] && Encode(b)[2 * i + 1] == DIGITS[b[i] as int % 16]
  {
    if i > 0 {
      EncodedAt(b[1..], i - 1);
      assert Encode(b)[2..] == Encode(b[1..]);
    }
  }

  lemma ByteRoundTrip(x: byte)
    ensures DecodeByte(EncodeByte(x)[0], EncodeByte(x)[1]) == x
  {}

  lemma DigitsRoundTrip(high: char, low: char)
    requires IsDigit(high) && IsDigit(low)
    ensures EncodeByte(DecodeByte(high, low)) == [high, low]
  {
    var x := DecodeByte(high, low) as int;
    assert x / 16 == DigitValue(high) && x % 16 == DigitValue(low);
    SameDigit(DigitOf(x / 16), high);
    SameDigit(DigitOf(x % 16), low);
  }

  lemma SameDigit(c: char, d: char)
    requires IsDigit(c) && IsDigit(d) && DigitValue(c) == DigitValue(d)
    ensures c == d
  {}

  lemma {:induction false} DecodeInvertsEncode(b: ByteString)
    ensures Decode(Encode(b)) == b
  {
    if b != [] {
      DecodeInvertsEncode(b[1..]);
      ByteRoundTrip(b[0]);
      assert Encode(b) == EncodeByte(b[0]) + Encode(b[1..]);
      assert Encode(b)[2..] == Encode(b[1..]);
    }
  }

  lemma FirstTwoDigits(s: string)
    requires IsHex(s) && s != []
    ensures IsDigit(s[0]) && IsDigit(s[1]) && IsHex(s[2..])
    ensures Decode(s) == [DecodeByte(s[0], s[1])] + Decode(s[2..]) && s == [s[0], s[1]] + s[2..]
  {}

  lemma EncodeAfter(x: byte, b: ByteString)
    ensures Encode([x] + b) == EncodeByte(x) + Encode(b)
  {
    assert ([x] + b)[1..] == b;
  }

  lemma {:induction false} EncodeInvertsDecode(s: string)
    requires IsHex(s)
    ensures Encode(Decode(s)) == s
  {
    if s != [] {
      FirstTwoDigits(s);
      EncodeInvertsDecode(s[2..]);
      DigitsRoundTrip(s[0], s[1]);
      EncodeAfter(DecodeByte(s[0], s[1]), Decode(s[2..]));
    }
  }

  /** Exactly 64 lowercase hexadecimal characters. */
  predicate IsHash(s: string) {
    |s| == 64 && IsHex(s)
  }

  function HashOf(s: string): Digest
    requires IsHash(s)
  {
    Decode(s)
  }

  lemma EncodedHash(d: Digest)
    ensures IsHash(Encode(d)) && HashOf(Encode(d)) == d
  {
    DecodeInvertsEncode(d);
  }

  /** Comparing hexadecimal strings is comparing bytes. */
  lemma SameHash(d: Digest, s: string)
    requires IsHash(s)
    ensures Encode(d) == s <==> d == HashOf(s)
  {
    DecodeInvertsEncode(d);
    EncodeInvertsDecode(s);
  }
}
