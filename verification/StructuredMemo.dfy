/**
 src/memo.rs `StructuredMemo`: the text form of an attestation, PREFIX:TYPE:PAYLOAD in
 hexadecimal, and the reader, which is more lenient than the writer.
 */
module StructuredMemo {
  import opened Bytes
  import opened Results
  import opened Hex

  const MEMO_PREFIX := "ZAP1"
  const LEGACY_MEMO_PREFIX := "NSM1"

  /** The registered types: 0x01 to 0x0F and 0x40 to 0x42. */
  predicate IsMemoType(n: nat) {
    0x01 <= n <= 0x0F || 0x40 <= n <= 0x42
  }

  datatype Memo = Memo(memoType: byte, payload: Digest)

  function EncodeMemo(m: Memo): string {
    MEMO_PREFIX + ":" + (EncodeByte(m.memoType) + ":" + Encode(m.payload))
  }

  // ---------------------------------------------------------------------------------
  // Reading
  // ---------------------------------------------------------------------------------

  /** The fields between the colons. */
  function Split(s: string): (fields: seq<string>)
    ensures fields != []
  {
    if s == [] then [""]
    else
      var rest := Split(s[1..]);
      if s[0] == ':' then [""] + rest else [[s[0]] + rest[0]] + rest[1..]
  }

  predicate IsMixedDigit(c: char) {
    IsDigit(c) || 'A' <= c <= 'F'
  }

  function Lower(c: char): (d: char)
    ensures IsMixedDigit(c) ==> IsDigit(d)
    ensures IsDigit(c) ==> d == c
  {
    if 'A' <= c <= 'F' then (c as int - 'A' as int + 'a' as int) as char else c
  }

  function LowerAll(s: string): (r: string)
    ensures |r| == |s| && forall i :: 0 <= i < |s| ==> r[i] == Lower(s[i])
  {
    if s == [] then [] else [Lower(s[0])] + LowerAll(s[1..])
  }

  predicate AllMixedDigits(s: string) {
    forall i :: 0 <= i < |s| ==> IsMixedDigit(s[i])
  }

  /** Base 16 into a u8; None when it does not fit. */
  function Radix16(s: string): Option<nat>
    requires AllMixedDigits(s)
  {
    if s == [] then Some(0)
    else
      var front := Radix16(s[..|s| - 1]);
      if front.None? || 16 * front.value > 0xFF then None
      else
        var n := 16 * front.value + DigitValue(Lower(s[|s| - 1]));
        if n > 0xFF then None else Some(n)
  }

  /** `u8::from_str_radix`: an optional plus sign, then one or more digits in either case. */
  function FromStrRadix(s: string): Option<nat> {
    var digits := if |s| > 1 && s[0] == '+' then s[1..] else s;
    if digits == [] || !AllMixedDigits(digits) then None else Radix16(digits)
  }

  /** `hex::decode` into 32 bytes, in either case. */
  function DecodePayload(s: string): Option<Digest> {
    if |s| != 64 || !AllMixedDigits(s) then None
    else
      assert IsHex(LowerAll(s));
      Some(Decode(LowerAll(s)))
  }

  function DecodeFields(fields: seq<string>): Option<Memo> {
    if |fields| != 3 || (fields[0] != MEMO_PREFIX && fields[0] != LEGACY_MEMO_PREFIX) then None
    else
      var memoType, payload := FromStrRadix(fields[1]), DecodePayload(fields[2]);
      if memoType.None? || memoType.value > 0xFF || !IsMemoType(memoType.value) || payload.None? then None
      else Some(Memo(memoType.value as byte, payload.value))
  }

  function DecodeMemo(s: string): Option<Memo> {
    DecodeFields(Split(s))
  }

  // ---------------------------------------------------------------------------------
  // Splitting and joining
  // ---------------------------------------------------------------------------------

  predicate HasNoColon(s: string) {
    forall i :: 0 <= i < |s| ==> s[i] != ':'
  }

  lemma {:induction false} SplitPlain(s: string)
    requires HasNoColon(s)
    ensures Split(s) == [s]
  {
    if s != [] {
      SplitPlain(s[1..]);
      assert [s[0]] + s[1..] == s;
    }
  }

  lemma {:induction false} SplitField(a: string, rest: string)
    requires HasNoColon(a)
    ensures Split(a + ":" + rest) == [a] + Split(rest)
  {
    var s := a + ":" + rest;
    if a == [] {
      assert s[1..] == rest;
    } else {
      SplitField(a[1..], rest);
      assert s[1..] == a[1..] + ":" + rest;
      assert [a[0]] + a[1..] == a;
    }
  }

  function Join(fields: seq<string>): string
    requires fields != []
  {
    if |fields| == 1 then fields[0] else fields[0] + ":" + Join(fields[1..])
  }

  lemma {:induction false} JoinSplit(s: string)
    ensures Join(Split(s)) == s
  {
    if s != [] {
      JoinSplit(s[1..]);
      var rest := Split(s[1..]);
      if s[0] == ':' {
        assert ([""] + rest)[1..] == rest;
        assert [] + ":" + s[1..] == s;
      } else {
        JoinFirst(s[0], rest);
        assert [s[0]] + s[1..] == s;
      }
    }
  }

  lemma JoinFirst(c: char, rest: seq<string>)
    requires rest != []
    ensures Join([[c] + rest[0]] + rest[1..]) == [c] + Join(rest)
  {
    var fields := [[c] + rest[0]] + rest[1..];
    assert fields[1..] == rest[1..];
    if |rest| > 1 {
      Assoc([c], rest[0], ":");
      Assoc([c], rest[0] + ":", Join(rest[1..]));
    }
  }

  lemma SplitEncoded(t: string, p: string)
    requires HasNoColon(t) && HasNoColon(p)
    ensures Split(MEMO_PREFIX + ":" + (t + ":" + p)) == [MEMO_PREFIX, t, p]
  {
    SplitField(MEMO_PREFIX, t + ":" + p);
    SplitField(t, p);
    SplitPlain(p);
  }

  lemma HexHasNoColon(s: string)
    requires forall i :: 0 <= i < |s| ==> IsDigit(s[i])
    ensures HasNoColon(s) && AllMixedDigits(s) && LowerAll(s) == s
  {}

  // ---------------------------------------------------------------------------------
  // Round trips
  // ---------------------------------------------------------------------------------

  lemma TwoDigits(high: char, low: char)
    requires IsDigit(high) && IsDigit(low)
    ensures FromStrRadix([high, low]) == Some(DecodeByte(high, low) as nat)
  {
    var s := [high, low];
    assert s[..1] == [high] && [high][..0] == [];
    assert Radix16([high]) == Some(DigitValue(high));
    assert Radix16(s) == Some(16 * DigitValue(high) + DigitValue(low));
  }

  lemma EncodedByte(x: byte)
    ensures FromStrRadix(EncodeByte(x)) == Some(x as nat) && HasNoColon(EncodeByte(x))
  {
    var s := EncodeByte(x);
    assert s == [s[0], s[1]];
    TwoDigits(s[0], s[1]);
    ByteRoundTrip(x);
  }

  lemma EncodedPayload(d: Digest)
    ensures DecodePayload(Encode(d)) == Some(d) && HasNoColon(Encode(d))
  {
    HexHasNoColon(Encode(d));
    DecodeInvertsEncode(d);
  }

  /** The 72 characters that are written: the prefix, the type and the payload, with colons between. */
  lemma WrittenMemoIs(m: Memo, i: nat)
    requires i < 32
    ensures var s := EncodeMemo(m);
      && |s| == 72 && s[..5] == "ZAP1:" && s[7] == ':'
      && s[5] == DIGITS[m.memoType as int / 16] && s[6] == DIGITS[m.memoType as int % 16]
      && s[8 + 2 * i] == DIGITS[m.payload[i] as int / 16] && s[9 + 2 * i] == DIGITS[m.payload[i] as int % 16]
  {
    EncodedAt([m.memoType], 0);
    EncodedAt(m.payload, i);
    assert Encode([m.memoType]) == EncodeByte(m.memoType) + Encode([]);
    var s := EncodeMemo(m);
    assert s[8..] == Encode(m.payload);
  }

  /** What is written is read back. */
  lemma MemoRoundTrip(m: Memo)
    requires IsMemoType(m.memoType as nat)
    ensures DecodeMemo(EncodeMemo(m)) == Some(m)
  {
    EncodedByte(m.memoType);
    EncodedPayload(m.payload);
    SplitEncoded(EncodeByte(m.memoType), Encode(m.payload));
  }

  /** The current prefix, two lowercase digits of type, and a lowercase payload. */
  predicate IsCanonical(fields: seq<string>) {
    |fields| == 3 && fields[0] == MEMO_PREFIX && |fields[1]| == 2 && IsHex(fields[1]) && IsHex(fields[2])
  }

  lemma CanonicalFields(fields: seq<string>, m: Memo)
    requires IsCanonical(fields) && DecodeFields(fields) == Some(m)
    ensures fields == [MEMO_PREFIX, EncodeByte(m.memoType), Encode(m.payload)]
  {
    var t, p := fields[1], fields[2];
    assert t == [t[0], t[1]];
    TwoDigits(t[0], t[1]);
    DigitsRoundTrip(t[0], t[1]);
    HexHasNoColon(p);
    EncodeInvertsDecode(p);
  }

  lemma JoinThree(a: string, b: string, c: string)
    ensures Join([a, b, c]) == a + ":" + (b + ":" + c)
  {
    assert [a, b, c][1..] == [b, c] && [b, c][1..] == [c];
    assert Join([c]) == c;
    assert Join([b, c]) == b + ":" + c;
  }

  /**
   When is what was read what would be written?  Exactly for the canonical spelling: the legacy
   prefix, capital digits, a plus sign and a type of another width are all read, but never written.
   */
  lemma ReadIsWrittenIff(s: string, m: Memo)
    requires DecodeMemo(s) == Some(m)
    ensures EncodeMemo(m) == s <==> IsCanonical(Split(s))
  {
    JoinSplit(s);
    if IsCanonical(Split(s)) {
      CanonicalFields(Split(s), m);
      JoinThree(MEMO_PREFIX, EncodeByte(m.memoType), Encode(m.payload));
    }
    if EncodeMemo(m) == s {
      WrittenIsCanonical(m);
    }
  }

  /** A memo under the legacy prefix is read, and written back under the current one. */
  lemma LegacyPrefixIsRead(m: Memo)
    requires IsMemoType(m.memoType as nat)
    ensures var s := LEGACY_MEMO_PREFIX + ":" + (EncodeByte(m.memoType) + ":" + Encode(m.payload));
      DecodeMemo(s) == Some(m) && EncodeMemo(m) != s
  {
    var t, p := EncodeByte(m.memoType), Encode(m.payload);
    var s := LEGACY_MEMO_PREFIX + ":" + (t + ":" + p);
    EncodedByte(m.memoType);
    EncodedPayload(m.payload);
    SplitField(LEGACY_MEMO_PREFIX, t + ":" + p);
    SplitField(t, p);
    SplitPlain(p);
    assert Split(s) == [LEGACY_MEMO_PREFIX, t, p];
    assert s[0] == 'N' && EncodeMemo(m)[0] == 'Z';
  }

  lemma WrittenIsCanonical(m: Memo)
    ensures IsCanonical(Split(EncodeMemo(m)))
  {
    var t := EncodeByte(m.memoType);
    EncodedByte(m.memoType);
    EncodedPayload(m.payload);
    SplitEncoded(t, Encode(m.payload));
  }

  // ---------------------------------------------------------------------------------
  // Every spelling that is read
  // ---------------------------------------------------------------------------------

  /** The number that digits of either case stand for. */
  function NumberOf(s: string): nat
    requires AllMixedDigits(s)
  {
    if s == [] then 0 else 16 * NumberOf(s[..|s| - 1]) + DigitValue(Lower(s[|s| - 1]))
  }

  lemma {:induction false} Radix16Is(s: string)
    requires AllMixedDigits(s)
    ensures Radix16(s) == if NumberOf(s) <= 0xFF then Some(NumberOf(s)) else None
  {
    if s != [] {
      Radix16Is(s[..|s| - 1]);
    }
  }

  /** A prefix, a type with or without a plus sign, and 64 digits, of either case, with colons between. */
  predicate IsSpelling(s: string, m: Memo, prefix: string, sign: string, digits: string, payload: string) {
    && s == prefix + ":" + (sign + digits + ":" + payload)
    && (prefix == "ZAP1" || prefix == "NSM1") && (sign == "" || sign == "+")
    && digits != [] && AllMixedDigits(digits) && NumberOf(digits) == m.memoType as nat
    && (0x01 <= m.memoType <= 0x0F || 0x40 <= m.memoType <= 0x42)
    && |payload| == 64 && AllMixedDigits(payload) && IsHex(LowerAll(payload)) && Decode(LowerAll(payload)) == m.payload
  }

  lemma SpelledNumber(sign: string, digits: string)
    requires digits != [] && AllMixedDigits(digits) && (sign == "" || sign == "+")
    ensures FromStrRadix(sign + digits) == if NumberOf(digits) <= 0xFF then Some(NumberOf(digits)) else None
    ensures HasNoColon(sign + digits) && HasNoColon(digits)
  {
    Radix16Is(digits);
    if sign == "" {
      assert sign + digits == digits;
    } else {
      assert (sign + digits)[1..] == digits;
    }
  }

  predicate IsNumber(s: string, sign: string, digits: string) {
    s == sign + digits && (sign == "" || sign == "+") && digits != [] && AllMixedDigits(digits)
  }

  lemma NumberIsSpelled(s: string)
    requires FromStrRadix(s).Some?
    ensures exists sign, digits :: IsNumber(s, sign, digits) && FromStrRadix(s) == Some(NumberOf(digits))
  {
    if |s| > 1 && s[0] == '+' {
      assert IsNumber(s, "+", s[1..]);
      Radix16Is(s[1..]);
    } else {
      assert IsNumber(s, "", s);
      Radix16Is(s);
    }
  }

  lemma SpellingIsRead(s: string, m: Memo, prefix: string, sign: string, digits: string, payload: string)
    requires IsSpelling(s, m, prefix, sign, digits, payload)
    ensures DecodeMemo(s) == Some(m)
  {
    SpelledNumber(sign, digits);
    var t := sign + digits;
    hide NumberOf, Radix16, FromStrRadix, Split, Decode;
    assert HasNoColon(prefix) && HasNoColon(payload);
    SplitField(prefix, t + ":" + payload);
    SplitField(t, payload);
    SplitPlain(payload);
    assert Split(s) == [prefix, t, payload];
  }

  lemma ReadIsSpelled(s: string, m: Memo)
    requires DecodeMemo(s) == Some(m)
    ensures exists prefix, sign, digits, payload :: IsSpelling(s, m, prefix, sign, digits, payload)
  {
    var fields := Split(s);
    JoinSplit(s);
    assert fields == [fields[0], fields[1], fields[2]];
    JoinThree(fields[0], fields[1], fields[2]);
    NumberIsSpelled(fields[1]);
    hide Split, Join, Radix16, FromStrRadix, Decode, NumberOf;
    var sign, digits :| IsNumber(fields[1], sign, digits) && FromStrRadix(fields[1]) == Some(NumberOf(digits));
    assert IsSpelling(s, m, fields[0], sign, digits, fields[2]);
  }

  /** Which texts are read, and as which memo. */
  lemma DecodeMemoIff(s: string, m: Memo)
    ensures DecodeMemo(s) == Some(m)
       <==> exists prefix, sign, digits, payload :: IsSpelling(s, m, prefix, sign, digits, payload)
  {
    hide IsSpelling, DecodeMemo;
    if DecodeMemo(s) == Some(m) {
      ReadIsSpelled(s, m);
    }
    forall prefix, sign, digits, payload | IsSpelling(s, m, prefix, sign, digits, payload) ensures DecodeMemo(s) == Some(m) {
      SpellingIsRead(s, m, prefix, sign, digits, payload);
    }
  }
}
