/**
 src/zip302.rs: the TVLV memo container of the ZIP 302 draft, and the compactSize integers
 it is built from.
 */
module Tvlv {
  import opened Bytes
  import opened Results

  datatype Error = NotTvlv | Truncated | InvalidCompactSize | DuplicatePartType(t: nat) | NonZeroPadding | MemoTooLarge

  const MARKER: byte := 0xF7
  const MAX_MEMO_PRE231 := 512
  const MAX_MEMO_POST231 := 16384

  // ---------------------------------------------------------------------------------
  // compactSize
  // ---------------------------------------------------------------------------------

  function EncodeCompactSize(n: nat): (b: ByteString)
    requires n <= MAX_U64
    ensures 1 <= |b| <= 9
  {
    if n <= 252 then [n as byte]
    else if n <= MAX_U16 then [0xFD] + LittleEndian(n, 2)
    else if n <= MAX_U32 then [0xFE] + LittleEndian(n, 4)
    else [0xFF] + LittleEndian(n, 8)
  }

  /** A value read from the front of some data, and the number of bytes it took. */
  datatype Read = Read(value: nat, size: nat)

  function ReadWide(data: ByteString, w: nat, least: nat): Result<Read, Error> {
    if |data| < w + 1 then Err(Truncated)
    else
      var v := FromLittleEndian(data[1..w + 1]);
      if v < least then Err(InvalidCompactSize) else Ok(Read(v, w + 1))
  }

  function DecodeCompactSize(data: ByteString): (r: Result<Read, Error>)
    ensures r.Ok? ==> 1 <= r.value.size <= |data|
  {
    if data == [] then Err(Truncated)
    else if data[0] <= 252 then Ok(Read(data[0] as nat, 1))
    else if data[0] == 0xFD then ReadWide(data, 2, 253)
    else if data[0] == 0xFE then ReadWide(data, 4, 0x1_0000)
    else ReadWide(data, 8, 0x1_0000_0000)
  }

  lemma ReadWideInverts(n: nat, w: nat, tag: byte, least: nat, rest: ByteString)
    requires least <= n < Capacity(w)
    ensures ReadWide([tag] + LittleEndian(n, w) + rest, w, least) == Ok(Read(n, w + 1))
  {
    var data := [tag] + LittleEndian(n, w) + rest;
    assert data[1..w + 1] == LittleEndian(n, w);
    LittleEndianRoundTrip(n, w);
  }

  /** Reading back what was written, whatever follows it. */
  lemma CompactSizeRoundTrip(n: nat, rest: ByteString)
    requires n <= MAX_U64
    ensures DecodeCompactSize(EncodeCompactSize(n) + rest) == Ok(Read(n, |EncodeCompactSize(n)|))
  {
    CapacityValues();
    if n > MAX_U32 {
      ReadWideInverts(n, 8, 0xFF, 0x1_0000_0000, rest);
    } else if n > MAX_U16 {
      ReadWideInverts(n, 4, 0xFE, 0x1_0000, rest);
    } else if n > 252 {
      ReadWideInverts(n, 2, 0xFD, 253, rest);
    }
  }

  /** The encoding is canonical: what is read is what would have been written. */
  lemma CompactSizeCanonical(data: ByteString)
    requires DecodeCompactSize(data).Ok?
    ensures var r := DecodeCompactSize(data).value;
      r.value <= MAX_U64 && r.size <= |data| && EncodeCompactSize(r.value) == data[..r.size]
  {
    CapacityValues();
    var r := DecodeCompactSize(data).value;
    if r.size > 1 {
      FromLittleEndianRoundTrip(data[1..r.size]);
      assert data[..r.size] == [data[0]] + data[1..r.size];
    }
  }

  /** No encoding is a proper prefix of another. */
  lemma CompactSizePrefixFree(m: nat, n: nat, x: ByteString, y: ByteString)
    requires m <= MAX_U64 && n <= MAX_U64
    requires EncodeCompactSize(m) + x == EncodeCompactSize(n) + y
    ensures m == n && x == y
  {
    CompactSizeRoundTrip(m, x);
    CompactSizeRoundTrip(n, y);
    SplitAt(EncodeCompactSize(m), EncodeCompactSize(n), x, y);
  }

  // ---------------------------------------------------------------------------------
  // The container
  // ---------------------------------------------------------------------------------

  /** `partType` is a u16 and `version` a u8. */
  datatype Part = Part(partType: nat, version: nat, value: ByteString)

  /** Parts that the encoder accepts by the types of its arguments. */
  predicate Typed(p: Part) {
    p.partType <= MAX_U16 && p.version <= 0xFF && |p.value| <= MAX_U64
  }

  predicate AllTyped(parts: seq<Part>) {
    forall p :: p in parts ==> Typed(p)
  }

  /** What a compactSize can carry, before the decoder's casts. */
  predicate Wide(p: Part) {
    p.partType <= MAX_U64 && p.version <= MAX_U64 && |p.value| <= MAX_U64
  }

  function PartBytes(p: Part): ByteString
    requires Wide(p)
  {
    EncodeCompactSize(p.partType) + EncodeCompactSize(p.version) + EncodeCompactSize(|p.value|) + p.value
  }

  function Body(parts: seq<Part>): ByteString
    requires AllTyped(parts)
  {
    if parts == [] then []
    else
      assert Typed(parts[0]);
      PartBytes(parts[0]) + Body(parts[1..])
  }

  /** The marker, the parts, and the end marker. */
  function Frame(parts: seq<Part>): ByteString
    requires AllTyped(parts)
  {
    [MARKER] + Body(parts) + [0]
  }

  function PadTo512(b: ByteString): ByteString {
    if |b| < MAX_MEMO_PRE231 then b + Zeros(MAX_MEMO_PRE231 - |b|) else b
  }

  method EncodeTvlv(parts: seq<Part>) returns (out: ByteString)
    requires AllTyped(parts)
    ensures out == PadTo512(Frame(parts))
    ensures |out| >= 512 && (|out| == 512 || |out| == |Frame(parts)|) && out[0] == 0xF7
    ensures Frame(parts) <= out && forall i :: |Frame(parts)| <= i < |out| ==> out[i] == 0
  {
    out := [MARKER];
    var i := 0;
    while i < |parts|
      invariant 0 <= i <= |parts|
      invariant out + Body(parts[i..]) == [MARKER] + Body(parts)
    {
      assert parts[i] in parts;
      assert parts[i..][1..] == parts[i + 1..];
      Assoc(out, PartBytes(parts[i]), Body(parts[i + 1..]));
      var part := EncodeCompactSize(parts[i].partType);
      part := part + EncodeCompactSize(parts[i].version);
      part := part + EncodeCompactSize(|parts[i].value|);
      part := part + parts[i].value;
      out := out + part;
      i := i + 1;
    }
    assert Body(parts[i..]) == [];
    out := out + [0];
    if |out| < MAX_MEMO_PRE231 {
      out := out + Zeros(MAX_MEMO_PRE231 - |out|);
    }
  }

  /** What decoding can come to: parts, an error, or a failed slice (`pos + len` overflows). */
  datatype Outcome = Parts(parts: seq<Part>) | Failed(error: Error) | Panic

  predicate AllZero(b: ByteString) {
    forall i :: 0 <= i < |b| ==> b[i] == 0
  }

  /** The version, the value and the end of a part whose type has been read. */
  datatype Remainder = Remainder(version: nat, value: ByteString, end: nat) | Stop(error: Error) | Overflow

  function ReadRemainder(data: ByteString, pos: nat): (r: Remainder)
    requires pos <= |data|
    ensures r.Remainder? ==> pos < r.end <= |data|
  {
    var version := DecodeCompactSize(data[pos..]);
    if version.Err? then Stop(version.error)
    else
      var p := pos + version.value.size;
      var len := DecodeCompactSize(data[p..]);
      if len.Err? then Stop(len.error)
      else
        var q := p + len.value.size;
        if q + len.value.value > MAX_U64 then Overflow
        else if q + len.value.value > |data| then Stop(Truncated)
        else Remainder(version.value.value, data[q..q + len.value.value], q + len.value.value)
  }

  function Prepend(parts: seq<Part>, o: Outcome): Outcome {
    if o.Parts? then Parts(parts + o.parts) else o
  }

  /** One turn of the decoding loop: finished, or one more part and the offset after it. */
  datatype Turn = Done(outcome: Outcome) | More(part: Part, end: nat)

  /** `as u16` and `as u8` drop the high bits of the type and the version. */
  function DecodeTurn(data: ByteString, pos: nat, seen: set<nat>): (r: Turn)
    requires pos <= |data|
    ensures r.More? ==> pos < r.end <= |data|
  {
    var t := DecodeCompactSize(data[pos..]);
    if t.Err? then Done(Failed(t.error))
    else
      var p := pos + t.value.size;
      var partType := t.value.value % 0x1_0000;
      if t.value.value == 0 then
        Done(if AllZero(data[p..]) then Parts([]) else Failed(NonZeroPadding))
      else if partType in seen then Done(Failed(DuplicatePartType(partType)))
      else
        match ReadRemainder(data, p)
        case Stop(e) => Done(Failed(e))
        case Overflow => Done(Panic)
        case Remainder(version, value, end) => More(Part(partType, version % 0x100, value), end)
  }

  function DecodeFrom(data: ByteString, pos: nat, seen: set<nat>): Outcome
    requires pos <= |data|
    decreases |data| - pos
  {
    match DecodeTurn(data, pos, seen)
    case Done(o) => o
    case More(part, end) => Prepend([part], DecodeFrom(data, end, seen + {part.partType}))
  }

  function Decoded(data: ByteString): Outcome {
    if data == [] || data[0] != MARKER then Failed(NotTvlv)
    else if |data| > MAX_MEMO_POST231 then Failed(MemoTooLarge)
    else DecodeFrom(data, 1, {})
  }

  method PaddingIsZero(data: ByteString, p: nat) returns (zero: bool)
    requires p <= |data|
    ensures zero == AllZero(data[p..])
  {
    var i := p;
    while i < |data|
      invariant p <= i <= |data|
      invariant forall j :: p <= j < i ==> data[j] == 0
    {
      if data[i] != 0 {
        assert data[p..][i - p] != 0;
        return false;
      }
      i := i + 1;
    }
    return true;
  }

  method Turned(data: ByteString, pos: nat, seen: set<nat>) returns (r: Turn)
    requires pos <= |data|
    ensures r == DecodeTurn(data, pos, seen)
  {
    if pos >= |data| {
      return Done(Failed(Truncated));
    }
    var t := DecodeCompactSize(data[pos..]);
    if t.Err? {
      return Done(Failed(t.error));
    }
    var p := pos + t.value.size;
    if t.value.value == 0 {
      var zero := PaddingIsZero(data, p);
      return Done(if zero then Parts([]) else Failed(NonZeroPadding));
    }
    var partType := t.value.value % 0x1_0000;
    if partType in seen {
      return Done(Failed(DuplicatePartType(partType)));
    }
    var rest := ReadRemainder(data, p);
    match rest {
      case Stop(e) => r := Done(Failed(e));
      case Overflow => r := Done(Panic);
      case Remainder(version, value, end) => r := More(Part(partType, version % 0x100, value), end);
    }
  }

  method DecodeTvlv(data: ByteString) returns (o: Outcome)
    ensures o == Decoded(data)
  {
    if data == [] || data[0] != MARKER {
      return Failed(NotTvlv);
    }
    if |data| > MAX_MEMO_POST231 {
      return Failed(MemoTooLarge);
    }
    var pos := 1;
    var parts: seq<Part> := [];
    var seen: set<nat> := {};
    while true
      invariant 1 <= pos <= |data|
      invariant Prepend(parts, DecodeFrom(data, pos, seen)) == Decoded(data)
      decreases |data| - pos
    {
      var turn := Turned(data, pos, seen);
      if turn.Done? {
        return Prepend(parts, turn.outcome);
      }
      PrependTwice(parts, [turn.part], DecodeFrom(data, turn.end, seen + {turn.part.partType}));
      parts := parts + [turn.part];
      seen := seen + {turn.part.partType};
      pos := turn.end;
    }
  }

  lemma PrependTwice(a: seq<Part>, b: seq<Part>, o: Outcome)
    ensures Prepend(a, Prepend(b, o)) == Prepend(a + b, o)
  {
    if o.Parts? {
      Assoc(a, b, o.parts);
    }
  }

  // ---------------------------------------------------------------------------------
  // Round trips
  // ---------------------------------------------------------------------------------

  predicate DistinctTypes(parts: seq<Part>) {
    forall i, j :: 0 <= i < j < |parts| ==> parts[i].partType != parts[j].partType
  }

  predicate NonZeroTypes(parts: seq<Part>) {
    forall p :: p in parts ==> p.partType != 0
  }

  predicate FreshTypes(parts: seq<Part>, seen: set<nat>) {
    forall p :: p in parts ==> p.partType !in seen
  }

  lemma ReadAt(data: ByteString, pos: nat, n: nat, rest: ByteString)
    requires pos <= |data| && n <= MAX_U64
    requires data[pos..] == EncodeCompactSize(n) + rest
    ensures DecodeCompactSize(data[pos..]) == Ok(Read(n, |EncodeCompactSize(n)|))
    ensures data[pos + |EncodeCompactSize(n)|..] == rest
  {
    CompactSizeRoundTrip(n, rest);
    DropPrefix(data, pos, EncodeCompactSize(n), rest);
  }

  lemma DropPrefix(data: ByteString, pos: nat, a: ByteString, rest: ByteString)
    requires pos <= |data| && data[pos..] == a + rest
    ensures pos + |a| <= |data| && data[pos + |a|..] == rest && data[pos..pos + |a|] == a
  {
    assert data[pos..][|a|..] == data[pos + |a|..];
    assert data[pos..][..|a|] == data[pos..pos + |a|];
  }

  lemma ReadRemainderBack(data: ByteString, pos: nat, part: Part, rest: ByteString)
    requires |data| <= MAX_U64 && pos <= |data|
    requires part.version <= MAX_U64 && |part.value| <= MAX_U64
    requires data[pos..] == EncodeCompactSize(part.version) + (EncodeCompactSize(|part.value|) + (part.value + rest))
    ensures var end := pos + |EncodeCompactSize(part.version)| + |EncodeCompactSize(|part.value|)| + |part.value|;
      end <= |data| && data[end..] == rest && ReadRemainder(data, pos) == Remainder(part.version, part.value, end)
  {
    hide DecodeCompactSize, EncodeCompactSize;
    var v, l := EncodeCompactSize(part.version), EncodeCompactSize(|part.value|);
    ReadAt(data, pos, part.version, l + (part.value + rest));
    ReadAt(data, pos + |v|, |part.value|, part.value + rest);
    DropPrefix(data, pos + |v| + |l|, part.value, rest);
  }

  /** Reading one part back. */
  lemma ReadPartBack(data: ByteString, pos: nat, seen: set<nat>, part: Part, rest: ByteString)
    requires |data| <= MAX_U64 && pos <= |data|
    requires Typed(part) && part.partType != 0 && part.partType !in seen
    requires data[pos..] == PartBytes(part) + rest
    ensures pos + |PartBytes(part)| <= |data| && data[pos + |PartBytes(part)|..] == rest
    ensures DecodeTurn(data, pos, seen) == More(part, pos + |PartBytes(part)|)
  {
    hide DecodeCompactSize, EncodeCompactSize;
    var t, v := EncodeCompactSize(part.partType), EncodeCompactSize(part.version);
    var l := EncodeCompactSize(|part.value|);
    PartBytesThen(part, rest);
    ReadAt(data, pos, part.partType, v + (l + (part.value + rest)));
    ReadRemainderBack(data, pos + |t|, part, rest);
  }

  lemma PartBytesThen(part: Part, rest: ByteString)
    requires Wide(part)
    ensures PartBytes(part) + rest == EncodeCompactSize(part.partType) + (EncodeCompactSize(part.version)
         + (EncodeCompactSize(|part.value|) + (part.value + rest)))
  {
    var t, v, l := EncodeCompactSize(part.partType), EncodeCompactSize(part.version), EncodeCompactSize(|part.value|);
    Assoc(t + v + l, part.value, rest);
    Assoc(t + v, l, part.value + rest);
    Assoc(t, v, l + (part.value + rest));
  }

  lemma RestOfParts(parts: seq<Part>, seen: set<nat>)
    requires parts != []
    requires AllTyped(parts) && NonZeroTypes(parts) && DistinctTypes(parts) && FreshTypes(parts, seen)
    ensures Typed(parts[0]) && parts[0].partType != 0 && parts[0].partType !in seen
    ensures AllTyped(parts[1..]) && NonZeroTypes(parts[1..]) && DistinctTypes(parts[1..])
    ensures FreshTypes(parts[1..], seen + {parts[0].partType})
  {
    assert parts[0] in parts;
    forall p | p in parts[1..] ensures p.partType != parts[0].partType && p in parts {
      var i :| 0 <= i < |parts[1..]| && parts[1..][i] == p;
      assert parts[0].partType != parts[i + 1].partType;
    }
  }

  lemma EndTurn(data: ByteString, pos: nat, seen: set<nat>, padding: nat)
    requires pos < |data| && DecodeCompactSize(data[pos..]) == Ok(Read(0, 1)) && data[pos + 1..] == Zeros(padding)
    ensures DecodeTurn(data, pos, seen) == Done(Parts([]))
  {
    hide DecodeCompactSize;
  }

  lemma {:induction false} DecodeBody(data: ByteString, pos: nat, seen: set<nat>, parts: seq<Part>, padding: nat)
    requires |data| <= MAX_U64 && pos <= |data|
    requires AllTyped(parts) && NonZeroTypes(parts) && DistinctTypes(parts) && FreshTypes(parts, seen)
    requires data[pos..] == Body(parts) + ([0] + Zeros(padding))
    ensures DecodeFrom(data, pos, seen) == Parts(parts)
    decreases |parts|
  {
    hide DecodeCompactSize, DecodeTurn;
    if parts == [] {
      assert data[pos..] == EncodeCompactSize(0) + Zeros(padding);
      ReadAt(data, pos, 0, Zeros(padding));
      EndTurn(data, pos, seen, padding);
    } else {
      var part, rest := parts[0], parts[1..];
      RestOfParts(parts, seen);
      Assoc(PartBytes(part), Body(rest), [0] + Zeros(padding));
      ReadPartBack(data, pos, seen, part, Body(rest) + ([0] + Zeros(padding)));
      DecodeBody(data, pos + |PartBytes(part)|, seen + {part.partType}, rest, padding);
      assert parts == [part] + rest;
    }
  }

  /**
   What `encode_tvlv` writes, `decode_tvlv` reads back: for parts of distinct non-zero types
   and an encoding within the size limit.
   */
  lemma TvlvRoundTrip(parts: seq<Part>)
    requires AllTyped(parts) && NonZeroTypes(parts) && DistinctTypes(parts)
    requires |Frame(parts)| <= MAX_MEMO_POST231
    ensures Decoded(PadTo512(Frame(parts))) == Parts(parts)
  {
    var data := PadTo512(Frame(parts));
    var padding := |data| - |Frame(parts)|;
    assert data == [MARKER] + (Body(parts) + ([0] + Zeros(padding)));
    DropPrefix(data, 0, [MARKER], Body(parts) + ([0] + Zeros(padding)));
    DecodeBody(data, 1, {}, parts, padding);
  }

  // The reverse direction: when is what was decoded what would have been written?

  lemma PartPrefixFree(p: Part, q: Part, x: ByteString, y: ByteString)
    requires Wide(p) && Wide(q) && PartBytes(p) + x == PartBytes(q) + y
    ensures p == q && x == y
  {
    PartBytesThen(p, x);
    PartBytesThen(q, y);
    var pv, qv := EncodeCompactSize(|p.value|) + (p.value + x), EncodeCompactSize(|q.value|) + (q.value + y);
    CompactSizePrefixFree(p.partType, q.partType,
      EncodeCompactSize(p.version) + pv, EncodeCompactSize(q.version) + qv);
    CompactSizePrefixFree(p.version, q.version, pv, qv);
    CompactSizePrefixFree(|p.value|, |q.value|, p.value + x, q.value + y);
    SplitAt(p.value, q.value, x, y);
  }

  /** The part that a turn reads, before the casts. */
  function WidePart(data: ByteString, pos: nat, seen: set<nat>): Part
    requires pos <= |data| && DecodeTurn(data, pos, seen).More?
  {
    var t := DecodeCompactSize(data[pos..]).value;
    var r := ReadRemainder(data, pos + t.size);
    Part(t.value, r.version, r.value)
  }

  lemma TakePrefix(data: ByteString, pos: nat)
    requires pos <= |data| && DecodeCompactSize(data[pos..]).Ok?
    ensures var r := DecodeCompactSize(data[pos..]).value;
      r.value <= MAX_U64 && data[pos..] == EncodeCompactSize(r.value) + data[pos + r.size..]
  {
    CompactSizeCanonical(data[pos..]);
    var r := DecodeCompactSize(data[pos..]).value;
    assert data[pos..][r.size..] == data[pos + r.size..];
    assert data[pos..] == data[pos..][..r.size] + data[pos..][r.size..];
  }

  lemma RemainderBytes(data: ByteString, pos: nat)
    requires pos <= |data| && |data| <= MAX_U64 && ReadRemainder(data, pos).Remainder?
    ensures var r := ReadRemainder(data, pos);
      && r.version <= MAX_U64 && |r.value| <= MAX_U64
      && data[pos..] == EncodeCompactSize(r.version) + (EncodeCompactSize(|r.value|) + (r.value + data[r.end..]))
  {
    hide DecodeCompactSize, EncodeCompactSize;
    var r := ReadRemainder(data, pos);
    TakePrefix(data, pos);
    var p := pos + DecodeCompactSize(data[pos..]).value.size;
    TakePrefix(data, p);
    var q := p + DecodeCompactSize(data[p..]).value.size;
    assert data[q..] == data[q..r.end] + data[r.end..];
  }

  lemma TurnReads(data: ByteString, pos: nat, seen: set<nat>) returns (t: Read, p: nat)
    requires pos <= |data| && DecodeTurn(data, pos, seen).More?
    ensures DecodeCompactSize(data[pos..]) == Ok(t) && p == pos + t.size <= |data|
    ensures ReadRemainder(data, p).Remainder?
    ensures WidePart(data, pos, seen) == Part(t.value, ReadRemainder(data, p).version, ReadRemainder(data, p).value)
    ensures DecodeTurn(data, pos, seen)
         == More(Part(t.value % 0x1_0000, ReadRemainder(data, p).version % 0x100, ReadRemainder(data, p).value),
                 ReadRemainder(data, p).end)
  {
    hide DecodeCompactSize, EncodeCompactSize;
    t := DecodeCompactSize(data[pos..]).value;
    p := pos + t.size;
  }

  lemma WidePartBytes(data: ByteString, pos: nat, seen: set<nat>)
    requires pos <= |data| <= MAX_U64 && DecodeTurn(data, pos, seen).More?
    ensures Wide(WidePart(data, pos, seen))
    ensures data[pos..] == PartBytes(WidePart(data, pos, seen)) + data[DecodeTurn(data, pos, seen).end..]
  {
    hide DecodeCompactSize, EncodeCompactSize;
    var t, p := TurnReads(data, pos, seen);
    TakePrefix(data, pos);
    RemainderBytes(data, p);
    PartBytesThen(WidePart(data, pos, seen), data[DecodeTurn(data, pos, seen).end..]);
  }

  /** No cast dropped a bit: every type read is below 2^16 and every version below 2^8. */
  predicate Untruncated(data: ByteString, pos: nat, seen: set<nat>)
    requires pos <= |data|
    decreases |data| - pos
  {
    match DecodeTurn(data, pos, seen)
    case Done(_) => true
    case More(part, end) =>
      var wide := WidePart(data, pos, seen);
      wide.partType <= MAX_U16 && wide.version <= 0xFF && Untruncated(data, end, seen + {part.partType})
  }

  lemma TurnUntruncated(data: ByteString, pos: nat, seen: set<nat>, part: Part, end: nat)
    requires pos <= |data| <= MAX_U64 && DecodeTurn(data, pos, seen) == More(part, end)
    ensures Typed(part)
    ensures Untruncated(data, pos, seen)
       <==> WidePart(data, pos, seen) == part && Untruncated(data, end, seen + {part.partType})
  {
    hide DecodeCompactSize, EncodeCompactSize;
    var t, p := TurnReads(data, pos, seen);
    RemainderBytes(data, p);
  }

  lemma TurnDecodes(data: ByteString, pos: nat, seen: set<nat>, part: Part, end: nat, parts: seq<Part>)
    returns (rest: seq<Part>)
    requires pos <= |data| && DecodeTurn(data, pos, seen) == More(part, end)
    requires DecodeFrom(data, pos, seen) == Parts(parts)
    ensures DecodeFrom(data, end, seen + {part.partType}) == Parts(rest) && parts == [part] + rest
  {
    rest := DecodeFrom(data, end, seen + {part.partType}).parts;
  }

  /** b is these parts, the end marker, and zero padding. */
  predicate IsBodyOf(b: ByteString, parts: seq<Part>)
    requires AllTyped(parts)
  {
    |Body(parts)| < |b| && b == Body(parts) + ([0] + Zeros(|b| - |Body(parts)| - 1))
  }

  lemma AllZeroIsZeros(b: ByteString)
    requires AllZero(b)
    ensures b == Zeros(|b|)
  {}

  lemma EndIsBody(data: ByteString, pos: nat, seen: set<nat>)
    requires pos <= |data| && DecodeTurn(data, pos, seen) == Done(Parts([]))
    ensures IsBodyOf(data[pos..], [])
  {
    TakePrefix(data, pos);
    assert DecodeCompactSize(data[pos..]).value.value == 0;
    AllZeroIsZeros(data[pos + 1..]);
  }

  lemma BodyStep(b: ByteString, wide: Part, rest: ByteString, part: Part, parts: seq<Part>)
    requires Wide(wide) && b == PartBytes(wide) + rest
    requires Typed(part) && AllTyped(parts)
    ensures AllTyped([part] + parts)
    ensures IsBodyOf(b, [part] + parts) <==> wide == part && IsBodyOf(rest, parts)
  {
    assert forall p :: p in [part] + parts ==> p == part || p in parts;
    assert ([part] + parts)[1..] == parts;
    var body := Body([part] + parts);
    assert body == PartBytes(part) + Body(parts);
    if IsBodyOf(b, [part] + parts) {
      var padding := [0] + Zeros(|b| - |body| - 1);
      Assoc(PartBytes(part), Body(parts), padding);
      PartPrefixFree(wide, part, rest, Body(parts) + padding);
    }
    if wide == part && IsBodyOf(rest, parts) {
      Assoc(PartBytes(part), Body(parts), [0] + Zeros(|rest| - |Body(parts)| - 1));
    }
  }

  lemma {:induction false} DecodedFromIsBodyIff(data: ByteString, pos: nat, seen: set<nat>, parts: seq<Part>)
    requires pos <= |data| <= MAX_U64 && DecodeFrom(data, pos, seen) == Parts(parts)
    ensures AllTyped(parts)
    ensures IsBodyOf(data[pos..], parts) <==> Untruncated(data, pos, seen)
    decreases |data| - pos
  {
    match DecodeTurn(data, pos, seen) {
      case Done(_) =>
        EndIsBody(data, pos, seen);
      case More(part, end) =>
        var rest := TurnDecodes(data, pos, seen, part, end, parts);
        DecodedFromIsBodyIff(data, end, seen + {part.partType}, rest);
        TurnUntruncated(data, pos, seen, part, end);
        WidePartBytes(data, pos, seen);
        BodyStep(data[pos..], WidePart(data, pos, seen), data[end..], part, rest);
    }
  }

  lemma FrameThenZeros(parts: seq<Part>, n: nat)
    requires AllTyped(parts)
    ensures Frame(parts) + Zeros(n) == [MARKER] + (Body(parts) + ([0] + Zeros(n)))
  {
    Assoc([MARKER] + Body(parts), [0], Zeros(n));
    Assoc([MARKER], Body(parts), [0] + Zeros(n));
  }

  /** The bytes are the frame of these parts and then zeros. */
  predicate IsFrameOf(data: ByteString, parts: seq<Part>)
    requires AllTyped(parts)
  {
    |Frame(parts)| <= |data| && data == Frame(parts) + Zeros(|data| - |Frame(parts)|)
  }

  lemma FrameIffBody(data: ByteString, parts: seq<Part>)
    requires AllTyped(parts) && data != [] && data[0] == MARKER
    ensures IsFrameOf(data, parts) <==> IsBodyOf(data[1..], parts)
  {
    var n := |data| - |Frame(parts)|;
    assert data == [MARKER] + data[1..];
    if n >= 0 {
      FrameThenZeros(parts, n);
      if IsFrameOf(data, parts) {
        SplitAt([MARKER], [MARKER], data[1..], Body(parts) + ([0] + Zeros(n)));
      }
    }
  }

  /**
   A decoded memo is the frame of its parts followed by zeros exactly when no type or version
   was cut down by a cast.
   */
  lemma DecodedIsFrameIff(data: ByteString, parts: seq<Part>)
    requires Decoded(data) == Parts(parts)
    ensures AllTyped(parts)
    ensures IsFrameOf(data, parts) <==> Untruncated(data, 1, {})
  {
    DecodedFromIsBodyIff(data, 1, {}, parts);
    FrameIffBody(data, parts);
  }

  /** Type 0x10000 is cut down to 0, a type the encoder cannot write before the end of a memo. */
  lemma TruncationExample(data: ByteString)
    requires data == [MARKER, 0xFE, 0x00, 0x00, 0x01, 0x00, 0x00, 0x00, 0x00]
    ensures Decoded(data) == Parts([Part(0, 0, [])]) && !Untruncated(data, 1, {})
  {
    var t := data[1..];
    assert t[1..5] == [0x00, 0x00, 0x01, 0x00];
    assert FromLittleEndian([0x00]) == 0;
    assert FromLittleEndian([0x01, 0x00]) == 1;
    assert FromLittleEndian([0x00, 0x01, 0x00]) == 0x100;
    assert FromLittleEndian([0x00, 0x00, 0x01, 0x00]) == 0x1_0000;
    assert DecodeCompactSize(t) == Ok(Read(0x1_0000, 5));
    assert ReadRemainder(data, 6) == Remainder(0, [], 8);
    assert DecodeTurn(data, 1, {}) == More(Part(0, 0, []), 8);
    assert {} + {0} == {0 as nat};
    assert DecodeFrom(data, 8, {0}) == Parts([]);
  }

  // ---------------------------------------------------------------------------------
  // When decoding panics
  // ---------------------------------------------------------------------------------

  /** A length field and the offset of the bytes that it counts. */
  datatype Length = Length(value: nat, start: nat)

  /** The length field of the part that begins here, when nothing stops the parse before it. */
  function LengthField(data: ByteString, pos: nat, seen: set<nat>): (l: Option<Length>)
    requires pos <= |data|
    ensures l.Some? ==> l.value.start <= |data|
  {
    var t := DecodeCompactSize(data[pos..]);
    if t.Err? || t.value.value == 0 || t.value.value % 0x1_0000 in seen then None
    else
      var p := pos + t.value.size;
      var version := DecodeCompactSize(data[p..]);
      if version.Err? then None
      else
        var q := p + version.value.size;
        var len := DecodeCompactSize(data[q..]);
        if len.Err? then None else Some(Length(len.value.value, q + len.value.size))
  }

  /** The parse that stands here gets to this length field, in this part or in a later one. */
  predicate ReachesLength(data: ByteString, pos: nat, seen: set<nat>, l: Length)
    requires pos <= |data|
    decreases |data| - pos
  {
    || LengthField(data, pos, seen) == Some(l)
    || match DecodeTurn(data, pos, seen)
       case Done(_) => false
       case More(part, end) => ReachesLength(data, end, seen + {part.partType}, l)
  }

  /** The end of the value does not fit in 64 bits. */
  predicate Overflows(l: Length) {
    l.start + l.value > MAX_U64
  }

  lemma TurnPanicsIff(data: ByteString, pos: nat, seen: set<nat>)
    requires pos <= |data|
    ensures var l := LengthField(data, pos, seen);
      DecodeTurn(data, pos, seen) == Done(Panic) <==> l.Some? && Overflows(l.value)
  {
    hide DecodeCompactSize;
  }

  lemma {:induction false} PanicsFromIff(data: ByteString, pos: nat, seen: set<nat>)
    requires pos <= |data| <= MAX_U64
    ensures DecodeFrom(data, pos, seen) == Panic <==> exists l :: ReachesLength(data, pos, seen, l) && Overflows(l)
    decreases |data| - pos
  {
    hide DecodeCompactSize;
    TurnPanicsIff(data, pos, seen);
    var here := LengthField(data, pos, seen);
    match DecodeTurn(data, pos, seen) {
      case Done(_) =>
        if here.Some? && Overflows(here.value) {
          assert ReachesLength(data, pos, seen, here.value);
        }
      case More(part, end) =>
        PanicsFromIff(data, end, seen + {part.partType});
        if l :| ReachesLength(data, end, seen + {part.partType}, l) && Overflows(l) {
          assert ReachesLength(data, pos, seen, l);
        }
    }
  }

  /** A memo that `decode_tvlv` begins to parse. */
  predicate IsParsed(data: ByteString) {
    data != [] && data[0] == MARKER && |data| <= MAX_MEMO_POST231
  }

  /**
   Decoding panics exactly when the parse gets to a length field, before anything else stops it,
   whose value would end beyond 64 bits.
   */
  lemma DecodePanicsIff(data: ByteString)
    ensures Decoded(data) == Panic
       <==> IsParsed(data) && exists l :: ReachesLength(data, 1, {}, l) && Overflows(l)
  {
    if IsParsed(data) {
      PanicsFromIff(data, 1, {});
    }
  }

  lemma {:induction false} AllOnes(b: ByteString)
    requires FromLittleEndian(b) == Capacity(|b|) - 1
    ensures forall i :: 0 <= i < |b| ==> b[i] == 0xFF
  {
    if b != [] {
      FromLittleEndianRoundTrip(b[1..]);
      AllOnes(b[1..]);
      assert forall i :: 1 <= i < |b| ==> b[i] == b[1..][i - 1];
    }
  }

  /** A 64-bit value within 2^16 of the largest has ones in all but its two low bytes. */
  lemma TopBytesAreOnes(b: ByteString)
    requires |b| == 8 && FromLittleEndian(b) > MAX_U64 - 0x1_0000
    ensures forall i :: 2 <= i < 8 ==> b[i] == 0xFF
  {
    var top := b[1..][1..];
    assert top == b[2..];
    FromLittleEndianRoundTrip(top);
    assert Capacity(6) == 0x1_0000_0000_0000;
    assert FromLittleEndian(b) == b[0] as nat + 256 * (b[1] as nat + 256 * FromLittleEndian(top));
    AllOnes(top);
    assert forall i :: 2 <= i < 8 ==> b[i] == top[i - 2];
  }

  predicate SixOnesAt(data: ByteString, i: nat) {
    i + 6 <= |data| && forall j :: i <= j < i + 6 ==> data[j] == 0xFF
  }

  /** Six bytes of ones in a row. */
  predicate HasSixOnes(data: ByteString) {
    exists i :: 0 <= i < |data| && SixOnesAt(data, i)
  }

  lemma LargeReadHasSixOnes(data: ByteString, pos: nat)
    requires pos <= |data| && DecodeCompactSize(data[pos..]).Ok?
    requires DecodeCompactSize(data[pos..]).value.value > MAX_U64 - 0x1_0000
    ensures HasSixOnes(data)
  {
    var rest := data[pos..];
    SmallReads(rest);
    var b := rest[1..9];
    TopBytesAreOnes(b);
    assert forall j :: pos + 3 <= j < pos + 9 ==> data[j] == b[j - pos - 1];
    assert SixOnesAt(data, pos + 3);
  }

  /** A value of more than four bytes is read from eight. */
  lemma SmallReads(rest: ByteString)
    requires DecodeCompactSize(rest).Ok? && DecodeCompactSize(rest).value.value > MAX_U32
    ensures |rest| >= 9 && DecodeCompactSize(rest).value.value == FromLittleEndian(rest[1..9])
  {
    CapacityValues();
    if rest[0] == 0xFD {
      FromLittleEndianRoundTrip(rest[1..3]);
    } else if rest[0] == 0xFE {
      FromLittleEndianRoundTrip(rest[1..5]);
    }
  }

  lemma {:induction false} OverflowHasSixOnes(data: ByteString, pos: nat, seen: set<nat>, l: Length)
    requires pos <= |data| <= MAX_MEMO_POST231 && ReachesLength(data, pos, seen, l) && Overflows(l)
    ensures HasSixOnes(data)
    decreases |data| - pos
  {
    hide DecodeCompactSize, HasSixOnes;
    if LengthField(data, pos, seen) == Some(l) {
      var p := pos + DecodeCompactSize(data[pos..]).value.size;
      var q := p + DecodeCompactSize(data[p..]).value.size;
      LargeReadHasSixOnes(data, q);
    } else {
      var turn := DecodeTurn(data, pos, seen);
      OverflowHasSixOnes(data, turn.end, seen + {turn.part.partType}, l);
    }
  }

  /** A guard for callers: a memo without six 0xFF bytes in a row is decoded or rejected. */
  lemma NoPanicWithoutSixOnes(data: ByteString)
    requires !HasSixOnes(data)
    ensures Decoded(data) != Panic
  {
    DecodePanicsIff(data);
    if Decoded(data) == Panic {
      var l :| ReachesLength(data, 1, {}, l) && Overflows(l);
      OverflowHasSixOnes(data, 1, {}, l);
    }
  }

  /** A length that overflows `pos + len` is neither decoded nor rejected. */
  lemma OverflowExample(data: ByteString)
    requires data == [MARKER, 0x01, 0x00, 0xFF] + LittleEndian(MAX_U64, 8)
    ensures Decoded(data) == Panic
  {
    CapacityValues();
    CompactSizeRoundTrip(MAX_U64, []);
    assert data[3..] == EncodeCompactSize(MAX_U64) + [];
    assert DecodeCompactSize(data[1..]) == Ok(Read(1, 1));
    assert DecodeCompactSize(data[2..]) == Ok(Read(0, 1));
    assert ReadRemainder(data, 2) == Overflow;
  }
}
