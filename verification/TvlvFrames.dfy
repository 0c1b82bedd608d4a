/**
 Which memos the decoder of src/zip302.rs accepts, what it reads from them, and what it says of
 some that it does not: stated over the bytes, without the decoder's own steps.
 */
module TvlvFrames {
  import opened Bytes
  import opened Tvlv

  predicate AllWide(parts: seq<Part>) {
    forall i :: 0 <= i < |parts| ==> Wide(parts[i])
  }

  /** The parts one after the other, of any types, versions and lengths of 64 bits. */
  function WideBody(parts: seq<Part>): ByteString
    requires AllWide(parts)
  {
    if parts == [] then [] else PartBytes(parts[0]) + WideBody(parts[1..])
  }

  /** The part as it is returned: the casts keep 16 bits of the type and 8 of the version. */
  function Cut(p: Part): Part {
    Part(p.partType % 0x1_0000, p.version % 0x100, p.value)
  }

  function CutAll(parts: seq<Part>): (cut: seq<Part>)
    ensures |cut| == |parts| && forall i :: 0 <= i < |parts| ==> cut[i] == Cut(parts[i])
  {
    if parts == [] then [] else [Cut(parts[0])] + CutAll(parts[1..])
  }

  function CutTypes(parts: seq<Part>): set<nat> {
    if parts == [] then {} else {parts[0].partType % 0x1_0000} + CutTypes(parts[1..])
  }

  lemma {:induction false} CutTypesAre(parts: seq<Part>)
    ensures forall i :: 0 <= i < |parts| ==> parts[i].partType % 0x1_0000 in CutTypes(parts)
  {
    if parts != [] {
      CutTypesAre(parts[1..]);
      assert forall i :: 0 < i < |parts| ==> parts[i] == parts[1..][i - 1];
    }
  }

  /** No type is zero, and no two are the same after the cast. */
  predicate DistinctCuts(parts: seq<Part>) {
    && (forall i :: 0 <= i < |parts| ==> parts[i].partType != 0)
    && forall i, j :: 0 <= i < j < |parts| ==> parts[i].partType % 0x1_0000 != parts[j].partType % 0x1_0000
  }

  /** The same, part by part, after these types. */
  predicate AreFresh(parts: seq<Part>, seen: set<nat>) {
    parts == []
    || (parts[0].partType != 0 && parts[0].partType % 0x1_0000 !in seen
        && AreFresh(parts[1..], seen + {parts[0].partType % 0x1_0000}))
  }

  lemma {:induction false} FreshIff(parts: seq<Part>, seen: set<nat>)
    ensures AreFresh(parts, seen)
       <==> DistinctCuts(parts) && forall i :: 0 <= i < |parts| ==> parts[i].partType % 0x1_0000 !in seen
  {
    if parts != [] {
      var rest := parts[1..];
      FreshIff(rest, seen + {parts[0].partType % 0x1_0000});
      assert forall i :: 0 < i < |parts| ==> parts[i] == rest[i - 1];
      if DistinctCuts(rest) && parts[0].partType != 0
        && forall i :: 0 <= i < |rest| ==> rest[i].partType % 0x1_0000 != parts[0].partType % 0x1_0000
      {
        assert DistinctCuts(parts);
      }
      if DistinctCuts(parts) {
        forall i | 0 <= i < |rest| ensures rest[i].partType % 0x1_0000 != parts[0].partType % 0x1_0000 {
          assert rest[i] == parts[i + 1];
        }
        assert DistinctCuts(rest);
      }
    }
  }

  // ---------------------------------------------------------------------------------
  // What parts come to
  // ---------------------------------------------------------------------------------

  lemma PartIsRead(data: ByteString, pos: nat, seen: set<nat>, part: Part, rest: ByteString)
    requires |data| <= MAX_U64 && pos <= |data|
    requires Wide(part) && part.partType != 0 && part.partType % 0x1_0000 !in seen
    requires data[pos..] == PartBytes(part) + rest
    ensures pos + |PartBytes(part)| <= |data| && data[pos + |PartBytes(part)|..] == rest
    ensures DecodeTurn(data, pos, seen) == More(Cut(part), pos + |PartBytes(part)|)
  {
    hide DecodeCompactSize, EncodeCompactSize;
    var t, v := EncodeCompactSize(part.partType), EncodeCompactSize(part.version);
    var l := EncodeCompactSize(|part.value|);
    PartBytesThen(part, rest);
    ReadAt(data, pos, part.partType, v + (l + (part.value + rest)));
    ReadRemainderBack(data, pos + |t|, part, rest);
  }

  lemma PrependNothing(o: Outcome)
    ensures Prepend([], o) == o
  {
    if o.Parts? {
      assert [] + o.parts == o.parts;
    }
  }

  lemma BodyThen(parts: seq<Part>, rest: ByteString)
    requires AllWide(parts) && parts != []
    ensures AllWide(parts[1..]) && WideBody(parts) + rest == PartBytes(parts[0]) + (WideBody(parts[1..]) + rest)
  {
    Assoc(PartBytes(parts[0]), WideBody(parts[1..]), rest);
  }

  /** Parts at the front are read and cut, whatever comes after them. */
  lemma {:induction false} BodyIsRead(data: ByteString, pos: nat, seen: set<nat>, parts: seq<Part>, rest: ByteString)
    requires pos <= |data| <= MAX_U64 && AllWide(parts) && AreFresh(parts, seen)
    requires data[pos..] == WideBody(parts) + rest
    ensures pos + |WideBody(parts)| <= |data| && data[pos + |WideBody(parts)|..] == rest
    ensures DecodeFrom(data, pos, seen)
         == Prepend(CutAll(parts), DecodeFrom(data, pos + |WideBody(parts)|, seen + CutTypes(parts)))
    decreases |parts|
  {
    hide DecodeTurn, PartBytes;
    if parts == [] {
      assert data[pos..] == rest && seen + {} == seen;
      PrependNothing(DecodeFrom(data, pos, seen));
    } else {
      var t := parts[0].partType % 0x1_0000;
      BodyThen(parts, rest);
      PartIsRead(data, pos, seen, parts[0], WideBody(parts[1..]) + rest);
      var end := pos + |PartBytes(parts[0])|;
      BodyIsRead(data, end, seen + {t}, parts[1..], rest);
      assert seen + {t} + CutTypes(parts[1..]) == seen + CutTypes(parts);
      PrependTwice([Cut(parts[0])], CutAll(parts[1..]),
        DecodeFrom(data, pos + |WideBody(parts)|, seen + CutTypes(parts)));
    }
  }

  // ---------------------------------------------------------------------------------
  // What was accepted
  // ---------------------------------------------------------------------------------

  /** From here on: these parts, the end marker, and zeros. */
  ghost predicate IsTail(b: ByteString, parts: seq<Part>, seen: set<nat>) {
    && AllWide(parts) && AreFresh(parts, seen)
    && exists n :: b == WideBody(parts) + ([0] + Zeros(n))
  }

  lemma DoneIsEmpty(data: ByteString, pos: nat, seen: set<nat>, parts: seq<Part>)
    requires pos <= |data| && DecodeTurn(data, pos, seen) == Done(Parts(parts))
    ensures parts == []
  {}

  lemma EndIsTail(data: ByteString, pos: nat, seen: set<nat>)
    requires pos <= |data| && DecodeTurn(data, pos, seen) == Done(Parts([]))
    ensures IsTail(data[pos..], [], seen)
  {
    EndIsBody(data, pos, seen);
    var n := |data[pos..]| - 1;
    assert data[pos..] == [] + ([0] + Zeros(n));
  }

  lemma TailGrows(b: ByteString, wide: Part, rest: ByteString, parts: seq<Part>, seen: set<nat>)
    requires Wide(wide) && wide.partType != 0 && wide.partType % 0x1_0000 !in seen
    requires b == PartBytes(wide) + rest && IsTail(rest, parts, seen + {wide.partType % 0x1_0000})
    ensures IsTail(b, [wide] + parts, seen)
  {
    var all := [wide] + parts;
    assert all[1..] == parts;
    assert AllWide(all);
    var n :| rest == WideBody(parts) + ([0] + Zeros(n));
    BodyThen(all, [0] + Zeros(n));
    assert b == WideBody(all) + ([0] + Zeros(n));
  }

  lemma TurnIsCut(data: ByteString, pos: nat, seen: set<nat>)
    requires pos <= |data| && DecodeTurn(data, pos, seen).More?
    ensures var wide := WidePart(data, pos, seen);
      && DecodeTurn(data, pos, seen).part == Cut(wide)
      && wide.partType != 0 && wide.partType % 0x1_0000 !in seen
  {
    hide DecodeCompactSize;
    var t, p := TurnReads(data, pos, seen);
  }

  lemma {:induction false} DecodedIsTail(data: ByteString, pos: nat, seen: set<nat>, parts: seq<Part>)
    requires pos <= |data| <= MAX_U64 && DecodeFrom(data, pos, seen) == Parts(parts)
    ensures exists wide :: IsTail(data[pos..], wide, seen) && parts == CutAll(wide)
    decreases |data| - pos
  {
    hide IsTail, PartBytes, DecodeTurn;
    match DecodeTurn(data, pos, seen) {
      case Done(_) =>
        DoneIsEmpty(data, pos, seen, parts);
        EndIsTail(data, pos, seen);
        assert parts == CutAll([]);
      case More(part, end) =>
        var rest := TurnDecodes(data, pos, seen, part, end, parts);
        DecodedIsTail(data, end, seen + {part.partType}, rest);
        TurnIsCut(data, pos, seen);
        var first := WidePart(data, pos, seen);
        var wide :| IsTail(data[end..], wide, seen + {part.partType}) && rest == CutAll(wide);
        WidePartBytes(data, pos, seen);
        TailGrows(data[pos..], first, data[end..], wide, seen);
        assert ([first] + wide)[1..] == wide;
        assert parts == CutAll([first] + wide);
    }
  }

  /** The marker, parts of distinct non-zero types, the end marker, and zeros. */
  ghost predicate IsMemoOf(data: ByteString, parts: seq<Part>) {
    && AllWide(parts) && DistinctCuts(parts)
    && exists n :: data == [0xF7] + (WideBody(parts) + ([0] + Zeros(n)))
  }

  lemma EndIsRead(data: ByteString, pos: nat, seen: set<nat>, n: nat)
    requires pos <= |data| && data[pos..] == [0] + Zeros(n)
    ensures DecodeTurn(data, pos, seen) == Done(Parts([]))
  {
    CompactSizeRoundTrip(0, Zeros(n));
    assert data[pos..] == EncodeCompactSize(0) + Zeros(n) && data[pos + 1..] == data[pos..][1..] == Zeros(n);
    EndTurn(data, pos, seen, n);
  }

  /** Decoding goes through the parts, to what follows them. */
  lemma MemoIsRead(data: ByteString, parts: seq<Part>, rest: ByteString)
    requires AllWide(parts) && AreFresh(parts, {}) && |data| <= MAX_MEMO_POST231
    requires data == [0xF7] + (WideBody(parts) + rest)
    ensures var end := 1 + |WideBody(parts)|;
      && end <= |data| && data[end..] == rest
      && Decoded(data) == Prepend(CutAll(parts), DecodeFrom(data, end, CutTypes(parts)))
  {
    hide WideBody, AreFresh, AllWide, CutAll, CutTypes, DecodeFrom;
    DropPrefix(data, 0, [0xF7], WideBody(parts) + rest);
    BodyIsRead(data, 1, {}, parts, rest);
    assert {} + CutTypes(parts) == CutTypes(parts);
  }

  lemma DoneIsOutcome(data: ByteString, pos: nat, seen: set<nat>, o: Outcome)
    requires pos <= |data| && DecodeTurn(data, pos, seen) == Done(o)
    ensures DecodeFrom(data, pos, seen) == o
  {}

  lemma TailIsAccepted(data: ByteString, parts: seq<Part>, n: nat)
    requires AllWide(parts) && AreFresh(parts, {}) && |data| <= MAX_MEMO_POST231
    requires data == [0xF7] + (WideBody(parts) + ([0] + Zeros(n)))
    ensures Decoded(data) == Parts(CutAll(parts))
  {
    MemoIsRead(data, parts, [0] + Zeros(n));
    hide WideBody, DecodeTurn, AreFresh, AllWide, DecodeFrom, Decoded;
    var end := 1 + |WideBody(parts)|;
    EndIsRead(data, end, CutTypes(parts), n);
    DoneIsOutcome(data, end, CutTypes(parts), Parts([]));
    assert CutAll(parts) + [] == CutAll(parts);
  }

  /**
   What the decoder accepts: exactly the memos of at most 16384 bytes that are the marker, parts of
   non-zero types that the cast keeps apart, the end marker and zeros; and it returns these parts,
   cut to their widths.
   */
  lemma DecodesIff(data: ByteString, parts: seq<Part>)
    ensures Decoded(data) == Parts(parts)
       <==> |data| <= 16384 && exists wide :: IsMemoOf(data, wide) && parts == CutAll(wide)
  {
    hide DecodeFrom, AreFresh, DistinctCuts, WideBody;
    if Decoded(data) == Parts(parts) {
      DecodedIsTail(data, 1, {}, parts);
      var wide :| IsTail(data[1..], wide, {}) && parts == CutAll(wide);
      var n :| data[1..] == WideBody(wide) + ([0] + Zeros(n));
      FreshIff(wide, {});
      assert data == [0xF7] + data[1..];
      assert IsMemoOf(data, wide);
    }
    if |data| <= 16384 {
      forall wide | IsMemoOf(data, wide) ensures Decoded(data) == Parts(CutAll(wide)) {
        var n :| data == [0xF7] + (WideBody(wide) + ([0] + Zeros(n)));
        FreshIff(wide, {});
        TailIsAccepted(data, wide, n);
      }
    }
  }

  // ---------------------------------------------------------------------------------
  // What was refused
  // ---------------------------------------------------------------------------------

  /** No memo of this kind, or too long for one. */
  lemma OthersAreRefused(data: ByteString)
    ensures data == [] || data[0] != 0xF7 ==> Decoded(data) == Failed(NotTvlv)
    ensures data != [] && data[0] == 0xF7 && |data| > 16384 ==> Decoded(data) == Failed(MemoTooLarge)
  {}

  /** After parts that can be read: nothing at all. */
  lemma MissingEndIsRefused(data: ByteString, parts: seq<Part>)
    requires |data| <= 16384 && AllWide(parts) && DistinctCuts(parts) && data == [0xF7] + WideBody(parts)
    ensures Decoded(data) == Failed(Truncated)
  {
    FreshIff(parts, {});
    assert WideBody(parts) + [] == WideBody(parts);
    MemoIsRead(data, parts, []);
    hide *;
    NothingTurn(data, 1 + |WideBody(parts)|, CutTypes(parts));
    FailedIsOutcome(data, 1 + |WideBody(parts)|, parts, Truncated);
  }

  /** An end marker with something other than zeros behind it. */
  lemma PaddingIsRefused(data: ByteString, parts: seq<Part>, rest: ByteString)
    requires |data| <= 16384 && AllWide(parts) && DistinctCuts(parts) && data == [0xF7] + (WideBody(parts) + rest)
    requires rest != [] && rest[0] == 0 && exists i :: 0 < i < |rest| && rest[i] != 0
    ensures Decoded(data) == Failed(NonZeroPadding)
  {
    FreshIff(parts, {});
    MemoIsRead(data, parts, rest);
    hide *;
    PaddingTurn(data, 1 + |WideBody(parts)|, CutTypes(parts), rest);
    FailedIsOutcome(data, 1 + |WideBody(parts)|, parts, NonZeroPadding);
  }

  /** A type that the cast makes equal to one before. */
  lemma RepetitionIsRefused(data: ByteString, parts: seq<Part>, t: nat, more: ByteString)
    requires |data| <= 16384 && AllWide(parts) && DistinctCuts(parts) && 0 < t <= MAX_U64
    requires data == [0xF7] + (WideBody(parts) + (EncodeCompactSize(t) + more))
    requires exists i :: 0 <= i < |parts| && parts[i].partType % 0x1_0000 == t % 0x1_0000
    ensures Decoded(data) == Failed(DuplicatePartType(t % 0x1_0000))
  {
    CutTypesAre(parts);
    FreshIff(parts, {});
    MemoIsRead(data, parts, EncodeCompactSize(t) + more);
    hide *;
    RepeatedTurn(data, 1 + |WideBody(parts)|, CutTypes(parts), t, more);
    FailedIsOutcome(data, 1 + |WideBody(parts)|, parts, DuplicatePartType(t % 0x1_0000));
  }

  lemma FailedIsOutcome(data: ByteString, pos: nat, parts: seq<Part>, e: Error)
    requires pos <= |data| && DecodeTurn(data, pos, CutTypes(parts)) == Done(Failed(e))
    ensures Prepend(CutAll(parts), DecodeFrom(data, pos, CutTypes(parts))) == Failed(e)
  {
    DoneIsOutcome(data, pos, CutTypes(parts), Failed(e));
  }

  lemma NothingTurn(data: ByteString, pos: nat, seen: set<nat>)
    requires pos <= |data| && data[pos..] == []
    ensures DecodeTurn(data, pos, seen) == Done(Failed(Truncated))
  {}

  lemma RepeatedTurn(data: ByteString, pos: nat, seen: set<nat>, t: nat, more: ByteString)
    requires 0 < t <= MAX_U64 && pos <= |data| && data[pos..] == EncodeCompactSize(t) + more && t % 0x1_0000 in seen
    ensures DecodeTurn(data, pos, seen) == Done(Failed(DuplicatePartType(t % 0x1_0000)))
  {
    CompactSizeRoundTrip(t, more);
    hide DecodeCompactSize, EncodeCompactSize;
  }

  lemma PaddingTurn(data: ByteString, pos: nat, seen: set<nat>, rest: ByteString)
    requires pos <= |data| && data[pos..] == rest && rest != [] && rest[0] == 0
    requires exists i :: 0 < i < |rest| && rest[i] != 0
    ensures DecodeTurn(data, pos, seen) == Done(Failed(NonZeroPadding))
  {
    var i :| 0 < i < |rest| && rest[i] != 0;
    assert data[pos + 1..][i - 1] == rest[i];
  }
}
