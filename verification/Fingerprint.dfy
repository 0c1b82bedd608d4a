/**
 equivalence/fingerprint.py: the encoding of a verification case that the
 cross-implementation fingerprint hashes.
 */
module Fingerprint {
  import opened Bytes
  import opened Trees
  import opened Fields
  import opened Merkle
  import opened Results

  /** A case and the verdict of the verifier under test. */
  datatype Case = Case(
    id: ByteString,
    leafHash: Digest,
    leafCount: nat,
    proof: seq<ProofStep>,
    expectedRoot: Digest,
    scheme: Option<ByteString>,
    anchorHeight: Option<nat>,
    allowHistoricalLegacy: bool,
    valid: bool,
    resultScheme: ByteString,
    countBoundRoot: Digest,
    rawRoot: Digest)

  // "zap1-verifier-equiv-v1"
  const DOMAIN: ByteString := [
    0x7a, 0x61, 0x70, 0x31, 0x2d, 0x76, 0x65, 0x72, 0x69, 0x66, 0x69, 0x65, 0x72, 0x2d,
    0x65, 0x71, 0x75, 0x69, 0x76, 0x2d, 0x76, 0x31]

  /** The ranges that the packing functions accept; outside them the encoder raises an error. */
  predicate Encodable(c: Case) {
    && |c.id| <= MAX_U32
    && 1 <= c.leafCount <= MAX_U64
    && |c.proof| <= MAX_U64
    && (c.scheme.Some? ==> |c.scheme.value| <= MAX_U32)
    && (c.anchorHeight.Some? ==> c.anchorHeight.value <= MAX_U64)
    && |c.resultScheme| <= MAX_U32
  }

  function Flag(b: bool): Field {
    Tag(if b then 1 else 0)
  }

  function OneStep(step: ProofStep): seq<Field> {
    [Flag(step.position == Right), Fixed(step.hash)]
  }

  function StepFields(proof: seq<ProofStep>): seq<Field> {
    if proof == [] then [] else OneStep(proof[0]) + StepFields(proof[1..])
  }

  /** A presence flag, then the field if there is one. */
  function Optional(f: Option<Field>): seq<Field> {
    if f.None? then [Flag(false)] else [Flag(true), f.value]
  }

  function SchemeField(c: Case): Option<Field> {
    if c.scheme.None? then None else Some(Long(c.scheme.value))
  }

  function HeightField(c: Case): Option<Field> {
    if c.anchorHeight.None? then None else Some(U64(c.anchorHeight.value))
  }

  function HeadFields(c: Case): seq<Field> {
    [Long(c.id), Fixed(c.leafHash), U64(c.leafCount), U64(|c.proof|)]
  }

  function TailFields(c: Case): seq<Field> {
    [Flag(c.allowHistoricalLegacy), Flag(c.valid), Long(c.resultScheme), Fixed(c.countBoundRoot), Fixed(c.rawRoot)]
  }

  function AfterSteps(c: Case): seq<Field> {
    [Fixed(c.expectedRoot)] + (Optional(SchemeField(c)) + (Optional(HeightField(c)) + TailFields(c)))
  }

  function CaseFields(c: Case): seq<Field> {
    HeadFields(c) + (StepFields(c.proof) + AfterSteps(c))
  }

  function CaseEncoding(c: Case): ByteString {
    DOMAIN + EncodeAll(CaseFields(c))
  }

  // ---------------------------------------------------------------------------------
  // The encoding byte by byte
  // ---------------------------------------------------------------------------------

  /** For each step a byte for its side, 1 on the right, and the sibling. */
  function StepBytes(proof: seq<ProofStep>): ByteString {
    if proof == [] then []
    else [if proof[0].position == Right then 1 else 0] + proof[0].hash + StepBytes(proof[1..])
  }

  /** A zero byte for a missing text; else a one, the length in four bytes, and the text. */
  function OptionalText(text: Option<ByteString>): ByteString {
    match text
    case None => [0]
    case Some(t) => [1] + (FourBytes(|t|) + t)
  }

  function OptionalNumber(number: Option<nat>): ByteString {
    match number
    case None => [0]
    case Some(n) => [1] + EightBytes(n)
  }

  /** The bytes of a case in order. */
  function CaseBytes(c: Case): ByteString {
    DOMAIN
    + ((FourBytes(|c.id|) + c.id) + c.leafHash + EightBytes(c.leafCount) + EightBytes(|c.proof|))
    + StepBytes(c.proof)
    + c.expectedRoot
    + OptionalText(c.scheme)
    + OptionalNumber(c.anchorHeight)
    + ([if c.allowHistoricalLegacy then 1 else 0] + [if c.valid then 1 else 0]
       + (FourBytes(|c.resultScheme|) + c.resultScheme) + c.countBoundRoot + c.rawRoot)
  }

  lemma {:induction false} StepsAre(proof: seq<ProofStep>)
    ensures EncodeAll(StepFields(proof)) == StepBytes(proof)
  {
    if proof != [] {
      var flag, hash := Flag(proof[0].position == Right), Fixed(proof[0].hash);
      StepsAre(proof[1..]);
      EncodeAllJoins(OneStep(proof[0]), StepFields(proof[1..]));
      TwoFields(flag, hash);
    }
  }

  lemma OptionsAre(c: Case)
    ensures EncodeAll(Optional(SchemeField(c))) == OptionalText(c.scheme)
    ensures EncodeAll(Optional(HeightField(c))) == OptionalNumber(c.anchorHeight)
  {
    OneField(Flag(false));
    if c.scheme.Some? {
      TwoFields(Flag(true), SchemeField(c).value);
      FieldIs(SchemeField(c).value);
    }
    if c.anchorHeight.Some? {
      TwoFields(Flag(true), HeightField(c).value);
      FieldIs(HeightField(c).value);
    }
  }

  lemma FiveFields(f: Field, g: Field, h: Field, i: Field, j: Field)
    ensures EncodeAll([f, g, h, i, j]) == f.Encode() + g.Encode() + h.Encode() + i.Encode() + j.Encode()
  {
    assert [f] + [g, h, i, j] == [f, g, h, i, j];
    EncodeAllJoins([f], [g, h, i, j]);
    OneField(f);
    FourFields(g, h, i, j);
    hide EncodeAll;
    JoinFour(f.Encode(), g.Encode(), h.Encode(), i.Encode(), j.Encode());
  }

  lemma JoinFour(f: ByteString, g: ByteString, h: ByteString, i: ByteString, j: ByteString)
    ensures f + (g + h + i + j) == f + g + h + i + j
  {}

  lemma HeadAndTailAre(c: Case)
    ensures EncodeAll(HeadFields(c))
         == (FourBytes(|c.id|) + c.id) + c.leafHash + EightBytes(c.leafCount) + EightBytes(|c.proof|)
    ensures EncodeAll(TailFields(c))
         == [if c.allowHistoricalLegacy then 1 else 0] + [if c.valid then 1 else 0]
          + (FourBytes(|c.resultScheme|) + c.resultScheme) + c.countBoundRoot + c.rawRoot
  {
    hide FourBytes, EightBytes;
    FourFields(Long(c.id), Fixed(c.leafHash), U64(c.leafCount), U64(|c.proof|));
    FieldIs(Long(c.id));
    FieldIs(U64(c.leafCount));
    FieldIs(U64(|c.proof|));
    FiveFields(Flag(c.allowHistoricalLegacy), Flag(c.valid), Long(c.resultScheme), Fixed(c.countBoundRoot), Fixed(c.rawRoot));
    FieldIs(Long(c.resultScheme));
  }

  /** The list of fields is written as these bytes. */
  lemma CaseEncodingIs(c: Case)
    ensures CaseEncoding(c) == CaseBytes(c)
  {
    CaseFieldsInOrder(c);
    HeadAndTailAre(c);
    StepsAre(c.proof);
    OptionsAre(c);
    OneField(Fixed(c.expectedRoot));
    hide EncodeAll, HeadFields, TailFields, StepFields, StepBytes, OptionalText, OptionalNumber, Optional;
  }

  lemma DomainIs()
    ensures IsText(DOMAIN, "zap1-verifier-equiv-v1")
  {}

  /** A buffer after one more field. */
  lemma OneMoreField(buf: ByteString, done: seq<Field>, f: Field)
    ensures buf + EncodeAll(done) + f.Encode() == buf + EncodeAll(done + [f])
  {
    EncodeAllJoins(done, [f]);
    OneField(f);
    Assoc(buf, EncodeAll(done), f.Encode());
  }

  /** The loop of appends for a list of fields. */
  method PutFields(buf: ByteString, fields: seq<Field>) returns (out: ByteString)
    ensures out == buf + EncodeAll(fields)
  {
    out := buf;
    assert out == buf + EncodeAll(fields[..0]);
    for i := 0 to |fields|
      invariant out == buf + EncodeAll(fields[..i])
    {
      OneMoreField(buf, fields[..i], fields[i]);
      assert fields[..i + 1] == fields[..i] + [fields[i]];
      out := out + fields[i].Encode();
    }
    assert fields[..|fields|] == fields;
  }

  /** The loop over the proof: a side byte and a sibling for each step. */
  method PutSteps(buf: ByteString, proof: seq<ProofStep>) returns (out: ByteString)
    ensures out == buf + EncodeAll(StepFields(proof))
  {
    out := buf;
    var i := 0;
    while i < |proof|
      invariant 0 <= i <= |proof|
      invariant out + EncodeAll(StepFields(proof[i..])) == buf + EncodeAll(StepFields(proof))
    {
      FirstStep(proof, i);
      EncodeAllJoins(OneStep(proof[i]), StepFields(proof[i + 1..]));
      Assoc(out, EncodeAll(OneStep(proof[i])), EncodeAll(StepFields(proof[i + 1..])));
      out := PutFields(out, OneStep(proof[i]));
      i := i + 1;
    }
    assert StepFields(proof[i..]) == [];
  }

  lemma FirstStep(proof: seq<ProofStep>, i: nat)
    requires i < |proof|
    ensures StepFields(proof[i..]) == OneStep(proof[i]) + StepFields(proof[i + 1..])
  {
    assert proof[i..][1..] == proof[i + 1..];
  }

  /** The appends to the growing buffer write exactly the fields of the case. */
  method EncodeCase(c: Case) returns (r: Option<ByteString>)
    ensures r == if Encodable(c) then Some(CaseEncoding(c)) else None
    ensures r.Some? ==> r.value == CaseBytes(c)
    ensures r.Some? <==>
      && |c.id| <= 0xFFFF_FFFF && 1 <= c.leafCount <= 0xFFFF_FFFF_FFFF_FFFF && |c.proof| <= 0xFFFF_FFFF_FFFF_FFFF
      && (c.scheme.Some? ==> |c.scheme.value| <= 0xFFFF_FFFF)
      && (c.anchorHeight.Some? ==> c.anchorHeight.value <= 0xFFFF_FFFF_FFFF_FFFF) && |c.resultScheme| <= 0xFFFF_FFFF
  {
    CaseEncodingIs(c);
    hide CaseBytes;
    if !Encodable(c) {
      return None;
    }
    var buf := PutFields(DOMAIN, HeadFields(c));
    buf := PutSteps(buf, c.proof);
    buf := PutFields(buf, [Fixed(c.expectedRoot)]);
    buf := PutFields(buf, Optional(SchemeField(c)));
    buf := PutFields(buf, Optional(HeightField(c)));
    buf := PutFields(buf, TailFields(c));
    CaseFieldsInOrder(c);
    r := Some(buf);
  }

  lemma PutTogether(buf: ByteString, f: seq<Field>, g: seq<Field>)
    ensures buf + EncodeAll(f + g) == buf + EncodeAll(f) + EncodeAll(g)
  {
    EncodeAllJoins(f, g);
    Assoc(buf, EncodeAll(f), EncodeAll(g));
  }

  lemma CaseFieldsInOrder(c: Case)
    ensures CaseEncoding(c) == DOMAIN + EncodeAll(HeadFields(c)) + EncodeAll(StepFields(c.proof))
         + EncodeAll([Fixed(c.expectedRoot)]) + EncodeAll(Optional(SchemeField(c)))
         + EncodeAll(Optional(HeightField(c))) + EncodeAll(TailFields(c))
  {
    var h, s, e := HeadFields(c), StepFields(c.proof), [Fixed(c.expectedRoot)];
    var o, p, t := Optional(SchemeField(c)), Optional(HeightField(c)), TailFields(c);
    PutTogether(DOMAIN, h, s + (e + (o + (p + t))));
    var buf := DOMAIN + EncodeAll(h);
    PutTogether(buf, s, e + (o + (p + t)));
    buf := buf + EncodeAll(s);
    PutTogether(buf, e, o + (p + t));
    buf := buf + EncodeAll(e);
    PutTogether(buf, o, p + t);
    PutTogether(buf + EncodeAll(o), p, t);
  }

  lemma {:induction false} StepFieldsShape(p: seq<ProofStep>, q: seq<ProofStep>)
    requires |p| == |q|
    ensures |StepFields(p)| == |StepFields(q)| && AllValid(StepFields(p))
    ensures forall i :: 0 <= i < |StepFields(p)| ==> StepFields(p)[i].Kind() == StepFields(q)[i].Kind()
    ensures StepFields(p) == StepFields(q) ==> p == q
  {
    if p != [] {
      StepFieldsShape(p[1..], q[1..]);
      assert StepFields(p)[2..] == StepFields(p[1..]) && StepFields(q)[2..] == StepFields(q[1..]);
      if StepFields(p) == StepFields(q) {
        assert StepFields(p)[0] == StepFields(q)[0] && StepFields(p)[1] == StepFields(q)[1];
        assert p[0] == q[0];
        assert p == [p[0]] + p[1..] && q == [q[0]] + q[1..];
      }
    }
  }

  lemma OptionalAligned(a: Option<Field>, b: Option<Field>, f: seq<Field>, g: seq<Field>)
    requires a.Some? && b.Some? ==> a.value.Kind() == b.value.Kind()
    requires a == b ==> Aligned(f, g)
    ensures Aligned(Optional(a) + f, Optional(b) + g)
  {
    var u, v := Optional(a)[1..] + f, Optional(b)[1..] + g;
    if a.Some? && b.Some? {
      AlignedAfter([a.value], [b.value], f, g);
    } else if a.None? && b.None? {
      assert u == f && v == g;
    }
    AlignedAfter([Flag(a.Some?)], [Flag(b.Some?)], u, v);
    assert Optional(a) + f == [Flag(a.Some?)] + u && Optional(b) + g == [Flag(b.Some?)] + v;
  }

  lemma OptionsAndTailAligned(c: Case, d: Case)
    ensures Aligned(Optional(SchemeField(c)) + (Optional(HeightField(c)) + TailFields(c)),
                    Optional(SchemeField(d)) + (Optional(HeightField(d)) + TailFields(d)))
  {
    AlignedAfter(TailFields(c), TailFields(d), [], []);
    assert TailFields(c) + [] == TailFields(c) && TailFields(d) + [] == TailFields(d);
    OptionalAligned(HeightField(c), HeightField(d), TailFields(c), TailFields(d));
    OptionalAligned(SchemeField(c), SchemeField(d),
      Optional(HeightField(c)) + TailFields(c), Optional(HeightField(d)) + TailFields(d));
  }

  lemma CaseFieldsAligned(c: Case, d: Case)
    ensures Aligned(CaseFields(c), CaseFields(d))
  {
    OptionsAndTailAligned(c, d);
    AlignedAfter([Fixed(c.expectedRoot)], [Fixed(d.expectedRoot)],
      Optional(SchemeField(c)) + (Optional(HeightField(c)) + TailFields(c)),
      Optional(SchemeField(d)) + (Optional(HeightField(d)) + TailFields(d)));
    if HeadFields(c) == HeadFields(d) {
      assert HeadFields(c)[3] == HeadFields(d)[3];
      StepFieldsShape(c.proof, d.proof);
      AlignedAfter(StepFields(c.proof), StepFields(d.proof), AfterSteps(c), AfterSteps(d));
    }
    AlignedAfter(HeadFields(c), HeadFields(d),
      StepFields(c.proof) + AfterSteps(c), StepFields(d.proof) + AfterSteps(d));
  }

  lemma CaseFieldsValid(c: Case)
    requires Encodable(c)
    ensures AllValid(CaseFields(c))
  {
    StepFieldsShape(c.proof, c.proof);
    var o, p, t := Optional(SchemeField(c)), Optional(HeightField(c)), TailFields(c);
    AllValidJoins(p, t);
    AllValidJoins(o, p + t);
    AllValidJoins([Fixed(c.expectedRoot)], o + (p + t));
    AllValidJoins(StepFields(c.proof), AfterSteps(c));
    AllValidJoins(HeadFields(c), StepFields(c.proof) + AfterSteps(c));
  }

  lemma AllValidJoins(f: seq<Field>, g: seq<Field>)
    requires AllValid(f) && AllValid(g)
    ensures AllValid(f + g)
  {}

  /** The fields determine the case. */
  lemma CaseFieldsInjective(c: Case, d: Case)
    requires CaseFields(c) == CaseFields(d)
    ensures c == d
  {
    var p, q := StepFields(c.proof) + AfterSteps(c), StepFields(d.proof) + AfterSteps(d);
    SplitAt(HeadFields(c), HeadFields(d), p, q);
    assert HeadFields(c)[0] == HeadFields(d)[0] && HeadFields(c)[1] == HeadFields(d)[1];
    assert HeadFields(c)[2] == HeadFields(d)[2] && HeadFields(c)[3] == HeadFields(d)[3];
    StepFieldsShape(c.proof, d.proof);
    SplitAt(StepFields(c.proof), StepFields(d.proof), AfterSteps(c), AfterSteps(d));
    AfterStepsInjective(c, d);
  }

  lemma AfterStepsInjective(c: Case, d: Case)
    requires AfterSteps(c) == AfterSteps(d)
    ensures c.(id := d.id, leafHash := d.leafHash, leafCount := d.leafCount, proof := d.proof) == d
  {
    var tc, td := TailFields(c), TailFields(d);
    var hc, hd := Optional(HeightField(c)), Optional(HeightField(d));
    var sc, sd := Optional(SchemeField(c)), Optional(SchemeField(d));
    SplitAt([Fixed(c.expectedRoot)], [Fixed(d.expectedRoot)], sc + (hc + tc), sd + (hd + td));
    assert [Fixed(c.expectedRoot)][0] == [Fixed(d.expectedRoot)][0];
    assert (sc + (hc + tc))[0] == (sd + (hd + td))[0];
    SplitAt(sc, sd, hc + tc, hd + td);
    assert |sc| > 1 ==> sc[1] == sd[1];
    assert (hc + tc)[0] == (hd + td)[0];
    SplitAt(hc, hd, tc, td);
    assert |hc| > 1 ==> hc[1] == hd[1];
    assert tc[0] == td[0] && tc[1] == td[1] && tc[2] == td[2] && tc[3] == td[3] && tc[4] == td[4];
  }

  /** Different cases, of any proof length and with any fields present, are encoded differently. */
  lemma CaseEncodingInjective(c: Case, d: Case)
    requires Encodable(c) && Encodable(d)
    requires CaseEncoding(c) == CaseEncoding(d)
    ensures c == d
  {
    SplitAt(DOMAIN, DOMAIN, EncodeAll(CaseFields(c)), EncodeAll(CaseFields(d)));
    CaseFieldsValid(c);
    CaseFieldsValid(d);
    CaseFieldsAligned(c, d);
    EncodingInjective(CaseFields(c), CaseFields(d), [], []);
    CaseFieldsInjective(c, d);
  }
}
