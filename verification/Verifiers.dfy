/**
 The three offline verifiers of a proof bundle: `zap1_audit` (src/bin/zap1_audit.rs), the
 script verify_proof.py, and the browser widget (verify-widget/blake2b.js).  A verifier that
 raises an error rejects.
 */
module Verifiers {
  import opened Bytes
  import opened Results
  import opened Hex
  import opened Trees
  import opened Merkle
  import opened Binding
  import opened Selection

  const COUNT_BOUND := "ZAP1_COUNT_BOUND_V2"
  const LEGACY := "ZAP1_LEGACY_DUPLICATE_ODD"
  const CURRENT_VERSION := "2"
  const HISTORICAL_VERSION := "1.0.0"
  const MAX_SAFE_INTEGER := 0x1F_FFFF_FFFF_FFFF

  datatype BundleStep = BundleStep(hash: string, position: string)

  /** A bundle whose fields have the right JSON types; the numbers may be any integers. */
  datatype ProofBundle = ProofBundle(
    protocol: string,
    version: string,
    leafHash: string,
    proof: seq<BundleStep>,
    rootHash: string,
    leafCount: int,
    scheme: Option<string>,
    txid: Option<string>,
    height: Option<int>)

  predicate IsStep(s: BundleStep) {
    IsHash(s.hash) && (s.position == "left" || s.position == "right")
  }

  predicate AreSteps(proof: seq<BundleStep>) {
    forall s :: s in proof ==> IsStep(s)
  }

  function StepOf(s: BundleStep): ProofStep
    requires IsStep(s)
  {
    Step(HashOf(s.hash), if s.position == "left" then Left else Right)
  }

  function StepsOf(proof: seq<BundleStep>): (steps: seq<ProofStep>)
    requires AreSteps(proof)
    ensures |steps| == |proof|
  {
    if proof == [] then []
    else
      assert proof[|proof| - 1] in proof;
      StepsOf(proof[..|proof| - 1]) + [StepOf(proof[|proof| - 1])]
  }

  predicate IsAdmittedHeight(height: Option<int>) {
    height.Some? && height.value <= LEGACY_ROOT_MAX_ANCHOR_HEIGHT
  }

  // ---------------------------------------------------------------------------------
  // src/bin/zap1_audit.rs
  // ---------------------------------------------------------------------------------

  /** The declared integer types of the bundle; other numbers do not deserialize. */
  predicate Deserializes(b: ProofBundle) {
    0 <= b.leafCount <= MAX_U64 && (b.height.Some? ==> 0 <= b.height.value <= MAX_U32)
  }

  /** `verify_bundle`, with the leaf that was asked for if there is one. */
  predicate AuditAccepts(H: Hash, b: ProofBundle, requested: Option<string>) {
    && Deserializes(b)
    && b.protocol == "ZAP1"
    && b.scheme.Some?
    && (b.scheme.value == COUNT_BOUND || b.scheme.value == LEGACY)
    && (b.version == CURRENT_VERSION || (b.version == HISTORICAL_VERSION && b.scheme.value == LEGACY))
    && b.leafCount != 0
    && IsHash(b.leafHash) && IsHash(b.rootHash)
    && (b.txid.Some? ==> IsHash(b.txid.value))
    && (requested.Some? ==> IsHash(requested.value) && requested.value == b.leafHash)
    && (b.scheme.value == LEGACY ==> IsAdmittedHeight(b.height))
    && AreSteps(b.proof)
    && var raw := WalkProof(H, HashOf(b.leafHash), StepsOf(b.proof));
    var validCountBound := b.scheme.value == COUNT_BOUND && CommitRoot(H, b.leafCount, raw) == HashOf(b.rootHash);
    var validLegacy := b.scheme.value == LEGACY && IsAdmittedHeight(b.height) && raw == HashOf(b.rootHash);
    validCountBound || validLegacy
  }

  // ---------------------------------------------------------------------------------
  // verify_proof.py
  // ---------------------------------------------------------------------------------

  predicate ValidateBundle(b: ProofBundle) {
    && b.protocol == "ZAP1"
    && (b.scheme == Some(COUNT_BOUND) || b.scheme == Some(LEGACY))
    && (b.version == CURRENT_VERSION || (b.version == HISTORICAL_VERSION && b.scheme == Some(LEGACY)))
    && IsHash(b.leafHash)
    && IsHash(b.rootHash)
    && 1 <= b.leafCount <= MAX_U64
    && AreSteps(b.proof)
    && (b.txid.Some? ==> IsHash(b.txid.value))
    && (b.height.Some? ==> 0 <= b.height.value <= MAX_U32)
    && !(b.scheme == Some(LEGACY) && (b.height.None? || b.height.value > LEGACY_ROOT_MAX_ANCHOR_HEIGHT))
  }

  predicate HistoricalLegacyAllowed(scheme: Option<string>, height: Option<int>, allowFlag: bool) {
    (scheme == Some(LEGACY) || (scheme.None? && allowFlag)) && IsAdmittedHeight(height)
  }

  /** The loop of `walk_proof`. */
  method WalkProofLoop(H: Hash, leaf: Digest, proof: seq<BundleStep>) returns (root: Option<Digest>)
    ensures root == if AreSteps(proof) then Some(WalkProof(H, leaf, StepsOf(proof))) else None
  {
    var current := leaf;
    var i := 0;
    while i < |proof|
      invariant 0 <= i <= |proof|
      invariant AreSteps(proof[..i]) && current == WalkProof(H, leaf, StepsOf(proof[..i]))
    {
      var step := proof[i];
      assert step in proof;
      if !IsHash(step.hash) {
        return None;
      }
      ghost var before := proof[..i];
      var sibling := HashOf(step.hash);
      if step.position == "right" {
        current := HashNode(H, current, sibling);
      } else if step.position == "left" {
        current := HashNode(H, sibling, current);
      } else {
        return None;
      }
      OneStepFurther(H, leaf, proof, i);
      i := i + 1;
    }
    assert proof[..i] == proof;
    root := Some(current);
  }

  lemma OneStepFurther(H: Hash, leaf: Digest, proof: seq<BundleStep>, i: nat)
    requires i < |proof| && AreSteps(proof[..i]) && IsStep(proof[i])
    ensures AreSteps(proof[..i + 1])
    ensures WalkProof(H, leaf, StepsOf(proof[..i + 1]))
         == Climb(NodeOf(H), WalkProof(H, leaf, StepsOf(proof[..i])), StepOf(proof[i]))
  {
    var longer := proof[..i + 1];
    assert longer == proof[..i] + [proof[i]] && longer[..i] == proof[..i];
    var steps := StepsOf(longer);
    assert steps[..|steps| - 1] == StepsOf(proof[..i]);
  }

  datatype Verdict = Verdict(valid: bool, scheme: Scheme, countBoundRoot: Digest, rawRoot: Digest)

  /** `verify_proof`, on arguments that have passed its own checks. */
  function VerifyProof(
    H: Hash, leaf: Digest, steps: seq<ProofStep>, expected: Digest, leafCount: nat,
    scheme: Option<string>, height: Option<int>, allowHistoricalLegacy: bool): Verdict
  {
    var raw := WalkProof(H, leaf, steps);
    var countBound := CommitRoot(H, leafCount, raw);
    if scheme.Some? && scheme.value != COUNT_BOUND && scheme.value != LEGACY then
      Verdict(false, Invalid, countBound, raw)
    else if (scheme.None? || scheme.value == COUNT_BOUND) && countBound == expected then
      Verdict(true, CountBoundV2, countBound, raw)
    else if raw == expected && HistoricalLegacyAllowed(scheme, height, allowHistoricalLegacy) then
      Verdict(true, LegacyDuplicateOdd, countBound, raw)
    else Verdict(false, Invalid, countBound, raw)
  }

  /** `validate_bundle`, then `verify_proof` on what it returns. */
  predicate ScriptAccepts(H: Hash, b: ProofBundle) {
    && ValidateBundle(b)
    && VerifyProof(H, HashOf(b.leafHash), StepsOf(b.proof), HashOf(b.rootHash), b.leafCount, b.scheme, b.height, false).valid
  }

  // ---------------------------------------------------------------------------------
  // verify-widget/blake2b.js
  // ---------------------------------------------------------------------------------

  predicate IsSafeInteger(n: int) {
    -MAX_SAFE_INTEGER <= n <= MAX_SAFE_INTEGER
  }

  /** `verifyProofBundle` neither throws nor reports a root mismatch; it compares hex strings. */
  predicate WidgetAccepts(H: Hash, b: ProofBundle, requested: string) {
    && IsHash(requested)
    && b.protocol == "ZAP1"
    && b.version == CURRENT_VERSION
    && IsHash(b.leafHash) && b.leafHash == requested
    && IsHash(b.rootHash)
    && IsSafeInteger(b.leafCount) && b.leafCount > 0
    && (b.scheme == Some(COUNT_BOUND) || b.scheme == Some(LEGACY))
    && (b.txid.Some? ==> IsHash(b.txid.value))
    && (b.height.Some? ==> IsSafeInteger(b.height.value) && b.height.value >= 0)
    && AreSteps(b.proof)
    && var raw := WalkProof(H, HashOf(b.leafHash), StepsOf(b.proof));
    var rootMatchV2 := Encode(CommitRoot(H, b.leafCount, raw)) == b.rootHash;
    var rootMatchLegacy := Encode(raw) == b.rootHash;
    var legacyAllowed := rootMatchLegacy && b.scheme == Some(LEGACY) && IsAdmittedHeight(b.height);
    if b.scheme == Some(COUNT_BOUND) then rootMatchV2 else legacyAllowed
  }

  // ---------------------------------------------------------------------------------
  // Agreement
  // ---------------------------------------------------------------------------------

  /** The audit tool and the script accept the same bundles. */
  lemma AuditAgreesWithScript(H: Hash, b: ProofBundle)
    ensures AuditAccepts(H, b, None) <==> ScriptAccepts(H, b)
  {}

  predicate HeightFits(b: ProofBundle) {
    b.height.Some? ==> b.height.value <= MAX_U32
  }

  /**
   The audit tool accepts what the widget accepts at a height that fits in 32 bits, and the widget
   what the audit tool accepts, of the current version and with a count exact in floating point.
   */
  lemma WidgetAgreesWithAudit(H: Hash, b: ProofBundle, requested: string)
    ensures WidgetAccepts(H, b, requested) && HeightFits(b)
       <==> AuditAccepts(H, b, Some(requested)) && b.version == CURRENT_VERSION && b.leafCount <= MAX_SAFE_INTEGER
  {
    if IsHash(b.leafHash) && IsHash(b.rootHash) && AreSteps(b.proof) && b.leafCount > 0 {
      var raw := WalkProof(H, HashOf(b.leafHash), StepsOf(b.proof));
      SameHash(CommitRoot(H, b.leafCount, raw), b.rootHash);
      SameHash(raw, b.rootHash);
    }
  }

  /** A bundle of one leaf, anchored at the first height that takes more than 32 bits. */
  function HighBundle(H: Hash, leaf: Digest): ProofBundle {
    ProofBundle("ZAP1", CURRENT_VERSION, Encode(leaf), [], Encode(CommitRoot(H, 1, leaf)), 1,
      Some(COUNT_BOUND), None, Some(MAX_U32 + 1))
  }

  /** Only the widget accepts that bundle. */
  lemma OnlyWidgetAcceptsHighBundle(H: Hash, leaf: Digest)
    ensures var b := HighBundle(H, leaf);
      WidgetAccepts(H, b, Encode(leaf)) && !AuditAccepts(H, b, Some(Encode(leaf))) && !ScriptAccepts(H, b)
  {
    EncodedHash(leaf);
    EncodedHash(CommitRoot(H, 1, leaf));
    var b := HighBundle(H, leaf);
    assert WalkProof(H, leaf, StepsOf(b.proof)) == leaf;
    WidgetAgreesWithAudit(H, b, Encode(leaf));
    AuditAgreesWithScript(H, b);
  }

  /** A bundle labelled count-bound is accepted by any of the three only through the commitment. */
  lemma CountBoundLabelNeedsCommitment(H: Hash, b: ProofBundle, requested: string)
    requires b.scheme == Some(COUNT_BOUND)
    requires AuditAccepts(H, b, None) || ScriptAccepts(H, b) || WidgetAccepts(H, b, requested)
    ensures IsHash(b.leafHash) && IsHash(b.rootHash) && AreSteps(b.proof) && b.leafCount >= 1
    ensures CommitRoot(H, b.leafCount, WalkProof(H, HashOf(b.leafHash), StepsOf(b.proof))) == HashOf(b.rootHash)
  {
    var raw := WalkProof(H, HashOf(b.leafHash), StepsOf(b.proof));
    SameHash(CommitRoot(H, b.leafCount, raw), b.rootHash);
  }

  // ---------------------------------------------------------------------------------
  // What the server publishes
  // ---------------------------------------------------------------------------------

  function SchemeLabel(s: Scheme): string {
    match s
    case CountBoundV2 => COUNT_BOUND
    case LegacyDuplicateOdd => LEGACY
    case Invalid => "INVALID"
  }

  function PublishedStep(step: ProofStep): BundleStep {
    BundleStep(Encode(step.hash), if step.position == Left then "left" else "right")
  }

  function PublishedSteps(proof: seq<ProofStep>): (steps: seq<BundleStep>)
    ensures |steps| == |proof|
  {
    if proof == [] then [] else PublishedSteps(proof[..|proof| - 1]) + [PublishedStep(proof[|proof| - 1])]
  }

  /** The JSON of `proof_bundle_json`. */
  function Published(H: Hash, b: Bundle): ProofBundle {
    ProofBundle(
      "ZAP1", CURRENT_VERSION, Encode(b.leaf.hash), PublishedSteps(b.proof), Encode(b.root.hash), b.root.count,
      Some(SchemeLabel(VerifyBundleMerkle(H, b).scheme)),
      if b.root.txid.None? then None else Some(Encode(b.root.txid.value)),
      if b.root.height.None? then None else Some(b.root.height.value))
  }

  lemma PublishedStepDecodes(step: ProofStep)
    ensures IsStep(PublishedStep(step)) && StepOf(PublishedStep(step)) == step
  {
    EncodedHash(step.hash);
    assert "left" != "right" by {
      assert "left"[0] != "right"[0];
    }
  }

  lemma StepsOfAppend(front: seq<BundleStep>, last: BundleStep)
    requires AreSteps(front) && IsStep(last)
    ensures AreSteps(front + [last]) && StepsOf(front + [last]) == StepsOf(front) + [StepOf(last)]
  {
    assert (front + [last])[..|front|] == front;
  }

  lemma {:induction false} PublishedStepsDecode(proof: seq<ProofStep>)
    ensures AreSteps(PublishedSteps(proof)) && StepsOf(PublishedSteps(proof)) == proof
  {
    if proof != [] {
      var front, last := proof[..|proof| - 1], proof[|proof| - 1];
      PublishedStepsDecode(front);
      PublishedStepDecodes(last);
      StepsOfAppend(PublishedSteps(front), PublishedStep(last));
      assert proof == front + [last];
    }
  }

  /** The hexadecimal of a published bundle reads back. */
  lemma PublishedDecodes(H: Hash, b: Bundle)
    ensures var p := Published(H, b);
      && IsHash(p.leafHash) && HashOf(p.leafHash) == b.leaf.hash
      && IsHash(p.rootHash) && HashOf(p.rootHash) == b.root.hash
      && (p.txid.Some? ==> IsHash(p.txid.value))
      && AreSteps(p.proof) && StepsOf(p.proof) == b.proof
  {
    EncodedHash(b.leaf.hash);
    EncodedHash(b.root.hash);
    if b.root.txid.Some? {
      EncodedHash(b.root.txid.value);
    }
    PublishedStepsDecode(b.proof);
  }

  lemma LabelsDiffer()
    ensures COUNT_BOUND != LEGACY && SchemeLabel(Invalid) != COUNT_BOUND && SchemeLabel(Invalid) != LEGACY
  {
    assert COUNT_BOUND[5] == 'C' && LEGACY[5] == 'L' && SchemeLabel(Invalid)[0] == 'I';
  }

  /**
   From database to verifier: a published bundle is accepted by the offline verifiers exactly
   when the server's own check reports it valid.
   */
  lemma PublishedIsAcceptedIff(H: Hash, b: Bundle)
    requires 1 <= b.root.count <= MAX_U64
    requires b.root.height.Some? ==> b.root.height.value <= MAX_U32
    ensures AuditAccepts(H, Published(H, b), None) <==> VerifyBundleMerkle(H, b).valid
    ensures ScriptAccepts(H, Published(H, b)) <==> VerifyBundleMerkle(H, b).valid
    ensures b.root.count <= MAX_SAFE_INTEGER ==>
      (WidgetAccepts(H, Published(H, b), Encode(b.leaf.hash)) <==> VerifyBundleMerkle(H, b).valid)
  {
    var p := Published(H, b);
    PublishedDecodes(H, b);
    LabelsDiffer();
    PublishedPassesIff(H, b, p);
    AuditAgreesWithScript(H, p);
    WidgetAgreesWithAudit(H, p, p.leafHash);
  }

  /** The script's verdict on a bundle with the published fields. */
  lemma PublishedPassesIff(H: Hash, b: Bundle, p: ProofBundle)
    requires 1 <= b.root.count <= MAX_U64
    requires b.root.height.Some? ==> b.root.height.value <= MAX_U32
    requires IsHash(p.leafHash) && HashOf(p.leafHash) == b.leaf.hash
    requires IsHash(p.rootHash) && HashOf(p.rootHash) == b.root.hash
    requires p.txid.Some? ==> IsHash(p.txid.value)
    requires AreSteps(p.proof) && StepsOf(p.proof) == b.proof
    requires p.protocol == "ZAP1" && p.version == CURRENT_VERSION && p.leafCount == b.root.count
    requires p.scheme == Some(SchemeLabel(VerifyBundleMerkle(H, b).scheme))
    requires p.height == if b.root.height.None? then None else Some(b.root.height.value)
    requires COUNT_BOUND != LEGACY && SchemeLabel(Invalid) != COUNT_BOUND && SchemeLabel(Invalid) != LEGACY
    ensures ScriptAccepts(H, p) <==> VerifyBundleMerkle(H, b).valid
  {}
}
