/**
 src/merkle.rs: roots and inclusion proofs over a list of 32-byte leaf hashes.

 The hash is an arbitrary function from a personalization and an input to a digest.  Where
 a statement needs it to be free of collisions, it asks so of the inputs that were hashed
 and of no others (`InjectiveOn`).
 */
module Merkle {
  import opened Bytes
  import opened Trees
  import opened Heights
  import opened Levels
  import opened Completion

  type Hash = (ByteString, ByteString) -> Digest

  /** A personalization and an input. */
  type Preimage = (ByteString, ByteString)

  type ProofStep = Step<Digest>

  // "NordicShield_" padded with zero bytes, or followed by "MRK" or "RTK".
  const STEM: ByteString := [0x4e, 0x6f, 0x72, 0x64, 0x69, 0x63, 0x53, 0x68, 0x69, 0x65, 0x6c, 0x64, 0x5f]
  const LEAF_PERSONAL: ByteString := STEM + [0x00, 0x00, 0x00]
  const NODE_PERSONAL: ByteString := STEM + [0x4d, 0x52, 0x4b]
  const ROOT_PERSONAL: ByteString := STEM + [0x52, 0x54, 0x4b]

  lemma PersonalizationsDiffer()
    ensures LEAF_PERSONAL != NODE_PERSONAL && NODE_PERSONAL != ROOT_PERSONAL && LEAF_PERSONAL != ROOT_PERSONAL
  {
    assert LEAF_PERSONAL[14] == 0 && NODE_PERSONAL[14] == 0x52 && ROOT_PERSONAL[14] == 0x54;
  }

  function HashNode(H: Hash, left: Digest, right: Digest): Digest {
    H(NODE_PERSONAL, left + right)
  }

  function NodeOf(H: Hash): (Digest, Digest) -> Digest {
    (left, right) => HashNode(H, left, right)
  }

  /** The 41 bytes that bind a raw root to a leaf count. */
  function CommitInput(leafCount: nat, rawRoot: Digest): ByteString {
    [1] + BigEndian(leafCount, 8) + rawRoot
  }

  function CommitRoot(H: Hash, leafCount: nat, rawRoot: Digest): Digest {
    H(ROOT_PERSONAL, CommitInput(leafCount, rawRoot))
  }

  lemma PersonalizationsAre()
    ensures IsText(NODE_PERSONAL, "NordicShield_MRK") && IsText(ROOT_PERSONAL, "NordicShield_RTK")
    ensures IsText(LEAF_PERSONAL[..13], "NordicShield_") && LEAF_PERSONAL[13..] == [0, 0, 0]
  {}

  /** A version byte, the count in eight bytes, and the raw root. */
  lemma CommitInputIs(leafCount: nat, rawRoot: Digest)
    ensures CommitInput(leafCount, rawRoot) == [1] + EightBytes(leafCount) + rawRoot
  {
    BigEndianIs(leafCount);
  }

  function RawRoot(H: Hash, leaves: seq<Digest>): Digest {
    if leaves == [] then ZERO_DIGEST else Root(NodeOf(H), leaves)
  }

  function ComputedRoot(H: Hash, leaves: seq<Digest>): Digest {
    if leaves == [] then ZERO_DIGEST else CommitRoot(H, |leaves|, RawRoot(H, leaves))
  }

  /**
   What is hashed for a root, from the leaves up: the two subtrees of a list joined under the
   personalization of nodes, and its raw root with its length under that of roots.
   */
  lemma RootsAreHashed(H: Hash, leaves: seq<Digest>, h: nat, nodeText: ByteString, rootText: ByteString)
    requires leaves != [] && IsText(nodeText, "NordicShield_MRK") && IsText(rootText, "NordicShield_RTK")
    ensures |leaves| == 1 ==> RawRoot(H, leaves) == leaves[0]
    ensures var k := Pow2(h);
      k < |leaves| <= 2 * k ==> RawRoot(H, leaves) == H(nodeText, RawRoot(H, leaves[..k]) + RawRoot(H, leaves[k..]))
    ensures ComputedRoot(H, leaves) == H(rootText, [1] + EightBytes(|leaves|) + RawRoot(H, leaves))
    ensures RawRoot(H, []) == ComputedRoot(H, []) == Zeros(32)
  {
    PersonalizationsAre();
    assert nodeText == NODE_PERSONAL && rootText == ROOT_PERSONAL;
    CommitInputIs(|leaves|, RawRoot(H, leaves));
    if |leaves| > 1 {
      SplitPointIsPow2(|leaves|, h);
    }
  }

  /** The list the legacy scheme in effect hashes: completed to the next power of two. */
  function Completed(leaves: seq<Digest>): (c: seq<Digest>)
    requires leaves != []
  {
    CeilLog2Bounds(|leaves|);
    Expand(leaves, CeilLog2(|leaves|))
  }

  function LegacyRoot(H: Hash, leaves: seq<Digest>): Digest {
    if leaves == [] then ZERO_DIGEST else Root(NodeOf(H), Completed(leaves))
  }

  function ProofFor(H: Hash, leaves: seq<Digest>, index: nat): seq<ProofStep> {
    if index < |leaves| then Path(NodeOf(H), leaves, index) else []
  }

  function LegacyProofFor(H: Hash, leaves: seq<Digest>, index: nat): seq<ProofStep> {
    if index < |leaves| then
      CeilLog2Bounds(|leaves|);
      Path(NodeOf(H), Completed(leaves), index)
    else []
  }

  // ---------------------------------------------------------------------------------
  // The level-by-level loops compute the trees above.
  // ---------------------------------------------------------------------------------

  method CarryLevelUp(H: Hash, level: seq<Digest>) returns (next: seq<Digest>)
    ensures next == CarryUp(NodeOf(H), level)
  {
    next := [];
    var i := 0;
    while i < |level|
      invariant 0 <= i <= |level| || i == |level| + 1
      invariant i <= |level| ==> next + CarryUp(NodeOf(H), level[i..]) == CarryUp(NodeOf(H), level)
      invariant i > |level| ==> next == CarryUp(NodeOf(H), level)
    {
      CarryUpFrom(NodeOf(H), level, i);
      if i + 1 < |level| {
        next := next + [HashNode(H, level[i], level[i + 1])];
      } else {
        next := next + [level[i]];
      }
      i := i + 2;
    }
  }

  method DupLevelUp(H: Hash, level: seq<Digest>) returns (next: seq<Digest>)
    ensures next == DupUp(NodeOf(H), level)
  {
    next := [];
    var i := 0;
    while i < |level|
      invariant 0 <= i <= |level| || i == |level| + 1
      invariant i <= |level| ==> next + DupUp(NodeOf(H), level[i..]) == DupUp(NodeOf(H), level)
      invariant i > |level| ==> next == DupUp(NodeOf(H), level)
    {
      var right := if i + 1 < |level| then level[i + 1] else level[i];
      DupUpFrom(NodeOf(H), level, i);
      next := next + [HashNode(H, level[i], right)];
      i := i + 2;
    }
  }

  method ComputeRawTreeRoot(H: Hash, leaves: seq<Digest>) returns (root: Digest)
    ensures root == RawRoot(H, leaves)
  {
    if leaves == [] {
      return ZERO_DIGEST;
    }
    var level := leaves;
    while |level| > 1
      invariant |level| > 0
      invariant Root(NodeOf(H), level) == Root(NodeOf(H), leaves)
      decreases |level|
    {
      CarryUpKeepsRoot(NodeOf(H), level);
      level := CarryLevelUp(H, level);
    }
    root := level[0];
  }

  method ComputeRoot(H: Hash, leaves: seq<Digest>) returns (root: Digest)
    ensures root == ComputedRoot(H, leaves)
  {
    if leaves == [] {
      return ZERO_DIGEST;
    }
    var raw := ComputeRawTreeRoot(H, leaves);
    root := CommitRoot(H, |leaves|, raw);
  }

  method ComputeLegacyRoot(H: Hash, leaves: seq<Digest>) returns (root: Digest)
    ensures root == LegacyRoot(H, leaves)
  {
    if leaves == [] {
      return ZERO_DIGEST;
    }
    var level := leaves;
    while |level| > 1
      invariant |level| > 0
      invariant Root(NodeOf(H), Completed(level)) == Root(NodeOf(H), Completed(leaves))
      decreases |level|
    {
      CompletedOneLevelUp(H, level);
      level := DupLevelUp(H, level);
    }
    root := level[0];
  }

  method GenerateProof(H: Hash, leaves: seq<Digest>, index: nat) returns (proof: seq<ProofStep>)
    ensures proof == ProofFor(H, leaves, index)
  {
    if leaves == [] || index >= |leaves| {
      return [];
    }
    proof := [];
    var level := leaves;
    var current: nat := index;
    while |level| > 1
      invariant current < |level|
      invariant proof + ProofFor(H, level, current) == ProofFor(H, leaves, index)
      decreases |level|
    {
      ProofOneLevelUp(H, level, current);
      Assoc(proof, LevelSteps(level, current), ProofFor(H, CarryUp(NodeOf(H), level), current / 2));
      ghost var before := proof;
      if current % 2 == 0 {
        var sibling := current + 1;
        if sibling < |level| {
          proof := proof + [Step(level[sibling], Right)];
        }
      } else {
        proof := proof + [Step(level[current - 1], Left)];
      }
      assert proof == before + LevelSteps(level, current);
      level := CarryLevelUp(H, level);
      current := current / 2;
    }
  }

  method GenerateLegacyProof(H: Hash, leaves: seq<Digest>, index: nat) returns (proof: seq<ProofStep>)
    ensures proof == LegacyProofFor(H, leaves, index)
  {
    if leaves == [] || index >= |leaves| {
      return [];
    }
    proof := [];
    var level := leaves;
    var current: nat := index;
    while |level| > 1
      invariant current < |level|
      invariant proof + LegacyProofFor(H, level, current) == LegacyProofFor(H, leaves, index)
      decreases |level|
    {
      LegacyProofOneLevelUp(H, level, current);
      Assoc(proof, [LegacyStep(level, current)], LegacyProofFor(H, DupUp(NodeOf(H), level), current / 2));
      var siblingIndex := if current % 2 == 0 then current + 1 else current - 1;
      var sibling := if siblingIndex < |level| then level[siblingIndex] else level[current];
      proof := proof + [Step(sibling, if current % 2 == 0 then Right else Left)];
      level := DupLevelUp(H, level);
      current := current / 2;
    }
    LegacyProofOfOne(H, level);
  }

  lemma LegacyProofOfOne(H: Hash, level: seq<Digest>)
    requires |level| == 1
    ensures LegacyProofFor(H, level, 0) == []
  {
    ExpandFull(level, 0);
  }

  lemma ProofOneLevelUp(H: Hash, level: seq<Digest>, i: nat)
    requires i < |level| && |level| > 1
    ensures ProofFor(H, level, i) == LevelSteps(level, i) + ProofFor(H, CarryUp(NodeOf(H), level), i / 2)
  {
    CarryUpPath(NodeOf(H), level, i);
  }

  lemma CompletedDupUp(node: (Digest, Digest) -> Digest, level: seq<Digest>)
    requires |level| > 1
    ensures DupUp(node, level) != []
    ensures CarryUp(node, Completed(level)) == Completed(DupUp(node, level))
  {
    var h := CeilLog2(|level|);
    CeilLog2Bounds(|level|);
    assert h == 1 + CeilLog2(|DupUp(node, level)|);
    ExpandDupUp(node, level, h);
  }

  lemma CompletedOneLevelUp(H: Hash, level: seq<Digest>)
    requires |level| > 1
    ensures DupUp(NodeOf(H), level) != []
    ensures Root(NodeOf(H), Completed(level)) == Root(NodeOf(H), Completed(DupUp(NodeOf(H), level)))
  {
    CompletedDupUp(NodeOf(H), level);
    CarryUpKeepsRoot(NodeOf(H), Completed(level));
  }

  /** The step the legacy scheme records for a position: its own hash when it stands alone. */
  function LegacyStep(level: seq<Digest>, i: nat): ProofStep
    requires i < |level|
  {
    if i % 2 == 1 then Step(level[i - 1], Left)
    else Step(if i + 1 < |level| then level[i + 1] else level[i], Right)
  }

  /** In the completed list an even position has a neighbour: the next entry, or itself again. */
  lemma NeighbourInExpanded(level: seq<Digest>, h: nat, i: nat)
    requires h > 0 && i < |level| <= Pow2(h) && i % 2 == 0
    ensures i + 1 < Pow2(h)
    ensures Expand(level, h)[i + 1] == if i + 1 < |level| then level[i + 1] else level[i]
  {
    assert Pow2(h) == 2 * Pow2(h - 1);
    if i + 1 < |level| {
      ExpandBegins(level, h, i + 1);
    } else {
      ExpandRepeatsLast(level, h);
    }
  }

  lemma LegacyStepInCompleted(level: seq<Digest>, i: nat)
    requires i < |level| && |level| > 1
    ensures i < |Completed(level)| && LevelSteps(Completed(level), i) == [LegacyStep(level, i)]
  {
    var h := CeilLog2(|level|);
    CeilLog2Bounds(|level|);
    if i % 2 == 1 {
      ExpandBegins(level, h, i - 1);
    } else {
      NeighbourInExpanded(level, h, i);
    }
  }

  lemma LegacyProofOneLevelUp(H: Hash, level: seq<Digest>, i: nat)
    requires i < |level| && |level| > 1
    ensures LegacyProofFor(H, level, i) == [LegacyStep(level, i)] + LegacyProofFor(H, DupUp(NodeOf(H), level), i / 2)
  {
    LegacyStepInCompleted(level, i);
    CompletedDupUp(NodeOf(H), level);
    CarryUpPath(NodeOf(H), Completed(level), i);
  }
}
