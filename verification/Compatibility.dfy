/**
 Second implementations of the tree loops.  scripts/check_compatibility.py pairs an odd last
 node with itself and then binds the leaf count; conformance/implementation_profile_check.py
 appends a copy of an odd last node before it pairs.
 */
module Compatibility {
  import opened Bytes
  import opened Results
  import opened Heights
  import opened Levels
  import opened Merkle
  import opened Binding

  method CountBoundMerkleRoot(H: Hash, leaves: seq<Digest>) returns (root: Option<Digest>)
    ensures root == if leaves == [] then None else Some(CommitRoot(H, |leaves|, LegacyRoot(H, leaves)))
  {
    if leaves == [] {
      return None;
    }
    var level := leaves;
    var leafCount := |level|;
    while |level| > 1
      invariant |level| > 0
      invariant LegacyRoot(H, level) == LegacyRoot(H, leaves)
      decreases |level|
    {
      CompletedOneLevelUp(H, level);
      level := DupLevelUp(H, level);
    }
    LegacyRootOfOne(H, level);
    root := Some(CommitRoot(H, leafCount, level[0]));
  }

  lemma LegacyRootOfOne(H: Hash, level: seq<Digest>)
    requires |level| == 1
    ensures LegacyRoot(H, level) == level[0]
  {}

  /**
   The checker agrees with `compute_root` exactly on lists whose length is a power of two; on
   every other length it computes a different root.
   */
  lemma CheckerAgreesIff(H: Hash, inputs: set<Preimage>, events: seq<ByteString>)
    requires 0 < |events| <= MAX_U64
    requires InjectiveOn(H, inputs) && LeafInputs(events) <= inputs
    requires RootInputs(H, LeafHashes(H, events)) <= inputs
    requires TreeInputs(H, Completed(LeafHashes(H, events))) <= inputs
    requires CommitPreimage(|events|, LegacyRoot(H, LeafHashes(H, events))) in inputs
    ensures CommitRoot(H, |events|, LegacyRoot(H, LeafHashes(H, events))) == ComputedRoot(H, LeafHashes(H, events))
       <==> |events| == Pow2(CeilLog2(|events|))
  {
    var leaves := LeafHashes(H, events);
    var raw, legacy := RawRoot(H, leaves), LegacyRoot(H, leaves);
    RawEqualsLegacyIff(H, inputs, events);
    if CommitRoot(H, |events|, legacy) == CommitRoot(H, |events|, raw) {
      CommitInputInjective(|events|, legacy, |events|, raw);
    }
  }

  /** On three leaves the two roots differ. */
  lemma ThreeLeavesDisagree(H: Hash, inputs: set<Preimage>, events: seq<ByteString>)
    requires |events| == 3
    requires InjectiveOn(H, inputs) && LeafInputs(events) <= inputs
    requires RootInputs(H, LeafHashes(H, events)) <= inputs
    requires TreeInputs(H, Completed(LeafHashes(H, events))) <= inputs
    requires CommitPreimage(3, LegacyRoot(H, LeafHashes(H, events))) in inputs
    ensures CommitRoot(H, 3, LegacyRoot(H, LeafHashes(H, events))) != ComputedRoot(H, LeafHashes(H, events))
  {
    CheckerAgreesIff(H, inputs, events);
    Pow2IsNotThree(CeilLog2(3));
  }

  lemma Pow2IsNotThree(k: nat)
    ensures Pow2(k) != 3
  {}

  /** Appending the copy is the same as pairing the last node with itself. */
  method ConformanceLegacyRoot(H: Hash, leaves: seq<Digest>) returns (root: Digest)
    ensures root == LegacyRoot(H, leaves)
  {
    if leaves == [] {
      return ZERO_DIGEST;
    }
    var nodes := leaves;
    while |nodes| > 1
      invariant |nodes| > 0
      invariant LegacyRoot(H, nodes) == LegacyRoot(H, leaves)
      decreases |nodes|
    {
      CompletedOneLevelUp(H, nodes);
      ghost var level := nodes;
      if |nodes| % 2 == 1 {
        var last := nodes[|nodes| - 1];
        LastNodeRepeated(NodeOf(H), nodes, last);
        nodes := nodes + [last];
      }
      // A list of even length is paired the same way under every scheme.
      nodes := DupLevelUp(H, nodes);
      assert nodes == DupUp(NodeOf(H), level);
    }
    LegacyRootOfOne(H, nodes);
    root := nodes[0];
  }

  lemma LastNodeRepeated(node: (Digest, Digest) -> Digest, nodes: seq<Digest>, last: Digest)
    requires |nodes| % 2 == 1 && last == nodes[|nodes| - 1]
    ensures DupUp(node, nodes + [last]) == DupUp(node, nodes)
  {
    var even := EvenPart(nodes);
    CopyAppended(node, nodes, even, last);
  }

  lemma EvenPart<D>(nodes: seq<D>) returns (even: seq<D>)
    requires |nodes| % 2 == 1
    ensures |even| % 2 == 0 && nodes == even + [nodes[|nodes| - 1]]
  {
    even := nodes[..|nodes| - 1];
  }

  lemma CopyAppended(node: (Digest, Digest) -> Digest, nodes: seq<Digest>, even: seq<Digest>, last: Digest)
    requires |even| % 2 == 0 && nodes == even + [last]
    ensures DupUp(node, nodes + [last]) == DupUp(node, nodes)
  {
    AppendTwice(even, last);
    DupUpRepeatsLast(node, even, last);
  }
}
