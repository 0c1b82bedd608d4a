/**
 What the roots and proofs of src/merkle.rs establish.  Completeness needs nothing of the
 hash.  Soundness and injectivity ask the hash to be injective on exactly the inputs that
 were hashed, a set that is finite and named in each statement.
 */
module Binding {
  import opened Bytes
  import opened Trees
  import opened Heights
  import opened Levels
  import opened Completion
  import opened Merkle

  ghost predicate InjectiveOn(H: Hash, inputs: set<Preimage>) {
    forall p, q :: p in inputs && q in inputs && H(p.0, p.1) == H(q.0, q.1) ==> p == q
  }

  function WalkProof(H: Hash, leaf: Digest, proof: seq<ProofStep>): Digest {
    Walk(NodeOf(H), leaf, proof)
  }

  /** What a step of a proof hashes: a left sibling comes before the value so far, a right one after it. */
  lemma WalkIsHashed(H: Hash, leaf: Digest, proof: seq<ProofStep>, sibling: Digest, nodeText: ByteString)
    requires IsText(nodeText, "NordicShield_MRK")
    ensures WalkProof(H, leaf, []) == leaf
    ensures WalkProof(H, leaf, proof + [Step(sibling, Left)]) == H(nodeText, sibling + WalkProof(H, leaf, proof))
    ensures WalkProof(H, leaf, proof + [Step(sibling, Right)]) == H(nodeText, WalkProof(H, leaf, proof) + sibling)
  {
    PersonalizationsAre();
    assert nodeText == NODE_PERSONAL;
    assert (proof + [Step(sibling, Left)])[..|proof|] == proof;
    assert (proof + [Step(sibling, Right)])[..|proof|] == proof;
  }

  // ---------------------------------------------------------------------------------
  // The inputs hashed
  // ---------------------------------------------------------------------------------

  ghost function NodeInputs(pairs: set<(Digest, Digest)>): set<Preimage> {
    set p | p in pairs :: (NODE_PERSONAL, p.0 + p.1)
  }

  /** What computing the raw root of a list hashes. */
  ghost function TreeInputs(H: Hash, leaves: seq<Digest>): set<Preimage>
    requires leaves != []
  {
    NodeInputs(Joins(NodeOf(H), leaves))
  }

  /** What walking a proof hashes. */
  ghost function WalkInputs(H: Hash, leaf: Digest, proof: seq<ProofStep>): set<Preimage> {
    NodeInputs(WalkJoins(NodeOf(H), leaf, proof))
  }

  /** What binding a raw root to a count hashes. */
  function CommitPreimage(leafCount: nat, rawRoot: Digest): Preimage {
    (ROOT_PERSONAL, CommitInput(leafCount, rawRoot))
  }

  /** What computing the committed root of a list hashes. */
  ghost function RootInputs(H: Hash, leaves: seq<Digest>): set<Preimage>
    requires leaves != []
  {
    TreeInputs(H, leaves) + {CommitPreimage(|leaves|, RawRoot(H, leaves))}
  }

  /** The leaf hashes of a list of leaf preimages. */
  function LeafHashes(H: Hash, events: seq<ByteString>): (leaves: seq<Digest>)
    ensures |leaves| == |events|
    ensures forall i :: 0 <= i < |events| ==> leaves[i] == H(LEAF_PERSONAL, events[i])
  {
    if events == [] then [] else LeafHashes(H, events[..|events| - 1]) + [H(LEAF_PERSONAL, events[|events| - 1])]
  }

  ghost function LeafInputs(events: seq<ByteString>): set<Preimage> {
    set e | e in events :: (LEAF_PERSONAL, e)
  }

  lemma SameNodeInput(p: (Digest, Digest), q: (Digest, Digest))
    requires p.0 + p.1 == q.0 + q.1
    ensures p == q
  {
    SplitAt(p.0, q.0, p.1, q.1);
  }

  lemma NodesDoNotClash(H: Hash, inputs: set<Preimage>, pairs: set<(Digest, Digest)>)
    requires InjectiveOn(H, inputs) && NodeInputs(pairs) <= inputs
    ensures NoClash(NodeOf(H), pairs)
  {
    forall p, q | p in pairs && q in pairs && NodeOf(H)(p.0, p.1) == NodeOf(H)(q.0, q.1)
      ensures p == q
    {
      assert (NODE_PERSONAL, p.0 + p.1) in NodeInputs(pairs) && (NODE_PERSONAL, q.0 + q.1) in NodeInputs(pairs);
      SameNodeInput(p, q);
    }
  }

  /** The personalizations keep leaf hashes and node hashes apart. */
  lemma LeavesAreNoNodes(H: Hash, inputs: set<Preimage>, pairs: set<(Digest, Digest)>, events: seq<ByteString>)
    requires InjectiveOn(H, inputs) && NodeInputs(pairs) <= inputs && LeafInputs(events) <= inputs
    ensures Separated(NodeOf(H), pairs, Elements(LeafHashes(H, events)))
  {
    PersonalizationsDiffer();
    forall p | p in pairs
      ensures NodeOf(H)(p.0, p.1) !in Elements(LeafHashes(H, events))
    {
      assert (NODE_PERSONAL, p.0 + p.1) in NodeInputs(pairs);
      forall i | 0 <= i < |events| ensures LeafHashes(H, events)[i] != NodeOf(H)(p.0, p.1) {
        assert (LEAF_PERSONAL, events[i]) in LeafInputs(events);
      }
    }
  }

  lemma CommitInputInjective(n: nat, raw: Digest, m: nat, raw': Digest)
    requires n <= MAX_U64 && m <= MAX_U64
    requires CommitInput(n, raw) == CommitInput(m, raw')
    ensures n == m && raw == raw'
  {
    CapacityValues();
    SplitAt([1] + BigEndian(n, 8), [1] + BigEndian(m, 8), raw, raw');
    SplitAt([1], [1], BigEndian(n, 8), BigEndian(m, 8));
    BigEndianRoundTrip(n, 8);
    BigEndianRoundTrip(m, 8);
  }

  // ---------------------------------------------------------------------------------
  // Completeness and size
  // ---------------------------------------------------------------------------------

  /** Every generated proof walks to the raw root, and through the count to the committed root. */
  lemma GeneratedProofVerifies(H: Hash, leaves: seq<Digest>, i: nat)
    requires i < |leaves|
    ensures WalkProof(H, leaves[i], ProofFor(H, leaves, i)) == RawRoot(H, leaves)
    ensures CommitRoot(H, |leaves|, WalkProof(H, leaves[i], ProofFor(H, leaves, i))) == ComputedRoot(H, leaves)
  {
    PathWalksToRoot(NodeOf(H), leaves, i);
  }

  lemma GeneratedLegacyProofVerifies(H: Hash, leaves: seq<Digest>, i: nat)
    requires i < |leaves|
    ensures WalkProof(H, leaves[i], LegacyProofFor(H, leaves, i)) == LegacyRoot(H, leaves)
  {
    CeilLog2Bounds(|leaves|);
    ExpandBegins(leaves, CeilLog2(|leaves|), i);
    PathWalksToRoot(NodeOf(H), Completed(leaves), i);
  }

  lemma ProofLengths(H: Hash, leaves: seq<Digest>, i: nat)
    requires i < |leaves|
    ensures |ProofFor(H, leaves, i)| <= CeilLog2(|leaves|)
    ensures |LegacyProofFor(H, leaves, i)| == CeilLog2(|leaves|)
  {
    CeilLog2Bounds(|leaves|);
    PathLength(NodeOf(H), leaves, i, CeilLog2(|leaves|));
    PathLength(NodeOf(H), Completed(leaves), i, CeilLog2(|leaves|));
  }

  // ---------------------------------------------------------------------------------
  // Soundness and injectivity
  // ---------------------------------------------------------------------------------

  /**
   An accepted count-bound proof is the generated one: if an event and any proof reach the
   committed root of a log under any claimed count, then the count is the size of the log,
   the event is in the log, and the proof is the one generated for its place.
   */
  lemma AcceptedProofIsGenerated(
    H: Hash, inputs: set<Preimage>, events: seq<ByteString>, event: ByteString, proof: seq<ProofStep>, leafCount: nat)
    returns (i: nat)
    requires events != [] && |events| <= MAX_U64 && leafCount <= MAX_U64
    requires InjectiveOn(H, inputs)
    requires LeafInputs(events + [event]) <= inputs
    requires RootInputs(H, LeafHashes(H, events)) <= inputs
    requires WalkInputs(H, H(LEAF_PERSONAL, event), proof) <= inputs
    requires CommitPreimage(leafCount, WalkProof(H, H(LEAF_PERSONAL, event), proof)) in inputs
    requires CommitRoot(H, leafCount, WalkProof(H, H(LEAF_PERSONAL, event), proof))
          == ComputedRoot(H, LeafHashes(H, events))
    ensures leafCount == |events|
    ensures i < |events| && events[i] == event && proof == ProofFor(H, LeafHashes(H, events), i)
  {
    var leaves := LeafHashes(H, events);
    CommitInputInjective(leafCount, WalkProof(H, H(LEAF_PERSONAL, event), proof), |leaves|, RawRoot(H, leaves));
    i := RawProofIsGenerated(H, inputs, events, leaves, event, proof);
    assert events[i] in events + [event] && event in events + [event];
    assert (LEAF_PERSONAL, events[i]) in LeafInputs(events + [event]);
    assert (LEAF_PERSONAL, event) in LeafInputs(events + [event]);
  }

  /**
   What soundness asks of a proof, every generated one meets: it hashes nothing but what was hashed
   for the leaves and the root of the log.
   */
  lemma GeneratedProofIsAdmissible(H: Hash, inputs: set<Preimage>, events: seq<ByteString>, i: nat)
    requires i < |events| && LeafInputs(events) <= inputs && RootInputs(H, LeafHashes(H, events)) <= inputs
    ensures var leaf, proof := H(LEAF_PERSONAL, events[i]), ProofFor(H, LeafHashes(H, events), i);
      && LeafInputs(events + [events[i]]) <= inputs
      && WalkInputs(H, leaf, proof) <= inputs
      && CommitPreimage(|events|, WalkProof(H, leaf, proof)) in inputs
      && CommitRoot(H, |events|, WalkProof(H, leaf, proof)) == ComputedRoot(H, LeafHashes(H, events))
  {
    var leaves := LeafHashes(H, events);
    PathJoins(NodeOf(H), leaves, i);
    GeneratedProofVerifies(H, leaves, i);
    assert LeafInputs(events + [events[i]]) <= LeafInputs(events) by {
      assert events[i] in events;
    }
  }

  lemma RawProofIsGenerated(
    H: Hash, inputs: set<Preimage>, events: seq<ByteString>, tree: seq<Digest>, event: ByteString, proof: seq<ProofStep>)
    returns (i: nat)
    requires tree != [] && Elements(tree) <= Elements(LeafHashes(H, events))
    requires InjectiveOn(H, inputs)
    requires LeafInputs(events + [event]) <= inputs
    requires TreeInputs(H, tree) <= inputs
    requires WalkInputs(H, H(LEAF_PERSONAL, event), proof) <= inputs
    requires WalkProof(H, H(LEAF_PERSONAL, event), proof) == Root(NodeOf(H), tree)
    ensures i < |tree| && tree[i] == H(LEAF_PERSONAL, event) && proof == Path(NodeOf(H), tree, i)
  {
    var leaf := H(LEAF_PERSONAL, event);
    var pairs := Joins(NodeOf(H), tree) + WalkJoins(NodeOf(H), leaf, proof);
    assert NodeInputs(pairs) <= inputs by {
      assert NodeInputs(pairs) == TreeInputs(H, tree) + WalkInputs(H, leaf, proof);
    }
    NodesDoNotClash(H, inputs, pairs);
    LeavesAreNoNodes(H, inputs, pairs, events + [event]);
    assert Elements(LeafHashes(H, events)) + {leaf} <= Elements(LeafHashes(H, events + [event])) by {
      var all := LeafHashes(H, events + [event]);
      assert forall j :: 0 <= j < |events| ==> all[j] == LeafHashes(H, events)[j];
      assert all[|events|] == leaf;
    }
    i := ProofIsAPath(NodeOf(H), pairs, tree, leaf, proof);
  }

  /** The committed root determines the list of leaves. */
  lemma ComputedRootInjective(H: Hash, inputs: set<Preimage>, s: seq<Digest>, t: seq<Digest>)
    requires 0 < |s| <= MAX_U64 && 0 < |t| <= MAX_U64
    requires InjectiveOn(H, inputs) && RootInputs(H, s) <= inputs && RootInputs(H, t) <= inputs
    requires ComputedRoot(H, s) == ComputedRoot(H, t)
    ensures s == t
  {
    CommitInputInjective(|s|, RawRoot(H, s), |t|, RawRoot(H, t));
    var pairs := Joins(NodeOf(H), s) + Joins(NodeOf(H), t);
    assert NodeInputs(pairs) == TreeInputs(H, s) + TreeInputs(H, t);
    NodesDoNotClash(H, inputs, pairs);
    SameLengthRootInjective(NodeOf(H), pairs, s, t);
  }

  // ---------------------------------------------------------------------------------
  // The legacy scheme
  // ---------------------------------------------------------------------------------

  /** The ambiguity that the count commitment removes, for every hash. */
  lemma LegacyRootRepeatsLast(H: Hash, leaves: seq<Digest>)
    requires |leaves| > 1 && |leaves| % 2 == 1
    ensures LegacyRoot(H, leaves + [leaves[|leaves| - 1]]) == LegacyRoot(H, leaves)
  {
    var even, last := leaves[..|leaves| - 1], leaves[|leaves| - 1];
    assert leaves == even + [last] && leaves + [last] == even + [last, last];
    DupUpRepeatsLast(NodeOf(H), even, last);
    CompletedOneLevelUp(H, leaves);
    CompletedOneLevelUp(H, leaves + [last]);
  }

  lemma DupUpRepeatsLast(node: (Digest, Digest) -> Digest, even: seq<Digest>, last: Digest)
    requires |even| % 2 == 0
    ensures DupUp(node, even + [last]) == DupUp(node, even + [last, last])
  {
    DupUpJoins(node, even, [last]);
    DupUpJoins(node, even, [last, last]);
    DupUpOfPair(node, last);
  }

  lemma DupUpOfPair(node: (Digest, Digest) -> Digest, x: Digest)
    ensures DupUp(node, [x, x]) == DupUp(node, [x])
  {
    assert DupUp(node, [x, x]) == [node(x, x)] + DupUp(node, []);
  }

  /**
   Exactly when two lists share a legacy root: when their completions are the same list.
   `LegacyRoot` is therefore injective on lists whose length is a power of two.
   */
  lemma LegacyRootsEqualIff(
    H: Hash, inputs: set<Preimage>, events: seq<ByteString>, s: seq<Digest>, t: seq<Digest>)
    requires s != [] && t != []
    requires Elements(s) + Elements(t) <= Elements(LeafHashes(H, events))
    requires InjectiveOn(H, inputs) && LeafInputs(events) <= inputs
    requires TreeInputs(H, Completed(s)) <= inputs && TreeInputs(H, Completed(t)) <= inputs
    ensures LegacyRoot(H, s) == LegacyRoot(H, t) <==> Completed(s) == Completed(t)
  {
    if LegacyRoot(H, s) == LegacyRoot(H, t) {
      CompletedElements(s);
      CompletedElements(t);
      RootsEqual(H, inputs, events, Completed(s), Completed(t));
    }
  }

  lemma RootsEqual(H: Hash, inputs: set<Preimage>, events: seq<ByteString>, s: seq<Digest>, t: seq<Digest>)
    requires s != [] && t != []
    requires Elements(s) <= Elements(LeafHashes(H, events)) && Elements(t) <= Elements(LeafHashes(H, events))
    requires InjectiveOn(H, inputs) && LeafInputs(events) <= inputs
    requires TreeInputs(H, s) <= inputs && TreeInputs(H, t) <= inputs
    requires Root(NodeOf(H), s) == Root(NodeOf(H), t)
    ensures s == t
  {
    var pairs := Joins(NodeOf(H), s) + Joins(NodeOf(H), t);
    assert NodeInputs(pairs) == TreeInputs(H, s) + TreeInputs(H, t);
    NodesDoNotClash(H, inputs, pairs);
    LeavesAreNoNodes(H, inputs, pairs, events);
    RootInjective(NodeOf(H), pairs, s, t);
  }

  lemma {:induction false} ExpandElements(s: seq<Digest>, h: nat)
    requires 0 < |s| <= Pow2(h)
    ensures Elements(Expand(s, h)) == Elements(s)
    decreases h
  {
    if h > 0 {
      var half := Pow2(h - 1);
      if |s| > half {
        ExpandElements(s[half..], h - 1);
        assert s == s[..half] + s[half..];
        assert Elements(s) == Elements(s[..half]) + Elements(s[half..]);
        assert Elements(Expand(s, h)) == Elements(s[..half]) + Elements(Expand(s[half..], h - 1));
      } else {
        ExpandElements(s, h - 1);
      }
    }
  }

  lemma CompletedElements(s: seq<Digest>)
    requires s != []
    ensures Elements(Completed(s)) == Elements(s)
  {
    CeilLog2Bounds(|s|);
    ExpandElements(s, CeilLog2(|s|));
  }

  /** A legacy proof still binds membership: whatever walks to a legacy root is a leaf of the list. */
  lemma LegacyProofBindsMembership(
    H: Hash, inputs: set<Preimage>, events: seq<ByteString>, event: ByteString, proof: seq<ProofStep>)
    requires events != []
    requires InjectiveOn(H, inputs)
    requires LeafInputs(events + [event]) <= inputs
    requires TreeInputs(H, Completed(LeafHashes(H, events))) <= inputs
    requires WalkInputs(H, H(LEAF_PERSONAL, event), proof) <= inputs
    requires WalkProof(H, H(LEAF_PERSONAL, event), proof) == LegacyRoot(H, LeafHashes(H, events))
    ensures event in events
  {
    var leaves := LeafHashes(H, events);
    CompletedElements(leaves);
    var i := RawProofIsGenerated(H, inputs, events, Completed(leaves), event, proof);
    assert H(LEAF_PERSONAL, event) in Elements(leaves);
    var j :| 0 <= j < |events| && leaves[j] == H(LEAF_PERSONAL, event);
    assert events[j] in events + [event] && event in events + [event];
    assert (LEAF_PERSONAL, events[j]) in LeafInputs(events + [event]);
    assert (LEAF_PERSONAL, event) in LeafInputs(events + [event]);
  }

  lemma CompletedUnchangedIff(leaves: seq<Digest>)
    requires leaves != []
    ensures Completed(leaves) == leaves <==> |leaves| == Pow2(CeilLog2(|leaves|))
  {
    CeilLog2Bounds(|leaves|);
    if |leaves| == Pow2(CeilLog2(|leaves|)) {
      ExpandFull(leaves, CeilLog2(|leaves|));
    }
  }

  /** The current and the legacy raw root agree exactly on lists of a power-of-two length. */
  lemma RawEqualsLegacyIff(H: Hash, inputs: set<Preimage>, events: seq<ByteString>)
    requires events != []
    requires InjectiveOn(H, inputs) && LeafInputs(events) <= inputs
    requires TreeInputs(H, LeafHashes(H, events)) <= inputs
    requires TreeInputs(H, Completed(LeafHashes(H, events))) <= inputs
    ensures RawRoot(H, LeafHashes(H, events)) == LegacyRoot(H, LeafHashes(H, events))
       <==> |events| == Pow2(CeilLog2(|events|))
  {
    var leaves := LeafHashes(H, events);
    CompletedUnchangedIff(leaves);
    if RawRoot(H, leaves) == LegacyRoot(H, leaves) {
      CompletedElements(leaves);
      RootsEqual(H, inputs, events, leaves, Completed(leaves));
    }
  }
}
