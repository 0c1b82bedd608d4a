/**
 From an event to a verifier and back: a served bundle is accepted, and an accepted bundle
 means that the event is in the log.
 */
module EventProofs {
  import opened Bytes
  import opened Results
  import opened Hex
  import opened Merkle
  import opened Binding
  import opened Memo
  import opened LeafLog
  import opened Selection
  import opened Verifiers

  predicate AllHashable(events: seq<Event>) {
    forall e :: e in events ==> Hashable(e)
  }

  function Preimages(events: seq<Event>): (p: seq<ByteString>)
    ensures |p| == |events| && forall i :: 0 <= i < |events| ==> p[i] == EventPreimage(events[i])
  {
    if events == [] then [] else Preimages(events[..|events| - 1]) + [EventPreimage(events[|events| - 1])]
  }

  /** The leaf hashes of a log of events. */
  function EventLeaves(H: Hash, events: seq<Event>): (leaves: seq<Digest>)
    ensures |leaves| == |events| && forall i :: 0 <= i < |events| ==> leaves[i] == LeafHash(H, events[i])
  {
    LeafHashes(H, Preimages(events))
  }

  /** Everything hashed by the log, by its root, and by the verifier of one bundle. */
  ghost predicate CollisionFree(H: Hash, inputs: set<Preimage>, events: seq<Event>, event: Event, b: ProofBundle)
    requires events != [] && AreSteps(b.proof) && b.leafCount >= 0
  {
    var steps := StepsOf(b.proof);
    && InjectiveOn(H, inputs)
    && LeafInputs(Preimages(events) + [EventPreimage(event)]) <= inputs
    && RootInputs(H, EventLeaves(H, events)) <= inputs
    && WalkInputs(H, LeafHash(H, event), steps) <= inputs
    && CommitPreimage(b.leafCount, WalkProof(H, LeafHash(H, event), steps)) in inputs
  }

  /**
   Whoever computes the leaf hash of an event, and finds a count-bound bundle for it accepted
   against the root of a log, knows that the event is in that log, how long the log is, and
   at which place the event stands.
   */
  lemma AcceptedEventIsInLog(H: Hash, inputs: set<Preimage>, events: seq<Event>, event: Event, b: ProofBundle)
    returns (i: nat)
    requires 0 < |events| <= MAX_U64 && AllHashable(events) && Hashable(event)
    requires ScriptAccepts(H, b) && b.scheme == Some(COUNT_BOUND)
    requires b.leafHash == Encode(LeafHash(H, event)) && b.rootHash == Encode(ComputedRoot(H, EventLeaves(H, events)))
    requires CollisionFree(H, inputs, events, event, b)
    ensures i < |events| && events[i] == event
    ensures b.leafCount == |events|
    ensures StepsOf(b.proof) == ProofFor(H, EventLeaves(H, events), i)
  {
    CountBoundLabelNeedsCommitment(H, b, b.leafHash);
    EncodedHash(LeafHash(H, event));
    EncodedHash(ComputedRoot(H, EventLeaves(H, events)));
    i := AcceptedProofIsGenerated(H, inputs, Preimages(events), EventPreimage(event), StepsOf(b.proof), b.leafCount);
    assert events[i] in events;
    EventPreimageInjective(events[i], event);
  }

  /** A bundle served under a count-bound root is accepted by every verifier. */
  lemma ServedBundleIsAccepted(H: Hash, log: Log, root: RootRow, index: nat)
    requires index < root.count <= |log.leaves| && root.count <= MAX_U64
    requires root.height.Some? ==> root.height.value <= MAX_U32
    requires IsCountBound(H, root, Hashes(log.leaves))
    ensures var b := Bundle(log.leaves[index], BundleProof(H, Hashes(log.leaves), root, index), root);
      && AuditAccepts(H, Published(H, b), None) && ScriptAccepts(H, Published(H, b))
      && (root.count <= MAX_SAFE_INTEGER ==> WidgetAccepts(H, Published(H, b), Encode(log.leaves[index].hash)))
  {
    BundleVerifies(H, log, root, index);
    PublishedIsAcceptedIff(H, Bundle(log.leaves[index], BundleProof(H, Hashes(log.leaves), root, index), root));
  }
}
