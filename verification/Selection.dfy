/**
 Which root a leaf is proved under (src/db.rs `select_covering_root`) and how the server
 checks the result (src/api.rs `verify_bundle_merkle`).
 */
module Selection {
  import opened Bytes
  import opened Results
  import opened Merkle
  import opened Binding
  import opened LeafLog

  const LEGACY_ROOT_MAX_ANCHOR_HEIGHT := 3_317_133

  datatype Scheme = CountBoundV2 | LegacyDuplicateOdd | Invalid

  datatype Bundle = Bundle(leaf: LeafRow, proof: seq<ProofStep>, root: RootRow)

  datatype Check = Check(
    valid: bool, scheme: Scheme, validCountBound: bool, validLegacyRaw: bool, legacyAllowed: bool)

  /** Legacy proofs are admitted up to this height; what has no height was not anchored. */
  predicate IsHistorical(height: Option<nat>) {
    height.Some? && height.value <= LEGACY_ROOT_MAX_ANCHOR_HEIGHT
  }

  function VerifyBundleMerkle(H: Hash, b: Bundle): Check {
    var raw := WalkProof(H, b.leaf.hash, b.proof);
    var validCountBound := CommitRoot(H, b.root.count, raw) == b.root.hash;
    var validLegacyRaw := raw == b.root.hash;
    var legacyAllowed := validLegacyRaw && IsHistorical(b.root.height);
    Check(validCountBound || legacyAllowed,
      if validCountBound then CountBoundV2 else if validLegacyRaw then LegacyDuplicateOdd else Invalid,
      validCountBound, validLegacyRaw, legacyAllowed)
  }

  predicate Covers(r: RootRow, leaves: seq<Digest>, position: nat) {
    position <= r.count <= |leaves|
  }

  predicate IsCountBound(H: Hash, r: RootRow, leaves: seq<Digest>) {
    r.count <= |leaves| && r.hash == ComputedRoot(H, leaves[..r.count])
  }

  predicate IsLegacy(H: Hash, r: RootRow, leaves: seq<Digest>) {
    r.count <= |leaves| && r.hash == LegacyRoot(H, leaves[..r.count])
  }

  /** No row of the list is a count-bound root that covers the position. */
  predicate NoCountBound(H: Hash, rows: seq<RootRow>, leaves: seq<Digest>, position: nat) {
    forall r :: r in rows && Covers(r, leaves, position) ==> !IsCountBound(H, r, leaves)
  }

  predicate NoLegacy(H: Hash, rows: seq<RootRow>, leaves: seq<Digest>, position: nat) {
    forall r :: r in rows && Covers(r, leaves, position) ==> !IsLegacy(H, r, leaves)
  }

  /** What the selection promises: the first count-bound row, else the first legacy row, else none. */
  ghost predicate IsSelected(H: Hash, rows: seq<RootRow>, leaves: seq<Digest>, position: nat, r: Option<RootRow>) {
    match r
    case None => NoCountBound(H, rows, leaves, position) && NoLegacy(H, rows, leaves, position)
    case Some(root) =>
      exists i :: 0 <= i < |rows| && rows[i] == root && Covers(root, leaves, position) && (
        || (IsCountBound(H, root, leaves) && NoCountBound(H, rows[..i], leaves, position))
        || (IsLegacy(H, root, leaves) && NoCountBound(H, rows, leaves, position)
            && NoLegacy(H, rows[..i], leaves, position)))
  }

  lemma NoCountBoundInLongerPrefix(H: Hash, rows: seq<RootRow>, leaves: seq<Digest>, position: nat, i: nat)
    requires i < |rows|
    ensures NoCountBound(H, rows[..i + 1], leaves, position)
       <==> NoCountBound(H, rows[..i], leaves, position)
            && !(Covers(rows[i], leaves, position) && IsCountBound(H, rows[i], leaves))
  {
    assert rows[..i + 1] == rows[..i] + [rows[i]];
  }

  lemma NoLegacyInLongerPrefix(H: Hash, rows: seq<RootRow>, leaves: seq<Digest>, position: nat, i: nat)
    requires i < |rows|
    ensures NoLegacy(H, rows[..i + 1], leaves, position)
       <==> NoLegacy(H, rows[..i], leaves, position)
            && !(Covers(rows[i], leaves, position) && IsLegacy(H, rows[i], leaves))
  {
    assert rows[..i + 1] == rows[..i] + [rows[i]];
  }

  /** The fallback after some rows: the first legacy row among them, if any. */
  ghost predicate IsFallback(H: Hash, rows: seq<RootRow>, leaves: seq<Digest>, position: nat, f: Option<RootRow>) {
    match f
    case None => NoLegacy(H, rows, leaves, position)
    case Some(root) =>
      exists i :: 0 <= i < |rows| && rows[i] == root && Covers(root, leaves, position)
        && IsLegacy(H, root, leaves) && NoLegacy(H, rows[..i], leaves, position)
  }

  lemma FallbackInLongerPrefix(
    H: Hash, rows: seq<RootRow>, leaves: seq<Digest>, position: nat, i: nat, f: Option<RootRow>)
    requires i < |rows| && IsFallback(H, rows[..i], leaves, position, f)
    ensures var here := Covers(rows[i], leaves, position) && IsLegacy(H, rows[i], leaves);
      IsFallback(H, rows[..i + 1], leaves, position, if f.None? && here then Some(rows[i]) else f)
  {
    var longer := rows[..i + 1];
    if f.None? {
      NoLegacyInLongerPrefix(H, rows, leaves, position, i);
      assert longer[..i] == rows[..i] && longer[i] == rows[i];
    } else {
      var j :| 0 <= j < i && rows[..i][j] == f.value && NoLegacy(H, rows[..i][..j], leaves, position);
      assert rows[..i][..j] == longer[..j] && longer[j] == f.value;
    }
  }

  lemma CountBoundIsSelected(H: Hash, rows: seq<RootRow>, leaves: seq<Digest>, position: nat, i: nat)
    requires i < |rows| && Covers(rows[i], leaves, position) && IsCountBound(H, rows[i], leaves)
    requires NoCountBound(H, rows[..i], leaves, position)
    ensures IsSelected(H, rows, leaves, position, Some(rows[i]))
  {}

  lemma FallbackIsSelected(H: Hash, rows: seq<RootRow>, leaves: seq<Digest>, position: nat, f: Option<RootRow>)
    requires NoCountBound(H, rows, leaves, position) && IsFallback(H, rows, leaves, position, f)
    ensures IsSelected(H, rows, leaves, position, f)
  {}

  method SelectCoveringRoot(H: Hash, rows: seq<RootRow>, leaves: seq<Digest>, position: nat)
    returns (r: Option<RootRow>)
    ensures IsSelected(H, rows, leaves, position, r)
  {
    var fallback: Option<RootRow> := None;
    var i := 0;
    hide IsSelected;
    while i < |rows|
      invariant 0 <= i <= |rows|
      invariant NoCountBound(H, rows[..i], leaves, position)
      invariant IsFallback(H, rows[..i], leaves, position, fallback)
    {
      var root := rows[i];
      NoCountBoundInLongerPrefix(H, rows, leaves, position, i);
      FallbackInLongerPrefix(H, rows, leaves, position, i, fallback);
      if Covers(root, leaves, position) {
        var current := ComputeRoot(H, leaves[..root.count]);
        if root.hash == current {
          CountBoundIsSelected(H, rows, leaves, position, i);
          return Some(root);
        }
        if fallback.None? {
          var legacy := ComputeLegacyRoot(H, leaves[..root.count]);
          if root.hash == legacy {
            fallback := Some(root);
          }
        }
      }
      i := i + 1;
    }
    assert rows[..i] == rows;
    FallbackIsSelected(H, rows, leaves, position, fallback);
    return fallback;
  }

  // ---------------------------------------------------------------------------------
  // ORDER BY leaf_count, id
  // ---------------------------------------------------------------------------------

  /** Places a row after every row whose count is not larger. */
  function InsertByCount(rows: seq<RootRow>, r: RootRow): seq<RootRow> {
    if rows == [] || rows[|rows| - 1].count <= r.count then rows + [r]
    else InsertByCount(rows[..|rows| - 1], r) + [rows[|rows| - 1]]
  }

  /** The anchored rows of at least this count, by count and then by age. */
  function AnchoredCovering(roots: seq<RootRow>, position: nat): seq<RootRow> {
    if roots == [] then []
    else
      var front, last := AnchoredCovering(roots[..|roots| - 1], position), roots[|roots| - 1];
      if last.count >= position && last.txid.Some? then InsertByCount(front, last) else front
  }

  ghost predicate OrderedByCount(rows: seq<RootRow>) {
    forall i, j :: 0 <= i < j < |rows| ==> rows[i].count <= rows[j].count
  }

  lemma {:induction false} InsertByCountOrders(rows: seq<RootRow>, r: RootRow)
    requires OrderedByCount(rows)
    ensures OrderedByCount(InsertByCount(rows, r))
    ensures forall x :: x in InsertByCount(rows, r) <==> x in rows || x == r
  {
    if rows != [] && rows[|rows| - 1].count > r.count {
      var front, last := rows[..|rows| - 1], rows[|rows| - 1];
      InsertByCountOrders(front, r);
      assert rows == front + [last];
      var inserted := InsertByCount(front, r);
      forall i | 0 <= i < |inserted| ensures inserted[i].count <= last.count {
        assert inserted[i] in inserted;
      }
    }
  }

  lemma {:induction false} AnchoredCoveringHolds(roots: seq<RootRow>, position: nat)
    ensures OrderedByCount(AnchoredCovering(roots, position))
    ensures forall x :: x in AnchoredCovering(roots, position)
                   <==> x in roots && x.count >= position && x.txid.Some?
  {
    if roots != [] {
      var front, last := roots[..|roots| - 1], roots[|roots| - 1];
      assert roots == front + [last];
      AnchoredCoveringHolds(front, position);
      if last.count >= position && last.txid.Some? {
        InsertByCountOrders(AnchoredCovering(front, position), last);
      }
    }
  }

  /** WHERE leaf_count >= position AND anchor_txid IS NOT NULL, in table order. */
  function AnchoredFrom(roots: seq<RootRow>, position: nat): seq<RootRow> {
    if roots == [] then []
    else
      var last := roots[|roots| - 1];
      AnchoredFrom(roots[..|roots| - 1], position) + if last.count >= position && last.txid.Some? then [last] else []
  }

  /** The rows of this count, in the order in which they stand. */
  function WithCount(rows: seq<RootRow>, count: nat): seq<RootRow> {
    if rows == [] then []
    else
      var last := rows[|rows| - 1];
      WithCount(rows[..|rows| - 1], count) + if last.count == count then [last] else []
  }

  lemma OneMoreWithCount(rows: seq<RootRow>, r: RootRow, count: nat)
    ensures WithCount(rows + [r], count) == WithCount(rows, count) + if r.count == count then [r] else []
  {
    assert (rows + [r])[..|rows|] == rows;
  }

  /** A row goes behind those of its own count. */
  lemma {:induction false} InsertedBehind(rows: seq<RootRow>, r: RootRow, count: nat)
    requires OrderedByCount(rows)
    ensures WithCount(InsertByCount(rows, r), count) == WithCount(rows, count) + if r.count == count then [r] else []
  {
    if rows == [] || rows[|rows| - 1].count <= r.count {
      OneMoreWithCount(rows, r, count);
    } else {
      var front, last := rows[..|rows| - 1], rows[|rows| - 1];
      InsertedBehind(front, r, count);
      OneMoreWithCount(InsertByCount(front, r), last, count);
    }
  }

  /**
   The query lists the anchored rows of at least this count by count, and those of one count in
   table order, each as often as the table has it: there is only one such list.
   */
  lemma {:induction false} AnchoredCoveringIs(roots: seq<RootRow>, position: nat, count: nat)
    ensures OrderedByCount(AnchoredCovering(roots, position))
    ensures WithCount(AnchoredCovering(roots, position), count) == WithCount(AnchoredFrom(roots, position), count)
  {
    AnchoredCoveringHolds(roots, position);
    hide WithCount, InsertByCount, OrderedByCount;
    if roots != [] {
      var front, last := roots[..|roots| - 1], roots[|roots| - 1];
      AnchoredCoveringHolds(front, position);
      AnchoredCoveringIs(front, position, count);
      if last.count >= position && last.txid.Some? {
        InsertedBehind(AnchoredCovering(front, position), last, count);
        OneMoreWithCount(AnchoredFrom(front, position), last, count);
      } else {
        assert AnchoredFrom(roots, position) == AnchoredFrom(front, position);
      }
    }
  }

  // ---------------------------------------------------------------------------------
  // The bundle for a root
  // ---------------------------------------------------------------------------------

  /** The proof that goes with a root row: legacy only if the row is a legacy root and nothing else. */
  function BundleProof(H: Hash, leaves: seq<Digest>, r: RootRow, index: nat): seq<ProofStep>
    requires r.count <= |leaves|
  {
    var part := leaves[..r.count];
    if LegacyRoot(H, part) == r.hash && ComputedRoot(H, part) != r.hash then LegacyProofFor(H, part, index)
    else ProofFor(H, part, index)
  }

  /** Why a bundle verifies: the proof goes with the root, whatever else the database holds. */
  lemma BundleVerifies(H: Hash, log: Log, r: RootRow, index: nat)
    requires index < r.count <= |log.leaves|
    requires IsCountBound(H, r, Hashes(log.leaves)) || IsLegacy(H, r, Hashes(log.leaves))
    ensures var b := Bundle(log.leaves[index], BundleProof(H, Hashes(log.leaves), r, index), r);
      var c := VerifyBundleMerkle(H, b);
      && c.scheme != Invalid
      && (IsCountBound(H, r, Hashes(log.leaves)) ==> c.valid && c.scheme == CountBoundV2)
      && (c.valid || (c.scheme == LegacyDuplicateOdd && !IsHistorical(r.height)))
  {
    var part := Hashes(log.leaves)[..r.count];
    assert part[index] == log.leaves[index].hash;
    if IsCountBound(H, r, Hashes(log.leaves)) {
      GeneratedProofVerifies(H, part, index);
    } else {
      GeneratedLegacyProofVerifies(H, part, index);
    }
  }

  /** An anchored row of the table that covers the position. */
  predicate IsCandidate(roots: seq<RootRow>, r: RootRow, leaves: seq<Digest>, position: nat) {
    r in roots && r.txid.Some? && position <= r.count <= |leaves|
  }

  /**
   The root that a bundle should be under: the smallest anchored count-bound root covering
   the leaf; failing that the smallest anchored legacy root; failing that the current root.
   */
  ghost predicate IsPreferredRoot(H: Hash, log: Log, position: nat, r: RootRow) {
    var leaves := Hashes(log.leaves);
    if exists x :: IsCandidate(log.roots, x, leaves, position) && IsCountBound(H, x, leaves) then
      && IsCandidate(log.roots, r, leaves, position) && IsCountBound(H, r, leaves)
      && forall x :: IsCandidate(log.roots, x, leaves, position) && IsCountBound(H, x, leaves) ==> r.count <= x.count
    else if exists x :: IsCandidate(log.roots, x, leaves, position) && IsLegacy(H, x, leaves) then
      && IsCandidate(log.roots, r, leaves, position) && IsLegacy(H, r, leaves)
      && forall x :: IsCandidate(log.roots, x, leaves, position) && IsLegacy(H, x, leaves) ==> r.count <= x.count
    else CurrentRoot(H, log) == Some(r)
  }

  lemma SelectedIsPreferred(H: Hash, log: Log, position: nat, r: RootRow)
    requires IsSelected(H, AnchoredCovering(log.roots, position), Hashes(log.leaves), position, Some(r))
    ensures IsPreferredRoot(H, log, position, r)
    ensures Covers(r, Hashes(log.leaves), position)
    ensures IsCountBound(H, r, Hashes(log.leaves)) || IsLegacy(H, r, Hashes(log.leaves))
  {
    var rows, leaves := AnchoredCovering(log.roots, position), Hashes(log.leaves);
    AnchoredCoveringHolds(log.roots, position);
    var i :| 0 <= i < |rows| && rows[i] == r && Covers(r, leaves, position) && (
      || (IsCountBound(H, r, leaves) && NoCountBound(H, rows[..i], leaves, position))
      || (IsLegacy(H, r, leaves) && NoCountBound(H, rows, leaves, position) && NoLegacy(H, rows[..i], leaves, position)));
    assert IsCandidate(log.roots, r, leaves, position);
    forall x | IsCandidate(log.roots, x, leaves, position) ensures x in rows && (x in rows[..i] || r.count <= x.count) {
      var j :| 0 <= j < |rows| && rows[j] == x;
      assert j < i ==> x == rows[..i][j];
    }
  }

  lemma NoneSelectedMeansCurrent(H: Hash, log: Log, position: nat)
    requires IsSelected(H, AnchoredCovering(log.roots, position), Hashes(log.leaves), position, None)
    requires log.leaves != []
    ensures IsPreferredRoot(H, log, position, CurrentRoot(H, log).value)
  {
    AnchoredCoveringHolds(log.roots, position);
    CurrentRootCoversLog(H, log);
  }
}
