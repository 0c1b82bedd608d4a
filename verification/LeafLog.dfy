/**
 The append-only leaf table and the root table of src/db.rs, as values.

 A leaf hash is unique in its table.  Every inserted leaf adds one root row.  Rows are in
 the order of their ids.
 */
module LeafLog {
  import opened Bytes
  import opened Results
  import opened Merkle

  type Txid = Digest

  datatype LeafRow = LeafRow(hash: Digest, eventType: byte, wallet: ByteString, serial: Option<ByteString>)

  datatype RootRow = RootRow(hash: Digest, count: nat, txid: Option<Txid>, height: Option<nat>)

  datatype Log = Log(leaves: seq<LeafRow>, roots: seq<RootRow>)

  function Hashes(leaves: seq<LeafRow>): (h: seq<Digest>)
    ensures |h| == |leaves|
    ensures forall i :: 0 <= i < |leaves| ==> h[i] == leaves[i].hash
  {
    if leaves == [] then [] else Hashes(leaves[..|leaves| - 1]) + [leaves[|leaves| - 1].hash]
  }

  /** The position of a leaf hash in the log. */
  function IndexOf(leaves: seq<LeafRow>, hash: Digest): (i: Option<nat>)
    ensures i.Some? ==> i.value < |leaves| && leaves[i.value].hash == hash
    ensures i.Some? ==> forall j :: 0 <= j < i.value ==> leaves[j].hash != hash
    ensures i.None? ==> forall j :: 0 <= j < |leaves| ==> leaves[j].hash != hash
  {
    if leaves == [] then None
    else
      var front := IndexOf(leaves[..|leaves| - 1], hash);
      if front.Some? then front
      else if leaves[|leaves| - 1].hash == hash then Some(|leaves| - 1)
      else None
  }

  predicate IsExact(r: RootRow, hash: Digest, count: nat) {
    r.hash == hash && r.count == count
  }

  /** The newest row of a root and count. */
  function LastExact(roots: seq<RootRow>, hash: Digest, count: nat): (k: Option<nat>)
    ensures k.Some? ==> k.value < |roots| && IsExact(roots[k.value], hash, count)
    ensures k.Some? ==> forall j :: k.value < j < |roots| ==> !IsExact(roots[j], hash, count)
    ensures k.None? ==> forall j :: 0 <= j < |roots| ==> !IsExact(roots[j], hash, count)
  {
    if roots == [] then None
    else if IsExact(roots[|roots| - 1], hash, count) then Some(|roots| - 1)
    else LastExact(roots[..|roots| - 1], hash, count)
  }

  /** The newest row of a root hash, whatever its count. */
  function LastByHash(roots: seq<RootRow>, hash: Digest): (k: Option<nat>)
    ensures k.Some? ==> k.value < |roots| && roots[k.value].hash == hash
    ensures k.Some? ==> forall j :: k.value < j < |roots| ==> roots[j].hash != hash
    ensures k.None? ==> forall j :: 0 <= j < |roots| ==> roots[j].hash != hash
  {
    if roots == [] then None
    else if roots[|roots| - 1].hash == hash then Some(|roots| - 1)
    else LastByHash(roots[..|roots| - 1], hash)
  }

  function RootOf(H: Hash, leaves: seq<LeafRow>): Digest {
    ComputedRoot(H, Hashes(leaves))
  }

  /** INSERT OR IGNORE of a leaf, with its root row when it was new. */
  function LeafInserted(H: Hash, log: Log, row: LeafRow): Log {
    if IndexOf(log.leaves, row.hash).Some? then log
    else
      var leaves := log.leaves + [row];
      Log(leaves, log.roots + [RootRow(RootOf(H, leaves), |leaves|, None, None)])
  }

  /** A new hash is appended with its row, and one that is there is left as it is. */
  lemma InsertedLeaves(H: Hash, log: Log, row: LeafRow)
    ensures LeafInserted(H, log, row).leaves == if row.hash in Hashes(log.leaves) then log.leaves else log.leaves + [row]
  {
    var at := IndexOf(log.leaves, row.hash);
    assert at.Some? ==> Hashes(log.leaves)[at.value] == row.hash;
  }

  /**
   The root of the whole log: its newest exact row, or the newest row clamped to the log, or
   a new row.
   */
  function CurrentRoot(H: Hash, log: Log): Option<RootRow> {
    if log.leaves == [] then None
    else
      var n := |log.leaves|;
      var canonical := RootOf(H, log.leaves);
      var exact := LastExact(log.roots, canonical, n);
      if exact.Some? then Some(log.roots[exact.value])
      else if log.roots != [] && log.roots[|log.roots| - 1].hash == canonical && log.roots[|log.roots| - 1].count >= n then
        Some(log.roots[|log.roots| - 1].(count := n))
      else Some(RootRow(canonical, n, None, None))
  }

  /** The root table after `current_root`, which adds a missing row. */
  function RootsAfterCurrent(H: Hash, log: Log): seq<RootRow> {
    if log.leaves == [] then log.roots
    else
      var n := |log.leaves|;
      var canonical := RootOf(H, log.leaves);
      if LastExact(log.roots, canonical, n).Some? then log.roots
      else if log.roots != [] && log.roots[|log.roots| - 1].hash == canonical && log.roots[|log.roots| - 1].count >= n then
        log.roots
      else log.roots + [RootRow(canonical, n, None, None)]
  }

  // ---------------------------------------------------------------------------------
  // The log invariant
  // ---------------------------------------------------------------------------------

  ghost predicate DistinctLeaves(leaves: seq<LeafRow>) {
    forall i, j :: 0 <= i < j < |leaves| ==> leaves[i].hash != leaves[j].hash
  }

  /** Row k of the root table is the root of the first k + 1 leaves. */
  ghost predicate RootRowIs(H: Hash, leaves: seq<LeafRow>, r: RootRow, k: nat)
    requires k < |leaves|
  {
    r.count == k + 1 && r.hash == RootOf(H, leaves[..k + 1])
  }

  ghost predicate LogInv(H: Hash, log: Log) {
    && DistinctLeaves(log.leaves)
    && |log.roots| == |log.leaves|
    && forall k :: 0 <= k < |log.roots| ==> RootRowIs(H, log.leaves, log.roots[k], k)
  }

  /** Row k has count k + 1. */
  ghost predicate Numbered(roots: seq<RootRow>) {
    forall k :: 0 <= k < |roots| ==> roots[k].count == k + 1
  }

  lemma LogIsNumbered(H: Hash, log: Log)
    requires LogInv(H, log)
    ensures Numbered(log.roots)
  {
    forall k | 0 <= k < |log.roots| ensures log.roots[k].count == k + 1 {
      assert RootRowIs(H, log.leaves, log.roots[k], k);
    }
  }

  lemma NumberedRowIsFound(roots: seq<RootRow>, k: nat)
    requires Numbered(roots) && k < |roots|
    ensures LastExact(roots, roots[k].hash, roots[k].count) == Some(k)
  {
    var e := LastExact(roots, roots[k].hash, roots[k].count);
    assert IsExact(roots[k], roots[k].hash, roots[k].count);
  }

  /** Rows are unique by root and count, and counts increase in row order. */
  lemma RootRowsAreOrdered(H: Hash, log: Log, i: nat, j: nat)
    requires LogInv(H, log) && i < j < |log.roots|
    ensures log.roots[i].count < log.roots[j].count
    ensures LastExact(log.roots, log.roots[i].hash, log.roots[i].count) == Some(i)
    ensures LastExact(log.roots, log.roots[j].hash, log.roots[j].count) == Some(j)
  {
    LogIsNumbered(H, log);
    hide LogInv, LastExact;
    NumberedRowIsFound(log.roots, i);
    NumberedRowIsFound(log.roots, j);
  }

  /** The row of a count, if it has this hash. */
  lemma ExactRowIsAtCount(roots: seq<RootRow>, hash: Digest, count: nat)
    requires Numbered(roots)
    ensures LastExact(roots, hash, count)
         == if 0 < count <= |roots| && roots[count - 1].hash == hash then Some(count - 1) else None
  {}

  lemma InsertKeepsLogInv(H: Hash, log: Log, row: LeafRow)
    requires LogInv(H, log)
    ensures LogInv(H, LeafInserted(H, log, row))
  {
    hide RootOf;
    if IndexOf(log.leaves, row.hash).None? {
      var log' := LeafInserted(H, log, row);
      forall k | 0 <= k < |log'.roots| ensures RootRowIs(H, log'.leaves, log'.roots[k], k) {
        if k < |log.roots| {
          assert RootRowIs(H, log.leaves, log.roots[k], k);
          assert log'.leaves[..k + 1] == log.leaves[..k + 1];
        } else {
          assert log'.leaves[..k + 1] == log'.leaves;
        }
      }
    }
  }

  /** With the invariant, reading the current root writes nothing and returns the last row. */
  lemma CurrentRootIsLast(H: Hash, log: Log)
    requires LogInv(H, log)
    ensures RootsAfterCurrent(H, log) == log.roots
    ensures CurrentRoot(H, log) == if log.leaves == [] then None else Some(log.roots[|log.roots| - 1])
  {
    if log.leaves != [] {
      var n := |log.leaves|;
      assert log.leaves[..n] == log.leaves;
      assert RootRowIs(H, log.leaves, log.roots[n - 1], n - 1);
      LogIsNumbered(H, log);
      ExactRowIsAtCount(log.roots, RootOf(H, log.leaves), n);
    }
  }

  /** Whatever the root table holds, the current root is the root of the whole log. */
  lemma CurrentRootCoversLog(H: Hash, log: Log)
    requires log.leaves != []
    ensures var r := CurrentRoot(H, log);
      r.Some? && r.value.hash == RootOf(H, log.leaves) && r.value.count == |log.leaves|
  {}

  /** Whatever the root table held, afterwards it has a row of this root for the whole log; every row before is kept. */
  lemma CurrentRootIsStored(H: Hash, log: Log)
    requires log.leaves != []
    ensures var roots' := RootsAfterCurrent(H, log);
      && log.roots <= roots'
      && (exists k :: 0 <= k < |roots'| && roots'[k].hash == RootOf(H, log.leaves) && roots'[k].count >= |log.leaves|)
      && (roots' != log.roots ==> roots' == log.roots + [RootRow(RootOf(H, log.leaves), |log.leaves|, None, None)])
      && (roots' != log.roots ==> forall k :: 0 <= k < |log.roots| ==>
        log.roots[k].hash != RootOf(H, log.leaves) || log.roots[k].count != |log.leaves|)
  {
    hide RootOf;
    var n, root := |log.leaves|, RootOf(H, log.leaves);
    var exact := LastExact(log.roots, root, n);
    if exact.Some? {
      assert log.roots[exact.value].hash == root;
    } else if log.roots != [] && log.roots[|log.roots| - 1].hash == root && log.roots[|log.roots| - 1].count >= n {
      assert RootsAfterCurrent(H, log) == log.roots;
    } else {
      assert RootsAfterCurrent(H, log)[|log.roots|].hash == root;
    }
  }

  // ---------------------------------------------------------------------------------
  // Unanchored leaves
  // ---------------------------------------------------------------------------------

  /** MAX(leaf_count) over the anchored rows, 0 if there are none. */
  function LastAnchored(roots: seq<RootRow>): nat {
    if roots == [] then 0
    else
      var last := roots[|roots| - 1];
      var m := LastAnchored(roots[..|roots| - 1]);
      if last.txid.Some? && last.count > m then last.count else m
  }

  function UnanchoredCount(log: Log): nat {
    var m := LastAnchored(log.roots);
    if |log.leaves| > m then |log.leaves| - m else 0
  }

  /** The first n rows are the longest prefix of the table whose last row is anchored. */
  ghost predicate IsLongestAnchored(roots: seq<RootRow>, n: nat) {
    && n <= |roots| && (n > 0 ==> roots[n - 1].txid.Some?)
    && forall k :: n <= k < |roots| ==> roots[k].txid.None?
  }

  lemma {:induction false} LastAnchoredIs(roots: seq<RootRow>)
    requires Numbered(roots)
    ensures IsLongestAnchored(roots, LastAnchored(roots))
  {
    if roots != [] {
      LastAnchoredIs(roots[..|roots| - 1]);
    }
  }

  /** The leaves not counted are exactly those of the longest anchored prefix. */
  lemma UnanchoredIsAfterLongestAnchoredPrefix(H: Hash, log: Log)
    requires LogInv(H, log)
    ensures UnanchoredCount(log) <= |log.leaves|
    ensures IsLongestAnchored(log.roots, |log.leaves| - UnanchoredCount(log))
  {
    LogIsNumbered(H, log);
    hide RootRowIs, Numbered, LastAnchored;
    LastAnchoredIs(log.roots);
  }

  // ---------------------------------------------------------------------------------
  // History: nothing recorded is ever changed
  // ---------------------------------------------------------------------------------

  /** A row later in time: its root is the same, and what was set is still set. */
  predicate RowKept(r: RootRow, r': RootRow) {
    && r'.hash == r.hash && r'.count == r.count
    && (r.txid.Some? ==> r'.txid == r.txid)
    && (r.height.Some? ==> r'.height == r.height)
  }

  predicate RootsKept(roots: seq<RootRow>, roots': seq<RootRow>) {
    && |roots| <= |roots'|
    && forall k :: 0 <= k < |roots| ==> RowKept(roots[k], roots'[k])
  }

  lemma RootsKeptTransitive(a: seq<RootRow>, b: seq<RootRow>, c: seq<RootRow>)
    requires RootsKept(a, b) && RootsKept(b, c)
    ensures RootsKept(a, c)
  {
    forall k | 0 <= k < |a| ensures RowKept(a[k], c[k]) {
      assert RowKept(a[k], b[k]) && RowKept(b[k], c[k]);
    }
  }

  /** Root hashes tell the rows apart. */
  ghost predicate DistinctRoots(roots: seq<RootRow>) {
    forall i, j :: 0 <= i < j < |roots| ==> roots[i].hash != roots[j].hash
  }
}
