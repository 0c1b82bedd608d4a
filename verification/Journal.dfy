/**
 The anchor journal of src/db.rs and the root rows it maps, as values.  Every operation is
 one transaction: it returns the new tables, or None when it fails and changes nothing.

 The keys are those of migrations/004_anchor_broadcasts.sql: the transaction id, the pair of
 root and count, at most one prepared row, and at most one root row per transaction id.
 */
module Journal {
  import opened Bytes
  import opened Results
  import opened LeafLog

  datatype Status = Prepared | Recorded

  datatype Row = Row(
    root: Digest,
    count: nat,
    raw: ByteString,
    position: nat,
    status: Status,
    recordedAt: Option<nat>,
    attempts: nat,
    nextAt: Option<nat>,
    confirmedAt: Option<nat>)

  /** A signed transaction for a root, before it is sent. */
  datatype Intent = Intent(txid: Txid, root: Digest, count: nat, raw: ByteString, position: nat)

  datatype Anchors = Anchors(roots: seq<RootRow>, journal: map<Txid, Row>)

  function IntentOf(t: Txid, r: Row): Intent {
    Intent(t, r.root, r.count, r.raw, r.position)
  }

  predicate Canonical(i: Intent) {
    0 < i.count <= MAX_I64 && i.position <= MAX_I64 && i.raw != []
  }

  predicate HasUnrecordedRoot(roots: seq<RootRow>, root: Digest, count: nat) {
    exists r :: r in roots && IsExact(r, root, count) && r.txid.None?
  }

  predicate HasKey(journal: map<Txid, Row>, root: Digest, count: nat) {
    exists t :: t in journal && journal[t].root == root && journal[t].count == count
  }

  predicate HasPrepared(journal: map<Txid, Row>) {
    exists t :: t in journal && journal[t].status == Prepared
  }

  predicate IsMapped(roots: seq<RootRow>, txid: Txid) {
    exists r :: r in roots && r.txid == Some(txid)
  }

  /** None of the three keys of the journal is taken. */
  predicate IsFree(journal: map<Txid, Row>, i: Intent) {
    i.txid !in journal && !HasKey(journal, i.root, i.count) && !HasPrepared(journal)
  }

  function NewRow(i: Intent): Row {
    Row(i.root, i.count, i.raw, i.position, Prepared, None, 0, None, None)
  }

  function Prepare(s: Anchors, i: Intent): Option<Anchors> {
    if !Canonical(i) || !HasUnrecordedRoot(s.roots, i.root, i.count) then None
    else if IsFree(s.journal, i) then Some(s.(journal := s.journal[i.txid := NewRow(i)]))
    else if i.txid in s.journal && IntentOf(i.txid, s.journal[i.txid]) == i then Some(s)
    else None
  }

  function Finalized(r: Row, now: nat): Row {
    r.(
      status := Recorded,
      recordedAt := if r.recordedAt.Some? then r.recordedAt else Some(now),
      nextAt := if r.confirmedAt.Some? then None else if r.nextAt.Some? then r.nextAt else Some(now))
  }

  /** Row k is the only row of its root and count that no transaction is mapped to. */
  predicate OnlyUnmapped(roots: seq<RootRow>, k: nat)
    requires k < |roots|
  {
    forall j :: 0 <= j < |roots| && IsExact(roots[j], roots[k].hash, roots[k].count) && roots[j].txid.None? ==> j == k
  }

  function Finalize(s: Anchors, txid: Txid, now: nat): Option<Anchors> {
    if txid !in s.journal then None
    else
      var row := s.journal[txid];
      var k := LastExact(s.roots, row.root, row.count);
      var journal := s.journal[txid := Finalized(row, now)];
      if k.None? then None
      else if s.roots[k.value].txid == Some(txid) then Some(s.(journal := journal))
      else if s.roots[k.value].txid.Some? then None
      else if IsMapped(s.roots, txid) || !OnlyUnmapped(s.roots, k.value) then None
      else Some(Anchors(s.roots[k.value := s.roots[k.value].(txid := Some(txid))], journal))
  }

  /** Maps the newest row of a root hash to a transaction, or checks the mapping it has. */
  function RecordReference(roots: seq<RootRow>, root: Digest, txid: Txid, height: Option<nat>): Option<seq<RootRow>> {
    var k := LastByHash(roots, root);
    if k.None? then None
    else
      var r := roots[k.value];
      if r.txid.None? then
        if IsMapped(roots, txid) then None else Some(roots[k.value := r.(txid := Some(txid), height := height)])
      else if r.txid.value != txid then None
      else if r.height.Some? && height.Some? && r.height != height then None
      else if r.height.None? && height.Some? then Some(roots[k.value := r.(height := height)])
      else Some(roots)
  }

  /** Row k is the newest row of the root. */
  ghost predicate IsNewest(rows: seq<RootRow>, root: Digest, k: nat) {
    k < |rows| && rows[k].hash == root && forall j :: k < j < |rows| ==> rows[j].hash != root
  }

  /** The newest row of the root is free, as is the transaction, or it is this one's at no other height. */
  ghost predicate MayBeMapped(rows: seq<RootRow>, root: Digest, txid: Txid, height: Option<nat>) {
    exists k: nat :: IsNewest(rows, root, k) &&
      if rows[k].txid.None? then forall j :: 0 <= j < |rows| ==> rows[j].txid != Some(txid)
      else rows[k].txid == Some(txid) && (rows[k].height.None? || height.None? || rows[k].height == height)
  }

  /** Row k carries the transaction and the height; every other row is as it was. */
  ghost predicate IsMappedAt(rows: seq<RootRow>, rows': seq<RootRow>, k: nat, txid: Txid, height: Option<nat>) {
    && k < |rows| == |rows'|
    && rows'[k].txid == Some(txid) && (height.Some? ==> rows'[k].height == height)
    && (height.None? && rows[k].txid.Some? ==> rows'[k].height == rows[k].height)
    && rows'[k].hash == rows[k].hash && rows'[k].count == rows[k].count
    && forall j :: 0 <= j < |rows| && j != k ==> rows'[j] == rows[j]
  }

  /** The newest row of the root, and no other, is mapped. */
  ghost predicate IsMappedNow(
    rows: seq<RootRow>, rows': seq<RootRow>, root: Digest, txid: Txid, height: Option<nat>)
  {
    exists k: nat :: IsNewest(rows, root, k) && IsMappedAt(rows, rows', k, txid, height)
  }

  lemma ReferenceMapsNewest(rows: seq<RootRow>, root: Digest, txid: Txid, height: Option<nat>)
    ensures RecordReference(rows, root, txid, height).Some? <==> MayBeMapped(rows, root, txid, height)
    ensures RecordReference(rows, root, txid, height).Some? ==>
      IsMappedNow(rows, RecordReference(rows, root, txid, height).value, root, txid, height)
  {
    var k := LastByHash(rows, root);
    if k.Some? {
      assert IsNewest(rows, root, k.value);
      if RecordReference(rows, root, txid, height).Some? {
        assert IsMappedAt(rows, RecordReference(rows, root, txid, height).value, k.value, txid, height);
      }
      assert IsMapped(rows, txid) <==> exists j :: 0 <= j < |rows| && rows[j].txid == Some(txid);
    }
  }

  function ConfirmedRow(r: Row, now: nat): Row {
    r.(attempts := r.attempts + 1, confirmedAt := Some(now), nextAt := None)
  }

  function Confirm(s: Anchors, txid: Txid, height: nat, now: nat): Option<Anchors> {
    if height == 0 || txid !in s.journal || s.journal[txid].status != Recorded then None
    else
      var row := s.journal[txid];
      var roots := RecordReference(s.roots, row.root, txid, Some(height));
      if roots.None? then None
      else if row.confirmedAt.Some? then Some(s.(roots := roots.value))
      else Some(Anchors(roots.value, s.journal[txid := ConfirmedRow(row, now)]))
  }

  /** The command-line recording of an anchor, refused while a broadcast is prepared. */
  function RecordAnchor(s: Anchors, root: Digest, txid: Txid, height: Option<nat>): Option<Anchors> {
    if height == Some(0) || HasPrepared(s.journal) then None
    else
      var roots := RecordReference(s.roots, root, txid, height);
      if roots.None? then None else Some(s.(roots := roots.value))
  }

  /** The prepared row is for exactly this transaction and root hash. */
  predicate IsThePrepared(journal: map<Txid, Row>, root: Digest, txid: Txid) {
    txid in journal && journal[txid].status == Prepared && journal[txid].root == root
  }

  function ReconciledRow(r: Row, now: nat): Row {
    r.(attempts := r.attempts + 1, confirmedAt := if r.confirmedAt.Some? then r.confirmedAt else Some(now), nextAt := None)
  }

  /** The administrator's recording of a transaction that a node has confirmed. */
  function RecordManual(s: Anchors, root: Digest, txid: Txid, height: nat, now: nat): Option<Anchors> {
    if height == 0 || (HasPrepared(s.journal) && !IsThePrepared(s.journal, root, txid)) then None
    else
      var roots := RecordReference(s.roots, root, txid, Some(height));
      if roots.None? then None
      else if HasPrepared(s.journal) then
        Some(Anchors(roots.value, s.journal[txid := ReconciledRow(s.journal[txid], now)]))
      else Some(s.(roots := roots.value))
  }

  function Retry(s: Anchors, txid: Txid, now: nat, delay: nat): Option<Anchors> {
    if delay == 0 || delay > MAX_I64 || txid !in s.journal then None
    else
      var row := s.journal[txid];
      if row.status != Recorded || row.confirmedAt.Some? then None
      else Some(s.(journal := s.journal[txid := row.(attempts := row.attempts + 1, nextAt := Some(now + delay))]))
  }

  /** A row that the confirmation loop will look at. */
  predicate IsDue(r: Row, now: nat) {
    r.status == Recorded && r.confirmedAt.None? && (r.nextAt.None? || r.nextAt.value <= now)
  }

  predicate IsUnconfirmed(r: Row) {
    r.status == Recorded && r.confirmedAt.None?
  }

  /** One attempt more for this row, which is due again from this time on; nothing else has changed. */
  ghost predicate IsRetried(journal: map<Txid, Row>, journal': map<Txid, Row>, txid: Txid, dueAt: nat) {
    && txid in journal && journal'.Keys == journal.Keys
    && (forall t :: t in journal && t != txid ==> journal'[t] == journal[t])
    && IntentOf(txid, journal'[txid]) == IntentOf(txid, journal[txid])
    && journal'[txid].attempts == journal[txid].attempts + 1
    && forall now: nat :: IsDue(journal'[txid], now) <==> now >= dueAt
  }

  /** src/anchor.rs: the delay doubles from 90 seconds and stays at an hour. */
  function RetrySeconds(attempts: nat): nat {
    var exponent := if attempts < 6 then attempts else 6;
    var delay := 90 * [1, 2, 4, 8, 16, 32, 64][exponent];
    if delay < 3600 then delay else 3600
  }

  // ---------------------------------------------------------------------------------
  // The invariant
  // ---------------------------------------------------------------------------------

  ghost predicate UniqueTxids(roots: seq<RootRow>) {
    forall i, j :: 0 <= i < j < |roots| && roots[i].txid.Some? ==> roots[i].txid != roots[j].txid
  }

  ghost predicate HeightsAreOfTransactions(roots: seq<RootRow>) {
    forall k :: 0 <= k < |roots| && roots[k].height.Some? ==> roots[k].txid.Some?
  }

  /** A journal row and the root row it is for. */
  ghost predicate RowInv(roots: seq<RootRow>, t: Txid, r: Row) {
    && 0 < r.count <= |roots|
    && var root := roots[r.count - 1];
    && root.hash == r.root
    && (root.txid.None? || root.txid == Some(t))
    && (r.status == Recorded ==> root.txid == Some(t) && r.recordedAt.Some?)
    && (r.confirmedAt.Some? ==> root.txid == Some(t) && root.height.Some? && r.nextAt.None?)
  }

  ghost predicate OneRowPerRoot(journal: map<Txid, Row>) {
    forall t, u :: t in journal && u in journal && journal[t].count == journal[u].count ==> t == u
  }

  ghost predicate OnePrepared(journal: map<Txid, Row>) {
    forall t, u :: t in journal && u in journal && journal[t].status == Prepared && journal[u].status == Prepared ==> t == u
  }

  ghost predicate AllRowsInv(roots: seq<RootRow>, journal: map<Txid, Row>) {
    forall t :: t in journal ==> RowInv(roots, t, journal[t])
  }

  ghost predicate RootsInv(roots: seq<RootRow>) {
    Numbered(roots) && UniqueTxids(roots) && HeightsAreOfTransactions(roots) && DistinctRoots(roots)
  }

  ghost predicate AnchorsInv(s: Anchors) {
    RootsInv(s.roots) && AllRowsInv(s.roots, s.journal) && OneRowPerRoot(s.journal) && OnePrepared(s.journal)
  }

  /** What happened to the journal: no row is lost, and no signed transaction is ever altered. */
  ghost predicate JournalKept(journal: map<Txid, Row>, journal': map<Txid, Row>) {
    forall t :: t in journal ==>
      t in journal' && IntentOf(t, journal'[t]) == IntentOf(t, journal[t])
      && (journal[t].status == Recorded ==> journal'[t].status == Recorded)
      && (journal[t].confirmedAt.Some? ==> journal'[t].confirmedAt.Some?)
  }

  /** The same transactions for the same roots, in the same status. */
  ghost predicate SameShape(journal: map<Txid, Row>, journal': map<Txid, Row>) {
    journal'.Keys == journal.Keys
    && forall t :: t in journal ==>
      IntentOf(t, journal'[t]) == IntentOf(t, journal[t]) && journal'[t].status == journal[t].status
  }

  /** No signed transaction altered, none added, and no mapping of a root lost. */
  ghost predicate Harmless(s: Anchors, s': Anchors) {
    && AnchorsInv(s')
    && RootsKept(s.roots, s'.roots) && |s'.roots| == |s.roots|
    && JournalKept(s.journal, s'.journal) && SameShape(s.journal, s'.journal)
  }

  lemma RootAt(roots: seq<RootRow>, k: nat)
    requires Numbered(roots) && DistinctRoots(roots) && k < |roots|
    ensures LastExact(roots, roots[k].hash, k + 1) == Some(k)
    ensures LastByHash(roots, roots[k].hash) == Some(k)
    ensures OnlyUnmapped(roots, k)
  {
    var e := LastExact(roots, roots[k].hash, k + 1);
    assert IsExact(roots[k], roots[k].hash, k + 1);
  }

  /** Setting what was not set on one root row. */
  lemma SetRootKeeps(roots: seq<RootRow>, k: nat, r: RootRow)
    requires RootsInv(roots) && k < |roots| && RowKept(roots[k], r)
    requires r.txid.Some? && (roots[k].txid == r.txid || !IsMapped(roots, r.txid.value))
    ensures RootsInv(roots[k := r]) && RootsKept(roots, roots[k := r])
  {
    forall j | 0 <= j < |roots| && roots[j].txid == r.txid ensures j == k {
      assert roots[j] in roots;
    }
  }

  /** Rows of the journal survive a change of one root row that keeps what is set. */
  lemma RowsSurvive(roots: seq<RootRow>, roots': seq<RootRow>, journal: map<Txid, Row>, k: nat, txid: Txid)
    requires AllRowsInv(roots, journal) && RootsKept(roots, roots') && k < |roots|
    requires forall j :: 0 <= j < |roots| && j != k ==> roots'[j] == roots[j]
    requires roots'[k].txid == Some(txid)
    requires forall t :: t in journal && journal[t].count == k + 1 ==> t == txid
    ensures AllRowsInv(roots', journal)
  {
    forall t | t in journal ensures RowInv(roots', t, journal[t]) {
      assert RowInv(roots, t, journal[t]);
      assert RowKept(roots[journal[t].count - 1], roots'[journal[t].count - 1]);
    }
  }

  /** One journal row replaced by one for the same root and count. */
  lemma ReplaceRow(roots: seq<RootRow>, journal: map<Txid, Row>, txid: Txid, r: Row)
    requires AnchorsInv(Anchors(roots, journal)) && txid in journal && RowInv(roots, txid, r)
    requires IntentOf(txid, r) == IntentOf(txid, journal[txid])
    requires journal[txid].status == Recorded ==> r.status == Recorded
    requires journal[txid].confirmedAt.Some? ==> r.confirmedAt.Some?
    ensures AnchorsInv(Anchors(roots, journal[txid := r])) && JournalKept(journal, journal[txid := r])
    ensures r.status == journal[txid].status ==> SameShape(journal, journal[txid := r])
  {
    var j := journal[txid := r];
    forall t | t in j ensures RowInv(roots, t, j[t]) {
      assert t != txid ==> RowInv(roots, t, journal[t]);
    }
  }

  /** Preparing journals the intent, or finds it journaled, and leaves the roots alone. */
  lemma PrepareKeeps(s: Anchors, i: Intent)
    requires AnchorsInv(s) && Prepare(s, i).Some?
    ensures var s' := Prepare(s, i).value;
      && AnchorsInv(s') && s'.roots == s.roots && JournalKept(s.journal, s'.journal)
      && i.txid in s'.journal && IntentOf(i.txid, s'.journal[i.txid]) == i
      && s'.journal[i.txid].status == Prepared
  {
    PreparedOnTop(s, i);
    hide HasUnrecordedRoot, Canonical;
    if IsFree(s.journal, i) {
      InsertRow(s, i);
      NewRowKept(s.journal, i);
      hide AnchorsInv, IsFree, JournalKept;
    } else {
      assert RowInv(s.roots, i.txid, s.journal[i.txid]);
      hide IsFree;
    }
  }

  lemma NewRowKept(journal: map<Txid, Row>, i: Intent)
    requires i.txid !in journal
    ensures JournalKept(journal, journal[i.txid := NewRow(i)])
  {}

  /** The root that a row is prepared for stands at its own count, unmapped. */
  lemma PreparedOnTop(s: Anchors, i: Intent)
    requires AnchorsInv(s) && Prepare(s, i).Some?
    ensures 0 < i.count <= |s.roots| && s.roots[i.count - 1].hash == i.root && s.roots[i.count - 1].txid.None?
  {
    var r :| r in s.roots && IsExact(r, i.root, i.count) && r.txid.None?;
    var k :| 0 <= k < |s.roots| && s.roots[k] == r;
  }

  lemma InsertRow(s: Anchors, i: Intent)
    requires AnchorsInv(s) && IsFree(s.journal, i)
    requires 0 < i.count <= |s.roots| && s.roots[i.count - 1].hash == i.root && s.roots[i.count - 1].txid.None?
    ensures AnchorsInv(s.(journal := s.journal[i.txid := NewRow(i)]))
  {
    var j := s.journal[i.txid := NewRow(i)];
    forall t | t in s.journal ensures s.journal[t].count != i.count {
      assert RowInv(s.roots, t, s.journal[t]);
    }
    forall t | t in j ensures RowInv(s.roots, t, j[t]) {
      assert t != i.txid ==> RowInv(s.roots, t, s.journal[t]);
    }
  }

  /**
   Finalizing a prepared row fails in exactly one case: some other root row is already mapped
   to its transaction, so that the unique index on transaction ids refuses the mapping.  The
   conflict and lost-row failures in the code are never reached.
   */
  lemma FinalizeSucceedsIff(s: Anchors, txid: Txid, now: nat)
    requires AnchorsInv(s) && txid in s.journal && s.journal[txid].status == Prepared
    ensures Finalize(s, txid, now).Some?
       <==> forall k :: 0 <= k < |s.roots| && s.roots[k].txid == Some(txid) ==> k == s.journal[txid].count - 1
  {
    var row := s.journal[txid];
    assert RowInv(s.roots, txid, row);
    var k := row.count - 1;
    RootAt(s.roots, k);
    if s.roots[k].txid.None? && IsMapped(s.roots, txid) {
      var r :| r in s.roots && r.txid == Some(txid);
      var j :| 0 <= j < |s.roots| && s.roots[j] == r;
      assert j != k;
    }
    if s.roots[k].txid == Some(txid) {
      assert forall j :: 0 <= j < |s.roots| && j != k ==> s.roots[j].txid != Some(txid);
    }
  }

  /** The root rows after finalizing, still with the journal row as it was. */
  lemma FinalizeSetsRoot(s: Anchors, txid: Txid, now: nat)
    requires AnchorsInv(s) && Finalize(s, txid, now).Some?
    ensures var s' := Finalize(s, txid, now).value;
      && AnchorsInv(Anchors(s'.roots, s.journal)) && RootsKept(s.roots, s'.roots) && |s'.roots| == |s.roots|
      && RowInv(s'.roots, txid, Finalized(s.journal[txid], now))
      && s'.journal == s.journal[txid := Finalized(s.journal[txid], now)]
  {
    var row := s.journal[txid];
    assert RowInv(s.roots, txid, row);
    var k := row.count - 1;
    RootAt(s.roots, k);
    if s.roots[k].txid.None? {
      SetRootKeeps(s.roots, k, s.roots[k].(txid := Some(txid)));
      RowsSurvive(s.roots, Finalize(s, txid, now).value.roots, s.journal, k, txid);
    }
  }

  lemma FinalizeKeeps(s: Anchors, txid: Txid, now: nat)
    requires AnchorsInv(s) && Finalize(s, txid, now).Some?
    ensures var s' := Finalize(s, txid, now).value;
      && AnchorsInv(s') && RootsKept(s.roots, s'.roots) && |s'.roots| == |s.roots|
      && JournalKept(s.journal, s'.journal) && s'.journal[txid].status == Recorded
      && s'.journal == s.journal[txid := Finalized(s.journal[txid], now)]
  {
    FinalizeSetsRoot(s, txid, now);
    var s' := Finalize(s, txid, now).value;
    assert txid in s.journal;
    hide AnchorsInv, Finalize, RowInv, RootsKept, JournalKept;
    ReplaceRow(s'.roots, s.journal, txid, Finalized(s.journal[txid], now));
    assert s' == Anchors(s'.roots, s'.journal);
  }

  /** Recording a reference sets at most one root row, and only what was not set there. */
  lemma RecordReferenceKeeps(roots: seq<RootRow>, root: Digest, txid: Txid, height: Option<nat>) returns (k: nat)
    requires RootsInv(roots) && RecordReference(roots, root, txid, height).Some?
    ensures var roots' := RecordReference(roots, root, txid, height).value;
      && RootsInv(roots') && RootsKept(roots, roots')
      && k < |roots| && roots[k].hash == root && roots'[k].txid == Some(txid)
      && (height.Some? ==> roots'[k].height == height)
      && (forall j :: 0 <= j < |roots| && j != k ==> roots'[j] == roots[j])
  {
    k := LastByHash(roots, root).value;
    var r := roots[k];
    if r.txid.None? {
      SetRootKeeps(roots, k, r.(txid := Some(txid), height := height));
    } else if r.height.None? && height.Some? {
      SetRootKeeps(roots, k, r.(height := height));
    }
  }

  /** The journal row that stands in the way of no reference: there is none, or it is this one. */
  predicate MayReference(journal: map<Txid, Row>, root: Digest, txid: Txid) {
    !HasPrepared(journal) || (txid in journal && journal[txid].root == root)
  }

  /** The rows for a root that a reference was recorded for are rows of that transaction. */
  lemma ReferenceAgreesWithRows(s: Anchors, root: Digest, txid: Txid, height: Option<nat>, k: nat)
    requires AnchorsInv(s) && MayReference(s.journal, root, txid)
    requires k < |s.roots| && s.roots[k].hash == root && (s.roots[k].txid.Some? ==> s.roots[k].txid == Some(txid))
    ensures forall t :: t in s.journal && s.journal[t].count == k + 1 ==> t == txid
  {
    forall t | t in s.journal && s.journal[t].count == k + 1 ensures t == txid {
      assert RowInv(s.roots, t, s.journal[t]);
      if HasPrepared(s.journal) {
        assert RowInv(s.roots, txid, s.journal[txid]);
      }
    }
  }

  lemma ReferenceKeeps(s: Anchors, root: Digest, txid: Txid, height: Option<nat>) returns (k: nat)
    requires AnchorsInv(s) && MayReference(s.journal, root, txid)
    requires RecordReference(s.roots, root, txid, height).Some?
    ensures var roots' := RecordReference(s.roots, root, txid, height).value;
      && AnchorsInv(Anchors(roots', s.journal)) && RootsKept(s.roots, roots') && |roots'| == |s.roots|
      && k < |s.roots| && s.roots[k].hash == root && roots'[k].txid == Some(txid)
      && (height.Some? ==> roots'[k].height == height)
      && (forall j :: 0 <= j < |s.roots| && j != k ==> roots'[j] == s.roots[j])
  {
    k := RecordReferenceKeeps(s.roots, root, txid, height);
    var roots' := RecordReference(s.roots, root, txid, height).value;
    assert RowKept(s.roots[k], roots'[k]);
    ReferenceAgreesWithRows(s, root, txid, height, k);
    RowsSurvive(s.roots, roots', s.journal, k, txid);
  }

  /** The root row of a journaled transaction. */
  lemma RootOfRow(s: Anchors, txid: Txid, k: nat)
    requires AnchorsInv(s) && txid in s.journal && k < |s.roots| && s.roots[k].hash == s.journal[txid].root
    ensures s.journal[txid].count == k + 1
    ensures RowInv(s.roots, txid, s.journal[txid])
  {
    assert RowInv(s.roots, txid, s.journal[txid]);
  }

  lemma ConfirmedRowKeeps(roots: seq<RootRow>, journal: map<Txid, Row>, txid: Txid, now: nat)
    requires AnchorsInv(Anchors(roots, journal)) && txid in journal && RowInv(roots, txid, journal[txid])
    requires journal[txid].status == Recorded && roots[journal[txid].count - 1].height.Some?
    ensures var journal' := journal[txid := ConfirmedRow(journal[txid], now)];
      AnchorsInv(Anchors(roots, journal')) && JournalKept(journal, journal') && SameShape(journal, journal')
  {
    ReplaceRow(roots, journal, txid, ConfirmedRow(journal[txid], now));
  }

  lemma ConfirmKeeps(s: Anchors, txid: Txid, height: nat, now: nat)
    requires AnchorsInv(s) && Confirm(s, txid, height, now).Some?
    ensures var s' := Confirm(s, txid, height, now).value;
      && Harmless(s, s')
      && s'.journal[txid].confirmedAt.Some?
      && s'.roots[s'.journal[txid].count - 1].height == Some(height)
  {
    hide AnchorsInv, RecordReference;
    var row := s.journal[txid];
    var k := ReferenceKeeps(s, row.root, txid, Some(height));
    var roots' := RecordReference(s.roots, row.root, txid, Some(height)).value;
    RootOfRow(Anchors(roots', s.journal), txid, k);
    if row.confirmedAt.None? {
      ConfirmedRowKeeps(roots', s.journal, txid, now);
      assert Confirm(s, txid, height, now).value == Anchors(roots', s.journal[txid := ConfirmedRow(row, now)]);
    } else {
      assert Confirm(s, txid, height, now).value == Anchors(roots', s.journal);
    }
  }

  lemma RecordAnchorKeeps(s: Anchors, root: Digest, txid: Txid, height: Option<nat>)
    requires AnchorsInv(s) && RecordAnchor(s, root, txid, height).Some?
    ensures var s' := RecordAnchor(s, root, txid, height).value;
      Harmless(s, s') && s'.journal == s.journal
  {
    var _ := ReferenceKeeps(s, root, txid, height);
  }

  lemma RecordManualKeeps(s: Anchors, root: Digest, txid: Txid, height: nat, now: nat)
    requires AnchorsInv(s) && RecordManual(s, root, txid, height, now).Some?
    ensures Harmless(s, RecordManual(s, root, txid, height, now).value)
  {
    var k := ReferenceKeeps(s, root, txid, Some(height));
    if HasPrepared(s.journal) {
      var s1 := Anchors(RecordReference(s.roots, root, txid, Some(height)).value, s.journal);
      RootOfRow(s1, txid, k);
      ReplaceRow(s1.roots, s.journal, txid, ReconciledRow(s.journal[txid], now));
    }
  }

  lemma RetryKeeps(s: Anchors, txid: Txid, now: nat, delay: nat)
    requires AnchorsInv(s) && Retry(s, txid, now, delay).Some?
    ensures var s' := Retry(s, txid, now, delay).value;
      Harmless(s, s') && s'.roots == s.roots
  {
    var row := s.journal[txid];
    assert RowInv(s.roots, txid, row);
    assert s == Anchors(s.roots, s.journal);
    ReplaceRow(s.roots, s.journal, txid, row.(attempts := row.attempts + 1, nextAt := Some(now + delay)));
  }

  /** A new root row at the end of the table. */
  lemma AppendRootKeeps(s: Anchors, r: RootRow)
    requires AnchorsInv(s) && r.count == |s.roots| + 1 && r.txid.None? && r.height.None?
    requires DistinctRoots(s.roots + [r])
    ensures AnchorsInv(s.(roots := s.roots + [r])) && RootsKept(s.roots, s.roots + [r])
  {
    var roots' := s.roots + [r];
    forall t | t in s.journal ensures RowInv(roots', t, s.journal[t]) {
      assert RowInv(s.roots, t, s.journal[t]);
    }
  }

  // ---------------------------------------------------------------------------------
  // When each operation succeeds, and what it leaves, member by member
  // ---------------------------------------------------------------------------------

  /** No broadcast is prepared. */
  ghost predicate NonePrepared(journal: map<Txid, Row>) {
    forall t :: t in journal ==> journal[t].status == Recorded
  }

  /** The row of this transaction may have changed, and nothing else of the journal. */
  ghost predicate OnlyRowChanged(journal: map<Txid, Row>, journal': map<Txid, Row>, txid: Txid) {
    && txid in journal && journal'.Keys == journal.Keys
    && (forall t :: t in journal && t != txid ==> journal'[t] == journal[t])
    && IntentOf(txid, journal'[txid]) == IntentOf(txid, journal[txid])
  }

  /** A new row, prepared for this transaction and not tried yet. */
  ghost predicate IsNewlyPrepared(journal: map<Txid, Row>, journal': map<Txid, Row>, i: Intent) {
    && i.txid !in journal && i.txid in journal' && journal'.Keys == journal.Keys + {i.txid}
    && (forall t :: t in journal ==> journal'[t] == journal[t])
    && var r := journal'[i.txid];
    && r.root == i.root && r.count == i.count && r.raw == i.raw && r.position == i.position
    && r.status == Prepared && r.attempts == 0
    && r.recordedAt.None? && r.nextAt.None? && r.confirmedAt.None?
  }

  /** The journal has this very transaction for this very root. */
  ghost predicate HasIntent(journal: map<Txid, Row>, i: Intent) {
    && i.txid in journal
    && var r := journal[i.txid];
    r.root == i.root && r.count == i.count && r.raw == i.raw && r.position == i.position
  }

  /** No row has this transaction, nor this root and count, and none is prepared. */
  ghost predicate KeysAreFree(journal: map<Txid, Row>, i: Intent) {
    i.txid !in journal && NonePrepared(journal)
    && forall t :: t in journal ==> journal[t].root != i.root || journal[t].count != i.count
  }

  /** Preparing asks for an unmapped row of the exact root, and for free keys or the same transaction there. */
  lemma PrepareSucceedsIff(s: Anchors, i: Intent)
    ensures Prepare(s, i).Some? <==>
      && 0 < i.count <= 0x7FFF_FFFF_FFFF_FFFF && i.position <= 0x7FFF_FFFF_FFFF_FFFF && i.raw != []
      && (exists k :: 0 <= k < |s.roots| && s.roots[k].hash == i.root && s.roots[k].count == i.count && s.roots[k].txid.None?)
      && (KeysAreFree(s.journal, i) || HasIntent(s.journal, i))
    ensures Prepare(s, i).Some? ==> Prepare(s, i).value.roots == s.roots
    ensures Prepare(s, i).Some? ==>
      if KeysAreFree(s.journal, i) then IsNewlyPrepared(s.journal, Prepare(s, i).value.journal, i)
      else Prepare(s, i).value.journal == s.journal
  {
    assert IsFree(s.journal, i) <==> KeysAreFree(s.journal, i);
    if HasUnrecordedRoot(s.roots, i.root, i.count) {
      var r :| r in s.roots && IsExact(r, i.root, i.count) && r.txid.None?;
      var k :| 0 <= k < |s.roots| && s.roots[k] == r;
    }
  }

  /** Row k is the newest one of this root and count. */
  ghost predicate IsNewestExact(rows: seq<RootRow>, root: Digest, count: nat, k: nat) {
    && k < |rows| && rows[k].hash == root && rows[k].count == count
    && forall j :: k < j < |rows| ==> rows[j].hash != root || rows[j].count != count
  }

  /** The row is this transaction's, or free, the only such row, and the transaction maps none. */
  ghost predicate MayBeRecorded(rows: seq<RootRow>, root: Digest, count: nat, k: nat, txid: Txid) {
    && IsNewestExact(rows, root, count, k)
    && if rows[k].txid.Some? then rows[k].txid == Some(txid)
       else forall j :: 0 <= j < |rows| ==>
         rows[j].txid != Some(txid)
         && (rows[j].hash == root && rows[j].count == count && rows[j].txid.None? ==> j == k)
  }

  /** Finalizing asks for a row of the exact root that may be mapped, and maps that one alone. */
  lemma FinalizeSucceedsWhen(s: Anchors, txid: Txid, now: nat)
    ensures Finalize(s, txid, now).Some? <==>
      txid in s.journal && exists k: nat :: MayBeRecorded(s.roots, s.journal[txid].root, s.journal[txid].count, k, txid)
    ensures Finalize(s, txid, now).Some? ==>
      exists k: nat :: IsNewestExact(s.roots, s.journal[txid].root, s.journal[txid].count, k)
        && IsMappedAt(s.roots, Finalize(s, txid, now).value.roots, k, txid, None)
        && Finalize(s, txid, now).value.roots[k].height == s.roots[k].height
  {
    if txid in s.journal {
      var row := s.journal[txid];
      var k := LastExact(s.roots, row.root, row.count);
      assert IsMapped(s.roots, txid) <==> exists j :: 0 <= j < |s.roots| && s.roots[j].txid == Some(txid);
      if k.Some? {
        assert IsNewestExact(s.roots, row.root, row.count, k.value);
        assert Finalize(s, txid, now).Some? <==> MayBeRecorded(s.roots, row.root, row.count, k.value, txid);
        if Finalize(s, txid, now).Some? {
          assert IsMappedAt(s.roots, Finalize(s, txid, now).value.roots, k.value, txid, None);
        }
      }
    }
  }

  /** The row is recorded, since the first recording, and unless it is confirmed it is due from then or from when it was. */
  ghost predicate IsFinalized(journal: map<Txid, Row>, journal': map<Txid, Row>, txid: Txid, now: nat) {
    && OnlyRowChanged(journal, journal', txid)
    && var r, r' := journal[txid], journal'[txid];
    && r'.status == Recorded && r'.attempts == r.attempts && r'.confirmedAt == r.confirmedAt
    && r'.recordedAt == (if r.recordedAt.None? then Some(now) else r.recordedAt)
    && (r.confirmedAt.Some? ==> r'.nextAt.None?)
    && (r.confirmedAt.None? ==> r'.nextAt == if r.nextAt.None? then Some(now) else r.nextAt)
  }

  lemma FinalizeIs(s: Anchors, txid: Txid, now: nat)
    requires Finalize(s, txid, now).Some?
    ensures IsFinalized(s.journal, Finalize(s, txid, now).value.journal, txid, now)
  {}

  /** When a finalized row is looked at: from its finalization on, unless it was confirmed before, and then never. */
  lemma FinalizedIsDue(s: Anchors, txid: Txid, now: nat)
    requires Finalize(s, txid, now).Some?
    ensures var r, r' := s.journal[txid], Finalize(s, txid, now).value.journal[txid];
      && (r.nextAt.None? && r.confirmedAt.None? ==> forall later: nat :: IsDue(r', later) <==> later >= now)
      && (r.confirmedAt.Some? ==> forall later: nat :: !IsDue(r', later))
  {
    FinalizeIs(s, txid, now);
  }

  /** One attempt more, confirmed since the first time, and no longer scheduled. */
  ghost predicate IsSettled(r: Row, r': Row, now: nat) {
    && r'.attempts == r.attempts + 1 && r'.nextAt.None?
    && r'.confirmedAt == (if r.confirmedAt.None? then Some(now) else r.confirmedAt)
    && r'.status == r.status && r'.recordedAt == r.recordedAt
  }

  lemma ConfirmIs(s: Anchors, txid: Txid, height: nat, now: nat)
    ensures Confirm(s, txid, height, now).Some? <==>
      && height > 0 && txid in s.journal && s.journal[txid].status == Recorded
      && MayBeMapped(s.roots, s.journal[txid].root, txid, Some(height))
    ensures Confirm(s, txid, height, now).Some? ==>
      var s' := Confirm(s, txid, height, now).value;
      && IsMappedNow(s.roots, s'.roots, s.journal[txid].root, txid, Some(height))
      && OnlyRowChanged(s.journal, s'.journal, txid)
      && (if s.journal[txid].confirmedAt.None? then IsSettled(s.journal[txid], s'.journal[txid], now)
          else s'.journal == s.journal)
  {
    if txid in s.journal {
      ReferenceMapsNewest(s.roots, s.journal[txid].root, txid, Some(height));
    }
  }

  /** A confirmed row is not looked at again. */
  lemma ConfirmedIsNeverDue(s: Anchors, txid: Txid, height: nat, now: nat, later: nat)
    requires Confirm(s, txid, height, now).Some?
    ensures !IsDue(Confirm(s, txid, height, now).value.journal[txid], later)
  {}

  lemma RecordAnchorIs(s: Anchors, root: Digest, txid: Txid, height: Option<nat>)
    ensures RecordAnchor(s, root, txid, height).Some? <==>
      height != Some(0) && NonePrepared(s.journal) && MayBeMapped(s.roots, root, txid, height)
    ensures RecordAnchor(s, root, txid, height).Some? ==>
      var s' := RecordAnchor(s, root, txid, height).value;
      s'.journal == s.journal && IsMappedNow(s.roots, s'.roots, root, txid, height)
  {
    ReferenceMapsNewest(s.roots, root, txid, height);
    assert HasPrepared(s.journal) <==> !NonePrepared(s.journal);
  }

  /** The administrator may record a reference for what is prepared, or for any root when nothing is. */
  ghost predicate MayBeReconciled(s: Anchors, root: Digest, txid: Txid, height: nat) {
    && height > 0 && MayBeMapped(s.roots, root, txid, Some(height))
    && (NonePrepared(s.journal) || (txid in s.journal && s.journal[txid].status == Prepared && s.journal[txid].root == root))
  }

  /** The newest row of the root carries the height; what was prepared is confirmed and stays prepared. */
  ghost predicate IsReconciled(s: Anchors, s': Anchors, root: Digest, txid: Txid, height: nat, now: nat) {
    && IsMappedNow(s.roots, s'.roots, root, txid, Some(height))
    && (NonePrepared(s.journal) ==> s'.journal == s.journal)
    && (!NonePrepared(s.journal) ==>
      && OnlyRowChanged(s.journal, s'.journal, txid) && s.journal[txid].status == Prepared
      && IsSettled(s.journal[txid], s'.journal[txid], now))
  }

  lemma RecordManualIs(s: Anchors, root: Digest, txid: Txid, height: nat, now: nat)
    ensures RecordManual(s, root, txid, height, now).Some? <==> MayBeReconciled(s, root, txid, height)
    ensures RecordManual(s, root, txid, height, now).Some? ==>
      IsReconciled(s, RecordManual(s, root, txid, height, now).value, root, txid, height, now)
  {
    ReferenceMapsNewest(s.roots, root, txid, Some(height));
    assert HasPrepared(s.journal) <==> !NonePrepared(s.journal);
  }

  /** A prepared row that was reconciled is confirmed when it is finalized, and never looked at. */
  lemma ReconciledIsNeverDue(s: Anchors, root: Digest, txid: Txid, height: nat, now: nat, finishedAt: nat, later: nat)
    requires RecordManual(s, root, txid, height, now).Some? && !NonePrepared(s.journal)
    requires Finalize(RecordManual(s, root, txid, height, now).value, txid, finishedAt).Some?
    ensures var row := Finalize(RecordManual(s, root, txid, height, now).value, txid, finishedAt).value.journal[txid];
      row.status == Recorded && row.confirmedAt.Some? && !IsDue(row, later)
  {
    RecordManualIs(s, root, txid, height, now);
    FinalizedIsDue(RecordManual(s, root, txid, height, now).value, txid, finishedAt);
    FinalizeIs(RecordManual(s, root, txid, height, now).value, txid, finishedAt);
  }

  /** 90 seconds at first, twice as long each time, and from the seventh time on an hour. */
  lemma RetrySecondsAre(attempts: nat)
    ensures RetrySeconds(0) == 90
    ensures attempts < 5 ==> RetrySeconds(attempts + 1) == 2 * RetrySeconds(attempts)
    ensures attempts >= 6 ==> RetrySeconds(attempts) == 3600
  {}

  // ---------------------------------------------------------------------------------
  // Confirmation
  // ---------------------------------------------------------------------------------

  /**
   No number of failed confirmations ends a broadcast: after a retry the row is due again no
   later than an hour on, however often it has been retried, and stays due.
   */
  lemma RetriedRowIsDueAgain(s: Anchors, txid: Txid, now: nat, later: nat)
    requires txid in s.journal && IsDue(s.journal[txid], now)
    requires later >= now + 3600
    ensures var s' := Retry(s, txid, now, RetrySeconds(s.journal[txid].attempts));
      && s'.Some?
      && !IsDue(s'.value.journal[txid], now)
      && IsDue(s'.value.journal[txid], later)
  {}

  /**
   Confirming a recorded row fails in exactly one case: its root has another height already,
   from a recording that was not checked against the chain.
   */
  lemma ConfirmSucceedsIff(s: Anchors, txid: Txid, height: nat, now: nat)
    requires AnchorsInv(s) && txid in s.journal && s.journal[txid].status == Recorded
    ensures 0 < s.journal[txid].count <= |s.roots|
    ensures var known := s.roots[s.journal[txid].count - 1].height;
      Confirm(s, txid, height, now).Some? <==> height > 0 && (known.None? || known == Some(height))
  {
    assert RowInv(s.roots, txid, s.journal[txid]);
    RootAt(s.roots, s.journal[txid].count - 1);
  }

  /** How it gets there: the command line takes any height for a recorded row that has none. */
  lemma UncheckedHeightIsTaken(s: Anchors, txid: Txid, claimed: nat, height: nat, now: nat)
    requires AnchorsInv(s) && txid in s.journal && s.journal[txid].status == Recorded && !HasPrepared(s.journal)
    requires s.roots[s.journal[txid].count - 1].height.None? && claimed > 0 && height != claimed
    ensures var s' := RecordAnchor(s, s.journal[txid].root, txid, Some(claimed));
      s'.Some? && Confirm(s'.value, txid, height, now).None?
  {
    assert RowInv(s.roots, txid, s.journal[txid]);
    RootAt(s.roots, s.journal[txid].count - 1);
    var s' := RecordAnchor(s, s.journal[txid].root, txid, Some(claimed));
    RecordAnchorKeeps(s, s.journal[txid].root, txid, Some(claimed));
    hide AnchorsInv, RowInv;
    ConfirmSucceedsIff(s'.value, txid, height, now);
  }

  /** Due rows are recorded and unconfirmed rows whose exact root is mapped to their transaction. */
  lemma DueRowsAreMapped(s: Anchors, txid: Txid, now: nat)
    requires AnchorsInv(s) && txid in s.journal && IsDue(s.journal[txid], now)
    ensures LastExact(s.roots, s.journal[txid].root, s.journal[txid].count).Some?
    ensures s.roots[LastExact(s.roots, s.journal[txid].root, s.journal[txid].count).value].txid == Some(txid)
  {
    assert RowInv(s.roots, txid, s.journal[txid]);
    RootAt(s.roots, s.journal[txid].count - 1);
  }
}
