/**
 src/db.rs: the database whose rows the methods insert and update.  Each method is one
 transaction: it works on copies and assigns the tables when it commits, so that a failure
 leaves every table as it was.  The contracts tie the tables to the operations on values in
 `LeafLog`, `Journal` and `Payments`, about which the invariants are proved.
 */
module Database {
  import opened Bytes
  import opened Results
  import opened Sums
  import opened Merkle
  import opened Memo
  import opened LeafLog
  import opened Selection
  import opened Journal
  import opened Confirmations
  import opened Payments

  class Db {
    const H: Hash
    var leaves: seq<LeafRow>
    var roots: seq<RootRow>
    var journal: map<Txid, Row>
    var invoices: map<Id, Invoice>
    var payments: map<Id, map<PaymentTx, Payment>>
    var miners: seq<Assignment>
    var lastScanned: nat

    function LogValue(): Log
      reads this
    {
      Log(leaves, roots)
    }

    function AnchorsValue(): Anchors
      reads this
    {
      Anchors(roots, journal)
    }

    function LedgerValue(): Ledger
      reads this
    {
      Ledger(invoices, payments, miners, Log(leaves, roots))
    }

    constructor (H: Hash)
      ensures this.H == H
      ensures LogValue() == Log([], []) && journal == map[] && LedgerValue() == Ledger(map[], map[], [], Log([], []))
      ensures lastScanned == 0
    {
      this.H := H;
      leaves, roots, journal := [], [], map[];
      invoices, payments, miners, lastScanned := map[], map[], [], 0;
    }

    // -------------------------------------------------------------------------------
    // The leaf log
    // -------------------------------------------------------------------------------

    method LeafHashesOf(rows: seq<LeafRow>) returns (hashes: seq<Digest>)
      ensures hashes == Hashes(rows)
    {
      hashes := [];
      for i := 0 to |rows|
        invariant hashes == Hashes(rows[..i])
      {
        assert rows[..i + 1][..i] == rows[..i];
        hashes := hashes + [rows[i].hash];
      }
      assert rows[..|rows|] == rows;
    }

    /** INSERT OR IGNORE into a working copy; a new leaf gets its root row. */
    method InsertLeafInTx(work: Log, row: LeafRow) returns (result: Log, inserted: bool)
      ensures result == LeafInserted(H, work, row)
      ensures inserted == IndexOf(work.leaves, row.hash).None?
    {
      inserted := IndexOf(work.leaves, row.hash).None?;
      if !inserted {
        return work, false;
      }
      var rows := work.leaves + [row];
      var hashes := LeafHashesOf(rows);
      var root := ComputeRoot(H, hashes);
      result := Log(rows, work.roots + [RootRow(root, |rows|, None, None)]);
    }

    /** The current root of a working copy, and the root table with its row. */
    method CurrentRootInTx(work: Log) returns (r: Option<RootRow>, rows: seq<RootRow>)
      ensures r == CurrentRoot(H, work)
      ensures rows == RootsAfterCurrent(H, work)
    {
      rows := work.roots;
      var total := |work.leaves|;
      if total == 0 {
        return None, rows;
      }
      var hashes := LeafHashesOf(work.leaves);
      var canonical := ComputeRoot(H, hashes);
      var exact := LastExact(rows, canonical, total);
      if exact.Some? {
        return Some(rows[exact.value]), rows;
      }
      if rows != [] {
        var latest := rows[|rows| - 1];
        var normalized := latest.(count := if latest.count < total then latest.count else total);
        if normalized.hash == canonical && normalized.count == total {
          return Some(normalized), rows;
        }
      }
      rows := rows + [RootRow(canonical, total, None, None)];
      r := Some(rows[|rows| - 1]);
    }

    method CurrentMerkleRoot() returns (r: Option<RootRow>)
      modifies this`roots
      ensures r == CurrentRoot(H, old(LogValue()))
      ensures roots == RootsAfterCurrent(H, old(LogValue()))
    {
      r, roots := CurrentRootInTx(LogValue());
    }

    /** Returns the stored leaf and the root of the whole log. */
    method InsertLeafRaw(row: LeafRow) returns (leaf: LeafRow, root: RootRow)
      modifies this`leaves, this`roots
      ensures leaves == LeafInserted(H, old(LogValue()), row).leaves
      ensures roots == RootsAfterCurrent(H, LeafInserted(H, old(LogValue()), row))
      ensures leaves == if row.hash in Hashes(old(leaves)) then old(leaves) else old(leaves) + [row]
      ensures leaf in leaves && leaf.hash == row.hash && (IndexOf(old(leaves), row.hash).None? ==> leaf == row)
      ensures root.hash == RootOf(H, leaves) && root.count == |leaves|
    {
      InsertedLeaves(H, LogValue(), row);
      var work, inserted := InsertLeafInTx(LogValue(), row);
      assert inserted ==> work.leaves[|work.leaves| - 1] == row;
      var current, rows := CurrentRootInTx(work);
      leaf := work.leaves[IndexOf(work.leaves, row.hash).value];
      root := current.value;
      leaves, roots := work.leaves, rows;
    }

    method UnanchoredLeafCount() returns (n: nat)
      ensures n == UnanchoredCount(LogValue())
    {
      var last := 0;
      for i := 0 to |roots|
        invariant last == LastAnchored(roots[..i])
      {
        assert roots[..i + 1][..i] == roots[..i];
        if roots[i].txid.Some? && roots[i].count > last {
          last := roots[i].count;
        }
      }
      assert roots[..|roots|] == roots;
      n := if |leaves| > last then |leaves| - last else 0;
    }

    /**
     The bundle that is served for a leaf.  It exists for every leaf of the log and for no
     other hash; its root is the preferred one; and the server's own check never finds it
     invalid, nor rejects it unless it is a legacy proof past the cutoff height.
     */
    method GetVerificationBundle(leafHash: Digest) returns (r: Option<Bundle>)
      modifies this`roots
      ensures r.Some? <==> leafHash in Hashes(leaves)
      ensures r.Some? ==> r.value.leaf in leaves && r.value.leaf.hash == leafHash
      ensures r.Some? ==> IsPreferredRoot(H, old(LogValue()), IndexOf(leaves, leafHash).value + 1, r.value.root)
      ensures r.Some? ==> VerifyBundleMerkle(H, r.value).scheme != Invalid
      ensures r.Some? && !VerifyBundleMerkle(H, r.value).valid ==>
        VerifyBundleMerkle(H, r.value).scheme == LegacyDuplicateOdd && !IsHistorical(r.value.root.height)
    {
      var at := IndexOf(leaves, leafHash);
      if at.None? {
        return None;
      }
      var index := at.value;
      assert Hashes(leaves)[index] == leafHash;
      var all := LeafHashesOf(leaves);
      var root := CoveringRoot(all, index);
      var bundle := BundleUnder(all, root, index);
      r := Some(bundle);
    }

    method BundleUnder(all: seq<Digest>, root: RootRow, index: nat) returns (b: Bundle)
      requires all == Hashes(leaves) && index < root.count <= |all|
      requires IsCountBound(H, root, all) || IsLegacy(H, root, all)
      ensures b.leaf == leaves[index] && b.root == root
      ensures var c := VerifyBundleMerkle(H, b);
        c.scheme != Invalid && (c.valid || (c.scheme == LegacyDuplicateOdd && !IsHistorical(root.height)))
    {
      var proof := ProofUnder(all, root, index);
      BundleVerifies(H, LogValue(), root, index);
      b := Bundle(leaves[index], proof, root);
    }

    /** The preferred root for the leaf at this index, which is a root over a part of the log. */
    method CoveringRoot(all: seq<Digest>, index: nat) returns (root: RootRow)
      requires all == Hashes(leaves) && index < |leaves|
      modifies this`roots
      ensures index < root.count <= |all|
      ensures IsPreferredRoot(H, old(LogValue()), index + 1, root)
      ensures IsCountBound(H, root, all) || IsLegacy(H, root, all)
    {
      var position := index + 1;
      var rows := AnchoredCovering(roots, position);
      var selected := SelectCoveringRoot(H, rows, all, position);
      if selected.Some? {
        root := selected.value;
        SelectedIsPreferred(H, LogValue(), position, root);
      } else {
        NoneSelectedMeansCurrent(H, LogValue(), position);
        CurrentRootCoversLog(H, LogValue());
        var current := CurrentMerkleRoot();
        root := current.value;
        assert all[..root.count] == all;
      }
    }

    method ProofUnder(all: seq<Digest>, root: RootRow, index: nat) returns (proof: seq<ProofStep>)
      requires root.count <= |all|
      ensures proof == BundleProof(H, all, root, index)
    {
      var part := all[..root.count];
      var newRoot := ComputeRoot(H, part);
      var legacyRoot := ComputeLegacyRoot(H, part);
      if legacyRoot == root.hash && newRoot != root.hash {
        proof := GenerateLegacyProof(H, part, index);
      } else {
        proof := GenerateProof(H, part, index);
      }
    }

    // -------------------------------------------------------------------------------
    // The anchor journal
    // -------------------------------------------------------------------------------

    /** What a transaction leaves behind: the new tables, or on failure the old ones. */
    static function OrUnchanged(a: Option<Anchors>, before: Anchors): Anchors {
      if a.Some? then a.value else before
    }

    method PrepareAnchorBroadcast(intent: Intent) returns (ok: bool)
      modifies this`journal
      ensures ok == Prepare(old(AnchorsValue()), intent).Some?
      ensures AnchorsValue() == OrUnchanged(Prepare(old(AnchorsValue()), intent), old(AnchorsValue()))
      ensures ok ==> HasIntent(journal, intent)
      ensures ok ==> journal == old(journal) || IsNewlyPrepared(old(journal), journal, intent)
    {
      PrepareSucceedsIff(AnchorsValue(), intent);
      if !Canonical(intent) {
        return false;
      }
      if !HasUnrecordedRoot(roots, intent.root, intent.count) {
        return false;
      }
      var work := journal;
      if IsFree(work, intent) {
        work := work[intent.txid := NewRow(intent)];
      }
      // The row stored for this root must be this very transaction.
      if intent.txid !in work || IntentOf(intent.txid, work[intent.txid]) != intent {
        return false;
      }
      journal := work;
      return true;
    }

    method FinalizeAnchorBroadcast(txid: Txid, now: nat) returns (ok: bool)
      modifies this`roots, this`journal
      ensures ok == Finalize(old(AnchorsValue()), txid, now).Some?
      ensures AnchorsValue() == OrUnchanged(Finalize(old(AnchorsValue()), txid, now), old(AnchorsValue()))
      ensures ok ==> IsFinalized(old(journal), journal, txid, now)
    {
      if txid !in journal {
        return false;
      }
      var row := journal[txid];
      var k := LastExact(roots, row.root, row.count);
      if k.None? {
        return false;
      }
      var work := roots;
      var mapped := work[k.value].txid;
      if mapped.None? {
        if IsMapped(work, txid) || !OnlyUnmapped(work, k.value) {
          return false;
        }
        work := work[k.value := work[k.value].(txid := Some(txid))];
      } else if mapped.value != txid {
        return false;
      }
      row := row.(status := Recorded);
      if row.recordedAt.None? {
        row := row.(recordedAt := Some(now));
      }
      if row.confirmedAt.Some? {
        row := row.(nextAt := None);
      } else if row.nextAt.None? {
        row := row.(nextAt := Some(now));
      }
      roots := work;
      journal := journal[txid := row];
      return true;
    }

    /** Shared by every recording; the caller commits. */
    method RecordAnchorReferenceInTx(work: seq<RootRow>, root: Digest, txid: Txid, height: Option<nat>)
      returns (result: Option<seq<RootRow>>)
      ensures result.Some? <==> MayBeMapped(work, root, txid, height)
      ensures result.Some? ==> IsMappedNow(work, result.value, root, txid, height)
      ensures result == RecordReference(work, root, txid, height)
    {
      ReferenceMapsNewest(work, root, txid, height);
      var k := LastByHash(work, root);
      if k.None? {
        return None;
      }
      var r := work[k.value];
      match r.txid {
        case None =>
          if IsMapped(work, txid) {
            return None;
          }
          result := Some(work[k.value := r.(txid := Some(txid), height := height)]);
        case Some(existing) =>
          if existing != txid {
            return None;
          }
          if r.height.Some? && height.Some? && r.height != height {
            return None;
          }
          if r.height.None? && height.Some? {
            result := Some(work[k.value := r.(height := height)]);
          } else {
            result := Some(work);
          }
      }
    }

    method ConfirmAnchorBroadcast(txid: Txid, height: nat, now: nat) returns (ok: bool)
      modifies this`roots, this`journal
      ensures ok == Confirm(old(AnchorsValue()), txid, height, now).Some?
      ensures AnchorsValue() == OrUnchanged(Confirm(old(AnchorsValue()), txid, height, now), old(AnchorsValue()))
      ensures ok ==> OnlyRowChanged(old(journal), journal, txid)
      ensures ok ==> IsMappedNow(old(roots), roots, old(journal)[txid].root, txid, Some(height))
      ensures ok && old(journal)[txid].confirmedAt.None? ==> IsSettled(old(journal)[txid], journal[txid], now)
    {
      ConfirmIs(AnchorsValue(), txid, height, now);
      if height == 0 || txid !in journal || journal[txid].status != Recorded {
        return false;
      }
      var row := journal[txid];
      var work := RecordAnchorReferenceInTx(roots, row.root, txid, Some(height));
      if work.None? {
        return false;
      }
      if row.confirmedAt.None? {
        row := row.(attempts := row.attempts + 1, confirmedAt := Some(now), nextAt := None);
      }
      roots := work.value;
      journal := journal[txid := row];
      return true;
    }

    method RecordMerkleAnchor(root: Digest, txid: Txid, height: Option<nat>) returns (ok: bool)
      modifies this`roots
      ensures ok == RecordAnchor(old(AnchorsValue()), root, txid, height).Some?
      ensures AnchorsValue() == OrUnchanged(RecordAnchor(old(AnchorsValue()), root, txid, height), old(AnchorsValue()))
      ensures ok <==> height != Some(0) && NonePrepared(journal) && MayBeMapped(old(roots), root, txid, height)
      ensures ok ==> IsMappedNow(old(roots), roots, root, txid, height)
    {
      RecordAnchorIs(AnchorsValue(), root, txid, height);
      if height == Some(0) || HasPrepared(journal) {
        return false;
      }
      var work := RecordAnchorReferenceInTx(roots, root, txid, height);
      if work.None? {
        return false;
      }
      roots := work.value;
      return true;
    }

    /** `reconciled`: the reference was for the prepared broadcast, which stays prepared. */
    method RecordConfirmedManualAnchorReference(root: Digest, txid: Txid, height: nat, now: nat)
      returns (ok: bool, reconciled: bool)
      modifies this`roots, this`journal
      ensures ok == RecordManual(old(AnchorsValue()), root, txid, height, now).Some?
      ensures AnchorsValue()
        == OrUnchanged(RecordManual(old(AnchorsValue()), root, txid, height, now), old(AnchorsValue()))
      ensures ok <==> MayBeReconciled(old(AnchorsValue()), root, txid, height)
      ensures ok ==> IsReconciled(old(AnchorsValue()), AnchorsValue(), root, txid, height, now)
      ensures ok ==> (reconciled <==> !NonePrepared(old(journal)))
    {
      RecordManualIs(AnchorsValue(), root, txid, height, now);
      reconciled := false;
      if height == 0 {
        return false, false;
      }
      if HasPrepared(journal) {
        if !IsThePrepared(journal, root, txid) {
          return false, false;
        }
        reconciled := true;
      }
      var work := RecordAnchorReferenceInTx(roots, root, txid, Some(height));
      if work.None? {
        return false, false;
      }
      if reconciled {
        var row := journal[txid];
        row := row.(attempts := row.attempts + 1, nextAt := None);
        if row.confirmedAt.None? {
          row := row.(confirmedAt := Some(now));
        }
        journal := journal[txid := row];
      }
      roots := work.value;
      return true, reconciled;
    }

    method RecordAnchorConfirmationRetry(txid: Txid, now: nat, delay: nat) returns (ok: bool)
      modifies this`journal
      ensures ok <==> (0 < delay <= MAX_I64 && txid in old(journal) && IsUnconfirmed(old(journal)[txid]))
      ensures ok ==> IsRetried(old(journal), journal, txid, now + delay)
      ensures !ok ==> journal == old(journal)
      ensures AnchorsValue() == OrUnchanged(Retry(old(AnchorsValue()), txid, now, delay), old(AnchorsValue()))
    {
      if delay == 0 || delay > MAX_I64 || txid !in journal {
        return false;
      }
      var row := journal[txid];
      if row.status != Recorded || row.confirmedAt.Some? {
        return false;
      }
      journal := journal[txid := row.(attempts := row.attempts + 1, nextAt := Some(now + delay))];
      return true;
    }

    /** The due rows in order, of which the first ones are looked at. */
    method DueAnchorConfirmations(now: nat) returns (batch: seq<Txid>, ghost due: seq<Txid>)
      ensures AreFirstDue(journal, now, batch)
      ensures IsDueList(journal, now, due) && batch == Batch(due)
    {
      var rows: seq<Txid> := [];
      var left := journal.Keys;
      assert IsInOrder(journal, rows);
      hide ComesFirst, IsInOrder;
      while left != {}
        invariant left <= journal.Keys && IsInOrder(journal, rows)
        invariant forall t :: t in rows <==> t in journal && t !in left && IsDue(journal[t], now)
        decreases |left|
      {
        var t :| t in left;
        if IsDue(journal[t], now) {
          PlacedInOrder(journal, rows, t);
          rows := Placed(journal, rows, t);
        }
        left := left - {t};
      }
      BatchIsFirst(journal, now, rows);
      return Batch(rows), rows;
    }

    /** Confirms a row at this height, or puts it off. */
    method AnswerConfirmation(t: Txid, height: Option<nat>, attempts: nat, now: nat) returns (ok: bool)
      requires t in journal && journal[t].attempts == attempts
      modifies this`roots, this`journal
      ensures ok == Answered(old(AnchorsValue()), t, height, now).Some?
      ensures AnchorsValue() == OrUnchanged(Answered(old(AnchorsValue()), t, height, now), old(AnchorsValue()))
    {
      if height.Some? {
        ok := ConfirmAnchorBroadcast(t, height.value, now);
      } else {
        ok := RecordAnchorConfirmationRetry(t, now, RetrySeconds(attempts));
      }
    }

    /** One round of confirmations; the first error ends it. */
    method ReconcileDueAnchorConfirmations(node: Node, now: nat) returns (ok: bool, ghost due: seq<Txid>)
      modifies this`roots, this`journal
      ensures IsDueList(old(journal), now, due)
      ensures AnchorsValue() == AfterRound(old(AnchorsValue()), Batch(due), node, now)
      ensures ok <==> Handled(old(AnchorsValue()), Batch(due), node, now) == |Batch(due)|
    {
      var batch;
      batch, due := DueAnchorConfirmations(now);
      var queried := journal;
      ghost var before := AnchorsValue();
      BatchIsOpen(before, now, due);
      SoFarBegins(before, batch, node, now);
      assert AreAsQueried(queried, journal, batch, 0);
      hide Answered, IsDueList, Batch, AfterRound, Handled, IsSoFar;
      for i := 0 to |batch|
        invariant AreAsQueried(queried, journal, batch, i)
        invariant IsSoFar(before, AnchorsValue(), batch, node, now, i)
      {
        var t := batch[i];
        ghost var a := AnchorsValue();
        var height := HeightOf(node(t));
        var answered := AnswerConfirmation(t, height, queried[t].attempts, now);
        if !answered {
          SoFarStops(before, a, batch, node, now, i);
          return false, due;
        }
        SoFarGoesOn(before, a, batch, node, now, i);
        AsQueriedNext(queried, a, batch, height, now, i);
      }
      SoFarStops(before, AnchorsValue(), batch, node, now, |batch|);
      ok := true;
    }

    // -------------------------------------------------------------------------------
    // The payment ledger
    // -------------------------------------------------------------------------------

    /** SUM over the block-sourced payments, in whatever order the rows come. */
    method SumBlockPayments(ps: map<PaymentTx, Payment>) returns (total: nat)
      ensures total == BlockTotal(ps)
    {
      var left := BlockValues(ps);
      total := 0;
      while left != map[]
        invariant total + SumValues(left) == BlockTotal(ps)
        decreases |left|
      {
        var t :| t in left;
        SumWithout(left, t);
        total := total + left[t];
        left := left - {t};
      }
    }

    /** Inserts the lifecycle leaf into a working copy of the log; None when it cannot be made. */
    method EnsureInvoiceLifecycleLeaf(work: Log, inv: Invoice) returns (result: Option<Log>, created: bool)
      ensures result == EnsureLeaf(H, work, miners, inv)
      ensures result.Some? ==> (created <==> |result.value.leaves| > |work.leaves|)
      ensures IsEnsured(H, work, miners, inv, result)
    {
      EnsuredIs(H, work, miners, inv);
      hide IsEnsured;
      created := false;
      var leaf := LifecycleOf(miners, inv);
      if leaf.NoLeaf? {
        return Some(work), false;
      }
      if leaf.NoAssignment? || !Hashable(leaf.event) {
        return None, false;
      }
      var row := LifecycleRow(H, inv, leaf);
      var log': Log;
      log', created := InsertLeafInTx(work, row);
      assert created ==> log'.leaves[|log'.leaves| - 1] == row;
      var stored := log'.leaves[IndexOf(log'.leaves, row.hash).value];
      if stored != row {
        return None, false;
      }
      var _, rows := CurrentRootInTx(log');
      result := Some(log'.(roots := rows));
    }

    /**
     Records a block-confirmed payment once, moves the invoice on, and inserts the lifecycle
     leaf of an invoice that this pays.
     */
    method RecordConfirmedPayment(id: Id, value: nat, tx: PaymentTx, height: nat)
      returns (ok: bool, newlyRecorded: bool, transitionedToPaid: bool, leafCreated: bool)
      modifies this`leaves, this`roots, this`invoices, this`payments
      ensures ok == RecordPayment(H, old(LedgerValue()), id, value, tx, height).Some?
      ensures ok ==> Some(LedgerValue()) == RecordPayment(H, old(LedgerValue()), id, value, tx, height)
      ensures !ok ==> LedgerValue() == old(LedgerValue())
      ensures ok ==>
        payments == old(payments)[id := PaymentsOf(old(LedgerValue()), id)[tx := Payment(value, height, Block)]]
      ensures ok ==> newlyRecorded == (tx !in PaymentsOf(old(LedgerValue()), id))
      ensures ok ==> transitionedToPaid == (old(invoices)[id].status != Paid && invoices[id].status == Paid)
      ensures ok ==> leafCreated == (|leaves| > |old(leaves)|)
    {
      ok, newlyRecorded, transitionedToPaid, leafCreated := false, false, false, false;
      if value == 0 || tx == "" || value > MAX_I64 || id !in invoices {
        return;
      }
      var inv := invoices[id];
      var ps := if id in payments then payments[id] else map[];
      if tx in ps {
        if ps[tx].value != value || (ps[tx].source != Block && ps[tx].source != Mempool) {
          return;
        }
        ps := ps[tx := ps[tx].(height := height, source := Block)];
        if inv.status == Paid && inv.paidTx == Some(tx) {
          inv := inv.(paidHeight := Some(height));
        }
      } else {
        if inv.status == Expired {
          return;
        }
        newlyRecorded := true;
        ps := ps[tx := Payment(value, height, Block)];
      }
      ghost var paid := LedgerValue().(payments := payments[id := ps]);
      var work: Log;
      ok, inv, work, transitionedToPaid, leafCreated := ApplyConfirmedTotal(paid, id, inv, ps, tx, height);
      if !ok {
        return;
      }
      leaves, roots := work.leaves, work.roots;
      payments := payments[id := ps];
      invoices := invoices[id := inv];
    }

    /** The state of an invoice after its recorded payments; the caller commits. */
    method ApplyConfirmedTotal(
      ghost l: Ledger, id: Id, current: Invoice, ps: map<PaymentTx, Payment>, tx: PaymentTx, height: nat)
      returns (ok: bool, inv: Invoice, work: Log, transitionedToPaid: bool, leafCreated: bool)
      requires l.log == LogValue() && l.miners == miners && PaymentsOf(l, id) == ps
      ensures ok == ApplyTotal(H, l, id, current, tx, height).Some?
      ensures ok ==>
        ApplyTotal(H, l, id, current, tx, height) == Some(l.(invoices := l.invoices[id := inv], log := work))
      ensures ok ==> transitionedToPaid == (current.status != Paid && inv.status == Paid)
      ensures ok ==> leafCreated == (|work.leaves| > |leaves|)
    {
      ok, inv, work, transitionedToPaid, leafCreated := false, current, LogValue(), false, false;
      var total := SumBlockPayments(ps);
      if total > MAX_I64 || inv.status == Expired {
        return;
      }
      if inv.status == Paid || total >= inv.amount {
        if total < inv.amount {
          return;
        }
        if inv.status != Paid {
          transitionedToPaid := true;
          inv := inv.(status := Paid, paidTx := Some(tx), paidHeight := Some(height));
        }
        inv := inv.(received := total);
        var ensured: Option<Log>;
        ensured, leafCreated := EnsureInvoiceLifecycleLeaf(work, inv);
        if ensured.None? {
          return;
        }
        work := ensured.value;
      } else {
        inv := inv.(received := total, status := Partial, paidTx := None, paidHeight := None);
      }
      ok := true;
    }

    /** The pending and partial invoices, in the order of their rows. */
    method GetActiveInvoices() returns (active: seq<Id>)
      ensures forall id :: id in active <==>
        id in invoices && (invoices[id].status == Pending || invoices[id].status == Partial)
      ensures forall i, j :: 0 <= i < j < |active| ==> active[i] != active[j]
    {
      active := [];
      var left := invoices.Keys;
      while left != {}
        invariant left <= invoices.Keys
        invariant forall id :: id in active <==> id in invoices && id !in left && IsActive(invoices[id])
        invariant forall i, j :: 0 <= i < j < |active| ==> active[i] != active[j]
        decreases |left|
      {
        var id :| id in left;
        if IsActive(invoices[id]) {
          active := active + [id];
        }
        left := left - {id};
      }
    }

    method SetLastScannedHeight(height: nat)
      modifies this`lastScanned
      ensures lastScanned == height
    {
      lastScanned := height;
    }

    /** Returns how many invoices expired. */
    method ExpireOldInvoices(now: nat) returns (changed: nat)
      modifies this`invoices
      ensures LedgerValue() == Payments.Expire(old(LedgerValue()), now)
      ensures changed == |set id | id in old(invoices) && IsExpiring(old(invoices)[id], now)|
      ensures invoices.Keys == old(invoices).Keys && forall id :: id in invoices ==>
        var inv := old(invoices)[id];
        invoices[id] == if inv.status == Pending && inv.expiresAt.Some? && inv.expiresAt.value < now
          then inv.(status := Expired) else inv
    {
      changed := 0;
      var before := invoices;
      var left := before.Keys;
      hide Payments.Expire, IsExpiring;
      ghost var expired: set<Id> := {};
      while left != {}
        modifies this`invoices
        invariant left <= before.Keys == invoices.Keys
        invariant forall id :: id in expired <==> id in before && id !in left && IsExpiring(before[id], now)
        invariant changed == |expired|
        invariant forall id | id in before :: invoices[id] == if id in expired then before[id].(status := Expired) else before[id]
        decreases |left|
      {
        var id :| id in left;
        if IsExpiring(invoices[id], now) {
          invoices := invoices[id := invoices[id].(status := Expired)];
          changed := changed + 1;
          expired := expired + {id};
        }
        left := left - {id};
      }
      assert expired == set id | id in before && IsExpiring(before[id], now);
      ExpiredIsExpire(old(LedgerValue()), now, invoices);
    }
  }

  lemma ExpiredIsExpire(l: Ledger, now: nat, invoices: map<Id, Invoice>)
    requires invoices.Keys == l.invoices.Keys
    requires forall id | id in invoices ::
      invoices[id] == if IsExpiring(l.invoices[id], now) then l.invoices[id].(status := Expired) else l.invoices[id]
    ensures l.(invoices := invoices) == Payments.Expire(l, now)
  {}
}
