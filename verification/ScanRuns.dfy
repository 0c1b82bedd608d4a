/**
 src/scanner.rs `scan_loop`: one scan after the other, with the invoices that expire in between.
 Which heights the scans take, and which invoices they look for.
 */
module ScanRuns {
  import opened Results
  import opened Merkle
  import opened Payments
  import opened Database
  import opened Wallet
  import opened Scanner
  import PaymentRuns

  // ---------------------------------------------------------------------------------
  // The loop
  // ---------------------------------------------------------------------------------

  /** What the node answers during one turn of the loop, and when the turn ends. */
  datatype Answer = Answer(chain: Option<nat>, blocks: Node, now: nat)

  /** One scan: the stored cursor before and after it, every value it took on, and whether an invoice was active. */
  datatype Scan = Scan(before: nat, after: nat, cursors: seq<nat>, active: bool)

  /** A scan for active invoices takes the heights behind its cursor one by one; any other one leaps at most once. */
  ghost predicate IsScanFrom(scanFrom: nat, s: Scan) {
    var start := if s.before == 0 then scanFrom else s.before + 1;
    && s.before <= s.after
    && s.after == (if s.cursors == [] then s.before else s.cursors[|s.cursors| - 1])
    && (s.active ==> forall i :: 0 <= i < |s.cursors| ==> s.cursors[i] == start + i)
    && (!s.active ==> |s.cursors| <= 1)
  }

  function CursorAfter(first: nat, history: seq<Scan>): nat {
    if history == [] then first else history[|history| - 1].after
  }

  ghost predicate IsHistory(scanFrom: nat, first: nat, history: seq<Scan>) {
    forall k :: 0 <= k < |history| ==>
      IsScanFrom(scanFrom, history[k]) && history[k].before == CursorAfter(first, history[..k])
  }

  lemma HistoryGrows(scanFrom: nat, first: nat, history: seq<Scan>, s: Scan)
    requires IsHistory(scanFrom, first, history)
    requires IsScanFrom(scanFrom, s) && s.before == CursorAfter(first, history)
    ensures IsHistory(scanFrom, first, history + [s])
  {
    var longer := history + [s];
    forall k | 0 <= k < |longer|
      ensures IsScanFrom(scanFrom, longer[k]) && longer[k].before == CursorAfter(first, longer[..k])
    {
      assert longer[..k] == if k < |history| then history[..k] else history;
    }
  }

  /** The scans of the loop, each followed by the expiry of invoices, whether it failed or not. */
  method ScanLoop(db: Db, wallet: AnchorWallet?, scanFrom: nat, addressOf: Id -> Address, answers: seq<Answer>)
    returns (ghost history: seq<Scan>)
    modifies db, wallet
    ensures |history| == |answers| && IsHistory(scanFrom, old(db.lastScanned), history)
    ensures db.lastScanned == CursorAfter(old(db.lastScanned), history)
  {
    history := [];
    assert IsHistory(scanFrom, db.lastScanned, history);
    hide IsHistory, IsScanFrom;
    for k := 0 to |answers|
      invariant |history| == k && IsHistory(scanFrom, old(db.lastScanned), history)
      invariant db.lastScanned == CursorAfter(old(db.lastScanned), history)
    {
      ghost var s := ScanAndExpire(db, wallet, scanFrom, addressOf, answers[k]);
      HistoryGrows(scanFrom, old(db.lastScanned), history, s);
      history := history + [s];
    }
  }

  method ScanAndExpire(db: Db, wallet: AnchorWallet?, scanFrom: nat, addressOf: Id -> Address, answer: Answer)
    returns (ghost s: Scan)
    modifies db, wallet
    ensures IsScanFrom(scanFrom, s) && s.before == old(db.lastScanned) && s.after == db.lastScanned
    ensures s.active <==> HasActive(old(db.invoices))
  {
    ghost var before, active := db.lastScanned, HasActive(db.invoices);
    var ok;
    ghost var next, w, recs, cursors;
    hide RecordAll, ScansTo, FedRange, HasActive;
    ok, next, w, recs, cursors := ScanOnce(db, wallet, answer.chain, scanFrom, addressOf, answer.blocks);
    s := Scan(before, db.lastScanned, cursors, active);
    var _ := db.ExpireOldInvoices(answer.now);
  }

  // ---------------------------------------------------------------------------------
  // No height is left out
  // ---------------------------------------------------------------------------------

  /** Every value that the stored cursor took on, in order. */
  function AllCursors(history: seq<Scan>): seq<nat> {
    if history == [] then [] else AllCursors(history[..|history| - 1]) + history[|history| - 1].cursors
  }

  /** Every height is the one after the last; but a stored cursor of zero counts as none, so that block zero comes again. */
  ghost predicate AreConsecutive(heights: seq<nat>) {
    forall i :: 0 < i < |heights| ==> heights[i] == heights[i - 1] + 1 || heights[i] == heights[i - 1] == 0
  }

  /** From the one behind the stored cursor, or the configured one, to this one. */
  ghost predicate LeadsTo(scanFrom: nat, first: nat, heights: seq<nat>, last: nat) {
    && AreConsecutive(heights)
    && (heights == [] ==> last == first)
    && (heights != [] ==> heights[0] == (if first == 0 then scanFrom else first + 1) && last == heights[|heights| - 1])
  }

  ghost predicate AllActive(history: seq<Scan>) {
    forall k :: 0 <= k < |history| ==> history[k].active
  }

  lemma HistoryBefore(scanFrom: nat, first: nat, history: seq<Scan>)
    requires history != [] && IsHistory(scanFrom, first, history)
    ensures IsHistory(scanFrom, first, history[..|history| - 1])
    ensures IsScanFrom(scanFrom, history[|history| - 1])
    ensures history[|history| - 1].before == CursorAfter(first, history[..|history| - 1])
  {
    var front := history[..|history| - 1];
    forall k | 0 <= k < |front|
      ensures IsScanFrom(scanFrom, front[k]) && front[k].before == CursorAfter(first, front[..k])
    {
      assert front[..k] == history[..k];
    }
  }

  /**
   While invoices are active, the scans take every height in turn: from the one behind the stored
   cursor, or the configured one, up to the cursor that they leave.
   */
  lemma {:induction false} ActiveScansAreConsecutive(scanFrom: nat, first: nat, history: seq<Scan>)
    requires IsHistory(scanFrom, first, history) && AllActive(history)
    ensures LeadsTo(scanFrom, first, AllCursors(history), CursorAfter(first, history))
  {
    if history != [] {
      var front, s := history[..|history| - 1], history[|history| - 1];
      HistoryBefore(scanFrom, first, history);
      ActiveScansAreConsecutive(scanFrom, first, front);
      assert s.active;
      hide IsHistory, AllActive, LeadsTo, IsScanFrom;
      OneScanMore(scanFrom, first, AllCursors(front), s);
    }
  }

  lemma {:induction false} Rising(heights: seq<nat>)
    requires heights != [] && AreConsecutive(heights)
    ensures heights[0] <= heights[|heights| - 1]
  {
    if |heights| > 1 {
      Rising(heights[..|heights| - 1]);
    }
  }

  lemma OneScanMore(scanFrom: nat, first: nat, heights: seq<nat>, s: Scan)
    requires IsScanFrom(scanFrom, s) && s.active && LeadsTo(scanFrom, first, heights, s.before)
    ensures LeadsTo(scanFrom, first, heights + s.cursors, s.after)
  {
    var all := heights + s.cursors;
    if heights != [] {
      Rising(heights);
    }
    forall i | 0 < i < |all| ensures all[i] == all[i - 1] + 1 || all[i] == all[i - 1] == 0 {
      if i > |heights| {
        assert all[i] == s.cursors[i - |heights|] && all[i - 1] == s.cursors[i - 1 - |heights|];
      }
    }
  }

  /** So none between the first and the last is left out. */
  lemma {:induction false} NoneBetweenIsLeftOut(heights: seq<nat>, h: nat)
    requires heights != [] && AreConsecutive(heights) && heights[0] <= h <= heights[|heights| - 1]
    ensures h in heights
  {
    var last := |heights| - 1;
    if h != heights[last] {
      assert last > 0;
      NoneBetweenIsLeftOut(heights[..last], h);
    }
  }

  /** The height was scanned for active invoices, or leapt over by a scan that found none. */
  ghost predicate IsCovered(history: seq<Scan>, h: nat) {
    exists k :: 0 <= k < |history| &&
      if history[k].active then h in history[k].cursors else history[k].before < h <= history[k].after
  }

  lemma CoveredBefore(history: seq<Scan>, h: nat)
    requires history != [] && IsCovered(history[..|history| - 1], h)
    ensures IsCovered(history, h)
  {
    var front := history[..|history| - 1];
    var k :| 0 <= k < |front| && if front[k].active then h in front[k].cursors else front[k].before < h <= front[k].after;
    assert history[k] == front[k];
  }

  lemma CoveredByLast(scanFrom: nat, history: seq<Scan>, h: nat)
    requires history != [] && IsScanFrom(scanFrom, history[|history| - 1])
    requires var s := history[|history| - 1]; s.before < h <= s.after && (s.before == 0 ==> scanFrom <= h)
    ensures IsCovered(history, h)
  {
    var s := history[|history| - 1];
    if s.active {
      var start := if s.before == 0 then scanFrom else s.before + 1;
      assert s.cursors[h - start] == h;
    }
  }

  lemma {:induction false} CursorNeverFalls(scanFrom: nat, first: nat, history: seq<Scan>)
    requires IsHistory(scanFrom, first, history)
    ensures first <= CursorAfter(first, history)
  {
    if history != [] {
      HistoryBefore(scanFrom, first, history);
      CursorNeverFalls(scanFrom, first, history[..|history| - 1]);
    }
  }

  /**
   Over any sequence of scans, failed ones too: every height behind the first cursor, up to the last
   one, was scanned for active invoices, or was passed while there were none.
   */
  lemma {:induction false} NoHeightIsLeftOut(scanFrom: nat, first: nat, history: seq<Scan>, h: nat)
    requires IsHistory(scanFrom, first, history)
    requires first < h <= CursorAfter(first, history) && (first == 0 ==> scanFrom <= h)
    ensures IsCovered(history, h)
  {
    var s := history[|history| - 1];
    HistoryBefore(scanFrom, first, history);
    CursorNeverFalls(scanFrom, first, history[..|history| - 1]);
    hide IsHistory, IsCovered, IsScanFrom;
    if h <= s.before {
      NoHeightIsLeftOut(scanFrom, first, history[..|history| - 1], h);
      CoveredBefore(history, h);
    } else {
      CoveredByLast(scanFrom, history, h);
    }
  }

  // ---------------------------------------------------------------------------------
  // No invoice is forgotten
  // ---------------------------------------------------------------------------------

  /**
   In every reachable ledger a scan looks for an invoice exactly when it is neither paid nor
   expired, at its own address; so for every one that has received some, but not enough.
   */
  lemma WatchedIffUnsettled(H: Hash, ops: seq<PaymentRuns.Operation>, w: Watch, addressOf: Id -> Address, id: Id)
    requires IsWatch(w, PaymentRuns.Run(H, ops).invoices, addressOf) && id in PaymentRuns.Run(H, ops).invoices
    ensures var inv := PaymentRuns.Run(H, ops).invoices[id];
      && (id in w.ids <==> inv.status != Paid && inv.status != Expired)
      && (0 < inv.received < inv.amount ==> id in w.ids)
    ensures forall i :: 0 <= i < |w.ids| && w.ids[i] == id ==> w.addresses[i] == addressOf(id)
  {
    PaymentRuns.RunInv(H, ops);
    var l := PaymentRuns.Run(H, ops);
    assert InvoiceInv(H, l.log, l.miners, l.invoices[id], PaymentsOf(l, id));
    hide PaymentRuns.Run, LedgerInv, LeafPresent, PaymentsInv;
    if l.invoices[id].status == Pending || l.invoices[id].status == Expired {
      BlockTotalOfNone();
    }
  }
}
