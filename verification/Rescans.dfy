/**
 A scan that stopped and was resumed, against one complete scan.  The resumed scan looks only for
 the invoices that are still active, so that the two need not leave the same ledger.
 */
module Rescans {
  import opened Results
  import opened Sums
  import opened Merkle
  import opened LeafLog
  import opened Payments
  import PaymentRuns
  import opened Scanner

  // ---------------------------------------------------------------------------------
  // What a list of calls does to the ledger
  // ---------------------------------------------------------------------------------

  /** The same invoice, further along. */
  ghost predicate SameInvoice(inv: Invoice, inv': Invoice) {
    inv' == inv.(received := inv'.received, status := inv'.status, paidTx := inv'.paidTx, paidHeight := inv'.paidHeight)
  }

  ghost predicate IsAdvanced(l: Ledger, l': Ledger, id: Id)
    requires id in l.invoices
  {
    && id in l'.invoices && SameInvoice(l.invoices[id], l'.invoices[id])
    && PaymentRuns.Develops(l.invoices[id], l'.invoices[id])
    && PaymentRuns.PaymentsKept(PaymentsOf(l, id), PaymentsOf(l', id))
  }

  /** Without payments an invoice is as it was. */
  ghost predicate IsUntouched(l: Ledger, l': Ledger, id: Id)
    requires id in l.invoices
  {
    id in l'.invoices && (PaymentsOf(l', id) == map[] ==> l'.invoices[id] == l.invoices[id])
  }

  ghost predicate AllUntouched(l: Ledger, l': Ledger) {
    forall id :: id in l.invoices ==> IsUntouched(l, l', id)
  }

  /** The invoices are the same ones, each further along, and no payment is lost. */
  ghost predicate AllAdvanced(l: Ledger, l': Ledger) {
    && l'.invoices.Keys == l.invoices.Keys && l'.miners == l.miners
    && forall id :: id in l.invoices ==> IsAdvanced(l, l', id)
  }

  lemma RecordedIsSame(H: Hash, l: Ledger, r: Rec)
    requires RecordPayment(H, l, r.id, r.value, r.tx, r.height).Some?
    ensures var l' := RecordPayment(H, l, r.id, r.value, r.tx, r.height).value;
      SameInvoice(l.invoices[r.id], l'.invoices[r.id]) && r.tx in PaymentsOf(l', r.id)
  {}

  lemma RecordAdvances(H: Hash, l: Ledger, r: Rec, id: Id)
    requires LedgerInv(H, l) && RecordPayment(H, l, r.id, r.value, r.tx, r.height).Some? && id in l.invoices
    ensures IsAdvanced(l, RecordPayment(H, l, r.id, r.value, r.tx, r.height).value, id)
  {
    PaymentRuns.RecordPaymentDevelops(H, l, r.id, r.value, r.tx, r.height, id);
    RecordedIsSame(H, l, r);
    hide ApplyTotal, LedgerInv, PaymentRuns.Develops, PaymentRuns.PaymentsKept;
  }

  lemma AdvancedTransitive(a: Ledger, b: Ledger, c: Ledger)
    requires AllAdvanced(a, b) && AllAdvanced(b, c)
    ensures AllAdvanced(a, c)
  {
    forall id | id in a.invoices ensures IsAdvanced(a, c, id) {
      assert IsAdvanced(a, b, id) && IsAdvanced(b, c, id);
    }
  }

  lemma {:induction false} RecordAllAdvances(H: Hash, l: Ledger, recs: seq<Rec>)
    requires LedgerInv(H, l) && RecordAll(H, l, recs).Some?
    ensures AllAdvanced(l, RecordAll(H, l, recs).value)
  {
    if recs != [] {
      var front, last := recs[..|recs| - 1], recs[|recs| - 1];
      RecordAllAdvances(H, l, front);
      RecordAllKeeps(H, l, front);
      var m := RecordAll(H, l, front).value;
      forall id | id in m.invoices ensures IsAdvanced(m, RecordAll(H, l, recs).value, id) {
        RecordAdvances(H, m, last, id);
      }
      AdvancedTransitive(l, m, RecordAll(H, l, recs).value);
    }
  }

  lemma RecordUntouched(H: Hash, l: Ledger, r: Rec, id: Id)
    requires RecordPayment(H, l, r.id, r.value, r.tx, r.height).Some? && id in l.invoices
    ensures IsUntouched(l, RecordPayment(H, l, r.id, r.value, r.tx, r.height).value, id)
  {
    RecordedIsSame(H, l, r);
    hide ApplyTotal;
  }

  lemma {:induction false} RecordAllUntouched(H: Hash, l: Ledger, recs: seq<Rec>)
    requires LedgerInv(H, l) && RecordAll(H, l, recs).Some?
    ensures AllUntouched(l, RecordAll(H, l, recs).value)
  {
    if recs != [] {
      var front, last := recs[..|recs| - 1], recs[|recs| - 1];
      RecordAllUntouched(H, l, front);
      RecordAllKeeps(H, l, front);
      RecordAllAdvances(H, l, front);
      var m, l' := RecordAll(H, l, front).value, RecordAll(H, l, recs).value;
      hide LedgerInv, RecordPayment;
      forall id | id in l.invoices ensures IsUntouched(l, l', id) {
        assert IsUntouched(l, m, id) && IsAdvanced(l, m, id);
        RecordAdvances(H, m, last, id);
        RecordUntouched(H, m, last, id);
      }
    }
  }

  /** The payment of this call is in the ledger, with its value. */
  ghost predicate HasPayment(l: Ledger, r: Rec) {
    r.id in l.invoices && r.tx in PaymentsOf(l, r.id) && PaymentsOf(l, r.id)[r.tx].value == r.value
  }

  ghost predicate IsPaidBy(recs: seq<Rec>, id: Id, t: PaymentTx) {
    exists r :: r in recs && r.id == id && r.tx == t
  }

  /** The payments are those from before and those of the calls. */
  ghost predicate PaymentsAreOf(l: Ledger, recs: seq<Rec>, l': Ledger) {
    && (forall r :: r in recs ==> HasPayment(l', r))
    && forall id, t :: t in PaymentsOf(l', id) ==> t in PaymentsOf(l, id) || IsPaidBy(recs, id, t)
  }

  lemma PaymentsOfOneMore(H: Hash, l: Ledger, recs: seq<Rec>, m: Ledger, last: Rec)
    requires LedgerInv(H, m) && PaymentsAreOf(l, recs, m)
    requires RecordPayment(H, m, last.id, last.value, last.tx, last.height).Some?
    ensures PaymentsAreOf(l, recs + [last], RecordPayment(H, m, last.id, last.value, last.tx, last.height).value)
  {
    var l' := RecordPayment(H, m, last.id, last.value, last.tx, last.height).value;
    forall r | r in recs + [last] ensures HasPayment(l', r) {
      if r in recs {
        RecordAdvances(H, m, last, r.id);
      }
    }
    hide RecordPayment, LedgerInv;
    forall id, t | t in PaymentsOf(l', id) ensures t in PaymentsOf(l, id) || IsPaidBy(recs + [last], id, t) {
      if id == last.id && t == last.tx {
        assert last in recs + [last];
      } else if t !in PaymentsOf(l, id) {
        assert t in PaymentsOf(m, id);
        var r :| r in recs && r.id == id && r.tx == t;
        assert r in recs + [last];
      }
    }
  }

  lemma {:induction false} RecordAllPayments(H: Hash, l: Ledger, recs: seq<Rec>)
    requires LedgerInv(H, l) && RecordAll(H, l, recs).Some?
    ensures PaymentsAreOf(l, recs, RecordAll(H, l, recs).value)
  {
    if recs != [] {
      var front, last := recs[..|recs| - 1], recs[|recs| - 1];
      assert recs == front + [last];
      RecordAllPayments(H, l, front);
      RecordAllKeeps(H, l, front);
      hide RecordPayment, LedgerInv, PaymentsAreOf;
      PaymentsOfOneMore(H, l, front, RecordAll(H, l, front).value, last);
    }
  }

  /** The lifecycle leaf of a paid invoice. */
  ghost predicate IsPaidLeaf(H: Hash, l: Ledger, id: Id, row: LeafRow) {
    && id in l.invoices && l.invoices[id].status == Paid
    && var leaf := LifecycleOf(l.miners, l.invoices[id]);
    leaf.Leaf? && row == LifecycleRow(H, l.invoices[id], leaf)
  }

  ghost predicate IsOfPaid(H: Hash, l: Ledger, row: LeafRow) {
    exists id :: IsPaidLeaf(H, l, id, row)
  }

  lemma EnsuredLeaves(H: Hash, log: Log, miners: seq<Assignment>, inv: Invoice, row: LeafRow)
    requires EnsureLeaf(H, log, miners, inv).Some? && row in EnsureLeaf(H, log, miners, inv).value.leaves
    ensures var leaf := LifecycleOf(miners, inv);
      row in log.leaves || (leaf.Leaf? && row == LifecycleRow(H, inv, leaf))
  {}

  /** A call adds at most the leaf of its own invoice, and only if that is paid now. */
  lemma RecordedLeaves(H: Hash, l: Ledger, r: Rec, row: LeafRow)
    requires RecordPayment(H, l, r.id, r.value, r.tx, r.height).Some?
    ensures var l' := RecordPayment(H, l, r.id, r.value, r.tx, r.height).value;
      row in l'.log.leaves ==> row in l.log.leaves || IsPaidLeaf(H, l', r.id, row)
  {
    hide EnsureLeaf, LifecycleRow;
    var l' := RecordPayment(H, l, r.id, r.value, r.tx, r.height).value;
    if row in l'.log.leaves && row !in l.log.leaves {
      assert l'.invoices[r.id].status == Paid;
      EnsuredLeaves(H, l.log, l.miners, l'.invoices[r.id], row);
    }
  }

  /** The leaf of a paid invoice does not depend on how it was paid. */
  lemma PaidLeafOfOther(H: Hash, l: Ledger, l': Ledger, id: Id, row: LeafRow)
    requires l'.miners == l.miners && IsPaidLeaf(H, l, id, row)
    requires id in l'.invoices && l'.invoices[id].status == Paid
    requires PaymentRuns.SameTerms(l.invoices[id], l'.invoices[id])
    ensures IsPaidLeaf(H, l', id, row)
  {}

  lemma PaidLeafStays(H: Hash, l: Ledger, l': Ledger, row: LeafRow)
    requires AllAdvanced(l, l') && IsOfPaid(H, l, row)
    ensures IsOfPaid(H, l', row)
  {
    var id :| IsPaidLeaf(H, l, id, row);
    assert IsAdvanced(l, l', id);
    PaidLeafOfOther(H, l, l', id, row);
  }

  lemma {:induction false} RecordAllLeaves(H: Hash, l: Ledger, recs: seq<Rec>, row: LeafRow)
    requires LedgerInv(H, l) && RecordAll(H, l, recs).Some?
    ensures var l' := RecordAll(H, l, recs).value;
      row in l'.log.leaves ==> row in l.log.leaves || IsOfPaid(H, l', row)
  {
    if recs != [] {
      var front, last := recs[..|recs| - 1], recs[|recs| - 1];
      var m, l' := RecordAll(H, l, front).value, RecordAll(H, l, recs).value;
      RecordAllLeaves(H, l, front, row);
      RecordedLeaves(H, m, last, row);
      RecordAllKeeps(H, l, front);
      RecordAllAdvances(H, m, [last]);
      assert RecordAll(H, m, [last]) == Some(l') by {
        assert [last][..0] == [];
      }
      hide RecordAll, RecordPayment, LedgerInv, AllAdvanced, IsPaidLeaf;
      if row in l'.log.leaves && IsOfPaid(H, m, row) {
        PaidLeafStays(H, m, l', row);
      }
    }
  }

  lemma PaidHasItsLeaf(H: Hash, l: Ledger, row: LeafRow)
    requires LedgerInv(H, l) && IsOfPaid(H, l, row)
    ensures row in l.log.leaves
  {
    var id :| IsPaidLeaf(H, l, id, row);
    assert InvoiceInv(H, l.log, l.miners, l.invoices[id], PaymentsOf(l, id));
  }

  lemma RecordKeepsLeaves(H: Hash, l: Ledger, r: Rec, row: LeafRow)
    requires LedgerInv(H, l) && RecordPayment(H, l, r.id, r.value, r.tx, r.height).Some? && row in l.log.leaves
    ensures row in RecordPayment(H, l, r.id, r.value, r.tx, r.height).value.log.leaves
  {
    assert InvoiceInv(H, l.log, l.miners, l.invoices[r.id], PaymentsOf(l, r.id));
    RecordPaymentInvoice(H, l, r.id, r.value, r.tx, r.height);
  }

  lemma {:induction false} RecordAllKeepsLeaves(H: Hash, l: Ledger, recs: seq<Rec>, row: LeafRow)
    requires LedgerInv(H, l) && RecordAll(H, l, recs).Some? && row in l.log.leaves
    ensures row in RecordAll(H, l, recs).value.log.leaves
  {
    if recs != [] {
      var front, last := recs[..|recs| - 1], recs[|recs| - 1];
      RecordAllKeepsLeaves(H, l, front, row);
      RecordAllKeeps(H, l, front);
      hide RecordPayment, LedgerInv;
      RecordKeepsLeaves(H, RecordAll(H, l, front).value, last, row);
    }
  }

  /** The leaves are those from before, and beyond them those of invoices paid now. */
  ghost predicate LeavesAreOf(H: Hash, l: Ledger, l': Ledger) {
    && (forall row :: row in l.log.leaves ==> row in l'.log.leaves)
    && forall row :: row in l'.log.leaves ==> row in l.log.leaves || IsOfPaid(H, l', row)
  }

  lemma LeavesOfRecordAll(H: Hash, l: Ledger, recs: seq<Rec>)
    requires LedgerInv(H, l) && RecordAll(H, l, recs).Some?
    ensures LeavesAreOf(H, l, RecordAll(H, l, recs).value)
  {
    hide LedgerInv, RecordAll, IsOfPaid;
    forall row | row in l.log.leaves ensures row in RecordAll(H, l, recs).value.log.leaves {
      RecordAllKeepsLeaves(H, l, recs, row);
    }
    forall row | row in RecordAll(H, l, recs).value.log.leaves
      ensures row in l.log.leaves || IsOfPaid(H, RecordAll(H, l, recs).value, row)
    {
      RecordAllLeaves(H, l, recs, row);
    }
  }

  lemma LeavesTransitive(H: Hash, a: Ledger, b: Ledger, c: Ledger)
    requires LeavesAreOf(H, a, b) && LeavesAreOf(H, b, c) && AllAdvanced(b, c)
    ensures LeavesAreOf(H, a, c)
  {
    hide IsOfPaid, AllAdvanced;
    forall row | row in c.log.leaves ensures row in a.log.leaves || IsOfPaid(H, c, row) {
      if row in b.log.leaves && row !in a.log.leaves {
        PaidLeafStays(H, b, c, row);
      }
    }
  }

  // ---------------------------------------------------------------------------------
  // Expiry
  // ---------------------------------------------------------------------------------

  /** An invoice after `expire_old_invoices`. */
  function AfterExpiry(inv: Invoice, now: nat): Invoice {
    if IsExpiring(inv, now) then inv.(status := Expired) else inv
  }

  lemma ExpireAdvances(H: Hash, l: Ledger, now: nat)
    requires LedgerInv(H, l)
    ensures LedgerInv(H, Expire(l, now)) && AllAdvanced(l, Expire(l, now)) && LeavesAreOf(H, l, Expire(l, now))
    ensures forall id :: id in l.invoices ==> Expire(l, now).invoices[id] == AfterExpiry(l.invoices[id], now)
  {
    PaymentRuns.ExpireKeeps(H, l, now);
    forall id | id in l.invoices ensures IsAdvanced(l, Expire(l, now), id) {
      assert InvoiceInv(H, l.log, l.miners, l.invoices[id], PaymentsOf(l, id));
    }
  }

  /** Without payments an invoice is, once everything past its time has expired, as it was then. */
  ghost predicate AllUntouchedBut(l: Ledger, l': Ledger, now: nat) {
    forall id :: id in l.invoices ==>
      id in l'.invoices && (PaymentsOf(l', id) == map[] ==> AfterExpiry(l'.invoices[id], now) == AfterExpiry(l.invoices[id], now))
  }

  lemma UntouchedBut(l: Ledger, l': Ledger, now: nat)
    requires AllUntouched(l, l')
    ensures AllUntouchedBut(l, l', now)
  {
    forall id | id in l.invoices
      ensures id in l'.invoices && (PaymentsOf(l', id) == map[] ==> AfterExpiry(l'.invoices[id], now) == AfterExpiry(l.invoices[id], now))
    {
      assert IsUntouched(l, l', id);
    }
  }

  // ---------------------------------------------------------------------------------
  // Two ledgers that agree
  // ---------------------------------------------------------------------------------

  /** The same total, status and payments; the transaction named as the paying one may differ. */
  ghost predicate SameState(a: Ledger, b: Ledger, id: Id) {
    && id in a.invoices && id in b.invoices
    && PaymentRuns.Anonymous(a.invoices[id]) == PaymentRuns.Anonymous(b.invoices[id])
    && BlockValues(PaymentsOf(a, id)) == BlockValues(PaymentsOf(b, id))
  }

  ghost predicate AllSame(l: Ledger, a: Ledger, b: Ledger) {
    forall id :: id in l.invoices ==> SameState(a, b, id)
  }

  /** The same invoices in the same state, and the same leaves, in some order. */
  ghost predicate SameOutcome(a: Ledger, b: Ledger) {
    && a.invoices.Keys == b.invoices.Keys
    && (forall id :: id in a.invoices ==> SameState(a, b, id))
    && forall row :: row in a.log.leaves <==> row in b.log.leaves
  }

  ghost predicate SamePaymentsOf(l: Ledger, a: Ledger, b: Ledger) {
    forall id :: id in l.invoices ==> BlockValues(PaymentsOf(a, id)) == BlockValues(PaymentsOf(b, id))
  }

  /** A ledger that came from l by recording and expiry, and what had expired by then. */
  ghost predicate IsGrown(H: Hash, l: Ledger, a: Ledger, now: nat) {
    LedgerInv(H, a) && AllAdvanced(l, a) && LeavesAreOf(H, l, a) && AllUntouchedBut(l, a, now)
  }

  lemma PaidFor(H: Hash, l: Ledger, id: Id)
    requires LedgerInv(H, l) && id in l.invoices
    ensures var inv := l.invoices[id];
      && inv.received == BlockTotal(PaymentsOf(l, id))
      && (PaymentsOf(l, id) != map[] ==> inv.status == if inv.received >= inv.amount then Paid else Partial)
      && (PaymentsOf(l, id) == map[] <==> BlockValues(PaymentsOf(l, id)) == map[])
  {
    assert InvoiceInv(H, l.log, l.miners, l.invoices[id], PaymentsOf(l, id));
    if PaymentsOf(l, id) != map[] {
      var t :| t in PaymentsOf(l, id);
      assert t in BlockValues(PaymentsOf(l, id));
    }
  }

  /** The same total and payments make the same invoice, but for who paid. */
  lemma SameAnonymous(o: Invoice, x: Invoice, y: Invoice, paid: bool, now: nat)
    requires SameInvoice(o, x) && SameInvoice(o, y) && x.received == y.received
    requires paid ==> x.status == y.status == if x.received >= x.amount then Paid else Partial
    requires !paid ==> AfterExpiry(x, now) == AfterExpiry(o, now) == AfterExpiry(y, now)
    ensures PaymentRuns.Anonymous(AfterExpiry(x, now)) == PaymentRuns.Anonymous(AfterExpiry(y, now))
  {}

  lemma GrownInvoice(H: Hash, l: Ledger, a: Ledger, id: Id, now: nat)
    requires IsGrown(H, l, a, now) && id in l.invoices
    ensures id in a.invoices && SameInvoice(l.invoices[id], a.invoices[id])
    ensures PaymentsOf(a, id) == map[] ==> AfterExpiry(a.invoices[id], now) == AfterExpiry(l.invoices[id], now)
    ensures id in Expire(a, now).invoices && Expire(a, now).invoices[id] == AfterExpiry(a.invoices[id], now)
  {
    assert IsAdvanced(l, a, id);
  }

  /** Of ledgers from one origin, those with the same payments are the same after expiry. */
  lemma SamePayments(H: Hash, l: Ledger, a: Ledger, b: Ledger, id: Id, now: nat)
    requires IsGrown(H, l, a, now) && IsGrown(H, l, b, now) && id in l.invoices
    requires BlockValues(PaymentsOf(a, id)) == BlockValues(PaymentsOf(b, id))
    ensures SameState(Expire(a, now), Expire(b, now), id)
  {
    GrownInvoice(H, l, a, id, now);
    GrownInvoice(H, l, b, id, now);
    PaidFor(H, a, id);
    PaidFor(H, b, id);
    hide IsGrown, BlockValues, SameInvoice, AfterExpiry;
    SameAnonymous(l.invoices[id], a.invoices[id], b.invoices[id], PaymentsOf(a, id) != map[], now);
  }

  lemma SameStates(H: Hash, l: Ledger, a: Ledger, b: Ledger, now: nat)
    requires IsGrown(H, l, a, now) && IsGrown(H, l, b, now) && SamePaymentsOf(l, a, b)
    ensures AllSame(l, Expire(a, now), Expire(b, now))
  {
    hide IsGrown, SameState, BlockValues;
    forall id | id in l.invoices ensures SameState(Expire(a, now), Expire(b, now), id) {
      SamePayments(H, l, a, b, id, now);
    }
  }

  /** Expiry changes nothing of a paid invoice. */
  lemma PaidOutlastsExpiry(H: Hash, l: Ledger, now: nat, row: LeafRow)
    ensures IsOfPaid(H, l, row) <==> IsOfPaid(H, Expire(l, now), row)
  {
    if IsOfPaid(H, l, row) {
      var id :| IsPaidLeaf(H, l, id, row);
      assert IsPaidLeaf(H, Expire(l, now), id, row);
    }
    if IsOfPaid(H, Expire(l, now), row) {
      var id :| IsPaidLeaf(H, Expire(l, now), id, row);
      assert IsPaidLeaf(H, l, id, row);
    }
  }

  lemma SamePaidLeaf(H: Hash, l: Ledger, a: Ledger, b: Ledger, row: LeafRow)
    requires a.invoices.Keys == l.invoices.Keys && a.miners == b.miners && IsOfPaid(H, a, row)
    requires AllSame(l, a, b)
    ensures IsOfPaid(H, b, row)
  {
    var id :| IsPaidLeaf(H, a, id, row);
    hide IsPaidLeaf, BlockValues;
    assert SameState(a, b, id);
    PaidLeafOfOther(H, a, b, id, row);
  }

  lemma LeavesAgree(H: Hash, l: Ledger, a: Ledger, b: Ledger, now: nat, row: LeafRow)
    requires IsGrown(H, l, a, now) && IsGrown(H, l, b, now) && AllSame(l, Expire(a, now), Expire(b, now))
    ensures row in a.log.leaves ==> row in b.log.leaves
  {
    hide LedgerInv, AllUntouchedBut, AllSame, IsOfPaid;
    if row in a.log.leaves && row !in l.log.leaves {
      PaidOutlastsExpiry(H, a, now, row);
      SamePaidLeaf(H, l, Expire(a, now), Expire(b, now), row);
      PaidOutlastsExpiry(H, b, now, row);
      PaidHasItsLeaf(H, b, row);
    }
  }

  /** Recording that leads to the same payments leads to the same outcome, once what is past its time has expired. */
  lemma SamePaymentsSameOutcome(H: Hash, l: Ledger, a: Ledger, b: Ledger, now: nat)
    requires IsGrown(H, l, a, now) && IsGrown(H, l, b, now) && SamePaymentsOf(l, a, b)
    ensures SameOutcome(Expire(a, now), Expire(b, now))
  {
    SameStates(H, l, a, b, now);
    SameStateSymmetric(l, Expire(a, now), Expire(b, now));
    SameInvoices(H, l, a, b, now);
    hide IsGrown, AllSame, SameState, SamePaymentsOf;
    forall row ensures row in a.log.leaves <==> row in b.log.leaves {
      LeavesAgree(H, l, a, b, now, row);
      LeavesAgree(H, l, b, a, now, row);
    }
    AllSameInvoices(l, Expire(a, now), Expire(b, now));
  }

  lemma SameInvoices(H: Hash, l: Ledger, a: Ledger, b: Ledger, now: nat)
    requires IsGrown(H, l, a, now) && IsGrown(H, l, b, now)
    ensures Expire(a, now).invoices.Keys == l.invoices.Keys == Expire(b, now).invoices.Keys
  {
    hide LedgerInv, LeavesAreOf, AllUntouchedBut, IsAdvanced;
  }

  lemma AllSameInvoices(l: Ledger, a: Ledger, b: Ledger)
    requires a.invoices.Keys == l.invoices.Keys == b.invoices.Keys && AllSame(l, a, b)
    requires forall row :: row in a.log.leaves <==> row in b.log.leaves
    ensures SameOutcome(a, b)
  {}

  lemma SameStateSymmetric(l: Ledger, a: Ledger, b: Ledger)
    requires AllSame(l, a, b)
    ensures AllSame(l, b, a)
  {}

  // ---------------------------------------------------------------------------------
  // Two scans
  // ---------------------------------------------------------------------------------

  lemma WatchedIsActive(w: Watch, invoices: map<Id, Invoice>, addressOf: Id -> Address, blocks: Node, height: nat, r: Rec)
    requires IsWatch(w, invoices, addressOf) && IsMatchAt(w, blocks, height, r)
    ensures r.height == height && r.id in invoices && IsActive(invoices[r.id])
  {
    var txs := blocks(height).value;
    var k :| 0 <= k < |txs| && IsTxMatch(w, txs[k], height, r);
    var i: nat :| IsMatch(w, txs[k], height, i, r);
    assert w.ids[i] in w.ids;
  }

  /** What one watch list finds of an invoice, another one that has it finds as well, in whatever order it is. */
  lemma MatchOfOtherWatch(
    w: Watch, invoices: map<Id, Invoice>, w': Watch, invoices': map<Id, Invoice>,
    addressOf: Id -> Address, blocks: Node, height: nat, r: Rec)
    requires IsWatch(w, invoices, addressOf) && IsWatch(w', invoices', addressOf)
    requires IsMatchAt(w, blocks, height, r) && r.id in invoices' && IsActive(invoices'[r.id])
    ensures IsMatchAt(w', blocks, height, r)
  {
    var txs := blocks(height).value;
    var k :| 0 <= k < |txs| && IsTxMatch(w, txs[k], height, r);
    var i: nat :| IsMatch(w, txs[k], height, i, r);
    assert r.id in w'.ids;
    var j :| 0 <= j < |w'.ids| && w'.ids[j] == r.id;
    assert IsMatch(w', txs[k], height, j, r);
    assert IsTxMatch(w', txs[k], height, r);
  }

  /**
   Every payment from `next` on to an invoice watched by w is in this ledger, or its invoice is
   still active.
   */
  ghost predicate NothingDropped(l: Ledger, w: Watch, blocks: Node, next: nat, stop: nat) {
    forall h, r :: next <= h < stop && IsMatchAt(w, blocks, h, r) ==>
      r.id in l.invoices && (r.tx in PaymentsOf(l, r.id) || IsActive(l.invoices[r.id]))
  }

  /** These replies are the chain's, as far as they came. */
  ghost predicate Answers(replies: Node, blocks: Node) {
    forall h: nat :: replies(h).Some? ==> replies(h) == blocks(h)
  }

  /** A scan that some requests stopped is a scan of the chain. */
  lemma ScanOfReplies(w: Watch, replies: Node, blocks: Node, first: nat, next: nat, recs: seq<Rec>)
    requires Answers(replies, blocks) && IsScan(w, replies, first, next, recs)
    ensures IsScan(w, blocks, first, next, recs)
  {
    forall h: nat, r | first <= h < next && IsMatchAt(w, blocks, h, r) ensures r in recs {
      assert replies(h) == blocks(h);
      assert IsMatchAt(w, replies, h, r);
    }
    forall r | r in recs ensures first <= r.height <= next && IsMatchAt(w, blocks, r.height, r) {
      assert IsMatchAt(w, replies, r.height, r);
    }
  }

  /**
   One complete scan of the blocks from `first` to `stop`; a scan that stopped at `next`, expiry,
   which runs after every scan, and the scan that resumed it; and the time of the expiry after these.
   */
  datatype Scans = Scans(
    start: Ledger, first: nat, next: nat, stop: nat,
    whole: Watch, wholeRecs: seq<Rec>, full: Ledger,
    part: Watch, partRecs: seq<Rec>, stopped: Ledger, expiredAt: nat, middle: Ledger,
    rest: Watch, restRecs: seq<Rec>, resumed: Ledger, later: nat)

  /** These are such scans, as `ScanOnce` leaves them; some requests of the one that stopped failed. */
  ghost predicate AreScans(H: Hash, addressOf: Id -> Address, blocks: Node, replies: Node, s: Scans) {
    && LedgerInv(H, s.start) && s.first <= s.next < s.stop && Answers(replies, blocks)
    && ScansTo(H, s.start, addressOf, blocks, s.first, s.stop, s.whole, s.wholeRecs, s.full)
    && ScansTo(H, s.start, addressOf, replies, s.first, s.next, s.part, s.partRecs, s.stopped)
    && s.middle == Expire(s.stopped, s.expiredAt) && s.expiredAt <= s.later
    && ScansTo(H, s.middle, addressOf, blocks, s.next, s.stop, s.rest, s.restRecs, s.resumed)
    && EndsBefore(s.wholeRecs, s.stop) && EndsBefore(s.restRecs, s.stop)
  }

  /** What is known of the ledgers of such scans. */
  ghost predicate AreLedgers(H: Hash, s: Scans) {
    && LedgerInv(H, s.full) && LedgerInv(H, s.stopped) && LedgerInv(H, s.middle) && LedgerInv(H, s.resumed)
    && AllAdvanced(s.start, s.full) && AllAdvanced(s.start, s.stopped)
    && AllAdvanced(s.start, s.middle) && AllAdvanced(s.middle, s.resumed)
    && PaymentsAreOf(s.start, s.wholeRecs, s.full) && PaymentsAreOf(s.start, s.partRecs, s.middle)
    && PaymentsAreOf(s.middle, s.restRecs, s.resumed)
  }

  lemma LedgersOfScans(H: Hash, addressOf: Id -> Address, blocks: Node, replies: Node, s: Scans)
    requires AreScans(H, addressOf, blocks, replies, s)
    ensures AreLedgers(H, s)
  {
    RecordAllKeeps(H, s.start, s.wholeRecs);
    RecordAllKeeps(H, s.start, s.partRecs);
    RecordAllAdvances(H, s.start, s.wholeRecs);
    RecordAllAdvances(H, s.start, s.partRecs);
    RecordAllPayments(H, s.start, s.wholeRecs);
    RecordAllPayments(H, s.start, s.partRecs);
    hide LedgerInv, RecordAll, IsAdvanced, Expire;
    ExpireAdvances(H, s.stopped, s.expiredAt);
    AdvancedTransitive(s.start, s.stopped, s.middle);
    ExpiryKeepsPayments(s.start, s.partRecs, s.stopped, s.expiredAt);
    RecordAllKeeps(H, s.middle, s.restRecs);
    RecordAllAdvances(H, s.middle, s.restRecs);
    RecordAllPayments(H, s.middle, s.restRecs);
  }

  lemma ExpiryKeepsPayments(l: Ledger, recs: seq<Rec>, l': Ledger, now: nat)
    requires PaymentsAreOf(l, recs, l')
    ensures PaymentsAreOf(l, recs, Expire(l', now))
  {}

  /** An invoice that is active after some calls was active before them. */
  lemma StillActive(l: Ledger, l': Ledger, id: Id)
    requires AllAdvanced(l, l') && id in l'.invoices && IsActive(l'.invoices[id])
    ensures id in l.invoices && IsActive(l.invoices[id])
  {
    assert IsAdvanced(l, l', id);
  }

  /** Every call of the stopped scan is one of the complete scan. */
  lemma PartIsOfWhole(H: Hash, addressOf: Id -> Address, blocks: Node, replies: Node, s: Scans, r: Rec)
    requires AreScans(H, addressOf, blocks, replies, s) && r in s.partRecs
    ensures r in s.wholeRecs
  {
    ScanOfReplies(s.part, replies, blocks, s.first, s.next, s.partRecs);
    hide LedgerInv, RecordAll, IsWatch, Answers, IsMatchAt;
    WatchedIsActive(s.part, s.start.invoices, addressOf, blocks, r.height, r);
    MatchOfOtherWatch(s.part, s.start.invoices, s.whole, s.start.invoices, addressOf, blocks, r.height, r);
  }

  /** Every call of the resumed scan is one of the complete scan. */
  lemma RestIsOfWhole(H: Hash, addressOf: Id -> Address, blocks: Node, replies: Node, s: Scans, r: Rec)
    requires AreScans(H, addressOf, blocks, replies, s) && AllAdvanced(s.start, s.middle) && r in s.restRecs
    ensures r in s.wholeRecs
  {
    hide LedgerInv, RecordAll, IsWatch, Answers, IsMatchAt, Expire;
    WatchedIsActive(s.rest, s.middle.invoices, addressOf, blocks, r.height, r);
    StillActive(s.start, s.middle, r.id);
    MatchOfOtherWatch(s.rest, s.middle.invoices, s.whole, s.start.invoices, addressOf, blocks, r.height, r);
  }

  /** A payment of the complete scan that the other two have as well. */
  lemma PaymentIsResumed(H: Hash, addressOf: Id -> Address, blocks: Node, replies: Node, s: Scans, r: Rec)
    requires AreScans(H, addressOf, blocks, replies, s) && NothingDropped(s.middle, s.whole, blocks, s.next, s.stop)
    requires r in s.wholeRecs
    ensures r.tx in PaymentsOf(s.resumed, r.id)
  {
    LedgersOfScans(H, addressOf, blocks, replies, s);
    ScanOfReplies(s.part, replies, blocks, s.first, s.next, s.partRecs);
    hide LedgerInv;
    WatchedIsActive(s.whole, s.start.invoices, addressOf, blocks, r.height, r);
    assert IsAdvanced(s.start, s.middle, r.id) && IsAdvanced(s.middle, s.resumed, r.id);
    if r.height < s.next {
      MatchOfOtherWatch(s.whole, s.start.invoices, s.part, s.start.invoices, addressOf, blocks, r.height, r);
      assert r in s.partRecs;
      assert HasPayment(s.middle, r);
    } else if r.tx !in PaymentsOf(s.middle, r.id) {
      MatchOfOtherWatch(s.whole, s.start.invoices, s.rest, s.middle.invoices, addressOf, blocks, r.height, r);
      assert r in s.restRecs;
      assert HasPayment(s.resumed, r);
    }
  }

  /** What the two scans have, the complete one has, with the same value. */
  lemma ResumedPaymentIsWhole(H: Hash, addressOf: Id -> Address, blocks: Node, replies: Node, s: Scans, id: Id, t: PaymentTx)
    requires AreScans(H, addressOf, blocks, replies, s) && id in s.start.invoices && t in PaymentsOf(s.resumed, id)
    ensures t in PaymentsOf(s.full, id) && PaymentsOf(s.full, id)[t].value == PaymentsOf(s.resumed, id)[t].value
  {
    LedgersOfScans(H, addressOf, blocks, replies, s);
    hide LedgerInv;
    assert IsAdvanced(s.start, s.middle, id) && IsAdvanced(s.middle, s.resumed, id) && IsAdvanced(s.start, s.full, id);
    if t !in PaymentsOf(s.start, id) {
      var recs := if t in PaymentsOf(s.middle, id) then s.partRecs else s.restRecs;
      assert IsPaidBy(recs, id, t);
      var r :| r in recs && r.id == id && r.tx == t;
      if t in PaymentsOf(s.middle, id) {
        PartIsOfWhole(H, addressOf, blocks, replies, s, r);
      } else {
        RestIsOfWhole(H, addressOf, blocks, replies, s, r);
      }
      assert HasPayment(s.full, r);
      assert if t in PaymentsOf(s.middle, id) then HasPayment(s.middle, r) else HasPayment(s.resumed, r);
    }
  }

  lemma WholePaymentIsResumed(H: Hash, addressOf: Id -> Address, blocks: Node, replies: Node, s: Scans, id: Id, t: PaymentTx)
    requires AreScans(H, addressOf, blocks, replies, s) && NothingDropped(s.middle, s.whole, blocks, s.next, s.stop)
    requires id in s.start.invoices && t in PaymentsOf(s.full, id)
    ensures t in PaymentsOf(s.resumed, id)
  {
    LedgersOfScans(H, addressOf, blocks, replies, s);
    hide LedgerInv, NothingDropped;
    if t in PaymentsOf(s.start, id) {
      assert IsAdvanced(s.start, s.middle, id) && IsAdvanced(s.middle, s.resumed, id);
    } else {
      assert IsPaidBy(s.wholeRecs, id, t);
      var r :| r in s.wholeRecs && r.id == id && r.tx == t;
      PaymentIsResumed(H, addressOf, blocks, replies, s, r);
    }
  }

  /** Block payments by transaction and value. */
  lemma SameBlockValues(ps: map<PaymentTx, Payment>, qs: map<PaymentTx, Payment>)
    requires PaymentsInv(ps) && PaymentsInv(qs)
    requires forall t :: t in qs ==> t in ps
    requires forall t :: t in ps ==> t in qs && qs[t].value == ps[t].value
    ensures BlockValues(ps) == BlockValues(qs)
  {}

  lemma PaymentsOfReachable(H: Hash, l: Ledger, id: Id)
    requires LedgerInv(H, l) && id in l.invoices
    ensures PaymentsInv(PaymentsOf(l, id))
  {
    assert InvoiceInv(H, l.log, l.miners, l.invoices[id], PaymentsOf(l, id));
  }

  lemma AllPaymentsResumed(H: Hash, addressOf: Id -> Address, blocks: Node, replies: Node, s: Scans, id: Id)
    requires AreScans(H, addressOf, blocks, replies, s) && NothingDropped(s.middle, s.whole, blocks, s.next, s.stop)
    requires id in s.start.invoices
    ensures BlockValues(PaymentsOf(s.resumed, id)) == BlockValues(PaymentsOf(s.full, id))
  {
    LedgersOfScans(H, addressOf, blocks, replies, s);
    PaymentsOfReachable(H, s.full, id);
    PaymentsOfReachable(H, s.resumed, id);
    hide *;
    forall t | t in PaymentsOf(s.full, id) ensures t in PaymentsOf(s.resumed, id) {
      WholePaymentIsResumed(H, addressOf, blocks, replies, s, id, t);
    }
    forall t | t in PaymentsOf(s.resumed, id)
      ensures t in PaymentsOf(s.full, id) && PaymentsOf(s.full, id)[t].value == PaymentsOf(s.resumed, id)[t].value
    {
      ResumedPaymentIsWhole(H, addressOf, blocks, replies, s, id, t);
    }
    SameBlockValues(PaymentsOf(s.resumed, id), PaymentsOf(s.full, id));
  }

  /** What has been settled after the scans: expiry has run once more. */
  ghost predicate IsSettledAlike(s: Scans) {
    SameOutcome(Expire(s.resumed, s.later), Expire(s.full, s.later))
  }

  lemma SettledPayment(H: Hash, s: Scans, r: Rec)
    requires LedgerInv(H, s.full) && IsSettledAlike(s) && HasPayment(s.full, r)
    ensures r.tx in PaymentsOf(s.resumed, r.id)
  {
    PaymentsOfReachable(H, s.full, r.id);
    hide LedgerInv, PaymentRuns.Anonymous;
    assert SameState(Expire(s.resumed, s.later), Expire(s.full, s.later), r.id);
    assert r.tx in BlockValues(PaymentsOf(s.full, r.id));
  }

  /** A payment that the resumed scan has was there before it, or its invoice was still active. */
  lemma ResumedIsNotDropped(H: Hash, addressOf: Id -> Address, blocks: Node, replies: Node, s: Scans, h: nat, r: Rec)
    requires AreScans(H, addressOf, blocks, replies, s) && IsSettledAlike(s)
    requires s.next <= h < s.stop && IsMatchAt(s.whole, blocks, h, r)
    ensures r.id in s.middle.invoices && (r.tx in PaymentsOf(s.middle, r.id) || IsActive(s.middle.invoices[r.id]))
  {
    LedgersOfScans(H, addressOf, blocks, replies, s);
    hide LedgerInv, IsSettledAlike, IsAdvanced;
    WatchedIsActive(s.whole, s.start.invoices, addressOf, blocks, h, r);
    assert r in s.wholeRecs;
    SettledPayment(H, s, r);
    if r.tx !in PaymentsOf(s.middle, r.id) {
      assert IsPaidBy(s.restRecs, r.id, r.tx);
      var q :| q in s.restRecs && q.id == r.id && q.tx == r.tx;
      WatchedIsActive(s.rest, s.middle.invoices, addressOf, blocks, q.height, q);
    }
  }

  /** Without payments, an invoice that the resumed scan leaves has at most expired. */
  lemma ResumedIsGrown(H: Hash, addressOf: Id -> Address, blocks: Node, replies: Node, s: Scans)
    requires AreScans(H, addressOf, blocks, replies, s)
    ensures IsGrown(H, s.start, s.resumed, s.later)
  {
    LedgersOfScans(H, addressOf, blocks, replies, s);
    RecordAllUntouched(H, s.start, s.partRecs);
    RecordAllUntouched(H, s.middle, s.restRecs);
    LeavesOfRecordAll(H, s.start, s.partRecs);
    LeavesOfRecordAll(H, s.middle, s.restRecs);
    hide RecordAll, LedgerInv, LeavesAreOf, IsWatch, IsScan, IsAdvanced;
    ExpireAdvances(H, s.stopped, s.expiredAt);
    LeavesTransitive(H, s.start, s.stopped, s.middle);
    LeavesTransitive(H, s.start, s.middle, s.resumed);
    AdvancedTransitive(s.start, s.middle, s.resumed);
    ExpiredTwice(s.start, s.stopped, s.middle, s.resumed, s.expiredAt, s.later);
  }

  lemma ExpiredTwice(l: Ledger, a: Ledger, b: Ledger, c: Ledger, now: nat, later: nat)
    requires AllUntouched(l, a) && AllAdvanced(l, a) && AllUntouched(b, c) && AllAdvanced(b, c)
    requires b == Expire(a, now) && now <= later
    ensures AllUntouchedBut(l, c, later)
  {
    forall id | id in l.invoices
      ensures id in c.invoices && (PaymentsOf(c, id) == map[] ==> AfterExpiry(c.invoices[id], later) == AfterExpiry(l.invoices[id], later))
    {
      assert IsUntouched(l, a, id) && IsAdvanced(l, a, id);
      assert b.invoices[id] == AfterExpiry(a.invoices[id], now) && PaymentsOf(b, id) == PaymentsOf(a, id);
      assert IsUntouched(b, c, id) && IsAdvanced(b, c, id);
    }
  }

  lemma FullIsGrown(H: Hash, addressOf: Id -> Address, blocks: Node, replies: Node, s: Scans)
    requires AreScans(H, addressOf, blocks, replies, s)
    ensures IsGrown(H, s.start, s.full, s.later)
  {
    LedgersOfScans(H, addressOf, blocks, replies, s);
    RecordAllUntouched(H, s.start, s.wholeRecs);
    LeavesOfRecordAll(H, s.start, s.wholeRecs);
    UntouchedBut(s.start, s.full, s.later);
    hide RecordAll, LedgerInv, LeavesAreOf, IsWatch, IsScan, IsAdvanced;
  }

  lemma ResumedIsWhole(H: Hash, addressOf: Id -> Address, blocks: Node, replies: Node, s: Scans)
    requires AreScans(H, addressOf, blocks, replies, s) && NothingDropped(s.middle, s.whole, blocks, s.next, s.stop)
    ensures IsSettledAlike(s)
  {
    ResumedIsGrown(H, addressOf, blocks, replies, s);
    FullIsGrown(H, addressOf, blocks, replies, s);
    hide IsGrown, AreScans, NothingDropped, SameOutcome;
    forall id | id in s.start.invoices
      ensures BlockValues(PaymentsOf(s.resumed, id)) == BlockValues(PaymentsOf(s.full, id))
    {
      AllPaymentsResumed(H, addressOf, blocks, replies, s, id);
    }
    assert SamePaymentsOf(s.start, s.resumed, s.full);
    SamePaymentsSameOutcome(H, s.start, s.resumed, s.full, s.later);
  }

  lemma WholeIsResumed(H: Hash, addressOf: Id -> Address, blocks: Node, replies: Node, s: Scans)
    requires AreScans(H, addressOf, blocks, replies, s) && IsSettledAlike(s)
    ensures NothingDropped(s.middle, s.whole, blocks, s.next, s.stop)
  {
    hide AreScans, IsSettledAlike;
    forall h: nat, r | s.next <= h < s.stop && IsMatchAt(s.whole, blocks, h, r)
      ensures r.id in s.middle.invoices && (r.tx in PaymentsOf(s.middle, r.id) || IsActive(s.middle.invoices[r.id]))
    {
      ResumedIsNotDropped(H, addressOf, blocks, replies, s, h, r);
    }
  }

  /**
   When stopping does no harm: a scan that stops and is resumed after expiry leaves, once expiry
   has run again, the invoices, payments and leaves of one complete scan exactly when no payment
   of the remaining blocks is for an invoice that the first part completed or that has expired
   since, unless that part recorded it.  The order in which each scan goes through its invoices
   and through the payments of a transaction does not matter.
   */
  lemma StoppedScanAgreesIff(H: Hash, addressOf: Id -> Address, blocks: Node, replies: Node, s: Scans)
    requires AreScans(H, addressOf, blocks, replies, s)
    ensures SameOutcome(Expire(s.resumed, s.later), Expire(s.full, s.later))
       <==> NothingDropped(s.middle, s.whole, blocks, s.next, s.stop)
  {
    hide AreScans, SameOutcome, NothingDropped;
    if NothingDropped(s.middle, s.whole, blocks, s.next, s.stop) {
      ResumedIsWhole(H, addressOf, blocks, replies, s);
    }
    if IsSettledAlike(s) {
      WholeIsResumed(H, addressOf, blocks, replies, s);
    }
  }

  // ---------------------------------------------------------------------------------
  // A scan that stops and does do harm
  // ---------------------------------------------------------------------------------

  const FIRST := TxReply("t1", [Output([], 5)], [], true)
  const SECOND := TxReply("t2", [Output([], 3)], [], true)

  /** Block h pays the invoice 5, and the next one 3 more. */
  function TwoPayments(h: nat): Node {
    (k: nat) => if k == h then Some([FIRST]) else if k == h + 1 then Some([SECOND]) else None
  }

  /** The second block cannot be had the first time. */
  function OnePayment(h: nat): Node {
    (k: nat) => if k == h then Some([FIRST]) else None
  }

  /** An invoice of 5 that nobody has paid yet. */
  function Origin(id: Id, expiresAt: Option<nat>): Ledger {
    Ledger(map[id := Invoice(5, Other, None, Pending, 0, expiresAt, None, None, 0, 0, 0)], map[], [], Log([], []))
  }

  function PaidOnce(id: Id, expiresAt: Option<nat>, h: nat): Ledger {
    Ledger(
      map[id := Invoice(5, Other, None, Paid, 5, expiresAt, Some("t1"), Some(h), 0, 0, 0)],
      map[id := map["t1" := Payment(5, h, Block)]], [], Log([], []))
  }

  function PaidTwice(id: Id, h: nat): Ledger {
    Ledger(
      map[id := Invoice(5, Other, None, Paid, 8, None, Some("t1"), Some(h), 0, 0, 0)],
      map[id := map["t1" := Payment(5, h, Block), "t2" := Payment(3, h + 1, Block)]], [], Log([], []))
  }

  lemma OneMatch(w: Watch, blocks: Node, h: nat, tx: TxReply, id: Id, value: nat, r: Rec)
    requires w == Watch([id], [[]]) && blocks(h) == Some([tx])
    requires tx.outputs == [Output([], value)] && tx.fetched
    ensures IsMatchAt(w, blocks, h, r) <==> r == Rec(id, value, tx.id, h)
  {
    assert tx.outputs[0] in tx.outputs && tx.outputs[..0] == [];
    assert TotalFor(tx.outputs, []) == value;
    if r == Rec(id, value, tx.id, h) {
      assert IsMatch(w, tx, h, 0, r);
      assert IsTxMatch(w, [tx][0], h, r);
    }
    if IsMatchAt(w, blocks, h, r) {
      var k :| 0 <= k < 1 && IsTxMatch(w, [tx][k], h, r);
      var i: nat :| IsMatch(w, tx, h, i, r);
    }
  }

  lemma RecordsFirst(H: Hash, id: Id, expiresAt: Option<nat>, h: nat)
    ensures RecordPayment(H, Origin(id, expiresAt), id, 5, "t1", h) == Some(PaidOnce(id, expiresAt, h))
  {
    var l, l', p := Origin(id, expiresAt), PaidOnce(id, expiresAt, h), Payment(5, h, Block);
    var ps: map<PaymentTx, Payment>, none: map<PaymentTx, nat> := map["t1" := p], map[];
    SumWith(none, "t1", 5);
    assert BlockValues(ps) == none["t1" := 5];
    assert PaymentsOf(l, id)["t1" := p] == ps && l.payments[id := ps] == l'.payments;
    assert l.invoices[id := l'.invoices[id]] == l'.invoices;
  }

  lemma RecordsSecond(H: Hash, id: Id, h: nat)
    ensures RecordPayment(H, PaidOnce(id, None, h), id, 3, "t2", h + 1) == Some(PaidTwice(id, h))
  {
    var l, l', p, q := PaidOnce(id, None, h), PaidTwice(id, h), Payment(5, h, Block), Payment(3, h + 1, Block);
    var ps: map<PaymentTx, Payment>, none: map<PaymentTx, nat> := map["t1" := p, "t2" := q], map[];
    SumWith(none, "t1", 5);
    SumWith(none["t1" := 5], "t2", 3);
    assert BlockValues(ps) == none["t1" := 5]["t2" := 3];
    assert PaymentsOf(l, id)["t2" := q] == ps && l.payments[id := ps] == l'.payments;
    assert l.invoices[id := l'.invoices[id]] == l'.invoices;
  }

  /** The scans of the two blocks: a complete one, one that stops between them, and the one that resumes it. */
  function TwoBlockScans(id: Id, h: nat): Scans {
    var w, one, two := Watch([id], [[]]), Rec(id, 5, "t1", h), Rec(id, 3, "t2", h + 1);
    Scans(Origin(id, None), h, h + 1, h + 2,
      w, [one, two], PaidTwice(id, h),
      w, [one], PaidOnce(id, None, h), 0, PaidOnce(id, None, h),
      Watch([], []), [], PaidOnce(id, None, h), 0)
  }

  /**
   A complete scan of two blocks records 8 for an invoice of 5.  A scan that stops between them
   makes the invoice paid with 5, and then no list of active invoices leads to any call.
   */
  lemma StoppedScanDropsPayment(H: Hash, addressOf: Id -> Address, id: Id, h: nat)
    requires addressOf(id) == []
    ensures var s := TwoBlockScans(id, h);
      && AreScans(H, addressOf, TwoPayments(h), OnePayment(h), s)
      && s.full.invoices[id].received == 8 && s.resumed.invoices[id].received == 5
      && !SameOutcome(Expire(s.resumed, s.later), Expire(s.full, s.later))
  {
    OriginIsReachable(H, id, None);
    TwoBlockScansTo(H, addressOf, id, h);
    PaidOnceIsNotPaidTwice(id, h);
    RepliesOfTwo(h);
    hide LedgerInv, ScansTo, SameOutcome, Answers, Expire, Origin;
  }

  lemma PaidOnceIsNotPaidTwice(id: Id, h: nat)
    ensures Expire(PaidOnce(id, None, h), 0) == PaidOnce(id, None, h) && Expire(PaidTwice(id, h), 0) == PaidTwice(id, h)
    ensures !SameOutcome(PaidOnce(id, None, h), PaidTwice(id, h))
  {
    assert Expire(PaidOnce(id, None, h), 0).invoices == PaidOnce(id, None, h).invoices;
    assert Expire(PaidTwice(id, h), 0).invoices == PaidTwice(id, h).invoices;
    assert !SameState(PaidOnce(id, None, h), PaidTwice(id, h), id);
  }

  lemma RepliesOfTwo(h: nat)
    ensures Answers(OnePayment(h), TwoPayments(h))
  {}

  lemma IsWatchOfOrigin(addressOf: Id -> Address, id: Id, expiresAt: Option<nat>)
    requires addressOf(id) == []
    ensures IsWatch(Watch([id], [[]]), Origin(id, expiresAt).invoices, addressOf)
  {
    var ids := [id];
    assert ids[..0] == [];
    assert Addresses(ids, addressOf) == [[]];
  }

  lemma TwoBlockScansTo(H: Hash, addressOf: Id -> Address, id: Id, h: nat)
    requires addressOf(id) == []
    ensures var s := TwoBlockScans(id, h);
      && ScansTo(H, s.start, addressOf, TwoPayments(h), h, h + 2, s.whole, s.wholeRecs, s.full)
      && ScansTo(H, s.start, addressOf, OnePayment(h), h, h + 1, s.part, s.partRecs, s.stopped)
      && ScansTo(H, s.middle, addressOf, TwoPayments(h), h + 1, h + 2, s.rest, s.restRecs, s.resumed)
  {
    var s := TwoBlockScans(id, h);
    assert RecordAll(H, s.middle, []) == Some(s.middle);
    assert IsWatch(Watch([], []), s.middle.invoices, addressOf);
    hide RecordAll, RecordPayment, IsWatch, IsScan;
    IsWatchOfOrigin(addressOf, id, None);
    RecordsBoth(H, id, h);
    FirstScan(s.part, id, h);
    SecondScan(s.whole, id, h, h + 1);
    NoScan(TwoPayments(h), h + 1);
  }

  lemma OriginIsReachable(H: Hash, id: Id, expiresAt: Option<nat>)
    ensures LedgerInv(H, Origin(id, expiresAt))
  {
    BlockTotalOfNone();
  }

  /** Without watched invoices there is no call. */
  lemma NoScan(blocks: Node, h: nat)
    requires blocks(h).Some?
    ensures IsScan(Watch([], []), blocks, h, h + 1, [])
  {
    forall r ensures !IsMatchAt(Watch([], []), blocks, h, r) {
    }
  }

  lemma RecordsBoth(H: Hash, id: Id, h: nat)
    ensures RecordAll(H, Origin(id, None), [Rec(id, 5, "t1", h)]) == Some(PaidOnce(id, None, h))
    ensures RecordAll(H, Origin(id, None), [Rec(id, 5, "t1", h), Rec(id, 3, "t2", h + 1)]) == Some(PaidTwice(id, h))
  {
    var one, two := Rec(id, 5, "t1", h), Rec(id, 3, "t2", h + 1);
    RecordsFirst(H, id, None, h);
    RecordsSecond(H, id, h);
    assert RecordAll(H, Origin(id, None), []) == Some(Origin(id, None));
    hide RecordAll, RecordPayment;
    RecordOneMore(H, Origin(id, None), [], one);
    assert [] + [one] == [one];
    RecordOneMore(H, Origin(id, None), [one], two);
    assert [one] + [two] == [one, two];
  }

  lemma FirstScan(w: Watch, id: Id, h: nat)
    requires w == Watch([id], [[]])
    ensures IsScan(w, OnePayment(h), h, h + 1, [Rec(id, 5, "t1", h)])
  {
    hide IsBlockMatch;
    forall r ensures IsMatchAt(w, OnePayment(h), h, r) <==> r == Rec(id, 5, "t1", h) {
      OneMatch(w, OnePayment(h), h, FIRST, id, 5, r);
    }
  }

  lemma SecondScan(w: Watch, id: Id, h: nat, n: nat)
    requires w == Watch([id], [[]]) && n == h + 1
    ensures IsScan(w, TwoPayments(h), h, h + 2, [Rec(id, 5, "t1", h), Rec(id, 3, "t2", n)])
  {
    var one, two := Rec(id, 5, "t1", h), Rec(id, 3, "t2", n);
    assert one in [one, two] && two in [one, two];
    hide IsBlockMatch;
    forall r ensures IsMatchAt(w, TwoPayments(h), h, r) <==> r == one {
      OneMatch(w, TwoPayments(h), h, FIRST, id, 5, r);
    }
    forall r ensures IsMatchAt(w, TwoPayments(h), n, r) <==> r == two {
      OneMatch(w, TwoPayments(h), n, SECOND, id, 3, r);
    }
  }

  /** The scans of one block: a complete one, one that cannot have it, and the one that resumes it after expiry. */
  function ExpiredScans(id: Id, h: nat): Scans {
    var w, one := Watch([id], [[]]), Rec(id, 5, "t1", h);
    Scans(Origin(id, Some(0)), h, h, h + 1,
      w, [one], PaidOnce(id, Some(0), h),
      w, [], Origin(id, Some(0)), 1, Expire(Origin(id, Some(0)), 1),
      Watch([], []), [], Expire(Origin(id, Some(0)), 1), 1)
  }

  /** A complete scan makes the invoice paid.  When it expires before the block can be had, nothing is recorded for it. */
  lemma StoppedScanLetsInvoiceExpire(H: Hash, addressOf: Id -> Address, id: Id, h: nat)
    requires addressOf(id) == []
    ensures var s := ExpiredScans(id, h);
      && AreScans(H, addressOf, OnePayment(h), k => None, s)
      && s.full.invoices[id].status == Paid
      && s.resumed.invoices[id].status == Expired && s.resumed.invoices[id].received == 0
  {
    OriginIsReachable(H, id, Some(0));
    ExpiredScansTo(H, addressOf, id, h);
    hide LedgerInv, ScansTo;
  }

  lemma RecordsOne(H: Hash, id: Id, h: nat)
    ensures RecordAll(H, Origin(id, Some(0)), [Rec(id, 5, "t1", h)]) == Some(PaidOnce(id, Some(0), h))
  {
    assert RecordAll(H, Origin(id, Some(0)), []) == Some(Origin(id, Some(0)));
    hide RecordAll, RecordPayment;
    RecordsFirst(H, id, Some(0), h);
    RecordOneMore(H, Origin(id, Some(0)), [], Rec(id, 5, "t1", h));
    assert [] + [Rec(id, 5, "t1", h)] == [Rec(id, 5, "t1", h)];
  }

  lemma ExpiredScansTo(H: Hash, addressOf: Id -> Address, id: Id, h: nat)
    requires addressOf(id) == []
    ensures var s := ExpiredScans(id, h);
      && ScansTo(H, s.start, addressOf, OnePayment(h), h, h + 1, s.whole, s.wholeRecs, s.full)
      && ScansTo(H, s.start, addressOf, k => None, h, h, s.part, s.partRecs, s.stopped)
      && ScansTo(H, s.middle, addressOf, OnePayment(h), h, h + 1, s.rest, s.restRecs, s.resumed)
  {
    var s := ExpiredScans(id, h);
    assert RecordAll(H, s.middle, []) == Some(s.middle) && RecordAll(H, s.start, []) == Some(s.start);
    assert IsWatch(Watch([], []), s.middle.invoices, addressOf);
    hide RecordPayment, IsWatch, IsBlockMatch;
    IsWatchOfOrigin(addressOf, id, Some(0));
    RecordsOne(H, id, h);
    hide RecordAll, IsMatchAt;
    FirstScan(s.whole, id, h);
    NoScan(OnePayment(h), h);
  }
}
