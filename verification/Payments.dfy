/**
 The payment ledger of src/db.rs, as values.  Every operation is one transaction: it returns
 the new ledger, or None when it fails and changes nothing.
 */
module Payments {
  import opened Bytes
  import opened Results
  import opened Sums
  import opened Merkle
  import opened Memo
  import opened LeafLog

  type Id = string
  type PaymentTx = string

  datatype InvoiceStatus = Pending | Partial | Paid | Expired

  datatype InvoiceType = Program | Initial | Hosting | Renewal | Other

  /**
   `month`, `year` and `renewalYear` are what the memo and the creation time of the invoice,
   neither of which ever changes, determine.
   */
  datatype Invoice = Invoice(
    amount: nat,
    invoiceType: InvoiceType,
    wallet: Option<ByteString>,
    status: InvoiceStatus,
    received: nat,
    expiresAt: Option<nat>,
    paidTx: Option<PaymentTx>,
    paidHeight: Option<nat>,
    month: nat,
    year: nat,
    renewalYear: nat)

  datatype Source = Block | Mempool | Unknown

  datatype Payment = Payment(value: nat, height: nat, source: Source)

  datatype Assignment = Assignment(wallet: ByteString, serial: ByteString)

  /** Payments are unique by invoice and transaction. */
  datatype Ledger = Ledger(
    invoices: map<Id, Invoice>,
    payments: map<Id, map<PaymentTx, Payment>>,
    miners: seq<Assignment>,
    log: Log)

  function PaymentsOf(l: Ledger, id: Id): map<PaymentTx, Payment> {
    if id in l.payments then l.payments[id] else map[]
  }

  function BlockValues(ps: map<PaymentTx, Payment>): map<PaymentTx, nat> {
    map t | t in ps && ps[t].source == Block :: ps[t].value
  }

  /** SUM(value_zat) over the block-sourced payments. */
  ghost function BlockTotal(ps: map<PaymentTx, Payment>): nat {
    SumValues(BlockValues(ps))
  }

  // ---------------------------------------------------------------------------------
  // The lifecycle leaf of an invoice
  // ---------------------------------------------------------------------------------

  /** The serial number first assigned to a wallet. */
  function FirstSerial(miners: seq<Assignment>, wallet: ByteString): Option<ByteString> {
    if miners == [] then None
    else if miners[0].wallet == wallet then Some(miners[0].serial)
    else FirstSerial(miners[1..], wallet)
  }

  datatype Lifecycle = NoLeaf | NoAssignment | Leaf(event: Event, serial: Option<ByteString>)

  function LifecycleOf(miners: seq<Assignment>, inv: Invoice): Lifecycle {
    if inv.wallet.None? then NoLeaf
    else
      var w := inv.wallet.value;
      match inv.invoiceType
      case Program => Leaf(ProgramEntry(w), None)
      case Initial => Leaf(ProgramEntry(w), None)
      case Hosting =>
        var serial := FirstSerial(miners, w);
        if serial.None? then NoAssignment else Leaf(HostingPayment(serial.value, inv.month, inv.year), serial)
      case Renewal => Leaf(ShieldRenewal(w, inv.renewalYear), None)
      case Other => NoLeaf
  }

  function LifecycleRow(H: Hash, inv: Invoice, leaf: Lifecycle): LeafRow
    requires leaf.Leaf? && inv.wallet.Some?
  {
    LeafRow(LeafHash(H, leaf.event), TypeByte(leaf.event), inv.wallet.value, leaf.serial)
  }

  /** The log with the lifecycle leaf in it; None if there is no serial or the hash is taken. */
  function EnsureLeaf(H: Hash, log: Log, miners: seq<Assignment>, inv: Invoice): Option<Log> {
    var leaf := LifecycleOf(miners, inv);
    if leaf.NoLeaf? then Some(log)
    else if leaf.NoAssignment? || !Hashable(leaf.event) then None
    else
      var row := LifecycleRow(H, inv, leaf);
      var at := IndexOf(log.leaves, row.hash);
      if at.Some? && log.leaves[at.value] != row then None
      else
        var log' := LeafInserted(H, log, row);
        Some(log'.(roots := RootsAfterCurrent(H, log')))
  }

  // ---------------------------------------------------------------------------------
  // Operations
  // ---------------------------------------------------------------------------------

  function WithLeaf(H: Hash, l: Ledger, id: Id, inv: Invoice): Option<Ledger> {
    var log := EnsureLeaf(H, l.log, l.miners, inv);
    if log.None? then None else Some(l.(invoices := l.invoices[id := inv], log := log.value))
  }

  /** `apply_confirmed_total`: the state of an invoice follows the sum of its payments. */
  ghost function ApplyTotal(H: Hash, l: Ledger, id: Id, inv: Invoice, tx: PaymentTx, height: nat): (r: Option<Ledger>)
    ensures r.Some? ==> id in r.value.invoices && r.value.invoices == l.invoices[id := r.value.invoices[id]]
    ensures r.Some? ==> r.value.payments == l.payments && r.value.miners == l.miners
  {
    var total := BlockTotal(PaymentsOf(l, id));
    if total > MAX_I64 || inv.status == Expired then None
    else if inv.status == Paid then
      if total < inv.amount then None else WithLeaf(H, l, id, inv.(received := total))
    else if total >= inv.amount then
      WithLeaf(H, l, id, inv.(received := total, status := Paid, paidTx := Some(tx), paidHeight := Some(height)))
    else
      Some(l.(invoices := l.invoices[id := inv.(received := total, status := Partial, paidTx := None, paidHeight := None)]))
  }

  function WithPayment(l: Ledger, id: Id, tx: PaymentTx, p: Payment): Ledger {
    l.(payments := l.payments[id := PaymentsOf(l, id)[tx := p]])
  }

  function Reheighted(inv: Invoice, tx: PaymentTx, height: nat): Invoice {
    if inv.status == Paid && inv.paidTx == Some(tx) then inv.(paidHeight := Some(height)) else inv
  }

  /** Recording a block-confirmed payment, new or seen before. */
  ghost function RecordPayment(H: Hash, l: Ledger, id: Id, value: nat, tx: PaymentTx, height: nat): (r: Option<Ledger>)
    ensures r.Some? ==> id in l.invoices && id in r.value.invoices
    ensures r.Some? ==> r.value.invoices == l.invoices[id := r.value.invoices[id]] && r.value.miners == l.miners
    ensures r.Some? ==> r.value.payments == WithPayment(l, id, tx, Payment(value, height, Block)).payments
  {
    if value == 0 || tx == "" || value > MAX_I64 || id !in l.invoices then None
    else
      var inv := l.invoices[id];
      var ps := PaymentsOf(l, id);
      var l' := WithPayment(l, id, tx, Payment(value, height, Block));
      if tx in ps then
        if ps[tx].value != value || ps[tx].source == Unknown then None
        else ApplyTotal(H, l', id, Reheighted(inv, tx, height), tx, height)
      else if inv.status == Expired then None
      else ApplyTotal(H, l', id, inv, tx, height)
  }

  /** Neither paid nor expired. */
  predicate IsActive(inv: Invoice) {
    inv.status == Pending || inv.status == Partial
  }

  predicate IsExpiring(inv: Invoice, now: nat) {
    inv.status == Pending && inv.expiresAt.Some? && inv.expiresAt.value < now
  }

  function Expire(l: Ledger, now: nat): Ledger {
    l.(invoices := map id | id in l.invoices ::
      if IsExpiring(l.invoices[id], now) then l.invoices[id].(status := Expired) else l.invoices[id])
  }

  /** Callers create invoices pending and unpaid. */
  predicate IsNew(inv: Invoice) {
    inv.status == Pending && inv.received == 0 && inv.paidTx.None? && inv.paidHeight.None?
  }

  function Create(l: Ledger, id: Id, inv: Invoice): Option<Ledger> {
    if id in l.invoices || !IsNew(inv) then None else Some(l.(invoices := l.invoices[id := inv]))
  }

  // ---------------------------------------------------------------------------------
  // The invariant
  // ---------------------------------------------------------------------------------

  /** The lifecycle leaf of the invoice, if it has one, is in the log. */
  ghost predicate LeafPresent(H: Hash, log: Log, miners: seq<Assignment>, inv: Invoice) {
    var leaf := LifecycleOf(miners, inv);
    leaf.NoLeaf? || (leaf.Leaf? && Hashable(leaf.event) && LifecycleRow(H, inv, leaf) in log.leaves)
  }

  ghost predicate PaymentsInv(ps: map<PaymentTx, Payment>) {
    forall t :: t in ps ==> t != "" && ps[t].source == Block && 0 < ps[t].value <= MAX_I64
  }

  ghost predicate InvoiceInv(H: Hash, log: Log, miners: seq<Assignment>, inv: Invoice, ps: map<PaymentTx, Payment>) {
    && PaymentsInv(ps)
    && inv.received == BlockTotal(ps) <= MAX_I64
    && match inv.status
       case Pending => ps == map[] && inv.paidTx.None?
       case Expired => ps == map[] && inv.paidTx.None?
       case Partial => 0 < inv.received < inv.amount && inv.paidTx.None? && inv.paidHeight.None?
       case Paid =>
         && inv.received >= inv.amount
         && inv.paidTx.Some? && inv.paidTx.value in ps
         && inv.paidHeight == Some(ps[inv.paidTx.value].height)
         && LeafPresent(H, log, miners, inv)
  }

  ghost predicate LedgerInv(H: Hash, l: Ledger) {
    && LogInv(H, l.log)
    && (forall id :: id in l.payments ==> id in l.invoices)
    && (forall id :: id in l.invoices ==> InvoiceInv(H, l.log, l.miners, l.invoices[id], PaymentsOf(l, id)))
  }

  // ---------------------------------------------------------------------------------
  // The lifecycle leaf, type by type
  // ---------------------------------------------------------------------------------

  /** Assignment k is the first one of this wallet. */
  predicate IsFirstAssignment(miners: seq<Assignment>, wallet: ByteString, k: nat) {
    k < |miners| && miners[k].wallet == wallet && forall j :: 0 <= j < k ==> miners[j].wallet != wallet
  }

  /**
   The event that a paid invoice owes, and its row: the entry of a program, the renewal of the wallet
   and year, or the payment for the machine first assigned to the wallet.
   */
  ghost predicate IsOwed(H: Hash, miners: seq<Assignment>, inv: Invoice, e: Event, row: LeafRow) {
    match inv.wallet
    case None => false
    case Some(w) =>
      match inv.invoiceType
      case Program => e == ProgramEntry(w) && row == LeafRow(LeafHash(H, e), 0x01, w, None)
      case Initial => e == ProgramEntry(w) && row == LeafRow(LeafHash(H, e), 0x01, w, None)
      case Hosting =>
        exists k: nat :: IsFirstAssignment(miners, w, k)
          && e == HostingPayment(miners[k].serial, inv.month, inv.year)
          && row == LeafRow(LeafHash(H, e), 0x05, w, Some(miners[k].serial))
      case Renewal => e == ShieldRenewal(w, inv.renewalYear) && row == LeafRow(LeafHash(H, e), 0x06, w, None)
      case Other => false
  }

  /** An invoice without a wallet, or of any other type, owes none. */
  predicate OwesNoLeaf(inv: Invoice) {
    inv.wallet.None? || inv.invoiceType == Other
  }

  lemma {:induction false} FirstSerialIs(miners: seq<Assignment>, wallet: ByteString)
    ensures FirstSerial(miners, wallet).Some? ==>
      exists k: nat :: IsFirstAssignment(miners, wallet, k) && miners[k].serial == FirstSerial(miners, wallet).value
    ensures FirstSerial(miners, wallet).None? <==> forall k :: 0 <= k < |miners| ==> miners[k].wallet != wallet
  {
    if miners != [] && miners[0].wallet != wallet {
      FirstSerialIs(miners[1..], wallet);
      if FirstSerial(miners, wallet).Some? {
        var k: nat :| IsFirstAssignment(miners[1..], wallet, k) && miners[1..][k].serial == FirstSerial(miners, wallet).value;
        assert forall j :: 0 < j < k + 1 ==> miners[j] == miners[1..][j - 1];
        assert IsFirstAssignment(miners, wallet, k + 1);
      } else {
        assert forall k :: 0 < k < |miners| ==> miners[k] == miners[1..][k - 1];
      }
    } else if miners != [] {
      assert IsFirstAssignment(miners, wallet, 0);
    }
  }

  ghost predicate HasItsLeaf(H: Hash, leaves: seq<LeafRow>, miners: seq<Assignment>, inv: Invoice) {
    OwesNoLeaf(inv) || exists e, row :: IsOwed(H, miners, inv, e, row) && row in leaves
  }

  lemma OwedIs(H: Hash, miners: seq<Assignment>, inv: Invoice)
    ensures var leaf := LifecycleOf(miners, inv);
      && (leaf.NoLeaf? <==> OwesNoLeaf(inv))
      && forall e, row ::
        IsOwed(H, miners, inv, e, row) <==> (leaf.Leaf? && e == leaf.event && row == LifecycleRow(H, inv, leaf))
  {
    hide LeafHash, FirstSerial;
    if inv.wallet.Some? && inv.invoiceType == Hosting {
      FirstSerialIs(miners, inv.wallet.value);
    }
  }

  lemma PresentIsOwed(H: Hash, log: Log, miners: seq<Assignment>, inv: Invoice)
    requires LeafPresent(H, log, miners, inv)
    ensures HasItsLeaf(H, log.leaves, miners, inv)
  {
    OwedIs(H, miners, inv);
    hide IsOwed, LifecycleRow, Hashable;
    var leaf := LifecycleOf(miners, inv);
    if leaf.Leaf? {
      assert IsOwed(H, miners, inv, leaf.event, LifecycleRow(H, inv, leaf));
    }
  }

  /** The hash of the row stands for no other row of the log. */
  predicate IsHashOf(leaves: seq<LeafRow>, row: LeafRow) {
    forall i :: 0 <= i < |leaves| && leaves[i].hash == row.hash ==> leaves[i] == row
  }

  /** The leaf that is owed can be hashed, and its hash stands for no other row. */
  ghost predicate CanBeMade(H: Hash, leaves: seq<LeafRow>, miners: seq<Assignment>, inv: Invoice) {
    OwesNoLeaf(inv) || exists e, row :: IsOwed(H, miners, inv, e, row) && IsAdmitted(e) && IsHashOf(leaves, row)
  }

  /** At most one row more. */
  ghost predicate AddsAtMostOne(leaves: seq<LeafRow>, leaves': seq<LeafRow>) {
    leaves' == leaves || (|leaves'| == |leaves| + 1 && leaves'[..|leaves|] == leaves)
  }

  /**
   Ensuring the leaf succeeds exactly when the leaf that is owed can be made; then it is in the log,
   and no other was added, nor any when it was there or none is owed.
   */
  lemma EnsureLeafIs(H: Hash, log: Log, miners: seq<Assignment>, inv: Invoice)
    requires DistinctLeaves(log.leaves)
    ensures EnsureLeaf(H, log, miners, inv).Some? <==> CanBeMade(H, log.leaves, miners, inv)
    ensures EnsureLeaf(H, log, miners, inv).Some? ==>
      var leaves' := EnsureLeaf(H, log, miners, inv).value.leaves;
      && HasItsLeaf(H, leaves', miners, inv) && AddsAtMostOne(log.leaves, leaves')
      && (HasItsLeaf(H, log.leaves, miners, inv) ==> leaves' == log.leaves)
  {
    OwedIs(H, miners, inv);
    var leaf := LifecycleOf(miners, inv);
    hide RootOf, LeafHash, FirstSerial, IsOwed, LifecycleOf, LifecycleRow, Hashable, IsAdmitted;
    if leaf.Leaf? {
      var row := LifecycleRow(H, inv, leaf);
      var log' := LeafInserted(H, log, row);
      HashableIffAdmitted(leaf.event);
      assert IsOwed(H, miners, inv, leaf.event, row);
      if IndexOf(log.leaves, row.hash).None? {
        assert log'.leaves[|log.leaves|] == row;
      }
    }
  }

  /** What ensuring a leaf comes to: it succeeds when the leaf can be made, and then the leaf is there. */
  ghost predicate IsEnsured(H: Hash, log: Log, miners: seq<Assignment>, inv: Invoice, r: Option<Log>) {
    DistinctLeaves(log.leaves) ==>
      && (r.Some? <==> CanBeMade(H, log.leaves, miners, inv))
      && (r.Some? ==> HasItsLeaf(H, r.value.leaves, miners, inv) && AddsAtMostOne(log.leaves, r.value.leaves))
  }

  lemma EnsuredIs(H: Hash, log: Log, miners: seq<Assignment>, inv: Invoice)
    ensures IsEnsured(H, log, miners, inv, EnsureLeaf(H, log, miners, inv))
  {
    if DistinctLeaves(log.leaves) {
      EnsureLeafIs(H, log, miners, inv);
    }
    hide CanBeMade, HasItsLeaf, EnsureLeaf;
  }

  lemma FirstSerialIsKept(miners: seq<Assignment>, a: Assignment, wallet: ByteString)
    requires FirstSerial(miners, wallet).Some?
    ensures FirstSerial(miners + [a], wallet) == FirstSerial(miners, wallet)
  {
    if miners[0].wallet != wallet {
      FirstSerialIsKept(miners[1..], a, wallet);
      assert (miners + [a])[1..] == miners[1..] + [a];
    }
  }

  lemma IndexOfMember(leaves: seq<LeafRow>, row: LeafRow)
    requires DistinctLeaves(leaves) && row in leaves
    ensures IndexOf(leaves, row.hash).Some? && leaves[IndexOf(leaves, row.hash).value] == row
  {
    var k :| 0 <= k < |leaves| && leaves[k] == row;
  }

  /** Ensuring the leaf adds at most that leaf, keeps the log invariant, and puts it there. */
  lemma EnsureLeafEnsures(H: Hash, log: Log, miners: seq<Assignment>, inv: Invoice)
    requires LogInv(H, log) && EnsureLeaf(H, log, miners, inv).Some?
    ensures var log' := EnsureLeaf(H, log, miners, inv).value;
      && LogInv(H, log') && LeafPresent(H, log', miners, inv)
      && (forall row :: row in log.leaves ==> row in log'.leaves)
  {
    var leaf := LifecycleOf(miners, inv);
    if leaf.Leaf? {
      var row := LifecycleRow(H, inv, leaf);
      var log' := LeafInserted(H, log, row);
      InsertKeepsLogInv(H, log, row);
      CurrentRootIsLast(H, log');
      if IndexOf(log.leaves, row.hash).Some? {
        assert row in log.leaves;
      } else {
        assert log'.leaves[|log.leaves|] == row;
      }
    }
  }

  /** A leaf that is present is not added again. */
  lemma EnsureLeafTwice(H: Hash, log: Log, miners: seq<Assignment>, inv: Invoice)
    requires LogInv(H, log) && LeafPresent(H, log, miners, inv)
    ensures EnsureLeaf(H, log, miners, inv) == Some(log)
  {
    var leaf := LifecycleOf(miners, inv);
    if leaf.Leaf? {
      IndexOfMember(log.leaves, LifecycleRow(H, inv, leaf));
      CurrentRootIsLast(H, log);
    }
  }

  lemma BlockTotalWith(ps: map<PaymentTx, Payment>, tx: PaymentTx, p: Payment)
    requires tx !in ps && p.source == Block
    ensures BlockTotal(ps[tx := p]) == BlockTotal(ps) + p.value
  {
    SumWith(BlockValues(ps), tx, p.value);
    assert BlockValues(ps[tx := p]) == BlockValues(ps)[tx := p.value];
  }

  /** Recording a payment again changes its height and nothing else. */
  lemma BlockTotalAgain(ps: map<PaymentTx, Payment>, tx: PaymentTx, height: nat)
    requires tx in ps && ps[tx].source == Block
    ensures BlockTotal(ps[tx := ps[tx].(height := height)]) == BlockTotal(ps)
  {
    assert BlockValues(ps[tx := ps[tx].(height := height)]) == BlockValues(ps);
  }

  /** What was not seen in a block does not count. */
  lemma OthersDoNotCount(ps: map<PaymentTx, Payment>, tx: PaymentTx, p: Payment)
    requires tx !in ps && p.source != Block
    ensures BlockTotal(ps[tx := p]) == BlockTotal(ps)
  {
    assert BlockValues(ps[tx := p]) == BlockValues(ps);
  }

  lemma BlockTotalOfNone()
    ensures BlockTotal(map[]) == 0
  {
    assert BlockValues(map[]) == map[];
  }

  /** An invoice that is not the one worked on keeps its invariant when the log only grows. */
  lemma OtherInvoiceKept(
    H: Hash, log: Log, log': Log, miners: seq<Assignment>, inv: Invoice, ps: map<PaymentTx, Payment>)
    requires InvoiceInv(H, log, miners, inv, ps) && forall row :: row in log.leaves ==> row in log'.leaves
    ensures InvoiceInv(H, log', miners, inv, ps)
  {}

  /** What `ApplyTotal` does to the invoice, given the payments after recording. */
  lemma ApplyTotalInvoice(H: Hash, l: Ledger, id: Id, inv: Invoice, tx: PaymentTx, height: nat)
    requires LogInv(H, l.log) && ApplyTotal(H, l, id, inv, tx, height).Some?
    requires PaymentsInv(PaymentsOf(l, id)) && tx in PaymentsOf(l, id) && PaymentsOf(l, id)[tx].height == height
    requires inv.status == Paid ==> inv.paidTx.Some? && inv.paidTx.value in PaymentsOf(l, id)
    requires inv.status == Paid ==> inv.paidHeight == Some(PaymentsOf(l, id)[inv.paidTx.value].height)
    ensures var l' := ApplyTotal(H, l, id, inv, tx, height).value;
      && LogInv(H, l'.log) && (forall row :: row in l.log.leaves ==> row in l'.log.leaves)
      && InvoiceInv(H, l'.log, l'.miners, l'.invoices[id], PaymentsOf(l, id))
  {
    var ps := PaymentsOf(l, id);
    SumWithout(BlockValues(ps), tx);
    var l' := ApplyTotal(H, l, id, inv, tx, height).value;
    if l'.invoices[id].status == Paid {
      EnsureLeafEnsures(H, l.log, l.miners, l'.invoices[id]);
    }
  }

  /** The payments of the invoice after recording one, whether it is new or seen before. */
  lemma PaymentsAfter(l: Ledger, id: Id, tx: PaymentTx, p: Payment)
    requires PaymentsInv(PaymentsOf(l, id)) && tx != "" && p.source == Block && 0 < p.value <= MAX_I64
    ensures var l' := WithPayment(l, id, tx, p);
      && PaymentsInv(PaymentsOf(l', id)) && PaymentsOf(l', id) == PaymentsOf(l, id)[tx := p]
      && forall j :: j != id ==> PaymentsOf(l', j) == PaymentsOf(l, j)
  {}

  /** What recording does to the invoice it is for, and to the log. */
  lemma RecordPaymentInvoice(H: Hash, l: Ledger, id: Id, value: nat, tx: PaymentTx, height: nat)
    requires LogInv(H, l.log) && RecordPayment(H, l, id, value, tx, height).Some?
    requires InvoiceInv(H, l.log, l.miners, l.invoices[id], PaymentsOf(l, id))
    ensures var l' := RecordPayment(H, l, id, value, tx, height).value;
      && LogInv(H, l'.log) && (forall row :: row in l.log.leaves ==> row in l'.log.leaves)
      && InvoiceInv(H, l'.log, l'.miners, l'.invoices[id], PaymentsOf(l', id))
  {
    var inv, p := l.invoices[id], Payment(value, height, Block);
    PaymentsAfter(l, id, tx, p);
    ApplyTotalInvoice(H, WithPayment(l, id, tx, p), id,
      if tx in PaymentsOf(l, id) then Reheighted(inv, tx, height) else inv, tx, height);
  }

  lemma RecordPaymentKeeps(H: Hash, l: Ledger, id: Id, value: nat, tx: PaymentTx, height: nat)
    requires LedgerInv(H, l) && RecordPayment(H, l, id, value, tx, height).Some?
    ensures LedgerInv(H, RecordPayment(H, l, id, value, tx, height).value)
  {
    var l' := RecordPayment(H, l, id, value, tx, height).value;
    assert InvoiceInv(H, l.log, l.miners, l.invoices[id], PaymentsOf(l, id));
    RecordPaymentInvoice(H, l, id, value, tx, height);
    forall j | j in l'.invoices ensures InvoiceInv(H, l'.log, l'.miners, l'.invoices[j], PaymentsOf(l', j)) {
      if j != id {
        OtherInvoiceKept(H, l.log, l'.log, l.miners, l.invoices[j], PaymentsOf(l, j));
      }
    }
  }

  /**
   Rows of earlier versions: a payment that was stored from the mempool is confirmed as if it had been
   stored from a block, and one of unknown source is refused.
   */
  lemma LegacyRowIsPromoted(H: Hash, l: Ledger, id: Id, value: nat, tx: PaymentTx, height: nat)
    requires tx in PaymentsOf(l, id)
    ensures var ps := PaymentsOf(l, id);
      && (ps[tx].source == Mempool ==>
        RecordPayment(H, l, id, value, tx, height)
        == RecordPayment(H, WithPayment(l, id, tx, ps[tx].(source := Block)), id, value, tx, height))
      && (ps[tx].source == Unknown ==> RecordPayment(H, l, id, value, tx, height).None?)
  {
    var ps, p := PaymentsOf(l, id), Payment(value, height, Block);
    var promoted := WithPayment(l, id, tx, ps[tx].(source := Block));
    assert PaymentsOf(promoted, id)[tx := p] == ps[tx := p];
    assert WithPayment(promoted, id, tx, p) == WithPayment(l, id, tx, p);
  }

  /**
   At-least-once replay is harmless: a payment that is recorded at a height, recorded again,
   leaves the whole ledger as it is.
   */
  lemma ReplayChangesNothing(H: Hash, l: Ledger, id: Id, tx: PaymentTx)
    requires LedgerInv(H, l) && id in l.invoices && tx in PaymentsOf(l, id)
    ensures var p := PaymentsOf(l, id)[tx]; RecordPayment(H, l, id, p.value, tx, p.height) == Some(l)
  {
    var inv, ps := l.invoices[id], PaymentsOf(l, id);
    var p := ps[tx];
    assert InvoiceInv(H, l.log, l.miners, inv, ps);
    assert ps[tx := Payment(p.value, p.height, Block)] == ps;
    assert WithPayment(l, id, tx, Payment(p.value, p.height, Block)) == l;
    if inv.status == Paid {
      EnsureLeafTwice(H, l.log, l.miners, inv);
    }
    assert l.invoices[id := inv] == l.invoices;
  }
}
