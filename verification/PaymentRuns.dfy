/**
 The payment ledger over whole runs: what every reachable ledger satisfies, what never goes
 back, and why the outcome does not depend on the order or the repetition of confirmations.

 Runs start from an empty database, without the payment rows of earlier versions.
 */
module PaymentRuns {
  import opened Bytes
  import opened Results
  import opened Sums
  import opened Merkle
  import opened Memo
  import opened LeafLog
  import opened Payments

  datatype Operation =
    | CreateInvoice(id: Id, invoice: Invoice)
    | Confirm(id: Id, value: nat, tx: PaymentTx, height: nat)
    | ExpireOld(now: nat)
    | Assign(assignment: Assignment)
    | InsertLeaf(row: LeafRow)

  /** A failed operation changes nothing. */
  ghost function Next(H: Hash, l: Ledger, op: Operation): (l': Ledger)
    ensures l.invoices.Keys <= l'.invoices.Keys
  {
    match op
    case CreateInvoice(id, invoice) => OrElse(Create(l, id, invoice), l)
    case Confirm(id, value, tx, height) => OrElse(RecordPayment(H, l, id, value, tx, height), l)
    case ExpireOld(now) => Expire(l, now)
    case Assign(a) => l.(miners := l.miners + [a])
    case InsertLeaf(row) => l.(log := LeafInserted(H, l.log, row))
  }

  function OrElse(r: Option<Ledger>, l: Ledger): Ledger {
    if r.Some? then r.value else l
  }

  const EMPTY := Ledger(map[], map[], [], Log([], []))

  ghost function Run(H: Hash, ops: seq<Operation>): Ledger {
    if ops == [] then EMPTY else Next(H, Run(H, ops[..|ops| - 1]), ops[|ops| - 1])
  }

  lemma CreateKeeps(H: Hash, l: Ledger, id: Id, inv: Invoice)
    requires LedgerInv(H, l) && Create(l, id, inv).Some?
    ensures LedgerInv(H, Create(l, id, inv).value)
  {
    BlockTotalOfNone();
    var l' := Create(l, id, inv).value;
    forall j | j in l'.invoices ensures InvoiceInv(H, l'.log, l'.miners, l'.invoices[j], PaymentsOf(l', j)) {
      if j != id {
        assert InvoiceInv(H, l.log, l.miners, l.invoices[j], PaymentsOf(l, j));
      }
    }
  }

  lemma ExpireKeeps(H: Hash, l: Ledger, now: nat)
    requires LedgerInv(H, l)
    ensures LedgerInv(H, Expire(l, now))
  {
    var l' := Expire(l, now);
    forall j | j in l'.invoices ensures InvoiceInv(H, l'.log, l'.miners, l'.invoices[j], PaymentsOf(l', j)) {
      assert InvoiceInv(H, l.log, l.miners, l.invoices[j], PaymentsOf(l, j));
    }
  }

  lemma AssignKeeps(H: Hash, l: Ledger, a: Assignment)
    requires LedgerInv(H, l)
    ensures LedgerInv(H, l.(miners := l.miners + [a]))
  {
    var l' := l.(miners := l.miners + [a]);
    forall j | j in l'.invoices ensures InvoiceInv(H, l'.log, l'.miners, l'.invoices[j], PaymentsOf(l', j)) {
      var inv := l.invoices[j];
      assert InvoiceInv(H, l.log, l.miners, inv, PaymentsOf(l, j));
      if inv.wallet.Some? && FirstSerial(l.miners, inv.wallet.value).Some? {
        FirstSerialIsKept(l.miners, a, inv.wallet.value);
      }
    }
  }

  lemma InsertLeafKeeps(H: Hash, l: Ledger, row: LeafRow)
    requires LedgerInv(H, l)
    ensures LedgerInv(H, l.(log := LeafInserted(H, l.log, row)))
  {
    InsertKeepsLogInv(H, l.log, row);
    var l' := l.(log := LeafInserted(H, l.log, row));
    forall j | j in l'.invoices ensures InvoiceInv(H, l'.log, l'.miners, l'.invoices[j], PaymentsOf(l', j)) {
      OtherInvoiceKept(H, l.log, l'.log, l.miners, l.invoices[j], PaymentsOf(l, j));
    }
  }

  lemma NextKeeps(H: Hash, l: Ledger, op: Operation)
    requires LedgerInv(H, l)
    ensures LedgerInv(H, Next(H, l, op))
  {
    match op {
      case CreateInvoice(id, invoice) =>
        if Create(l, id, invoice).Some? {
          CreateKeeps(H, l, id, invoice);
        }
      case Confirm(id, value, tx, height) =>
        if RecordPayment(H, l, id, value, tx, height).Some? {
          RecordPaymentKeeps(H, l, id, value, tx, height);
        }
      case ExpireOld(now) => ExpireKeeps(H, l, now);
      case Assign(a) => AssignKeeps(H, l, a);
      case InsertLeaf(row) => InsertLeafKeeps(H, l, row);
    }
  }

  /**
   Every reachable ledger: the received amount is the sum of the block payments; pending and
   expired invoices have none; a partial one has received some but not enough; a paid one has
   received enough, names one of its payments, and has its lifecycle leaf in the log.
   */
  lemma {:induction false} RunInv(H: Hash, ops: seq<Operation>)
    ensures LedgerInv(H, Run(H, ops))
  {
    if ops != [] {
      RunInv(H, ops[..|ops| - 1]);
      NextKeeps(H, Run(H, ops[..|ops| - 1]), ops[|ops| - 1]);
    }
  }

  /** How one invoice may develop: paid is final, and names the same transaction for good. */
  ghost predicate Develops(inv: Invoice, inv': Invoice) {
    && inv'.amount == inv.amount && inv'.invoiceType == inv.invoiceType && inv'.wallet == inv.wallet
    && inv'.received >= inv.received
    && (inv.status == Paid ==> inv'.status == Paid && inv'.paidTx == inv.paidTx)
    && (inv.status == Expired ==> inv' == inv)
    && (inv.status == Partial ==> inv'.status == Partial || inv'.status == Paid)
  }

  /** No payment is lost, and none changes its value. */
  ghost predicate PaymentsKept(ps: map<PaymentTx, Payment>, ps': map<PaymentTx, Payment>) {
    forall t :: t in ps ==> t in ps' && ps'[t].value == ps[t].value
  }

  lemma ApplyTotalDevelops(H: Hash, l: Ledger, id: Id, inv: Invoice, tx: PaymentTx, height: nat)
    requires inv.received <= BlockTotal(PaymentsOf(l, id)) && ApplyTotal(H, l, id, inv, tx, height).Some?
    ensures Develops(inv, ApplyTotal(H, l, id, inv, tx, height).value.invoices[id])
  {}

  lemma ReheightedDevelops(inv: Invoice, tx: PaymentTx, height: nat, inv': Invoice)
    requires Develops(Reheighted(inv, tx, height), inv')
    ensures Develops(inv, inv')
  {}

  /** The block total never falls: a payment is new, or was counted already. */
  lemma BlockTotalGrows(ps: map<PaymentTx, Payment>, tx: PaymentTx, p: Payment)
    requires p.source == Block
    requires tx in ps ==> ps[tx].source == Block && ps[tx].value == p.value
    ensures BlockTotal(ps[tx := p]) >= BlockTotal(ps) && PaymentsKept(ps, ps[tx := p])
  {
    if tx in ps {
      BlockTotalAgain(ps, tx, p.height);
      assert ps[tx].(height := p.height) == p;
    } else {
      BlockTotalWith(ps, tx, p);
    }
  }

  lemma RecordedInvoiceDevelops(H: Hash, l: Ledger, id: Id, value: nat, tx: PaymentTx, height: nat)
    requires RecordPayment(H, l, id, value, tx, height).Some?
    requires InvoiceInv(H, l.log, l.miners, l.invoices[id], PaymentsOf(l, id))
    ensures var l' := RecordPayment(H, l, id, value, tx, height).value;
      Develops(l.invoices[id], l'.invoices[id]) && PaymentsKept(PaymentsOf(l, id), PaymentsOf(l', id))
  {
    var inv, ps, p := l.invoices[id], PaymentsOf(l, id), Payment(value, height, Block);
    PaymentsAfter(l, id, tx, p);
    BlockTotalGrows(ps, tx, p);
    var inv' := if tx in ps then Reheighted(inv, tx, height) else inv;
    ApplyTotalDevelops(H, WithPayment(l, id, tx, p), id, inv', tx, height);
    if tx in ps {
      ReheightedDevelops(inv, tx, height, RecordPayment(H, l, id, value, tx, height).value.invoices[id]);
    }
  }

  lemma RecordPaymentDevelops(H: Hash, l: Ledger, id: Id, value: nat, tx: PaymentTx, height: nat, j: Id)
    requires LedgerInv(H, l) && RecordPayment(H, l, id, value, tx, height).Some? && j in l.invoices
    ensures var l' := RecordPayment(H, l, id, value, tx, height).value;
      && j in l'.invoices && Develops(l.invoices[j], l'.invoices[j])
      && PaymentsKept(PaymentsOf(l, j), PaymentsOf(l', j))
  {
    assert InvoiceInv(H, l.log, l.miners, l.invoices[j], PaymentsOf(l, j));
    if j == id {
      RecordedInvoiceDevelops(H, l, id, value, tx, height);
    }
  }

  lemma NextDevelops(H: Hash, l: Ledger, op: Operation, j: Id)
    requires LedgerInv(H, l) && j in l.invoices
    ensures var l' := Next(H, l, op);
      Develops(l.invoices[j], l'.invoices[j]) && PaymentsKept(PaymentsOf(l, j), PaymentsOf(l', j))
  {
    if op.Confirm? && RecordPayment(H, l, op.id, op.value, op.tx, op.height).Some? {
      RecordPaymentDevelops(H, l, op.id, op.value, op.tx, op.height, j);
    }
  }

  /** From any point of a run on, every invoice only develops and no payment is lost. */
  lemma {:induction false} RunDevelops(H: Hash, ops: seq<Operation>, m: nat, j: Id)
    requires m <= |ops| && j in Run(H, ops[..m]).invoices
    ensures j in Run(H, ops).invoices && Develops(Run(H, ops[..m]).invoices[j], Run(H, ops).invoices[j])
    ensures PaymentsKept(PaymentsOf(Run(H, ops[..m]), j), PaymentsOf(Run(H, ops), j))
  {
    if m == |ops| {
      assert ops[..m] == ops;
    } else {
      var front, op := ops[..|ops| - 1], ops[|ops| - 1];
      assert front[..m] == ops[..m];
      RunDevelops(H, front, m, j);
      RunInv(H, front);
      NextDevelops(H, Run(H, front), op, j);
    }
  }

  /** No paid program invoice lacks its entry leaf: the list that the scanner repairs is empty. */
  lemma NoPaidProgramWithoutEntry(H: Hash, ops: seq<Operation>, id: Id)
    requires id in Run(H, ops).invoices
    requires var inv := Run(H, ops).invoices[id];
      inv.status == Paid && inv.wallet.Some? && (inv.invoiceType == Program || inv.invoiceType == Initial)
    ensures var inv := Run(H, ops).invoices[id];
      exists row :: row in Run(H, ops).log.leaves
        && row.eventType == TypeByte(ProgramEntry(inv.wallet.value)) && row.wallet == inv.wallet.value && row.serial.None?
  {
    RunInv(H, ops);
    var l := Run(H, ops);
    var inv := l.invoices[id];
    assert InvoiceInv(H, l.log, l.miners, inv, PaymentsOf(l, id));
    assert LifecycleRow(H, inv, LifecycleOf(l.miners, inv)) in l.log.leaves;
  }

  /**
   The leaf of every paid invoice is in the log, in every reachable ledger: the entry of its wallet,
   the payment for the machine first assigned to it, or its renewal of the year.
   */
  lemma PaidInvoiceHasItsLeaf(H: Hash, ops: seq<Operation>, id: Id, w: ByteString)
    requires id in Run(H, ops).invoices && Run(H, ops).invoices[id].status == Paid
    requires Run(H, ops).invoices[id].wallet == Some(w)
    ensures var l := Run(H, ops);
      var inv := l.invoices[id];
      && (inv.invoiceType == Program || inv.invoiceType == Initial ==>
        LeafRow(LeafHash(H, ProgramEntry(w)), 0x01, w, None) in l.log.leaves)
      && (inv.invoiceType == Renewal ==>
        LeafRow(LeafHash(H, ShieldRenewal(w, inv.renewalYear)), 0x06, w, None) in l.log.leaves)
      && (inv.invoiceType == Hosting ==>
        exists k :: 0 <= k < |l.miners| && l.miners[k].wallet == w && (forall j :: 0 <= j < k ==> l.miners[j].wallet != w)
          && LeafRow(LeafHash(H, HostingPayment(l.miners[k].serial, inv.month, inv.year)), 0x05, w, Some(l.miners[k].serial))
            in l.log.leaves)
  {
    RunInv(H, ops);
    var l := Run(H, ops);
    PaidHasLeaf(H, l, id);
    PresentIsOwed(H, l.log, l.miners, l.invoices[id]);
    hide Run, LeafHash, LedgerInv, LeafPresent;
  }

  /**
   What a confirmation does to the log: at most the leaf that its invoice owes is added, when the
   invoice is paid with it, and none for an invoice without a wallet or of another type.
   */
  lemma ConfirmAddsItsLeaf(H: Hash, l: Ledger, id: Id, value: nat, tx: PaymentTx, height: nat)
    requires LedgerInv(H, l) && id in l.invoices
    ensures var l' := Next(H, l, Confirm(id, value, tx, height));
      && AddsAtMostOne(l.log.leaves, l'.log.leaves)
      && (l'.log.leaves != l.log.leaves ==>
        && !OwesNoLeaf(l.invoices[id]) && l'.invoices[id].status == Paid
        && HasItsLeaf(H, l'.log.leaves, l.miners, l.invoices[id])
        && !HasItsLeaf(H, l.log.leaves, l.miners, l.invoices[id]))
  {
    var inv := l.invoices[id];
    EnsureLeafIs(H, l.log, l.miners, inv);
    LogAfterConfirm(H, l, id, value, tx, height);
    hide Next, LedgerInv, EnsureLeaf, HasItsLeaf, CanBeMade, LogInv, DistinctLeaves;
    if OwesNoLeaf(inv) {
      NothingOwed(H, l.log.leaves, l.miners, inv);
    }
  }

  /** The log is as it was, or with the leaf ensured. */
  lemma LogAfterConfirm(H: Hash, l: Ledger, id: Id, value: nat, tx: PaymentTx, height: nat)
    requires id in l.invoices
    ensures var l' := Next(H, l, Confirm(id, value, tx, height));
      l'.log == l.log
      || (l'.invoices[id].status == Paid && EnsureLeaf(H, l.log, l.miners, l.invoices[id]) == Some(l'.log))
  {
    hide EnsureLeaf, BlockTotal;
    if RecordPayment(H, l, id, value, tx, height).Some? {
      var inv := l.invoices[id];
      forall x | SameTerms(inv, x) ensures EnsureLeaf(H, l.log, l.miners, x) == EnsureLeaf(H, l.log, l.miners, inv) {
        EnsureLeafIgnoresProgress(H, l.log, l.miners, x, inv);
      }
    }
  }

  lemma NothingOwed(H: Hash, leaves: seq<LeafRow>, miners: seq<Assignment>, inv: Invoice)
    requires OwesNoLeaf(inv)
    ensures HasItsLeaf(H, leaves, miners, inv)
  {}

  // ---------------------------------------------------------------------------------
  // Confluence
  // ---------------------------------------------------------------------------------

  /** One confirmation as the scanner sees it. */
  datatype Confirmation = Confirmation(tx: PaymentTx, value: nat, height: nat)

  /** Applies confirmations in order; None if one of them fails. */
  ghost function ApplyAll(H: Hash, l: Ledger, id: Id, cs: seq<Confirmation>): (r: Option<Ledger>)
    ensures r.Some? ==> r.value.invoices.Keys == l.invoices.Keys
  {
    if cs == [] then Some(l)
    else
      var front := ApplyAll(H, l, id, cs[..|cs| - 1]);
      var c := cs[|cs| - 1];
      if front.None? then None else RecordPayment(H, front.value, id, c.value, c.tx, c.height)
  }

  predicate Consistent(cs: seq<Confirmation>) {
    forall c, d :: c in cs && d in cs && c.tx == d.tx ==> c.value == d.value
  }

  predicate Valid(cs: seq<Confirmation>) {
    forall c :: c in cs ==> c.tx != "" && c.value > 0
  }

  /** The set of confirmations, without their order, their heights and their repetitions. */
  function Pairs(cs: seq<Confirmation>): set<(PaymentTx, nat)> {
    set c | c in cs :: (c.tx, c.value)
  }

  /** The transactions seen, with their values. */
  function Seen(cs: seq<Confirmation>): map<PaymentTx, nat> {
    if cs == [] then map[] else Seen(cs[..|cs| - 1])[cs[|cs| - 1].tx := cs[|cs| - 1].value]
  }

  lemma {:induction false} SeenIs(cs: seq<Confirmation>)
    requires Consistent(cs)
    ensures forall c :: c in cs ==> c.tx in Seen(cs) && Seen(cs)[c.tx] == c.value
    ensures forall t :: t in Seen(cs) ==> (t, Seen(cs)[t]) in Pairs(cs)
  {
    if cs != [] {
      var front, last := cs[..|cs| - 1], cs[|cs| - 1];
      assert cs == front + [last];
      assert forall c :: c in front ==> c in cs;
      SeenIs(front);
      forall t | t in Seen(cs) ensures (t, Seen(cs)[t]) in Pairs(cs) {
        if t != last.tx {
          assert (t, Seen(front)[t]) in Pairs(front);
        }
      }
    }
  }

  lemma SeenDependsOnPairs(cs: seq<Confirmation>, ds: seq<Confirmation>)
    requires Consistent(cs) && Pairs(cs) == Pairs(ds)
    ensures Consistent(ds) && Seen(cs) == Seen(ds)
  {
    forall c, d | c in ds && d in ds && c.tx == d.tx ensures c.value == d.value {
      assert (c.tx, c.value) in Pairs(ds) && (d.tx, d.value) in Pairs(ds);
    }
    SeenIs(cs);
    SeenIs(ds);
    SeenIsPart(cs, ds);
    SeenIsPart(ds, cs);
  }

  lemma SeenIsPart(cs: seq<Confirmation>, ds: seq<Confirmation>)
    requires Consistent(cs) && Consistent(ds) && Pairs(cs) <= Pairs(ds)
    ensures forall t :: t in Seen(cs) ==> t in Seen(ds) && Seen(ds)[t] == Seen(cs)[t]
  {
    SeenIs(cs);
    SeenIs(ds);
    forall t | t in Seen(cs) ensures t in Seen(ds) && Seen(ds)[t] == Seen(cs)[t] {
      assert (t, Seen(cs)[t]) in Pairs(ds);
    }
  }

  /** An invoice without the transaction that paid it, which does depend on the order. */
  function Anonymous(inv: Invoice): Invoice {
    inv.(paidTx := None, paidHeight := None)
  }

  /** The log after confirmations of this total. */
  function OutcomeLog(H: Hash, l: Ledger, inv: Invoice, total: nat): Option<Log> {
    if total >= inv.amount then EnsureLeaf(H, l.log, l.miners, inv) else Some(l.log)
  }

  /** The ledger after some confirmations, as a function of the transactions seen. */
  ghost predicate IsAfter(H: Hash, l: Ledger, id: Id, seen: map<PaymentTx, nat>, l': Ledger) {
    && id in l.invoices && id in l'.invoices
    && l'.miners == l.miners
    && BlockValues(PaymentsOf(l', id)) == seen
    && var inv := l.invoices[id];
    var total := SumValues(seen);
    if seen == map[] then l' == l
    else
      && Anonymous(l'.invoices[id])
         == Anonymous(inv).(received := total, status := if total >= inv.amount then Paid else Partial)
      && OutcomeLog(H, l, inv, total) == Some(l'.log)
  }

  /** Everything that the lifecycle leaf of an invoice depends on. */
  predicate SameTerms(a: Invoice, b: Invoice) {
    && a.wallet == b.wallet && a.invoiceType == b.invoiceType
    && a.month == b.month && a.year == b.year && a.renewalYear == b.renewalYear
  }

  lemma EnsureLeafIgnoresProgress(H: Hash, log: Log, miners: seq<Assignment>, a: Invoice, b: Invoice)
    requires SameTerms(a, b)
    ensures EnsureLeaf(H, log, miners, a) == EnsureLeaf(H, log, miners, b)
  {
    assert LifecycleOf(miners, a) == LifecycleOf(miners, b);
  }

  /** Ensuring the leaf after some confirmations has the outcome it would have had before them. */
  lemma EnsureLeafAfter(H: Hash, l: Ledger, l': Ledger, id: Id, seen: map<PaymentTx, nat>, x: Invoice)
    requires LedgerInv(H, l') && IsAfter(H, l, id, seen, l') && SameTerms(l.invoices[id], x)
    ensures EnsureLeaf(H, l'.log, l'.miners, x) == EnsureLeaf(H, l.log, l.miners, l.invoices[id])
  {
    var inv, inv' := l.invoices[id], l'.invoices[id];
    assert InvoiceInv(H, l'.log, l'.miners, inv', PaymentsOf(l', id));
    EnsureLeafIgnoresProgress(H, l'.log, l'.miners, inv, x);
    if seen != map[] && SumValues(seen) >= inv.amount {
      EnsureLeafTwice(H, l'.log, l'.miners, inv');
      EnsureLeafIgnoresProgress(H, l'.log, l'.miners, inv, inv');
    }
  }

  /** Can the invoice be paid: is it short of its amount, or can its leaf be made? */
  predicate Payable(H: Hash, l: Ledger, inv: Invoice, total: nat) {
    total < inv.amount || EnsureLeaf(H, l.log, l.miners, inv).Some?
  }

  /** The leaf can be made when it can be hashed, and its hash stands for no other row. */
  lemma PayableIff(H: Hash, l: Ledger, inv: Invoice, total: nat)
    requires LedgerInv(H, l)
    ensures Payable(H, l, inv, total) <==> total < inv.amount || CanBeMade(H, l.log.leaves, l.miners, inv)
  {
    EnsureLeafIs(H, l.log, l.miners, inv);
  }

  /** The payments after a confirmation seen before. */
  lemma RepeatedValues(ps: map<PaymentTx, Payment>, seen: map<PaymentTx, nat>, c: Confirmation)
    requires PaymentsInv(ps) && BlockValues(ps) == seen && c.tx in seen && seen[c.tx] == c.value
    ensures c.tx in ps && ps[c.tx].source == Block && ps[c.tx].value == c.value <= SumValues(seen)
    ensures BlockValues(ps[c.tx := Payment(c.value, c.height, Block)]) == seen
  {
    SumWithout(seen, c.tx);
    assert BlockValues(ps[c.tx := Payment(c.value, c.height, Block)]) == seen;
  }

  /** A confirmation seen before, of an invoice that is paid. */
  lemma RepeatedTotal(H: Hash, l: Ledger, id: Id, inv: Invoice, tx: PaymentTx, height: nat)
    requires LogInv(H, l.log) && BlockTotal(PaymentsOf(l, id)) == inv.received <= MAX_I64
    requires (inv.status == Paid && inv.received >= inv.amount && LeafPresent(H, l.log, l.miners, inv))
      || (inv.status == Partial && inv.received < inv.amount && inv.paidTx.None? && inv.paidHeight.None?)
    ensures ApplyTotal(H, l, id, inv, tx, height) == Some(l.(invoices := l.invoices[id := inv]))
  {
    if inv.status == Paid {
      EnsureLeafTwice(H, l.log, l.miners, inv);
    }
  }

  /** A confirmation seen before. */
  lemma RepeatedConfirmation(H: Hash, l: Ledger, l': Ledger, id: Id, seen: map<PaymentTx, nat>, c: Confirmation)
    requires LedgerInv(H, l) && LedgerInv(H, l') && IsAfter(H, l, id, seen, l')
    requires c.tx in seen && seen[c.tx] == c.value > 0 && c.tx != "" && SumValues(seen) <= MAX_I64
    ensures Payable(H, l, l.invoices[id], SumValues(seen))
    ensures var r := RecordPayment(H, l', id, c.value, c.tx, c.height);
      r.Some? && IsAfter(H, l, id, seen, r.value)
  {
    var inv', ps := l'.invoices[id], PaymentsOf(l', id);
    assert InvoiceInv(H, l'.log, l'.miners, inv', ps);
    RepeatedValues(ps, seen, c);
    hide EnsureLeaf, LedgerInv, ApplyTotal;
    var again := Reheighted(inv', c.tx, c.height);
    assert LifecycleOf(l'.miners, again) == LifecycleOf(l'.miners, inv');
    RepeatedTotal(H, WithPayment(l', id, c.tx, Payment(c.value, c.height, Block)), id, again, c.tx, c.height);
  }

  /** What a total leads to, when the leaf of the invoice can be made or not as `outcome` says. */
  lemma NewTotal(
    H: Hash, l: Ledger, id: Id, inv: Invoice, inv': Invoice, total: nat, tx: PaymentTx, height: nat, outcome: Option<Log>)
    requires total == BlockTotal(PaymentsOf(l, id)) <= MAX_I64
    requires inv'.status != Expired && (inv'.status == Paid ==> total >= inv.amount)
    requires Anonymous(inv').(received := total, status := Paid) == Anonymous(inv).(received := total, status := Paid)
    requires forall x :: SameTerms(inv, x) ==> EnsureLeaf(H, l.log, l.miners, x) == outcome
    ensures var r := ApplyTotal(H, l, id, inv', tx, height);
      && (r.Some? <==> total < inv.amount || outcome.Some?)
      && (r.Some? ==>
        && Anonymous(r.value.invoices[id])
           == Anonymous(inv).(received := total, status := if total >= inv.amount then Paid else Partial)
        && (if total >= inv.amount then outcome == Some(r.value.log) else r.value.log == l.log))
  {
    var paid := inv'.(received := total, status := Paid, paidTx := Some(tx), paidHeight := Some(height));
    assert SameTerms(inv, paid) && SameTerms(inv, inv'.(received := total));
  }

  /** The payments after a confirmation not seen before. */
  lemma NewValues(ps: map<PaymentTx, Payment>, seen: map<PaymentTx, nat>, c: Confirmation)
    requires PaymentsInv(ps) && BlockValues(ps) == seen && c.tx !in seen
    ensures c.tx !in ps && c.value <= SumValues(seen[c.tx := c.value])
    ensures BlockValues(ps[c.tx := Payment(c.value, c.height, Block)]) == seen[c.tx := c.value]
  {
    assert c.tx in ps ==> c.tx in BlockValues(ps);
    SumWith(seen, c.tx, c.value);
  }

  /** A confirmation not seen before. */
  lemma NewConfirmation(H: Hash, l: Ledger, l': Ledger, id: Id, seen: map<PaymentTx, nat>, c: Confirmation)
    requires LedgerInv(H, l) && LedgerInv(H, l') && IsAfter(H, l, id, seen, l')
    requires l.invoices[id].status == Pending
    requires c.tx !in seen && c.value > 0 && c.tx != "" && SumValues(seen[c.tx := c.value]) <= MAX_I64
    ensures var r := RecordPayment(H, l', id, c.value, c.tx, c.height);
      && (r.Some? <==> Payable(H, l, l.invoices[id], SumValues(seen[c.tx := c.value])))
      && (r.Some? ==> IsAfter(H, l, id, seen[c.tx := c.value], r.value))
  {
    var inv, inv', ps := l.invoices[id], l'.invoices[id], PaymentsOf(l', id);
    var p, total := Payment(c.value, c.height, Block), SumValues(seen[c.tx := c.value]);
    assert InvoiceInv(H, l'.log, l'.miners, inv', ps);
    NewValues(ps, seen, c);
    SumWith(seen, c.tx, c.value);
    hide EnsureLeaf, LedgerInv, ApplyTotal;
    forall x | SameTerms(inv, x) ensures EnsureLeaf(H, l'.log, l'.miners, x) == EnsureLeaf(H, l.log, l.miners, inv) {
      EnsureLeafAfter(H, l, l', id, seen, x);
    }
    PaymentsAfter(l', id, c.tx, p);
    NewTotal(H, WithPayment(l', id, c.tx, p), id, inv, inv', total, c.tx, c.height, EnsureLeaf(H, l.log, l.miners, inv));
  }

  /** One confirmation more. */
  lemma OneMore(H: Hash, l: Ledger, l': Ledger, id: Id, seen: map<PaymentTx, nat>, c: Confirmation)
    requires LedgerInv(H, l) && LedgerInv(H, l') && IsAfter(H, l, id, seen, l')
    requires l.invoices[id].status == Pending
    requires c.tx in seen ==> seen[c.tx] == c.value
    requires c.value > 0 && c.tx != "" && SumValues(seen[c.tx := c.value]) <= MAX_I64
    ensures var r := RecordPayment(H, l', id, c.value, c.tx, c.height);
      && (r.Some? <==> Payable(H, l, l.invoices[id], SumValues(seen[c.tx := c.value])))
      && (r.Some? ==> IsAfter(H, l, id, seen[c.tx := c.value], r.value) && LedgerInv(H, r.value))
  {
    if c.tx in seen {
      assert seen[c.tx := c.value] == seen;
      RepeatedConfirmation(H, l, l', id, seen, c);
    } else {
      NewConfirmation(H, l, l', id, seen, c);
    }
    if RecordPayment(H, l', id, c.value, c.tx, c.height).Some? {
      RecordPaymentKeeps(H, l', id, c.value, c.tx, c.height);
    }
  }

  lemma AfterNothing(H: Hash, l: Ledger, id: Id)
    requires LedgerInv(H, l) && id in l.invoices && l.invoices[id].status == Pending
    ensures IsAfter(H, l, id, map[], l)
  {
    assert InvoiceInv(H, l.log, l.miners, l.invoices[id], PaymentsOf(l, id));
    assert BlockValues(map[]) == map[];
  }

  lemma FrontIsConsistent(cs: seq<Confirmation>)
    requires cs != [] && Consistent(cs) && Valid(cs) && SumValues(Seen(cs)) <= MAX_I64
    ensures var front, c := cs[..|cs| - 1], cs[|cs| - 1];
      && Consistent(front) && Valid(front) && SumValues(Seen(front)) <= SumValues(Seen(cs))
      && (c.tx in Seen(front) ==> Seen(front)[c.tx] == c.value)
      && c.tx != "" && c.value > 0
  {
    var front, c := cs[..|cs| - 1], cs[|cs| - 1];
    assert cs == front + [c] && forall d :: d in front ==> d in cs;
    SeenIs(cs);
    SeenIs(front);
    SeenIsPart(front, cs);
    SumOfPart(Seen(front), Seen(cs));
  }

  lemma PayableBelow(H: Hash, l: Ledger, inv: Invoice, total: nat, more: nat)
    requires Payable(H, l, inv, more) && total <= more
    ensures Payable(H, l, inv, total)
  {}

  /** Where a sequence of confirmations that all succeed leads, and when they all succeed. */
  lemma {:induction false} ApplyAllIs(H: Hash, l: Ledger, id: Id, cs: seq<Confirmation>)
    requires LedgerInv(H, l) && id in l.invoices && l.invoices[id].status == Pending
    requires Consistent(cs) && Valid(cs) && SumValues(Seen(cs)) <= MAX_I64
    ensures cs != [] ==> (ApplyAll(H, l, id, cs).Some? <==> Payable(H, l, l.invoices[id], SumValues(Seen(cs))))
    ensures var r := ApplyAll(H, l, id, cs);
      r.Some? ==> LedgerInv(H, r.value) && IsAfter(H, l, id, Seen(cs), r.value)
  {
    if cs == [] {
      AfterNothing(H, l, id);
    } else {
      var front, c := cs[..|cs| - 1], cs[|cs| - 1];
      FrontIsConsistent(cs);
      ApplyAllIs(H, l, id, front);
      var l' := ApplyAll(H, l, id, front);
      if l'.Some? {
        OneMore(H, l, l'.value, id, Seen(front), c);
      } else if Payable(H, l, l.invoices[id], SumValues(Seen(cs))) {
        PayableBelow(H, l, l.invoices[id], SumValues(Seen(front)), SumValues(Seen(cs)));
      }
    }
  }

  lemma NoPairs(cs: seq<Confirmation>)
    ensures cs == [] <==> Pairs(cs) == {}
  {
    if cs != [] {
      assert (cs[0].tx, cs[0].value) in Pairs(cs);
    }
  }

  /** Two ledgers after the same transactions agree on everything but who paid. */
  lemma AfterTheSame(H: Hash, l: Ledger, id: Id, seen: map<PaymentTx, nat>, c: Ledger, d: Ledger)
    requires IsAfter(H, l, id, seen, c) && IsAfter(H, l, id, seen, d)
    ensures c.log == d.log && BlockValues(PaymentsOf(c, id)) == BlockValues(PaymentsOf(d, id))
    ensures Anonymous(c.invoices[id]) == Anonymous(d.invoices[id])
    ensures seen != map[] ==> (c.invoices[id].status == Paid <==> SumValues(seen) >= l.invoices[id].amount)
  {}

  lemma PaidHasLeaf(H: Hash, l: Ledger, id: Id)
    requires LedgerInv(H, l) && id in l.invoices && l.invoices[id].status == Paid
    ensures LeafPresent(H, l.log, l.miners, l.invoices[id])
  {
    assert InvoiceInv(H, l.log, l.miners, l.invoices[id], PaymentsOf(l, id));
  }

  lemma SamePairsAreValid(cs: seq<Confirmation>, ds: seq<Confirmation>)
    requires Consistent(cs) && Valid(cs) && Pairs(cs) == Pairs(ds)
    ensures Consistent(ds) && Valid(ds) && Seen(ds) == Seen(cs) && (ds == [] <==> cs == [])
    ensures cs != [] ==> Seen(cs) != map[]
  {
    if cs != [] {
      assert cs[|cs| - 1].tx in Seen(cs);
    }
    SeenDependsOnPairs(cs, ds);
    forall d | d in ds ensures d.tx != "" && d.value > 0 {
      assert (d.tx, d.value) in Pairs(cs);
    }
    NoPairs(cs);
    NoPairs(ds);
  }

  /**
   Confluence: sequences of confirmations with the same set of transactions and values succeed
   or fail alike, and lead to the same received total, status and log, whatever their order
   and however often each confirmation is repeated.
   */
  lemma Confluence(H: Hash, l: Ledger, id: Id, cs: seq<Confirmation>, ds: seq<Confirmation>)
    requires LedgerInv(H, l) && id in l.invoices && l.invoices[id].status == Pending
    requires Consistent(cs) && Valid(cs) && SumValues(Seen(cs)) <= MAX_I64
    requires Pairs(cs) == Pairs(ds)
    ensures ApplyAll(H, l, id, cs).Some? <==> ApplyAll(H, l, id, ds).Some?
    ensures ApplyAll(H, l, id, cs).Some? ==>
      var c, d := ApplyAll(H, l, id, cs).value, ApplyAll(H, l, id, ds).value;
      && c.log == d.log
      && Anonymous(c.invoices[id]) == Anonymous(d.invoices[id])
      && BlockValues(PaymentsOf(c, id)) == BlockValues(PaymentsOf(d, id))
      && (cs != [] ==> (c.invoices[id].status == Paid <==> SumValues(Seen(cs)) >= l.invoices[id].amount))
      && (c.invoices[id].status == Paid ==> LeafPresent(H, c.log, c.miners, c.invoices[id]))
  {
    SamePairsAreValid(cs, ds);
    ApplyAllIs(H, l, id, cs);
    ApplyAllIs(H, l, id, ds);
    var c, d := ApplyAll(H, l, id, cs), ApplyAll(H, l, id, ds);
    if c.Some? {
      AfterTheSame(H, l, id, Seen(cs), c.value, d.value);
      if c.value.invoices[id].status == Paid {
        PaidHasLeaf(H, c.value, id);
      }
    }
  }

  /**
   Without the leaf the order does matter: of two payments that only together reach the amount,
   the one that comes second is refused, and the other is what the invoice has received.
   */
  lemma RefusalDependsOnOrder(H: Hash, l: Ledger, id: Id, c: Confirmation, d: Confirmation)
    requires LedgerInv(H, l) && id in l.invoices && l.invoices[id].status == Pending
    requires Consistent([c, d]) && Valid([c, d]) && c.tx != d.tx && c.value != d.value
    requires c.value < l.invoices[id].amount && d.value < l.invoices[id].amount
    requires l.invoices[id].amount <= c.value + d.value <= MAX_I64
    requires EnsureLeaf(H, l.log, l.miners, l.invoices[id]).None?
    ensures var first := Next(H, l, Confirm(id, c.value, c.tx, c.height));
      var second := Next(H, l, Confirm(id, d.value, d.tx, d.height));
      && Next(H, first, Confirm(id, d.value, d.tx, d.height)).invoices[id].received == c.value
      && Next(H, second, Confirm(id, c.value, c.tx, c.height)).invoices[id].received == d.value
  {
    SecondIsRefused(H, l, id, c, d);
    SecondIsRefused(H, l, id, d, c);
  }

  lemma SecondIsRefused(H: Hash, l: Ledger, id: Id, c: Confirmation, d: Confirmation)
    requires LedgerInv(H, l) && id in l.invoices && l.invoices[id].status == Pending
    requires Valid([c, d]) && c.tx != d.tx
    requires c.value < l.invoices[id].amount <= c.value + d.value <= MAX_I64
    requires EnsureLeaf(H, l.log, l.miners, l.invoices[id]).None?
    ensures var first := Next(H, l, Confirm(id, c.value, c.tx, c.height));
      id in first.invoices && Next(H, first, Confirm(id, d.value, d.tx, d.height)).invoices[id].received == c.value
  {
    assert c in [c, d] && d in [c, d];
    AfterNothing(H, l, id);
    assert Next(H, l, Confirm(id, c.value, c.tx, c.height)) == OrElse(RecordPayment(H, l, id, c.value, c.tx, c.height), l);
    hide RecordPayment, Valid, ApplyTotal, LedgerInv, EnsureLeaf, InvoiceInv;
    var none: map<PaymentTx, nat> := map[];
    SumWith(none, c.tx, c.value);
    assert none[c.tx := c.value] == map[c.tx := c.value];
    NewConfirmation(H, l, l, id, none, c);
    var first := RecordPayment(H, l, id, c.value, c.tx, c.height).value;
    RecordPaymentKeeps(H, l, id, c.value, c.tx, c.height);
    var seen := map[c.tx := c.value];
    SumWith(seen, d.tx, d.value);
    NewConfirmation(H, l, first, id, seen, d);
    assert Next(H, first, Confirm(id, d.value, d.tx, d.height)) == first;
  }

  // ---------------------------------------------------------------------------------
  // Whole runs with everything else in between
  // ---------------------------------------------------------------------------------

  /** The confirmations of one invoice that succeeded in a run, by transaction. */
  ghost function Confirmed(H: Hash, ops: seq<Operation>, id: Id): map<PaymentTx, nat> {
    if ops == [] then map[]
    else
      var front, op := ops[..|ops| - 1], ops[|ops| - 1];
      var confirmed := Confirmed(H, front, id);
      if op.Confirm? && op.id == id && RecordPayment(H, Run(H, front), id, op.value, op.tx, op.height).Some?
      then confirmed[op.tx := op.value]
      else confirmed
  }

  lemma NextConfirms(H: Hash, l: Ledger, op: Operation, id: Id)
    requires LedgerInv(H, l)
    ensures var before, after := BlockValues(PaymentsOf(l, id)), BlockValues(PaymentsOf(Next(H, l, op), id));
      after == if op.Confirm? && op.id == id && RecordPayment(H, l, id, op.value, op.tx, op.height).Some?
        then before[op.tx := op.value] else before
  {
    hide LedgerInv, ApplyTotal;
    if op.Confirm? && RecordPayment(H, l, op.id, op.value, op.tx, op.height).Some? {
      var ps := PaymentsOf(l, op.id);
      assert BlockValues(ps[op.tx := Payment(op.value, op.height, Block)]) == BlockValues(ps)[op.tx := op.value];
    }
  }

  /** The payments of an invoice are its confirmations that succeeded, and nothing else of the run. */
  lemma {:induction false} PaymentsAreConfirmed(H: Hash, ops: seq<Operation>, id: Id)
    ensures BlockValues(PaymentsOf(Run(H, ops), id)) == Confirmed(H, ops, id)
  {
    if ops == [] {
      assert BlockValues(map[]) == map[];
    } else {
      PaymentsAreConfirmed(H, ops[..|ops| - 1], id);
      RunInv(H, ops[..|ops| - 1]);
      NextConfirms(H, Run(H, ops[..|ops| - 1]), ops[|ops| - 1], id);
    }
  }

  /** What an invoice has received, and whether it is paid, follows from these payments. */
  ghost predicate FollowsFrom(inv: Invoice, payments: map<PaymentTx, nat>) {
    && inv.received == SumValues(payments)
    && (payments != map[] ==> inv.status == if SumValues(payments) >= inv.amount then Paid else Partial)
    && (payments == map[] ==> inv.status == Pending || inv.status == Expired)
  }

  /**
   The outcome for an invoice over any run, whatever happens to other invoices, to the log and to
   expired invoices in between: the sum and the status follow from the set of its confirmations
   that succeeded, in whatever order, at whatever heights and how often they came.
   */
  lemma OutcomeFollows(H: Hash, ops: seq<Operation>, id: Id)
    requires id in Run(H, ops).invoices
    ensures FollowsFrom(Run(H, ops).invoices[id], Confirmed(H, ops, id))
    ensures var l := Run(H, ops);
      l.invoices[id].status == Paid ==> LeafPresent(H, l.log, l.miners, l.invoices[id])
  {
    RunInv(H, ops);
    PaymentsAreConfirmed(H, ops, id);
    var l := Run(H, ops);
    assert InvoiceInv(H, l.log, l.miners, l.invoices[id], PaymentsOf(l, id));
    assert forall t :: t in PaymentsOf(l, id) ==> t in Confirmed(H, ops, id);
  }

  /** The payment is not one that was recorded with another value. */
  predicate Agrees(ps: map<PaymentTx, Payment>, value: nat, tx: PaymentTx) {
    tx in ps ==> ps[tx].value == value
  }

  /** What the invoice would have received. */
  ghost function TotalWith(ps: map<PaymentTx, Payment>, value: nat, tx: PaymentTx): nat {
    SumValues(BlockValues(ps)[tx := value])
  }

  lemma ValuesWith(ps: map<PaymentTx, Payment>, value: nat, tx: PaymentTx, height: nat)
    requires PaymentsInv(ps)
    ensures BlockTotal(ps[tx := Payment(value, height, Block)]) == TotalWith(ps, value, tx)
  {
    assert BlockValues(ps[tx := Payment(value, height, Block)]) == BlockValues(ps)[tx := value];
  }

  /**
   When a confirmation succeeds in any reachable ledger: exactly when it is a payment of its
   invoice that agrees with what was recorded, the invoice has not expired, and, if it is paid
   with it, its leaf can be made.
   */
  lemma ConfirmSucceedsIff(H: Hash, l: Ledger, id: Id, value: nat, tx: PaymentTx, height: nat)
    requires LedgerInv(H, l) && id in l.invoices
    ensures var inv, ps := l.invoices[id], PaymentsOf(l, id);
      RecordPayment(H, l, id, value, tx, height).Some?
      <==> (0 < value <= MAX_I64 && tx != "" && inv.status != Expired && Agrees(ps, value, tx)
        && TotalWith(ps, value, tx) <= MAX_I64 && Payable(H, l, inv, TotalWith(ps, value, tx)))
  {
    var inv, ps := l.invoices[id], PaymentsOf(l, id);
    assert InvoiceInv(H, l.log, l.miners, inv, ps);
    assert PaymentsInv(ps) && (inv.status == Expired ==> ps == map[]) && (inv.status == Paid ==> BlockTotal(ps) >= inv.amount);
    hide LedgerInv, EnsureLeaf, ApplyTotal, InvoiceInv, Payable, BlockTotal, TotalWith;
    if 0 < value <= MAX_I64 && tx != "" && Agrees(ps, value, tx) && inv.status != Expired {
      var p := Payment(value, height, Block);
      PaymentsAfter(l, id, tx, p);
      ValuesWith(ps, value, tx, height);
      TotalGrowsWith(ps, value, tx, height);
      hide RecordPayment;
      RecordIsApply(H, l, id, value, tx, height);
      ApplyTotalSucceedsIff(H, WithPayment(l, id, tx, p), id, inv, Reapplied(inv, ps, tx, height), tx, height);
    }
  }

  function Reapplied(inv: Invoice, ps: map<PaymentTx, Payment>, tx: PaymentTx, height: nat): Invoice {
    if tx in ps then Reheighted(inv, tx, height) else inv
  }

  lemma RecordIsApply(H: Hash, l: Ledger, id: Id, value: nat, tx: PaymentTx, height: nat)
    requires 0 < value <= MAX_I64 && tx != "" && id in l.invoices && l.invoices[id].status != Expired
    requires PaymentsInv(PaymentsOf(l, id)) && Agrees(PaymentsOf(l, id), value, tx)
    ensures RecordPayment(H, l, id, value, tx, height) == ApplyTotal(H, WithPayment(l, id, tx, Payment(value, height, Block)), id,
      Reapplied(l.invoices[id], PaymentsOf(l, id), tx, height), tx, height)
  {
    hide ApplyTotal;
  }

  lemma ApplyTotalSucceedsIff(H: Hash, l: Ledger, id: Id, inv: Invoice, inv': Invoice, tx: PaymentTx, height: nat)
    requires inv' == inv.(paidHeight := inv'.paidHeight)
    requires inv.status == Paid ==> BlockTotal(PaymentsOf(l, id)) >= inv.amount
    ensures var total := BlockTotal(PaymentsOf(l, id));
      ApplyTotal(H, l, id, inv', tx, height).Some?
      <==> (total <= MAX_I64 && inv.status != Expired && Payable(H, l, inv, total))
  {
    var total := BlockTotal(PaymentsOf(l, id));
    hide EnsureLeaf;
    forall x | SameTerms(inv, x) ensures EnsureLeaf(H, l.log, l.miners, x) == EnsureLeaf(H, l.log, l.miners, inv) {
      EnsureLeafIgnoresProgress(H, l.log, l.miners, x, inv);
    }
    if total <= MAX_I64 && inv.status != Expired {
      NewTotal(H, l, id, inv, inv', total, tx, height, EnsureLeaf(H, l.log, l.miners, inv));
    }
  }

  lemma TotalGrowsWith(ps: map<PaymentTx, Payment>, value: nat, tx: PaymentTx, height: nat)
    requires PaymentsInv(ps) && Agrees(ps, value, tx)
    ensures TotalWith(ps, value, tx) >= BlockTotal(ps)
  {
    ValuesWith(ps, value, tx, height);
    BlockTotalGrows(ps, tx, Payment(value, height, Block));
  }
}
