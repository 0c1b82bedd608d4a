/**
 src/scanner.rs: the block scan that feeds the payment ledger, and the wallet's recovery scan.
 What the node answers is a parameter; heights are unbounded except in the recovery scan.
 */
module Scanner {
  import opened Bytes
  import opened Results
  import opened Merkle
  import opened Payments
  import opened Database
  import opened Wallet
  import WalletRuns

  type Address = ByteString

  /** An output that the viewing key decrypts. */
  datatype Output = Output(recipient: Address, value: nat)

  /**
   A transaction of a block with what it holds, and whether the node returned it in a form that
   can be read.  One that was not returned is skipped, whatever it holds.
   */
  datatype TxReply = TxReply(id: PaymentTx, outputs: seq<Output>, actions: seq<Action>, fetched: bool)

  /** What the node answers for a block; None when the request fails. */
  type Node = nat -> Option<seq<TxReply>>

  // ---------------------------------------------------------------------------------
  // One transaction
  // ---------------------------------------------------------------------------------

  function TotalFor(outputs: seq<Output>, a: Address): nat {
    if outputs == [] then 0
    else
      var last := outputs[|outputs| - 1];
      TotalFor(outputs[..|outputs| - 1], a) + if last.recipient == a then last.value else 0
  }

  predicate Pays(outputs: seq<Output>, a: Address) {
    exists o :: o in outputs && o.recipient == a
  }

  lemma OneOutputMore(outputs: seq<Output>, k: nat, a: Address)
    requires k < |outputs|
    ensures TotalFor(outputs[..k + 1], a)
         == TotalFor(outputs[..k], a) + if outputs[k].recipient == a then outputs[k].value else 0
    ensures Pays(outputs[..k + 1], a) <==> Pays(outputs[..k], a) || outputs[k].recipient == a
  {
    assert outputs[..k + 1][..k] == outputs[..k];
    assert outputs[..k + 1] == outputs[..k] + [outputs[k]];
  }

  lemma {:induction false} TotalGrows(outputs: seq<Output>, k: nat, a: Address)
    requires k <= |outputs|
    ensures TotalFor(outputs[..k], a) <= TotalFor(outputs, a)
  {
    if k == |outputs| {
      assert outputs[..k] == outputs;
    } else {
      var front := outputs[..|outputs| - 1];
      assert front[..k] == outputs[..k];
      TotalGrows(front, k, a);
    }
  }

  /** `accumulate_payment_value`: None on overflow of a u64. */
  function Accumulate(m: map<nat, nat>, index: nat, value: nat): Option<map<nat, nat>> {
    var total := (if index in m then m[index] else 0) + value;
    if total > MAX_U64 then None else Some(m[index := total])
  }

  /** The entry of one invoice is the total of these outputs, and there is one iff they pay it. */
  ghost predicate EntryIs(m: map<nat, nat>, index: nat, outputs: seq<Output>, a: Address) {
    && (index in m <==> Pays(outputs, a))
    && (index in m ==> m[index] == TotalFor(outputs, a) <= MAX_U64)
    && (index !in m ==> TotalFor(outputs, a) == 0)
  }

  /** After k outputs, and the next one for the first i invoices. */
  ghost predicate MatchedSoFar(
    m: map<nat, nat>, addresses: seq<Address>, outputs: seq<Output>, k: nat, i: nat)
    requires i <= |addresses| && k <= |outputs| && (i > 0 ==> k < |outputs|)
  {
    && (forall j :: j in m ==> j < |addresses|)
    && forall j :: 0 <= j < |addresses| ==> EntryIs(m, j, outputs[..if j < i then k + 1 else k], addresses[j])
  }

  /** Some invoice is paid more in one transaction than a u64 holds. */
  ghost predicate Overflows(addresses: seq<Address>, outputs: seq<Output>) {
    exists j :: 0 <= j < |addresses| && TotalFor(outputs, addresses[j]) > MAX_U64
  }

  lemma MatchedNext(m: map<nat, nat>, addresses: seq<Address>, outputs: seq<Output>, k: nat, i: nat)
    requires k < |outputs| && i < |addresses| && MatchedSoFar(m, addresses, outputs, k, i)
    ensures outputs[k].recipient != addresses[i] ==> MatchedSoFar(m, addresses, outputs, k, i + 1)
    ensures outputs[k].recipient == addresses[i] && Accumulate(m, i, outputs[k].value).Some? ==>
      MatchedSoFar(Accumulate(m, i, outputs[k].value).value, addresses, outputs, k, i + 1)
    ensures outputs[k].recipient == addresses[i] && Accumulate(m, i, outputs[k].value).None? ==>
      Overflows(addresses, outputs)
  {
    OneOutputMore(outputs, k, addresses[i]);
    TotalGrows(outputs, k + 1, addresses[i]);
    assert EntryIs(m, i, outputs[..k], addresses[i]);
  }

  /**
   The payments of one transaction by invoice: every invoice that it pays, once, with the sum
   of all outputs to it.
   */
  method MatchPayments(addresses: seq<Address>, outputs: seq<Output>) returns (m: Option<map<nat, nat>>)
    ensures m.None? <==> Overflows(addresses, outputs)
    ensures m.Some? ==> forall j :: j in m.value ==> j < |addresses|
    ensures m.Some? ==> forall j :: 0 <= j < |addresses| ==> EntryIs(m.value, j, outputs, addresses[j])
  {
    var matched: map<nat, nat> := map[];
    for k := 0 to |outputs|
      invariant MatchedSoFar(matched, addresses, outputs, k, 0)
    {
      for i := 0 to |addresses|
        invariant MatchedSoFar(matched, addresses, outputs, k, i)
      {
        MatchedNext(matched, addresses, outputs, k, i);
        if outputs[k].recipient == addresses[i] {
          var next := Accumulate(matched, i, outputs[k].value);
          if next.None? {
            return None;
          }
          matched := next.value;
        }
      }
      assert MatchedSoFar(matched, addresses, outputs, k, |addresses|);
    }
    assert outputs[..|outputs|] == outputs;
    assert forall j :: 0 <= j < |addresses| ==> EntryIs(matched, j, outputs, addresses[j]);
    return Some(matched);
  }

  // ---------------------------------------------------------------------------------
  // What a block records
  // ---------------------------------------------------------------------------------

  /** One call of `record_confirmed_payment`. */
  datatype Rec = Rec(id: Id, value: nat, tx: PaymentTx, height: nat)

  /** The invoices that the scan looks for, with the address of each. */
  datatype Watch = Watch(ids: seq<Id>, addresses: seq<Address>) {
    ghost predicate Valid() {
      |ids| == |addresses| && forall i, j :: 0 <= i < j < |ids| ==> ids[i] != ids[j]
    }
  }

  /** The transaction pays invoice i of the watched ones, and this is the call for it. */
  ghost predicate IsPayment(w: Watch, tx: TxReply, height: nat, i: nat, r: Rec) {
    && i < |w.ids| && i < |w.addresses|
    && Pays(tx.outputs, w.addresses[i])
    && r == Rec(w.ids[i], TotalFor(tx.outputs, w.addresses[i]), tx.id, height)
  }

  /** The call that this transaction leads to for invoice i of the watched ones. */
  ghost predicate IsMatch(w: Watch, tx: TxReply, height: nat, i: nat, r: Rec) {
    tx.fetched && IsPayment(w, tx, height, i, r)
  }

  ghost predicate IsTxMatch(w: Watch, tx: TxReply, height: nat, r: Rec) {
    exists i :: IsMatch(w, tx, height, i, r)
  }

  ghost predicate IsBlockMatch(w: Watch, txs: seq<TxReply>, height: nat, r: Rec) {
    exists k :: 0 <= k < |txs| && IsTxMatch(w, txs[k], height, r)
  }

  ghost predicate IsMatchAt(w: Watch, blocks: Node, height: nat, r: Rec) {
    blocks(height).Some? && IsBlockMatch(w, blocks(height).value, height, r)
  }

  /** All calls of the blocks before `next`, and otherwise only calls of the block `next`. */
  ghost predicate IsScan(
    w: Watch, blocks: Node, first: nat, next: nat, recs: seq<Rec>)
  {
    && (forall h :: first <= h < next ==> blocks(h).Some?)
    && (forall h, r :: first <= h < next && IsMatchAt(w, blocks, h, r) ==> r in recs)
    && (forall r :: r in recs ==> first <= r.height <= next && IsMatchAt(w, blocks, r.height, r))
  }

  /** None of these calls is of the block `next` or a later one. */
  ghost predicate EndsBefore(recs: seq<Rec>, next: nat) {
    forall r :: r in recs ==> r.height < next
  }

  /** The scan of whole blocks. */
  ghost predicate IsWholeScan(w: Watch, blocks: Node, first: nat, next: nat, recs: seq<Rec>) {
    IsScan(w, blocks, first, next, recs) && EndsBefore(recs, next)
  }

  /** The heights from one up to but not including the other. */
  function Consecutive(first: nat, next: nat): (heights: seq<nat>)
    requires first <= next
    ensures |heights| == next - first && forall i :: 0 <= i < |heights| ==> heights[i] == first + i
  {
    if first == next then [] else Consecutive(first, next - 1) + [next - 1]
  }

  function Addresses(ids: seq<Id>, addressOf: Id -> Address): (a: seq<Address>)
    ensures |a| == |ids| && forall i :: 0 <= i < |ids| ==> a[i] == addressOf(ids[i])
  {
    if ids == [] then [] else Addresses(ids[..|ids| - 1], addressOf) + [addressOf(ids[|ids| - 1])]
  }

  /** The ledger after these calls in order; None if one of them fails. */
  ghost function RecordAll(H: Hash, l: Ledger, recs: seq<Rec>): Option<Ledger> {
    if recs == [] then Some(l)
    else
      var front, last := RecordAll(H, l, recs[..|recs| - 1]), recs[|recs| - 1];
      if front.None? then None else RecordPayment(H, front.value, last.id, last.value, last.tx, last.height)
  }

  lemma RecordOneMore(H: Hash, l: Ledger, recs: seq<Rec>, r: Rec)
    ensures var front := RecordAll(H, l, recs);
      RecordAll(H, l, recs + [r])
      == if front.None? then None else RecordPayment(H, front.value, r.id, r.value, r.tx, r.height)
  {
    assert (recs + [r])[..|recs|] == recs;
  }

  lemma {:induction false} RecordAllJoins(H: Hash, l: Ledger, a: seq<Rec>, b: seq<Rec>)
    ensures var front := RecordAll(H, l, a);
      RecordAll(H, l, a + b) == if front.None? then None else RecordAll(H, front.value, b)
  {
    if b == [] {
      assert a + b == a;
    } else {
      var front, last := b[..|b| - 1], b[|b| - 1];
      RecordAllJoins(H, l, a, front);
      assert (a + b)[..|a + b| - 1] == a + front;
    }
  }

  method Record(db: Db, r: Rec) returns (ok: bool)
    modifies db
    ensures db.lastScanned == old(db.lastScanned)
    ensures ok == RecordPayment(db.H, old(db.LedgerValue()), r.id, r.value, r.tx, r.height).Some?
    ensures ok ==> Some(db.LedgerValue()) == RecordPayment(db.H, old(db.LedgerValue()), r.id, r.value, r.tx, r.height)
    ensures !ok ==> db.LedgerValue() == old(db.LedgerValue())
  {
    var newlyRecorded, transitionedToPaid, leafCreated;
    ok, newlyRecorded, transitionedToPaid, leafCreated := db.RecordConfirmedPayment(r.id, r.value, r.tx, r.height);
  }

  /** Records the payments of one transaction, invoice by invoice in any order. */
  method ScanTransaction(db: Db, w: Watch, tx: TxReply, height: nat) returns (ok: bool, ghost recs: seq<Rec>)
    requires w.Valid()
    modifies db
    ensures db.lastScanned == old(db.lastScanned)
    ensures RecordAll(db.H, old(db.LedgerValue()), recs) == Some(db.LedgerValue())
    ensures forall r :: r in recs ==> IsTxMatch(w, tx, height, r)
    ensures ok ==> forall r :: IsTxMatch(w, tx, height, r) ==> r in recs
  {
    ghost var before := db.LedgerValue();
    recs := [];
    assert RecordAll(db.H, before, recs) == Some(before);
    hide RecordAll, RecordPayment, TotalFor, Pays;
    if !tx.fetched {
      return true, recs;
    }
    var outputs := tx.outputs;
    var matched := MatchPayments(w.addresses, outputs);
    if matched.None? {
      return false, recs;
    }
    var left := matched.value;
    while left != map[]
      invariant db.lastScanned == old(db.lastScanned)
      invariant left.Keys <= matched.value.Keys && forall i :: i in left ==> left[i] == matched.value[i]
      invariant RecordAll(db.H, before, recs) == Some(db.LedgerValue())
      invariant forall r :: r in recs ==> IsTxMatch(w, tx, height, r)
      invariant forall i :: i in matched.value && i !in left ==> Rec(w.ids[i], matched.value[i], tx.id, height) in recs
      decreases |left|
    {
      var i :| i in left;
      var r := Rec(w.ids[i], left[i], tx.id, height);
      MatchedIsMatch(w, tx, height, outputs, matched.value, i, r);
      RecordOneMore(db.H, before, recs, r);
      var recorded := Record(db, r);
      if !recorded {
        return false, recs;
      }
      recs := recs + [r];
      left := left - {i};
    }
    forall r | IsTxMatch(w, tx, height, r) ensures r in recs {
      var i: nat :| IsMatch(w, tx, height, i, r);
      assert EntryIs(matched.value, i, outputs, w.addresses[i]);
    }
    return true, recs;
  }

  lemma MatchedIsMatch(
    w: Watch, tx: TxReply, height: nat, outputs: seq<Output>, matched: map<nat, nat>, i: nat, r: Rec)
    requires tx.fetched && tx.outputs == outputs && i in matched && i < |w.ids| == |w.addresses|
    requires EntryIs(matched, i, outputs, w.addresses[i]) && r == Rec(w.ids[i], matched[i], tx.id, height)
    ensures IsTxMatch(w, tx, height, r)
  {
    assert IsMatch(w, tx, height, i, r);
  }

  lemma RecordedAfter(H: Hash, l: Ledger, m: Option<Ledger>, n: Option<Ledger>, a: seq<Rec>, b: seq<Rec>)
    requires m.Some? && RecordAll(H, l, a) == m && RecordAll(H, m.value, b) == n
    ensures RecordAll(H, l, a + b) == n
  {
    RecordAllJoins(H, l, a, b);
  }

  /** The calls of the first k transactions, and no others. */
  ghost predicate IsPartOfBlock(w: Watch, txs: seq<TxReply>, height: nat, k: nat, recs: seq<Rec>)
    requires k <= |txs|
  {
    && (forall r :: r in recs ==> IsBlockMatch(w, txs, height, r))
    && forall j, r :: 0 <= j < k && IsTxMatch(w, txs[j], height, r) ==> r in recs
  }

  lemma PartExtended(w: Watch, txs: seq<TxReply>, height: nat, k: nat, recs: seq<Rec>, more: seq<Rec>)
    requires k < |txs| && IsPartOfBlock(w, txs, height, k, recs)
    requires forall r :: r in more ==> IsTxMatch(w, txs[k], height, r)
    ensures IsPartOfBlock(w, txs, height, k, recs + more)
    ensures (forall r :: IsTxMatch(w, txs[k], height, r) ==> r in more) ==>
      IsPartOfBlock(w, txs, height, k + 1, recs + more)
  {}

  method ScanBlock(db: Db, w: Watch, txs: seq<TxReply>, height: nat) returns (ok: bool, ghost recs: seq<Rec>)
    requires w.Valid()
    modifies db
    ensures db.lastScanned == old(db.lastScanned)
    ensures RecordAll(db.H, old(db.LedgerValue()), recs) == Some(db.LedgerValue())
    ensures forall r :: r in recs ==> IsBlockMatch(w, txs, height, r)
    ensures ok ==> forall r :: IsBlockMatch(w, txs, height, r) ==> r in recs
  {
    ghost var before := db.LedgerValue();
    recs := [];
    assert RecordAll(db.H, before, recs) == Some(before);
    assert IsPartOfBlock(w, txs, height, 0, recs);
    hide RecordAll, IsTxMatch, IsPartOfBlock;
    for k := 0 to |txs|
      invariant db.lastScanned == old(db.lastScanned)
      invariant RecordAll(db.H, before, recs) == Some(db.LedgerValue())
      invariant IsPartOfBlock(w, txs, height, k, recs)
    {
      ghost var middle := db.LedgerValue();
      ghost var more: seq<Rec>;
      ok, more := ScanTransaction(db, w, txs[k], height);
      RecordedAfter(db.H, before, Some(middle), Some(db.LedgerValue()), recs, more);
      PartExtended(w, txs, height, k, recs, more);
      recs := recs + more;
      if !ok {
        PartIsOfBlock(w, txs, height, k, recs);
        return false, recs;
      }
    }
    PartIsOfBlock(w, txs, height, |txs|, recs);
    return true, recs;
  }

  lemma PartIsOfBlock(w: Watch, txs: seq<TxReply>, height: nat, k: nat, recs: seq<Rec>)
    requires k <= |txs| && IsPartOfBlock(w, txs, height, k, recs)
    ensures forall r :: r in recs ==> IsBlockMatch(w, txs, height, r)
    ensures k == |txs| ==> forall r :: IsBlockMatch(w, txs, height, r) ==> r in recs
  {}

  /** What the wallet is given of a block: the transactions that were returned. */
  function RawTxs(txs: seq<TxReply>): seq<Transaction> {
    if txs == [] then []
    else
      var last := txs[|txs| - 1];
      RawTxs(txs[..|txs| - 1]) + if last.fetched then [Some(last.actions)] else []
  }

  /** What stands at these positions of the block in order: every transaction that was returned, and no other. */
  ghost predicate AreReturned(txs: seq<TxReply>, at: seq<nat>, raw: seq<Transaction>) {
    && |raw| == |at|
    && (forall i :: 0 <= i < |at| ==> at[i] < |txs| && txs[at[i]].fetched && raw[i] == Some(txs[at[i]].actions))
    && (forall i, j :: 0 <= i < j < |at| ==> at[i] < at[j])
    && forall k :: 0 <= k < |txs| && txs[k].fetched ==> k in at
  }

  function ReturnedAt(txs: seq<TxReply>): seq<nat> {
    if txs == [] then []
    else ReturnedAt(txs[..|txs| - 1]) + if txs[|txs| - 1].fetched then [|txs| - 1] else []
  }

  lemma OneMoreReturned(txs: seq<TxReply>, at: seq<nat>, raw: seq<Transaction>)
    requires txs != [] && AreReturned(txs[..|txs| - 1], at, raw)
    ensures var last := txs[|txs| - 1];
      if last.fetched then AreReturned(txs, at + [|txs| - 1], raw + [Some(last.actions)]) else AreReturned(txs, at, raw)
  {}

  /** The wallet is given exactly what was returned, in the order of the block. */
  lemma {:induction false} RawTxsAre(txs: seq<TxReply>)
    ensures AreReturned(txs, ReturnedAt(txs), RawTxs(txs))
  {
    hide AreReturned;
    if txs == [] {
      NothingReturned();
    } else {
      var front := txs[..|txs| - 1];
      RawTxsAre(front);
      OneMoreReturned(txs, ReturnedAt(front), RawTxs(front));
      if !txs[|txs| - 1].fetched {
        assert ReturnedAt(front) + [] == ReturnedAt(front) && RawTxs(front) + [] == RawTxs(front);
      }
    }
  }

  lemma NothingReturned()
    ensures AreReturned([], [], [])
  {}

  /** The wallet after the blocks from `first` up to but not including `next`; a block without a reply is left out. */
  function FedRange(blocks: Node, s: State, first: nat, next: nat): State
    requires first <= next
  {
    if first == next then s
    else
      var before := FedRange(blocks, s, first, next - 1);
      if blocks(next - 1).None? then before else Processed(before, next - 1, RawTxs(blocks(next - 1).value))
  }

  lemma OneMoreFed(blocks: Node, s: State, first: nat, height: nat)
    requires first <= height && blocks(height).Some?
    ensures FedRange(blocks, s, first, height + 1)
         == Processed(FedRange(blocks, s, first, height), height, RawTxs(blocks(height).value))
  {
    hide Processed;
  }

  lemma OneLeftOut(blocks: Node, s: State, first: nat, height: nat)
    requires first <= height && blocks(height).None?
    ensures FedRange(blocks, s, first, height + 1) == FedRange(blocks, s, first, height)
  {}

  /** The operations of the wallet for these blocks. */
  function FeedOps(blocks: Node, first: nat, next: nat): seq<WalletRuns.Operation>
    requires first <= next
  {
    if first == next then []
    else
      var before := FeedOps(blocks, first, next - 1);
      if blocks(next - 1).None? then before else before + [WalletRuns.Block(next - 1, RawTxs(blocks(next - 1).value))]
  }

  lemma OneMoreOp(position: nat, ops: seq<WalletRuns.Operation>, op: WalletRuns.Operation)
    ensures WalletRuns.Run(position, ops + [op]) == WalletRuns.Next(WalletRuns.Run(position, ops), op)
  {
    assert (ops + [op])[..|ops|] == ops;
  }

  /** Feeding a range of blocks is a run of the wallet, so that all that holds of its runs holds here. */
  lemma {:induction false} FedRangeIsRun(position: nat, ops: seq<WalletRuns.Operation>, blocks: Node, first: nat, next: nat)
    requires first <= next
    ensures FedRange(blocks, WalletRuns.Run(position, ops), first, next)
         == WalletRuns.Run(position, ops + FeedOps(blocks, first, next))
  {
    hide Processed;
    if first == next {
      assert ops + [] == ops;
    } else {
      FedRangeIsRun(position, ops, blocks, first, next - 1);
      if blocks(next - 1).Some? {
        var op := WalletRuns.Block(next - 1, RawTxs(blocks(next - 1).value));
        Assoc(ops, FeedOps(blocks, first, next - 1), [op]);
        OneMoreOp(position, ops + FeedOps(blocks, first, next - 1), op);
      }
    }
  }

  lemma NothingFed(s: State, height: nat)
    ensures Processed(s, height, []) == s
  {
    assert s.tree + [] == s.tree && s.notes + [] == s.notes;
  }

  /** Gives the transactions of a block to the wallet, unless none was returned. */
  method FeedWallet(wallet: AnchorWallet, txs: seq<TxReply>, height: nat)
    modifies wallet
    ensures wallet.Value() == Processed(old(wallet.Value()), height, RawTxs(txs))
  {
    var raw: seq<Transaction> := [];
    for k := 0 to |txs|
      invariant raw == RawTxs(txs[..k]) && wallet.Value() == old(wallet.Value())
    {
      assert txs[..k + 1][..k] == txs[..k];
      if txs[k].fetched {
        raw := raw + [Some(txs[k].actions)];
      }
    }
    assert txs[..|txs|] == txs;
    if raw != [] {
      wallet.ProcessBlockCommitments(height, raw);
    } else {
      NothingFed(wallet.Value(), height);
    }
  }

  /** The watched invoices are the active ones, each once, with its address. */
  ghost predicate IsWatch(w: Watch, invoices: map<Id, Invoice>, addressOf: Id -> Address) {
    && w.Valid() && w.addresses == Addresses(w.ids, addressOf)
    && forall id :: id in w.ids <==> id in invoices && IsActive(invoices[id])
  }

  /**
   A scan for the active invoices of l, over all blocks before `next` and perhaps a part of that
   one, makes these calls and leaves l'.
   */
  ghost predicate ScansTo(
    H: Hash, l: Ledger, addressOf: Id -> Address, blocks: Node, first: nat, next: nat, w: Watch, recs: seq<Rec>, l': Ledger)
  {
    && IsWatch(w, l.invoices, addressOf)
    && IsScan(w, blocks, first, next, recs)
    && RecordAll(H, l, recs) == Some(l')
  }

  /** n is one of the two bounds, and exceeds neither. */
  predicate IsLesser(n: nat, a: nat, b: nat) {
    n <= a && n <= b && (n == a || n == b)
  }

  predicate HasActive(invoices: map<Id, Invoice>) {
    exists id :: id in invoices && invoices[id].status != Paid && invoices[id].status != Expired
  }

  /**
   One scan.  `next` is the first block that was not scanned to its end, `recs` the calls that
   were recorded, and `cursors` every value that the stored cursor took on.
   */
  method ScanOnce(
    db: Db, wallet: AnchorWallet?, chain: Option<nat>, scanFrom: nat, addressOf: Id -> Address, blocks: Node)
    returns (ok: bool, ghost next: nat, ghost w: Watch, ghost recs: seq<Rec>, ghost cursors: seq<nat>)
    modifies db, wallet
    ensures var start := if old(db.lastScanned) == 0 then scanFrom else old(db.lastScanned) + 1;
      && start <= next
      && db.lastScanned >= old(db.lastScanned)
      && RecordAll(db.H, old(db.LedgerValue()), recs) == Some(db.LedgerValue())
      && (wallet != null ==> wallet.Value() == FedRange(blocks, old(wallet.Value()), start, next))
      && (chain.None? || start > chain.value ==>
        next == start && recs == [] && cursors == [] && db.lastScanned == old(db.lastScanned) && (ok <==> chain.Some?))
      && (chain.Some? && start <= chain.value && !HasActive(old(db.invoices)) ==>
        && ok && next == start && recs == [] && cursors == [db.lastScanned]
        && IsLesser(db.lastScanned, start + 500, chain.value))
      && (chain.Some? && start <= chain.value && HasActive(old(db.invoices)) ==>
        && ScansTo(db.H, old(db.LedgerValue()), addressOf, blocks, start, next, w, recs, db.LedgerValue())
        && cursors == Consecutive(start, next)
        && db.lastScanned == (if next == start then old(db.lastScanned) else next - 1)
        && (ok ==> IsLesser(next, start + 500, chain.value + 1) && EndsBefore(recs, next))
        && (!ok ==> next < start + 500 && next <= chain.value))
  {
    ghost var before := db.LedgerValue();
    recs, cursors, w := [], [], Watch([], []);
    assert RecordAll(db.H, before, recs) == Some(before);
    hide RecordAll, IsScan, EndsBefore;
    var start := if db.lastScanned == 0 then scanFrom else db.lastScanned + 1;
    next := start;
    if chain.None? {
      return false, next, w, recs, cursors;
    }
    if start > chain.value {
      return true, next, w, recs, cursors;
    }
    var active := db.GetActiveInvoices();
    if active == [] {
      var safeHeight := if start + 500 < chain.value then start + 500 else chain.value;
      db.SetLastScannedHeight(safeHeight);
      cursors := [safeHeight];
      return true, next, w, recs, cursors;
    }
    assert active[0] in active && IsActive(db.invoices[active[0]]);
    var watch := Watch(active, Addresses(active, addressOf));
    w := watch;
    var blocksToScan := if chain.value - start + 1 < 500 then chain.value - start + 1 else 500;
    ok, next, recs, cursors := ScanRange(db, wallet, watch, blocks, start, start + blocksToScan - 1);
  }

  /** The loop over the blocks of one scan. */
  method ScanRange(db: Db, wallet: AnchorWallet?, w: Watch, blocks: Node, start: nat, end: nat)
    returns (ok: bool, ghost next: nat, ghost recs: seq<Rec>, ghost cursors: seq<nat>)
    requires w.Valid() && start <= end
    modifies db, wallet
    ensures start <= next && IsScan(w, blocks, start, next, recs) && cursors == Consecutive(start, next)
    ensures RecordAll(db.H, old(db.LedgerValue()), recs) == Some(db.LedgerValue())
    ensures db.lastScanned == if next == start then old(db.lastScanned) else next - 1
    ensures wallet != null ==> wallet.Value() == FedRange(blocks, old(wallet.Value()), start, next)
    ensures if ok then next == end + 1 && IsWholeScan(w, blocks, start, next, recs) else next <= end
  {
    ghost var before := db.LedgerValue();
    recs, cursors := [], [];
    assert RecordAll(db.H, before, recs) == Some(before) && IsWholeScan(w, blocks, start, start, recs);
    assert wallet != null ==> wallet.Value() == FedRange(blocks, old(wallet.Value()), start, start);
    hide RecordAll, IsBlockMatch, IsScan, IsWholeScan, FedRange, Processed;
    var height := start;
    while height <= end
      invariant start <= height <= end + 1 && cursors == Consecutive(start, height)
      invariant db.lastScanned == if height == start then old(db.lastScanned) else height - 1
      invariant RecordAll(db.H, before, recs) == Some(db.LedgerValue())
      invariant IsScan(w, blocks, start, height, recs) && IsWholeScan(w, blocks, start, height, recs)
      invariant wallet != null ==> wallet.Value() == FedRange(blocks, old(wallet.Value()), start, height)
    {
      next := height;
      var txs := blocks(height);
      if txs.None? {
        return false, next, recs, cursors;
      }
      ghost var middle := db.LedgerValue();
      ghost var more: seq<Rec>;
      ok, more := ScanBlock(db, w, txs.value, height);
      RecordedAfter(db.H, before, Some(middle), Some(db.LedgerValue()), recs, more);
      ScanExtended(w, blocks, start, height, txs.value, recs, more);
      recs := recs + more;
      if !ok {
        return false, next, recs, cursors;
      }
      if wallet != null {
        FeedWallet(wallet, txs.value, height);
        OneMoreFed(blocks, old(wallet.Value()), start, height);
      }
      db.SetLastScannedHeight(height);
      cursors := cursors + [height];
      height := height + 1;
    }
    next := height;
    ok := true;
  }

  lemma BlockMatchHeight(w: Watch, txs: seq<TxReply>, height: nat, r: Rec)
    requires IsBlockMatch(w, txs, height, r)
    ensures r.height == height
  {}

  lemma ScanExtended(
    w: Watch, blocks: Node, first: nat, height: nat, txs: seq<TxReply>, recs: seq<Rec>, more: seq<Rec>)
    requires first <= height && IsWholeScan(w, blocks, first, height, recs) && blocks(height) == Some(txs)
    requires forall r :: r in more ==> IsBlockMatch(w, txs, height, r)
    ensures IsScan(w, blocks, first, height, recs + more)
    ensures (forall r :: IsBlockMatch(w, txs, height, r) ==> r in more) ==>
      IsWholeScan(w, blocks, first, height + 1, recs + more)
  {
    hide IsBlockMatch;
    forall r | r in more ensures r.height == height && IsMatchAt(w, blocks, height, r) {
      BlockMatchHeight(w, txs, height, r);
    }
  }

  // ---------------------------------------------------------------------------------
  // Replay
  // ---------------------------------------------------------------------------------

  lemma {:induction false} RecordAllKeeps(H: Hash, l: Ledger, recs: seq<Rec>)
    requires LedgerInv(H, l) && RecordAll(H, l, recs).Some?
    ensures LedgerInv(H, RecordAll(H, l, recs).value)
  {
    if recs != [] {
      var front, last := recs[..|recs| - 1], recs[|recs| - 1];
      RecordAllKeeps(H, l, front);
      RecordPaymentKeeps(H, RecordAll(H, l, front).value, last.id, last.value, last.tx, last.height);
    }
  }

  /** The ledger holds the payment of this call, at its height. */
  ghost predicate IsRecorded(l: Ledger, r: Rec) {
    && r.id in l.invoices && r.tx in PaymentsOf(l, r.id)
    && PaymentsOf(l, r.id)[r.tx].value == r.value && PaymentsOf(l, r.id)[r.tx].height == r.height
  }

  ghost predicate AllRecorded(l: Ledger, recs: seq<Rec>) {
    forall r :: r in recs ==> IsRecorded(l, r)
  }

  /** One more call at the same height leaves what was recorded as it is. */
  lemma RecordKeepsRecorded(H: Hash, l: Ledger, r: Rec, q: Rec)
    requires RecordPayment(H, l, r.id, r.value, r.tx, r.height).Some?
    requires IsRecorded(l, q) && q.height == r.height
    ensures IsRecorded(RecordPayment(H, l, r.id, r.value, r.tx, r.height).value, q)
  {}

  lemma RecordRecords(H: Hash, l: Ledger, r: Rec)
    requires RecordPayment(H, l, r.id, r.value, r.tx, r.height).Some?
    ensures IsRecorded(RecordPayment(H, l, r.id, r.value, r.tx, r.height).value, r)
  {}

  lemma {:induction false} RecordAllRecords(H: Hash, l: Ledger, recs: seq<Rec>, height: nat)
    requires RecordAll(H, l, recs).Some? && forall r :: r in recs ==> r.height == height
    ensures AllRecorded(RecordAll(H, l, recs).value, recs)
  {
    if recs != [] {
      var front, last := recs[..|recs| - 1], recs[|recs| - 1];
      assert recs == front + [last];
      RecordAllRecords(H, l, front, height);
      var m := RecordAll(H, l, front).value;
      RecordRecords(H, m, last);
      forall q | q in front ensures IsRecorded(RecordAll(H, l, recs).value, q) {
        RecordKeepsRecorded(H, m, last, q);
      }
    }
  }

  lemma {:induction false} RecordedIsNoOp(H: Hash, l: Ledger, recs: seq<Rec>)
    requires LedgerInv(H, l) && AllRecorded(l, recs)
    ensures RecordAll(H, l, recs) == Some(l)
  {
    if recs != [] {
      var front, last := recs[..|recs| - 1], recs[|recs| - 1];
      assert recs == front + [last] && last in recs;
      RecordedIsNoOp(H, l, front);
      assert IsRecorded(l, last);
      ReplayChangesNothing(H, l, last.id, last.tx);
    }
  }

  /**
   Scanning a block again changes nothing: calls that were all made for a block, repeated in
   any order and any number of times, leave the whole ledger as it is.
   */
  lemma RescanChangesNothing(H: Hash, l: Ledger, recs: seq<Rec>, again: seq<Rec>, height: nat)
    requires LedgerInv(H, l) && RecordAll(H, l, recs).Some?
    requires forall r :: r in recs ==> r.height == height
    requires forall r :: r in again ==> r in recs
    ensures RecordAll(H, RecordAll(H, l, recs).value, again) == RecordAll(H, l, recs)
  {
    RecordAllKeeps(H, l, recs);
    RecordAllRecords(H, l, recs, height);
    RecordedIsNoOp(H, RecordAll(H, l, recs).value, again);
  }

  // ---------------------------------------------------------------------------------
  // Transactions that were not returned
  // ---------------------------------------------------------------------------------

  ghost predicate IsTxPayment(w: Watch, tx: TxReply, height: nat, r: Rec) {
    exists i :: IsPayment(w, tx, height, i, r)
  }

  ghost predicate IsBlockPayment(w: Watch, txs: seq<TxReply>, height: nat, r: Rec) {
    exists k :: 0 <= k < |txs| && IsTxPayment(w, txs[k], height, r)
  }

  /** No two transactions of a block have the same id. */
  ghost predicate DistinctIds(txs: seq<TxReply>) {
    forall j, k :: 0 <= j < k < |txs| ==> txs[j].id != txs[k].id
  }

  predicate PaysSome(addresses: seq<Address>, outputs: seq<Output>) {
    exists i :: 0 <= i < |addresses| && Pays(outputs, addresses[i])
  }

  /** Whatever was not returned pays no watched invoice. */
  ghost predicate NothingMissed(w: Watch, txs: seq<TxReply>) {
    forall k :: 0 <= k < |txs| && !txs[k].fetched ==> !PaysSome(w.addresses, txs[k].outputs)
  }

  /**
   The calls of a block that was scanned to its end are all its payments exactly when no
   transaction that was not returned pays a watched invoice.
   */
  lemma BlockIsCompleteIff(w: Watch, txs: seq<TxReply>, height: nat, recs: seq<Rec>)
    requires w.Valid() && DistinctIds(txs)
    requires forall r: Rec :: r.height == height ==> (r in recs <==> IsBlockMatch(w, txs, height, r))
    ensures (forall r :: IsBlockPayment(w, txs, height, r) ==> r in recs) <==> NothingMissed(w, txs)
  {
    if NothingMissed(w, txs) {
      forall r | IsBlockPayment(w, txs, height, r) ensures r in recs {
        var k :| 0 <= k < |txs| && IsTxPayment(w, txs[k], height, r);
        var i: nat :| IsPayment(w, txs[k], height, i, r);
        assert PaysSome(w.addresses, txs[k].outputs);
        assert IsMatch(w, txs[k], height, i, r);
        assert IsTxMatch(w, txs[k], height, r);
      }
    } else {
      var k :| 0 <= k < |txs| && !txs[k].fetched && PaysSome(w.addresses, txs[k].outputs);
      var i: nat :| i < |w.addresses| && Pays(txs[k].outputs, w.addresses[i]);
      var r := Rec(w.ids[i], TotalFor(txs[k].outputs, w.addresses[i]), txs[k].id, height);
      assert IsPayment(w, txs[k], height, i, r);
      assert IsTxPayment(w, txs[k], height, r);
      MissedIsNoMatch(w, txs, height, k, r);
    }
  }

  lemma MissedIsNoMatch(w: Watch, txs: seq<TxReply>, height: nat, k: nat, r: Rec)
    requires DistinctIds(txs) && k < |txs| && !txs[k].fetched && r.tx == txs[k].id
    ensures !IsBlockMatch(w, txs, height, r)
  {}

  /** A block of one transaction that pays a watched invoice 5 and is not returned leads to no call. */
  lemma UnfetchedPaymentIsMissed(id: Id, a: Address, tx: TxReply, height: nat)
    requires tx.outputs == [Output(a, 5)] && !tx.fetched
    ensures IsBlockPayment(Watch([id], [a]), [tx], height, Rec(id, 5, tx.id, height))
    ensures forall r :: !IsBlockMatch(Watch([id], [a]), [tx], height, r)
    ensures !NothingMissed(Watch([id], [a]), [tx])
  {
    var w, r := Watch([id], [a]), Rec(id, 5, tx.id, height);
    assert tx.outputs[0] in tx.outputs && tx.outputs[..0] == [];
    assert TotalFor(tx.outputs, a) == 5;
    assert IsPayment(w, tx, height, 0, r);
    assert IsTxPayment(w, [tx][0], height, r);
    assert Pays(tx.outputs, w.addresses[0]);
    assert PaysSome(w.addresses, [tx][0].outputs);
  }

  ghost predicate IsPaymentAt(w: Watch, blocks: Node, height: nat, r: Rec) {
    blocks(height).Some? && IsBlockPayment(w, blocks(height).value, height, r)
  }

  ghost predicate NothingMissedAt(w: Watch, blocks: Node, height: nat) {
    blocks(height).Some? ==> NothingMissed(w, blocks(height).value)
  }

  ghost predicate DistinctIdsAt(blocks: Node, height: nat) {
    blocks(height).Some? ==> DistinctIds(blocks(height).value)
  }

  ghost predicate AllRecordedAt(w: Watch, blocks: Node, height: nat, recs: seq<Rec>) {
    forall r :: IsPaymentAt(w, blocks, height, r) ==> r in recs
  }

  lemma BlockOfScan(w: Watch, blocks: Node, first: nat, next: nat, recs: seq<Rec>, height: nat)
    requires w.Valid() && IsWholeScan(w, blocks, first, next, recs)
    requires first <= height < next && DistinctIdsAt(blocks, height)
    ensures AllRecordedAt(w, blocks, height, recs) <==> NothingMissedAt(w, blocks, height)
  {
    hide IsBlockMatch, IsBlockPayment, NothingMissed, DistinctIds;
    var txs := blocks(height).value;
    forall r: Rec | r.height == height ensures r in recs <==> IsBlockMatch(w, txs, height, r) {
      assert IsMatchAt(w, blocks, height, r) <==> IsBlockMatch(w, txs, height, r);
    }
    BlockIsCompleteIff(w, txs, height, recs);
    assert forall r :: IsPaymentAt(w, blocks, height, r) <==> IsBlockPayment(w, txs, height, r);
  }

  /** The same of all blocks of a scan: what it records is all there is exactly when nothing it missed pays a watched invoice. */
  lemma ScanIsCompleteIff(w: Watch, blocks: Node, first: nat, next: nat, recs: seq<Rec>)
    requires w.Valid() && IsWholeScan(w, blocks, first, next, recs)
    requires forall h :: first <= h < next ==> DistinctIdsAt(blocks, h)
    ensures (forall h :: first <= h < next ==> AllRecordedAt(w, blocks, h, recs))
       <==> (forall h :: first <= h < next ==> NothingMissedAt(w, blocks, h))
  {
    forall h | first <= h < next ensures AllRecordedAt(w, blocks, h, recs) <==> NothingMissedAt(w, blocks, h) {
      BlockOfScan(w, blocks, first, next, recs, h);
    }
  }

  // ---------------------------------------------------------------------------------
  // The wallet's recovery scan
  // ---------------------------------------------------------------------------------

  const BATCH := 100

  /** More than 1500 blocks lie between the configured start and the tip. */
  predicate IsReseeded(chain: nat, scanFrom: nat) {
    chain > 1500 && chain - 1500 > scanFrom
  }

  /** The first block of the recovery: near the tip, unless the wallet is younger than that. */
  function RecoveryStart(chain: nat, scanFrom: nat): nat {
    if IsReseeded(chain, scanFrom) then chain - 1500 + 1 else scanFrom
  }

  /** The batches stay within 32 bits. */
  predicate BatchesFit(start: nat, chain: nat) {
    start >= chain || start + (chain - start) / 100 * 100 + 100 <= 0xFFFF_FFFF
  }

  /** The wallet that the recovery begins with: seeded near the tip, at the position after the frontier. */
  function Reseeded(s: State, chain: nat, scanFrom: nat, frontier: Option<nat>): State {
    if IsReseeded(chain, scanFrom) && frontier.Some? then s.(next := frontier.value) else s
  }

  /**
   The recovery visits every height from its start to the tip once and in order, and gives the
   wallet each block that the node returns.  It fails in three cases only: the node does not
   tell the tip, or not the frontier to seed from, or the end of a batch overflows 32 bits.  A
   start at the tip visits nothing.
   */
  method RecoveryScan(
    wallet: AnchorWallet, chain: Option<nat>, scanFrom: nat, frontier: Option<nat>, blocks: Node)
    returns (ok: bool, ghost next: nat)
    requires scanFrom <= MAX_U32 && (chain.Some? ==> chain.value <= MAX_U32)
    modifies wallet
    ensures chain.None? || (chain.value > scanFrom + 1500 && frontier.None?) ==>
      !ok && wallet.Value() == old(wallet.Value())
    ensures chain.Some? && (chain.value > scanFrom + 1500 ==> frontier.Some?) ==>
      var start := if chain.value > scanFrom + 1500 then chain.value - 1499 else scanFrom;
      var seeded := if chain.value > scanFrom + 1500 then old(wallet.Value()).(next := frontier.value) else old(wallet.Value());
      && (ok <==> BatchesFit(start, chain.value))
      && start <= next
      && (ok ==> next == if start >= chain.value then start else chain.value + 1)
      && wallet.Value() == FedRange(blocks, seeded, start, next)
  {
    next := 0;
    if chain.None? {
      return false, next;
    }
    if IsReseeded(chain.value, scanFrom) {
      if frontier.None? {
        return false, next;
      }
      wallet.InitFromZebra(frontier.value);
    }
    ok, next := RecoverRange(wallet, RecoveryStart(chain.value, scanFrom), chain.value, blocks);
  }

  /** One batch of the recovery that began with the wallet s at the height `start`. */
  method RecoverBatch(wallet: AnchorWallet, current: nat, end: nat, blocks: Node, ghost s: State, ghost start: nat)
    requires start <= current <= end + 1 && wallet.Value() == FedRange(blocks, s, start, current)
    modifies wallet
    ensures wallet.Value() == FedRange(blocks, s, start, end + 1)
  {
    hide Processed, FedRange;
    for height := current to end + 1
      invariant wallet.Value() == FedRange(blocks, s, start, height)
    {
      if blocks(height).Some? {
        FeedWallet(wallet, blocks(height).value, height);
        OneMoreFed(blocks, s, start, height);
      } else {
        OneLeftOut(blocks, s, start, height);
      }
    }
  }

  /** A batch may begin here. */
  predicate IsBatchStart(start: nat, chain: nat, current: nat) {
    start <= current <= chain && (current - start) % BATCH == 0
  }

  /** Between two batches, or after the last one, when all of them fitted. */
  predicate IsUnderWay(start: nat, chain: nat, current: nat) {
    start < chain && start <= current <= chain + 1
    && if current <= chain then IsBatchStart(start, chain, current) else BatchesFit(start, chain)
  }

  /** The last block of a batch. */
  function BatchEnd(chain: nat, current: nat): nat {
    if current + BATCH - 1 < chain then current + BATCH - 1 else chain
  }

  lemma BatchOverflows(start: nat, chain: nat, current: nat)
    requires IsUnderWay(start, chain, current) && current <= chain && current + BATCH > MAX_U32
    ensures !BatchesFit(start, chain)
  {}

  lemma BatchFits(start: nat, chain: nat, current: nat, end: nat)
    requires IsUnderWay(start, chain, current) && current <= chain && current + BATCH <= MAX_U32
    requires end == BatchEnd(chain, current)
    ensures start <= current <= end <= chain && IsUnderWay(start, chain, end + 1)
  {}

  lemma AllBatchesFitted(start: nat, chain: nat, current: nat)
    requires IsUnderWay(start, chain, current) && current > chain
    ensures BatchesFit(start, chain) && current == chain + 1 && start < current
  {}

  /** The batches of the recovery. */
  method RecoverRange(wallet: AnchorWallet, start: nat, chain: nat, blocks: Node)
    returns (ok: bool, ghost next: nat)
    requires start <= MAX_U32 && chain <= MAX_U32
    modifies wallet
    ensures ok <==> BatchesFit(start, chain)
    ensures start <= next
    ensures ok ==> next == if start >= chain then start else chain + 1
    ensures wallet.Value() == FedRange(blocks, old(wallet.Value()), start, next)
  {
    next := start;
    ghost var before := wallet.Value();
    assert wallet.Value() == FedRange(blocks, before, start, start);
    if start >= chain {
      return true, next;
    }
    assert IsUnderWay(start, chain, start);
    hide *;
    var current := start;
    while current <= chain
      invariant IsUnderWay(start, chain, current) && start <= current && next == current
      invariant wallet.Value() == FedRange(blocks, before, start, current)
      decreases chain + 1 - current
    {
      if current + BATCH > MAX_U32 {
        BatchOverflows(start, chain, current);
        return false, next;
      }
      var end := BatchEnd(chain, current);
      BatchFits(start, chain, current, end);
      RecoverBatch(wallet, current, end, blocks, before, start);
      current := end + 1;
      next := current;
    }
    AllBatchesFitted(start, chain, current);
    ok := true;
  }
}
