/**
 src/anchor.rs `run_anchor`, step by step, beside everything that runs at the same time:
 leaf inserts, recordings by an administrator or on the command line, the confirmation
 loop, the wallet's view of the chain, errors, and restarts between any two steps.

 A run is any sequence of events.  An event that the program would refuse, or that does not
 apply in the current phase, changes nothing.  The answers of the node and the output of the
 transaction builder are part of the events.
 */
module Protocol {
  import opened Bytes
  import opened Results
  import opened Merkle
  import opened LeafLog
  import opened Journal
  import opened Wallet

  /** Where the anchor loop stands. */
  datatype Phase =
    | Idle
    | RootRead(root: Digest, count: nat)   // no broadcast is prepared; a height is asked for
    | Built(intent: Intent)                // signed, not yet journaled
    | Journaled(intent: Intent)
    | Broadcast(intent: Intent)            // the node has the transaction
    | MarkedSpent(intent: Intent)

  /**
   `sent` lists what was ever handed to the node.  `mine` are the transactions that this
   process journaled or found prepared when it started.
   */
  datatype System = System(
    log: Log,
    journal: map<Txid, Row>,
    phase: Phase,
    notes: seq<Tracked>,
    sent: seq<Intent>,
    mine: set<Txid>)

  datatype Event =
    | InsertLeaf(leaf: LeafRow)
    | ReadRoot
    | Build(builtTxid: Txid, builtRaw: ByteString, amount: nat)
    | WriteJournal
    | Submit(nodeHasIt: bool)
    | MarkSpent
    | Finish(now: nat)
    | LoopError
    | Restart(rescanned: seq<Tracked>)
    | Receive(note: Tracked)
    | SeenSpent(nullifier: Digest)
    | AdminRecord(root: Digest, txid: Txid, height: nat, now: nat)
    | CliRecord(root: Digest, txid: Txid, claimed: Option<nat>)
    | NodeConfirms(txid: Txid, height: nat, now: nat)
    | NodeDoesNotConfirm(txid: Txid, now: nat)

  function Tables(s: System): Anchors {
    Anchors(s.log.roots, s.journal)
  }

  function WithTables(s: System, a: Option<Anchors>): System {
    if a.None? then s else s.(log := s.log.(roots := a.value.roots), journal := a.value.journal)
  }

  predicate IsSpent(notes: seq<Tracked>, position: nat) {
    exists i :: 0 <= i < |notes| && notes[i].position == position && notes[i].spent
  }

  predicate IsTracked(notes: seq<Tracked>, position: nat) {
    First(notes, IsAt(position)).Some?
  }

  /** `ensure_spent_at_position`. */
  function Spend(notes: seq<Tracked>, position: nat): seq<Tracked> {
    SpendAt(notes, First(notes, IsAt(position)))
  }

  ghost function PreparedTxids(journal: map<Txid, Row>): set<Txid> {
    set t | t in journal && journal[t].status == Prepared
  }

  /** Resumes the prepared broadcast, or reads the current root. */
  ghost function ReadRootStep(H: Hash, s: System): System {
    if HasPrepared(s.journal) then
      var t :| t in s.journal && s.journal[t].status == Prepared;
      s.(phase := Journaled(IntentOf(t, s.journal[t])))
    else
      var root := CurrentRoot(H, s.log);
      var s' := s.(log := s.log.(roots := RootsAfterCurrent(H, s.log)));
      if root.None? then s' else s'.(phase := RootRead(root.value.hash, root.value.count))
  }

  ghost function LoopStep(H: Hash, s: System, e: Event): System {
    match e
    case ReadRoot => if s.phase.Idle? then ReadRootStep(H, s) else s
    case Build(txid, raw, amount) =>
      if !s.phase.RootRead? then s
      else
        var plan := PlanFor(s.notes, amount);
        if plan.None? then s.(phase := Idle)
        else s.(phase := Built(Intent(txid, s.phase.root, s.phase.count, raw, plan.value.position)))
    case WriteJournal =>
      if !s.phase.Built? then s
      else
        var a := Prepare(Tables(s), s.phase.intent);
        if a.None? then s.(phase := Idle)
        else WithTables(s, a).(phase := Journaled(s.phase.intent), mine := s.mine + {s.phase.intent.txid})
    case Submit(nodeHasIt) =>
      if !s.phase.Journaled? then s
      else s.(sent := s.sent + [s.phase.intent], phase := if nodeHasIt then Broadcast(s.phase.intent) else Idle)
    case MarkSpent =>
      if !s.phase.Broadcast? then s
      else if !IsTracked(s.notes, s.phase.intent.position) then s.(phase := Idle)
      else s.(notes := Spend(s.notes, s.phase.intent.position), phase := MarkedSpent(s.phase.intent))
    case Finish(now) =>
      if !s.phase.MarkedSpent? then s
      else WithTables(s, Finalize(Tables(s), s.phase.intent.txid, now)).(phase := Idle)
    case LoopError => s.(phase := Idle)
    case Restart(rescanned) =>
      if !UniquePositions(rescanned) then s
      else s.(phase := Idle, notes := rescanned, mine := PreparedTxids(s.journal))
    case _ => s
  }

  /** A recording, a confirmation, or a failed confirmation. */
  function Reconciliation(a: Anchors, e: Event): Option<Anchors> {
    match e
    case AdminRecord(root, txid, height, now) => RecordManual(a, root, txid, height, now)
    case CliRecord(root, txid, claimed) => RecordAnchor(a, root, txid, claimed)
    case NodeConfirms(txid, height, now) => Confirm(a, txid, height, now)
    case NodeDoesNotConfirm(txid, now) =>
      if txid in a.journal then Retry(a, txid, now, RetrySeconds(a.journal[txid].attempts)) else None
    case _ => None
  }

  predicate IsReconciliation(e: Event) {
    e.AdminRecord? || e.CliRecord? || e.NodeConfirms? || e.NodeDoesNotConfirm?
  }

  ghost function Next(H: Hash, s: System, e: Event): System {
    if IsReconciliation(e) then WithTables(s, Reconciliation(Tables(s), e))
    else
      match e
      case InsertLeaf(leaf) => s.(log := LeafInserted(H, s.log, leaf))
      case Receive(note) =>
        if IsTracked(s.notes, note.position) then s else s.(notes := s.notes + [note.(spent := false)])
      case SeenSpent(nullifier) => s.(notes := SpendAt(s.notes, First(s.notes, IsUnspentOf(nullifier))))
      case _ => LoopStep(H, s, e)
  }

  const START := System(Log([], []), map[], Idle, [], [], {})

  ghost function Run(H: Hash, events: seq<Event>): System {
    if events == [] then START else Next(H, Run(H, events[..|events| - 1]), events[|events| - 1])
  }

  // ---------------------------------------------------------------------------------
  // The invariant
  // ---------------------------------------------------------------------------------

  ghost predicate UniquePositions(notes: seq<Tracked>) {
    forall i, j :: 0 <= i < j < |notes| ==> notes[i].position != notes[j].position
  }

  /** The journal holds exactly this transaction. */
  predicate IsJournaled(journal: map<Txid, Row>, i: Intent) {
    i.txid in journal && IntentOf(i.txid, journal[i.txid]) == i
  }

  ghost predicate PhaseInv(s: System) {
    match s.phase
    case Idle => true
    case RootRead(_, _) => !HasPrepared(s.journal)
    case Built(i) => !HasPrepared(s.journal) && forall t :: t in s.mine && t in s.journal ==> s.journal[t].position != i.position
    case Journaled(i) => IsJournaled(s.journal, i) && s.journal[i.txid].status == Prepared
    case Broadcast(i) => IsJournaled(s.journal, i) && s.journal[i.txid].status == Prepared
    case MarkedSpent(i) => IsJournaled(s.journal, i) && s.journal[i.txid].status == Prepared && IsSpent(s.notes, i.position)
  }

  /** What was sent was journaled before, and still is. */
  ghost predicate SentInv(s: System) {
    forall i :: i in s.sent ==> IsJournaled(s.journal, i)
  }

  /** The notes behind this process's transactions. */
  ghost predicate NotesInv(s: System) {
    && UniquePositions(s.notes)
    && (forall t :: t in s.journal && s.journal[t].status == Prepared ==> t in s.mine)
    && (forall t :: t in s.mine ==> t in s.journal)
    && (forall t :: t in s.mine && s.journal[t].status == Recorded ==> IsSpent(s.notes, s.journal[t].position))
    && (forall t, u :: t in s.mine && u in s.mine && s.journal[t].position == s.journal[u].position ==> t == u)
  }

  ghost predicate SystemInv(H: Hash, s: System) {
    && LogInv(H, s.log)
    && AnchorsInv(Tables(s))
    && PhaseInv(s)
    && SentInv(s)
    && NotesInv(s)
  }

  /** Everything that an event may do to the tables. */
  ghost predicate TablesKept(s: System, s': System) {
    RootsKept(s.log.roots, s'.log.roots) && JournalKept(s.journal, s'.journal)
  }

  /** Spending a note, if there is one, keeps every other note as it was. */
  lemma SpendAtSpends(notes: seq<Tracked>, i: Option<nat>)
    requires UniquePositions(notes) && (i.Some? ==> i.value < |notes|)
    ensures UniquePositions(SpendAt(notes, i))
    ensures forall p :: IsSpent(notes, p) ==> IsSpent(SpendAt(notes, i), p)
    ensures i.Some? ==> IsSpent(SpendAt(notes, i), notes[i.value].position)
  {
    var notes' := SpendAt(notes, i);
    forall p | IsSpent(notes, p) ensures IsSpent(notes', p) {
      var k :| 0 <= k < |notes| && notes[k].position == p && notes[k].spent;
      assert notes'[k].position == p && notes'[k].spent;
    }
    if i.Some? {
      assert notes'[i.value].spent;
    }
  }

  /** Changes of the tables that leave the shape of the journal alone leave the rest alone. */
  lemma SameShapeKeeps(s: System, s': System)
    requires PhaseInv(s) && SentInv(s) && NotesInv(s)
    requires s'.phase == s.phase && s'.notes == s.notes && s'.sent == s.sent && s'.mine == s.mine
    requires SameShape(s.journal, s'.journal)
    ensures PhaseInv(s') && SentInv(s') && NotesInv(s')
  {}

  /** A longer notes list, or one with more notes spent, leaves everything else alone. */
  lemma NotesChangeKeeps(s: System, notes: seq<Tracked>)
    requires PhaseInv(s) && SentInv(s) && NotesInv(s)
    requires UniquePositions(notes) && forall p :: IsSpent(s.notes, p) ==> IsSpent(notes, p)
    ensures PhaseInv(s.(notes := notes)) && SentInv(s.(notes := notes)) && NotesInv(s.(notes := notes))
  {}

  lemma LogRowsKept(H: Hash, log: Log, roots: seq<RootRow>)
    requires LogInv(H, log) && RootsKept(log.roots, roots) && |roots| == |log.roots|
    ensures LogInv(H, log.(roots := roots))
  {
    forall k | 0 <= k < |roots| ensures RootRowIs(H, log.leaves, roots[k], k) {
      assert RootRowIs(H, log.leaves, log.roots[k], k) && RowKept(log.roots[k], roots[k]);
    }
  }

  lemma InvOfTables(H: Hash, s: System)
    requires SystemInv(H, s)
    ensures AnchorsInv(Tables(s))
  {}

  /** What inserting a leaf does to the root table: nothing, or one new row at its end. */
  lemma InsertedRow(H: Hash, log: Log, leaf: LeafRow)
    requires LogInv(H, log) && LeafInserted(H, log, leaf).roots != log.roots
    ensures var roots' := LeafInserted(H, log, leaf).roots;
      roots' == log.roots + [roots'[|log.roots|]] && roots'[|log.roots|].count == |log.roots| + 1
      && roots'[|log.roots|].txid.None? && roots'[|log.roots|].height.None?
  {
    hide RootOf;
  }

  /** A longer root table with the same journal. */
  lemma LogChangeKeeps(H: Hash, s: System, log: Log)
    requires SystemInv(H, s) && LogInv(H, log) && AnchorsInv(Anchors(log.roots, s.journal))
    requires RootsKept(s.log.roots, log.roots)
    ensures SystemInv(H, s.(log := log)) && TablesKept(s, s.(log := log))
  {
    hide AnchorsInv, LogInv, IsJournaled, IsSpent;
  }

  lemma InsertLeafKeeps(H: Hash, s: System, leaf: LeafRow)
    requires SystemInv(H, s) && DistinctRoots(LeafInserted(H, s.log, leaf).roots)
    ensures var s' := s.(log := LeafInserted(H, s.log, leaf)); SystemInv(H, s') && TablesKept(s, s')
  {
    var log' := LeafInserted(H, s.log, leaf);
    InvOfTables(H, s);
    LogOfSystem(H, s);
    InsertKeepsLogInv(H, s.log, leaf);
    if log'.roots != s.log.roots {
      InsertedRow(H, s.log, leaf);
      AppendRootKeeps(Tables(s), log'.roots[|s.log.roots|]);
    }
    hide AnchorsInv, LogInv, LeafInserted, SystemInv;
    LogChangeKeeps(H, s, log');
  }

  lemma LogOfSystem(H: Hash, s: System)
    requires SystemInv(H, s)
    ensures LogInv(H, s.log)
  {}

  lemma ReceiveKeeps(H: Hash, s: System, note: Tracked)
    requires SystemInv(H, s) && !IsTracked(s.notes, note.position)
    ensures SystemInv(H, s.(notes := s.notes + [note.(spent := false)]))
  {
    var notes := s.notes + [note.(spent := false)];
    forall i | 0 <= i < |s.notes| ensures s.notes[i].position != note.position {
      assert !IsAt(note.position)(s.notes[i]);
    }
    forall p | IsSpent(s.notes, p) ensures IsSpent(notes, p) {
      var k :| 0 <= k < |s.notes| && s.notes[k].position == p && s.notes[k].spent;
      assert notes[k] == s.notes[k];
    }
    NotesChangeKeeps(s, notes);
  }

  lemma SpendKeeps(H: Hash, s: System, i: Option<nat>)
    requires SystemInv(H, s) && (i.Some? ==> i.value < |s.notes|)
    ensures SystemInv(H, s.(notes := SpendAt(s.notes, i)))
  {
    SpendAtSpends(s.notes, i);
    NotesChangeKeeps(s, SpendAt(s.notes, i));
  }

  /** A transaction that failed, or was harmless. */
  ghost predicate HarmlessChange(s: Anchors, a: Option<Anchors>) {
    a.Some? ==> Harmless(s, a.value)
  }

  lemma HarmlessChangeKeeps(H: Hash, s: System, a: Option<Anchors>)
    requires SystemInv(H, s) && HarmlessChange(Tables(s), a)
    ensures SystemInv(H, WithTables(s, a)) && TablesKept(s, WithTables(s, a))
  {
    if a.Some? {
      LogRowsKept(H, s.log, a.value.roots);
      SameShapeKeeps(s, WithTables(s, a));
    }
  }

  lemma ReconciliationIsHarmless(a: Anchors, e: Event)
    requires AnchorsInv(a)
    ensures HarmlessChange(a, Reconciliation(a, e))
  {
    if Reconciliation(a, e).Some? {
      match e {
        case AdminRecord(root, txid, height, now) => RecordManualKeeps(a, root, txid, height, now);
        case CliRecord(root, txid, claimed) => RecordAnchorKeeps(a, root, txid, claimed);
        case NodeConfirms(txid, height, now) => ConfirmKeeps(a, txid, height, now);
        case NodeDoesNotConfirm(txid, now) => RetryKeeps(a, txid, now, RetrySeconds(a.journal[txid].attempts));
      }
    }
  }

  lemma UnspentIsNotSpent(notes: seq<Tracked>, i: nat)
    requires UniquePositions(notes) && i < |notes| && !notes[i].spent
    ensures !IsSpent(notes, notes[i].position)
  {}

  /** Moving on in the loop, with what the new phase asks for. */
  lemma PhaseChangeKeeps(H: Hash, s: System, phase: Phase)
    requires SystemInv(H, s) && PhaseInv(s.(phase := phase))
    ensures SystemInv(H, s.(phase := phase)) && TablesKept(s, s.(phase := phase))
  {
    hide AnchorsInv, LogInv, IsJournaled, IsSpent, IntentOf;
  }

  /** What a new transaction would spend, nothing that this process journaled spends. */
  lemma PlannedNoteIsFree(s: System, amount: nat)
    requires NotesInv(s) && !HasPrepared(s.journal) && PlanFor(s.notes, amount).Some?
    ensures var p := PlanFor(s.notes, amount).value.position;
      forall t :: t in s.mine && t in s.journal ==> s.journal[t].position != p
  {
    UnspentIsNotSpent(s.notes, First(s.notes, IsEnough(amount + FEE)).value);
  }

  lemma ReadRootPhase(H: Hash, s: System)
    requires RootsAfterCurrent(H, s.log) == s.log.roots && s.phase.Idle?
    ensures var s' := ReadRootStep(H, s); s' == s.(phase := s'.phase) && PhaseInv(s')
  {}

  lemma ReadRootKeeps(H: Hash, s: System)
    requires SystemInv(H, s) && s.phase.Idle?
    ensures SystemInv(H, ReadRootStep(H, s)) && TablesKept(s, ReadRootStep(H, s))
  {
    CurrentRootIsLast(H, s.log);
    ReadRootPhase(H, s);
    hide ReadRootStep;
    PhaseChangeKeeps(H, s, ReadRootStep(H, s).phase);
  }

  lemma BuildKeeps(H: Hash, s: System, e: Event)
    requires SystemInv(H, s) && s.phase.RootRead? && e.Build?
    ensures SystemInv(H, LoopStep(H, s, e)) && TablesKept(s, LoopStep(H, s, e))
  {
    var plan := PlanFor(s.notes, e.amount);
    if plan.None? {
      PhaseChangeKeeps(H, s, Idle);
    } else {
      PlannedNoteIsFree(s, e.amount);
      PhaseChangeKeeps(H, s, Built(Intent(e.builtTxid, s.phase.root, s.phase.count, e.builtRaw, plan.value.position)));
    }
  }

  /** The state after the intent has been journaled. */
  function WithIntent(s: System, i: Intent): System {
    s.(journal := s.journal[i.txid := NewRow(i)], phase := Journaled(i), mine := s.mine + {i.txid})
  }

  lemma FreshRowKeepsNotes(s: System, i: Intent)
    requires NotesInv(s) && i.txid !in s.journal
    requires forall t :: t in s.mine ==> s.journal[t].position != i.position
    ensures NotesInv(WithIntent(s, i))
  {}

  lemma FreshRowKeepsSent(s: System, i: Intent)
    requires SentInv(s) && i.txid !in s.journal
    ensures SentInv(WithIntent(s, i)) && PhaseInv(WithIntent(s, i))
  {}

  lemma FreshRowKeeps(H: Hash, s: System, i: Intent)
    requires SystemInv(H, s) && s.phase == Built(i) && IsFree(s.journal, i)
    requires AnchorsInv(Anchors(s.log.roots, s.journal[i.txid := NewRow(i)]))
    ensures SystemInv(H, WithIntent(s, i))
  {
    FreshRowKeepsNotes(s, i);
    FreshRowKeepsSent(s, i);
    assert Tables(WithIntent(s, i)) == Anchors(s.log.roots, s.journal[i.txid := NewRow(i)]);
  }

  lemma WriteJournalKeeps(H: Hash, s: System)
    requires SystemInv(H, s) && s.phase.Built?
    ensures SystemInv(H, LoopStep(H, s, WriteJournal)) && TablesKept(s, LoopStep(H, s, WriteJournal))
  {
    var i := s.phase.intent;
    var a := Prepare(Tables(s), i);
    InvOfTables(H, s);
    NoneIsPrepared(H, s);
    hide SystemInv, AnchorsInv, IntentOf, HasUnrecordedRoot, HasPrepared;
    if a.None? {
      PhaseChangeKeeps(H, s, Idle);
    } else {
      PrepareKeeps(Tables(s), i);
      FreshlyPrepared(Tables(s), i);
      FreshRowKeeps(H, s, i);
    }
  }

  lemma NoneIsPrepared(H: Hash, s: System)
    requires SystemInv(H, s) && s.phase.Built?
    ensures !HasPrepared(s.journal)
  {}

  /** Without a prepared row, what is prepared is a new row. */
  lemma FreshlyPrepared(a: Anchors, i: Intent)
    requires !HasPrepared(a.journal) && Prepare(a, i).Some?
    requires Prepare(a, i).value.journal[i.txid].status == Prepared
    ensures IsFree(a.journal, i) && Prepare(a, i).value == Anchors(a.roots, a.journal[i.txid := NewRow(i)])
  {}

  lemma FinalizedRowKeeps(s: System, i: Intent, now: nat)
    requires SentInv(s) && NotesInv(s) && IsJournaled(s.journal, i) && IsSpent(s.notes, i.position)
    ensures var s' := s.(journal := s.journal[i.txid := Finalized(s.journal[i.txid], now)], phase := Idle);
      SentInv(s') && NotesInv(s')
  {}

  lemma FinalizedKeeps(H: Hash, s: System, i: Intent, a: Anchors, now: nat)
    requires SystemInv(H, s) && IsJournaled(s.journal, i) && IsSpent(s.notes, i.position)
    requires AnchorsInv(a) && RootsKept(s.log.roots, a.roots) && |a.roots| == |s.log.roots|
    requires a.journal == s.journal[i.txid := Finalized(s.journal[i.txid], now)]
    ensures SystemInv(H, s.(log := s.log.(roots := a.roots), journal := a.journal, phase := Idle))
  {
    LogRowsKept(H, s.log, a.roots);
    FinalizedRowKeeps(s, i, now);
  }

  lemma SpentAndJournaled(H: Hash, s: System)
    requires SystemInv(H, s) && s.phase.MarkedSpent?
    ensures IsJournaled(s.journal, s.phase.intent) && IsSpent(s.notes, s.phase.intent.position)
  {}

  lemma FinishKeeps(H: Hash, s: System, now: nat)
    requires SystemInv(H, s) && s.phase.MarkedSpent?
    ensures var s' := WithTables(s, Finalize(Tables(s), s.phase.intent.txid, now)).(phase := Idle);
      SystemInv(H, s') && TablesKept(s, s')
  {
    var i := s.phase.intent;
    var a := Finalize(Tables(s), i.txid, now);
    InvOfTables(H, s);
    SpentAndJournaled(H, s);
    hide SystemInv, AnchorsInv, Finalize, IsJournaled, IsSpent;
    if a.None? {
      PhaseChangeKeeps(H, s, Idle);
    } else {
      FinalizeKeeps(Tables(s), i.txid, now);
      FinalizedKeeps(H, s, i, a.value, now);
      assert WithTables(s, a).(phase := Idle)
          == s.(log := s.log.(roots := a.value.roots), journal := a.value.journal, phase := Idle);
    }
  }

  /** The transaction handed over is the journaled one. */
  lemma SubmitKeeps(H: Hash, s: System, nodeHasIt: bool)
    requires SystemInv(H, s) && s.phase.Journaled?
    ensures var i := s.phase.intent;
      var s' := s.(sent := s.sent + [i], phase := if nodeHasIt then Broadcast(i) else Idle);
      SystemInv(H, s') && TablesKept(s, s')
  {
    hide AnchorsInv, LogInv;
    var i := s.phase.intent;
    PhaseChangeKeeps(H, s, if nodeHasIt then Broadcast(i) else Idle);
    assert forall j :: j in s.sent + [i] ==> j in s.sent || j == i;
  }

  lemma MarkSpentKeeps(H: Hash, s: System)
    requires SystemInv(H, s) && s.phase.Broadcast? && IsTracked(s.notes, s.phase.intent.position)
    ensures var i := s.phase.intent;
      var s' := s.(notes := Spend(s.notes, i.position), phase := MarkedSpent(i));
      SystemInv(H, s') && TablesKept(s, s')
  {
    var i := s.phase.intent;
    var k := First(s.notes, IsAt(i.position));
    SpendAtSpends(s.notes, k);
    SpendKeeps(H, s, k);
    PhaseChangeKeeps(H, s.(notes := Spend(s.notes, i.position)), MarkedSpent(i));
  }

  /** A restarted process answers for the prepared transaction alone. */
  lemma RestartKeeps(H: Hash, s: System, rescanned: seq<Tracked>)
    requires SystemInv(H, s) && UniquePositions(rescanned)
    ensures var s' := s.(phase := Idle, notes := rescanned, mine := PreparedTxids(s.journal));
      SystemInv(H, s') && TablesKept(s, s')
  {
    PhaseChangeKeeps(H, s, Idle);
  }

  lemma LoopStepKeeps(H: Hash, s: System, e: Event)
    requires SystemInv(H, s)
    ensures SystemInv(H, LoopStep(H, s, e)) && TablesKept(s, LoopStep(H, s, e))
  {
    match e {
      case ReadRoot =>
        if s.phase.Idle? {
          ReadRootKeeps(H, s);
        }
      case Build(_, _, _) =>
        if s.phase.RootRead? {
          BuildKeeps(H, s, e);
        }
      case WriteJournal =>
        if s.phase.Built? {
          WriteJournalKeeps(H, s);
        }
      case Submit(nodeHasIt) =>
        if s.phase.Journaled? {
          SubmitKeeps(H, s, nodeHasIt);
        }
      case MarkSpent =>
        if s.phase.Broadcast? {
          if IsTracked(s.notes, s.phase.intent.position) {
            MarkSpentKeeps(H, s);
          } else {
            PhaseChangeKeeps(H, s, Idle);
          }
        }
      case Finish(now) =>
        if s.phase.MarkedSpent? {
          FinishKeeps(H, s, now);
        }
      case LoopError =>
        PhaseChangeKeeps(H, s, Idle);
      case Restart(rescanned) =>
        if UniquePositions(rescanned) {
          RestartKeeps(H, s, rescanned);
        }
      case _ =>
    }
  }

  lemma ReconciliationKeeps(H: Hash, s: System, e: Event)
    requires SystemInv(H, s)
    ensures var s' := WithTables(s, Reconciliation(Tables(s), e)); SystemInv(H, s') && TablesKept(s, s')
  {
    InvOfTables(H, s);
    hide SystemInv, AnchorsInv;
    ReconciliationIsHarmless(Tables(s), e);
    HarmlessChangeKeeps(H, s, Reconciliation(Tables(s), e));
  }

  lemma NextKeeps(H: Hash, s: System, e: Event)
    requires SystemInv(H, s) && DistinctRoots(Next(H, s, e).log.roots)
    ensures SystemInv(H, Next(H, s, e)) && TablesKept(s, Next(H, s, e))
  {
    hide SystemInv, LoopStep, Reconciliation;
    if IsReconciliation(e) {
      ReconciliationKeeps(H, s, e);
    } else {
      match e {
        case InsertLeaf(leaf) => InsertLeafKeeps(H, s, leaf);
        case Receive(note) =>
          if !IsTracked(s.notes, note.position) {
            ReceiveKeeps(H, s, note);
          }
        case SeenSpent(nullifier) => SpendKeeps(H, s, First(s.notes, IsUnspentOf(nullifier)));
        case _ => LoopStepKeeps(H, s, e);
      }
    }
  }
}
