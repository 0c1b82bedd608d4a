/**
 What holds over whole runs of the anchor protocol, for every interleaving and every crash.

 Runs start from an empty database.  The one assumption about the hash is that it is free of
 collisions on the inputs that were hashed for the roots of the log (`IsCleanRun`).
 */
module ProtocolRuns {
  import opened Bytes
  import opened Results
  import opened Merkle
  import opened Binding
  import opened LeafLog
  import opened Journal
  import opened Wallet
  import opened Protocol

  /** Roots that were there are there still, with the same hashes. */
  ghost predicate HashesKept(roots: seq<RootRow>, roots': seq<RootRow>) {
    |roots| <= |roots'| && forall k :: 0 <= k < |roots| ==> roots'[k].hash == roots[k].hash
  }

  // ---------------------------------------------------------------------------------
  // The log, for every hash
  // ---------------------------------------------------------------------------------

  /** The same roots and counts, whatever else the rows say. */
  ghost predicate SameRoots(roots: seq<RootRow>, roots': seq<RootRow>) {
    |roots| == |roots'|
    && forall k :: 0 <= k < |roots| ==> roots'[k].hash == roots[k].hash && roots'[k].count == roots[k].count
  }

  lemma SameRootsKeepLogInv(H: Hash, log: Log, roots: seq<RootRow>)
    requires LogInv(H, log) && SameRoots(log.roots, roots)
    ensures LogInv(H, log.(roots := roots))
  {
    forall k | 0 <= k < |roots| ensures RootRowIs(H, log.leaves, roots[k], k) {
      assert RootRowIs(H, log.leaves, log.roots[k], k);
    }
  }

  lemma ReconciliationKeepsRoots(a: Anchors, e: Event)
    ensures Reconciliation(a, e).Some? ==> SameRoots(a.roots, Reconciliation(a, e).value.roots)
  {
    if e.AdminRecord? {
      ManualKeepsRoots(a, e.root, e.txid, e.height, e.now);
    }
    hide RecordManual;
  }

  lemma ManualKeepsRoots(a: Anchors, root: Digest, txid: Txid, height: nat, now: nat)
    ensures var a' := RecordManual(a, root, txid, height, now);
      a'.Some? ==> SameRoots(a.roots, a'.value.roots)
  {}

  lemma WriteJournalKeepsLog(H: Hash, s: System)
    ensures LoopStep(H, s, WriteJournal).log == s.log
  {}

  lemma FinishKeepsRoots(s: System, txid: Txid, now: nat)
    ensures var s' := WithTables(s, Finalize(Tables(s), txid, now));
      SameRoots(s.log.roots, s'.log.roots) && s'.log.leaves == s.log.leaves
  {}

  lemma QuietStepsKeepTables(H: Hash, s: System, e: Event)
    requires !e.WriteJournal? && !e.Finish? && !e.ReadRoot?
    ensures LoopStep(H, s, e).log == s.log && LoopStep(H, s, e).journal == s.journal
  {
    hide ReadRootStep, First, UniquePositions, PlanFor, Spend, Prepare, Finalize, IsTracked, PreparedTxids, Tables;
  }

  /** Steps of the loop other than journaling and finalizing leave log and journal alone. */
  lemma OtherStepsKeepTables(H: Hash, s: System, e: Event)
    requires LogInv(H, s.log) && !e.WriteJournal? && !e.Finish?
    ensures LoopStep(H, s, e).log == s.log && LoopStep(H, s, e).journal == s.journal
  {
    if e.ReadRoot? {
      ReadRootKeepsTables(H, s);
      hide LogInv, ReadRootStep;
    } else {
      hide LogInv, LoopStep;
      QuietStepsKeepTables(H, s, e);
    }
  }

  lemma ReadRootKeepsTables(H: Hash, s: System)
    requires LogInv(H, s.log)
    ensures ReadRootStep(H, s).log == s.log && ReadRootStep(H, s).journal == s.journal
    ensures ReadRootStep(H, s).sent == s.sent
  {
    CurrentRootIsLast(H, s.log);
    hide LogInv, CurrentRoot, RootsAfterCurrent, HasPrepared, IntentOf;
    assert s.log.(roots := s.log.roots) == s.log;
  }

  lemma LoopKeepsRoots(H: Hash, s: System, e: Event)
    requires LogInv(H, s.log)
    ensures SameRoots(s.log.roots, LoopStep(H, s, e).log.roots) && LoopStep(H, s, e).log.leaves == s.log.leaves
  {
    hide LogInv, Finalize, Prepare;
    if e.WriteJournal? {
      WriteJournalKeepsLog(H, s);
    } else if e.Finish? {
      if s.phase.MarkedSpent? {
        FinishKeepsRoots(s, s.phase.intent.txid, e.now);
      }
    } else {
      OtherStepsKeepTables(H, s, e);
    }
  }

  /** An event other than an insert keeps every root; an insert adds at most one. */
  lemma NextKeepsRoots(H: Hash, s: System, e: Event)
    requires LogInv(H, s.log) && !e.InsertLeaf?
    ensures SameRoots(s.log.roots, Next(H, s, e).log.roots) && Next(H, s, e).log.leaves == s.log.leaves
  {
    ReconciliationKeepsRoots(Tables(s), e);
    LoopKeepsRoots(H, s, e);
    hide LogInv, Reconciliation, LoopStep;
  }

  lemma NextKeepsLog(H: Hash, s: System, e: Event)
    requires LogInv(H, s.log)
    ensures LogInv(H, Next(H, s, e).log)
  {
    hide LogInv;
    if e.InsertLeaf? {
      InsertKeepsLogInv(H, s.log, e.leaf);
    } else {
      NextKeepsRoots(H, s, e);
      var log' := Next(H, s, e).log;
      hide Next;
      SameRootsKeepLogInv(H, s.log, log'.roots);
      assert log' == s.log.(roots := log'.roots);
    }
  }

  lemma NextKeepsHashes(H: Hash, s: System, e: Event)
    requires LogInv(H, s.log)
    ensures HashesKept(s.log.roots, Next(H, s, e).log.roots)
  {
    if !e.InsertLeaf? {
      NextKeepsRoots(H, s, e);
      hide Next, LogInv;
    }
  }

  /** Every root row of every reachable log is the root of its prefix, whatever the hash. */
  lemma {:induction false} RunLogInv(H: Hash, events: seq<Event>)
    ensures LogInv(H, Run(H, events).log)
  {
    if events != [] {
      RunLogInv(H, events[..|events| - 1]);
      NextKeepsLog(H, Run(H, events[..|events| - 1]), events[|events| - 1]);
    }
  }

  /** A log whose roots are hashed without collisions has roots with distinct hashes. */
  lemma DistinctRootsOfLog(H: Hash, inputs: set<Preimage>, log: Log)
    requires LogInv(H, log) && |log.leaves| <= MAX_U64 && InjectiveOn(H, inputs)
    requires forall k :: 0 < k <= |log.leaves| ==> RootInputs(H, Hashes(log.leaves[..k])) <= inputs
    ensures DistinctRoots(log.roots)
  {
    forall i, j | 0 <= i < j < |log.roots| ensures log.roots[i].hash != log.roots[j].hash {
      assert RootRowIs(H, log.leaves, log.roots[i], i) && RootRowIs(H, log.leaves, log.roots[j], j);
      var a, b := Hashes(log.leaves[..i + 1]), Hashes(log.leaves[..j + 1]);
      assert |a| != |b|;
      if log.roots[i].hash == log.roots[j].hash {
        ComputedRootInjective(H, inputs, a, b);
      }
    }
  }

  /** The hash is free of collisions on what was hashed for the roots of the run's log. */
  ghost predicate IsCleanRun(H: Hash, inputs: set<Preimage>, events: seq<Event>) {
    var leaves := Run(H, events).log.leaves;
    && InjectiveOn(H, inputs) && |leaves| <= MAX_U64
    && forall k :: 0 < k <= |leaves| ==> RootInputs(H, Hashes(leaves[..k])) <= inputs
  }

  lemma RunRootsAreDistinct(H: Hash, inputs: set<Preimage>, events: seq<Event>)
    requires IsCleanRun(H, inputs, events)
    ensures DistinctRoots(Run(H, events).log.roots)
  {
    RunLogInv(H, events);
    DistinctRootsOfLog(H, inputs, Run(H, events).log);
  }

  // ---------------------------------------------------------------------------------
  // The invariant, and what is never undone
  // ---------------------------------------------------------------------------------

  lemma {:induction false} InvOfRun(H: Hash, events: seq<Event>)
    requires DistinctRoots(Run(H, events).log.roots)
    ensures SystemInv(H, Run(H, events))
  {
    if events != [] {
      var front := events[..|events| - 1];
      RunLogInv(H, front);
      NextKeepsHashes(H, Run(H, front), events[|events| - 1]);
      InvOfRun(H, front);
      NextKeeps(H, Run(H, front), events[|events| - 1]);
    }
  }

  /** The invariant holds in every reachable state. */
  lemma RunInv(H: Hash, inputs: set<Preimage>, events: seq<Event>)
    requires IsCleanRun(H, inputs, events)
    ensures SystemInv(H, Run(H, events))
  {
    RunRootsAreDistinct(H, inputs, events);
    InvOfRun(H, events);
  }

  lemma JournalKeptTransitive(a: map<Txid, Row>, b: map<Txid, Row>, c: map<Txid, Row>)
    requires JournalKept(a, b) && JournalKept(b, c)
    ensures JournalKept(a, c)
  {}

  lemma {:induction false} TablesOfRun(H: Hash, events: seq<Event>, m: nat)
    requires m <= |events| && DistinctRoots(Run(H, events).log.roots)
    ensures TablesKept(Run(H, events[..m]), Run(H, events))
  {
    if m == |events| {
      assert events[..m] == events;
    } else {
      var front := events[..|events| - 1];
      var s, s' := Run(H, front), Run(H, events);
      assert front[..m] == events[..m];
      RunLogInv(H, front);
      NextKeepsHashes(H, s, events[|events| - 1]);
      InvOfRun(H, front);
      NextKeeps(H, s, events[|events| - 1]);
      TablesOfRun(H, front, m);
      RootsKeptTransitive(Run(H, events[..m]).log.roots, s.log.roots, s'.log.roots);
      JournalKeptTransitive(Run(H, events[..m]).journal, s.journal, s'.journal);
    }
  }

  /**
   Nothing recorded is ever undone: from any point of a run on, no journaled transaction is
   lost or altered, and no transaction id or height on a root row changes.
   */
  lemma RunKeepsTables(H: Hash, inputs: set<Preimage>, events: seq<Event>, m: nat)
    requires m <= |events| && IsCleanRun(H, inputs, events)
    ensures TablesKept(Run(H, events[..m]), Run(H, events))
  {
    RunRootsAreDistinct(H, inputs, events);
    TablesOfRun(H, events, m);
  }

  /**
   Crash-safe single broadcast.  Whatever was handed to the node at any time is in the journal
   with exactly those bytes; two transactions handed over for the same root are the same
   transaction; and at most one journal row is prepared.
   */
  lemma SentTransactionsAreSingle(H: Hash, inputs: set<Preimage>, events: seq<Event>)
    requires IsCleanRun(H, inputs, events)
    ensures var s := Run(H, events);
      && (forall i :: i in s.sent ==> IsJournaled(s.journal, i))
      && (forall i, j :: i in s.sent && j in s.sent && i.count == j.count ==> i == j)
      && OnePrepared(s.journal)
  {
    RunInv(H, inputs, events);
    var s := Run(H, events);
    forall i, j | i in s.sent && j in s.sent && i.count == j.count ensures i == j {
      assert IsJournaled(s.journal, i) && IsJournaled(s.journal, j);
    }
  }

  lemma OnlySubmitSends(H: Hash, s: System, e: Event)
    requires !(e.Submit? && s.phase.Journaled?)
    ensures Next(H, s, e).sent == s.sent
  {
    if e.ReadRoot? && s.phase.Idle? {
      assert ReadRootStep(H, s).sent == s.sent;
    }
  }

  lemma StepSends(H: Hash, s: System, e: Event)
    requires PhaseInv(s)
    ensures var s' := Next(H, s, e);
      s'.sent == s.sent
      || (exists i :: s'.sent == s.sent + [i] && IsJournaled(s.journal, i) && s.journal[i.txid].status == Prepared)
  {
    if e.Submit? && s.phase.Journaled? {
      assert Next(H, s, e).sent == s.sent + [s.phase.intent];
    } else {
      OnlySubmitSends(H, s, e);
    }
  }

  /** A transaction is journaled before it is handed to the node, not after. */
  lemma JournaledBeforeSent(H: Hash, inputs: set<Preimage>, events: seq<Event>, e: Event)
    requires IsCleanRun(H, inputs, events)
    ensures var s, s' := Run(H, events), Next(H, Run(H, events), e);
      s'.sent == s.sent
      || (exists i :: s'.sent == s.sent + [i] && IsJournaled(s.journal, i) && s.journal[i.txid].status == Prepared)
  {
    RunInv(H, inputs, events);
    hide Run;
    StepSends(H, Run(H, events), e);
  }

  /** Two transactions journaled by one process never spend the note at one position. */
  lemma NoPositionIsSpentTwice(H: Hash, inputs: set<Preimage>, events: seq<Event>, t: Txid, u: Txid)
    requires IsCleanRun(H, inputs, events)
    requires t in Run(H, events).mine && u in Run(H, events).mine && t != u
    ensures t in Run(H, events).journal && u in Run(H, events).journal
    ensures Run(H, events).journal[t].position != Run(H, events).journal[u].position
  {
    RunInv(H, inputs, events);
  }

  /**
   The journal invariant over all runs: a recorded row's exact root is mapped to its
   transaction, and a confirmed row's root has a height.
   */
  lemma RecordedRowsAreMapped(H: Hash, inputs: set<Preimage>, events: seq<Event>, t: Txid)
    requires IsCleanRun(H, inputs, events)
    requires t in Run(H, events).journal
    ensures var s := Run(H, events);
      var row := s.journal[t];
      var k := LastExact(s.log.roots, row.root, row.count);
      && k.Some?
      && (row.status == Recorded ==> s.log.roots[k.value].txid == Some(t))
      && (row.confirmedAt.Some? ==> s.log.roots[k.value].txid == Some(t) && s.log.roots[k.value].height.Some?)
  {
    RunInv(H, inputs, events);
    var s := Run(H, events);
    assert RowInv(s.log.roots, t, s.journal[t]);
    RootAt(s.log.roots, s.journal[t].count - 1);
  }

  lemma InvOfTablesInRun(H: Hash, inputs: set<Preimage>, events: seq<Event>)
    requires IsCleanRun(H, inputs, events)
    ensures AnchorsInv(Tables(Run(H, events)))
  {
    RunInv(H, inputs, events);
    InvOfTables(H, Run(H, events));
  }

  /** In every reachable state: the one way in which confirming a recorded row can fail. */
  lemma ConfirmationFailsOnlyOnHeight(H: Hash, inputs: set<Preimage>, events: seq<Event>, t: Txid, height: nat, now: nat)
    requires IsCleanRun(H, inputs, events)
    requires t in Run(H, events).journal && Run(H, events).journal[t].status == Recorded
    ensures var a := Tables(Run(H, events));
      && 0 < a.journal[t].count <= |a.roots|
      && var known := a.roots[a.journal[t].count - 1].height;
      Confirm(a, t, height, now).Some? <==> height > 0 && (known.None? || known == Some(height))
  {
    InvOfTablesInRun(H, inputs, events);
    hide Run, AnchorsInv, Confirm;
    ConfirmSucceedsIff(Tables(Run(H, events)), t, height, now);
  }

  lemma HeightOutlasts(a: Anchors, b: Anchors, t: Txid, height: nat, now: nat)
    requires RootsKept(a.roots, b.roots) && JournalKept(a.journal, b.journal) && AnchorsInv(b)
    requires t in a.journal && a.journal[t].status == Recorded && 0 < a.journal[t].count <= |a.roots|
    requires var known := a.roots[a.journal[t].count - 1].height; known.Some? && known != Some(height)
    ensures t in b.journal && Confirm(b, t, height, now).None?
  {
    assert IntentOf(t, b.journal[t]) == IntentOf(t, a.journal[t]);
    assert RowKept(a.roots[a.journal[t].count - 1], b.roots[a.journal[t].count - 1]);
    hide AnchorsInv, Confirm;
    ConfirmSucceedsIff(b, t, height, now);
  }

  /** A wrong height is never put right: from then on confirming at another one always fails. */
  lemma WrongHeightStays(H: Hash, inputs: set<Preimage>, events: seq<Event>, m: nat, t: Txid, height: nat, now: nat)
    requires m <= |events| && IsCleanRun(H, inputs, events)
    requires var a := Tables(Run(H, events[..m]));
      && t in a.journal && a.journal[t].status == Recorded && 0 < a.journal[t].count <= |a.roots|
      && var known := a.roots[a.journal[t].count - 1].height;
      known.Some? && known != Some(height)
    ensures t in Run(H, events).journal && Confirm(Tables(Run(H, events)), t, height, now).None?
  {
    RunKeepsTables(H, inputs, events, m);
    InvOfTablesInRun(H, inputs, events);
    hide Run;
    HeightOutlasts(Tables(Run(H, events[..m])), Tables(Run(H, events)), t, height, now);
  }

  // ---------------------------------------------------------------------------------
  // Finalization cannot get stuck
  // ---------------------------------------------------------------------------------

  /** In every reachable state: the one way in which finalizing a prepared row can fail. */
  lemma FinalizationFailsOnlyOnReuse(H: Hash, inputs: set<Preimage>, events: seq<Event>, t: Txid, now: nat)
    requires IsCleanRun(H, inputs, events)
    requires t in Run(H, events).journal && Run(H, events).journal[t].status == Prepared
    ensures var s := Run(H, events);
      Finalize(Tables(s), t, now).Some?
      <==> forall k :: 0 <= k < |s.log.roots| && s.log.roots[k].txid == Some(t) ==> k == s.journal[t].count - 1
  {
    RunInv(H, inputs, events);
    FinalizeSucceedsIff(Tables(Run(H, events)), t, now);
  }

  /** A new transaction id: when the intent is journaled, no root row carries it yet. */
  ghost predicate JournalsFreshIds(H: Hash, events: seq<Event>) {
    forall m :: 0 <= m < |events| && events[m] == WriteJournal && Run(H, events[..m]).phase.Built? ==>
      !IsMapped(Run(H, events[..m]).log.roots, Run(H, events[..m]).phase.intent.txid)
  }

  /** No root but its own is mapped to a prepared transaction. */
  ghost predicate PreparedIsUnmapped(a: Anchors) {
    forall t, k | t in a.journal && a.journal[t].status == Prepared && 0 <= k < |a.roots| && a.roots[k].txid == Some(t)
      :: k == a.journal[t].count - 1
  }

  /** Mapping one root row, where that row is the one of the prepared transaction if it is its. */
  lemma MappingOneRootKeeps(a: Anchors, b: Anchors, k: nat, txid: Txid)
    requires PreparedIsUnmapped(a) && k < |a.roots| == |b.roots|
    requires SameShape(a.journal, b.journal)
    requires b.roots[k].txid == Some(txid) && forall j :: 0 <= j < |a.roots| && j != k ==> b.roots[j] == a.roots[j]
    requires txid in a.journal && a.journal[txid].status == Prepared ==> k == a.journal[txid].count - 1
    ensures PreparedIsUnmapped(b)
  {}

  lemma AdminRecordKeepsUnmapped(a: Anchors, root: Digest, txid: Txid, height: nat, now: nat)
    requires AnchorsInv(a) && PreparedIsUnmapped(a) && RecordManual(a, root, txid, height, now).Some?
    ensures PreparedIsUnmapped(RecordManual(a, root, txid, height, now).value)
  {
    RecordManualKeeps(a, root, txid, height, now);
    var k := RecordReferenceKeeps(a.roots, root, txid, Some(height));
    if txid in a.journal && a.journal[txid].status == Prepared {
      assert RowInv(a.roots, txid, a.journal[txid]);
      RootAt(a.roots, k);
      RootAt(a.roots, a.journal[txid].count - 1);
    }
    MappingOneRootKeeps(a, RecordManual(a, root, txid, height, now).value, k, txid);
  }

  lemma ConfirmKeepsUnmapped(a: Anchors, txid: Txid, height: nat, now: nat)
    requires AnchorsInv(a) && PreparedIsUnmapped(a) && Confirm(a, txid, height, now).Some?
    ensures PreparedIsUnmapped(Confirm(a, txid, height, now).value)
  {
    ConfirmKeeps(a, txid, height, now);
    var k := RecordReferenceKeeps(a.roots, a.journal[txid].root, txid, Some(height));
    MappingOneRootKeeps(a, Confirm(a, txid, height, now).value, k, txid);
  }

  lemma ReconciliationKeepsUnmapped(a: Anchors, e: Event)
    requires AnchorsInv(a) && PreparedIsUnmapped(a) && Reconciliation(a, e).Some?
    ensures PreparedIsUnmapped(Reconciliation(a, e).value)
  {
    match e {
      case AdminRecord(root, txid, height, now) => AdminRecordKeepsUnmapped(a, root, txid, height, now);
      case CliRecord(root, txid, claimed) => assert !HasPrepared(a.journal);
      case NodeConfirms(txid, height, now) => ConfirmKeepsUnmapped(a, txid, height, now);
      case NodeDoesNotConfirm(txid, now) =>
        RetryKeeps(a, txid, now, RetrySeconds(a.journal[txid].attempts));
    }
  }

  lemma PrepareKeepsUnmapped(a: Anchors, i: Intent)
    requires PreparedIsUnmapped(a) && Prepare(a, i).Some? && !IsMapped(a.roots, i.txid)
    ensures PreparedIsUnmapped(Prepare(a, i).value)
  {
    assert forall k :: 0 <= k < |a.roots| ==> a.roots[k] in a.roots;
  }

  lemma FinalizeKeepsUnmapped(a: Anchors, txid: Txid, now: nat)
    requires AnchorsInv(a) && txid in a.journal && a.journal[txid].status == Prepared
    requires Finalize(a, txid, now).Some?
    ensures PreparedIsUnmapped(Finalize(a, txid, now).value)
  {
    FinalizeKeeps(a, txid, now);
  }

  lemma WriteJournalKeepsUnmapped(H: Hash, s: System)
    requires PreparedIsUnmapped(Tables(s)) && s.phase.Built? && !IsMapped(s.log.roots, s.phase.intent.txid)
    ensures PreparedIsUnmapped(Tables(LoopStep(H, s, WriteJournal)))
  {
    var a := Prepare(Tables(s), s.phase.intent);
    if a.Some? {
      PrepareKeepsUnmapped(Tables(s), s.phase.intent);
    }
  }

  lemma FinishKeepsUnmapped(s: System, t: Txid, now: nat)
    requires AnchorsInv(Tables(s)) && t in s.journal && s.journal[t].status == Prepared
    requires PreparedIsUnmapped(Tables(s))
    ensures PreparedIsUnmapped(Tables(WithTables(s, Finalize(Tables(s), t, now))))
  {
    var a := Finalize(Tables(s), t, now);
    if a.Some? {
      FinalizeKeepsUnmapped(Tables(s), t, now);
      assert Tables(WithTables(s, a)) == a.value;
    }
  }

  lemma LoopKeepsUnmapped(H: Hash, s: System, e: Event)
    requires SystemInv(H, s) && PreparedIsUnmapped(Tables(s))
    requires e == WriteJournal && s.phase.Built? ==> !IsMapped(s.log.roots, s.phase.intent.txid)
    ensures PreparedIsUnmapped(Tables(LoopStep(H, s, e)))
  {
    if e.WriteJournal? {
      if s.phase.Built? {
        WriteJournalKeepsUnmapped(H, s);
      }
    } else if e.Finish? {
      if s.phase.MarkedSpent? {
        FinishKeepsUnmapped(s, s.phase.intent.txid, e.now);
      }
    } else {
      OtherStepsKeepTables(H, s, e);
    }
  }

  lemma InsertLeafKeepsUnmapped(H: Hash, log: Log, journal: map<Txid, Row>, leaf: LeafRow)
    requires PreparedIsUnmapped(Anchors(log.roots, journal))
    ensures PreparedIsUnmapped(Anchors(LeafInserted(H, log, leaf).roots, journal))
  {}

  lemma TablesKeepUnmapped(s: System, e: Event)
    requires AnchorsInv(Tables(s)) && PreparedIsUnmapped(Tables(s))
    ensures PreparedIsUnmapped(Tables(WithTables(s, Reconciliation(Tables(s), e))))
  {
    var a := Reconciliation(Tables(s), e);
    if a.Some? {
      ReconciliationKeepsUnmapped(Tables(s), e);
      assert Tables(WithTables(s, a)) == a.value;
    }
  }

  lemma NextKeepsUnmapped(H: Hash, s: System, e: Event)
    requires SystemInv(H, s) && PreparedIsUnmapped(Tables(s))
    requires e == WriteJournal && s.phase.Built? ==> !IsMapped(s.log.roots, s.phase.intent.txid)
    ensures PreparedIsUnmapped(Tables(Next(H, s, e)))
  {
    if IsReconciliation(e) {
      TablesKeepUnmapped(s, e);
    } else if e.InsertLeaf? {
      InsertLeafKeepsUnmapped(H, s.log, s.journal, e.leaf);
    } else if !e.Receive? && !e.SeenSpent? {
      LoopKeepsUnmapped(H, s, e);
    }
  }

  lemma {:induction false} RunKeepsUnmapped(H: Hash, events: seq<Event>)
    requires DistinctRoots(Run(H, events).log.roots) && JournalsFreshIds(H, events)
    ensures PreparedIsUnmapped(Tables(Run(H, events)))
  {
    if events != [] {
      var n := |events| - 1;
      var front := events[..n];
      RunLogInv(H, front);
      NextKeepsHashes(H, Run(H, front), events[n]);
      assert forall m :: 0 <= m < n ==> front[..m] == events[..m] && front[m] == events[m];
      RunKeepsUnmapped(H, front);
      InvOfRun(H, front);
      NextKeepsUnmapped(H, Run(H, front), events[n]);
    }
  }

  /**
   With new transaction ids, finalization never fails: in every reachable state with a
   prepared row, whatever happened since it was prepared, it is recorded when it is finalized.
   */
  lemma FinalizationSucceeds(H: Hash, inputs: set<Preimage>, events: seq<Event>, t: Txid, now: nat)
    requires IsCleanRun(H, inputs, events) && JournalsFreshIds(H, events)
    requires t in Run(H, events).journal && Run(H, events).journal[t].status == Prepared
    ensures Finalize(Tables(Run(H, events)), t, now).Some?
  {
    RunRootsAreDistinct(H, inputs, events);
    RunKeepsUnmapped(H, events);
    FinalizationFailsOnlyOnReuse(H, inputs, events, t, now);
  }

  lemma RunThen(H: Hash, events: seq<Event>, e: Event)
    ensures Run(H, events + [e]) == Next(H, Run(H, events), e)
  {
    hide Next;
    assert (events + [e])[..|events|] == events;
  }

  /** A restart finds the prepared transaction again. */
  lemma RestartResumes(H: Hash, s: System, t: Txid, notes: seq<Tracked>)
    requires OnePrepared(s.journal) && t in s.journal && s.journal[t].status == Prepared
    requires UniquePositions(notes)
    ensures var s' := Next(H, Next(H, s, Restart(notes)), ReadRoot);
      s' == s.(phase := Journaled(IntentOf(t, s.journal[t])), notes := notes, mine := PreparedTxids(s.journal))
  {
    var s1 := Next(H, s, Restart(notes));
    assert s1 == s.(phase := Idle, notes := notes, mine := PreparedTxids(s.journal));
    assert HasPrepared(s1.journal);
  }

  /** A journaled transaction that the node has is marked spent and finalized. */
  lemma JournaledFinishes(H: Hash, s: System, i: Intent, now: nat)
    requires s.phase == Journaled(i) && IsTracked(s.notes, i.position) && Finalize(Tables(s), i.txid, now).Some?
    ensures Next(H, Next(H, Next(H, s, Submit(true)), MarkSpent), Finish(now))
         == WithTables(s, Finalize(Tables(s), i.txid, now)).(
              phase := Idle, notes := Spend(s.notes, i.position), sent := s.sent + [i])
  {
    var s1 := Next(H, s, Submit(true));
    var s2 := Next(H, s1, MarkSpent);
    assert s2 == s.(phase := MarkedSpent(i), notes := Spend(s.notes, i.position), sent := s.sent + [i]);
    assert Tables(s2) == Tables(s);
  }

  /** The state after a crash and a recovery in which the node has the transaction. */
  ghost function Recovered(H: Hash, s: System, notes: seq<Tracked>, now: nat): System {
    var resumed := Next(H, Next(H, s, Restart(notes)), ReadRoot);
    Next(H, Next(H, Next(H, resumed, Submit(true)), MarkSpent), Finish(now))
  }

  /** When the wallet does not track the note, marking it spent fails, and the row is not finalized. */
  lemma JournaledGivesUp(H: Hash, s: System, i: Intent, now: nat)
    requires s.phase == Journaled(i) && !IsTracked(s.notes, i.position)
    ensures Next(H, Next(H, Next(H, s, Submit(true)), MarkSpent), Finish(now)) == s.(phase := Idle, sent := s.sent + [i])
  {
    var s1 := Next(H, s, Submit(true));
    assert Next(H, s1, MarkSpent) == s.(phase := Idle, sent := s.sent + [i]);
    hide Finalize;
  }

  /** A recovery with a wallet that does not track the note leaves the tables as they are. */
  lemma UntrackedIsNotRecorded(H: Hash, s: System, t: Txid, notes: seq<Tracked>, now: nat)
    requires OnePrepared(s.journal) && t in s.journal && s.journal[t].status == Prepared
    requires UniquePositions(notes) && !IsTracked(notes, s.journal[t].position)
    ensures var s' := Recovered(H, s, notes, now);
      s'.log == s.log && s'.journal == s.journal && s'.phase == Idle && s'.notes == notes
  {
    RestartResumes(H, s, t, notes);
    hide Next;
    JournaledGivesUp(H, Next(H, Next(H, s, Restart(notes)), ReadRoot), IntentOf(t, s.journal[t]), now);
  }

  /**
   After a crash at any point, and with the transaction at the node, the restarted process takes
   the prepared transaction through to the end exactly when its wallet tracks the note at the
   journaled position: then the row is recorded and its root mapped, with the bytes that were
   journaled, and otherwise the tables stay as they are.
   */
  lemma RecoveryCompletesIff(H: Hash, inputs: set<Preimage>, events: seq<Event>, t: Txid, notes: seq<Tracked>, now: nat)
    requires IsCleanRun(H, inputs, events) && JournalsFreshIds(H, events)
    requires t in Run(H, events).journal && Run(H, events).journal[t].status == Prepared
    requires UniquePositions(notes)
    ensures var s, s' := Run(H, events), Recovered(H, Run(H, events), notes, now);
      && t in s'.journal && IntentOf(t, s'.journal[t]) == IntentOf(t, s.journal[t]) && s'.phase == Idle
      && (s'.journal[t].status == Recorded <==> IsTracked(notes, s.journal[t].position))
      && (if s'.journal[t].status == Recorded then IsMapped(s'.log.roots, t)
          else s'.log == s.log && s'.journal == s.journal && s'.notes == notes)
  {
    var s := Run(H, events);
    RunInv(H, inputs, events);
    if IsTracked(notes, s.journal[t].position) {
      FinalizationSucceeds(H, inputs, events, t, now);
      hide Run;
      TrackedIsRecorded(H, s, t, notes, now);
    } else {
      hide Run, Recovered;
      UntrackedIsNotRecorded(H, s, t, notes, now);
    }
  }

  lemma TrackedIsRecorded(H: Hash, s: System, t: Txid, notes: seq<Tracked>, now: nat)
    requires SystemInv(H, s) && t in s.journal && s.journal[t].status == Prepared
    requires UniquePositions(notes) && IsTracked(notes, s.journal[t].position) && Finalize(Tables(s), t, now).Some?
    ensures var s' := Recovered(H, s, notes, now);
      && t in s'.journal && s'.journal[t].status == Recorded
      && IntentOf(t, s'.journal[t]) == IntentOf(t, s.journal[t])
      && IsMapped(s'.log.roots, t) && s'.phase == Idle
  {
    RestartResumes(H, s, t, notes);
    var resumed := Next(H, Next(H, s, Restart(notes)), ReadRoot);
    assert Tables(resumed) == Tables(s);
    FinalizeMaps(Tables(s), t, now);
    hide Next, Finalize, SystemInv;
    JournaledFinishes(H, resumed, IntentOf(t, s.journal[t]), now);
  }

  lemma FinalizeMaps(a: Anchors, t: Txid, now: nat)
    requires AnchorsInv(a) && Finalize(a, t, now).Some?
    ensures var a' := Finalize(a, t, now).value;
      IsMapped(a'.roots, t) && a'.journal == a.journal[t := Finalized(a.journal[t], now)]
  {
    FinalizeKeeps(a, t, now);
    var a' := Finalize(a, t, now).value;
    assert RowInv(a'.roots, t, a'.journal[t]);
    assert a'.roots[a.journal[t].count - 1] in a'.roots;
  }

  lemma RunOfThree(H: Hash, x: Event, y: Event, z: Event)
    ensures Run(H, [x, y, z]) == Next(H, Next(H, Next(H, START, x), y), z)
  {
    hide Next;
    RunThen(H, [], x);
    RunThen(H, [x], y);
    RunThen(H, [x, y], z);
    assert [] + [x] == [x] && [x] + [y] == [x, y] && [x, y] + [z] == [x, y, z];
  }

  lemma TwoLeaves(H: Hash, a: LeafRow, b: LeafRow)
    requires a.hash != b.hash
    ensures var one := Log([a], [RootRow(RootOf(H, [a]), 1, None, None)]);
      && LeafInserted(H, Log([], []), a) == one
      && LeafInserted(H, one, b) == Log([a, b], one.roots + [RootRow(RootOf(H, [a, b]), 2, None, None)])
  {
    assert [] + [a] == [a] && [a] + [b] == [a, b];
    assert IndexOf([a], b.hash).None?;
  }

  lemma FirstOfTwoRecorded(first: RootRow, second: RootRow, txid: Txid, now: nat)
    requires first.txid.None? && first.hash != second.hash && second.txid.None?
    ensures RecordManual(Anchors([first, second], map[]), first.hash, txid, 1, now)
         == Some(Anchors([first.(txid := Some(txid), height := Some(1)), second], map[]))
  {
    var roots := [first, second];
    assert LastByHash(roots, first.hash) == Some(0);
    assert roots[0 := first.(txid := Some(txid), height := Some(1))]
        == [first.(txid := Some(txid), height := Some(1)), second];
  }

  /** The state in which an administrator has recorded the first of two roots. */
  lemma FirstRootRecorded(H: Hash, a: LeafRow, b: LeafRow, txid: Txid, now: nat) returns (s: System)
    requires a.hash != b.hash && RootOf(H, [a]) != RootOf(H, [a, b])
    ensures s == Run(H, [InsertLeaf(a), InsertLeaf(b), AdminRecord(RootOf(H, [a]), txid, 1, now)])
    ensures s == START.(log := Log([a, b],
      [RootRow(RootOf(H, [a]), 1, Some(txid), Some(1)), RootRow(RootOf(H, [a, b]), 2, None, None)]))
  {
    var first, second := RootRow(RootOf(H, [a]), 1, None, None), RootRow(RootOf(H, [a, b]), 2, None, None);
    var admin := AdminRecord(first.hash, txid, 1, now);
    TwoLeaves(H, a, b);
    var s1 := START.(log := Log([a], [first]));
    assert Next(H, START, InsertLeaf(a)) == s1;
    var s2 := START.(log := Log([a, b], [first, second]));
    assert [first] + [second] == [first, second];
    assert Next(H, s1, InsertLeaf(b)) == s2;
    FirstOfTwoRecorded(first, second, txid, now);
    s := START.(log := Log([a, b], [first.(txid := Some(txid), height := Some(1)), second]));
    assert Next(H, s2, admin) == s;
    RunOfThree(H, InsertLeaf(a), InsertLeaf(b), admin);
  }

  /** An administrator records the first of two roots; the anchor loop journals the same id for the second. */
  ghost function AfterReuse(H: Hash, a: LeafRow, b: LeafRow, txid: Txid, raw: ByteString, note: Tracked): seq<Event> {
    [InsertLeaf(a), InsertLeaf(b), AdminRecord(RootOf(H, [a]), txid, 1, 0)]
    + [Receive(note), ReadRoot, Build(txid, raw, 0), WriteJournal]
  }

  /**
   Why the ids must be new: when the builder returns a transaction that an administrator has
   recorded for another root, it is journaled, but finalizing it violates a unique index.
   */
  lemma ReusedIdIsStuck(H: Hash, a: LeafRow, b: LeafRow, txid: Txid, raw: ByteString, note: Tracked)
    requires a.hash != b.hash && raw != [] && RootOf(H, [a]) != RootOf(H, [a, b])
    requires FEE <= note.value <= MAX_MONEY && note.position <= MAX_I64
    ensures var s := Run(H, AfterReuse(H, a, b, txid, raw, note));
      && DistinctRoots(s.log.roots)
      && txid in s.journal && s.journal[txid].status == Prepared && s.journal[txid].count == 2
      && |s.log.roots| == 2 && s.log.roots[0].txid == Some(txid)
      && forall now :: Finalize(Tables(s), txid, now).None?
  {
    var first := [InsertLeaf(a), InsertLeaf(b), AdminRecord(RootOf(H, [a]), txid, 1, 0)];
    var s0 := FirstRootRecorded(H, a, b, txid, 0);
    var second := RootRow(RootOf(H, [a, b]), 2, None, None);
    NewestRowIsCurrent(H, s0.log, second);
    hide Run, Next, Finalize, RootOf, CurrentRoot, RootsAfterCurrent;
    RunOfFour(H, first, Receive(note), ReadRoot, Build(txid, raw, 0), WriteJournal);
    ReuseIsJournaled(H, s0, second, txid, raw, note);
    var s := Run(H, AfterReuse(H, a, b, txid, raw, note));
    hide AfterReuse, DistinctRoots;
    StuckRow(Tables(s), s.log.roots[0], second, txid, NewRow(Intent(txid, second.hash, 2, raw, note.position)));
  }

  lemma StuckRow(a: Anchors, first: RootRow, second: RootRow, txid: Txid, row: Row)
    requires a == Anchors([first, second], map[txid := row]) && first.hash != second.hash
    requires first.txid == Some(txid) && second.txid.None?
    requires row.root == second.hash && row.count == second.count
    ensures DistinctRoots(a.roots) && forall now :: Finalize(a, txid, now).None?
  {
    forall now {
      ReuseIsNotFinalized(first, second, a.journal, txid, now);
    }
  }

  lemma NewestRowIsCurrent(H: Hash, log: Log, newest: RootRow)
    requires log.roots != [] && log.roots[|log.roots| - 1] == newest && log.leaves != []
    requires newest.hash == RootOf(H, log.leaves) && newest.count == |log.leaves|
    ensures CurrentRoot(H, log) == Some(newest) && RootsAfterCurrent(H, log) == log.roots
  {
    hide RootOf;
    assert LastExact(log.roots, newest.hash, newest.count) == Some(|log.roots| - 1);
  }

  lemma RunOfFour(H: Hash, events: seq<Event>, w: Event, x: Event, y: Event, z: Event)
    ensures Run(H, events + [w, x, y, z]) == Next(H, Next(H, Next(H, Next(H, Run(H, events), w), x), y), z)
  {
    hide Next;
    RunThen(H, events, w);
    RunThen(H, events + [w], x);
    RunThen(H, events + [w] + [x], y);
    RunThen(H, events + [w] + [x] + [y], z);
    assert events + [w] + [x] + [y] + [z] == events + [w, x, y, z];
  }

  /** With the second root current, the anchor loop journals the transaction for it. */
  lemma ReuseIsJournaled(H: Hash, s0: System, second: RootRow, txid: Txid, raw: ByteString, note: Tracked)
    requires s0 == START.(log := s0.log) && raw != []
    requires FEE <= note.value <= MAX_MONEY && note.position <= MAX_I64
    requires CurrentRoot(H, s0.log) == Some(second) && RootsAfterCurrent(H, s0.log) == s0.log.roots
    requires second in s0.log.roots && second.count == 2 && second.txid.None?
    ensures var s := Next(H, Next(H, Next(H, Next(H, s0, Receive(note)), ReadRoot), Build(txid, raw, 0)), WriteJournal);
      s.log == s0.log && s.journal == map[txid := NewRow(Intent(txid, second.hash, 2, raw, note.position))]
  {
    var s1 := s0.(notes := [note.(spent := false)]);
    var s2 := s1.(phase := RootRead(second.hash, 2));
    var i := Intent(txid, second.hash, 2, raw, note.position);
    NoteReceived(H, s0, note);
    RootIsRead(H, s1, second);
    hide CurrentRoot, RootsAfterCurrent;
    assert IsEnough(FEE)(s2.notes[0]) && First(s2.notes, IsEnough(FEE)) == Some(0);
    NotePlanned(H, s2, txid, raw, 0);
    NewIntentWritten(H, s2.(phase := Built(i)), i, second);
    hide Next;
  }

  lemma NoteReceived(H: Hash, s: System, note: Tracked)
    requires s.notes == []
    ensures Next(H, s, Receive(note)) == s.(notes := [note.(spent := false)])
  {}

  lemma RootIsRead(H: Hash, s: System, root: RootRow)
    requires !HasPrepared(s.journal) && s.phase == Idle
    requires CurrentRoot(H, s.log) == Some(root) && RootsAfterCurrent(H, s.log) == s.log.roots
    ensures Next(H, s, ReadRoot) == s.(phase := RootRead(root.hash, root.count))
  {
    hide CurrentRoot, RootsAfterCurrent;
  }

  /** The first note that covers the fee is the one that is spent. */
  lemma NotePlanned(H: Hash, s: System, txid: Txid, raw: ByteString, k: nat)
    requires s.phase.RootRead? && First(s.notes, IsEnough(FEE)) == Some(k) && s.notes[k].value <= MAX_MONEY
    ensures Next(H, s, Build(txid, raw, 0))
         == s.(phase := Built(Intent(txid, s.phase.root, s.phase.count, raw, s.notes[k].position)))
  {}

  lemma NewIntentWritten(H: Hash, s: System, i: Intent, root: RootRow)
    requires s.phase == Built(i) && IsFree(s.journal, i) && Canonical(i)
    requires root in s.log.roots && IsExact(root, i.root, i.count) && root.txid.None?
    ensures Next(H, s, WriteJournal) == WithIntent(s, i)
  {
    assert HasUnrecordedRoot(s.log.roots, i.root, i.count);
  }

  /**
   For good: once another root carries the id of a prepared row, that row is prepared, and
   finalizing it fails, at every later point of every run.
   */
  lemma ReusedIdStaysStuck(H: Hash, inputs: set<Preimage>, events: seq<Event>, m: nat, t: Txid, k: nat, now: nat)
    requires m <= |events| && IsCleanRun(H, inputs, events)
    requires t in Run(H, events[..m]).journal && k < |Run(H, events[..m]).log.roots|
    requires Run(H, events[..m]).log.roots[k].txid == Some(t) && k != Run(H, events[..m]).journal[t].count - 1
    ensures t in Run(H, events).journal && Run(H, events).journal[t].status == Prepared
    ensures Finalize(Tables(Run(H, events)), t, now).None?
  {
    var s, s' := Run(H, events[..m]), Run(H, events);
    RunInv(H, inputs, events);
    RunKeepsTables(H, inputs, events, m);
    assert RowKept(s.log.roots[k], s'.log.roots[k]);
    assert IntentOf(t, s'.journal[t]) == IntentOf(t, s.journal[t]);
    OtherRootIsStuck(Tables(s'), t, k, now);
  }

  lemma OtherRootIsStuck(a: Anchors, t: Txid, k: nat, now: nat)
    requires AnchorsInv(a) && t in a.journal && k < |a.roots|
    requires a.roots[k].txid == Some(t) && k != a.journal[t].count - 1
    ensures a.journal[t].status == Prepared && Finalize(a, t, now).None?
  {
    assert RowInv(a.roots, t, a.journal[t]);
    var c := a.journal[t].count - 1;
    assert a.roots[c].txid != Some(t);
    FinalizeSucceedsIff(a, t, now);
  }

  lemma ReuseIsNotFinalized(first: RootRow, second: RootRow, journal: map<Txid, Row>, txid: Txid, now: nat)
    requires first.txid == Some(txid) && second.txid.None?
    requires txid in journal && journal[txid].root == second.hash && journal[txid].count == second.count
    ensures Finalize(Anchors([first, second], journal), txid, now).None?
  {
    assert LastExact([first, second], second.hash, second.count) == Some(1);
    assert first in [first, second];
  }
}
