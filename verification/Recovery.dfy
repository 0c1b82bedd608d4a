/**
 A prepared anchor after restarts.  The wallet is in memory only, and is seeded near the tip when
 the process starts, so that it may not track the note that the journaled transaction spends.
 */
module Recovery {
  import opened Bytes
  import opened Results
  import opened Merkle
  import opened LeafLog
  import opened Journal
  import opened Wallet
  import opened Protocol
  import opened ProtocolRuns
  import opened ProtocolNotes
  import WalletRuns
  import Scanner

  // ---------------------------------------------------------------------------------
  // A row that stays prepared
  // ---------------------------------------------------------------------------------

  /** The row is prepared, and the wallet does not track what it spends. */
  predicate IsStranded(s: System, t: Txid) {
    t in s.journal && s.journal[t].status == Prepared && !IsTracked(s.notes, s.journal[t].position)
  }

  /** The event does not bring the wallet a note at this position. */
  predicate Avoids(e: Event, position: nat) {
    match e
    case Restart(rescanned) => !IsTracked(rescanned, position)
    case Receive(note) => note.position != position
    case _ => true
  }

  lemma UntrackedIsNotSpent(notes: seq<Tracked>, position: nat)
    requires !IsTracked(notes, position)
    ensures !IsSpent(notes, position)
  {}

  /** Notes at the same positions, and at others, track no more of this one. */
  lemma StaysUntracked(notes: seq<Tracked>, notes': seq<Tracked>, position: nat)
    requires !IsTracked(notes, position) && |notes'| >= |notes|
    requires forall k :: 0 <= k < |notes'| ==> notes'[k].position == if k < |notes| then notes[k].position else notes'[k].position
    requires forall k :: |notes| <= k < |notes'| ==> notes'[k].position != position
    ensures !IsTracked(notes', position)
  {
    if IsTracked(notes', position) {
      var k := First(notes', IsAt(position)).value;
      TrackedAt(notes, position, k);
    }
  }

  lemma NotesStayUntracked(H: Hash, s: System, e: Event, position: nat)
    requires !IsTracked(s.notes, position) && Avoids(e, position)
    ensures !IsTracked(Next(H, s, e).notes, position)
  {
    hide Prepare, Finalize, Reconciliation;
    if e.Restart? {
    } else if e.ReadRoot? && s.phase.Idle? {
      assert ReadRootStep(H, s).notes == s.notes;
    } else {
      StaysUntracked(s.notes, Next(H, s, e).notes, position);
    }
  }

  /** A stranded row is not one that could be finalized next, and no other can be journaled. */
  lemma StrandedIsNotMarked(H: Hash, s: System, t: Txid)
    requires SystemInv(H, s) && IsStranded(s, t)
    ensures !s.phase.MarkedSpent? && !s.phase.Built?
  {
    UntrackedIsNotSpent(s.notes, s.journal[t].position);
  }

  lemma ReconciliationKeepsStatus(s: System, e: Event, t: Txid)
    requires AnchorsInv(Tables(s)) && t in s.journal
    ensures var s' := WithTables(s, Reconciliation(Tables(s), e));
      t in s'.journal && s'.journal[t].status == s.journal[t].status
  {
    ReconciliationIsHarmless(Tables(s), e);
    hide AnchorsInv, Reconciliation;
  }

  lemma LoopKeepsJournal(H: Hash, s: System, e: Event)
    requires LogInv(H, s.log) && !s.phase.MarkedSpent? && !s.phase.Built?
    ensures LoopStep(H, s, e).journal == s.journal
  {
    hide LogInv, Finalize, Prepare;
    if !e.WriteJournal? && !e.Finish? {
      OtherStepsKeepTables(H, s, e);
    }
  }

  lemma OthersKeepJournal(H: Hash, s: System, e: Event)
    requires LogInv(H, s.log) && !s.phase.MarkedSpent? && !s.phase.Built? && !IsReconciliation(e)
    ensures Next(H, s, e).journal == s.journal
  {
    LoopKeepsJournal(H, s, e);
    hide LogInv, LoopStep, LeafInserted, IsTracked, SpendAt, First;
  }

  lemma NextKeepsStatus(H: Hash, s: System, e: Event, t: Txid)
    requires SystemInv(H, s) && IsStranded(s, t)
    ensures t in Next(H, s, e).journal && Next(H, s, e).journal[t].status == Prepared
    ensures Next(H, s, e).journal.Keys == s.journal.Keys
  {
    StrandedIsNotMarked(H, s, t);
    InvOfTables(H, s);
    LogOfSystem(H, s);
    hide SystemInv, AnchorsInv, LogInv, IsTracked;
    NextKeys(H, s, e);
    if IsReconciliation(e) {
      ReconciliationKeepsStatus(s, e, t);
    } else {
      OthersKeepJournal(H, s, e);
    }
    hide Next, Reconciliation, WithTables;
  }

  lemma NextKeepsStranded(H: Hash, s: System, e: Event, t: Txid)
    requires SystemInv(H, s) && IsStranded(s, t) && Avoids(e, s.journal[t].position)
    requires JournalKept(s.journal, Next(H, s, e).journal)
    ensures var s' := Next(H, s, e);
      IsStranded(s', t) && s'.journal.Keys == s.journal.Keys && s'.journal[t].position == s.journal[t].position
  {
    NextKeepsStatus(H, s, e, t);
    NotesStayUntracked(H, s, e, s.journal[t].position);
    hide Next, SystemInv, IsTracked;
    assert IntentOf(t, Next(H, s, e).journal[t]) == IntentOf(t, s.journal[t]);
  }

  ghost predicate AllAvoid(events: seq<Event>, m: nat, position: nat) {
    forall k :: m <= k < |events| ==> Avoids(events[k], position)
  }

  lemma {:induction false} StrandedRun(H: Hash, events: seq<Event>, m: nat, t: Txid)
    requires m <= |events| && DistinctRoots(Run(H, events).log.roots) && IsStranded(Run(H, events[..m]), t)
    requires AllAvoid(events, m, Run(H, events[..m]).journal[t].position)
    ensures var s, s' := Run(H, events[..m]), Run(H, events);
      IsStranded(s', t) && s'.journal.Keys == s.journal.Keys && s'.journal[t].position == s.journal[t].position
  {
    if m == |events| {
      assert events[..m] == events;
    } else {
      var front, e := events[..|events| - 1], events[|events| - 1];
      assert front[..m] == events[..m];
      RunLogInv(H, front);
      NextKeepsHashes(H, Run(H, front), e);
      InvOfRun(H, front);
      NextKeeps(H, Run(H, front), e);
      hide SystemInv, Next, DistinctRoots, IsStranded, JournalKept, Avoids;
      StrandedRun(H, front, m, t);
      NextKeepsStranded(H, Run(H, front), e, t);
    }
  }

  /**
   For good: once a prepared row spends a note that the wallet does not track, it stays prepared
   and no other transaction is journaled, whatever happens, until a restart or a block brings the
   wallet a note at that position.
   */
  lemma StrandedStays(H: Hash, inputs: set<Preimage>, events: seq<Event>, m: nat, t: Txid)
    requires m <= |events| && IsCleanRun(H, inputs, events) && IsStranded(Run(H, events[..m]), t)
    requires AllAvoid(events, m, Run(H, events[..m]).journal[t].position)
    ensures t in Run(H, events).journal && Run(H, events).journal[t].status == Prepared
    ensures Run(H, events).journal.Keys == Run(H, events[..m]).journal.Keys
  {
    RunRootsAreDistinct(H, inputs, events);
    StrandedRun(H, events, m, t);
  }

  // ---------------------------------------------------------------------------------
  // The wallet that the recovery scan seeds
  // ---------------------------------------------------------------------------------

  lemma UniqueInRun(frontier: nat, ops: seq<WalletRuns.Operation>)
    ensures UniquePositions(WalletRuns.Run(frontier, ops).notes)
  {
    WalletRuns.RunInv(frontier, ops);
  }

  lemma TrackedIsThere(notes: seq<Tracked>, position: nat)
    ensures IsTracked(notes, position) <==> WalletRuns.HasNoteAt(notes, position)
  {}

  /** A wallet tracks nothing before the frontier that it was seeded from. */
  lemma NothingBeforeFrontier(frontier: nat, ops: seq<WalletRuns.Operation>, position: nat)
    requires position < frontier
    ensures !IsTracked(WalletRuns.Run(frontier, ops).notes, position)
    ensures UniquePositions(WalletRuns.Run(frontier, ops).notes)
  {
    UniqueInRun(frontier, ops);
    WalletRuns.TrackedIffMarked(frontier, ops, position);
    TrackedIsThere(WalletRuns.Run(frontier, ops).notes, position);
  }

  /** The wallet of a new process after the recovery scan, seeded at this frontier if the chain is long enough. */
  function RecoveredWallet(blocks: Scanner.Node, chain: nat, scanFrom: nat, frontier: nat, next: nat): State
    requires Scanner.RecoveryStart(chain, scanFrom) <= next
  {
    Scanner.FedRange(blocks, Scanner.Reseeded(State([], 0, []), chain, scanFrom, Some(frontier)),
      Scanner.RecoveryStart(chain, scanFrom), next)
  }

  lemma RecoveredIsRun(blocks: Scanner.Node, chain: nat, scanFrom: nat, frontier: nat, next: nat)
    requires Scanner.RecoveryStart(chain, scanFrom) <= next && Scanner.IsReseeded(chain, scanFrom)
    ensures RecoveredWallet(blocks, chain, scanFrom, frontier, next)
         == WalletRuns.Run(frontier, Scanner.FeedOps(blocks, Scanner.RecoveryStart(chain, scanFrom), next))
  {
    var start := Scanner.RecoveryStart(chain, scanFrom);
    Scanner.FedRangeIsRun(frontier, [], blocks, start, next);
    assert [] + Scanner.FeedOps(blocks, start, next) == Scanner.FeedOps(blocks, start, next);
  }

  /** A restart seeds its wallet behind this position, and the chain brings notes behind it. */
  ghost predicate IsBehind(e: Event, position: nat) {
    match e
    case Restart(rescanned) =>
      exists frontier: nat, ops: seq<WalletRuns.Operation> ::
        position < frontier && rescanned == WalletRuns.Run(frontier, ops).notes
    case Receive(note) => position < note.position
    case _ => true
  }

  lemma BehindAvoids(e: Event, position: nat)
    requires IsBehind(e, position)
    ensures Avoids(e, position)
  {
    hide WalletRuns.Run, IsTracked, UniquePositions;
    if e.Restart? {
      var frontier: nat, ops: seq<WalletRuns.Operation> :|
        position < frontier && e.rescanned == WalletRuns.Run(frontier, ops).notes;
      NothingBeforeFrontier(frontier, ops, position);
    }
  }

  /**
   As the chain grows: a row stranded once stays prepared and the only one that can be, whatever
   events follow, as every later restart seeds its wallet behind the same note.
   */
  lemma GrowingChainStrands(H: Hash, inputs: set<Preimage>, events: seq<Event>, m: nat, t: Txid)
    requires m <= |events| && IsCleanRun(H, inputs, events) && IsStranded(Run(H, events[..m]), t)
    requires forall k :: m <= k < |events| ==> IsBehind(events[k], Run(H, events[..m]).journal[t].position)
    ensures t in Run(H, events).journal && Run(H, events).journal[t].status == Prepared
    ensures Run(H, events).journal.Keys == Run(H, events[..m]).journal.Keys
  {
    var position := Run(H, events[..m]).journal[t].position;
    forall k | m <= k < |events| ensures Avoids(events[k], position) {
      BehindAvoids(events[k], position);
    }
    StrandedStays(H, inputs, events, m, t);
  }

  /** The position lies behind the frontier, and the block that the scan fed there marked it as the wallet's own. */
  predicate IsInReach(w: State, frontier: nat, position: nat) {
    frontier <= position < frontier + |w.tree| && w.tree[position - frontier].marked
  }

  lemma TrackedIsInReach(
    blocks: Scanner.Node, chain: nat, scanFrom: nat, frontier: nat, next: nat, position: nat, w: State)
    requires Scanner.IsReseeded(chain, scanFrom) && Scanner.RecoveryStart(chain, scanFrom) <= next
    requires w == RecoveredWallet(blocks, chain, scanFrom, frontier, next)
    ensures UniquePositions(w.notes) && (IsTracked(w.notes, position) <==> IsInReach(w, frontier, position))
  {
    var ops := Scanner.FeedOps(blocks, Scanner.RecoveryStart(chain, scanFrom), next);
    RecoveredIsRun(blocks, chain, scanFrom, frontier, next);
    UniqueInRun(frontier, ops);
    WalletRuns.TrackedIffMarked(frontier, ops, position);
    TrackedIsThere(w.notes, position);
    hide WalletRuns.Run, RecoveredWallet, IsTracked, UniquePositions, WalletRuns.HasNoteAt;
  }

  /**
   What a restart recovers.  With the wallet that the recovery scan seeds near the tip, a prepared
   row is recorded exactly when the note that it spends lies behind the frontier, in a block that
   was fed; a note before the frontier leaves the tables as they are and the row stranded.
   */
  lemma RestartRecoversIff(
    H: Hash, inputs: set<Preimage>, events: seq<Event>, t: Txid,
    blocks: Scanner.Node, chain: nat, scanFrom: nat, frontier: nat, next: nat, now: nat)
    requires IsCleanRun(H, inputs, events) && JournalsFreshIds(H, events)
    requires t in Run(H, events).journal && Run(H, events).journal[t].status == Prepared
    requires Scanner.IsReseeded(chain, scanFrom) && Scanner.RecoveryStart(chain, scanFrom) <= next
    ensures var s, w := Run(H, events), RecoveredWallet(blocks, chain, scanFrom, frontier, next);
      var s' := Recovered(H, s, w.notes, now);
      && t in s'.journal
      && (s'.journal[t].status == Recorded <==> IsInReach(w, frontier, s.journal[t].position))
      && (s'.journal[t].status == Recorded || (s'.log == s.log && s'.journal == s.journal && IsStranded(s', t)))
  {
    var w := RecoveredWallet(blocks, chain, scanFrom, frontier, next);
    TrackedIsInReach(blocks, chain, scanFrom, frontier, next, Run(H, events).journal[t].position, w);
    RecoveryCompletesIff(H, inputs, events, t, w.notes, now);
    hide Run, RecoveredWallet, Recovered, IsTracked, IsInReach, UniquePositions;
  }

  /** One root, one note, and a crash after the transaction was journaled: a wallet seeded behind the note strands it. */
  lemma OldNoteStrandsAnchor(
    H: Hash, a: LeafRow, note: Tracked, p: nat, q: nat, t: Txid, raw: ByteString, frontier: nat, ops: seq<WalletRuns.Operation>, now: nat)
    requires p < q && raw != [] && FEE <= note.value <= MAX_MONEY && p <= MAX_I64 && p < frontier
    ensures var s := Run(H, FirstBuilt(a, note, p, q, t, raw) + [WriteJournal]);
      var s' := Recovered(H, s, WalletRuns.Run(frontier, ops).notes, now);
      t in s.journal && s.journal[t].position == p && s.journal[t].status == Prepared && s'.journal == s.journal
  {
    RunOfFirstRound(H, a, note, p, q, t, raw);
    FirstIsPrepared(H, a, note, p, q, t, raw);
    NothingBeforeFrontier(frontier, ops, p);
    hide Run, WalletRuns.Run, RootOf, Recovered, UniquePositions, FirstBuilt, IsTracked, FirstJournaled;
    UntrackedIsNotRecorded(H, FirstJournaled(H, a, note, p, q, t, raw), t, WalletRuns.Run(frontier, ops).notes, now);
  }

  lemma FirstIsPrepared(H: Hash, a: LeafRow, note: Tracked, p: nat, q: nat, t: Txid, raw: ByteString)
    ensures var s := FirstJournaled(H, a, note, p, q, t, raw);
      && OnePrepared(s.journal) && t in s.journal && s.journal[t].position == p && s.journal[t].status == Prepared
  {}
}
