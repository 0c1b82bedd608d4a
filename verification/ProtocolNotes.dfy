/**
 What the transactions of one process spend.  A note is known by its nullifier, and the wallet
 tracks it at a position: a block that is fed twice puts one note at two positions.
 */
module ProtocolNotes {
  import opened Bytes
  import opened Results
  import opened Merkle
  import opened LeafLog
  import opened Journal
  import opened Wallet
  import opened Protocol
  import opened ProtocolRuns

  function NullifierAt(notes: seq<Tracked>, position: nat): Option<Digest> {
    var i := First(notes, IsAt(position));
    if i.None? then None else Some(notes[i.value].nullifier)
  }

  /** This event journals the transaction that has been built. */
  ghost predicate Journals(s: System, e: Event) {
    e == WriteJournal && s.phase.Built? && Prepare(Tables(s), s.phase.intent).Some?
  }

  /** The nullifier that each journaled transaction reveals: that of the note it was built to spend. */
  ghost function Revealed(H: Hash, events: seq<Event>): map<Txid, Digest> {
    if events == [] then map[]
    else
      var front, e := events[..|events| - 1], events[|events| - 1];
      var s := Run(H, front);
      var revealed := Revealed(H, front);
      if !Journals(s, e) then revealed
      else
        var n := NullifierAt(s.notes, s.phase.intent.position);
        if n.None? then revealed else revealed[s.phase.intent.txid := n.value]
  }

  /** Which note stands where. */
  function Places(notes: seq<Tracked>): set<(Digest, nat)> {
    set n | n in notes :: (n.nullifier, n.position)
  }

  /** All places at which the wallet tracked a note at some time of the run. */
  ghost function EverTracked(H: Hash, events: seq<Event>): set<(Digest, nat)> {
    Places(Run(H, events).notes) + if events == [] then {} else EverTracked(H, events[..|events| - 1])
  }

  ghost predicate WasTrackedTwice(H: Hash, events: seq<Event>, nullifier: Digest) {
    exists p, q :: p != q && (nullifier, p) in EverTracked(H, events) && (nullifier, q) in EverTracked(H, events)
  }

  // ---------------------------------------------------------------------------------
  // Every journaled transaction spends a note that was tracked at its position
  // ---------------------------------------------------------------------------------

  /** What has been built spends a note that is tracked. */
  predicate BuiltIsTracked(s: System) {
    s.phase.Built? ==> IsTracked(s.notes, s.phase.intent.position)
  }

  lemma TrackedAt(notes: seq<Tracked>, position: nat, k: nat)
    requires k < |notes| && notes[k].position == position
    ensures IsTracked(notes, position)
  {
    assert IsAt(position)(notes[k]);
  }

  /** Notes that are appended or spent stay where they are. */
  lemma StaysTracked(notes: seq<Tracked>, notes': seq<Tracked>, position: nat)
    requires IsTracked(notes, position) && |notes'| >= |notes|
    requires forall k :: 0 <= k < |notes| ==> notes'[k].position == notes[k].position
    ensures IsTracked(notes', position)
  {
    TrackedAt(notes', position, First(notes, IsAt(position)).value);
  }

  lemma LoopKeepsBuilt(H: Hash, s: System, e: Event)
    requires BuiltIsTracked(s)
    ensures BuiltIsTracked(LoopStep(H, s, e))
  {
    hide Prepare, Finalize;
    if e.Build? && s.phase.RootRead? {
      var k := First(s.notes, IsEnough(e.amount + FEE));
      if k.Some? {
        TrackedAt(s.notes, s.notes[k.value].position, k.value);
      }
    } else if e.ReadRoot? && s.phase.Idle? {
      assert !ReadRootStep(H, s).phase.Built?;
    }
  }

  lemma NextKeepsBuilt(H: Hash, s: System, e: Event)
    requires BuiltIsTracked(s)
    ensures BuiltIsTracked(Next(H, s, e))
  {
    hide Reconciliation, LoopStep;
    LoopKeepsBuilt(H, s, e);
    if s.phase.Built? && (e.Receive? || e.SeenSpent?) {
      StaysTracked(s.notes, Next(H, s, e).notes, s.phase.intent.position);
    }
  }

  lemma {:induction false} RunKeepsBuilt(H: Hash, events: seq<Event>)
    ensures BuiltIsTracked(Run(H, events))
  {
    if events != [] {
      RunKeepsBuilt(H, events[..|events| - 1]);
      NextKeepsBuilt(H, Run(H, events[..|events| - 1]), events[|events| - 1]);
    }
  }

  lemma FinishKeepsKeys(s: System, txid: Txid, now: nat)
    ensures WithTables(s, Finalize(Tables(s), txid, now)).journal.Keys == s.journal.Keys
  {}

  lemma ReconciliationKeepsKeys(s: System, e: Event)
    requires AnchorsInv(Tables(s))
    ensures WithTables(s, Reconciliation(Tables(s), e)).journal.Keys == s.journal.Keys
  {
    ReconciliationIsHarmless(Tables(s), e);
    hide AnchorsInv, Reconciliation;
  }

  lemma WriteJournalAdds(H: Hash, s: System)
    requires AnchorsInv(Tables(s))
    ensures var s' := Next(H, s, WriteJournal);
      if Journals(s, WriteJournal) then
        && s'.journal.Keys == s.journal.Keys + {s.phase.intent.txid}
        && IsJournaled(s'.journal, s.phase.intent)
      else s'.journal == s.journal
  {
    if Journals(s, WriteJournal) {
      PrepareKeeps(Tables(s), s.phase.intent);
    }
    hide AnchorsInv, Canonical, HasUnrecordedRoot, IsFree, RowInv, PhaseInv;
  }

  lemma LoopKeepsKeys(H: Hash, s: System, e: Event)
    requires LogInv(H, s.log) && !e.WriteJournal?
    ensures LoopStep(H, s, e).journal.Keys == s.journal.Keys
  {
    if e.Finish? {
      if s.phase.MarkedSpent? {
        FinishKeepsKeys(s, s.phase.intent.txid, e.now);
      }
    } else {
      OtherStepsKeepTables(H, s, e);
    }
    hide LogInv, Finalize;
  }

  lemma OthersKeepKeys(H: Hash, s: System, e: Event)
    requires LogInv(H, s.log) && !e.WriteJournal? && !IsReconciliation(e)
    ensures Next(H, s, e).journal.Keys == s.journal.Keys
  {
    LoopKeepsKeys(H, s, e);
    hide LogInv, LoopStep, LeafInserted, IsTracked, SpendAt, First;
  }

  /** Only journaling adds a transaction to the journal. */
  lemma NextKeys(H: Hash, s: System, e: Event)
    requires SystemInv(H, s) && !Journals(s, e)
    ensures Next(H, s, e).journal.Keys == s.journal.Keys
  {
    InvOfTables(H, s);
    LogOfSystem(H, s);
    hide SystemInv, AnchorsInv, LogInv;
    if IsReconciliation(e) {
      ReconciliationKeepsKeys(s, e);
      hide Reconciliation;
    } else {
      hide Next;
      if e.WriteJournal? {
        WriteJournalAdds(H, s);
      } else {
        OthersKeepKeys(H, s, e);
      }
    }
  }

  /** The journaled transactions and the notes that they spend. */
  ghost predicate AllExplained(
    journal: map<Txid, Row>, revealed: map<Txid, Digest>, places: set<(Digest, nat)>)
  {
    forall t :: t in journal ==> t in revealed && (revealed[t], journal[t].position) in places
  }

  lemma PlaceOfNullifier(notes: seq<Tracked>, position: nat)
    requires IsTracked(notes, position)
    ensures NullifierAt(notes, position).Some?
    ensures (NullifierAt(notes, position).value, position) in Places(notes)
  {
    var n := notes[First(notes, IsAt(position)).value];
    assert n in notes;
  }

  lemma ExplainedMore(
    journal: map<Txid, Row>, journal': map<Txid, Row>, revealed: map<Txid, Digest>,
    places: set<(Digest, nat)>, places': set<(Digest, nat)>)
    requires AllExplained(journal, revealed, places) && JournalKept(journal, journal')
    requires journal'.Keys == journal.Keys && places <= places'
    ensures AllExplained(journal', revealed, places')
  {
    forall t | t in journal' ensures t in revealed && (revealed[t], journal'[t].position) in places' {
      assert IntentOf(t, journal'[t]) == IntentOf(t, journal[t]);
    }
  }

  lemma ExplainedAfterJournaling(
    journal: map<Txid, Row>, journal': map<Txid, Row>, revealed: map<Txid, Digest>,
    places: set<(Digest, nat)>, places': set<(Digest, nat)>, i: Intent, n: Digest)
    requires AllExplained(journal, revealed, places) && JournalKept(journal, journal')
    requires journal'.Keys == journal.Keys + {i.txid} && IsJournaled(journal', i)
    requires i.txid !in journal && places <= places' && (n, i.position) in places'
    ensures AllExplained(journal', revealed[i.txid := n], places')
  {
    forall t | t in journal' && t != i.txid
      ensures t in revealed && (revealed[t], journal'[t].position) in places'
    {
      assert IntentOf(t, journal'[t]) == IntentOf(t, journal[t]);
    }
  }

  lemma NewTransaction(H: Hash, s: System)
    requires SystemInv(H, s) && Journals(s, WriteJournal)
    ensures s.phase.intent.txid !in s.journal
  {
    InvOfTables(H, s);
    NoneIsPrepared(H, s);
    PrepareKeeps(Tables(s), s.phase.intent);
    hide SystemInv, AnchorsInv;
    FreshlyPrepared(Tables(s), s.phase.intent);
  }

  /** In every run each journaled transaction reveals the nullifier of a note that was tracked at the position it spends. */
  lemma {:induction false} AllAreExplained(H: Hash, events: seq<Event>)
    requires DistinctRoots(Run(H, events).log.roots)
    ensures AllExplained(Run(H, events).journal, Revealed(H, events), EverTracked(H, events))
  {
    if events != [] {
      var front, e := events[..|events| - 1], events[|events| - 1];
      var s := Run(H, front);
      RunLogInv(H, front);
      NextKeepsHashes(H, s, e);
      InvOfRun(H, front);
      NextKeeps(H, s, e);
      AllAreExplained(H, front);
      hide SystemInv, Next, DistinctRoots, AllExplained, JournalKept;
      if Journals(s, e) {
        RunKeepsBuilt(H, front);
        PlaceOfNullifier(s.notes, s.phase.intent.position);
        NewTransaction(H, s);
        InvOfTables(H, s);
        WriteJournalAdds(H, s);
        assert Places(s.notes) <= EverTracked(H, front);
        ExplainedAfterJournaling(s.journal, Run(H, events).journal, Revealed(H, front),
          EverTracked(H, front), EverTracked(H, events), s.phase.intent, NullifierAt(s.notes, s.phase.intent.position).value);
      } else {
        NextKeys(H, s, e);
        ExplainedMore(s.journal, Run(H, events).journal, Revealed(H, front), EverTracked(H, front), EverTracked(H, events));
      }
    }
  }

  /**
   Two transactions of one process spend notes at different positions, and so the same note only
   if the wallet tracked that note at two positions.
   */
  lemma NoNoteIsSpentTwice(H: Hash, inputs: set<Preimage>, events: seq<Event>, t: Txid, u: Txid)
    requires IsCleanRun(H, inputs, events)
    requires t in Run(H, events).mine && u in Run(H, events).mine && t != u
    ensures t in Revealed(H, events) && u in Revealed(H, events)
    ensures Revealed(H, events)[t] == Revealed(H, events)[u] ==> WasTrackedTwice(H, events, Revealed(H, events)[t])
  {
    NoPositionIsSpentTwice(H, inputs, events, t, u);
    RunRootsAreDistinct(H, inputs, events);
    AllAreExplained(H, events);
    hide Run, Revealed, EverTracked;
  }

  /** When no note is ever tracked at two positions, no two transactions of one process spend the same note. */
  lemma NoNullifierIsRevealedTwice(H: Hash, inputs: set<Preimage>, events: seq<Event>, t: Txid, u: Txid)
    requires IsCleanRun(H, inputs, events) && forall n :: !WasTrackedTwice(H, events, n)
    requires t in Run(H, events).mine && u in Run(H, events).mine && t != u
    ensures t in Revealed(H, events) && u in Revealed(H, events)
    ensures Revealed(H, events)[t] != Revealed(H, events)[u]
  {
    NoNoteIsSpentTwice(H, inputs, events, t, u);
  }

  /** What is built spends an unspent note that pays the amount and the fee, and is for the root that was read. */
  lemma BuiltIsPaidFor(H: Hash, s: System, txid: Txid, raw: ByteString, amount: nat)
    requires s.phase.RootRead? && Next(H, s, Build(txid, raw, amount)).phase.Built?
    ensures var i := Next(H, s, Build(txid, raw, amount)).phase.intent;
      && i.txid == txid && i.raw == raw && i.root == s.phase.root && i.count == s.phase.count
      && exists k :: 0 <= k < |s.notes| && s.notes[k].position == i.position && !s.notes[k].spent && s.notes[k].value >= amount + 10_000
  {
    var k := First(s.notes, IsEnough(amount + FEE));
    assert s.notes[k.value].position == Next(H, s, Build(txid, raw, amount)).phase.intent.position;
  }

  // ---------------------------------------------------------------------------------
  // A note that the chain shows spent is not spent again
  // ---------------------------------------------------------------------------------

  /** Note k, and no other one, has this nullifier. */
  ghost predicate IsTheNote(notes: seq<Tracked>, k: nat, nullifier: Digest) {
    k < |notes| && forall j :: 0 <= j < |notes| ==> (notes[j].nullifier == nullifier <==> j == k)
  }

  /** A nullifier seen on the chain spends its note, and leaves every other one as it was. */
  lemma SeenIsSpent(H: Hash, s: System, k: nat, nullifier: Digest)
    requires IsTheNote(s.notes, k, nullifier)
    ensures var s' := Next(H, s, SeenSpent(nullifier));
      && s' == s.(notes := s'.notes) && |s'.notes| == |s.notes|
      && (forall j :: 0 <= j < |s.notes| ==> s'.notes[j] == if j == k then s.notes[j].(spent := true) else s.notes[j])
      && IsSpent(s'.notes, s.notes[k].position)
  {
    var i := First(s.notes, IsUnspentOf(nullifier));
    assert IsUnspentOf(nullifier)(s.notes[k]) <==> !s.notes[k].spent;
    var s' := Next(H, s, SeenSpent(nullifier));
    assert s'.notes[k].spent && s'.notes[k].position == s.notes[k].position;
  }

  /** The notes are as they were, or more, or one of them spent. */
  lemma NotesGoOn(H: Hash, s: System, e: Event)
    requires !e.Restart?
    ensures var notes' := Next(H, s, e).notes;
      |s.notes| <= |notes'| && forall j :: 0 <= j < |s.notes| ==>
        notes'[j].position == s.notes[j].position && (s.notes[j].spent ==> notes'[j].spent)
  {
    hide Prepare, Finalize, Reconciliation;
    if e.ReadRoot? && s.phase.Idle? {
      assert ReadRootStep(H, s).notes == s.notes;
    }
  }

  lemma SpentStays(H: Hash, s: System, e: Event, position: nat)
    requires !e.Restart? && IsSpent(s.notes, position)
    ensures IsSpent(Next(H, s, e).notes, position)
  {
    NotesGoOn(H, s, e);
    hide Next;
    var i :| 0 <= i < |s.notes| && s.notes[i].position == position && s.notes[i].spent;
    assert Next(H, s, e).notes[i].spent;
  }

  lemma {:induction false} SpentInRun(H: Hash, events: seq<Event>, m: nat, position: nat)
    requires m <= |events| && IsSpent(Run(H, events[..m]).notes, position)
    requires forall i :: m <= i < |events| ==> !events[i].Restart?
    ensures IsSpent(Run(H, events).notes, position)
  {
    if m == |events| {
      assert events[..m] == events;
    } else {
      var front := events[..|events| - 1];
      assert front[..m] == events[..m];
      SpentInRun(H, front, m, position);
      SpentStays(H, Run(H, front), events[|events| - 1], position);
    }
  }

  /**
   Once the chain has shown the nullifier of a tracked note, no transaction is built over that note
   any more, until the process starts anew.
   */
  lemma SeenNoteIsNotSpent(
    H: Hash, inputs: set<Preimage>, events: seq<Event>, m: nat, k: nat, txid: Txid, raw: ByteString, amount: nat)
    requires IsCleanRun(H, inputs, events) && m < |events| && events[m].SeenSpent?
    requires IsTheNote(Run(H, events[..m]).notes, k, events[m].nullifier)
    requires forall i :: m <= i < |events| ==> !events[i].Restart?
    requires Run(H, events).phase.RootRead? && Next(H, Run(H, events), Build(txid, raw, amount)).phase.Built?
    ensures Next(H, Run(H, events), Build(txid, raw, amount)).phase.intent.position != Run(H, events[..m]).notes[k].position
  {
    hide *;
    SeenInRun(H, events, m, k);
    UniqueInRun(H, inputs, events);
    SpentInRun(H, events, m + 1, Run(H, events[..m]).notes[k].position);
    SpentIsNotBuilt(H, Run(H, events), Run(H, events[..m]).notes[k].position, txid, raw, amount);
  }

  lemma NoteIsThere(s: System, k: nat, nullifier: Digest)
    requires IsTheNote(s.notes, k, nullifier)
    ensures k < |s.notes|
  {}

  lemma SeenInRun(H: Hash, events: seq<Event>, m: nat, k: nat)
    requires m < |events| && events[m].SeenSpent? && IsTheNote(Run(H, events[..m]).notes, k, events[m].nullifier)
    ensures IsSpent(Run(H, events[..m + 1]).notes, Run(H, events[..m]).notes[k].position)
    ensures k < |Run(H, events[..m]).notes|
  {
    hide *;
    var s, e := Run(H, events[..m]), events[m];
    SeenIsSpent(H, s, k, e.nullifier);
    RunThen(H, events[..m], e);
    assert events[..m] + [e] == events[..m + 1];
    NoteIsThere(s, k, e.nullifier);
  }

  lemma UniqueInRun(H: Hash, inputs: set<Preimage>, events: seq<Event>)
    requires IsCleanRun(H, inputs, events)
    ensures UniquePositions(Run(H, events).notes)
  {
    RunInv(H, inputs, events);
  }

  lemma SpentIsNotBuilt(H: Hash, s: System, position: nat, txid: Txid, raw: ByteString, amount: nat)
    requires UniquePositions(s.notes) && IsSpent(s.notes, position)
    requires s.phase.RootRead? && Next(H, s, Build(txid, raw, amount)).phase.Built?
    ensures Next(H, s, Build(txid, raw, amount)).phase.intent.position != position
  {
    BuiltIsPaidFor(H, s, txid, raw, amount);
    hide Next;
  }

  /** An error ends the round, and the next one finds the prepared transaction again. */
  lemma ErrorResumes(H: Hash, s: System, t: Txid)
    requires OnePrepared(s.journal) && t in s.journal && s.journal[t].status == Prepared
    ensures Next(H, Next(H, s, LoopError), ReadRoot) == s.(phase := Journaled(IntentOf(t, s.journal[t])))
  {
    assert Next(H, s, LoopError) == s.(phase := Idle);
    assert HasPrepared(s.journal);
  }

  // ---------------------------------------------------------------------------------
  // What was recorded was accepted by the node
  // ---------------------------------------------------------------------------------

  /** The transactions that the node was handed, and took. */
  ghost function Accepted(H: Hash, events: seq<Event>): set<Txid> {
    if events == [] then {}
    else
      var front, e := events[..|events| - 1], events[|events| - 1];
      var s := Run(H, front);
      Accepted(H, front) + if e == Submit(true) && s.phase.Journaled? then {s.phase.intent.txid} else {}
  }

  /** Whatever the loop has broadcast, and every recorded row, was accepted. */
  ghost predicate AreAccepted(s: System, accepted: set<Txid>) {
    && (s.phase.Broadcast? || s.phase.MarkedSpent? ==> s.phase.intent.txid in accepted)
    && forall t :: t in s.journal && s.journal[t].status == Recorded ==> t in accepted
  }

  lemma ReconciliationAccepts(s: System, e: Event, accepted: set<Txid>)
    requires AnchorsInv(Tables(s)) && AreAccepted(s, accepted) && IsReconciliation(e)
    ensures AreAccepted(WithTables(s, Reconciliation(Tables(s), e)), accepted)
  {
    ReconciliationIsHarmless(Tables(s), e);
    hide AnchorsInv, Reconciliation;
  }

  lemma WriteJournalAccepts(H: Hash, s: System, accepted: set<Txid>)
    requires AreAccepted(s, accepted) && s.phase.Built?
    ensures AreAccepted(LoopStep(H, s, WriteJournal), accepted)
  {
    PrepareSucceedsIff(Tables(s), s.phase.intent);
    hide Prepare, HasIntent, KeysAreFree;
  }

  lemma FinishAccepts(H: Hash, s: System, now: nat, accepted: set<Txid>)
    requires AreAccepted(s, accepted) && s.phase.MarkedSpent?
    ensures AreAccepted(LoopStep(H, s, Finish(now)), accepted)
  {
    if Finalize(Tables(s), s.phase.intent.txid, now).Some? {
      FinalizeIs(Tables(s), s.phase.intent.txid, now);
    }
    hide Finalize;
  }

  lemma ReadRootAccepts(H: Hash, s: System, accepted: set<Txid>)
    requires AreAccepted(s, accepted)
    ensures AreAccepted(ReadRootStep(H, s), accepted)
  {}

  lemma LoopAccepts(H: Hash, s: System, e: Event, accepted: set<Txid>)
    requires AreAccepted(s, accepted) && (e == Submit(true) && s.phase.Journaled? ==> s.phase.intent.txid in accepted)
    ensures AreAccepted(LoopStep(H, s, e), accepted)
  {
    hide Prepare, Finalize, ReadRootStep, PlanFor, First, SpendAt;
    match e {
      case ReadRoot => ReadRootAccepts(H, s, accepted);
      case WriteJournal =>
        if s.phase.Built? {
          WriteJournalAccepts(H, s, accepted);
        }
      case Finish(now) =>
        if s.phase.MarkedSpent? {
          FinishAccepts(H, s, now, accepted);
        }
      case _ =>
    }
  }

  lemma NextAccepts(H: Hash, s: System, e: Event, accepted: set<Txid>)
    requires SystemInv(H, s) && AreAccepted(s, accepted)
    requires e == Submit(true) && s.phase.Journaled? ==> s.phase.intent.txid in accepted
    ensures AreAccepted(Next(H, s, e), accepted)
  {
    InvOfTables(H, s);
    hide SystemInv, AnchorsInv, LoopStep, Reconciliation, LeafInserted;
    if IsReconciliation(e) {
      ReconciliationAccepts(s, e, accepted);
    } else {
      LoopAccepts(H, s, e, accepted);
    }
  }

  lemma MoreAccepted(s: System, accepted: set<Txid>, more: set<Txid>)
    requires AreAccepted(s, accepted) && accepted <= more
    ensures AreAccepted(s, more)
  {}

  lemma {:induction false} RunAccepts(H: Hash, events: seq<Event>)
    requires DistinctRoots(Run(H, events).log.roots)
    ensures AreAccepted(Run(H, events), Accepted(H, events))
  {
    if events != [] {
      var front, e := events[..|events| - 1], events[|events| - 1];
      RunLogInv(H, front);
      NextKeepsHashes(H, Run(H, front), e);
      InvOfRun(H, front);
      RunAccepts(H, front);
      hide SystemInv, Next, DistinctRoots, AreAccepted;
      MoreAccepted(Run(H, front), Accepted(H, front), Accepted(H, events));
      NextAccepts(H, Run(H, front), e, Accepted(H, events));
    }
  }

  /** No anchor is recorded that the node has not taken: an error before that leaves it prepared, however often. */
  lemma RecordedWasAccepted(H: Hash, inputs: set<Preimage>, events: seq<Event>, t: Txid)
    requires IsCleanRun(H, inputs, events)
    requires t in Run(H, events).journal && Run(H, events).journal[t].status == Recorded
    ensures t in Accepted(H, events)
  {
    RunRootsAreDistinct(H, inputs, events);
    RunAccepts(H, events);
  }

  // ---------------------------------------------------------------------------------
  // A run in which one note is spent twice
  // ---------------------------------------------------------------------------------

  lemma {:induction false} RevealedQuiet(H: Hash, events: seq<Event>, more: seq<Event>)
    requires forall e :: e in more ==> !e.WriteJournal?
    ensures Revealed(H, events + more) == Revealed(H, events)
  {
    if more == [] {
      assert events + more == events;
    } else {
      var front, last := more[..|more| - 1], more[|more| - 1];
      RevealedQuiet(H, events, front);
      assert (events + more)[..|events + more| - 1] == events + front;
      assert last in more;
    }
  }

  lemma RevealedJournaled(H: Hash, events: seq<Event>)
    requires Journals(Run(H, events), WriteJournal)
    requires NullifierAt(Run(H, events).notes, Run(H, events).phase.intent.position).Some?
    ensures var s := Run(H, events);
      Revealed(H, events + [WriteJournal])
      == Revealed(H, events)[s.phase.intent.txid := NullifierAt(s.notes, s.phase.intent.position).value]
  {
    assert (events + [WriteJournal])[..|events|] == events;
  }

  /** One round of the anchor loop up to the journal, which spends the note at k. */
  lemma RoundIsJournaled(H: Hash, s: System, root: RootRow, txid: Txid, raw: ByteString, k: nat)
    requires s.phase == Idle && !HasPrepared(s.journal) && CurrentRoot(H, s.log) == Some(root)
    requires RootsAfterCurrent(H, s.log) == s.log.roots && root in s.log.roots && root.txid.None?
    requires First(s.notes, IsEnough(FEE)) == Some(k) && s.notes[k].value <= MAX_MONEY
    requires var i := Intent(txid, root.hash, root.count, raw, s.notes[k].position); Canonical(i) && IsFree(s.journal, i)
    ensures var i := Intent(txid, root.hash, root.count, raw, s.notes[k].position);
      var built := Next(H, Next(H, s, ReadRoot), Build(txid, raw, 0));
      && built == s.(phase := Built(i)) && Journals(built, WriteJournal)
      && Next(H, built, WriteJournal) == WithIntent(s, i)
  {
    RootIsRead(H, s, root);
    var read := s.(phase := RootRead(root.hash, root.count));
    NotePlanned(H, read, txid, raw, k);
    var i := Intent(txid, root.hash, root.count, raw, s.notes[k].position);
    NewIntentWritten(H, s.(phase := Built(i)), i, root);
    assert HasUnrecordedRoot(s.log.roots, i.root, i.count);
    hide Next, IsFree, CurrentRoot, RootsAfterCurrent;
  }

  /** The copies of one note that a block fed twice leaves. */
  function CopyAt(note: Tracked, position: nat): Tracked {
    note.(position := position, spent := false)
  }

  /** The first leaf, and the note at two positions. */
  function Beginning(a: LeafRow, note: Tracked, p: nat, q: nat): seq<Event> {
    [InsertLeaf(a), Receive(CopyAt(note, p)), Receive(CopyAt(note, q))]
  }

  /** A round for the first root up to its journal, its end, and a round for the second root. */
  function FirstBuilt(a: LeafRow, note: Tracked, p: nat, q: nat, t: Txid, raw: ByteString): seq<Event> {
    Beginning(a, note, p, q) + [ReadRoot, Build(t, raw, 0)]
  }

  function SecondBuilt(a: LeafRow, b: LeafRow, note: Tracked, p: nat, q: nat, t: Txid, u: Txid, raw: ByteString): seq<Event> {
    FirstBuilt(a, note, p, q, t, raw) + [WriteJournal]
    + [Submit(true), MarkSpent, Finish(0), InsertLeaf(b)] + [ReadRoot, Build(u, raw, 0)]
  }

  function TwoRounds(a: LeafRow, b: LeafRow, note: Tracked, p: nat, q: nat, t: Txid, u: Txid, raw: ByteString): seq<Event> {
    SecondBuilt(a, b, note, p, q, t, u, raw) + [WriteJournal]
  }

  lemma RunOfTwo(H: Hash, events: seq<Event>, x: Event, y: Event)
    ensures Run(H, events + [x, y]) == Next(H, Next(H, Run(H, events), x), y)
  {
    hide Next;
    RunThen(H, events, x);
    RunThen(H, events + [x], y);
    assert events + [x] + [y] == events + [x, y];
  }

  lemma AfterBeginning(H: Hash, a: LeafRow, note: Tracked, p: nat, q: nat)
    requires p != q
    ensures Run(H, Beginning(a, note, p, q)) == START.(
      log := Log([a], [RootRow(RootOf(H, [a]), 1, None, None)]), notes := [CopyAt(note, p), CopyAt(note, q)])
  {
    var s1 := START.(log := Log([a], [RootRow(RootOf(H, [a]), 1, None, None)]));
    var s2 := s1.(notes := [CopyAt(note, p)]);
    assert [] + [a] == [a];
    assert Next(H, START, InsertLeaf(a)) == s1;
    NoteReceived(H, s1, CopyAt(note, p));
    assert !IsAt(q)(s2.notes[0]);
    assert Next(H, s2, Receive(CopyAt(note, q))).notes == [CopyAt(note, p), CopyAt(note, q)];
    hide RootOf, LeafInserted;
    RunOfThree(H, InsertLeaf(a), Receive(CopyAt(note, p)), Receive(CopyAt(note, q)));
  }

  lemma OnlyRowFinalized(root: RootRow, t: Txid, row: Row, now: nat)
    requires root.txid.None? && row == NewRow(Intent(t, root.hash, root.count, row.raw, row.position))
    ensures Finalize(Anchors([root], map[t := row]), t, now)
         == Some(Anchors([root.(txid := Some(t))], map[t := Finalized(row, now)]))
  {
    assert LastExact([root], root.hash, root.count) == Some(0);
    assert map[t := row][t := Finalized(row, now)] == map[t := Finalized(row, now)];
    assert [root][0 := root.(txid := Some(t))] == [root.(txid := Some(t))];
  }

  lemma SecondLeaf(H: Hash, a: LeafRow, b: LeafRow, first: RootRow)
    requires a.hash != b.hash && first.count == 1
    ensures LeafInserted(H, Log([a], [first]), b)
         == Log([a, b], [first, RootRow(RootOf(H, [a, b]), 2, None, None)])
  {
    assert [a] + [b] == [a, b] && IndexOf([a], b.hash).None?;
    assert [first] + [RootRow(RootOf(H, [a, b]), 2, None, None)] == [first, RootRow(RootOf(H, [a, b]), 2, None, None)];
  }

  /** The state in which the first transaction has been journaled. */
  ghost function FirstJournaled(H: Hash, a: LeafRow, note: Tracked, p: nat, q: nat, t: Txid, raw: ByteString): System {
    var root := RootRow(RootOf(H, [a]), 1, None, None);
    var s := START.(log := Log([a], [root]), notes := [CopyAt(note, p), CopyAt(note, q)]);
    WithIntent(s, Intent(t, root.hash, 1, raw, p))
  }

  /** The state in which it has been recorded, and there is a second leaf. */
  ghost function FirstRecorded(H: Hash, a: LeafRow, b: LeafRow, note: Tracked, p: nat, q: nat, t: Txid, raw: ByteString): System {
    var root, i := RootOf(H, [a]), Intent(t, RootOf(H, [a]), 1, raw, p);
    START.(
      log := Log([a, b], [RootRow(root, 1, Some(t), None), RootRow(RootOf(H, [a, b]), 2, None, None)]),
      journal := map[t := Finalized(NewRow(i), 0)],
      notes := [CopyAt(note, p).(spent := true), CopyAt(note, q)],
      sent := [i],
      mine := {t})
  }

  lemma FirstRound(H: Hash, a: LeafRow, note: Tracked, p: nat, q: nat, t: Txid, raw: ByteString)
    requires p != q && raw != [] && FEE <= note.value <= MAX_MONEY && p <= MAX_I64
    ensures var s := Run(H, Beginning(a, note, p, q));
      var built := Next(H, Next(H, s, ReadRoot), Build(t, raw, 0));
      && Next(H, built, WriteJournal) == FirstJournaled(H, a, note, p, q, t, raw)
      && built.notes == s.notes && Journals(built, WriteJournal)
      && built.phase == Built(Intent(t, RootOf(H, [a]), 1, raw, p))
  {
    AfterBeginning(H, a, note, p, q);
    var s, root := Run(H, Beginning(a, note, p, q)), RootRow(RootOf(H, [a]), 1, None, None);
    NewestRowIsCurrent(H, s.log, root);
    assert IsEnough(FEE)(s.notes[0]) && First(s.notes, IsEnough(FEE)) == Some(0);
    hide Run, RootOf, CurrentRoot, RootsAfterCurrent;
    RoundIsJournaled(H, s, root, t, raw, 0);
  }

  lemma FirstIsSpent(note: Tracked, p: nat, q: nat)
    requires p != q
    ensures var notes := [CopyAt(note, p), CopyAt(note, q)];
      IsTracked(notes, p) && Spend(notes, p) == [CopyAt(note, p).(spent := true), CopyAt(note, q)]
  {
    var notes := [CopyAt(note, p), CopyAt(note, q)];
    assert IsAt(p)(notes[0]) && First(notes, IsAt(p)) == Some(0);
    assert notes[0 := notes[0].(spent := true)] == [CopyAt(note, p).(spent := true), CopyAt(note, q)];
  }

  lemma FirstRoundFinishes(H: Hash, a: LeafRow, b: LeafRow, note: Tracked, p: nat, q: nat, t: Txid, raw: ByteString)
    requires p != q && a.hash != b.hash
    ensures Next(H, Next(H, Next(H, Next(H, FirstJournaled(H, a, note, p, q, t, raw), Submit(true)), MarkSpent), Finish(0)), InsertLeaf(b))
         == FirstRecorded(H, a, b, note, p, q, t, raw)
  {
    var s, root := FirstJournaled(H, a, note, p, q, t, raw), RootRow(RootOf(H, [a]), 1, None, None);
    var i := Intent(t, root.hash, 1, raw, p);
    FirstIsSpent(note, p, q);
    OnlyRowFinalized(root, t, NewRow(i), 0);
    assert Tables(s) == Anchors([root], map[t := NewRow(i)]);
    hide RootOf, Finalize, Spend, IsTracked;
    JournaledFinishes(H, s, i, 0);
    SecondLeaf(H, a, b, root.(txid := Some(t)));
    assert [] + [i] == [i];
  }

  lemma SecondRound(H: Hash, a: LeafRow, b: LeafRow, note: Tracked, p: nat, q: nat, t: Txid, u: Txid, raw: ByteString)
    requires p != q && t != u && raw != [] && FEE <= note.value <= MAX_MONEY && q <= MAX_I64
    ensures var s := FirstRecorded(H, a, b, note, p, q, t, raw);
      var built := Next(H, Next(H, s, ReadRoot), Build(u, raw, 0));
      var i := Intent(u, RootOf(H, [a, b]), 2, raw, q);
      && Next(H, built, WriteJournal) == WithIntent(s, i)
      && built.notes == s.notes && Journals(built, WriteJournal) && built.phase == Built(i)
  {
    var s, root := FirstRecorded(H, a, b, note, p, q, t, raw), RootRow(RootOf(H, [a, b]), 2, None, None);
    NewestRowIsCurrent(H, s.log, root);
    assert !IsEnough(FEE)(s.notes[0]) && IsEnough(FEE)(s.notes[1]);
    assert First(s.notes, IsEnough(FEE)) == Some(1);
    hide RootOf, CurrentRoot, RootsAfterCurrent;
    RoundIsJournaled(H, s, root, u, raw, 1);
  }

  lemma RunOfFirstRound(H: Hash, a: LeafRow, note: Tracked, p: nat, q: nat, t: Txid, raw: ByteString)
    requires p != q && raw != [] && FEE <= note.value <= MAX_MONEY && p <= MAX_I64
    ensures var built := Run(H, FirstBuilt(a, note, p, q, t, raw));
      && Journals(built, WriteJournal) && built.phase == Built(Intent(t, RootOf(H, [a]), 1, raw, p))
      && built.notes == [CopyAt(note, p), CopyAt(note, q)]
    ensures Run(H, FirstBuilt(a, note, p, q, t, raw) + [WriteJournal]) == FirstJournaled(H, a, note, p, q, t, raw)
  {
    AfterBeginning(H, a, note, p, q);
    FirstRound(H, a, note, p, q, t, raw);
    hide Run, Next, RootOf, FirstJournaled, Journals, Beginning;
    RunOfTwo(H, Beginning(a, note, p, q), ReadRoot, Build(t, raw, 0));
    RunThen(H, FirstBuilt(a, note, p, q, t, raw), WriteJournal);
  }

  lemma TwoRoundsRun(H: Hash, a: LeafRow, b: LeafRow, note: Tracked, p: nat, q: nat, t: Txid, u: Txid, raw: ByteString)
    requires a.hash != b.hash && p != q && t != u && raw != []
    requires FEE <= note.value <= MAX_MONEY && p <= MAX_I64 && q <= MAX_I64
    ensures var one, two := Run(H, FirstBuilt(a, note, p, q, t, raw)), Run(H, SecondBuilt(a, b, note, p, q, t, u, raw));
      && Journals(one, WriteJournal) && one.phase == Built(Intent(t, RootOf(H, [a]), 1, raw, p))
      && one.notes == [CopyAt(note, p), CopyAt(note, q)]
      && Journals(two, WriteJournal) && two.phase == Built(Intent(u, RootOf(H, [a, b]), 2, raw, q))
      && two.notes == [CopyAt(note, p).(spent := true), CopyAt(note, q)]
    ensures Run(H, TwoRounds(a, b, note, p, q, t, u, raw))
         == WithIntent(FirstRecorded(H, a, b, note, p, q, t, raw), Intent(u, RootOf(H, [a, b]), 2, raw, q))
  {
    RunOfFirstRound(H, a, note, p, q, t, raw);
    FirstRoundFinishes(H, a, b, note, p, q, t, raw);
    SecondRound(H, a, b, note, p, q, t, u, raw);
    hide Run, Next, RootOf, FirstJournaled, Journals, FirstBuilt;
    var built := FirstBuilt(a, note, p, q, t, raw);
    RunOfFour(H, built + [WriteJournal], Submit(true), MarkSpent, Finish(0), InsertLeaf(b));
    RunOfTwo(H, built + [WriteJournal] + [Submit(true), MarkSpent, Finish(0), InsertLeaf(b)], ReadRoot, Build(u, raw, 0));
    RunThen(H, SecondBuilt(a, b, note, p, q, t, u, raw), WriteJournal);
  }

  lemma NullifierOfCopies(notes: seq<Tracked>, note: Tracked, position: nat)
    requires forall n :: n in notes ==> n.nullifier == note.nullifier
    requires IsTracked(notes, position)
    ensures NullifierAt(notes, position) == Some(note.nullifier)
  {
    assert notes[First(notes, IsAt(position)).value] in notes;
  }

  lemma FirstRoundReveals(H: Hash, a: LeafRow, note: Tracked, p: nat, q: nat, t: Txid, raw: ByteString, events: seq<Event>)
    requires events == FirstBuilt(a, note, p, q, t, raw)
    requires var s := Run(H, events);
      && Journals(s, WriteJournal) && s.phase.intent.txid == t && s.phase.intent.position == p
      && s.notes == [CopyAt(note, p), CopyAt(note, q)]
    ensures Revealed(H, events + [WriteJournal]) == map[t := note.nullifier]
  {
    RevealedQuiet(H, [], events);
    assert [] + events == events;
    hide Run, Journals, FirstBuilt;
    TrackedAt(Run(H, events).notes, p, 0);
    NullifierOfCopies(Run(H, events).notes, note, p);
    RevealedJournaled(H, events);
  }

  lemma SecondRoundReveals(
    H: Hash, b: LeafRow, note: Tracked, p: nat, q: nat, t: Txid, u: Txid, raw: ByteString, before: seq<Event>, events: seq<Event>)
    requires events == before + [Submit(true), MarkSpent, Finish(0), InsertLeaf(b)] + [ReadRoot, Build(u, raw, 0)]
    requires Revealed(H, before) == map[t := note.nullifier]
    requires var s := Run(H, events);
      && Journals(s, WriteJournal) && s.phase.intent.txid == u && s.phase.intent.position == q
      && s.notes == [CopyAt(note, p).(spent := true), CopyAt(note, q)]
    ensures Revealed(H, events + [WriteJournal]) == map[t := note.nullifier, u := note.nullifier]
  {
    hide Run, Journals, Revealed;
    var more := [Submit(true), MarkSpent, Finish(0), InsertLeaf(b)];
    RevealedQuiet(H, before, more);
    RevealedQuiet(H, before + more, [ReadRoot, Build(u, raw, 0)]);
    TrackedAt(Run(H, events).notes, q, 1);
    NullifierOfCopies(Run(H, events).notes, note, q);
    RevealedJournaled(H, events);
    assert map[t := note.nullifier][u := note.nullifier] == map[t := note.nullifier, u := note.nullifier];
  }

  lemma TwoRoundsReveal(H: Hash, a: LeafRow, b: LeafRow, note: Tracked, p: nat, q: nat, t: Txid, u: Txid, raw: ByteString)
    requires a.hash != b.hash && p != q && t != u && raw != []
    requires FEE <= note.value <= MAX_MONEY && p <= MAX_I64 && q <= MAX_I64
    ensures Revealed(H, TwoRounds(a, b, note, p, q, t, u, raw)) == map[t := note.nullifier, u := note.nullifier]
  {
    TwoRoundsRun(H, a, b, note, p, q, t, u, raw);
    hide Run, RootOf, Journals, FirstRecorded, Revealed, FirstBuilt;
    var one, two := FirstBuilt(a, note, p, q, t, raw), SecondBuilt(a, b, note, p, q, t, u, raw);
    FirstRoundReveals(H, a, note, p, q, t, raw, one);
    SecondRoundReveals(H, b, note, p, q, t, u, raw, one + [WriteJournal], two);
  }

  /**
   A note that the wallet tracks at two positions, as after a block that was fed twice, is spent
   by two transactions of one process, both of which are journaled.
   */
  lemma RepeatedNoteIsSpentTwice(H: Hash, a: LeafRow, b: LeafRow, note: Tracked, p: nat, q: nat, t: Txid, u: Txid, raw: ByteString)
    requires a.hash != b.hash && p != q && t != u && raw != []
    requires FEE <= note.value <= MAX_MONEY && p <= MAX_I64 && q <= MAX_I64
    ensures var events := TwoRounds(a, b, note, p, q, t, u, raw);
      var s := Run(H, events);
      && t in s.mine && u in s.mine && t in s.journal && u in s.journal
      && s.journal[t].position == p && s.journal[u].position == q
      && t in Revealed(H, events) && u in Revealed(H, events)
      && Revealed(H, events)[t] == Revealed(H, events)[u] == note.nullifier
  {
    TwoRoundsRun(H, a, b, note, p, q, t, u, raw);
    TwoRoundsReveal(H, a, b, note, p, q, t, u, raw);
    hide Run, Revealed, RootOf, TwoRounds;
  }
}
