/**
 Confirmation rounds in the runs of the anchor protocol: a row that was recorded at a wrong height
 keeps every row behind it from being confirmed.
 */
module ConfirmationRuns {
  import opened Results
  import opened Merkle
  import opened LeafLog
  import opened Journal
  import opened Protocol
  import opened ProtocolRuns
  import opened Confirmations

  /** One event of the protocol, or one whole round over the rows that the query returned. */
  datatype Turn =
    | Step(event: Event)
    | Round(due: seq<Txid>, node: Node, now: nat)

  predicate IsConfirmation(e: Event) {
    e.NodeConfirms? || e.NodeDoesNotConfirm?
  }

  function AnswerEvent(t: Txid, height: Option<nat>, now: nat): Event {
    if height.Some? then NodeConfirms(t, height.value, now) else NodeDoesNotConfirm(t, now)
  }

  /** The events of a round: one for each row that it handles. */
  function RoundEvents(a: Anchors, rows: seq<Txid>, node: Node, now: nat): seq<Event>
    decreases |rows|
  {
    if rows == [] then []
    else
      var height := HeightOf(node(rows[0]));
      var b := Answered(a, rows[0], height, now);
      if b.None? then [] else [AnswerEvent(rows[0], height, now)] + RoundEvents(b.value, rows[1..], node, now)
  }

  /** Confirmations come from rounds only. */
  function TurnEvents(s: System, turn: Turn): seq<Event> {
    match turn
    case Step(e) => if IsConfirmation(e) then [] else [e]
    case Round(due, node, now) => RoundEvents(Tables(s), Batch(due), node, now)
  }

  ghost function Played(H: Hash, turns: seq<Turn>): seq<Event> {
    if turns == [] then []
    else
      var events := Played(H, turns[..|turns| - 1]);
      events + TurnEvents(Run(H, events), turns[|turns| - 1])
  }

  /** Every round looks at the rows that are due then. */
  ghost predicate QueriesAreDue(H: Hash, turns: seq<Turn>) {
    forall k :: 0 <= k < |turns| && turns[k].Round? ==>
      IsDueList(Run(H, Played(H, turns[..k])).journal, turns[k].now, turns[k].due)
  }

  lemma AnswerIsEvent(H: Hash, s: System, t: Txid, height: Option<nat>, now: nat)
    ensures Next(H, s, AnswerEvent(t, height, now)) == WithTables(s, Answered(Tables(s), t, height, now))
  {
    hide Confirm, Retry;
  }

  lemma NothingPlayed(H: Hash, events: seq<Event>)
    ensures events + [] == events && WithTables(Run(H, events), Some(Tables(Run(H, events)))) == Run(H, events)
  {}

  lemma RoundEventsAre(a: Anchors, rows: seq<Txid>, node: Node, now: nat, b: Anchors)
    requires rows != [] && Answered(a, rows[0], HeightOf(node(rows[0])), now) == Some(b)
    ensures RoundEvents(a, rows, node, now)
         == [AnswerEvent(rows[0], HeightOf(node(rows[0])), now)] + RoundEvents(b, rows[1..], node, now)
  {
    hide Answered, AnswerEvent;
  }

  lemma Associates(x: seq<Event>, y: seq<Event>, z: seq<Event>)
    ensures x + (y + z) == x + y + z
  {}

  lemma TablesAre(s: System, b: Anchors)
    ensures Tables(WithTables(s, Some(b))) == b
  {}

  /** The first answer of a round, and what is left of it. */
  lemma FirstIsPlayed(H: Hash, events: seq<Event>, rows: seq<Txid>, node: Node, now: nat, b: Anchors)
    requires rows != [] && Answered(Tables(Run(H, events)), rows[0], HeightOf(node(rows[0])), now) == Some(b)
    ensures var s, e := Run(H, events), AnswerEvent(rows[0], HeightOf(node(rows[0])), now);
      && Run(H, events + [e]) == WithTables(s, Some(b)) && Tables(Run(H, events + [e])) == b
      && events + RoundEvents(Tables(s), rows, node, now) == events + [e] + RoundEvents(b, rows[1..], node, now)
  {
    hide *;
    var s, e := Run(H, events), AnswerEvent(rows[0], HeightOf(node(rows[0])), now);
    AnswerIsEvent(H, s, rows[0], HeightOf(node(rows[0])), now);
    RunThen(H, events, e);
    TablesAre(s, b);
    RoundEventsAre(Tables(s), rows, node, now, b);
    Associates(events, [e], RoundEvents(b, rows[1..], node, now));
  }

  lemma TablesReplaced(s: System, b: Anchors, c: Anchors)
    ensures WithTables(WithTables(s, Some(b)), Some(c)) == WithTables(s, Some(c))
  {}

  lemma RoundNotPlayed(a: Anchors, rows: seq<Txid>, node: Node, now: nat)
    requires rows == [] || Answered(a, rows[0], HeightOf(node(rows[0])), now).None?
    ensures RoundEvents(a, rows, node, now) == []
  {
    hide Answered;
  }

  /** Playing a round leaves the tables that the round leaves. */
  lemma {:induction false} RoundIsPlayed(H: Hash, events: seq<Event>, rows: seq<Txid>, node: Node, now: nat)
    ensures var s := Run(H, events);
      Run(H, events + RoundEvents(Tables(s), rows, node, now))
      == WithTables(s, Some(AfterRound(Tables(s), rows, node, now)))
    decreases |rows|
  {
    hide *;
    var s := Run(H, events);
    if rows == [] || Answered(Tables(s), rows[0], HeightOf(node(rows[0])), now).None? {
      RoundNotPlayed(Tables(s), rows, node, now);
      RoundStops(Tables(s), rows, node, now);
      NothingPlayed(H, events);
    } else {
      var b := Answered(Tables(s), rows[0], HeightOf(node(rows[0])), now).value;
      var e := AnswerEvent(rows[0], HeightOf(node(rows[0])), now);
      FirstIsPlayed(H, events, rows, node, now, b);
      RoundGoesOn(Tables(s), rows, node, now);
      RoundIsPlayed(H, events + [e], rows[1..], node, now);
      TablesReplaced(s, b, AfterRound(b, rows[1..], node, now));
    }
  }

  // ---------------------------------------------------------------------------------
  // A row that blocks another
  // ---------------------------------------------------------------------------------

  /** Two unconfirmed rows, of which the first one's root has this height. */
  ghost predicate IsBlocked(a: Anchors, t: Txid, u: Txid, first: Row, second: Row, known: nat) {
    && t in a.journal && u in a.journal && a.journal[t] == first && a.journal[u] == second
    && IsUnconfirmed(first) && IsUnconfirmed(second) && ComesFirst(a.journal, t, u)
    && 0 < first.count <= |a.roots| && a.roots[first.count - 1].height == Some(known)
  }

  /** The order depends on the two rows alone. */
  lemma SameRowsStayBlocked(a: Anchors, b: Anchors, t: Txid, u: Txid, first: Row, second: Row, known: nat)
    requires IsBlocked(a, t, u, first, second, known)
    requires t in b.journal && u in b.journal && b.journal[t] == first && b.journal[u] == second
    requires |a.roots| <= |b.roots| && b.roots[first.count - 1].height == Some(known)
    ensures IsBlocked(b, t, u, first, second, known)
  {}

  lemma BlockedIsNotReached(a: Anchors, due: seq<Txid>, node: Node, now: nat, t: Txid, u: Txid, first: Row, second: Row, known: nat, n: nat)
    requires IsDueList(a.journal, now, due) && IsBlocked(a, t, u, first, second, known) && IsDue(first, now)
    requires n <= |Batch(due)| && !IsAmong(Batch(due), n, t)
    ensures !IsAmong(Batch(due), n, u)
  {
    if IsAmong(Batch(due), n, u) {
      var j :| 0 <= j < n && Batch(due)[j] == u;
      assert t in due;
      var i :| 0 <= i < |due| && due[i] == t;
      ComesFirstIsTotal(a.journal, t, u);
    }
  }

  lemma BlockedRefuses(a: Anchors, t: Txid, u: Txid, first: Row, second: Row, known: nat, height: Option<nat>)
    requires IsBlocked(a, t, u, first, second, known) && height.Some? && height != Some(known)
    ensures Refuses(a, t, height)
  {}

  lemma ReachedAccepts(a: Anchors, b: Anchors, rows: seq<Txid>, node: Node, n: nat, i: nat)
    requires i < n <= |rows| && AreReached(a, b, rows, node, n)
    ensures !Refuses(a, rows[i], HeightOf(node(rows[i])))
  {
    assert IsReached(a, b, rows, node, i);
  }

  lemma RefusingIsNotReached(a: Anchors, b: Anchors, rows: seq<Txid>, node: Node, n: nat, t: Txid)
    requires IsRound(a, b, rows, node, n) && Refuses(a, t, HeightOf(node(t)))
    ensures !IsAmong(rows, n, t)
  {
    hide Harmless, AreOthersSame, StopsAt, AreReached, Refuses, HeightOf;
    if IsAmong(rows, n, t) {
      var i :| 0 <= i < n && rows[i] == t;
      ReachedAccepts(a, b, rows, node, n, i);
    }
  }

  lemma NotReachedIsSame(a: Anchors, b: Anchors, rows: seq<Txid>, node: Node, n: nat, t: Txid)
    requires IsRound(a, b, rows, node, n) && t in a.journal && !IsAmong(rows, n, t)
    ensures IsSameRow(a, b, t)
  {
    hide Harmless, AreReached, StopsAt, IsAmong, IsSameRow;
  }

  lemma SameRowsBlocked(a: Anchors, b: Anchors, t: Txid, u: Txid, first: Row, second: Row, known: nat)
    requires IsBlocked(a, t, u, first, second, known) && IsSameRow(a, b, t) && IsSameRow(a, b, u)
    ensures IsBlocked(b, t, u, first, second, known)
  {
    SameRowsStayBlocked(a, b, t, u, first, second, known);
  }

  lemma BlockedAreRows(a: Anchors, t: Txid, u: Txid, first: Row, second: Row, known: nat)
    requires IsBlocked(a, t, u, first, second, known)
    ensures t in a.journal && u in a.journal
  {}

  /** A round that the first row refuses leaves both as they are. */
  lemma RoundKeepsBlocked(a: Anchors, due: seq<Txid>, node: Node, now: nat, t: Txid, u: Txid, first: Row, second: Row, known: nat)
    requires AnchorsInv(a) && IsDueList(a.journal, now, due) && IsBlocked(a, t, u, first, second, known)
    requires IsDue(first, now) && HeightOf(node(t)).Some? && HeightOf(node(t)) != Some(known)
    ensures IsBlocked(AfterRound(a, Batch(due), node, now), t, u, first, second, known)
  {
    hide *;
    BatchIsOpen(a, now, due);
    RoundReaches(a, Batch(due), node, now);
    var b, n := AfterRound(a, Batch(due), node, now), Handled(a, Batch(due), node, now);
    BlockedAreRows(a, t, u, first, second, known);
    BlockedRefuses(a, t, u, first, second, known, HeightOf(node(t)));
    RefusingIsNotReached(a, b, Batch(due), node, n, t);
    BlockedIsNotReached(a, due, node, now, t, u, first, second, known, n);
    NotReachedIsSame(a, b, Batch(due), node, n, t);
    NotReachedIsSame(a, b, Batch(due), node, n, u);
    SameRowsBlocked(a, b, t, u, first, second, known);
  }

  lemma ReconciliationKeepsRow(a: Anchors, e: Event, t: Txid)
    requires t in a.journal && a.journal[t].status == Recorded && !IsConfirmation(e)
    requires Reconciliation(a, e).Some?
    ensures var b := Reconciliation(a, e).value; t in b.journal && b.journal[t] == a.journal[t]
  {}

  lemma WriteJournalKeepsRow(H: Hash, s: System, t: Txid)
    requires t in s.journal
    ensures t in LoopStep(H, s, WriteJournal).journal && LoopStep(H, s, WriteJournal).journal[t] == s.journal[t]
  {}

  lemma FinishKeepsRow(H: Hash, s: System, now: nat, t: Txid)
    requires PhaseInv(s) && t in s.journal && s.journal[t].status == Recorded
    ensures t in LoopStep(H, s, Finish(now)).journal && LoopStep(H, s, Finish(now)).journal[t] == s.journal[t]
  {}

  lemma LoopKeepsRow(H: Hash, s: System, e: Event, t: Txid)
    requires LogInv(H, s.log) && PhaseInv(s) && t in s.journal && s.journal[t].status == Recorded
    ensures t in LoopStep(H, s, e).journal && LoopStep(H, s, e).journal[t] == s.journal[t]
  {
    hide LogInv, LoopStep, PhaseInv;
    match e {
      case WriteJournal => WriteJournalKeepsRow(H, s, t);
      case Finish(now) => FinishKeepsRow(H, s, now, t);
      case _ => OtherStepsKeepTables(H, s, e);
    }
  }

  /** Nothing but a confirmation changes a recorded row. */
  lemma NextKeepsRow(H: Hash, s: System, e: Event, t: Txid)
    requires SystemInv(H, s) && t in s.journal && s.journal[t].status == Recorded && !IsConfirmation(e)
    ensures t in Next(H, s, e).journal && Next(H, s, e).journal[t] == s.journal[t]
  {
    LogOfSystem(H, s);
    hide LogInv, AnchorsInv, SystemInv, LoopStep, Reconciliation, LeafInserted;
    if IsReconciliation(e) {
      if Reconciliation(Tables(s), e).Some? {
        ReconciliationKeepsRow(Tables(s), e, t);
      }
    } else {
      PhaseOfSystem(H, s);
      LoopKeepsRow(H, s, e, t);
    }
  }

  lemma PhaseOfSystem(H: Hash, s: System)
    requires SystemInv(H, s)
    ensures PhaseInv(s)
  {}

  lemma DistinctBefore(H: Hash, events: seq<Event>, m: nat)
    requires m <= |events| && DistinctRoots(Run(H, events).log.roots)
    ensures DistinctRoots(Run(H, events[..m]).log.roots)
    ensures RootsKept(Run(H, events[..m]).log.roots, Run(H, events).log.roots)
  {
    TablesOfRun(H, events, m);
    hide Run;
    DistinctPart(Run(H, events[..m]).log.roots, Run(H, events).log.roots);
  }

  lemma DistinctPart(roots: seq<RootRow>, roots': seq<RootRow>)
    requires RootsKept(roots, roots') && DistinctRoots(roots')
    ensures DistinctRoots(roots)
  {
    forall i, j | 0 <= i < j < |roots| ensures roots[i].hash != roots[j].hash {
      assert RowKept(roots[i], roots'[i]) && RowKept(roots[j], roots'[j]);
    }
  }

  lemma StepKeepsBlocked(H: Hash, s: System, e: Event, t: Txid, u: Txid, first: Row, second: Row, known: nat)
    requires SystemInv(H, s) && !IsConfirmation(e) && IsBlocked(Tables(s), t, u, first, second, known)
    requires RootsKept(s.log.roots, Next(H, s, e).log.roots)
    ensures IsBlocked(Tables(Next(H, s, e)), t, u, first, second, known)
  {
    NextKeepsRow(H, s, e, t);
    NextKeepsRow(H, s, e, u);
    assert RowKept(s.log.roots[first.count - 1], Next(H, s, e).log.roots[first.count - 1]);
    hide SystemInv, Next, ComesFirst;
    SameRowsStayBlocked(Tables(s), Tables(Next(H, s, e)), t, u, first, second, known);
  }

  /** From turn m on, every round finds the first row due, and the node tells a height that is not its root's. */
  ghost predicate AlwaysRefused(turns: seq<Turn>, m: nat, t: Txid, first: Row, known: nat) {
    forall k :: m <= k < |turns| && turns[k].Round? ==>
      IsDue(first, turns[k].now) && HeightOf(turns[k].node(t)).Some? && HeightOf(turns[k].node(t)) != Some(known)
  }

  lemma StepTurnKeepsBlocked(H: Hash, events: seq<Event>, e: Event, t: Txid, u: Txid, first: Row, second: Row, known: nat)
    requires SystemInv(H, Run(H, events)) && IsBlocked(Tables(Run(H, events)), t, u, first, second, known)
    requires RootsKept(Run(H, events).log.roots, Run(H, events + TurnEvents(Run(H, events), Step(e))).log.roots)
    ensures IsBlocked(Tables(Run(H, events + TurnEvents(Run(H, events), Step(e)))), t, u, first, second, known)
  {
    NothingPlayed(H, events);
    RunThen(H, events, e);
    hide Run, Next, SystemInv, IsBlocked, RootsKept, Tables, WithTables;
    if !IsConfirmation(e) {
      StepKeepsBlocked(H, Run(H, events), e, t, u, first, second, known);
    }
  }

  lemma RoundTurnKeepsBlocked(
    H: Hash, events: seq<Event>, due: seq<Txid>, node: Node, now: nat, t: Txid, u: Txid, first: Row, second: Row, known: nat)
    requires SystemInv(H, Run(H, events)) && IsBlocked(Tables(Run(H, events)), t, u, first, second, known)
    requires IsDueList(Tables(Run(H, events)).journal, now, due)
    requires IsDue(first, now) && HeightOf(node(t)).Some? && HeightOf(node(t)) != Some(known)
    ensures IsBlocked(Tables(Run(H, events + RoundEvents(Tables(Run(H, events)), Batch(due), node, now))), t, u, first, second, known)
  {
    hide *;
    var a := Tables(Run(H, events));
    InvOfTables(H, Run(H, events));
    RoundIsPlayed(H, events, Batch(due), node, now);
    TablesAre(Run(H, events), AfterRound(a, Batch(due), node, now));
    RoundKeepsBlocked(a, due, node, now, t, u, first, second, known);
  }

  /** One turn more. */
  lemma TurnKeepsBlocked(H: Hash, events: seq<Event>, turn: Turn, t: Txid, u: Txid, first: Row, second: Row, known: nat)
    requires var s := Run(H, events + TurnEvents(Run(H, events), turn));
      DistinctRoots(s.log.roots) && RootsKept(Run(H, events).log.roots, s.log.roots)
    requires turn.Round? ==> IsDueList(Tables(Run(H, events)).journal, turn.now, turn.due)
    requires turn.Round? ==> IsDue(first, turn.now) && HeightOf(turn.node(t)).Some? && HeightOf(turn.node(t)) != Some(known)
    requires SystemInv(H, Run(H, events)) && IsBlocked(Tables(Run(H, events)), t, u, first, second, known)
    ensures IsBlocked(Tables(Run(H, events + TurnEvents(Run(H, events), turn))), t, u, first, second, known)
  {
    hide Run, SystemInv, IsBlocked, RootsKept, Tables, IsDueList, HeightOf, IsDue, RoundEvents, DistinctRoots, Batch;
    match turn {
      case Step(e) => StepTurnKeepsBlocked(H, events, e, t, u, first, second, known);
      case Round(due, node, now) => RoundTurnKeepsBlocked(H, events, due, node, now, t, u, first, second, known);
    }
  }

  lemma QueriesBefore(H: Hash, turns: seq<Turn>)
    requires turns != [] && QueriesAreDue(H, turns)
    ensures QueriesAreDue(H, turns[..|turns| - 1])
  {
    var front := turns[..|turns| - 1];
    forall k | 0 <= k < |front| && front[k].Round?
      ensures IsDueList(Run(H, Played(H, front[..k])).journal, front[k].now, front[k].due)
    {
      assert front[..k] == turns[..k];
    }
  }

  /** What is known before the last turn. */
  lemma BeforeLastTurn(H: Hash, turns: seq<Turn>)
    requires turns != [] && QueriesAreDue(H, turns) && DistinctRoots(Run(H, Played(H, turns)).log.roots)
    ensures var events, turn := Played(H, turns[..|turns| - 1]), turns[|turns| - 1];
      && Played(H, turns) == events + TurnEvents(Run(H, events), turn)
      && DistinctRoots(Run(H, events).log.roots) && SystemInv(H, Run(H, events))
      && RootsKept(Run(H, events).log.roots, Run(H, Played(H, turns)).log.roots)
      && (turn.Round? ==> IsDueList(Tables(Run(H, events)).journal, turn.now, turn.due))
  {
    var events := Played(H, turns[..|turns| - 1]);
    assert Played(H, turns)[..|events|] == events;
    hide Run, SystemInv, IsDueList, TurnEvents;
    DistinctBefore(H, Played(H, turns), |events|);
    InvOfRun(H, events);
  }

  lemma RefusedBefore(turns: seq<Turn>, m: nat, t: Txid, first: Row, known: nat)
    requires m < |turns| && AlwaysRefused(turns, m, t, first, known)
    ensures AlwaysRefused(turns[..|turns| - 1], m, t, first, known)
    ensures var turn := turns[|turns| - 1];
      turn.Round? ==> IsDue(first, turn.now) && HeightOf(turn.node(t)).Some? && HeightOf(turn.node(t)) != Some(known)
  {}

  lemma {:induction false} BlockedRun(
    H: Hash, turns: seq<Turn>, m: nat, t: Txid, u: Txid, first: Row, second: Row, known: nat)
    requires m <= |turns| && QueriesAreDue(H, turns) && DistinctRoots(Run(H, Played(H, turns)).log.roots)
    requires AlwaysRefused(turns, m, t, first, known)
    requires IsBlocked(Tables(Run(H, Played(H, turns[..m]))), t, u, first, second, known)
    ensures IsBlocked(Tables(Run(H, Played(H, turns))), t, u, first, second, known)
    decreases |turns|
  {
    hide *;
    if m == |turns| {
      assert turns[..m] == turns;
    } else {
      var front := turns[..|turns| - 1];
      assert front[..m] == turns[..m];
      QueriesBefore(H, turns);
      BeforeLastTurn(H, turns);
      RefusedBefore(turns, m, t, first, known);
      BlockedRun(H, front, m, t, u, first, second, known);
      TurnKeepsBlocked(H, Played(H, front), turns[|turns| - 1], t, u, first, second, known);
    }
  }

  /**
   A row that was recorded at a wrong height comes first in every round, ends it, and is never put
   off, so that no row behind it is confirmed in any later round, whatever happens in between.
   */
  lemma StuckRowBlocks(
    H: Hash, inputs: set<Preimage>, turns: seq<Turn>, m: nat, t: Txid, u: Txid, first: Row, second: Row, known: nat)
    requires m <= |turns| && IsCleanRun(H, inputs, Played(H, turns)) && QueriesAreDue(H, turns)
    requires IsBlocked(Tables(Run(H, Played(H, turns[..m]))), t, u, first, second, known)
    requires AlwaysRefused(turns, m, t, first, known)
    ensures var journal := Run(H, Played(H, turns)).journal;
      t in journal && u in journal && journal[t] == first && journal[u] == second && journal[u].confirmedAt.None?
  {
    RunRootsAreDistinct(H, inputs, Played(H, turns));
    BlockedRun(H, turns, m, t, u, first, second, known);
  }

  /** How a row gets there: a height claimed on the command line makes every other one change nothing. */
  lemma ClaimedHeightStays(H: Hash, s: System, t: Txid, claimed: nat, height: nat, now: nat)
    requires AnchorsInv(Tables(s)) && t in s.journal && s.journal[t].status == Recorded && !HasPrepared(s.journal)
    requires s.log.roots[s.journal[t].count - 1].height.None? && claimed > 0 && height != claimed
    ensures var s' := Next(H, s, CliRecord(s.journal[t].root, t, Some(claimed)));
      && s'.journal == s.journal && 0 < s.journal[t].count <= |s'.log.roots|
      && s'.log.roots[s.journal[t].count - 1].height == Some(claimed)
      && Next(H, s', NodeConfirms(t, height, now)) == s'
  {
    var a := Tables(s);
    ClaimedHeightRefuses(a, t, claimed, height);
    UncheckedHeightIsTaken(a, t, claimed, height, now);
    hide RecordAnchor, Confirm, AnchorsInv;
    assert Tables(Next(H, s, CliRecord(s.journal[t].root, t, Some(claimed)))) == RecordAnchor(a, s.journal[t].root, t, Some(claimed)).value;
  }

  // ---------------------------------------------------------------------------------
  // No recorded anchor is forgotten
  // ---------------------------------------------------------------------------------

  /** When the event took place, for those that schedule anything. */
  function TimeOf(e: Event): nat {
    match e
    case Finish(now) => now
    case AdminRecord(_, _, _, now) => now
    case NodeConfirms(_, _, now) => now
    case NodeDoesNotConfirm(_, now) => now
    case _ => 0
  }

  /** No row is scheduled for more than an hour after this time. */
  ghost predicate AreScheduledBy(journal: map<Txid, Row>, bound: nat) {
    forall t :: t in journal && journal[t].nextAt.Some? ==> journal[t].nextAt.value <= bound + 3600
  }

  lemma ReconciliationSchedules(a: Anchors, e: Event, bound: nat)
    requires AreScheduledBy(a.journal, bound) && TimeOf(e) <= bound && Reconciliation(a, e).Some?
    ensures AreScheduledBy(Reconciliation(a, e).value.journal, bound)
  {
    match e {
      case AdminRecord(root, txid, height, now) => RecordManualIs(a, root, txid, height, now);
      case CliRecord(root, txid, claimed) => RecordAnchorIs(a, root, txid, claimed);
      case NodeConfirms(txid, height, now) => ConfirmIs(a, txid, height, now);
      case _ =>
    }
    hide RecordManual, RecordAnchor, Confirm, MayBeMapped, IsMappedNow, MayBeReconciled;
  }

  lemma LoopSchedules(H: Hash, s: System, e: Event, bound: nat)
    requires AreScheduledBy(s.journal, bound) && TimeOf(e) <= bound
    ensures AreScheduledBy(LoopStep(H, s, e).journal, bound)
  {
    if e.Finish? && s.phase.MarkedSpent? && Finalize(Tables(s), s.phase.intent.txid, e.now).Some? {
      FinalizeIs(Tables(s), s.phase.intent.txid, e.now);
    }
    hide Finalize;
  }

  lemma NextSchedules(H: Hash, s: System, e: Event, bound: nat)
    requires AreScheduledBy(s.journal, bound) && TimeOf(e) <= bound
    ensures AreScheduledBy(Next(H, s, e).journal, bound)
  {
    hide AreScheduledBy, LoopStep, Reconciliation, LeafInserted, TimeOf;
    if IsReconciliation(e) {
      if Reconciliation(Tables(s), e).Some? {
        ReconciliationSchedules(Tables(s), e, bound);
      }
    } else {
      LoopSchedules(H, s, e, bound);
    }
  }

  lemma {:induction false} RunSchedules(H: Hash, events: seq<Event>, bound: nat)
    requires forall k :: 0 <= k < |events| ==> TimeOf(events[k]) <= bound
    ensures AreScheduledBy(Run(H, events).journal, bound)
  {
    if events != [] {
      RunSchedules(H, events[..|events| - 1], bound);
      NextSchedules(H, Run(H, events[..|events| - 1]), events[|events| - 1], bound);
    }
  }

  /**
   No recorded anchor is put off for good: in every reachable state each one that is not confirmed is
   due an hour after the last event, and at every time from then on, however often it was retried.
   */
  lemma DueWithinTheHour(H: Hash, events: seq<Event>, bound: nat, t: Txid, later: nat)
    requires forall k :: 0 <= k < |events| ==> TimeOf(events[k]) <= bound
    requires t in Run(H, events).journal && later >= bound + 3600
    requires Run(H, events).journal[t].status == Recorded && Run(H, events).journal[t].confirmedAt.None?
    ensures IsDue(Run(H, events).journal[t], later)
  {
    RunSchedules(H, events, bound);
    hide Run;
  }
}
