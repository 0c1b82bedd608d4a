/**
 The wallet when the transactions of the chain are fed to it in any order, in part, and any number
 of times.  While no invoice is active the scanner moves its cursor without feeding the wallet, the
 recovery scan may feed blocks that the scanner feeds too, and a transaction that the node does not
 return is left out of its block.
 */
module WalletFeeds {
  import opened Bytes
  import opened Results
  import opened Wallet
  import opened WalletRuns

  /** The actions of each transaction of the chain, from the position on that the wallet is seeded at. */
  type Chain = seq<seq<Action>>

  /** A block as it is fed: its height, and which transactions of the chain were returned for it. */
  datatype Feed = Feed(height: nat, txs: seq<nat>)

  predicate AreTxs(chain: Chain, txs: seq<nat>) {
    forall k :: 0 <= k < |txs| ==> txs[k] < |chain|
  }

  predicate AreFeeds(chain: Chain, feeds: seq<Feed>) {
    forall k :: 0 <= k < |feeds| ==> AreTxs(chain, feeds[k].txs)
  }

  /** All transactions that were fed, in this order. */
  function Flat(feeds: seq<Feed>): seq<nat> {
    if feeds == [] then [] else Flat(feeds[..|feeds| - 1]) + feeds[|feeds| - 1].txs
  }

  lemma {:induction false} FlatAreTxs(chain: Chain, feeds: seq<Feed>)
    requires AreFeeds(chain, feeds)
    ensures AreTxs(chain, Flat(feeds))
  {
    if feeds != [] {
      FlatAreTxs(chain, feeds[..|feeds| - 1]);
      assert AreTxs(chain, feeds[|feeds| - 1].txs);
    }
  }

  /** The actions of these transactions in this order. */
  function Joined(chain: Chain, txs: seq<nat>): seq<Action>
    requires AreTxs(chain, txs)
  {
    if txs == [] then [] else Joined(chain, txs[..|txs| - 1]) + chain[txs[|txs| - 1]]
  }

  function Returned(chain: Chain, txs: seq<nat>): seq<Transaction>
    requires AreTxs(chain, txs)
  {
    if txs == [] then [] else Returned(chain, txs[..|txs| - 1]) + [Some(chain[txs[|txs| - 1]])]
  }

  function Feeding(chain: Chain, feeds: seq<Feed>): (ops: seq<Operation>)
    requires AreFeeds(chain, feeds)
    ensures |ops| == |feeds|
  {
    if feeds == [] then []
    else
      var last := feeds[|feeds| - 1];
      Feeding(chain, feeds[..|feeds| - 1]) + [Block(last.height, Returned(chain, last.txs))]
  }

  /** The wallet after these blocks were fed to it, in this order. */
  function Fed(start: nat, chain: Chain, feeds: seq<Feed>): State
    requires AreFeeds(chain, feeds)
  {
    Run(start, Feeding(chain, feeds))
  }

  /** The first n transactions, each once and in order. */
  function FirstTxs(n: nat): (txs: seq<nat>)
    ensures |txs| == n && forall k :: 0 <= k < n ==> txs[k] == k
  {
    if n == 0 then [] else FirstTxs(n - 1) + [n - 1]
  }

  /** How many actions the transactions before this one hold. */
  function Held(chain: Chain, x: nat): nat
    requires x <= |chain|
  {
    |Joined(chain, FirstTxs(x))|
  }

  /** How many actions were fed before the transaction at k. */
  function FedBefore(chain: Chain, txs: seq<nat>, k: nat): nat
    requires AreTxs(chain, txs) && k <= |txs|
  {
    |Joined(chain, txs[..k])|
  }

  /** Where the chain has action j of transaction x. */
  function ChainPosition(start: nat, chain: Chain, x: nat, j: nat): nat
    requires x < |chain|
  {
    start + Held(chain, x) + j
  }

  // ---------------------------------------------------------------------------------
  // One feed more
  // ---------------------------------------------------------------------------------

  lemma {:induction false} ActionsOfReturned(chain: Chain, txs: seq<nat>)
    requires AreTxs(chain, txs)
    ensures Actions(Returned(chain, txs)) == Joined(chain, txs)
  {
    if txs != [] {
      var front := txs[..|txs| - 1];
      ActionsOfReturned(chain, front);
      var all := Returned(chain, txs);
      assert all[..|all| - 1] == Returned(chain, front);
    }
  }

  lemma {:induction false} JoinedJoins(chain: Chain, a: seq<nat>, b: seq<nat>)
    requires AreTxs(chain, a) && AreTxs(chain, b)
    ensures AreTxs(chain, a + b) && Joined(chain, a + b) == Joined(chain, a) + Joined(chain, b)
  {
    if b == [] {
      assert a + b == a && Joined(chain, a) + [] == Joined(chain, a);
    } else {
      var front, last := b[..|b| - 1], b[|b| - 1];
      JoinedJoins(chain, a, front);
      assert (a + b)[..|a + b| - 1] == a + front;
      Assoc(Joined(chain, a), Joined(chain, front), chain[last]);
    }
  }

  /** What a feed leaves of the wallet before it. */
  lemma FedOneMore(start: nat, chain: Chain, feeds: seq<Feed>, before: State, fed: seq<Action>)
    requires AreFeeds(chain, feeds) && feeds != [] && before == Fed(start, chain, feeds[..|feeds| - 1])
    requires fed == Joined(chain, feeds[|feeds| - 1].txs)
    ensures Fed(start, chain, feeds) == State(before.tree + Leaves(fed), before.next + |fed|,
      SpendRevealed(before.notes, fed) + NewNotes(fed, before.next, feeds[|feeds| - 1].height))
  {
    var ops := Feeding(chain, feeds);
    assert ops[..|ops| - 1] == Feeding(chain, feeds[..|feeds| - 1]);
    ActionsOfReturned(chain, feeds[|feeds| - 1].txs);
  }

  lemma LeavesJoin(a: seq<Action>, b: seq<Action>)
    ensures Leaves(a + b) == Leaves(a) + Leaves(b)
  {}

  /** The tree holds what was fed, and the next position counts it. */
  lemma {:induction false} FedTree(start: nat, chain: Chain, feeds: seq<Feed>)
    requires AreFeeds(chain, feeds)
    ensures AreTxs(chain, Flat(feeds))
    ensures Fed(start, chain, feeds).tree == Leaves(Joined(chain, Flat(feeds)))
    ensures Fed(start, chain, feeds).next == start + |Joined(chain, Flat(feeds))|
  {
    FlatAreTxs(chain, feeds);
    if feeds != [] {
      var front, last := feeds[..|feeds| - 1], feeds[|feeds| - 1];
      var fed := Joined(chain, last.txs);
      FedTree(start, chain, front);
      FedOneMore(start, chain, feeds, Fed(start, chain, front), fed);
      hide Fed, Joined, Leaves, NewNotes, SpendRevealed;
      JoinedJoins(chain, Flat(front), last.txs);
      LeavesJoin(Joined(chain, Flat(front)), fed);
    }
  }

  // ---------------------------------------------------------------------------------
  // Where an action is among those that were fed
  // ---------------------------------------------------------------------------------

  /** Action i of all that were fed is action j of the transaction at k. */
  predicate IsPlace(chain: Chain, txs: seq<nat>, i: nat, k: nat, j: nat)
    requires AreTxs(chain, txs)
  {
    && k < |txs| && j < |chain[txs[k]]| && i == FedBefore(chain, txs, k) + j
    && i < |Joined(chain, txs)| && Joined(chain, txs)[i] == chain[txs[k]][j]
  }

  lemma PlaceInLonger(chain: Chain, txs: seq<nat>, i: nat, k: nat, j: nat)
    requires AreTxs(chain, txs) && txs != [] && IsPlace(chain, txs[..|txs| - 1], i, k, j)
    ensures IsPlace(chain, txs, i, k, j)
  {
    assert txs[..|txs| - 1][..k] == txs[..k];
  }

  lemma PlaceInLast(chain: Chain, txs: seq<nat>, j: nat)
    requires AreTxs(chain, txs) && txs != [] && j < |chain[txs[|txs| - 1]]|
    ensures IsPlace(chain, txs, FedBefore(chain, txs, |txs| - 1) + j, |txs| - 1, j)
  {}

  lemma {:induction false} EveryActionHasPlace(chain: Chain, txs: seq<nat>, i: nat)
    requires AreTxs(chain, txs) && i < |Joined(chain, txs)|
    ensures exists k: nat, j: nat :: IsPlace(chain, txs, i, k, j)
  {
    var front := txs[..|txs| - 1];
    if i < |Joined(chain, front)| {
      EveryActionHasPlace(chain, front, i);
      var k: nat, j: nat :| IsPlace(chain, front, i, k, j);
      PlaceInLonger(chain, txs, i, k, j);
    } else {
      PlaceInLast(chain, txs, i - |Joined(chain, front)|);
    }
  }

  lemma {:induction false} EveryPlaceIsAction(chain: Chain, txs: seq<nat>, k: nat, j: nat)
    requires AreTxs(chain, txs) && k < |txs| && j < |chain[txs[k]]|
    ensures IsPlace(chain, txs, FedBefore(chain, txs, k) + j, k, j)
  {
    if k < |txs| - 1 {
      EveryPlaceIsAction(chain, txs[..|txs| - 1], k, j);
      assert txs[..|txs| - 1][..k] == txs[..k];
      PlaceInLonger(chain, txs, FedBefore(chain, txs, k) + j, k, j);
    } else {
      PlaceInLast(chain, txs, j);
    }
  }

  /** Transactions fed before these move the count by what they hold. */
  lemma FedBeforeBehind(chain: Chain, a: seq<nat>, b: seq<nat>, k: nat)
    requires AreTxs(chain, a) && AreTxs(chain, b) && k <= |b|
    ensures AreTxs(chain, a + b) && FedBefore(chain, a + b, |a| + k) == |Joined(chain, a)| + FedBefore(chain, b, k)
  {
    assert (a + b)[..|a| + k] == a + b[..k];
    JoinedJoins(chain, a, b[..k]);
  }

  // ---------------------------------------------------------------------------------
  // Positions
  // ---------------------------------------------------------------------------------

  /** The note of action j of the transaction at k, as it is recorded. */
  ghost predicate IsNoteOf(start: nat, chain: Chain, txs: seq<nat>, k: nat, j: nat, n: Tracked)
    requires AreTxs(chain, txs)
  {
    && k < |txs| && j < |chain[txs[k]]| && chain[txs[k]][j].received.Some?
    && n == NewNote(chain[txs[k]][j], start + FedBefore(chain, txs, k) + j, n.height).(spent := n.spent)
  }

  ghost predicate ComesFrom(start: nat, chain: Chain, txs: seq<nat>, n: Tracked)
    requires AreTxs(chain, txs)
  {
    exists k: nat, j: nat :: IsNoteOf(start, chain, txs, k, j, n)
  }

  predicate IsNewNoteOf(actions: seq<Action>, start: nat, height: nat, i: nat, n: Tracked) {
    i < |actions| && actions[i].received.Some? && n == NewNote(actions[i], start + i, height)
  }

  lemma {:induction false} NewNoteIsOfAction(actions: seq<Action>, start: nat, height: nat, i: nat)
    requires i < |NewNotes(actions, start, height)|
    ensures exists j: nat :: IsNewNoteOf(actions, start, height, j, NewNotes(actions, start, height)[i])
  {
    var n := |actions| - 1;
    var front := NewNotes(actions[..n], start, height);
    if i < |front| {
      NewNoteIsOfAction(actions[..n], start, height, i);
      var j: nat :| IsNewNoteOf(actions[..n], start, height, j, front[i]);
      assert NewNotes(actions, start, height)[i] == front[i] && actions[..n][j] == actions[j];
      assert IsNewNoteOf(actions, start, height, j, NewNotes(actions, start, height)[i]);
    } else {
      assert IsNewNoteOf(actions, start, height, n, NewNotes(actions, start, height)[i]);
    }
  }

  lemma NoteOfLonger(start: nat, chain: Chain, a: seq<nat>, b: seq<nat>, k: nat, j: nat, n: Tracked, spent: bool)
    requires AreTxs(chain, a) && AreTxs(chain, a + b) && IsNoteOf(start, chain, a, k, j, n)
    ensures IsNoteOf(start, chain, a + b, k, j, n.(spent := spent))
  {
    assert (a + b)[..k] == a[..k];
  }

  /** The note that the last feed brings for an action. */
  lemma NoteOfLastFeed(start: nat, chain: Chain, a: seq<nat>, b: seq<nat>, i: nat, k: nat, j: nat, height: nat, n: Tracked)
    requires AreTxs(chain, a) && AreTxs(chain, b) && IsPlace(chain, b, i, k, j)
    requires IsNewNoteOf(Joined(chain, b), start + |Joined(chain, a)|, height, i, n)
    ensures AreTxs(chain, a + b) && IsNoteOf(start, chain, a + b, |a| + k, j, n)
  {
    FedBeforeBehind(chain, a, b, k);
    hide Joined;
    assert (a + b)[|a| + k] == b[k];
  }

  lemma OldNoteIsFed(start: nat, chain: Chain, a: seq<nat>, b: seq<nat>, n: Tracked, spent: bool)
    requires AreTxs(chain, a) && AreTxs(chain, a + b) && ComesFrom(start, chain, a, n)
    ensures ComesFrom(start, chain, a + b, n.(spent := spent))
  {
    var k: nat, j: nat :| IsNoteOf(start, chain, a, k, j, n);
    NoteOfLonger(start, chain, a, b, k, j, n, spent);
  }

  lemma NewNoteIsFed(start: nat, chain: Chain, a: seq<nat>, b: seq<nat>, height: nat, i: nat)
    requires AreTxs(chain, a) && AreTxs(chain, b) && AreTxs(chain, a + b)
    requires i < |NewNotes(Joined(chain, b), start + |Joined(chain, a)|, height)|
    ensures ComesFrom(start, chain, a + b, NewNotes(Joined(chain, b), start + |Joined(chain, a)|, height)[i])
  {
    var actions, next := Joined(chain, b), start + |Joined(chain, a)|;
    NewNoteIsOfAction(actions, next, height, i);
    hide NewNotes, Joined;
    var n := NewNotes(actions, next, height)[i];
    var at: nat :| IsNewNoteOf(actions, next, height, at, n);
    EveryActionHasPlace(chain, b, at);
    var k: nat, j: nat :| IsPlace(chain, b, at, k, j);
    NoteOfLastFeed(start, chain, a, b, at, k, j, height, n);
  }

  /** The notes after a feed of b, when a was fed before. */
  predicate AreNotesAfter(
    start: nat, chain: Chain, a: seq<nat>, b: seq<nat>, height: nat, notes: seq<Tracked>, notes': seq<Tracked>)
    requires AreTxs(chain, a) && AreTxs(chain, b)
  {
    notes' == SpendRevealed(notes, Joined(chain, b)) + NewNotes(Joined(chain, b), start + |Joined(chain, a)|, height)
  }

  lemma FlatOneMore(chain: Chain, feeds: seq<Feed>)
    requires AreFeeds(chain, feeds) && feeds != []
    ensures var front, last := feeds[..|feeds| - 1], feeds[|feeds| - 1];
      AreTxs(chain, Flat(front)) && AreTxs(chain, last.txs) && Flat(feeds) == Flat(front) + last.txs
  {
    FlatAreTxs(chain, feeds[..|feeds| - 1]);
  }

  lemma NotesOfStates(
    start: nat, chain: Chain, a: seq<nat>, b: seq<nat>, height: nat, before: State, after: State, fed: seq<Action>)
    requires AreTxs(chain, a) && AreTxs(chain, b) && fed == Joined(chain, b)
    requires before.next == start + |Joined(chain, a)|
    requires after.notes == SpendRevealed(before.notes, fed) + NewNotes(fed, before.next, height)
    ensures AreNotesAfter(start, chain, a, b, height, before.notes, after.notes)
  {}

  lemma NotesAfter(start: nat, chain: Chain, feeds: seq<Feed>)
    requires AreFeeds(chain, feeds) && feeds != []
    ensures var front, last := feeds[..|feeds| - 1], feeds[|feeds| - 1];
      && AreTxs(chain, Flat(front)) && AreTxs(chain, last.txs) && Flat(feeds) == Flat(front) + last.txs
      && AreNotesAfter(start, chain, Flat(front), last.txs, last.height, Fed(start, chain, front).notes, Fed(start, chain, feeds).notes)
  {
    var front, last := feeds[..|feeds| - 1], feeds[|feeds| - 1];
    FlatOneMore(chain, feeds);
    hide Flat, Fed, Joined, Leaves, NewNotes, SpendRevealed, AreNotesAfter;
    FedTree(start, chain, front);
    var before, fed := Fed(start, chain, front), Joined(chain, last.txs);
    FedOneMore(start, chain, feeds, before, fed);
    NotesOfStates(start, chain, Flat(front), last.txs, last.height, before, Fed(start, chain, feeds), fed);
  }

  lemma NoteAfterIsFed(
    start: nat, chain: Chain, a: seq<nat>, b: seq<nat>, height: nat, notes: seq<Tracked>, notes': seq<Tracked>, i: nat)
    requires AreTxs(chain, a) && AreTxs(chain, b) && AreTxs(chain, a + b) && i < |notes'|
    requires AreNotesAfter(start, chain, a, b, height, notes, notes')
    requires i < |notes| ==> ComesFrom(start, chain, a, notes[i])
    ensures ComesFrom(start, chain, a + b, notes'[i])
  {
    SpendRevealedSpends(notes, Joined(chain, b));
    hide ComesFrom, NewNotes, SpendRevealed, Joined;
    if i < |notes| {
      OldNoteIsFed(start, chain, a, b, notes[i], notes'[i].spent);
    } else {
      NewNoteIsFed(start, chain, a, b, height, i - |notes|);
    }
  }

  /** Every tracked note was recorded for one action of one transaction that was fed. */
  lemma {:induction false} EveryNoteIsFed(start: nat, chain: Chain, feeds: seq<Feed>, i: nat)
    requires AreFeeds(chain, feeds) && i < |Fed(start, chain, feeds).notes|
    ensures AreTxs(chain, Flat(feeds)) && ComesFrom(start, chain, Flat(feeds), Fed(start, chain, feeds).notes[i])
  {
    FlatAreTxs(chain, feeds);
    if feeds == [] {
      assert false;
    } else {
      var front, last := feeds[..|feeds| - 1], feeds[|feeds| - 1];
      var notes, notes' := Fed(start, chain, front).notes, Fed(start, chain, feeds).notes;
      NotesAfter(start, chain, feeds);
      hide Fed, Flat, ComesFrom, AreNotesAfter;
      if i < |notes| {
        EveryNoteIsFed(start, chain, front, i);
      }
      NoteAfterIsFed(start, chain, Flat(front), last.txs, last.height, notes, notes', i);
    }
  }

  ghost predicate IsTrackedFrom(start: nat, chain: Chain, txs: seq<nat>, notes: seq<Tracked>, k: nat, j: nat)
    requires AreTxs(chain, txs)
  {
    exists i :: 0 <= i < |notes| && IsNoteOf(start, chain, txs, k, j, notes[i])
  }

  lemma StillTracked(
    start: nat, chain: Chain, a: seq<nat>, b: seq<nat>, notes: seq<Tracked>, notes': seq<Tracked>, k: nat, j: nat)
    requires AreTxs(chain, a) && AreTxs(chain, a + b) && IsTrackedFrom(start, chain, a, notes, k, j)
    requires SpentSince(notes, notes')
    ensures IsTrackedFrom(start, chain, a + b, notes', k, j)
  {
    var i :| 0 <= i < |notes| && IsNoteOf(start, chain, a, k, j, notes[i]);
    NoteOfLonger(start, chain, a, b, k, j, notes[i], notes'[i].spent);
    hide IsNoteOf;
    assert notes'[i] == notes[i].(spent := notes'[i].spent);
    assert IsNoteOf(start, chain, a + b, k, j, notes'[i]);
  }

  lemma NowTracked(
    start: nat, chain: Chain, a: seq<nat>, b: seq<nat>, notes: seq<Tracked>, height: nat, k: nat, j: nat)
    requires AreTxs(chain, a) && AreTxs(chain, b) && AreTxs(chain, a + b)
    requires k < |b| && j < |chain[b[k]]| && chain[b[k]][j].received.Some?
    ensures IsTrackedFrom(start, chain, a + b, notes + NewNotes(Joined(chain, b), start + |Joined(chain, a)|, height), |a| + k, j)
  {
    var actions, next, at := Joined(chain, b), start + |Joined(chain, a)|, FedBefore(chain, b, k) + j;
    EveryPlaceIsAction(chain, b, k, j);
    hide Joined, NewNotes;
    ActionHasNewNote(actions, next, height, at);
    var n := NewNote(actions[at], next + at, height);
    NoteOfLastFeed(start, chain, a, b, at, k, j, height, n);
    NoteInSecond(notes, NewNotes(actions, next, height), n);
    hide IsNoteOf;
  }

  lemma NoteInSecond(a: seq<Tracked>, b: seq<Tracked>, n: Tracked)
    requires n in b
    ensures exists i :: 0 <= i < |a + b| && (a + b)[i] == n
  {
    var i :| 0 <= i < |b| && b[i] == n;
    assert (a + b)[|a| + i] == n;
  }

  lemma ActionAfterIsTracked(
    start: nat, chain: Chain, a: seq<nat>, b: seq<nat>, height: nat, notes: seq<Tracked>, notes': seq<Tracked>, k: nat, j: nat)
    requires AreTxs(chain, a) && AreTxs(chain, b) && AreTxs(chain, a + b) && k < |a + b|
    requires AreNotesAfter(start, chain, a, b, height, notes, notes')
    requires j < |chain[(a + b)[k]]| && chain[(a + b)[k]][j].received.Some?
    requires k < |a| ==> IsTrackedFrom(start, chain, a, notes, k, j)
    ensures IsTrackedFrom(start, chain, a + b, notes', k, j)
  {
    SpendRevealedSpends(notes, Joined(chain, b));
    hide IsTrackedFrom, NewNotes, SpendRevealed, Joined;
    if k < |a| {
      StillTracked(start, chain, a, b, notes, notes', k, j);
    } else {
      NowTracked(start, chain, a, b, SpendRevealed(notes, Joined(chain, b)), height, k - |a|, j);
    }
  }

  /** Every action that pays the wallet has its note for every time that its transaction was fed. */
  lemma {:induction false} EveryFeedIsTracked(start: nat, chain: Chain, feeds: seq<Feed>, k: nat, j: nat)
    requires AreFeeds(chain, feeds) && AreTxs(chain, Flat(feeds)) && k < |Flat(feeds)|
    requires j < |chain[Flat(feeds)[k]]| && chain[Flat(feeds)[k]][j].received.Some?
    ensures IsTrackedFrom(start, chain, Flat(feeds), Fed(start, chain, feeds).notes, k, j)
  {
    var front, last := feeds[..|feeds| - 1], feeds[|feeds| - 1];
    var notes, notes' := Fed(start, chain, front).notes, Fed(start, chain, feeds).notes;
    NotesAfter(start, chain, feeds);
    hide Fed, Flat, IsTrackedFrom, AreNotesAfter;
    if k < |Flat(front)| {
      assert Flat(feeds)[k] == Flat(front)[k];
      EveryFeedIsTracked(start, chain, front, k, j);
    }
    ActionAfterIsTracked(start, chain, Flat(front), last.txs, last.height, notes, notes', k, j);
  }

  /** As many actions were fed before this transaction as the transactions before it in the chain hold. */
  predicate IsFedInPlace(chain: Chain, txs: seq<nat>, k: nat)
    requires AreTxs(chain, txs) && k < |txs|
  {
    FedBefore(chain, txs, k) == Held(chain, txs[k])
  }

  ghost predicate IsAtItsPlaceIff(start: nat, chain: Chain, txs: seq<nat>, k: nat, j: nat, n: Tracked)
    requires AreTxs(chain, txs)
  {
    && IsNoteOf(start, chain, txs, k, j, n)
    && (n.position == ChainPosition(start, chain, txs[k], j) <==> IsFedInPlace(chain, txs, k))
  }

  /**
   When a tracked note is where the chain has it: exactly when as many actions were fed before its
   transaction as the chain has there.
   */
  lemma NoteIsAtItsPlaceIff(start: nat, chain: Chain, feeds: seq<Feed>, i: nat)
    requires AreFeeds(chain, feeds) && i < |Fed(start, chain, feeds).notes|
    ensures AreTxs(chain, Flat(feeds))
    ensures exists k: nat, j: nat :: IsAtItsPlaceIff(start, chain, Flat(feeds), k, j, Fed(start, chain, feeds).notes[i])
  {
    EveryNoteIsFed(start, chain, feeds, i);
    hide Fed, Flat;
    var n := Fed(start, chain, feeds).notes[i];
    var k: nat, j: nat :| IsNoteOf(start, chain, Flat(feeds), k, j, n);
    assert IsAtItsPlaceIff(start, chain, Flat(feeds), k, j, n);
  }

  ghost predicate AllAtTheirPlaces(start: nat, chain: Chain, txs: seq<nat>, notes: seq<Tracked>)
    requires AreTxs(chain, txs)
  {
    forall i, k: nat, j: nat | 0 <= i < |notes| && IsNoteOf(start, chain, txs, k, j, notes[i])
      :: notes[i].position == ChainPosition(start, chain, txs[k], j)
  }

  predicate PaysTheWallet(actions: seq<Action>) {
    exists j :: 0 <= j < |actions| && actions[j].received.Some?
  }

  predicate PayingTxsAreInPlace(chain: Chain, txs: seq<nat>)
    requires AreTxs(chain, txs)
  {
    forall k :: 0 <= k < |txs| && PaysTheWallet(chain[txs[k]]) ==> IsFedInPlace(chain, txs, k)
  }

  /** All notes are where the chain has them exactly when every transaction that pays the wallet was fed in its place. */
  lemma AllAtTheirPlacesIff(start: nat, chain: Chain, feeds: seq<Feed>)
    requires AreFeeds(chain, feeds)
    ensures AreTxs(chain, Flat(feeds))
    ensures AllAtTheirPlaces(start, chain, Flat(feeds), Fed(start, chain, feeds).notes) <==> PayingTxsAreInPlace(chain, Flat(feeds))
  {
    FlatAreTxs(chain, feeds);
    var txs, notes := Flat(feeds), Fed(start, chain, feeds).notes;
    hide Fed, Flat;
    if AllAtTheirPlaces(start, chain, txs, notes) {
      forall k | 0 <= k < |txs| && PaysTheWallet(chain[txs[k]]) ensures IsFedInPlace(chain, txs, k) {
        var j :| 0 <= j < |chain[txs[k]]| && chain[txs[k]][j].received.Some?;
        EveryFeedIsTracked(start, chain, feeds, k, j);
        var i :| 0 <= i < |notes| && IsNoteOf(start, chain, txs, k, j, notes[i]);
        assert notes[i].position == ChainPosition(start, chain, txs[k], j);
      }
    }
  }

  // ---------------------------------------------------------------------------------
  // The tree
  // ---------------------------------------------------------------------------------

  /** No two actions of the chain have the same commitment. */
  ghost predicate DistinctCommitments(chain: Chain) {
    forall b, c, i, j | 0 <= b < |chain| && 0 <= c < |chain| && 0 <= i < |chain[b]| && 0 <= j < |chain[c]|
      :: chain[b][i].commitment == chain[c][j].commitment ==> b == c && i == j
  }

  /** The transactions that hold actions at all. */
  function NonEmpty(chain: Chain, txs: seq<nat>): seq<nat>
    requires AreTxs(chain, txs)
  {
    if txs == [] then []
    else
      var last := txs[|txs| - 1];
      NonEmpty(chain, txs[..|txs| - 1]) + if chain[last] == [] then [] else [last]
  }

  lemma {:induction false} EmptyTxsAddNothing(chain: Chain, txs: seq<nat>)
    requires AreTxs(chain, txs)
    ensures AreTxs(chain, NonEmpty(chain, txs)) && Joined(chain, NonEmpty(chain, txs)) == Joined(chain, txs)
    ensures NoneIsEmpty(chain, NonEmpty(chain, txs))
  {
    if txs != [] {
      var front, last := txs[..|txs| - 1], txs[|txs| - 1];
      EmptyTxsAddNothing(chain, front);
      if chain[last] != [] {
        var kept := NonEmpty(chain, txs);
        assert kept[..|kept| - 1] == NonEmpty(chain, front);
      } else {
        assert NonEmpty(chain, front) + [] == NonEmpty(chain, front);
        assert Joined(chain, front) + [] == Joined(chain, front);
      }
    }
  }

  predicate NoneIsEmpty(chain: Chain, txs: seq<nat>)
    requires AreTxs(chain, txs)
  {
    forall k :: 0 <= k < |txs| ==> chain[txs[k]] != []
  }

  /** Two lists of transactions that are not empty make the same tree only if they are the same. */
  lemma {:induction false} TreeDeterminesTxs(chain: Chain, xs: seq<nat>, ys: seq<nat>)
    requires AreTxs(chain, xs) && AreTxs(chain, ys) && DistinctCommitments(chain)
    requires NoneIsEmpty(chain, xs) && NoneIsEmpty(chain, ys)
    requires Leaves(Joined(chain, xs)) == Leaves(Joined(chain, ys))
    ensures xs == ys
  {
    hide DistinctCommitments, Leaves, Joined;
    if xs == [] || ys == [] {
      NothingJoined(chain, xs, ys);
    } else {
      SameLast(chain, xs, ys);
      SameFront(chain, xs, ys);
      TreeDeterminesTxs(chain, xs[..|xs| - 1], ys[..|ys| - 1]);
      assert xs == xs[..|xs| - 1] + [xs[|xs| - 1]] && ys == ys[..|ys| - 1] + [ys[|ys| - 1]];
    }
  }

  lemma NothingJoined(chain: Chain, xs: seq<nat>, ys: seq<nat>)
    requires AreTxs(chain, xs) && AreTxs(chain, ys) && NoneIsEmpty(chain, xs) && NoneIsEmpty(chain, ys)
    requires Leaves(Joined(chain, xs)) == Leaves(Joined(chain, ys)) && (xs == [] || ys == [])
    ensures xs == ys
  {
    SameLengthLeaves(Joined(chain, xs), Joined(chain, ys));
  }

  lemma SameLast(chain: Chain, xs: seq<nat>, ys: seq<nat>)
    requires AreTxs(chain, xs) && AreTxs(chain, ys) && xs != [] && ys != []
    requires NoneIsEmpty(chain, xs) && NoneIsEmpty(chain, ys) && DistinctCommitments(chain)
    requires Leaves(Joined(chain, xs)) == Leaves(Joined(chain, ys))
    ensures xs[|xs| - 1] == ys[|ys| - 1]
  {
    LastLeafIsOfLastTx(chain, xs);
    LastLeafIsOfLastTx(chain, ys);
    hide Leaves, Joined;
    SameTx(chain, xs[|xs| - 1], ys[|ys| - 1]);
  }

  lemma SameTx(chain: Chain, x: nat, y: nat)
    requires DistinctCommitments(chain) && x < |chain| && y < |chain| && chain[x] != [] && chain[y] != []
    requires chain[x][|chain[x]| - 1].commitment == chain[y][|chain[y]| - 1].commitment
    ensures x == y
  {}

  lemma SameFront(chain: Chain, xs: seq<nat>, ys: seq<nat>)
    requires AreTxs(chain, xs) && AreTxs(chain, ys) && xs != [] && ys != []
    requires xs[|xs| - 1] == ys[|ys| - 1]
    requires Leaves(Joined(chain, xs)) == Leaves(Joined(chain, ys))
    ensures Leaves(Joined(chain, xs[..|xs| - 1])) == Leaves(Joined(chain, ys[..|ys| - 1]))
  {
    var last := chain[xs[|xs| - 1]];
    var a, b := Joined(chain, xs[..|xs| - 1]), Joined(chain, ys[..|ys| - 1]);
    LeavesJoin(a, last);
    LeavesJoin(b, last);
    SplitAt(Leaves(a), Leaves(b), Leaves(last), Leaves(last));
  }

  lemma SameLengthLeaves(a: seq<Action>, b: seq<Action>)
    requires Leaves(a) == Leaves(b)
    ensures |a| == |b|
  {}

  lemma LastLeafIsOfLastTx(chain: Chain, xs: seq<nat>)
    requires AreTxs(chain, xs) && xs != [] && chain[xs[|xs| - 1]] != []
    ensures var all, last := Joined(chain, xs), chain[xs[|xs| - 1]];
      |all| > 0 && Leaves(all)[|all| - 1] == Leaf(last[|last| - 1].commitment, last[|last| - 1].received.Some?)
  {}

  /**
   When the tree is the chain's commitments: exactly when every transaction that holds actions was
   fed once and in order.
   */
  lemma TreeIsChainIff(start: nat, chain: Chain, feeds: seq<Feed>)
    requires AreFeeds(chain, feeds) && DistinctCommitments(chain)
    ensures AreTxs(chain, FirstTxs(|chain|)) && AreTxs(chain, Flat(feeds))
    ensures Fed(start, chain, feeds).tree == Leaves(Joined(chain, FirstTxs(|chain|)))
       <==> NonEmpty(chain, Flat(feeds)) == NonEmpty(chain, FirstTxs(|chain|))
  {
    var all, txs := FirstTxs(|chain|), Flat(feeds);
    FedTree(start, chain, feeds);
    hide Fed, Flat, FirstTxs;
    EmptyTxsAddNothing(chain, txs);
    EmptyTxsAddNothing(chain, all);
    if Leaves(Joined(chain, txs)) == Leaves(Joined(chain, all)) {
      TreeDeterminesTxs(chain, NonEmpty(chain, txs), NonEmpty(chain, all));
    }
  }

  // ---------------------------------------------------------------------------------
  // Two runs that go wrong
  // ---------------------------------------------------------------------------------

  /** Feeding one transaction of one action to a wallet without notes. */
  lemma FedSingle(start: nat, chain: Chain, feeds: seq<Feed>, before: State, f: Feed, a: Action)
    requires AreFeeds(chain, feeds) && feeds != [] && f == feeds[|feeds| - 1]
    requires |f.txs| == 1 && chain[f.txs[0]] == [a]
    requires before == Fed(start, chain, feeds[..|feeds| - 1]) && before.notes == []
    ensures Fed(start, chain, feeds) == State(before.tree + [Leaf(a.commitment, a.received.Some?)], before.next + 1,
        if a.received.Some? then [NewNote(a, before.next, f.height)] else [])
  {
    JoinedOne(chain, f.txs, a);
    FedOneMore(start, chain, feeds, before, [a]);
    hide Fed, Joined;
    assert [a][..0] == [];
    assert SpendRevealed([], [a]) == [];
    assert NewNotes([a], before.next, f.height) == if a.received.Some? then [NewNote(a, before.next, f.height)] else [];
    assert Leaves([a]) == [Leaf(a.commitment, a.received.Some?)];
  }

  lemma JoinedOne(chain: Chain, txs: seq<nat>, a: Action)
    requires AreTxs(chain, txs) && |txs| == 1 && chain[txs[0]] == [a]
    ensures Joined(chain, txs) == [a]
  {
    assert txs[..0] == [];
  }

  /**
   A first transaction that is not fed leaves the note of the second one place low: its block was
   skipped, or the node did not return it when its block was fed.
   */
  lemma SkippedTransactionMisplaces(start: nat, height: nat, other: Action, pay: Action)
    requires pay.received.Some?
    ensures var chain, feeds := [[other], [pay]], [Feed(height, [1])];
      var s := Fed(start, chain, feeds);
      && s.notes == [NewNote(pay, start, height)] && ChainPosition(start, chain, 1, 0) == start + 1
      && s.tree == [Leaf(pay.commitment, true)]
  {
    var chain, feeds := [[other], [pay]], [Feed(height, [1])];
    HeldBeforeSecond(start, chain);
    assert feeds[..0] == [];
    FedSingle(start, chain, feeds, State([], start, []), Feed(height, [1]), pay);
  }

  /** A block of one transaction. */
  predicate IsOnly(f: Feed, x: nat) {
    |f.txs| == 1 && f.txs[0] == x
  }

  /** The first transaction fed twice in a block of its own. */
  lemma FedTwice(start: nat, chain: Chain, feeds: seq<Feed>, other: Action)
    requires |chain| > 0 && chain[0] == [other] && other.received.None?
    requires |feeds| == 2 && IsOnly(feeds[0], 0) && IsOnly(feeds[1], 0)
    ensures var s := Fed(start, chain, feeds);
      s.next == start + 2 && |s.tree| == 2 && s.notes == []
  {
    var one := feeds[..1];
    assert one[..0] == [];
    assert Fed(start, chain, []) == State([], start, []);
    hide Joined, Fed;
    FedSingle(start, chain, one, State([], start, []), feeds[0], other);
    FedSingle(start, chain, feeds, Fed(start, chain, one), feeds[1], other);
  }

  lemma FedThird(start: nat, chain: Chain, feeds: seq<Feed>, before: State, pay: Action)
    requires |chain| == 2 && chain[1] == [pay] && pay.received.Some?
    requires |feeds| == 3 && AreFeeds(chain, feeds) && IsOnly(feeds[2], 1)
    requires before == Fed(start, chain, feeds[..2]) && before.notes == []
    ensures var s := Fed(start, chain, feeds);
      s.notes == [NewNote(pay, before.next, feeds[2].height)] && |s.tree| == |before.tree| + 1
  {
    hide Fed, Flat, NewNote;
    FedSingle(start, chain, feeds, before, feeds[2], pay);
  }

  /** A first block that is fed twice moves the note of the second too far, and stands in the tree twice. */
  lemma RepeatedBlockMisplaces(start: nat, chain: Chain, feeds: seq<Feed>, other: Action, pay: Action)
    requires |chain| == 2 && chain[0] == [other] && chain[1] == [pay]
    requires pay.received.Some? && other.received.None?
    requires |feeds| == 3 && IsOnly(feeds[0], 0) && IsOnly(feeds[1], 0) && IsOnly(feeds[2], 1)
    ensures var s := Fed(start, chain, feeds);
      && s.notes == [NewNote(pay, start + 2, feeds[2].height)] && ChainPosition(start, chain, 1, 0) == start + 1
      && |s.tree| == 3
  {
    HeldBeforeSecond(start, chain);
    var two := feeds[..2];
    assert AreFeeds(chain, feeds) && AreFeeds(chain, two);
    assert two[0] == feeds[0] && two[1] == feeds[1];
    hide *;
    FedTwice(start, chain, two, other);
    FedThird(start, chain, feeds, Fed(start, chain, two), pay);
  }

  lemma HeldBeforeSecond(start: nat, chain: Chain)
    requires |chain| == 2 && |chain[0]| == 1
    ensures Held(chain, 1) == 1 && ChainPosition(start, chain, 1, 0) == start + 1
  {
    var first := FirstTxs(1);
    assert first == [0] && first[..0] == [];
    assert Joined(chain, first) == [] + chain[0];
  }
}
