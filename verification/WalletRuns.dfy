/**
 The wallet over whole runs: every block fed once and in order, spending in between.
 */
module WalletRuns {
  import opened Bytes
  import opened Results
  import opened Wallet

  datatype Operation =
    | Block(height: nat, txs: seq<Transaction>)
    | MarkSpent(position: nat)
    | EnsureSpent(position: nat)

  function Next(s: State, op: Operation): State {
    match op
    case Block(height, txs) => Processed(s, height, txs)
    case MarkSpent(position) => s.(notes := SpendAt(s.notes, First(s.notes, IsUnspentAt(position))))
    case EnsureSpent(position) => s.(notes := SpendAt(s.notes, First(s.notes, IsAt(position))))
  }

  function Run(start: nat, ops: seq<Operation>): State {
    if ops == [] then State([], start, []) else Next(Run(start, ops[..|ops| - 1]), ops[|ops| - 1])
  }

  /** The actions of all blocks so far. */
  function Chain(ops: seq<Operation>): seq<Action> {
    if ops == [] then []
    else
      var last := ops[|ops| - 1];
      Chain(ops[..|ops| - 1]) + if last.Block? then Actions(last.txs) else []
  }

  // ---------------------------------------------------------------------------------
  // Positions
  // ---------------------------------------------------------------------------------

  /** The tree holds the note's own commitment, marked, at the note's position. */
  ghost predicate Placed(start: nat, tree: seq<Leaf>, n: Tracked) {
    start <= n.position < start + |tree| && tree[n.position - start] == Leaf(n.commitment, true)
  }

  ghost predicate Ascending(notes: seq<Tracked>) {
    forall i, j :: 0 <= i < j < |notes| ==> notes[i].position < notes[j].position
  }

  ghost predicate StateInv(start: nat, s: State) {
    && s.next == start + |s.tree|
    && (forall i :: 0 <= i < |s.notes| ==> Placed(start, s.tree, s.notes[i]))
    && Ascending(s.notes)
  }

  /** The new notes of a block lie in the block, in order, at their own commitments. */
  ghost predicate ArePlaced(tree: seq<Leaf>, actions: seq<Action>, start: nat, at: nat, height: nat) {
    var notes := NewNotes(actions, at, height);
    && Ascending(notes)
    && forall i :: 0 <= i < |notes| ==>
      at <= notes[i].position < at + |actions| && Placed(start, tree + Leaves(actions), notes[i])
  }

  lemma {:induction false} NewNotesArePlaced(tree: seq<Leaf>, actions: seq<Action>, start: nat, at: nat, height: nat)
    requires at == start + |tree|
    ensures ArePlaced(tree, actions, start, at, height)
  {
    if actions != [] {
      var n := |actions| - 1;
      NewNotesArePlaced(tree, actions[..n], start, at, height);
      NextNoteIsPlaced(tree, actions, start, at, height);
    }
  }

  lemma NextNoteIsPlaced(tree: seq<Leaf>, actions: seq<Action>, start: nat, at: nat, height: nat)
    requires at == start + |tree| && actions != []
    requires ArePlaced(tree, actions[..|actions| - 1], start, at, height)
    ensures ArePlaced(tree, actions, start, at, height)
  {
    var n := |actions| - 1;
    var front, notes := NewNotes(actions[..n], at, height), NewNotes(actions, at, height);
    var before, after := tree + Leaves(actions[..n]), tree + Leaves(actions);
    assert after == before + [Leaf(actions[n].commitment, actions[n].received.Some?)];
    var last := if actions[n].received.Some? then [NewNote(actions[n], at + n, height)] else [];
    assert notes == front + last;
    hide Leaves, NewNotes;
    forall i | 0 <= i < |notes| ensures at <= notes[i].position < at + n + 1 && Placed(start, after, notes[i]) {
      if i < |front| {
        assert Placed(start, before, front[i]);
      }
    }
  }

  /** The same notes, some of them spent since. */
  ghost predicate SpentSince(notes: seq<Tracked>, notes': seq<Tracked>) {
    && |notes'| >= |notes|
    && forall i :: 0 <= i < |notes| ==> notes'[i] == notes[i].(spent := notes'[i].spent) && (notes[i].spent ==> notes'[i].spent)
  }

  lemma SpendAtSpends(notes: seq<Tracked>, i: Option<nat>)
    requires i.Some? ==> i.value < |notes|
    ensures SpentSince(notes, SpendAt(notes, i))
  {}

  lemma {:induction false} SpendRevealedSpends(notes: seq<Tracked>, actions: seq<Action>)
    ensures SpentSince(notes, SpendRevealed(notes, actions))
  {
    if actions != [] {
      SpendRevealedSpends(notes, actions[..|actions| - 1]);
    }
  }

  lemma SpendingKeepsInv(start: nat, s: State, notes: seq<Tracked>)
    requires StateInv(start, s) && SpentSince(s.notes, notes) && |notes| == |s.notes|
    ensures StateInv(start, s.(notes := notes))
  {
    forall i | 0 <= i < |notes| ensures Placed(start, s.tree, notes[i]) {
      assert Placed(start, s.tree, s.notes[i]);
    }
  }

  lemma ProcessedKeepsInv(start: nat, s: State, height: nat, txs: seq<Transaction>)
    requires StateInv(start, s)
    ensures StateInv(start, Processed(s, height, txs))
  {
    var actions := Actions(txs);
    SpendRevealedSpends(s.notes, actions);
    var spent := SpendRevealed(s.notes, actions);
    SpendingKeepsInv(start, s, spent);
    NewNotesArePlaced(s.tree, actions, start, s.next, height);
    AppendedKeepsInv(start, s.(notes := spent), Leaves(actions), NewNotes(actions, s.next, height));
  }

  lemma AppendedKeepsInv(start: nat, s: State, leaves: seq<Leaf>, notes: seq<Tracked>)
    requires StateInv(start, s) && Ascending(notes)
    requires forall i :: 0 <= i < |notes| ==> notes[i].position >= s.next && Placed(start, s.tree + leaves, notes[i])
    ensures StateInv(start, State(s.tree + leaves, s.next + |leaves|, s.notes + notes))
  {
    var all := s.notes + notes;
    forall i | 0 <= i < |all| ensures Placed(start, s.tree + leaves, all[i]) {
      assert i < |s.notes| ==> Placed(start, s.tree, s.notes[i]);
    }
    forall i, j | 0 <= i < j < |all| ensures all[i].position < all[j].position {
      assert i < |s.notes| ==> Placed(start, s.tree, s.notes[i]);
    }
  }

  /**
   In every reachable wallet each note stands at the position of its own commitment, positions
   are distinct and below the next one, and the tree is the chain's commitments in order.
   */
  lemma {:induction false} RunInv(start: nat, ops: seq<Operation>)
    ensures var s := Run(start, ops); StateInv(start, s) && s.tree == Leaves(Chain(ops))
  {
    if ops != [] {
      var front, op := ops[..|ops| - 1], ops[|ops| - 1];
      RunInv(start, front);
      var s := Run(start, front);
      match op {
        case Block(height, txs) =>
          ProcessedKeepsInv(start, s, height, txs);
          assert Leaves(Chain(front)) + Leaves(Actions(txs)) == Leaves(Chain(front) + Actions(txs));
        case MarkSpent(position) =>
          SpendAtSpends(s.notes, First(s.notes, IsUnspentAt(position)));
          SpendingKeepsInv(start, s, Run(start, ops).notes);
        case EnsureSpent(position) =>
          SpendAtSpends(s.notes, First(s.notes, IsAt(position)));
          SpendingKeepsInv(start, s, Run(start, ops).notes);
      }
    }
  }

  lemma {:induction false} ActionHasNewNote(actions: seq<Action>, start: nat, height: nat, j: nat)
    requires j < |actions| && actions[j].received.Some?
    ensures NewNote(actions[j], start + j, height) in NewNotes(actions, start, height)
  {
    var n := |actions| - 1;
    if j < n {
      ActionHasNewNote(actions[..n], start, height, j);
      assert actions[..n][j] == actions[j];
    }
  }

  predicate HasNoteAt(notes: seq<Tracked>, position: nat) {
    exists i :: 0 <= i < |notes| && notes[i].position == position
  }

  lemma ProcessedTracksMarks(s: State, height: nat, txs: seq<Transaction>, k: nat)
    requires k < |Processed(s, height, txs).tree| && Processed(s, height, txs).tree[k].marked
    requires s.next >= |s.tree|
    requires k < |s.tree| ==> HasNoteAt(s.notes, s.next - |s.tree| + k)
    ensures HasNoteAt(Processed(s, height, txs).notes, s.next - |s.tree| + k)
  {
    var actions := Actions(txs);
    var spent, added := SpendRevealed(s.notes, actions), NewNotes(actions, s.next, height);
    var position := s.next - |s.tree| + k;
    var all: seq<Tracked> := spent + added;
    SpendRevealedSpends(s.notes, actions);
    hide SpendRevealed, NewNotes;
    if k < |s.tree| {
      var i :| 0 <= i < |s.notes| && s.notes[i].position == position;
      assert all[i].position == position;
    } else {
      ActionHasNewNote(actions, s.next, height, k - |s.tree|);
      var i :| 0 <= i < |added| && added[i] == NewNote(actions[k - |s.tree|], s.next + (k - |s.tree|), height);
      assert all[|spent| + i] == added[i];
    }
  }

  lemma {:induction false} EveryMarkIsTracked(start: nat, ops: seq<Operation>, k: nat)
    requires k < |Run(start, ops).tree| && Run(start, ops).tree[k].marked
    ensures HasNoteAt(Run(start, ops).notes, start + k)
  {
    if ops != [] {
      var front, op := ops[..|ops| - 1], ops[|ops| - 1];
      var s := Run(start, front);
      RunInv(start, front);
      if k < |s.tree| {
        assert s.tree[k] == Run(start, ops).tree[k];
        EveryMarkIsTracked(start, front, k);
      }
      if op.Block? {
        ProcessedTracksMarks(s, op.height, op.txs, k);
      } else {
        NextKeepsNotes(s, op);
        var i :| 0 <= i < |s.notes| && s.notes[i].position == start + k;
        assert Run(start, ops).notes[i].position == start + k;
      }
    }
  }

  /** The wallet tracks a note at a position exactly when a leaf of the fed blocks stands there that is marked as its own. */
  lemma TrackedIffMarked(start: nat, ops: seq<Operation>, position: nat)
    ensures var s := Run(start, ops);
      HasNoteAt(s.notes, position)
      <==> start <= position < start + |s.tree| && s.tree[position - start].marked
  {
    var s := Run(start, ops);
    RunInv(start, ops);
    hide Run;
    if HasNoteAt(s.notes, position) {
      var i :| 0 <= i < |s.notes| && s.notes[i].position == position;
      assert Placed(start, s.tree, s.notes[i]);
    }
    if start <= position < start + |s.tree| && s.tree[position - start].marked {
      EveryMarkIsTracked(start, ops, position - start);
    }
  }

  // ---------------------------------------------------------------------------------
  // When a note is spent
  // ---------------------------------------------------------------------------------

  ghost predicate DistinctNullifiers(notes: seq<Tracked>) {
    forall i, j :: 0 <= i < j < |notes| ==> notes[i].nullifier != notes[j].nullifier
  }

  predicate Reveals(actions: seq<Action>, nullifier: Digest) {
    exists a :: a in actions && a.nullifier == nullifier
  }

  /** Does this operation spend the note? */
  predicate Spends(op: Operation, n: Tracked) {
    match op
    case Block(_, txs) => Reveals(Actions(txs), n.nullifier)
    case MarkSpent(position) => n.position == position
    case EnsureSpent(position) => n.position == position
  }

  /** A note after an operation that spends it or not. */
  ghost predicate SpentIf(notes: seq<Tracked>, notes': seq<Tracked>, i: nat, spending: bool)
    requires i < |notes| && i < |notes'|
  {
    notes'[i].spent <==> notes[i].spent || spending
  }

  lemma SpendFirstIs(notes: seq<Tracked>, nullifier: Digest, i: nat)
    requires DistinctNullifiers(notes) && i < |notes|
    ensures SpentIf(notes, SpendAt(notes, First(notes, IsUnspentOf(nullifier))), i, notes[i].nullifier == nullifier)
  {
    var k := First(notes, IsUnspentOf(nullifier));
    assert k.None? ==> !IsUnspentOf(nullifier)(notes[i]);
  }

  lemma {:induction false} SpendRevealedIs(notes: seq<Tracked>, actions: seq<Action>, i: nat)
    requires DistinctNullifiers(notes) && i < |notes|
    ensures SpentIf(notes, SpendRevealed(notes, actions), i, Reveals(actions, notes[i].nullifier))
  {
    if actions != [] {
      var front, last := actions[..|actions| - 1], actions[|actions| - 1];
      SpendRevealedIs(notes, front, i);
      SpendRevealedSpends(notes, front);
      SpendFirstIs(SpendRevealed(notes, front), last.nullifier, i);
      assert actions == front + [last];
      assert forall a :: a in actions <==> a in front || a == last;
    }
  }

  lemma NextKeepsNotes(s: State, op: Operation)
    ensures SpentSince(s.notes, Next(s, op).notes)
  {
    match op {
      case Block(_, txs) => SpendRevealedSpends(s.notes, Actions(txs));
      case _ =>
    }
  }

  lemma NextSpends(start: nat, s: State, op: Operation, i: nat)
    requires StateInv(start, s) && DistinctNullifiers(s.notes) && i < |s.notes|
    ensures i < |Next(s, op).notes| && SpentIf(s.notes, Next(s, op).notes, i, Spends(op, s.notes[i]))
  {
    match op {
      case Block(_, txs) => SpendRevealedIs(s.notes, Actions(txs), i);
      case MarkSpent(position) =>
        var k := First(s.notes, IsUnspentAt(position));
        assert k.None? ==> !IsUnspentAt(position)(s.notes[i]);
      case EnsureSpent(position) =>
        var k := First(s.notes, IsAt(position));
        assert k.None? ==> !IsAt(position)(s.notes[i]);
    }
  }

  lemma SpentSinceTransitive(a: seq<Tracked>, b: seq<Tracked>, c: seq<Tracked>)
    requires SpentSince(a, b) && SpentSince(b, c)
    ensures SpentSince(a, c)
  {
    forall i | 0 <= i < |a|
      ensures c[i] == a[i].(spent := c[i].spent) && (a[i].spent ==> c[i].spent)
    {
      assert b[i] == a[i].(spent := b[i].spent) && c[i] == b[i].(spent := c[i].spent);
    }
  }

  /** No note is ever lost, altered, or unspent again. */
  lemma {:induction false} RunKeepsNotes(start: nat, ops: seq<Operation>, m: nat)
    requires m <= |ops|
    ensures SpentSince(Run(start, ops[..m]).notes, Run(start, ops).notes)
  {
    if m == |ops| {
      assert ops[..m] == ops;
    } else {
      var front := ops[..|ops| - 1];
      assert front[..m] == ops[..m];
      RunKeepsNotes(start, front, m);
      NextKeepsNotes(Run(start, front), ops[|ops| - 1]);
      SpentSinceTransitive(Run(start, ops[..m]).notes, Run(start, front).notes, Run(start, ops).notes);
    }
  }

  lemma FewerNotesAreDistinct(notes: seq<Tracked>, notes': seq<Tracked>)
    requires SpentSince(notes, notes') && DistinctNullifiers(notes')
    ensures DistinctNullifiers(notes)
  {
    forall i, j | 0 <= i < j < |notes| ensures notes[i].nullifier != notes[j].nullifier {
      assert notes'[i].nullifier == notes[i].nullifier && notes'[j].nullifier == notes[j].nullifier;
    }
  }

  /** Some operation from this point on spends the note. */
  ghost predicate SpentFrom(ops: seq<Operation>, m: nat, n: Tracked) {
    exists k :: m <= k < |ops| && Spends(ops[k], n)
  }

  lemma SpentFromExtended(ops: seq<Operation>, m: nat, n: Tracked)
    requires m < |ops|
    ensures SpentFrom(ops, m, n) <==> SpentFrom(ops[..|ops| - 1], m, n) || Spends(ops[|ops| - 1], n)
  {
    var last := |ops| - 1;
    if SpentFrom(ops, m, n) {
      var k :| m <= k < |ops| && Spends(ops[k], n);
      assert k < last ==> ops[..last][k] == ops[k];
    }
    if SpentFrom(ops[..last], m, n) {
      var k :| m <= k < last && Spends(ops[..last][k], n);
      assert Spends(ops[k], n);
    }
  }

  lemma SpendsTheSameNote(op: Operation, n: Tracked, spent: bool)
    ensures Spends(op, n.(spent := spent)) <==> Spends(op, n)
  {}

  lemma SpentFromTheSameNote(ops: seq<Operation>, m: nat, n: Tracked, spent: bool)
    ensures SpentFrom(ops, m, n.(spent := spent)) <==> SpentFrom(ops, m, n)
  {
    assert forall k :: m <= k < |ops| ==> (Spends(ops[k], n.(spent := spent)) <==> Spends(ops[k], n));
  }

  /** One operation more. */
  lemma SpentOneMore(start: nat, s: State, ops: seq<Operation>, m: nat, i: nat, n: Tracked)
    requires m < |ops| && StateInv(start, s) && DistinctNullifiers(s.notes) && i < |s.notes|
    requires s.notes[i] == n.(spent := s.notes[i].spent)
    requires s.notes[i].spent <==> n.spent || SpentFrom(ops[..|ops| - 1], m, n)
    ensures i < |Next(s, ops[|ops| - 1]).notes|
    ensures Next(s, ops[|ops| - 1]).notes[i].spent <==> n.spent || SpentFrom(ops, m, n)
  {
    var op := ops[|ops| - 1];
    NextSpends(start, s, op, i);
    SpendsTheSameNote(op, n, s.notes[i].spent);
    hide Next, Spends, StateInv, DistinctNullifiers;
    SpentFromExtended(ops, m, n);
  }

  /** A note known at some point is spent later exactly when it was, or an operation since spends it. */
  lemma {:induction false} SpentIffSpentSince(start: nat, ops: seq<Operation>, m: nat, i: nat)
    requires m <= |ops| && i < |Run(start, ops[..m]).notes| && DistinctNullifiers(Run(start, ops).notes)
    ensures i < |Run(start, ops).notes|
    ensures var n := Run(start, ops[..m]).notes[i];
      Run(start, ops).notes[i].spent <==> n.spent || SpentFrom(ops, m, n)
  {
    if m == |ops| {
      assert ops[..m] == ops;
    } else {
      var last := |ops| - 1;
      var front := ops[..last];
      assert front[..m] == ops[..m];
      var s := Run(start, front);
      assert Run(start, ops) == Next(s, ops[last]);
      NextKeepsNotes(s, ops[last]);
      FewerNotesAreDistinct(s.notes, Run(start, ops).notes);
      hide Run, Next, StateInv, Spends, SpentFrom, DistinctNullifiers;
      SpentIffSpentSince(start, front, m, i);
      RunKeepsNotes(start, front, m);
      RunInv(start, front);
      SpentOneMore(start, s, ops, m, i, Run(start, ops[..m]).notes[i]);
    }
  }

  lemma {:induction false} NewNotesAreUnspent(actions: seq<Action>, start: nat, height: nat)
    ensures forall i :: 0 <= i < |NewNotes(actions, start, height)| ==> !NewNotes(actions, start, height)[i].spent
  {
    if actions != [] {
      NewNotesAreUnspent(actions[..|actions| - 1], start, height);
    }
  }

  /**
   When the wallet takes a note for spent: exactly when an operation after the block that
   brought the note spends it.  A note received and spent in the same block stays unspent.
   */
  lemma SpentIffSpentAfterItsBlock(start: nat, ops: seq<Operation>, m: nat, i: nat)
    requires m < |ops| && DistinctNullifiers(Run(start, ops).notes)
    requires |Run(start, ops[..m]).notes| <= i < |Run(start, ops[..m + 1]).notes|
    ensures i < |Run(start, ops).notes|
    ensures var n := Run(start, ops).notes[i];
      n.spent <==> SpentFrom(ops, m + 1, n)
  {
    var s, s' := Run(start, ops[..m]), Run(start, ops[..m + 1]);
    assert ops[..m + 1][..m] == ops[..m];
    assert s' == Next(s, ops[m]);
    if ops[m].Block? {
      NewNotesAreUnspent(Actions(ops[m].txs), s.next, ops[m].height);
    }
    assert !s'.notes[i].spent;
    SpentIffSpentSince(start, ops, m + 1, i);
    RunKeepsNotes(start, ops, m + 1);
    SpentFromTheSameNote(ops, m + 1, s'.notes[i], Run(start, ops).notes[i].spent);
  }

  /** A block that pays this wallet a note and spends it, which no valid chain holds. */
  predicate SpendsOwnNote(op: Operation) {
    op.Block? && exists a :: a in Actions(op.txs) && a.received.Some? && Reveals(Actions(op.txs), a.received.value.nullifier)
  }

  lemma {:induction false} NewNotesAreReceived(actions: seq<Action>, start: nat, height: nat, i: nat)
    requires i < |NewNotes(actions, start, height)|
    ensures exists a :: a in actions && a.received.Some? && a.received.value.nullifier == NewNotes(actions, start, height)[i].nullifier
  {
    var n := |actions| - 1;
    var front := NewNotes(actions[..n], start, height);
    if i < |front| {
      NewNotesAreReceived(actions[..n], start, height, i);
      var a :| a in actions[..n] && a.received.Some? && a.received.value.nullifier == front[i].nullifier;
      assert a in actions;
    } else {
      assert actions[n] in actions;
    }
  }

  /**
   On a chain whose spends refer to notes of earlier blocks, as the consensus rules ask, a note is
   spent exactly when its own block or an operation after it spends it.
   */
  lemma SpentIffSpentFromItsBlock(start: nat, ops: seq<Operation>, m: nat, i: nat)
    requires m < |ops| && DistinctNullifiers(Run(start, ops).notes) && !SpendsOwnNote(ops[m])
    requires |Run(start, ops[..m]).notes| <= i < |Run(start, ops[..m + 1]).notes|
    ensures i < |Run(start, ops).notes|
    ensures var n := Run(start, ops).notes[i];
      n.spent <==> SpentFrom(ops, m, n)
  {
    SpentIffSpentAfterItsBlock(start, ops, m, i);
    RunKeepsNotes(start, ops, m + 1);
    var s, n := Run(start, ops[..m]), Run(start, ops).notes[i];
    assert ops[..m + 1][..m] == ops[..m];
    assert Run(start, ops[..m + 1]) == Next(s, ops[m]);
    OwnBlockSpendsNothingNew(s, ops[m], i);
    SpendsTheSameNote(ops[m], Next(s, ops[m]).notes[i], n.spent);
    assert !Spends(ops[m], n);
  }

  lemma OwnBlockSpendsNothingNew(s: State, op: Operation, i: nat)
    requires |s.notes| <= i < |Next(s, op).notes| && !SpendsOwnNote(op)
    ensures !Spends(op, Next(s, op).notes[i])
  {
    NewNotesAreReceived(Actions(op.txs), s.next, op.height, i - |s.notes|);
  }

  // ---------------------------------------------------------------------------------
  // Balance
  // ---------------------------------------------------------------------------------

  function ReceivedValue(actions: seq<Action>): nat {
    if actions == [] then 0
    else
      var last := actions[|actions| - 1];
      ReceivedValue(actions[..|actions| - 1]) + if last.received.Some? then last.received.value.value else 0
  }

  /** The value of the unspent notes whose nullifiers these actions reveal. */
  function RevealedValue(notes: seq<Tracked>, actions: seq<Action>): nat {
    if notes == [] then 0
    else
      var last := notes[|notes| - 1];
      RevealedValue(notes[..|notes| - 1], actions)
      + if !last.spent && Reveals(actions, last.nullifier) then last.value else 0
  }

  lemma {:induction false} BalanceJoins(a: seq<Tracked>, b: seq<Tracked>)
    ensures Balance(a + b) == Balance(a) + Balance(b)
  {
    if b == [] {
      assert a + b == a;
    } else {
      BalanceJoins(a, b[..|b| - 1]);
      assert (a + b)[..|a + b| - 1] == a + b[..|b| - 1];
    }
  }

  lemma {:induction false} NewNotesBalance(actions: seq<Action>, start: nat, height: nat)
    ensures Balance(NewNotes(actions, start, height)) == ReceivedValue(actions)
  {
    if actions != [] {
      var n := |actions| - 1;
      var front := NewNotes(actions[..n], start, height);
      NewNotesBalance(actions[..n], start, height);
      if actions[n].received.Some? {
        var one := [NewNote(actions[n], start + n, height)];
        BalanceJoins(front, one);
        assert one[..0] == [];
      } else {
        assert front + [] == front;
      }
    }
  }

  /** The same notes, with exactly those of the revealed nullifiers spent. */
  ghost predicate SpentAsRevealed(notes: seq<Tracked>, notes': seq<Tracked>, actions: seq<Action>) {
    && |notes'| == |notes|
    && forall i :: 0 <= i < |notes| ==>
      notes'[i] == notes[i].(spent := notes[i].spent || Reveals(actions, notes[i].nullifier))
  }

  lemma {:induction false} RevealedBalance(notes: seq<Tracked>, notes': seq<Tracked>, actions: seq<Action>)
    requires SpentAsRevealed(notes, notes', actions)
    ensures Balance(notes') + RevealedValue(notes, actions) == Balance(notes)
  {
    if notes != [] {
      RevealedBalance(notes[..|notes| - 1], notes'[..|notes| - 1], actions);
    }
  }

  /** A block changes the balance by what it pays to the wallet less what it spends of it. */
  lemma BlockBalance(s: State, height: nat, txs: seq<Transaction>)
    requires DistinctNullifiers(s.notes)
    ensures var actions := Actions(txs);
      Balance(Processed(s, height, txs).notes) + RevealedValue(s.notes, actions)
      == Balance(s.notes) + ReceivedValue(actions)
  {
    var actions := Actions(txs);
    var spent := SpendRevealed(s.notes, actions);
    SpendRevealedSpends(s.notes, actions);
    forall i | 0 <= i < |spent|
      ensures spent[i] == s.notes[i].(spent := s.notes[i].spent || Reveals(actions, s.notes[i].nullifier))
    {
      SpendRevealedIs(s.notes, actions, i);
    }
    RevealedBalance(s.notes, spent, actions);
    BalanceJoins(spent, NewNotes(actions, s.next, height));
    NewNotesBalance(actions, s.next, height);
  }

  // ---------------------------------------------------------------------------------
  // Built transactions
  // ---------------------------------------------------------------------------------

  /**
   A transaction is built exactly when some unspent note covers the amount and the fee, up to
   the limit of money; it spends one such note, and pays all of it out.
   */
  lemma PlanIs(notes: seq<Tracked>, amount: nat)
    requires forall i :: 0 <= i < |notes| ==> notes[i].value <= 2_100_000_000_000_000
    ensures PlanFor(notes, amount).Some? <==> exists i :: 0 <= i < |notes| && !notes[i].spent && notes[i].value >= amount + 10_000
    ensures PlanFor(notes, amount).Some? ==>
      var p := PlanFor(notes, amount).value;
      && p.value == p.amount + p.change + 10_000 && p.amount == amount
      && exists i :: 0 <= i < |notes| && !notes[i].spent && notes[i].position == p.position && notes[i].value == p.value
  {
    var k := First(notes, IsEnough(amount + FEE));
    if i :| 0 <= i < |notes| && !notes[i].spent && notes[i].value >= amount + FEE {
      assert IsEnough(amount + FEE)(notes[i]);
      assert k.Some?;
    }
  }

  /**
   A note once spent is never spent again: no later transaction is built over its position, nor,
   if no nullifier is tracked twice, over another copy of it.
   */
  lemma SpentNoteIsNotReused(start: nat, ops: seq<Operation>, m: nat, i: nat, amount: nat)
    requires m <= |ops| && i < |Run(start, ops[..m]).notes| && Run(start, ops[..m]).notes[i].spent
    requires PlanFor(Run(start, ops).notes, amount).Some?
    ensures var notes, n := Run(start, ops).notes, Run(start, ops[..m]).notes[i];
      var position := PlanFor(notes, amount).value.position;
      && position != n.position
      && (DistinctNullifiers(notes) ==>
        forall k :: 0 <= k < |notes| && notes[k].position == position ==> notes[k].nullifier != n.nullifier)
  {
    RunKeepsNotes(start, ops, m);
    RunInv(start, ops);
    var notes := Run(start, ops).notes;
    var k := First(notes, IsEnough(amount + FEE)).value;
    assert k != i;
    hide Run;
  }
}
