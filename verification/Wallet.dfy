/**
 src/wallet.rs: the commitment tree positions, the tracked notes and the values of built
 transactions.  The tree is a sequence of leaves; decryption is part of the actions.
 */
module Wallet {
  import opened Bytes
  import opened Results

  const FEE := 10_000
  const MAX_MONEY := 2_100_000_000_000_000

  /** The note that an action pays to this wallet, with the nullifier that will spend it. */
  datatype Received = Received(value: nat, nullifier: Digest)

  datatype Action = Action(nullifier: Digest, commitment: Digest, received: Option<Received>)

  /** The actions of a transaction; None if it cannot be read or has no Orchard bundle. */
  type Transaction = Option<seq<Action>>

  datatype Leaf = Leaf(commitment: Digest, marked: bool)

  datatype Tracked = Tracked(
    commitment: Digest, value: nat, nullifier: Digest, position: nat, height: nat, spent: bool)

  /** `next` is the position after the last leaf. */
  datatype State = State(tree: seq<Leaf>, next: nat, notes: seq<Tracked>)

  // ---------------------------------------------------------------------------------
  // One block
  // ---------------------------------------------------------------------------------

  function BundleOf(tx: Transaction): seq<Action> {
    if tx.Some? then tx.value else []
  }

  /** All actions of a block in order. */
  function Actions(txs: seq<Transaction>): seq<Action> {
    if txs == [] then [] else Actions(txs[..|txs| - 1]) + BundleOf(txs[|txs| - 1])
  }

  function Leaves(actions: seq<Action>): (leaves: seq<Leaf>)
    ensures |leaves| == |actions|
    ensures forall i :: 0 <= i < |actions| ==> leaves[i] == Leaf(actions[i].commitment, actions[i].received.Some?)
  {
    if actions == [] then []
    else
      var last := actions[|actions| - 1];
      Leaves(actions[..|actions| - 1]) + [Leaf(last.commitment, last.received.Some?)]
  }

  function NewNote(a: Action, position: nat, height: nat): Tracked
    requires a.received.Some?
  {
    Tracked(a.commitment, a.received.value.value, a.received.value.nullifier, position, height, false)
  }

  /** The notes received in a block whose first leaf has this position. */
  function NewNotes(actions: seq<Action>, start: nat, height: nat): seq<Tracked> {
    if actions == [] then []
    else
      var n := |actions| - 1;
      NewNotes(actions[..n], start, height)
      + if actions[n].received.Some? then [NewNote(actions[n], start + n, height)] else []
  }

  /** `find`: the first note that satisfies the condition. */
  function First(notes: seq<Tracked>, p: Tracked -> bool): (i: Option<nat>)
    ensures i.Some? ==> i.value < |notes| && p(notes[i.value]) && forall j :: 0 <= j < i.value ==> !p(notes[j])
    ensures i.None? ==> forall j :: 0 <= j < |notes| ==> !p(notes[j])
  {
    if notes == [] then None
    else
      var n := |notes| - 1;
      var front := First(notes[..n], p);
      if front.Some? then front else if p(notes[n]) then Some(n) else None
  }

  function SpendAt(notes: seq<Tracked>, i: Option<nat>): (r: seq<Tracked>)
    requires i.Some? ==> i.value < |notes|
    ensures |r| == |notes|
  {
    if i.None? then notes else notes[i.value := notes[i.value].(spent := true)]
  }

  function IsUnspentOf(nullifier: Digest): Tracked -> bool {
    (n: Tracked) => !n.spent && n.nullifier == nullifier
  }

  /** Every nullifier of the block spends the first unspent note that it belongs to. */
  function SpendRevealed(notes: seq<Tracked>, actions: seq<Action>): (r: seq<Tracked>)
    ensures |r| == |notes|
  {
    if actions == [] then notes
    else
      var front := SpendRevealed(notes, actions[..|actions| - 1]);
      SpendAt(front, First(front, IsUnspentOf(actions[|actions| - 1].nullifier)))
  }

  /** The nullifiers are applied before the notes of the same block are added. */
  function Processed(s: State, height: nat, txs: seq<Transaction>): State {
    var actions := Actions(txs);
    State(s.tree + Leaves(actions), s.next + |actions|,
      SpendRevealed(s.notes, actions) + NewNotes(actions, s.next, height))
  }

  // ---------------------------------------------------------------------------------
  // Spending
  // ---------------------------------------------------------------------------------

  function IsUnspentAt(position: nat): Tracked -> bool {
    (n: Tracked) => !n.spent && n.position == position
  }

  function IsAt(position: nat): Tracked -> bool {
    (n: Tracked) => n.position == position
  }

  function IsEnough(value: nat): Tracked -> bool {
    (n: Tracked) => !n.spent && n.value >= value
  }

  /** Note i, which stands at this position, is spent, and no other note has changed. */
  ghost predicate IsSpentNow(notes: seq<Tracked>, notes': seq<Tracked>, i: nat, position: nat) {
    && i < |notes| == |notes'|
    && notes[i].position == position && notes'[i] == notes[i].(spent := true)
    && forall j :: 0 <= j < |notes| && j != i ==> notes'[j] == notes[j]
  }

  /** What a transaction spends and pays. */
  datatype Plan = Plan(position: nat, value: nat, amount: nat, change: nat)

  /** None when the program returns an error instead of building. */
  function PlanFor(notes: seq<Tracked>, amount: nat): Option<Plan> {
    var i := First(notes, IsEnough(amount + FEE));
    if amount > MAX_MONEY || i.None? then None
    else
      var note := notes[i.value];
      var change := note.value - amount - FEE;
      if change > MAX_MONEY then None else Some(Plan(note.position, note.value, amount, change))
  }

  function Balance(notes: seq<Tracked>): nat {
    if notes == [] then 0
    else
      var last := notes[|notes| - 1];
      Balance(notes[..|notes| - 1]) + if last.spent then 0 else last.value
  }

  // ---------------------------------------------------------------------------------
  // The wallet
  // ---------------------------------------------------------------------------------

  /** A note of ours found while reading a block, with its place in the block. */
  datatype Found = Found(action: Action, index: nat)

  class AnchorWallet {
    var tree: seq<Leaf>
    var nextPosition: nat
    var notes: seq<Tracked>

    function Value(): State
      reads this
    {
      State(tree, nextPosition, notes)
    }

    /** Seeded from a frontier: the next block starts at this position. */
    constructor (start: nat)
      ensures Value() == State([], start, [])
    {
      tree, nextPosition, notes := [], start, [];
    }

    /** Seeds the tree from the frontier before a block, which ends at this position. */
    method InitFromZebra(position: nat)
      modifies this`nextPosition
      ensures Value() == old(Value()).(next := position)
    {
      nextPosition := position;
    }

    method ProcessBlockCommitments(height: nat, txs: seq<Transaction>)
      modifies this
      ensures Value() == Processed(old(Value()), height, txs)
    {
      ghost var actions := Actions(txs);
      var allCommitments, ourNotes, spentNullifiers := Collect(txs);
      if allCommitments == [] {
        assert actions == [] && tree + [] == tree && notes + [] == notes;
        return;
      }
      tree := tree + allCommitments;
      ApplyNullifiers(actions, spentNullifiers);
      PushNotes(actions, ourNotes, height);
      nextPosition := nextPosition + |allCommitments|;
    }

    /** Reads the actions of a block in order. */
    method Collect(txs: seq<Transaction>)
      returns (allCommitments: seq<Leaf>, ourNotes: seq<Found>, spentNullifiers: seq<Digest>)
      ensures IsCollected(Actions(txs), allCommitments, ourNotes, spentNullifiers)
    {
      allCommitments, ourNotes, spentNullifiers := [], [], [];
      for t := 0 to |txs|
        invariant IsCollected(Actions(txs[..t]), allCommitments, ourNotes, spentNullifiers)
      {
        assert txs[..t + 1][..t] == txs[..t];
        var bundle := BundleOf(txs[t]);
        ghost var before := Actions(txs[..t]);
        assert before + bundle[..0] == before;
        for k := 0 to |bundle|
          invariant IsCollected(before + bundle[..k], allCommitments, ourNotes, spentNullifiers)
        {
          var action := bundle[k];
          CollectedNext(before + bundle[..k], action, allCommitments, ourNotes, spentNullifiers);
          assert before + bundle[..k] + [action] == before + bundle[..k + 1];
          spentNullifiers := spentNullifiers + [action.nullifier];
          ourNotes := ourNotes + if action.received.Some? then [Found(action, |allCommitments|)] else [];
          allCommitments := allCommitments + [Leaf(action.commitment, action.received.Some?)];
        }
        assert bundle[..|bundle|] == bundle;
      }
      assert txs[..|txs|] == txs;
    }

    method ApplyNullifiers(ghost actions: seq<Action>, spentNullifiers: seq<Digest>)
      requires |spentNullifiers| == |actions|
      requires forall i :: 0 <= i < |actions| ==> spentNullifiers[i] == actions[i].nullifier
      modifies this`notes
      ensures notes == SpendRevealed(old(notes), actions)
    {
      for k := 0 to |spentNullifiers|
        invariant notes == SpendRevealed(old(notes), actions[..k])
      {
        assert actions[..k + 1][..k] == actions[..k];
        var i := First(notes, IsUnspentOf(spentNullifiers[k]));
        if i.Some? {
          notes := notes[i.value := notes[i.value].(spent := true)];
        }
      }
      assert actions[..|actions|] == actions;
    }

    method PushNotes(ghost actions: seq<Action>, ourNotes: seq<Found>, height: nat)
      requires ourNotes == FoundIn(actions)
      modifies this`notes
      ensures notes == old(notes) + NewNotes(actions, nextPosition, height)
    {
      for k := 0 to |ourNotes|
        invariant notes == old(notes) + Tracks(ourNotes[..k], nextPosition, height)
      {
        assert ourNotes[..k + 1][..k] == ourNotes[..k];
        var found := ourNotes[k];
        assert found in ourNotes;
        var note := NewNote(found.action, nextPosition + found.index, height);
        Assoc(old(notes), Tracks(ourNotes[..k], nextPosition, height), [note]);
        notes := notes + [note];
      }
      assert ourNotes[..|ourNotes|] == ourNotes;
      NewNotesAreTracks(actions, nextPosition, height);
    }

    method BalanceOf() returns (total: nat)
      ensures total == Balance(notes)
    {
      total := 0;
      for i := 0 to |notes|
        invariant total == Balance(notes[..i])
      {
        assert notes[..i + 1][..i] == notes[..i];
        if !notes[i].spent {
          total := total + notes[i].value;
        }
      }
      assert notes[..|notes|] == notes;
    }

    /** What `build_anchor_tx` and `build_payout_tx` choose to spend and to pay. */
    method BuildPlan(amount: nat) returns (plan: Option<Plan>)
      ensures plan == PlanFor(notes, amount)
    {
      var i := First(notes, IsEnough(amount + FEE));
      if amount > MAX_MONEY || i.None? {
        return None;
      }
      var note := notes[i.value];
      var afterAmount := if note.value > amount then note.value - amount else 0;
      var change := if afterAmount > FEE then afterAmount - FEE else 0;
      if change > 0 && change > MAX_MONEY {
        return None;
      }
      return Some(Plan(note.position, note.value, amount, change));
    }

    method MarkSpentAtPosition(position: nat) returns (ok: bool)
      modifies this`notes
      ensures ok <==> exists i :: 0 <= i < |old(notes)| && !old(notes)[i].spent && old(notes)[i].position == position
      ensures ok ==> exists i: nat :: IsSpentNow(old(notes), notes, i, position) && !old(notes)[i].spent
      ensures !ok ==> notes == old(notes)
      ensures notes == SpendAt(old(notes), First(old(notes), IsUnspentAt(position)))
    {
      var i := First(notes, IsUnspentAt(position));
      assert i.None? ==> forall j :: 0 <= j < |notes| ==> !IsUnspentAt(position)(notes[j]);
      if i.None? {
        return false;
      }
      notes := notes[i.value := notes[i.value].(spent := true)];
      assert IsSpentNow(old(notes), notes, i.value, position);
      return true;
    }

    method EnsureSpentAtPosition(position: nat) returns (ok: bool)
      modifies this`notes
      ensures ok <==> exists i :: 0 <= i < |old(notes)| && old(notes)[i].position == position
      ensures ok ==> exists i: nat :: IsSpentNow(old(notes), notes, i, position)
      ensures !ok ==> notes == old(notes)
      ensures notes == SpendAt(old(notes), First(old(notes), IsAt(position)))
    {
      var i := First(notes, IsAt(position));
      assert i.None? ==> forall j :: 0 <= j < |notes| ==> !IsAt(position)(notes[j]);
      if i.None? {
        return false;
      }
      notes := notes[i.value := notes[i.value].(spent := true)];
      assert IsSpentNow(old(notes), notes, i.value, position);
      return true;
    }
  }

  // What the loops of `ProcessBlockCommitments` have collected after some actions.

  function FoundIn(actions: seq<Action>): (ours: seq<Found>)
    ensures AllReceived(ours)
  {
    if actions == [] then []
    else
      var n := |actions| - 1;
      FoundIn(actions[..n]) + if actions[n].received.Some? then [Found(actions[n], n)] else []
  }

  predicate AllReceived(ours: seq<Found>) {
    forall f :: f in ours ==> f.action.received.Some?
  }

  function Tracks(ours: seq<Found>, start: nat, height: nat): seq<Tracked>
    requires AllReceived(ours)
  {
    if ours == [] then []
    else
      var last := ours[|ours| - 1];
      assert last in ours;
      Tracks(ours[..|ours| - 1], start, height) + [NewNote(last.action, start + last.index, height)]
  }

  predicate IsCollected(actions: seq<Action>, leaves: seq<Leaf>, ours: seq<Found>, nullifiers: seq<Digest>) {
    && leaves == Leaves(actions) && ours == FoundIn(actions)
    && |nullifiers| == |actions| && forall i :: 0 <= i < |actions| ==> nullifiers[i] == actions[i].nullifier
  }

  lemma CollectedNext(actions: seq<Action>, a: Action, leaves: seq<Leaf>, ours: seq<Found>, nullifiers: seq<Digest>)
    requires IsCollected(actions, leaves, ours, nullifiers)
    ensures IsCollected(actions + [a], leaves + [Leaf(a.commitment, a.received.Some?)],
      ours + (if a.received.Some? then [Found(a, |leaves|)] else []), nullifiers + [a.nullifier])
  {
    assert (actions + [a])[..|actions|] == actions;
  }

  lemma {:induction false} NewNotesAreTracks(actions: seq<Action>, start: nat, height: nat)
    ensures NewNotes(actions, start, height) == Tracks(FoundIn(actions), start, height)
  {
    if actions != [] {
      var n := |actions| - 1;
      NewNotesAreTracks(actions[..n], start, height);
      var ours := FoundIn(actions);
      if actions[n].received.Some? {
        assert ours[..|ours| - 1] == FoundIn(actions[..n]);
      } else {
        assert ours == FoundIn(actions[..n]);
      }
    }
  }
}
