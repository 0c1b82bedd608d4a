/**
 src/anchor.rs `reconcile_due_anchor_confirmations`: one round over the rows that are due, in the
 order of the query, which the first error ends.
 */
module Confirmations {
  import opened Bytes
  import opened Results
  import opened LeafLog
  import opened Journal

  const BATCH_LIMIT := 8

  // ---------------------------------------------------------------------------------
  // ORDER BY recorded_at, txid LIMIT 8
  // ---------------------------------------------------------------------------------

  predicate IsLess(a: ByteString, b: ByteString) {
    if b == [] then false
    else if a == [] then true
    else a[0] < b[0] || (a[0] == b[0] && IsLess(a[1..], b[1..]))
  }

  lemma {:induction false} LessIsTotal(a: ByteString, b: ByteString)
    ensures !(IsLess(a, b) && IsLess(b, a)) && (a == b <==> !IsLess(a, b) && !IsLess(b, a))
  {
    if a != [] && b != [] {
      LessIsTotal(a[1..], b[1..]);
      assert a == [a[0]] + a[1..] && b == [b[0]] + b[1..];
    }
  }

  lemma {:induction false} LessIsTransitive(a: ByteString, b: ByteString, c: ByteString)
    requires IsLess(a, b) && IsLess(b, c)
    ensures IsLess(a, c)
  {
    if a != [] && a[0] == b[0] && b[0] == c[0] {
      LessIsTransitive(a[1..], b[1..], c[1..]);
    }
  }

  /** The earlier row; a row without a time comes before all others. */
  predicate ComesFirst(journal: map<Txid, Row>, t: Txid, u: Txid)
    requires t in journal && u in journal
  {
    var x, y := journal[t].recordedAt, journal[u].recordedAt;
    if x == y then IsLess(t, u) else x.None? || (y.Some? && x.value < y.value)
  }

  lemma ComesFirstIsTotal(journal: map<Txid, Row>, t: Txid, u: Txid)
    requires t in journal && u in journal
    ensures !(ComesFirst(journal, t, u) && ComesFirst(journal, u, t))
    ensures t == u <==> !ComesFirst(journal, t, u) && !ComesFirst(journal, u, t)
  {
    LessIsTotal(t, u);
  }

  lemma ComesFirstIsTransitive(journal: map<Txid, Row>, t: Txid, u: Txid, v: Txid)
    requires t in journal && u in journal && v in journal
    requires ComesFirst(journal, t, u) && ComesFirst(journal, u, v)
    ensures ComesFirst(journal, t, v)
  {
    if IsLess(t, u) && IsLess(u, v) {
      LessIsTransitive(t, u, v);
    }
  }

  ghost predicate IsInOrder(journal: map<Txid, Row>, rows: seq<Txid>) {
    forall i, j :: 0 <= i < j < |rows| ==> rows[i] in journal && rows[j] in journal && ComesFirst(journal, rows[i], rows[j])
  }

  /** All due rows, in order. */
  ghost predicate IsDueList(journal: map<Txid, Row>, now: nat, due: seq<Txid>) {
    (forall t :: t in due <==> t in journal && IsDue(journal[t], now)) && IsInOrder(journal, due)
  }

  /** Puts a row in its place. */
  function Placed(journal: map<Txid, Row>, rows: seq<Txid>, t: Txid): seq<Txid>
    requires t in journal && forall u :: u in rows ==> u in journal
  {
    if rows == [] || ComesFirst(journal, rows[|rows| - 1], t) then rows + [t]
    else Placed(journal, rows[..|rows| - 1], t) + [rows[|rows| - 1]]
  }

  ghost predicate AreRows(journal: map<Txid, Row>, rows: seq<Txid>) {
    forall u :: u in rows ==> u in journal
  }

  lemma {:induction false} PlacedInOrder(journal: map<Txid, Row>, rows: seq<Txid>, t: Txid)
    requires IsInOrder(journal, rows) && AreRows(journal, rows) && t in journal && t !in rows
    ensures IsInOrder(journal, Placed(journal, rows, t))
    ensures forall u :: u in Placed(journal, rows, t) <==> u in rows || u == t
  {
    if rows != [] {
      var front, last := rows[..|rows| - 1], rows[|rows| - 1];
      assert rows == front + [last];
      ComesFirstIsTotal(journal, last, t);
      if ComesFirst(journal, last, t) {
        forall i | 0 <= i < |front| ensures ComesFirst(journal, rows[i], t) {
          ComesFirstIsTransitive(journal, rows[i], last, t);
        }
      } else {
        PlacedInOrder(journal, front, t);
        var placed := Placed(journal, front, t);
        forall i | 0 <= i < |placed| ensures placed[i] in journal && ComesFirst(journal, placed[i], last) {
          assert placed[i] in placed;
        }
      }
    }
  }

  function Batch(due: seq<Txid>): seq<Txid> {
    if |due| <= BATCH_LIMIT then due else due[..BATCH_LIMIT]
  }

  /** The first byte in which they differ decides, or that the other one goes on. */
  ghost predicate IsSmaller(a: ByteString, b: ByteString) {
    exists k :: 0 <= k <= |a| && k < |b| && a[..k] == b[..k] && (k == |a| || a[k] < b[k])
  }

  lemma {:induction false} LessIsSmaller(a: ByteString, b: ByteString)
    ensures IsLess(a, b) <==> IsSmaller(a, b)
  {
    if a == [] && b != [] {
      assert a[..0] == b[..0];
    } else if a != [] && b != [] {
      LessIsSmaller(a[1..], b[1..]);
      if a[0] == b[0] {
        SmallerTail(a, b);
      } else if a[0] < b[0] {
        assert a[..0] == b[..0];
      }
    }
  }

  lemma SmallerTail(a: ByteString, b: ByteString)
    requires a != [] && b != [] && a[0] == b[0]
    ensures IsSmaller(a, b) <==> IsSmaller(a[1..], b[1..])
  {
    var c, d := a[1..], b[1..];
    if IsSmaller(c, d) {
      var k :| 0 <= k <= |c| && k < |d| && c[..k] == d[..k] && (k == |c| || c[k] < d[k]);
      assert a[..k + 1] == [a[0]] + c[..k] && b[..k + 1] == [b[0]] + d[..k];
    }
    if IsSmaller(a, b) {
      var k :| 0 <= k <= |a| && k < |b| && a[..k] == b[..k] && (k == |a| || a[k] < b[k]);
      assert c[..k - 1] == a[..k][1..] && d[..k - 1] == b[..k][1..];
    }
  }

  /** Recorded before, or at the same time under a smaller transaction id; a row without a time is first of all. */
  ghost predicate IsEarlier(journal: map<Txid, Row>, t: Txid, u: Txid)
    requires t in journal && u in journal
  {
    match (journal[t].recordedAt, journal[u].recordedAt)
    case (None, None) => IsSmaller(t, u)
    case (None, Some(_)) => true
    case (Some(_), None) => false
    case (Some(x), Some(y)) => x < y || (x == y && IsSmaller(t, u))
  }

  lemma FirstIsEarlier(journal: map<Txid, Row>, t: Txid, u: Txid)
    requires t in journal && u in journal
    ensures ComesFirst(journal, t, u) <==> IsEarlier(journal, t, u)
  {
    LessIsSmaller(t, u);
  }

  /**
   Recorded rows that are not confirmed and not scheduled for later, in order: at most eight, and no
   other such row is earlier than one of them.
   */
  ghost predicate AreFirstDue(journal: map<Txid, Row>, now: nat, batch: seq<Txid>) {
    && |batch| <= 8
    && (forall i, j :: 0 <= i < j < |batch| ==>
      batch[i] in journal && batch[j] in journal && IsEarlier(journal, batch[i], batch[j]))
    && (forall t :: t in batch ==>
      t in journal && journal[t].status == Recorded && journal[t].confirmedAt.None?
      && (journal[t].nextAt.Some? ==> journal[t].nextAt.value <= now))
    && (forall t | t in journal && t !in batch && journal[t].status == Recorded && journal[t].confirmedAt.None?
          && (journal[t].nextAt.Some? ==> journal[t].nextAt.value <= now)
      :: |batch| == 8 && forall i :: 0 <= i < |batch| ==> batch[i] in journal && IsEarlier(journal, batch[i], t))
  }

  lemma BatchIsFirst(journal: map<Txid, Row>, now: nat, due: seq<Txid>)
    requires IsDueList(journal, now, due)
    ensures AreFirstDue(journal, now, Batch(due))
  {
    var batch := Batch(due);
    forall t | t in batch ensures t in journal && IsDue(journal[t], now) {
      assert t in due;
    }
    hide IsSmaller, IsLess;
    forall t, u | t in journal && u in journal ensures ComesFirst(journal, t, u) <==> IsEarlier(journal, t, u) {
      FirstIsEarlier(journal, t, u);
    }
    hide IsEarlier, ComesFirst;
    forall t | t in journal && IsDue(journal[t], now) && t !in batch
      ensures |batch| == 8 && forall i :: 0 <= i < |batch| ==> batch[i] in journal && IsEarlier(journal, batch[i], t)
    {
      var k :| 0 <= k < |due| && due[k] == t;
      assert forall i :: 0 <= i < |batch| ==> batch[i] == due[i];
    }
  }

  // ---------------------------------------------------------------------------------
  // One round
  // ---------------------------------------------------------------------------------

  /** What the node tells of a transaction; a height of zero, or of more than 32 bits, is none. */
  type Node = Txid -> Option<nat>

  function HeightOf(reply: Option<nat>): Option<nat> {
    if reply.Some? && 0 < reply.value <= MAX_U32 then reply else None
  }

  /** Confirms a row at the height that the node tells, or puts it off. */
  function Answered(a: Anchors, t: Txid, height: Option<nat>, now: nat): Option<Anchors> {
    if height.Some? then Confirm(a, t, height.value, now)
    else if t in a.journal then Retry(a, t, now, RetrySeconds(a.journal[t].attempts))
    else None
  }

  lemma OthersKept(a: Anchors, t: Txid, height: Option<nat>, now: nat, u: Txid)
    requires Answered(a, t, height, now).Some? && u in a.journal && u != t
    ensures var b := Answered(a, t, height, now).value; u in b.journal && b.journal[u] == a.journal[u]
  {}

  /** How many rows are handled before the round ends or fails. */
  function Handled(a: Anchors, rows: seq<Txid>, node: Node, now: nat): (n: nat)
    ensures n <= |rows|
    decreases |rows|
  {
    if rows == [] then 0
    else
      var a' := Answered(a, rows[0], HeightOf(node(rows[0])), now);
      if a'.None? then 0 else 1 + Handled(a'.value, rows[1..], node, now)
  }

  function AfterRound(a: Anchors, rows: seq<Txid>, node: Node, now: nat): Anchors
    decreases |rows|
  {
    if rows == [] then a
    else
      var a' := Answered(a, rows[0], HeightOf(node(rows[0])), now);
      if a'.None? then a else AfterRound(a'.value, rows[1..], node, now)
  }

  /** The root of the row has a height, and the node tells another one. */
  predicate Refuses(a: Anchors, t: Txid, height: Option<nat>) {
    && t in a.journal && 0 < a.journal[t].count <= |a.roots|
    && var known := a.roots[a.journal[t].count - 1].height;
    known.Some? && height.Some? && known != height
  }

  /** A row and the root it is for are as they were. */
  ghost predicate IsSameRow(a: Anchors, a': Anchors, t: Txid) {
    && t in a.journal && t in a'.journal && a'.journal[t] == a.journal[t]
    && 0 < a.journal[t].count <= |a.roots| && |a'.roots| == |a.roots|
    && a'.roots[a.journal[t].count - 1] == a.roots[a.journal[t].count - 1]
  }

  /** What the round does to a row that it handles. */
  ghost predicate IsHandled(a: Anchors, a': Anchors, t: Txid, height: Option<nat>) {
    && t in a.journal && t in a'.journal && 0 < a'.journal[t].count <= |a'.roots|
    && (height.Some? ==> a'.journal[t].confirmedAt.Some? && a'.roots[a'.journal[t].count - 1].height == height)
    && (height.None? ==> IsUnconfirmed(a'.journal[t]) && a'.journal[t].attempts == a.journal[t].attempts + 1)
  }

  /** These rows are recorded and unconfirmed, and none stands twice. */
  ghost predicate AreOpen(a: Anchors, rows: seq<Txid>) {
    && (forall i :: 0 <= i < |rows| ==> rows[i] in a.journal && IsUnconfirmed(a.journal[rows[i]]))
    && forall i, j :: 0 <= i < j < |rows| ==> rows[i] != rows[j]
  }

  lemma BatchIsOpen(a: Anchors, now: nat, due: seq<Txid>)
    requires IsDueList(a.journal, now, due)
    ensures AreOpen(a, Batch(due))
  {
    forall i | 0 <= i < |due| ensures due[i] in a.journal && IsUnconfirmed(a.journal[due[i]]) {
      assert due[i] in due;
    }
    forall i, j | 0 <= i < j < |due| ensures due[i] != due[j] {
      ComesFirstIsTotal(a.journal, due[i], due[j]);
    }
  }

  lemma ConfirmedAlone(a: Anchors, t: Txid, height: nat, now: nat, u: Txid)
    requires AnchorsInv(a) && t in a.journal && Confirm(a, t, height, now).Some? && u in a.journal && u != t
    ensures IsSameRow(a, Confirm(a, t, height, now).value, u)
  {
    assert RowInv(a.roots, t, a.journal[t]) && RowInv(a.roots, u, a.journal[u]);
    RootAt(a.roots, a.journal[t].count - 1);
    assert a.journal[t].count != a.journal[u].count;
  }

  lemma RetriedAlone(a: Anchors, t: Txid, now: nat, delay: nat, u: Txid)
    requires AnchorsInv(a) && Retry(a, t, now, delay).Some? && u in a.journal && u != t
    ensures IsSameRow(a, Retry(a, t, now, delay).value, u)
  {
    assert RowInv(a.roots, u, a.journal[u]);
  }

  /** One answer that changes its own row and no other. */
  ghost predicate IsAnswer(a: Anchors, a': Anchors, t: Txid, height: Option<nat>) {
    Harmless(a, a') && IsHandled(a, a', t, height) && forall u :: u in a.journal && u != t ==> IsSameRow(a, a', u)
  }

  lemma ConfirmAnswers(a: Anchors, t: Txid, height: nat, now: nat)
    requires AnchorsInv(a) && t in a.journal && IsUnconfirmed(a.journal[t]) && Confirm(a, t, height, now).Some?
    ensures IsAnswer(a, Confirm(a, t, height, now).value, t, Some(height))
  {
    var a' := Confirm(a, t, height, now).value;
    ConfirmKeeps(a, t, height, now);
    assert RowInv(a'.roots, t, a'.journal[t]);
    hide Confirm, AnchorsInv, IsSameRow;
    forall u | u in a.journal && u != t ensures IsSameRow(a, a', u) {
      ConfirmedAlone(a, t, height, now, u);
    }
  }

  lemma RetryAnswers(a: Anchors, t: Txid, now: nat, delay: nat)
    requires AnchorsInv(a) && t in a.journal && IsUnconfirmed(a.journal[t]) && Retry(a, t, now, delay).Some?
    ensures IsAnswer(a, Retry(a, t, now, delay).value, t, None)
  {
    var a' := Retry(a, t, now, delay).value;
    RetryKeeps(a, t, now, delay);
    assert RowInv(a.roots, t, a.journal[t]);
    hide AnchorsInv, IsSameRow;
    forall u | u in a.journal && u != t ensures IsSameRow(a, a', u) {
      RetriedAlone(a, t, now, delay, u);
    }
  }

  lemma RefusedIff(a: Anchors, t: Txid, height: nat, now: nat)
    requires AnchorsInv(a) && t in a.journal && IsUnconfirmed(a.journal[t]) && height > 0
    ensures Confirm(a, t, height, now).Some? <==> !Refuses(a, t, Some(height))
  {
    ConfirmSucceedsIff(a, t, height, now);
    hide AnchorsInv, Confirm;
  }

  /** One answer: it is refused in one case only, and otherwise changes its own row and no other. */
  lemma AnswerHandles(a: Anchors, t: Txid, height: Option<nat>, now: nat)
    requires AnchorsInv(a) && t in a.journal && IsUnconfirmed(a.journal[t]) && (height.Some? ==> height.value > 0)
    ensures Answered(a, t, height, now).Some? <==> !Refuses(a, t, height)
    ensures Answered(a, t, height, now).Some? ==> IsAnswer(a, Answered(a, t, height, now).value, t, height)
  {
    if height.Some? {
      hide Confirm, AnchorsInv, IsAnswer, IsUnconfirmed, Refuses;
      RefusedIff(a, t, height.value, now);
      if Confirm(a, t, height.value, now).Some? {
        ConfirmAnswers(a, t, height.value, now);
      }
    } else {
      RetryAnswers(a, t, now, RetrySeconds(a.journal[t].attempts));
      hide AnchorsInv, IsAnswer;
    }
  }

  /** One of the first n rows. */
  predicate IsAmong(rows: seq<Txid>, n: nat, u: Txid)
    requires n <= |rows|
  {
    exists i :: 0 <= i < n && rows[i] == u
  }

  ghost predicate IsReached(a: Anchors, a': Anchors, rows: seq<Txid>, node: Node, i: nat)
    requires i < |rows|
  {
    !Refuses(a, rows[i], HeightOf(node(rows[i]))) && IsHandled(a, a', rows[i], HeightOf(node(rows[i])))
  }

  ghost predicate AreReached(a: Anchors, a': Anchors, rows: seq<Txid>, node: Node, n: nat)
    requires n <= |rows|
  {
    forall i :: 0 <= i < n ==> IsReached(a, a', rows, node, i)
  }

  predicate StopsAt(a: Anchors, rows: seq<Txid>, node: Node, n: nat)
    requires n <= |rows|
  {
    n < |rows| ==> Refuses(a, rows[n], HeightOf(node(rows[n])))
  }

  ghost predicate AreOthersSame(a: Anchors, a': Anchors, rows: seq<Txid>, n: nat)
    requires n <= |rows|
  {
    forall u :: u in a.journal && !IsAmong(rows, n, u) ==> IsSameRow(a, a', u)
  }

  /** What a round does: it handles the rows before the first one that refuses, and leaves all others alone. */
  ghost predicate IsRound(a: Anchors, a': Anchors, rows: seq<Txid>, node: Node, n: nat) {
    Harmless(a, a') && n <= |rows| && AreReached(a, a', rows, node, n) && StopsAt(a, rows, node, n) && AreOthersSame(a, a', rows, n)
  }

  lemma NoRound(a: Anchors, rows: seq<Txid>, node: Node)
    requires AnchorsInv(a)
    requires rows == [] || Refuses(a, rows[0], HeightOf(node(rows[0])))
    ensures IsRound(a, a, rows, node, 0)
  {
    forall u | u in a.journal ensures IsSameRow(a, a, u) {
      assert RowInv(a.roots, u, a.journal[u]);
    }
  }

  lemma HarmlessTransitive(a: Anchors, b: Anchors, c: Anchors)
    requires Harmless(a, b) && Harmless(b, c)
    ensures Harmless(a, c)
  {
    hide AnchorsInv;
    RootsKeptTransitive(a.roots, b.roots, c.roots);
  }

  lemma RestIsOpen(a: Anchors, b: Anchors, rows: seq<Txid>, height: Option<nat>)
    requires rows != [] && AreOpen(a, rows) && IsAnswer(a, b, rows[0], height)
    ensures AreOpen(b, rows[1..])
  {
    forall i | 0 <= i < |rows| - 1 ensures rows[1..][i] in b.journal && IsUnconfirmed(b.journal[rows[1..][i]]) {
      assert IsSameRow(a, b, rows[i + 1]);
    }
  }

  lemma SameThenHandled(a: Anchors, b: Anchors, c: Anchors, t: Txid, height: Option<nat>)
    requires IsSameRow(a, b, t)
    ensures Refuses(a, t, height) <==> Refuses(b, t, height)
    ensures IsHandled(b, c, t, height) ==> IsHandled(a, c, t, height)
    ensures IsSameRow(b, c, t) ==> IsSameRow(a, c, t)
  {}

  lemma HandledThenSame(a: Anchors, b: Anchors, c: Anchors, t: Txid, height: Option<nat>)
    requires IsHandled(a, b, t, height) && IsSameRow(b, c, t)
    ensures IsHandled(a, c, t, height)
  {}

  lemma ReachedLater(a: Anchors, b: Anchors, c: Anchors, rows: seq<Txid>, node: Node, i: nat)
    requires 0 < i < |rows| && IsSameRow(a, b, rows[i])
    ensures Refuses(a, rows[i], HeightOf(node(rows[i]))) <==> Refuses(b, rows[1..][i - 1], HeightOf(node(rows[1..][i - 1])))
    ensures IsReached(b, c, rows[1..], node, i - 1) ==> IsReached(a, c, rows, node, i)
  {
    SameThenHandled(a, b, c, rows[i], HeightOf(node(rows[i])));
  }

  lemma FirstIsNotAmongRest(a: Anchors, rows: seq<Txid>, n: nat)
    requires rows != [] && AreOpen(a, rows) && n < |rows|
    ensures rows[0] in a.journal && !IsAmong(rows[1..], n, rows[0])
  {
    hide IsUnconfirmed;
  }

  lemma FirstIsSame(a: Anchors, b: Anchors, c: Anchors, rows: seq<Txid>, node: Node, n: nat, height: Option<nat>)
    requires rows != [] && AreOpen(a, rows) && IsAnswer(a, b, rows[0], height) && IsRound(b, c, rows[1..], node, n)
    ensures IsSameRow(b, c, rows[0]) && IsHandled(a, b, rows[0], height)
  {
    FirstIsNotAmongRest(a, rows, n);
    SameKeys(a, b);
    hide Harmless, AreReached, StopsAt, IsHandled, IsSameRow, IsAmong, AreOpen;
  }

  lemma FirstReached(a: Anchors, b: Anchors, c: Anchors, rows: seq<Txid>, node: Node, n: nat)
    requires rows != [] && AreOpen(a, rows) && IsAnswer(a, b, rows[0], HeightOf(node(rows[0])))
    requires !Refuses(a, rows[0], HeightOf(node(rows[0]))) && IsRound(b, c, rows[1..], node, n)
    ensures IsReached(a, c, rows, node, 0)
  {
    FirstIsSame(a, b, c, rows, node, n, HeightOf(node(rows[0])));
    hide IsAnswer, IsRound, AreOpen, Refuses, IsSameRow, HeightOf, IsHandled;
    HandledThenSame(a, b, c, rows[0], HeightOf(node(rows[0])));
  }

  lemma OthersAreSame(a: Anchors, b: Anchors, rows: seq<Txid>, height: Option<nat>, i: nat)
    requires rows != [] && AreOpen(a, rows) && IsAnswer(a, b, rows[0], height) && 0 < i < |rows|
    ensures IsSameRow(a, b, rows[i])
  {
    hide Harmless, IsHandled, IsSameRow;
    assert rows[i] != rows[0];
  }

  lemma AllReached(a: Anchors, b: Anchors, c: Anchors, rows: seq<Txid>, node: Node, n: nat)
    requires rows != [] && AreOpen(a, rows) && IsAnswer(a, b, rows[0], HeightOf(node(rows[0])))
    requires IsReached(a, c, rows, node, 0) && IsRound(b, c, rows[1..], node, n)
    ensures n + 1 <= |rows| && AreReached(a, c, rows, node, n + 1) && StopsAt(a, rows, node, n + 1)
  {
    hide IsReached, Refuses, IsSameRow, HeightOf, Harmless, IsAnswer, AreOpen;
    forall i | 0 <= i < n + 1 ensures IsReached(a, c, rows, node, i) {
      if i > 0 {
        assert IsReached(b, c, rows[1..], node, i - 1);
        OthersAreSame(a, b, rows, HeightOf(node(rows[0])), i);
        ReachedLater(a, b, c, rows, node, i);
      }
    }
    if n + 1 < |rows| {
      OthersAreSame(a, b, rows, HeightOf(node(rows[0])), n + 1);
      ReachedLater(a, b, c, rows, node, n + 1);
    }
  }

  lemma NotAmongRest(rows: seq<Txid>, n: nat, u: Txid)
    requires n < |rows| && !IsAmong(rows, n + 1, u)
    ensures u != rows[0] && !IsAmong(rows[1..], n, u)
  {}

  lemma SameOfOther(a: Anchors, b: Anchors, c: Anchors, rows: seq<Txid>, node: Node, n: nat, height: Option<nat>, u: Txid)
    requires rows != [] && IsAnswer(a, b, rows[0], height) && IsRound(b, c, rows[1..], node, n)
    requires u in a.journal && !IsAmong(rows, n + 1, u)
    ensures IsSameRow(a, c, u)
  {
    SameKeys(a, b);
    NotAmongRest(rows, n, u);
    hide IsSameRow, IsHandled, IsReached, Refuses, Harmless, IsAmong;
    SameThenHandled(a, b, c, u, None);
  }

  lemma AllOthersSame(a: Anchors, b: Anchors, c: Anchors, rows: seq<Txid>, node: Node, n: nat, height: Option<nat>)
    requires rows != [] && n < |rows| && IsAnswer(a, b, rows[0], height) && IsRound(b, c, rows[1..], node, n)
    ensures AreOthersSame(a, c, rows, n + 1)
  {
    hide IsAnswer, IsRound, IsSameRow, IsAmong;
    forall u | u in a.journal && !IsAmong(rows, n + 1, u) ensures IsSameRow(a, c, u) {
      SameOfOther(a, b, c, rows, node, n, height, u);
    }
  }

  lemma HarmlessRound(a: Anchors, b: Anchors, c: Anchors, rows: seq<Txid>, node: Node, n: nat, t: Txid, height: Option<nat>)
    requires IsAnswer(a, b, t, height) && IsRound(b, c, rows, node, n)
    ensures Harmless(a, c) && n <= |rows|
  {
    HarmlessTransitive(a, b, c);
  }

  /** The first row, and the round over the others. */
  lemma RoundJoins(a: Anchors, b: Anchors, c: Anchors, rows: seq<Txid>, node: Node, n: nat)
    requires rows != [] && AreOpen(a, rows) && IsAnswer(a, b, rows[0], HeightOf(node(rows[0])))
    requires !Refuses(a, rows[0], HeightOf(node(rows[0]))) && IsRound(b, c, rows[1..], node, n)
    ensures IsRound(a, c, rows, node, n + 1)
  {
    HarmlessRound(a, b, c, rows[1..], node, n, rows[0], HeightOf(node(rows[0])));
    FirstReached(a, b, c, rows, node, n);
    AllReached(a, b, c, rows, node, n);
    AllOthersSame(a, b, c, rows, node, n, HeightOf(node(rows[0])));
    hide Harmless, IsAnswer, AreOpen, Refuses, HeightOf, AreReached, StopsAt, AreOthersSame;
  }

  lemma SameKeys(a: Anchors, b: Anchors)
    requires Harmless(a, b)
    ensures b.journal.Keys == a.journal.Keys
  {}

  lemma RoundStops(a: Anchors, rows: seq<Txid>, node: Node, now: nat)
    requires rows == [] || Answered(a, rows[0], HeightOf(node(rows[0])), now).None?
    ensures AfterRound(a, rows, node, now) == a && Handled(a, rows, node, now) == 0
  {
    hide Answered;
  }

  lemma RoundGoesOn(a: Anchors, rows: seq<Txid>, node: Node, now: nat)
    requires rows != [] && Answered(a, rows[0], HeightOf(node(rows[0])), now).Some?
    ensures var b := Answered(a, rows[0], HeightOf(node(rows[0])), now).value;
      && AfterRound(a, rows, node, now) == AfterRound(b, rows[1..], node, now)
      && Handled(a, rows, node, now) == 1 + Handled(b, rows[1..], node, now)
  {
    hide Answered;
  }

  /** The first row of a round is answered, or refuses. */
  lemma FirstAnswer(a: Anchors, rows: seq<Txid>, node: Node, now: nat)
    requires AnchorsInv(a) && AreOpen(a, rows) && rows != []
    ensures var height := HeightOf(node(rows[0]));
      var b := Answered(a, rows[0], height, now);
      if b.None? then Refuses(a, rows[0], height)
      else
        && !Refuses(a, rows[0], height) && IsAnswer(a, b.value, rows[0], height)
        && AnchorsInv(b.value) && AreOpen(b.value, rows[1..])
  {
    var height := HeightOf(node(rows[0]));
    AnswerHandles(a, rows[0], height, now);
    var b := Answered(a, rows[0], height, now);
    hide Answered, Refuses, AnchorsInv;
    if b.Some? {
      RestIsOpen(a, b.value, rows, height);
      AnswerKeeps(a, b.value, rows[0], height);
    }
  }

  /**
   What one round reaches: exactly the rows before the first one whose root has another height than
   the node tells.  Each of them is confirmed or put off, and every other row is as it was.
   */
  lemma {:induction false} RoundReaches(a: Anchors, rows: seq<Txid>, node: Node, now: nat)
    requires AnchorsInv(a) && AreOpen(a, rows)
    ensures IsRound(a, AfterRound(a, rows, node, now), rows, node, Handled(a, rows, node, now))
    decreases |rows|
  {
    hide *;
    if rows == [] {
      RoundStops(a, rows, node, now);
      NoRound(a, rows, node);
    } else {
      FirstAnswer(a, rows, node, now);
      var b := Answered(a, rows[0], HeightOf(node(rows[0])), now);
      if b.None? {
        RoundStops(a, rows, node, now);
        NoRound(a, rows, node);
      } else {
        RoundGoesOn(a, rows, node, now);
        RoundReaches(b.value, rows[1..], node, now);
        RoundJoins(a, b.value, AfterRound(a, rows, node, now), rows, node, Handled(b.value, rows[1..], node, now));
      }
    }
  }

  /**
   What a round does with the node's answer for a row that it reaches: a height of 32 bits confirms
   it at that height, and no height, or zero, puts it off with one attempt more.
   */
  lemma ReachedIsAnswered(a: Anchors, rows: seq<Txid>, node: Node, now: nat, i: nat)
    requires AnchorsInv(a) && AreOpen(a, rows) && i < Handled(a, rows, node, now)
    ensures var b, t := AfterRound(a, rows, node, now), rows[i];
      && t in a.journal && t in b.journal && 0 < b.journal[t].count <= |b.roots|
      && var told := node(t);
      && (told.Some? && 0 < told.value <= 0xFFFF_FFFF ==>
        b.journal[t].confirmedAt.Some? && b.roots[b.journal[t].count - 1].height == told)
      && (told.None? || told == Some(0) ==>
        b.journal[t].status == Recorded && b.journal[t].confirmedAt.None? && b.journal[t].attempts == a.journal[t].attempts + 1)
  {
    RoundReaches(a, rows, node, now);
    hide AnchorsInv, AreOpen, Refuses, StopsAt, AreOthersSame, Harmless, AfterRound, Handled;
    assert IsReached(a, AfterRound(a, rows, node, now), rows, node, i);
  }

  lemma AnswerKeeps(a: Anchors, b: Anchors, t: Txid, height: Option<nat>)
    requires IsAnswer(a, b, t, height)
    ensures AnchorsInv(b)
  {}

  /** Two recorded rows, of which the first one's root has a height of its own. */
  function TwoRows(h: Digest, k: Digest, t: Txid, u: Txid, raw: ByteString): Anchors {
    Anchors(
      [RootRow(h, 1, Some(t), Some(5)), RootRow(k, 2, Some(u), None)],
      map[t := Row(h, 1, raw, 0, Recorded, Some(0), 0, None, None), u := Row(k, 2, raw, 1, Recorded, Some(1), 0, None, None)])
  }

  /** When the node tells 7 for a row recorded at 5, the round ends there, and the other row is not looked at. */
  lemma FirstOfTwoRefuses(h: Digest, k: Digest, t: Txid, u: Txid, raw: ByteString, node: Node, now: nat)
    requires h != k && t != u && node(t) == Some(7)
    ensures var a := TwoRows(h, k, t, u, raw);
      && IsDueList(a.journal, now, [t, u])
      && Handled(a, Batch([t, u]), node, now) == 0 && AfterRound(a, Batch([t, u]), node, now) == a
  {
    var a := TwoRows(h, k, t, u, raw);
    assert LastByHash(a.roots, h) == Some(0);
    assert Confirm(a, t, 7, now).None?;
  }

  /** A height that the command line claims for a recorded row makes it refuse every other height. */
  lemma ClaimedHeightRefuses(a: Anchors, t: Txid, claimed: nat, height: nat)
    requires AnchorsInv(a) && t in a.journal && a.journal[t].status == Recorded && !HasPrepared(a.journal)
    requires a.roots[a.journal[t].count - 1].height.None? && claimed > 0 && height != claimed
    ensures var b := RecordAnchor(a, a.journal[t].root, t, Some(claimed));
      b.Some? && b.value.journal == a.journal && Refuses(b.value, t, Some(height))
  {
    assert RowInv(a.roots, t, a.journal[t]);
    RootAt(a.roots, a.journal[t].count - 1);
  }

  // ---------------------------------------------------------------------------------
  // The loop of a round
  // ---------------------------------------------------------------------------------

  /** The rows from i on are as the query returned them. */
  predicate AreAsQueried(queried: map<Txid, Row>, journal: map<Txid, Row>, batch: seq<Txid>, i: nat) {
    forall j :: i <= j < |batch| ==> batch[j] in queried && batch[j] in journal && journal[batch[j]] == queried[batch[j]]
  }

  /** The round has come to row i, with these tables. */
  predicate IsSoFar(before: Anchors, a: Anchors, batch: seq<Txid>, node: Node, now: nat, i: nat)
    requires i <= |batch|
  {
    && AfterRound(before, batch, node, now) == AfterRound(a, batch[i..], node, now)
    && Handled(before, batch, node, now) == i + Handled(a, batch[i..], node, now)
  }

  lemma SoFarBegins(a: Anchors, batch: seq<Txid>, node: Node, now: nat)
    ensures IsSoFar(a, a, batch, node, now, 0)
  {
    assert batch[0..] == batch;
  }

  lemma SoFarStops(before: Anchors, a: Anchors, batch: seq<Txid>, node: Node, now: nat, i: nat)
    requires i <= |batch| && IsSoFar(before, a, batch, node, now, i)
    requires i == |batch| || Answered(a, batch[i], HeightOf(node(batch[i])), now).None?
    ensures AfterRound(before, batch, node, now) == a && Handled(before, batch, node, now) == i
  {
    hide AfterRound, Handled, Answered;
    RoundStops(a, batch[i..], node, now);
  }

  lemma SoFarGoesOn(before: Anchors, a: Anchors, batch: seq<Txid>, node: Node, now: nat, i: nat)
    requires i < |batch| && IsSoFar(before, a, batch, node, now, i)
    requires Answered(a, batch[i], HeightOf(node(batch[i])), now).Some?
    ensures IsSoFar(before, Answered(a, batch[i], HeightOf(node(batch[i])), now).value, batch, node, now, i + 1)
  {
    hide AfterRound, Handled, Answered;
    RoundGoesOn(a, batch[i..], node, now);
    assert batch[i..][1..] == batch[i + 1..];
  }

  lemma AsQueriedNext(queried: map<Txid, Row>, a: Anchors, batch: seq<Txid>, height: Option<nat>, now: nat, i: nat)
    requires i < |batch| && AreAsQueried(queried, a.journal, batch, i) && Answered(a, batch[i], height, now).Some?
    requires forall j, k :: 0 <= j < k < |batch| ==> batch[j] != batch[k]
    ensures AreAsQueried(queried, Answered(a, batch[i], height, now).value.journal, batch, i + 1)
  {
    hide Answered;
    forall j | i < j < |batch|
      ensures var b := Answered(a, batch[i], height, now).value;
        batch[j] in queried && batch[j] in b.journal && b.journal[batch[j]] == queried[batch[j]]
    {
      OthersKept(a, batch[i], height, now, batch[j]);
    }
  }
}
