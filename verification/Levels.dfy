/**
 One level of a tree built bottom up, in the two ways the program has used: carrying an
 odd last node up unchanged (the current scheme), and pairing it with itself (the legacy
 scheme).  The lemmas say what one level does to the root and to the path of a position.
 */
module Levels {
  import opened Bytes
  import opened Trees

  /** Pairs neighbours; a last node without a neighbour moves up unchanged. */
  function CarryUp<D>(node: (D, D) -> D, s: seq<D>): (r: seq<D>)
    ensures |r| == (|s| + 1) / 2
  {
    if |s| < 2 then s else [node(s[0], s[1])] + CarryUp(node, s[2..])
  }

  /** Pairs neighbours; a last node without a neighbour is paired with itself. */
  function DupUp<D>(node: (D, D) -> D, s: seq<D>): (r: seq<D>)
    ensures |r| == (|s| + 1) / 2
  {
    if |s| == 0 then []
    else if |s| == 1 then [node(s[0], s[0])]
    else [node(s[0], s[1])] + DupUp(node, s[2..])
  }

  lemma DropTwo<D>(s: seq<D>, t: seq<D>)
    requires |s| >= 2
    ensures (s + t)[0] == s[0] && (s + t)[1] == s[1] && (s + t)[2..] == s[2..] + t
  {}

  lemma {:induction false} CarryUpJoins<D>(node: (D, D) -> D, s: seq<D>, t: seq<D>)
    requires |s| % 2 == 0
    ensures CarryUp(node, s + t) == CarryUp(node, s) + CarryUp(node, t)
    decreases |s|
  {
    if s == [] {
      assert s + t == t;
    } else {
      CarryUpJoins(node, s[2..], t);
      DropTwo(s, t);
      var first := [node(s[0], s[1])];
      assert CarryUp(node, s + t) == first + CarryUp(node, s[2..] + t);
      Assoc(first, CarryUp(node, s[2..]), CarryUp(node, t));
    }
  }

  lemma {:induction false} DupUpJoins<D>(node: (D, D) -> D, s: seq<D>, t: seq<D>)
    requires |s| % 2 == 0
    ensures DupUp(node, s + t) == CarryUp(node, s) + DupUp(node, t)
  {
    if s == [] {
      assert s + t == t;
    } else {
      DupUpJoins(node, s[2..], t);
      DropTwo(s, t);
      var first := [node(s[0], s[1])];
      assert DupUp(node, s + t) == first + DupUp(node, s[2..] + t);
      Assoc(first, CarryUp(node, s[2..]), DupUp(node, t));
    }
  }

  /** What is left of a level from position i on: one pair, then what is left after it. */
  lemma CarryUpFrom<D>(node: (D, D) -> D, s: seq<D>, i: nat)
    requires i < |s|
    ensures i + 1 < |s| ==> CarryUp(node, s[i..]) == [node(s[i], s[i + 1])] + CarryUp(node, s[i + 2..])
    ensures i + 1 == |s| ==> CarryUp(node, s[i..]) == [s[i]]
  {
    if i + 1 < |s| {
      assert s[i..][2..] == s[i + 2..];
    }
  }

  lemma DupUpFrom<D>(node: (D, D) -> D, s: seq<D>, i: nat)
    requires i < |s|
    ensures i + 1 < |s| ==> DupUp(node, s[i..]) == [node(s[i], s[i + 1])] + DupUp(node, s[i + 2..])
    ensures i + 1 == |s| ==> DupUp(node, s[i..]) == [node(s[i], s[i])]
  {
    if i + 1 < |s| {
      assert s[i..][2..] == s[i + 2..];
    }
  }

  lemma CarryUpSplits<D>(node: (D, D) -> D, s: seq<D>, j: nat)
    requires 2 * j <= |s|
    ensures CarryUp(node, s[..2 * j]) == CarryUp(node, s)[..j]
    ensures CarryUp(node, s[2 * j..]) == CarryUp(node, s)[j..]
  {
    CarryUpJoins(node, s[..2 * j], s[2 * j..]);
    assert s == s[..2 * j] + s[2 * j..];
  }

  lemma SplitPointOneLevelUp(n: nat)
    requires n > 2
    ensures SplitPoint(n) == 2 * SplitPoint((n + 1) / 2)
  {}

  /** The halves of a level, one level up, are the halves of the level above. */
  lemma CarryUpHalf<D>(node: (D, D) -> D, s: seq<D>, half: seq<D>, start: nat)
    requires |s| > 2 && IsHalf(s, half, start)
    ensures start % 2 == 0 && IsHalf(CarryUp(node, s), CarryUp(node, half), start / 2)
  {
    var j := SplitPoint((|s| + 1) / 2);
    SplitPointOneLevelUp(|s|);
    CarryUpSplits(node, s, j);
    var up := CarryUp(node, s);
    assert |up| > 1 && SplitPoint(|up|) == j;
    if start == 0 {
      assert CarryUp(node, half) == up[..j];
    } else {
      assert start == 2 * j && start / 2 == j;
      assert CarryUp(node, half) == up[j..];
    }
  }

  /** One level up leaves the root where it was. */
  lemma {:induction false} CarryUpKeepsRoot<D>(node: (D, D) -> D, s: seq<D>)
    requires |s| > 0
    ensures Root(node, CarryUp(node, s)) == Root(node, s)
    decreases |s|
  {
    if |s| == 2 {
      assert CarryUp(node, s) == [node(s[0], s[1])] + CarryUp(node, []);
    } else if |s| > 2 {
      var k := SplitPoint(|s|);
      CarryUpKeepsRoot(node, s[..k]);
      CarryUpKeepsRoot(node, s[k..]);
      CarryUpHalf(node, s, s[..k], 0);
      CarryUpHalf(node, s, s[k..], k);
      RootOfHalves(node, s, k);
      RootOfHalves(node, CarryUp(node, s), k / 2);
    }
  }

  lemma RootOfHalves<D>(node: (D, D) -> D, s: seq<D>, k: nat)
    requires |s| > 1 && k == SplitPoint(|s|)
    ensures Root(node, s) == node(Root(node, s[..k]), Root(node, s[k..]))
  {}

  lemma OtherHalfOneLevelUp<D>(node: (D, D) -> D, s: seq<D>, half: seq<D>, start: nat)
    requires |s| > 2 && IsHalf(s, half, start)
    ensures OtherHalf(node, CarryUp(node, s), start / 2) == OtherHalf(node, s, start)
  {
    var k := SplitPoint(|s|);
    CarryUpHalf(node, s, s[..k], 0);
    CarryUpHalf(node, s, s[k..], k);
    CarryUpKeepsRoot(node, s[..k]);
    CarryUpKeepsRoot(node, s[k..]);
  }

  /** The proof steps that position i contributes on one level: none for a node carried up. */
  function LevelSteps<D>(s: seq<D>, i: nat): seq<Step<D>>
    requires i < |s|
  {
    if i % 2 == 1 then [Step(s[i - 1], Left)]
    else if i + 1 < |s| then [Step(s[i + 1], Right)]
    else []
  }

  lemma LevelStepsInHalf<D>(s: seq<D>, half: seq<D>, start: nat, j: nat)
    requires |s| > 2 && IsHalf(s, half, start) && j < |half|
    ensures start + j < |s| && LevelSteps(s, start + j) == LevelSteps(half, j)
  {}

  /** The path of a position starts with its step on this level and goes on one level up. */
  lemma {:induction false} CarryUpPath<D>(node: (D, D) -> D, s: seq<D>, i: nat)
    requires i < |s|
    ensures Path(node, s, i) == LevelSteps(s, i) + Path(node, CarryUp(node, s), i / 2)
    decreases |s|
  {
    if |s| <= 2 {
      CarryUpPathOfTwo(node, s, i);
    } else {
      var half, start := HalfOf(s, i);
      CarryUpPath(node, half, i - start);
      CarryUpPathFromHalf(node, s, half, start, i);
    }
  }

  /** A proof for a half, extended by the step that joins the halves. */
  lemma CarryUpPathFromHalf<D>(node: (D, D) -> D, s: seq<D>, half: seq<D>, start: nat, i: nat)
    requires |s| > 2 && IsHalf(s, half, start) && start <= i < start + |half|
    requires Path(node, half, i - start)
          == LevelSteps(half, i - start) + Path(node, CarryUp(node, half), (i - start) / 2)
    ensures i < |s| && Path(node, s, i) == LevelSteps(s, i) + Path(node, CarryUp(node, s), i / 2)
  {
    var j: nat := i - start;
    PathThroughHalf(node, s, half, start, j);
    PathAboveHalf(node, s, half, start, j);
    LevelStepsInHalf(s, half, start, j);
    var other := [OtherHalf(node, s, start)];
    Assoc(LevelSteps(half, j), Path(node, CarryUp(node, half), j / 2), other);
  }

  lemma PathAboveHalf<D>(node: (D, D) -> D, s: seq<D>, half: seq<D>, start: nat, j: nat)
    requires |s| > 2 && IsHalf(s, half, start) && j < |half|
    ensures start + j < |s|
    ensures Path(node, CarryUp(node, s), (start + j) / 2)
         == Path(node, CarryUp(node, half), j / 2) + [OtherHalf(node, s, start)]
  {
    CarryUpHalf(node, s, half, start);
    OtherHalfOneLevelUp(node, s, half, start);
    PathThroughHalf(node, CarryUp(node, s), CarryUp(node, half), start / 2, j / 2);
    assert (start + j) / 2 == start / 2 + j / 2;
  }

  lemma HalfOf<D>(s: seq<D>, i: nat) returns (half: seq<D>, start: nat)
    requires i < |s| && |s| > 1
    ensures IsHalf(s, half, start) && start <= i < start + |half| && |half| < |s|
  {
    var k := SplitPoint(|s|);
    half, start := if i < k then s[..k] else s[k..], if i < k then 0 else k;
  }

  lemma CarryUpPathOfTwo<D>(node: (D, D) -> D, s: seq<D>, i: nat)
    requires i < |s| <= 2
    ensures Path(node, s, i) == LevelSteps(s, i) + Path(node, CarryUp(node, s), i / 2)
  {
    assert |s| == 2 ==> CarryUp(node, s) == [node(s[0], s[1])] + CarryUp(node, []);
    assert Path(node, s, i) == LevelSteps(s, i);
  }
}
