/**
 Binary hash trees over a list, written top down, for an arbitrary node function.

 `Root` is the tree of section 2.1 of RFC 6962: a list is split at the largest power of
 two below its length.  `Path` is the audit path of section 2.1.1, ordered from the leaf
 to the root.  Nothing here mentions the level-by-level loops of the program; the module
 `Merkle` shows that those loops compute these functions.
 */
module Trees {

  datatype Position = Left | Right

  /** One proof step: the sibling, and the side on which the sibling stands. */
  datatype Step<+D> = Step(hash: D, position: Position)

  /** The largest power of two strictly below n; `SplitPointIsPow2` says so. */
  function SplitPoint(n: nat): (k: nat)
    requires n > 1
    ensures 0 < k < n <= 2 * k
  {
    if n == 2 then 1 else 2 * SplitPoint((n + 1) / 2)
  }

  function Root<D>(node: (D, D) -> D, s: seq<D>): D
    requires |s| > 0
    decreases |s|
  {
    if |s| == 1 then s[0]
    else
      var k := SplitPoint(|s|);
      node(Root(node, s[..k]), Root(node, s[k..]))
  }

  function Path<D>(node: (D, D) -> D, s: seq<D>, i: nat): seq<Step<D>>
    requires i < |s|
    decreases |s|
  {
    if |s| == 1 then []
    else
      var k := SplitPoint(|s|);
      if i < k then Path(node, s[..k], i) + [Step(Root(node, s[k..]), Right)]
      else Path(node, s[k..], i - k) + [Step(Root(node, s[..k]), Left)]
  }

  /** `half` is one of the two parts the tree of s splits into, and begins at `start`. */
  predicate IsHalf<D(==)>(s: seq<D>, half: seq<D>, start: nat) {
    |s| > 1 &&
    var k := SplitPoint(|s|);
    (start == 0 && half == s[..k]) || (start == k && half == s[k..])
  }

  /** The proof step that joins the half beginning at `start` with the other half. */
  function OtherHalf<D>(node: (D, D) -> D, s: seq<D>, start: nat): Step<D>
    requires |s| > 1
  {
    var k := SplitPoint(|s|);
    if start == 0 then Step(Root(node, s[k..]), Right) else Step(Root(node, s[..k]), Left)
  }

  lemma PathThroughHalf<D>(node: (D, D) -> D, s: seq<D>, half: seq<D>, start: nat, j: nat)
    requires IsHalf(s, half, start) && j < |half|
    ensures start + j < |s| && half[j] == s[start + j] && |half| < |s|
    ensures Path(node, s, start + j) == Path(node, half, j) + [OtherHalf(node, s, start)]
  {}

  /** The value one proof step produces from the value below it. */
  function Climb<D>(node: (D, D) -> D, current: D, step: Step<D>): D {
    match step.position
    case Right => node(current, step.hash)
    case Left => node(step.hash, current)
  }

  function Walk<D>(node: (D, D) -> D, leaf: D, path: seq<Step<D>>): D {
    if path == [] then leaf
    else Climb(node, Walk(node, leaf, path[..|path| - 1]), path[|path| - 1])
  }

  /** Completeness: the path of every position walks to the root. */
  lemma {:induction false} PathWalksToRoot<D>(node: (D, D) -> D, s: seq<D>, i: nat)
    requires i < |s|
    ensures Walk(node, s[i], Path(node, s, i)) == Root(node, s)
    decreases |s|
  {
    if |s| > 1 {
      var k := SplitPoint(|s|);
      var p := Path(node, s, i);
      if i < k {
        PathWalksToRoot(node, s[..k], i);
        assert p[..|p| - 1] == Path(node, s[..k], i);
      } else {
        PathWalksToRoot(node, s[k..], i - k);
        assert p[..|p| - 1] == Path(node, s[k..], i - k);
      }
    }
  }

  // ---------------------------------------------------------------------------------
  // What a proof binds.  Every statement below assumes the node function free of
  // collisions only on the inputs that were hashed, so that it can hold of a real hash.
  // ---------------------------------------------------------------------------------

  /** The pairs hashed while computing the root of s. */
  ghost function Joins<D>(node: (D, D) -> D, s: seq<D>): set<(D, D)>
    requires |s| > 0
    decreases |s|
  {
    if |s| == 1 then {}
    else
      var k := SplitPoint(|s|);
      {(Root(node, s[..k]), Root(node, s[k..]))} + Joins(node, s[..k]) + Joins(node, s[k..])
  }

  /** The pair hashed by one proof step. */
  function StepPair<D>(current: D, step: Step<D>): (D, D) {
    match step.position
    case Right => (current, step.hash)
    case Left => (step.hash, current)
  }

  /** The pairs hashed while walking a proof. */
  ghost function WalkJoins<D>(node: (D, D) -> D, leaf: D, path: seq<Step<D>>): set<(D, D)> {
    if path == [] then {}
    else
      var below := path[..|path| - 1];
      {StepPair(Walk(node, leaf, below), path[|path| - 1])} + WalkJoins(node, leaf, below)
  }

  ghost predicate NoClash<D(!new)>(node: (D, D) -> D, pairs: set<(D, D)>) {
    forall p, q :: p in pairs && q in pairs && node(p.0, p.1) == node(q.0, q.1) ==> p == q
  }

  /** No hashed pair produces one of the leaf values. */
  ghost predicate Separated<D(!new)>(node: (D, D) -> D, pairs: set<(D, D)>, leaves: set<D>) {
    forall p :: p in pairs ==> node(p.0, p.1) !in leaves
  }

  ghost function Elements<D>(s: seq<D>): set<D> {
    set x | x in s
  }

  lemma SeparatedPart<D(!new)>(node: (D, D) -> D, pairs: set<(D, D)>, leaves: set<D>, part: set<D>)
    requires Separated(node, pairs, leaves) && part <= leaves
    ensures Separated(node, pairs, part)
  {}

  lemma SeparatedHalves<D(!new)>(node: (D, D) -> D, pairs: set<(D, D)>, s: seq<D>, k: nat)
    requires Separated(node, pairs, Elements(s)) && k <= |s|
    ensures Separated(node, pairs, Elements(s[..k])) && Separated(node, pairs, Elements(s[k..]))
  {
    SeparatedPart(node, pairs, Elements(s), Elements(s[..k]));
    SeparatedPart(node, pairs, Elements(s), Elements(s[k..]));
  }

  lemma SameJoin<D(!new)>(node: (D, D) -> D, pairs: set<(D, D)>, p: (D, D), q: (D, D))
    requires NoClash(node, pairs) && p in pairs && q in pairs
    requires node(p.0, p.1) == node(q.0, q.1)
    ensures p == q
  {}

  lemma JoinsOfHalves<D>(node: (D, D) -> D, s: seq<D>, k: nat)
    requires |s| > 1 && k == SplitPoint(|s|)
    ensures (Root(node, s[..k]), Root(node, s[k..])) in Joins(node, s)
    ensures Joins(node, s[..k]) <= Joins(node, s) && Joins(node, s[k..]) <= Joins(node, s)
  {}

  /** A non-empty walk ends in a hashed pair; `below` is the walk without its last step. */
  lemma LastStep<D>(node: (D, D) -> D, leaf: D, path: seq<Step<D>>) returns (below: seq<Step<D>>, pair: (D, D))
    requires path != []
    ensures path == below + [path[|path| - 1]]
    ensures pair == StepPair(Walk(node, leaf, below), path[|path| - 1])
    ensures node(pair.0, pair.1) == Walk(node, leaf, path)
    ensures pair in WalkJoins(node, leaf, path) && WalkJoins(node, leaf, below) <= WalkJoins(node, leaf, path)
  {
    below := path[..|path| - 1];
    pair := StepPair(Walk(node, leaf, below), path[|path| - 1]);
  }

  /**
   A value and a proof walk to the root of s, and nothing that is hashed on either way clashes:
   neither two inputs with each other, nor a node with an entry of s or with the value.
   */
  ghost predicate WalksCleanly<D(!new)>(
    node: (D, D) -> D, pairs: set<(D, D)>, s: seq<D>, leaf: D, path: seq<Step<D>>)
    requires |s| > 0
  {
    && Joins(node, s) <= pairs && WalkJoins(node, leaf, path) <= pairs
    && NoClash(node, pairs) && Separated(node, pairs, Elements(s) + {leaf})
    && Walk(node, leaf, path) == Root(node, s)
  }

  /** The walk is one into a half of s, and then the step that joins the halves. */
  ghost predicate EntersHalf<D(!new)>(
    node: (D, D) -> D, pairs: set<(D, D)>, s: seq<D>, leaf: D, path: seq<Step<D>>,
    below: seq<Step<D>>, half: seq<D>, start: nat)
  {
    && IsHalf(s, half, start) && |half| > 0 && path == below + [OtherHalf(node, s, start)]
    && WalksCleanly(node, pairs, half, leaf, below)
  }

  /** A walk that reaches the root of a list of two or more enters one of its halves. */
  lemma LastStepEntersHalf<D(!new)>(
    node: (D, D) -> D, pairs: set<(D, D)>, s: seq<D>, leaf: D, path: seq<Step<D>>)
    returns (below: seq<Step<D>>, half: seq<D>, start: nat)
    requires |s| > 1 && WalksCleanly(node, pairs, s, leaf, path)
    ensures EntersHalf(node, pairs, s, leaf, path, below, half, start)
  {
    var k := SplitPoint(|s|);
    JoinsOfHalves(node, s, k);
    var halves := (Root(node, s[..k]), Root(node, s[k..]));
    assert node(halves.0, halves.1) == Root(node, s);
    if path == [] {
      assert false;
    }
    var pair: (D, D);
    below, pair := LastStep(node, leaf, path);
    SameJoin(node, pairs, pair, halves);
    if path[|path| - 1].position == Right {
      half, start := s[..k], 0;
    } else {
      half, start := s[k..], k;
    }
    assert Elements(half) <= Elements(s);
  }

  lemma NoWalkToALeaf<D(!new)>(node: (D, D) -> D, pairs: set<(D, D)>, leaf: D, path: seq<Step<D>>, x: D)
    requires WalkJoins(node, leaf, path) <= pairs && Separated(node, pairs, {x})
    requires Walk(node, leaf, path) == x
    ensures path == []
  {
    if path != [] {
      var _, pair := LastStep(node, leaf, path);
      assert false;
    }
  }

  /**
   Soundness and uniqueness: whatever value and proof walk to the root of s, the value is
   an entry of s and the proof is exactly the path of that entry.
   */
  lemma {:induction false} ProofIsAPath<D(!new)>(
    node: (D, D) -> D, pairs: set<(D, D)>, s: seq<D>, leaf: D, path: seq<Step<D>>) returns (i: nat)
    requires |s| > 0 && WalksCleanly(node, pairs, s, leaf, path)
    ensures i < |s| && s[i] == leaf && path == Path(node, s, i)
    decreases |s|
  {
    if |s| == 1 {
      SeparatedPart(node, pairs, Elements(s) + {leaf}, {s[0]});
      NoWalkToALeaf(node, pairs, leaf, path, s[0]);
      i := 0;
    } else {
      var below, half, start := LastStepEntersHalf(node, pairs, s, leaf, path);
      var j := ProofIsAPath(node, pairs, half, leaf, below);
      PathThroughHalf(node, s, half, start, j);
      i := start + j;
    }
  }

  /** The path of a position hashes only pairs that the root computation also hashes. */
  lemma {:induction false} PathJoins<D>(node: (D, D) -> D, s: seq<D>, i: nat)
    requires i < |s|
    ensures WalkJoins(node, s[i], Path(node, s, i)) <= Joins(node, s)
    decreases |s|
  {
    if |s| > 1 {
      var k := SplitPoint(|s|);
      var p := Path(node, s, i);
      var part, j := if i < k then s[..k] else s[k..], if i < k then i else i - k;
      PathJoins(node, part, j);
      PathWalksToRoot(node, part, j);
      assert p[..|p| - 1] == Path(node, part, j);
      assert part[j] == s[i];
    }
  }

  lemma SameHalves<D(!new)>(node: (D, D) -> D, pairs: set<(D, D)>, s: seq<D>, t: seq<D>, j: nat, k: nat)
    requires |s| > 1 && |t| > 1 && j == SplitPoint(|s|) && k == SplitPoint(|t|)
    requires Joins(node, s) <= pairs && Joins(node, t) <= pairs && NoClash(node, pairs)
    requires Root(node, s) == Root(node, t)
    ensures Root(node, s[..j]) == Root(node, t[..k]) && Root(node, s[j..]) == Root(node, t[k..])
    ensures Joins(node, s[..j]) <= pairs && Joins(node, t[..k]) <= pairs
    ensures Joins(node, s[j..]) <= pairs && Joins(node, t[k..]) <= pairs
  {
    JoinsOfHalves(node, s, j);
    JoinsOfHalves(node, t, k);
    var p, q := (Root(node, s[..j]), Root(node, s[j..])), (Root(node, t[..k]), Root(node, t[k..]));
    SameJoin(node, pairs, p, q);
  }

  /** Lists of the same length with the same root are equal. */
  lemma {:induction false} SameLengthRootInjective<D(!new)>(
    node: (D, D) -> D, pairs: set<(D, D)>, s: seq<D>, t: seq<D>)
    requires |s| == |t| > 0
    requires Joins(node, s) <= pairs && Joins(node, t) <= pairs && NoClash(node, pairs)
    requires Root(node, s) == Root(node, t)
    ensures s == t
    decreases |s|
  {
    if |s| > 1 {
      var k := SplitPoint(|s|);
      SameHalves(node, pairs, s, t, k, k);
      SameLengthRootInjective(node, pairs, s[..k], t[..k]);
      SameLengthRootInjective(node, pairs, s[k..], t[k..]);
      assert s == s[..k] + s[k..] && t == t[..k] + t[k..];
    }
  }

  /** The roots of a list of one and of a longer list differ: one is a leaf, one is not. */
  lemma LeafIsNoRoot<D(!new)>(node: (D, D) -> D, pairs: set<(D, D)>, s: seq<D>, t: seq<D>)
    requires |s| == 1 && |t| > 1
    requires Joins(node, t) <= pairs && Separated(node, pairs, Elements(s))
    ensures Root(node, s) != Root(node, t)
  {
    JoinsOfHalves(node, t, SplitPoint(|t|));
    assert s[0] in Elements(s);
  }

  lemma SameParts<D>(s: seq<D>, t: seq<D>, j: nat, k: nat)
    requires j <= |s| && k <= |t| && s[..j] == t[..k] && s[j..] == t[k..]
    ensures s == t
  {
    assert s == s[..j] + s[j..] && t == t[..k] + t[k..];
  }

  /** When no node is a leaf, the root determines the list, whatever its length. */
  lemma {:induction false} RootInjective<D(!new)>(
    node: (D, D) -> D, pairs: set<(D, D)>, s: seq<D>, t: seq<D>)
    requires |s| > 0 && |t| > 0
    requires Joins(node, s) <= pairs && Joins(node, t) <= pairs
    requires NoClash(node, pairs) && Separated(node, pairs, Elements(s)) && Separated(node, pairs, Elements(t))
    requires Root(node, s) == Root(node, t)
    ensures s == t
    decreases |s|
  {
    if |s| == 1 && |t| == 1 {
      assert s == [s[0]] && t == [t[0]];
    } else if |s| == 1 {
      LeafIsNoRoot(node, pairs, s, t);
    } else if |t| == 1 {
      LeafIsNoRoot(node, pairs, t, s);
    } else {
      var j, k := SplitPoint(|s|), SplitPoint(|t|);
      SameHalves(node, pairs, s, t, j, k);
      SeparatedHalves(node, pairs, s, j);
      SeparatedHalves(node, pairs, t, k);
      RootInjective(node, pairs, s[..j], t[..k]);
      RootInjective(node, pairs, s[j..], t[k..]);
      SameParts(s, t, j, k);
    }
  }
}
