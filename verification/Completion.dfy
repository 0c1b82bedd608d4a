/**
 The legacy scheme is the current one over a list completed to a power of two: `Expand`
 repeats a part that does not fill its left half.  Every statement about legacy roots and
 proofs then follows from the statements about `Root` and `Path`.
 */
module Completion {
  import opened Heights
  import opened Levels

  function Expand<D>(s: seq<D>, h: nat): (r: seq<D>)
    requires 0 < |s| <= Pow2(h)
    ensures |r| == Pow2(h)
    decreases h
  {
    if h == 0 then s
    else
      var half := Pow2(h - 1);
      if |s| > half then s[..half] + Expand(s[half..], h - 1)
      else Expand(s, h - 1) + Expand(s, h - 1)
  }

  /** The completion begins with the list. */
  lemma {:induction false} ExpandBegins<D>(s: seq<D>, h: nat, i: nat)
    requires 0 < |s| <= Pow2(h) && i < |s|
    ensures Expand(s, h)[i] == s[i]
    decreases h
  {
    if h > 0 {
      var half := Pow2(h - 1);
      if |s| <= half {
        ExpandBegins(s, h - 1, i);
      } else if i >= half {
        ExpandBegins(s[half..], h - 1, i - half);
      }
    }
  }

  /** An odd list that is not full is followed by its own last entry. */
  lemma {:induction false} ExpandRepeatsLast<D>(s: seq<D>, h: nat)
    requires |s| < Pow2(h) && |s| % 2 == 1
    ensures Expand(s, h)[|s|] == s[|s| - 1]
    decreases h
  {
    var half := Pow2(h - 1);
    if |s| > half {
      ExpandRepeatsLast(s[half..], h - 1);
    } else if |s| == half {
      assert h == 1;
    } else {
      ExpandRepeatsLast(s, h - 1);
    }
  }

  lemma ExpandFull<D>(s: seq<D>, h: nat)
    requires |s| == Pow2(h)
    ensures Expand(s, h) == s
    decreases h
  {
    if h > 0 {
      var half := Pow2(h - 1);
      ExpandFull(s[half..], h - 1);
    }
  }

  /** Going one legacy level up is going one current level up in the completed list. */
  lemma {:induction false} ExpandDupUp<D>(node: (D, D) -> D, s: seq<D>, h: nat)
    requires h > 0 && 0 < |s| <= Pow2(h)
    ensures CarryUp(node, Expand(s, h)) == Expand(DupUp(node, s), h - 1)
    decreases h
  {
    hide Expand, CarryUp, DupUp;
    if h == 1 {
      ExpandDupUpOfTwo(node, s);
    } else if |s| > Pow2(h - 1) {
      var left, right := s[..Pow2(h - 1)], s[Pow2(h - 1)..];
      ExpandDupUp(node, right, h - 1);
      assert s == left + right;
      ExpandDupUpFull(node, s, h, left, right);
    } else {
      ExpandDupUp(node, s, h - 1);
      ExpandDupUpHalf(node, s, h);
    }
  }

  lemma ExpandDupUpHalf<D>(node: (D, D) -> D, s: seq<D>, h: nat)
    requires h > 1 && 0 < |s| <= Pow2(h - 1)
    requires CarryUp(node, Expand(s, h - 1)) == Expand(DupUp(node, s), h - 2)
    ensures CarryUp(node, Expand(s, h)) == Expand(DupUp(node, s), h - 1)
  {
    var once := Expand(s, h - 1);
    assert Expand(s, h) == once + once;
    CarryUpJoins(node, once, once);
    assert |DupUp(node, s)| <= Pow2(h - 2);
  }

  lemma ExpandDupUpFull<D>(node: (D, D) -> D, s: seq<D>, h: nat, left: seq<D>, right: seq<D>)
    requires h > 1 && |left| == Pow2(h - 1) && 0 < |right| <= |left|
    requires s == left + right
    requires CarryUp(node, Expand(right, h - 1)) == Expand(DupUp(node, right), h - 2)
    ensures CarryUp(node, Expand(s, h)) == Expand(DupUp(node, s), h - 1)
  {
    CarryUpOfExpanded(node, s, h, left, right);
    ExpandedDupUp(node, s, h, left, right);
  }

  lemma CarryUpOfExpanded<D>(node: (D, D) -> D, s: seq<D>, h: nat, left: seq<D>, right: seq<D>)
    requires h > 1 && |left| == Pow2(h - 1) && 0 < |right| <= |left|
    requires s == left + right
    ensures CarryUp(node, Expand(s, h)) == CarryUp(node, left) + CarryUp(node, Expand(right, h - 1))
  {
    ExpandRight(s, h, left, right);
    CarryUpJoins(node, left, Expand(right, h - 1));
  }

  lemma ExpandedDupUp<D>(node: (D, D) -> D, s: seq<D>, h: nat, left: seq<D>, right: seq<D>)
    requires h > 1 && |left| == Pow2(h - 1) && 0 < |right| <= |left|
    requires s == left + right
    ensures Expand(DupUp(node, s), h - 1) == CarryUp(node, left) + Expand(DupUp(node, right), h - 2)
  {
    DupUpJoins(node, left, right);
    ExpandRight(DupUp(node, s), h - 1, CarryUp(node, left), DupUp(node, right));
  }

  lemma ExpandRight<D>(s: seq<D>, h: nat, left: seq<D>, right: seq<D>)
    requires h > 0 && s == left + right && |left| == Pow2(h - 1) && 0 < |right| <= |left|
    ensures Expand(s, h) == left + Expand(right, h - 1)
  {
    assert s[..|left|] == left && s[|left|..] == right;
  }

  lemma ExpandDupUpOfTwo<D>(node: (D, D) -> D, s: seq<D>)
    requires 0 < |s| <= Pow2(1)
    ensures CarryUp(node, Expand(s, 1)) == Expand(DupUp(node, s), 0)
  {
    assert Pow2(1) == 2 && Pow2(0) == 1;
    var t := Expand(s, 1);
    assert CarryUp(node, t) == [node(t[0], t[1])] + CarryUp(node, t[2..]);
    if |s| == 2 {
      ExpandFull(s, 1);
    } else {
      assert t == s + s;
    }
  }
}
