/** Tree heights: powers of two, the split point, and the length of a path. */
module Heights {
  import opened Trees

  function Pow2(h: nat): (r: nat)
    ensures r >= 1
  {
    if h == 0 then 1 else 2 * Pow2(h - 1)
  }

  /** The smallest height of a binary tree with room for n leaves; see `CeilLog2Bounds`. */
  function CeilLog2(n: nat): nat
    requires n >= 1
  {
    if n == 1 then 0 else 1 + CeilLog2((n + 1) / 2)
  }

  lemma {:induction false} CeilLog2Bounds(n: nat)
    requires n >= 1
    ensures n <= Pow2(CeilLog2(n))
    ensures n > 1 ==> CeilLog2(n) > 0 && SplitPoint(n) == Pow2(CeilLog2(n) - 1)
  {
    if n > 1 {
      CeilLog2Bounds((n + 1) / 2);
    }
  }

  lemma {:induction false} Pow2Mono(a: nat, b: nat)
    requires a <= b
    ensures Pow2(a) <= Pow2(b)
    ensures a < b ==> 2 * Pow2(a) <= Pow2(b)
  {
    if a < b {
      Pow2Mono(a, b - 1);
    }
  }

  /** `SplitPoint` is the power of two it is said to be: the only one k with k < n <= 2k. */
  lemma {:induction false} SplitPointIsPow2(n: nat, h: nat)
    requires n > 1
    ensures Pow2(h) < n <= 2 * Pow2(h) <==> SplitPoint(n) == Pow2(h)
  {
    CeilLog2Bounds(n);
    var c := CeilLog2(n) - 1;
    if c < h {
      Pow2Mono(c, h);
    } else if h < c {
      Pow2Mono(h, c);
    }
  }

  lemma SplitBelow(n: nat, h: nat)
    requires 1 < n <= Pow2(h)
    ensures h > 0 && SplitPoint(n) <= Pow2(h - 1)
    ensures n == Pow2(h) ==> SplitPoint(n) == Pow2(h - 1)
  {
    CeilLog2Bounds(n);
    var c := CeilLog2(n);
    if c > h {
      Pow2Mono(h, c - 1);
      assert false;
    }
    Pow2Mono(c - 1, h - 1);
    if n == Pow2(h) {
      SplitPointIsPow2(n, h - 1);
    }
  }

  /** A path is never longer than the tree is high, and exactly as long in a perfect tree. */
  lemma {:induction false} PathLength<D>(node: (D, D) -> D, s: seq<D>, i: nat, h: nat)
    requires i < |s| <= Pow2(h)
    ensures |Path(node, s, i)| <= h
    ensures |s| == Pow2(h) ==> |Path(node, s, i)| == h
    decreases h
  {
    if |s| == 1 {
      if h > 0 {
        Pow2Mono(0, h);
      }
    } else {
      SplitBelow(|s|, h);
      var k := SplitPoint(|s|);
      var half, start := if i < k then s[..k] else s[k..], if i < k then 0 else k;
      PathLength(node, half, i - start, h - 1);
      PathThroughHalf(node, s, half, start, i - start);
    }
  }
}
