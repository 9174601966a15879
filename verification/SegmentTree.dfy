/** The lazy segment tree of algorithms/cpp/Range queries/segTree.cpp against a plain array. */
module SegmentTree {
  import opened Wrappers

  // ---------------------------------------------------------------- the plain array

  /** The sum of a[i..j]; an empty range sums to zero. */
  function RangeSum(a: seq<int>, i: int, j: int): int
    requires i < j ==> 0 <= i && j <= |a|
    decreases j - i
  {
    if i >= j then 0 else RangeSum(a, i, j - 1) + a[j - 1]
  }

  /** `delta` added at the positions from `start` to `end`. */
  function Added(a: seq<int>, start: int, end: int, delta: int): (r: seq<int>)
    ensures |r| == |a|
    ensures forall i :: 0 <= i < |a| ==> r[i] == if start <= i <= end then a[i] + delta else a[i]
  {
    seq(|a|, i requires 0 <= i < |a| => if start <= i <= end then a[i] + delta else a[i])
  }

  function Min(x: int, y: int): int {
    if x < y then x else y
  }

  lemma {:induction false} SumSplits(a: seq<int>, i: int, m: int, j: int)
    requires 0 <= i <= m <= j <= |a|
    ensures RangeSum(a, i, j) == RangeSum(a, i, m) + RangeSum(a, m, j)
    decreases j
  {
    if m < j {
      SumSplits(a, i, m, j - 1);
    }
  }

  lemma {:induction false} SumSame(a: seq<int>, b: seq<int>, i: int, j: int)
    requires |a| == |b| && (i < j ==> 0 <= i && j <= |a|)
    requires forall k :: i <= k < j ==> a[k] == b[k]
    ensures RangeSum(a, i, j) == RangeSum(b, i, j)
    decreases j - i
  {
    if i < j {
      SumSame(a, b, i, j - 1);
    }
  }

  lemma {:induction false} SumShifts(a: seq<int>, b: seq<int>, i: int, j: int, d: int)
    requires |a| == |b| && 0 <= i <= j <= |a|
    requires forall k :: i <= k < j ==> b[k] == a[k] + d
    ensures RangeSum(b, i, j) == RangeSum(a, i, j) + d * (j - i)
    decreases j
  {
    if i < j {
      SumShifts(a, b, i, j - 1, d);
      assert d * (j - i) == d * (j - 1 - i) + d;
    }
  }

  // ---------------------------------------------------------------- array slots of a subtree

  /** Slot `p` belongs to the subtree rooted at slot `pos`. */
  predicate Below(p: int, pos: int)
    requires 0 <= pos
    decreases p
  {
    p == pos || (p > pos && Below((p - 1) / 2, pos))
  }

  lemma {:induction false} ChildBelow(p: int, pos: int)
    requires 0 <= pos && (Below(p, 2 * pos + 1) || Below(p, 2 * pos + 2))
    ensures Below(p, pos) && p > pos
    decreases p
  {
    var q := (p - 1) / 2;
    if p == 2 * pos + 1 || p == 2 * pos + 2 {
      assert q == pos;
    } else {
      ChildBelow(q, pos);
    }
  }

  /** The two subtrees of a node share no slot. */
  lemma {:induction false} SiblingsDisjoint(p: int, pos: int)
    requires 0 <= pos && Below(p, 2 * pos + 1)
    ensures !Below(p, 2 * pos + 2)
    decreases p
  {
    if p > 2 * pos + 2 {
      SiblingsDisjoint((p - 1) / 2, pos);
    }
  }

  /** All slots of the subtree for low..high fit into arrays of this size. */
  predicate Fits(size: int, low: int, high: int, pos: int)
    requires 0 <= pos
    decreases high - low
  {
    && pos < size
    && (low < high ==>
          var mid := (low + high) / 2;
          Fits(size, low, mid, 2 * pos + 1) && Fits(size, mid + 1, high, 2 * pos + 2))
  }

  /** The least power of two that is at least `len`. */
  function Width(len: int): (w: int)
    ensures w >= 1 && (len >= 1 ==> w < 2 * len)
  {
    if len <= 1 then 1 else 2 * Width((len + 1) / 2)
  }

  /** The last slot of a subtree over `len` elements. */
  function Last(pos: int, len: int): int
    decreases len
  {
    if len <= 1 then pos else Last(2 * pos + 2, (len + 1) / 2)
  }

  lemma {:induction false} LastGrows(pos: int, a: int, pos': int, b: int)
    requires 0 <= pos <= pos' && a <= b
    ensures pos' <= Last(pos', b) && Last(pos, a) <= Last(pos', b)
    decreases b
  {
    if b > 1 {
      LastGrows(if a > 1 then 2 * pos + 2 else pos, if a > 1 then (a + 1) / 2 else a, 2 * pos' + 2, (b + 1) / 2);
    }
  }

  lemma {:induction false} LastIsWide(pos: int, len: int)
    requires 0 <= pos
    ensures Last(pos, len) + 2 == (pos + 2) * Width(len)
    decreases len
  {
    if len > 1 {
      LastIsWide(2 * pos + 2, (len + 1) / 2);
      Doubling(pos + 2, Width((len + 1) / 2));
    }
  }

  lemma Doubling(a: int, b: int)
    ensures (2 * a) * b == a * (2 * b)
  {
  }

  lemma {:induction false} WideEnough(size: int, low: int, high: int, pos: int)
    requires 0 <= pos && low <= high && Last(pos, high - low + 1) < size
    ensures Fits(size, low, high, pos)
    decreases high - low
  {
    LastGrows(pos, 1, pos, high - low + 1);
    if low < high {
      var mid, h := (low + high) / 2, (high - low + 2) / 2;
      LastGrows(2 * pos + 1, mid - low + 1, 2 * pos + 2, h);
      LastGrows(2 * pos + 2, high - mid, 2 * pos + 2, h);
      WideEnough(size, low, mid, 2 * pos + 1);
      WideEnough(size, mid + 1, high, 2 * pos + 2);
    }
  }

  /** Four slots for every element are enough. */
  lemma FourTimesFits(n: int)
    requires n >= 1
    ensures Fits(4 * n, 0, n - 1, 0)
  {
    LastIsWide(0, n);
    WideEnough(4 * n, 0, n - 1, 0);
  }

  // ---------------------------------------------------------------- what the arrays mean

  /** What node `pos` stores, plus the pending additions of its own and of its ancestors (`pend`), is
      the sum of its range; and so for all nodes below. */
  ghost predicate Holds(s: seq<int>, z: seq<int>, a: seq<int>, low: int, high: int, pos: int, pend: int)
    requires |z| == |s|
    decreases high - low
  {
    && 0 <= low <= high < |a| && 0 <= pos < |s|
    && s[pos] + (z[pos] + pend) * (high - low + 1) == RangeSum(a, low, high + 1)
    && (low < high ==>
          var mid := (low + high) / 2;
          && Holds(s, z, a, low, mid, 2 * pos + 1, pend + z[pos])
          && Holds(s, z, a, mid + 1, high, 2 * pos + 2, pend + z[pos]))
  }

  /** Only the slots of the subtree and the elements of the range matter. */
  lemma {:induction false} HoldsFrame(s: seq<int>, z: seq<int>, a: seq<int>, s': seq<int>, z': seq<int>, a': seq<int>,
                                      low: int, high: int, pos: int, pend: int)
    requires |z| == |s| && |s'| == |s| && |z'| == |s| && |a'| == |a|
    requires Holds(s, z, a, low, high, pos, pend)
    requires forall p :: 0 <= p < |s| && Below(p, pos) ==> s'[p] == s[p] && z'[p] == z[p]
    requires forall i :: low <= i <= high ==> a'[i] == a[i]
    ensures Holds(s', z', a', low, high, pos, pend)
    decreases high - low
  {
    SumSame(a, a', low, high + 1);
    if low < high {
      var mid := (low + high) / 2;
      forall p | 0 <= p < |s| && (Below(p, 2 * pos + 1) || Below(p, 2 * pos + 2))
        ensures s'[p] == s[p] && z'[p] == z[p]
      {
        ChildBelow(p, pos);
      }
      HoldsFrame(s, z, a, s', z', a', low, mid, 2 * pos + 1, pend + z[pos]);
      HoldsFrame(s, z, a, s', z', a', mid + 1, high, 2 * pos + 2, pend + z[pos]);
    }
  }

  /** Additions pending above are as good as additions to the elements. */
  lemma {:induction false} HoldsShift(s: seq<int>, z: seq<int>, a: seq<int>, a': seq<int>,
                                      low: int, high: int, pos: int, pend: int, d: int)
    requires |z| == |s| && |a'| == |a| && Holds(s, z, a, low, high, pos, pend)
    requires forall i :: low <= i <= high ==> a'[i] == a[i] + d
    ensures Holds(s, z, a', low, high, pos, pend + d)
    decreases high - low
  {
    SumShifts(a, a', low, high + 1, d);
    Distributes(z[pos] + pend, d, high - low + 1);
    if low < high {
      var mid := (low + high) / 2;
      HoldsShift(s, z, a, a', low, mid, 2 * pos + 1, pend + z[pos], d);
      HoldsShift(s, z, a, a', mid + 1, high, 2 * pos + 2, pend + z[pos], d);
    }
  }

  lemma Distributes(x: int, y: int, len: int)
    ensures (x + y) * len == x * len + y * len
  {
  }

  /** A pending addition may move from the ancestors into the node's own lazy slot. */
  lemma HoldsAbsorb(s: seq<int>, z: seq<int>, a: seq<int>, low: int, high: int, pos: int, pend: int, d: int)
    requires |z| == |s| && 0 <= pos < |s| && Holds(s, z, a, low, high, pos, pend + d)
    ensures Holds(s, z[pos := z[pos] + d], a, low, high, pos, pend)
  {
    var z' := z[pos := z[pos] + d];
    if low < high {
      var mid := (low + high) / 2;
      forall p | 0 <= p < |s| && (Below(p, 2 * pos + 1) || Below(p, 2 * pos + 2))
        ensures z'[p] == z[p]
      {
        ChildBelow(p, pos);
      }
      HoldsFrame(s, z, a, s, z', a, low, mid, 2 * pos + 1, pend + d + z[pos]);
      HoldsFrame(s, z, a, s, z', a, mid + 1, high, 2 * pos + 2, pend + d + z[pos]);
    }
  }

  // ---------------------------------------------------------------- handing additions down

  /** The lazy slots after both children of `pos` got `d` more. */
  function ChildrenGet(z: seq<int>, low: int, high: int, pos: int, d: int): (z': seq<int>)
    requires 0 <= pos && (low < high ==> 2 * pos + 2 < |z|)
    ensures |z'| == |z|
    ensures forall p :: 0 <= p < |z| ==>
      z'[p] == if low < high && (p == 2 * pos + 1 || p == 2 * pos + 2) then z[p] + d else z[p]
  {
    if low < high then z[2 * pos + 1 := z[2 * pos + 1] + d][2 * pos + 2 := z[2 * pos + 2] + d] else z
  }

  /** A child's subtree after its own lazy slot got `d` more, whatever happened outside it. */
  lemma ChildGets(s: seq<int>, z: seq<int>, a: seq<int>, s': seq<int>, z': seq<int>, a': seq<int>,
                  low: int, high: int, c: int, pend: int, d: int)
    requires |z| == |s| && |s'| == |s| && |z'| == |s| && |a'| == |a| && Holds(s, z, a, low, high, c, pend + d)
    requires forall p :: 0 <= p < |s| && Below(p, c) ==> s'[p] == s[p] && z'[p] == if p == c then z[p] + d else z[p]
    requires forall i :: low <= i <= high ==> a'[i] == a[i]
    ensures Holds(s', z', a', low, high, c, pend)
  {
    HoldsAbsorb(s, z, a, low, high, c, pend, d);
    HoldsFrame(s, z[c := z[c] + d], a, s', z', a', low, high, c, pend);
  }

  /** Slots of one child's subtree seen from the node: not the node, not the other child. */
  lemma SlotsOfChild(p: int, pos: int, c: int)
    requires 0 <= pos && (c == 2 * pos + 1 || c == 2 * pos + 2) && Below(p, c)
    ensures p != pos && (p == 2 * pos + 1 || p == 2 * pos + 2 ==> p == c)
  {
    ChildBelow(p, pos);
    if c == 2 * pos + 1 {
      SiblingsDisjoint(p, pos);
    }
  }

  /** One child after the node was settled with value `v` and its children took `d` over. */
  lemma SettleChild(s: seq<int>, z: seq<int>, a: seq<int>, v: int, low: int, high: int, pos: int, d: int,
                    l: int, h: int, c: int)
    requires |z| == |s| && low < high && 0 <= pos && 2 * pos + 2 < |s|
    requires (c == 2 * pos + 1 || c == 2 * pos + 2) && Holds(s, z, a, l, h, c, d)
    ensures Holds(s[pos := v], ChildrenGet(z, low, high, pos, d)[pos := 0], a, l, h, c, 0)
  {
    var s', z' := s[pos := v], ChildrenGet(z, low, high, pos, d)[pos := 0];
    forall p | 0 <= p < |s| && Below(p, c)
      ensures s'[p] == s[p] && z'[p] == if p == c then z[p] + d else z[p]
    {
      SlotsOfChild(p, pos, c);
    }
    ChildGets(s, z, a, s', z', a, l, h, c, 0, d);
  }

  /** A node whose value is right for its range, with `d` still pending for both children. */
  lemma Settle(s: seq<int>, z: seq<int>, a: seq<int>, v: int, low: int, high: int, pos: int, d: int)
    requires |z| == |s| && 0 <= low <= high < |a| && 0 <= pos < |s|
    requires v == RangeSum(a, low, high + 1)
    requires low < high ==>
      var mid := (low + high) / 2;
      Holds(s, z, a, low, mid, 2 * pos + 1, d) && Holds(s, z, a, mid + 1, high, 2 * pos + 2, d)
    ensures low < high ==> 2 * pos + 2 < |z|
    ensures Holds(s[pos := v], ChildrenGet(z, low, high, pos, d)[pos := 0], a, low, high, pos, 0)
  {
    if low < high {
      var mid := (low + high) / 2;
      SettleChild(s, z, a, v, low, high, pos, d, low, mid, 2 * pos + 1);
      SettleChild(s, z, a, v, low, high, pos, d, mid + 1, high, 2 * pos + 2);
    }
  }

  // ---------------------------------------------------------------- the operations

  /** The slots outside the subtree of `pos` are as before. */
  ghost predicate Untouched(s: seq<int>, s': seq<int>, pos: int)
    requires 0 <= pos
  {
    |s'| == |s| && forall p :: 0 <= p < |s| && !Below(p, pos) ==> s'[p] == s[p]
  }

  lemma UntouchedByChild(s: seq<int>, s': seq<int>, pos: int)
    requires 0 <= pos && (Untouched(s, s', 2 * pos + 1) || Untouched(s, s', 2 * pos + 2))
    ensures Untouched(s, s', pos) && (pos < |s| ==> s'[pos] == s[pos])
  {
    forall p | 0 <= p < |s| && (p == pos || !Below(p, pos))
      ensures s'[p] == s[p]
    {
      if Below(p, 2 * pos + 1) || Below(p, 2 * pos + 2) {
        ChildBelow(p, pos);
      }
    }
  }

  /** The block at the head of `query` and `update`: hand the pending additions down. */
  method Push(seg: array<int>, lazy: array<int>, low: int, high: int, pos: int, ghost a: seq<int>)
    requires seg != lazy && seg.Length == lazy.Length
    requires Holds(seg[..], lazy[..], a, low, high, pos, 0)
    modifies seg, lazy
    ensures Holds(seg[..], lazy[..], a, low, high, pos, 0) && lazy[pos] == 0
    ensures Untouched(old(seg[..]), seg[..], pos) && Untouched(old(lazy[..]), lazy[..], pos)
  {
    if lazy[pos] != 0 {
      ghost var s, z, d := seg[..], lazy[..], lazy[pos];
      ghost var v := seg[pos] + lazy[pos] * (high - low + 1);
      Settle(s, z, a, v, low, high, pos, d);
      seg[pos] := seg[pos] + lazy[pos] * (high - low + 1);
      if low != high {
        lazy[2 * pos + 1] := lazy[2 * pos + 1] + lazy[pos];
        lazy[2 * pos + 2] := lazy[2 * pos + 2] + lazy[pos];
      }
      lazy[pos] := 0;
      assert seg[..] == s[pos := v];
      assert lazy[..] == ChildrenGet(z, low, high, pos, d)[pos := 0];
      PushUntouched(s, z, v, low, high, pos, d);
    }
  }

  lemma PushUntouched(s: seq<int>, z: seq<int>, v: int, low: int, high: int, pos: int, d: int)
    requires 0 <= pos < |s| == |z| && (low < high ==> 2 * pos + 2 < |z|)
    ensures Untouched(s, s[pos := v], pos) && Untouched(z, ChildrenGet(z, low, high, pos, d)[pos := 0], pos)
  {
    assert Below(pos, pos);
    assert Below(2 * pos + 1, pos) && Below(2 * pos + 2, pos) by {
      assert (2 * pos + 1 - 1) / 2 == pos && (2 * pos + 2 - 1) / 2 == pos;
    }
  }

  /** Work in one child's subtree leaves the other child's subtree as it was. */
  lemma SiblingHolds(s: seq<int>, z: seq<int>, s': seq<int>, z': seq<int>, a: seq<int>, l: int, h: int,
                     pos: int, c: int, e: int)
    requires |z| == |s| && 0 <= pos
    requires (c == 2 * pos + 1 && e == 2 * pos + 2) || (c == 2 * pos + 2 && e == 2 * pos + 1)
    requires Untouched(s, s', c) && Untouched(z, z', c) && Holds(s, z, a, l, h, e, 0)
    ensures Holds(s', z', a, l, h, e, 0)
  {
    forall p | 0 <= p < |s| && Below(p, e)
      ensures s'[p] == s[p] && z'[p] == z[p]
    {
      if Below(p, c) {
        SiblingsDisjoint(p, pos);
      }
    }
    HoldsFrame(s, z, a, s', z', a, l, h, e, 0);
  }

  /** A node with nothing pending whose value is the sum of its children. */
  lemma Parent(s: seq<int>, z: seq<int>, a: seq<int>, low: int, high: int, pos: int)
    requires |z| == |s| && 0 <= low < high < |a| && 0 <= pos < |s| && 2 * pos + 2 < |s|
    requires var mid := (low + high) / 2;
      Holds(s, z, a, low, mid, 2 * pos + 1, 0) && Holds(s, z, a, mid + 1, high, 2 * pos + 2, 0)
    requires z[pos] == 0 && z[2 * pos + 1] == 0 && z[2 * pos + 2] == 0
    ensures Holds(s[pos := s[2 * pos + 1] + s[2 * pos + 2]], z, a, low, high, pos, 0)
  {
    var mid := (low + high) / 2;
    SumSplits(a, low, mid + 1, high + 1);
    Settle(s, z, a, s[2 * pos + 1] + s[2 * pos + 2], low, high, pos, 0);
    assert ChildrenGet(z, low, high, pos, 0)[pos := 0] == z;
  }

  lemma Chain(s: seq<int>, s1: seq<int>, s2: seq<int>, pos: int)
    requires 0 <= pos && Untouched(s, s1, 2 * pos + 1) && Untouched(s1, s2, 2 * pos + 2)
    ensures Untouched(s, s2, pos) && (pos < |s| ==> s2[pos] == s[pos])
  {
    UntouchedByChild(s, s1, pos);
    UntouchedByChild(s1, s2, pos);
  }

  /** Builds the tree over arr[low..high]; no addition is pending anywhere (`z` is all zero). */
  method ConsTree(arr: array<int>, seg: array<int>, low: int, high: int, pos: int, ghost z: seq<int>)
    requires arr != seg && 0 <= low <= high < arr.Length && 0 <= pos && Fits(seg.Length, low, high, pos)
    requires |z| == seg.Length && forall p :: 0 <= p < |z| ==> z[p] == 0
    modifies seg
    ensures Holds(seg[..], z, arr[..], low, high, pos, 0) && Untouched(old(seg[..]), seg[..], pos)
    decreases high - low
  {
    if low == high {
      ghost var s := seg[..];
      seg[pos] := arr[low];
      Settle(s, z, arr[..], arr[low], low, high, pos, 0);
      assert seg[..] == s[pos := arr[low]] && ChildrenGet(z, low, high, pos, 0)[pos := 0] == z;
      assert Below(pos, pos);
      return;
    }
    var mid := (low + high) / 2;
    ghost var s := seg[..];
    ConsTree(arr, seg, low, mid, 2 * pos + 1, z);
    ghost var s1 := seg[..];
    ConsTree(arr, seg, mid + 1, high, 2 * pos + 2, z);
    ghost var s2 := seg[..];
    SiblingHolds(s1, z, s2, z, arr[..], low, mid, pos, 2 * pos + 2, 2 * pos + 1);
    Parent(s2, z, arr[..], low, high, pos);
    seg[pos] := seg[2 * pos + 1] + seg[2 * pos + 2];
    assert seg[..] == s2[pos := s2[2 * pos + 1] + s2[2 * pos + 2]];
    Chain(s, s1, s2, pos);
    assert Below(pos, pos);
  }

  /** The sum of the elements of a that lie in both ranges. */
  function CommonSum(a: seq<int>, qlow: int, qhigh: int, low: int, high: int): int
    requires 0 <= low && high < |a|
  {
    RangeSum(a, Max(qlow, low), Min(qhigh, high) + 1)
  }

  lemma CommonSplits(a: seq<int>, qlow: int, qhigh: int, low: int, mid: int, high: int)
    requires 0 <= low <= mid < high < |a| && qlow <= high && low <= qhigh
    ensures CommonSum(a, qlow, qhigh, low, high) ==
            CommonSum(a, qlow, qhigh, low, mid) + CommonSum(a, qlow, qhigh, mid + 1, high)
  {
    if qlow <= mid < qhigh {
      SumSplits(a, Max(qlow, low), mid + 1, Min(qhigh, high) + 1);
    }
  }

  /** Queries of both children leave the node right. */
  lemma BothQueried(s: seq<int>, z: seq<int>, s1: seq<int>, z1: seq<int>, s2: seq<int>, z2: seq<int>, a: seq<int>,
                    low: int, high: int, pos: int)
    requires |z| == |s| && Holds(s, z, a, low, high, pos, 0) && z[pos] == 0 && low < high
    requires Untouched(s, s1, 2 * pos + 1) && Untouched(z, z1, 2 * pos + 1)
    requires Untouched(s1, s2, 2 * pos + 2) && Untouched(z1, z2, 2 * pos + 2)
    requires Holds(s1, z1, a, low, (low + high) / 2, 2 * pos + 1, 0)
    requires Holds(s2, z2, a, (low + high) / 2 + 1, high, 2 * pos + 2, 0)
    ensures Holds(s2, z2, a, low, high, pos, 0) && Untouched(s, s2, pos) && Untouched(z, z2, pos)
  {
    SiblingHolds(s1, z1, s2, z2, a, low, (low + high) / 2, pos, 2 * pos + 2, 2 * pos + 1);
    Chain(s, s1, s2, pos);
    Chain(z, z1, z2, pos);
  }

  /** The value of a node with nothing pending. */
  lemma NodeSum(s: seq<int>, z: seq<int>, a: seq<int>, low: int, high: int, pos: int)
    requires |z| == |s| && Holds(s, z, a, low, high, pos, 0) && z[pos] == 0
    ensures s[pos] == RangeSum(a, low, high + 1)
  {
  }

  /** Returns the sum over the common range; the tree keeps describing the same array. */
  method Query(seg: array<int>, lazy: array<int>, qlow: int, qhigh: int, low: int, high: int, pos: int,
               ghost a: seq<int>)
      returns (sum: int)
    requires seg != lazy && seg.Length == lazy.Length
    requires Holds(seg[..], lazy[..], a, low, high, pos, 0)
    modifies seg, lazy
    ensures Holds(seg[..], lazy[..], a, low, high, pos, 0)
    ensures sum == CommonSum(a, qlow, qhigh, low, high)
    ensures Untouched(old(seg[..]), seg[..], pos) && Untouched(old(lazy[..]), lazy[..], pos)
    decreases high - low, 1
  {
    if qlow > high || qhigh < low {
      return 0;
    }
    Push(seg, lazy, low, high, pos, a);
    if qlow <= low && qhigh >= high {
      NodeSum(seg[..], lazy[..], a, low, high, pos);
      return seg[pos];
    }
    sum := QueryHalves(seg, lazy, qlow, qhigh, low, high, pos, a);
  }

  /** The two recursive calls of a query. */
  method QueryHalves(seg: array<int>, lazy: array<int>, qlow: int, qhigh: int, low: int, high: int, pos: int,
                     ghost a: seq<int>)
      returns (sum: int)
    requires seg != lazy && seg.Length == lazy.Length && low < high && qlow <= high && low <= qhigh
    requires Holds(seg[..], lazy[..], a, low, high, pos, 0) && lazy[pos] == 0
    modifies seg, lazy
    ensures Holds(seg[..], lazy[..], a, low, high, pos, 0)
    ensures sum == CommonSum(a, qlow, qhigh, low, high)
    ensures Untouched(old(seg[..]), seg[..], pos) && Untouched(old(lazy[..]), lazy[..], pos)
    decreases high - low, 0
  {
    var mid := (low + high) / 2;
    ghost var s, z := seg[..], lazy[..];
    var left := Query(seg, lazy, qlow, qhigh, low, mid, 2 * pos + 1, a);
    ghost var s1, z1 := seg[..], lazy[..];
    SiblingHolds(s, z, s1, z1, a, mid + 1, high, pos, 2 * pos + 1, 2 * pos + 2);
    var right := Query(seg, lazy, qlow, qhigh, mid + 1, high, 2 * pos + 2, a);
    BothQueried(s, z, s1, z1, seg[..], lazy[..], a, low, high, pos);
    CommonSplits(a, qlow, qhigh, low, mid, high);
    sum := left + right;
  }

  /** The update of a range that covers the whole node. */
  method AddToNode(seg: array<int>, lazy: array<int>, delta: int, low: int, high: int, pos: int,
                   ghost a: seq<int>, ghost a': seq<int>)
    requires seg != lazy && seg.Length == lazy.Length && |a'| == |a|
    requires Holds(seg[..], lazy[..], a, low, high, pos, 0) && lazy[pos] == 0
    requires forall i :: low <= i <= high ==> a'[i] == a[i] + delta
    modifies seg, lazy
    ensures Holds(seg[..], lazy[..], a', low, high, pos, 0) && lazy[pos] == 0
    ensures Untouched(old(seg[..]), seg[..], pos) && Untouched(old(lazy[..]), lazy[..], pos)
  {
    ghost var s, z := seg[..], lazy[..];
    HoldsShift(s, z, a, a', low, high, pos, 0, delta);
    SumShifts(a, a', low, high + 1, delta);
    ghost var v := seg[pos] + delta * (high - low + 1);
    Settle(s, z, a', v, low, high, pos, delta);
    seg[pos] := seg[pos] + delta * (high - low + 1);
    if low != high {
      lazy[2 * pos + 1] := lazy[2 * pos + 1] + delta;
      lazy[2 * pos + 2] := lazy[2 * pos + 2] + delta;
    }
    assert seg[..] == s[pos := v];
    assert lazy[..] == ChildrenGet(z, low, high, pos, delta)[pos := 0];
    PushUntouched(s, z, v, low, high, pos, delta);
  }

  /** Adds delta to the elements from start to end: the tree then describes the new array. */
  method Update(seg: array<int>, lazy: array<int>, start: int, end: int, delta: int, low: int, high: int, pos: int,
                ghost a: seq<int>)
    requires seg != lazy && seg.Length == lazy.Length
    requires Holds(seg[..], lazy[..], a, low, high, pos, 0)
    modifies seg, lazy
    ensures Holds(seg[..], lazy[..], Added(a, start, end, delta), low, high, pos, 0) && lazy[pos] == 0
    ensures Untouched(old(seg[..]), seg[..], pos) && Untouched(old(lazy[..]), lazy[..], pos)
    decreases high - low
  {
    ghost var a' := Added(a, start, end, delta);
    Push(seg, lazy, low, high, pos, a);
    if start > high || end < low {
      HoldsFrame(seg[..], lazy[..], a, seg[..], lazy[..], a', low, high, pos, 0);
      return;
    }
    if start <= low && end >= high {
      AddToNode(seg, lazy, delta, low, high, pos, a, a');
      return;
    }
    var mid := (low + high) / 2;
    ghost var s, z := seg[..], lazy[..];
    Update(seg, lazy, start, end, delta, low, mid, 2 * pos + 1, a);
    ghost var s1, z1 := seg[..], lazy[..];
    SiblingHolds(s, z, s1, z1, a, mid + 1, high, pos, 2 * pos + 1, 2 * pos + 2);
    Update(seg, lazy, start, end, delta, mid + 1, high, 2 * pos + 2, a);
    Recompute(seg, lazy, low, high, pos, a', s, z, s1, z1);
  }

  /** The last line of `update`, after both children were updated. */
  method Recompute(seg: array<int>, lazy: array<int>, low: int, high: int, pos: int, ghost a: seq<int>,
                   ghost s: seq<int>, ghost z: seq<int>, ghost s1: seq<int>, ghost z1: seq<int>)
    requires seg != lazy && seg.Length == lazy.Length && 0 <= low < high < |a| && 0 <= pos < seg.Length
    requires Untouched(s, s1, 2 * pos + 1) && Untouched(z, z1, 2 * pos + 1) && |z| == |s| && pos < |z| && z[pos] == 0
    requires Untouched(s1, seg[..], 2 * pos + 2) && Untouched(z1, lazy[..], 2 * pos + 2)
    requires Holds(s1, z1, a, low, (low + high) / 2, 2 * pos + 1, 0) && z1[2 * pos + 1] == 0
    requires Holds(seg[..], lazy[..], a, (low + high) / 2 + 1, high, 2 * pos + 2, 0) && lazy[2 * pos + 2] == 0
    modifies seg
    ensures Holds(seg[..], lazy[..], a, low, high, pos, 0) && lazy[pos] == 0
    ensures Untouched(s, seg[..], pos) && Untouched(z, lazy[..], pos)
  {
    ghost var s2, z2 := seg[..], lazy[..];
    SiblingHolds(s1, z1, s2, z2, a, low, (low + high) / 2, pos, 2 * pos + 2, 2 * pos + 1);
    assert !Below(2 * pos + 1, 2 * pos + 2);
    Chain(s, s1, s2, pos);
    Chain(z, z1, z2, pos);
    Parent(s2, z2, a, low, high, pos);
    seg[pos] := seg[2 * pos + 1] + seg[2 * pos + 2];
    assert seg[..] == s2[pos := s2[2 * pos + 1] + s2[2 * pos + 2]];
    assert Below(pos, pos);
  }

  // ---------------------------------------------------------------- whole runs

  /** One line of input; positions count from 1. */
  datatype Command = AddRange(p: int, q: int, v: int) | Ask(p: int, q: int)

  /** The plain array after one command, and what it prints. */
  function ArrayNext(a: seq<int>, c: Command): (r: seq<int>)
    ensures |r| == |a|
  {
    match c
    case AddRange(p, q, v) => Added(a, p - 1, q - 1, v)
    case Ask(_, _) => a
  }

  function Printed(a: seq<int>, c: Command): seq<int> {
    match c
    case AddRange(_, _, _) => []
    case Ask(p, q) => [CommonSum(a, p - 1, q - 1, 0, |a| - 1)]
  }

  function ArrayAfter(a: seq<int>, cs: seq<Command>): (r: seq<int>)
    ensures |r| == |a|
  {
    if cs == [] then a else ArrayNext(ArrayAfter(a, cs[..|cs| - 1]), cs[|cs| - 1])
  }

  /** What a plain array prints for the same commands. */
  function Answers(a: seq<int>, cs: seq<Command>): seq<int> {
    if cs == [] then []
    else Answers(a, cs[..|cs| - 1]) + Printed(ArrayAfter(a, cs[..|cs| - 1]), cs[|cs| - 1])
  }

  lemma OneMore(a: seq<int>, cs: seq<Command>, i: nat)
    requires i < |cs|
    ensures ArrayAfter(a, cs[..i + 1]) == ArrayNext(ArrayAfter(a, cs[..i]), cs[i])
    ensures Answers(a, cs[..i + 1]) == Answers(a, cs[..i]) + Printed(ArrayAfter(a, cs[..i]), cs[i])
  {
    assert cs[..i + 1][..i] == cs[..i];
  }

  // ---------------------------------------------------------------- the answers in closed form

  /** How many of the commands ask. */
  function AskCount(cs: seq<Command>): nat {
    if cs == [] then 0 else AskCount(cs[..|cs| - 1]) + if cs[|cs| - 1].Ask? then 1 else 0
  }

  /** What the commands add at position `x`, counted from 1. */
  function AddedAt(cs: seq<Command>, x: int): int {
    if cs == [] then 0
    else
      var c := cs[|cs| - 1];
      AddedAt(cs[..|cs| - 1], x) + if c.AddRange? && c.p <= x <= c.q then c.v else 0
  }

  /** The sum over the positions `x` from 1 to `m` with p <= x <= q of the element there and all that was
      added to it. */
  function AskedSum(a: seq<int>, cs: seq<Command>, p: int, q: int, m: nat): int
    requires m <= |a|
  {
    if m == 0 then 0
    else AskedSum(a, cs, p, q, m - 1) + if p <= m <= q then a[m - 1] + AddedAt(cs, m) else 0
  }

  lemma {:induction false} ElementAfter(a: seq<int>, cs: seq<Command>, x: int)
    requires 1 <= x <= |a|
    ensures ArrayAfter(a, cs)[x - 1] == a[x - 1] + AddedAt(cs, x)
    decreases |cs|
  {
    if cs != [] {
      ElementAfter(a, cs[..|cs| - 1], x);
    }
  }

  lemma {:induction false} RangeIsAsked(a: seq<int>, cs: seq<Command>, p: int, q: int, m: nat)
    requires m <= |a|
    ensures RangeSum(ArrayAfter(a, cs), Max(p - 1, 0), Min(q - 1, m - 1) + 1) == AskedSum(a, cs, p, q, m)
    decreases m
  {
    if m > 0 {
      RangeIsAsked(a, cs, p, q, m - 1);
      if p <= m <= q {
        ElementAfter(a, cs, m);
      }
    }
  }

  lemma {:induction false} AnswersCount(a: seq<int>, cs: seq<Command>)
    ensures |Answers(a, cs)| == AskCount(cs)
    decreases |cs|
  {
    if cs != [] {
      AnswersCount(a, cs[..|cs| - 1]);
    }
  }

  /** The answer to command `i` in closed form, at its place among the answers. */
  lemma {:induction false} AnswerAt(a: seq<int>, cs: seq<Command>, i: nat)
    requires i < |cs| && cs[i].Ask?
    ensures AskCount(cs[..i]) < |Answers(a, cs)|
    ensures Answers(a, cs)[AskCount(cs[..i])] == AskedSum(a, cs[..i], cs[i].p, cs[i].q, |a|)
    decreases |cs|
  {
    var n := |cs| - 1;
    AnswersCount(a, cs[..n]);
    if i < n {
      AnswerAt(a, cs[..n], i);
      assert cs[..n][..i] == cs[..i];
    } else {
      RangeIsAsked(a, cs[..i], cs[i].p, cs[i].q, |a|);
    }
  }

  /** Positions count from 1 and both ends of a range belong to it. */
  lemma AddsWhereAsked(v: int)
    ensures AskedSum([0, 0, 0], [AddRange(1, 2, v)], 1, 1, 3) == v
    ensures AskedSum([0, 0, 0], [AddRange(1, 2, v)], 2, 2, 3) == v
    ensures AskedSum([0, 0, 0], [AddRange(1, 2, v)], 3, 3, 3) == 0
  {
    var cs := [AddRange(1, 2, v)];
    assert cs[..0] == [];
    assert AddedAt(cs, 1) == v && AddedAt(cs, 2) == v && AddedAt(cs, 3) == 0;
    var a := [0, 0, 0];
    assert AskedSum(a, cs, 1, 1, 1) == v && AskedSum(a, cs, 2, 2, 1) == 0 && AskedSum(a, cs, 3, 3, 1) == 0;
    assert AskedSum(a, cs, 1, 1, 2) == v && AskedSum(a, cs, 2, 2, 2) == v && AskedSum(a, cs, 3, 3, 2) == 0;
  }

  // ---------------------------------------------------------------- running the commands

  /** The whole tree describes the array. */
  ghost predicate Describes(s: seq<int>, z: seq<int>, a: seq<int>, n: int) {
    |z| == |s| && |a| == n && Holds(s, z, a, 0, n - 1, 0, 0)
  }

  method UpdateAll(seg: array<int>, lazy: array<int>, start: int, end: int, delta: int, n: int, ghost a: seq<int>)
    requires seg != lazy && seg.Length == lazy.Length && Describes(seg[..], lazy[..], a, n)
    modifies seg, lazy
    ensures Describes(seg[..], lazy[..], Added(a, start, end, delta), n)
  {
    Update(seg, lazy, start, end, delta, 0, n - 1, 0, a);
  }

  method QueryAll(seg: array<int>, lazy: array<int>, qlow: int, qhigh: int, n: int, ghost a: seq<int>)
      returns (sum: int)
    requires seg != lazy && seg.Length == lazy.Length && Describes(seg[..], lazy[..], a, n)
    modifies seg, lazy
    ensures Describes(seg[..], lazy[..], a, n) && sum == CommonSum(a, qlow, qhigh, 0, n - 1)
  {
    sum := Query(seg, lazy, qlow, qhigh, 0, n - 1, 0, a);
  }

  method Execute(seg: array<int>, lazy: array<int>, n: int, c: Command, ghost a: seq<int>) returns (out: seq<int>)
    requires seg != lazy && seg.Length == lazy.Length && |a| == n && Describes(seg[..], lazy[..], a, n)
    modifies seg, lazy
    ensures Describes(seg[..], lazy[..], ArrayNext(a, c), n)
    ensures out == Printed(a, c)
    ensures c.AddRange? ==> out == [] && Describes(seg[..], lazy[..], Added(a, c.p - 1, c.q - 1, c.v), n)
    ensures c.Ask? ==> out == [AskedSum(a, [], c.p, c.q, n)] && Describes(seg[..], lazy[..], a, n)
  {
    out := [];
    match c {
      case AddRange(p, q, v) =>
        UpdateAll(seg, lazy, p - 1, q - 1, v, n, a);
      case Ask(p, q) =>
        var sum := QueryAll(seg, lazy, p - 1, q - 1, n, a);
        RangeIsAsked(a, [], p, q, n);
        out := [sum];
    }
  }

  /** The tree prints, for every sequence of commands, what a plain array would print. */
  method RunCommands(arr: array<int>, cs: seq<Command>) returns (out: seq<int>)
    requires arr.Length >= 1
    ensures out == Answers(arr[..], cs)
    ensures |out| == AskCount(cs)
    ensures forall i :: 0 <= i < |cs| && cs[i].Ask? ==>
      && AskCount(cs[..i]) < |out|
      && out[AskCount(cs[..i])] == AskedSum(arr[..], cs[..i], cs[i].p, cs[i].q, arr.Length)
  {
    var n := arr.Length;
    var seg, lazy := new int[4 * n], new int[4 * n](_ => 0);
    FourTimesFits(n);
    ConsTree(arr, seg, 0, n - 1, 0, lazy[..]);
    ghost var a := arr[..];
    assert Describes(seg[..], lazy[..], a, n);
    out := [];
    for i := 0 to |cs|
      invariant Describes(seg[..], lazy[..], ArrayAfter(a, cs[..i]), n)
      invariant out == Answers(a, cs[..i])
    {
      OneMore(a, cs, i);
      var printed := Execute(seg, lazy, n, cs[i], ArrayAfter(a, cs[..i]));
      out := out + printed;
    }
    assert cs[..|cs|] == cs;
    AnswersCount(a, cs);
    forall i | 0 <= i < |cs| && cs[i].Ask?
      ensures AskCount(cs[..i]) < |out| && out[AskCount(cs[..i])] == AskedSum(a, cs[..i], cs[i].p, cs[i].q, |a|)
    {
      AnswerAt(a, cs, i);
    }
  }
}
