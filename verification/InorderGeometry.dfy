/** The numbering of a binary tree's nodes in inorder: every subtree is an interval. */
module InorderGeometry {
  import opened Wrappers

  datatype Tree<T> = Nil | Bin(left: Tree<T>, node: T, right: Tree<T>)

  function Inorder<T>(t: Tree<T>): seq<T> {
    match t
    case Nil => []
    case Bin(l, n, r) => Inorder(l) + [n] + Inorder(r)
  }

  /** The subtree of a node: its nodes are numbered `lo` to `hi - 1`; `lc` and `rc` number the
      children, None when there is no child. */
  datatype Span = Span(lo: int, hi: int, lc: Option<int>, rc: Option<int>)

  /** The number of the root when the subtree's numbers start at `off`. */
  function RootNumber<T>(t: Tree<T>, off: int): Option<int> {
    if t.Nil? then None else Some(off + |Inorder(t.left)|)
  }

  function Spans<T>(t: Tree<T>, off: int): (s: seq<Span>)
    ensures |s| == |Inorder(t)|
  {
    match t
    case Nil => []
    case Bin(l, n, r) =>
      var m := off + |Inorder(l)|;
      Spans(l, off) + [Span(off, off + |Inorder(t)|, RootNumber(l, off), RootNumber(r, m + 1))] + Spans(r, m + 1)
  }

  // ---------------------------------------------------------------- what the numbering satisfies

  /** The children's intervals are what is left and right of node `off + i` in its own interval. */
  ghost predicate Nested(s: seq<Span>, off: int, i: int)
    requires 0 <= i < |s|
  {
    var x := off + i;
    && off <= s[i].lo <= x < s[i].hi <= off + |s|
    && (s[i].lc.None? <==> s[i].lo == x)
    && (s[i].lc.Some? ==>
          && s[i].lo <= s[i].lc.value < x
          && s[s[i].lc.value - off].lo == s[i].lo && s[s[i].lc.value - off].hi == x)
    && (s[i].rc.None? <==> s[i].hi == x + 1)
    && (s[i].rc.Some? ==>
          && x < s[i].rc.value < s[i].hi
          && s[s[i].rc.value - off].lo == x + 1 && s[s[i].rc.value - off].hi == s[i].hi)
  }

  /** Of two nodes, one is in the other's left or right subtree, or their intervals are disjoint. */
  ghost predicate Laminar(s: seq<Span>, off: int, i: int, j: int)
    requires 0 <= i < j < |s|
  {
    || (off + j < s[i].hi && off + i < s[j].lo && s[j].hi <= s[i].hi)
    || (s[j].lo <= off + i && s[i].hi <= off + j && s[j].lo <= s[i].lo)
    || s[i].hi <= s[j].lo
  }

  /** Of two neighbours in inorder, one is above the other. */
  ghost predicate Related(s: seq<Span>, off: int, i: int)
    requires 0 <= i < |s| - 1
  {
    s[i + 1].lo <= off + i || off + i + 1 < s[i].hi
  }

  ghost predicate Geometry(s: seq<Span>, off: int) {
    && (forall i :: 0 <= i < |s| ==> Nested(s, off, i))
    && (forall i, j :: 0 <= i < j < |s| ==> Laminar(s, off, i, j))
    && (forall i :: 0 <= i < |s| - 1 ==> Related(s, off, i))
  }

  /** `mid` is the span of a new root over the numberings `a` and `b`. */
  ghost predicate Roots(a: seq<Span>, mid: Span, b: seq<Span>, off: int) {
    && mid.lo == off && mid.hi == off + |a| + 1 + |b|
    && (mid.lc.None? <==> a == [])
    && (mid.lc.Some? ==> var l := mid.lc.value - off; 0 <= l < |a| && a[l].lo == off && a[l].hi == off + |a|)
    && (mid.rc.None? <==> b == [])
    && (mid.rc.Some? ==>
          var r := mid.rc.value - off - |a| - 1; 0 <= r < |b| && b[r].lo == off + |a| + 1 && b[r].hi == mid.hi)
  }

  lemma NestedCompose(a: seq<Span>, mid: Span, b: seq<Span>, off: int, i: int)
    requires Geometry(a, off) && Geometry(b, off + |a| + 1) && Roots(a, mid, b, off)
    requires 0 <= i < |a| + 1 + |b|
    ensures Nested(a + [mid] + b, off, i)
  {
    var k := |a|;
    if i < k {
      assert Nested(a, off, i);
    } else if i > k {
      assert Nested(b, off + k + 1, i - k - 1);
    }
  }

  lemma LaminarCompose(a: seq<Span>, mid: Span, b: seq<Span>, off: int, i: int, j: int)
    requires Geometry(a, off) && Geometry(b, off + |a| + 1) && Roots(a, mid, b, off)
    requires 0 <= i < j < |a| + 1 + |b|
    ensures Laminar(a + [mid] + b, off, i, j)
  {
    var k := |a|;
    if j < k {
      assert Laminar(a, off, i, j);
    } else if i > k {
      assert Laminar(b, off + k + 1, i - k - 1, j - k - 1);
    } else {
      assert i < k ==> Nested(a, off, i);
      assert j > k ==> Nested(b, off + k + 1, j - k - 1);
    }
  }

  lemma RelatedCompose(a: seq<Span>, mid: Span, b: seq<Span>, off: int, i: int)
    requires Geometry(a, off) && Geometry(b, off + |a| + 1) && Roots(a, mid, b, off)
    requires 0 <= i < |a| + |b|
    ensures Related(a + [mid] + b, off, i)
  {
    var k := |a|;
    if i + 1 < k {
      assert Related(a, off, i);
    } else if i > k {
      assert Related(b, off + k + 1, i - k - 1);
    }
  }

  lemma Compose(a: seq<Span>, mid: Span, b: seq<Span>, off: int)
    requires Geometry(a, off) && Geometry(b, off + |a| + 1) && Roots(a, mid, b, off)
    ensures Geometry(a + [mid] + b, off)
  {
    var s := a + [mid] + b;
    forall i | 0 <= i < |s|
      ensures Nested(s, off, i)
    {
      NestedCompose(a, mid, b, off, i);
    }
    forall i, j | 0 <= i < j < |s|
      ensures Laminar(s, off, i, j)
    {
      LaminarCompose(a, mid, b, off, i, j);
    }
    forall i | 0 <= i < |s| - 1
      ensures Related(s, off, i)
    {
      RelatedCompose(a, mid, b, off, i);
    }
  }

  lemma RootSpan<T>(t: Tree<T>, off: int)
    requires t.Bin?
    ensures var m := |Inorder(t.left)|;
      && Spans(t, off)[m] == Span(off, off + |Inorder(t)|, RootNumber(t.left, off), RootNumber(t.right, off + m + 1))
  {
  }

  lemma RootsOf<T>(t: Tree<T>, off: int)
    requires t.Bin?
    ensures var m := off + |Inorder(t.left)|;
      Roots(Spans(t.left, off), Spans(t, off)[m - off], Spans(t.right, m + 1), off)
  {
    RootSpan(t, off);
    if t.left.Bin? {
      RootSpan(t.left, off);
    }
    if t.right.Bin? {
      RootSpan(t.right, off + |Inorder(t.left)| + 1);
    }
  }

  /** The numbering of every tree is geometric. */
  lemma {:induction false} SpansAreGeometric<T>(t: Tree<T>, off: int)
    ensures Geometry(Spans(t, off), off)
  {
    if t.Bin? {
      var m := off + |Inorder(t.left)|;
      SpansAreGeometric(t.left, off);
      SpansAreGeometric(t.right, m + 1);
      RootsOf(t, off);
      RootSpan(t, off);
      Compose(Spans(t.left, off), Spans(t, off)[m - off], Spans(t.right, m + 1), off);
    }
  }
}
