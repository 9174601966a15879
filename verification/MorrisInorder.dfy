/** Morris traversal, algorithms/cpp/Datastructures/MorrisInorder.cpp: it writes threads into null
    right pointers while it runs and takes every one of them out again. */
module MorrisInorder {
  import opened InorderGeometry
  import opened Wrappers

  class Node {
    var data: int
    var left: Node?
    var right: Node?
  }

  // ---------------------------------------------------------------- a tree in the heap

  function RootOf(t: Tree<Node>): Node? {
    if t.Nil? then null else t.node
  }

  /** The pointers of the nodes follow the tree. */
  ghost predicate Stands(t: Tree<Node>, nodes: set<Node>)
    reads nodes
  {
    t.Bin? ==>
      && t.node in nodes
      && t.node.left == RootOf(t.left) && t.node.right == RootOf(t.right)
      && Stands(t.left, nodes) && Stands(t.right, nodes)
  }

  ghost predicate Distinct(s: seq<Node>) {
    forall i, j :: 0 <= i < j < |s| ==> s[i] != s[j]
  }

  function Data(s: seq<Node>): (d: seq<int>)
    reads s
    ensures |d| == |s| && forall i :: 0 <= i < |s| ==> d[i] == s[i].data
  {
    seq(|s|, i requires 0 <= i < |s| reads s => s[i].data)
  }

  /** The node numbered `x`. */
  function Numbered(s: seq<Node>, x: Option<int>, off: int): Node? {
    if x.Some? && 0 <= x.value - off < |s| then s[x.value - off] else null
  }

  ghost predicate Links(s: seq<Node>, sp: seq<Span>, off: int, i: int)
    requires |sp| == |s| && 0 <= i < |s|
    reads s
  {
    s[i].left == Numbered(s, sp[i].lc, off) && s[i].right == Numbered(s, sp[i].rc, off)
  }

  /** Numbers of a part are numbers of the whole. */
  lemma LinksInWhole(part: seq<Node>, pre: seq<Node>, post: seq<Node>,
                     sp: seq<Span>, spre: seq<Span>, spost: seq<Span>, off: int, i: int)
    requires |sp| == |part| && |spre| == |pre| && |spost| == |post| && 0 <= i < |part|
    requires Geometry(sp, off + |pre|) && Links(part, sp, off + |pre|, i)
    ensures Links(pre + part + post, spre + sp + spost, off, |pre| + i)
  {
    assert Nested(sp, off + |pre|, i);
    assert (pre + part + post)[|pre| + i] == part[i] && (spre + sp + spost)[|pre| + i] == sp[i];
  }

  lemma RootAt(t: Tree<Node>, off: int)
    ensures Numbered(Inorder(t), RootNumber(t, off), off) == RootOf(t)
  {
  }

  lemma RootLinks(t: Tree<Node>, nodes: set<Node>, off: int)
    requires Stands(t, nodes) && t.Bin?
    ensures Links(Inorder(t), Spans(t, off), off, |Inorder(t.left)|)
  {
    var k := |Inorder(t.left)|;
    RootSpan(t, off);
    RootAt(t.left, off);
    RootAt(t.right, off + k + 1);
    assert Inorder(t)[k] == t.node;
  }

  lemma LeftLinks(t: Tree<Node>, off: int, i: int)
    requires t.Bin? && 0 <= i < |Inorder(t.left)| && Links(Inorder(t.left), Spans(t.left, off), off, i)
    ensures Links(Inorder(t), Spans(t, off), off, i)
  {
    var l, r := Inorder(t.left), Inorder(t.right);
    var sl, sr, mid := Spans(t.left, off), Spans(t.right, off + |l| + 1), Spans(t, off)[|l|];
    SpansAreGeometric(t.left, off);
    RootSpan(t, off);
    LinksInWhole(l, [], [t.node] + r, sl, [], [mid] + sr, off, i);
    assert [] + l + ([t.node] + r) == Inorder(t);
    assert [] + sl + ([mid] + sr) == Spans(t, off);
  }

  lemma RightLinks(t: Tree<Node>, off: int, i: int)
    requires t.Bin? && 0 <= i < |Inorder(t.right)|
    requires var m := off + |Inorder(t.left)| + 1; Links(Inorder(t.right), Spans(t.right, m), m, i)
    ensures Links(Inorder(t), Spans(t, off), off, |Inorder(t.left)| + 1 + i)
  {
    var l, r := Inorder(t.left), Inorder(t.right);
    var sl, sr, mid := Spans(t.left, off), Spans(t.right, off + |l| + 1), Spans(t, off)[|l|];
    SpansAreGeometric(t.right, off + |l| + 1);
    RootSpan(t, off);
    LinksInWhole(r, l + [t.node], [], sr, sl + [mid], [], off, i);
    assert l + [t.node] + r + [] == Inorder(t);
    assert sl + [mid] + sr + [] == Spans(t, off);
  }

  lemma {:induction false} LinksOf(t: Tree<Node>, nodes: set<Node>, off: int, i: int)
    requires Stands(t, nodes) && 0 <= i < |Inorder(t)|
    ensures Links(Inorder(t), Spans(t, off), off, i)
  {
    var k := |Inorder(t.left)|;
    if i < k {
      LinksOf(t.left, nodes, off, i);
      LeftLinks(t, off, i);
    } else if i == k {
      RootLinks(t, nodes, off);
    } else {
      LinksOf(t.right, nodes, off + k + 1, i - k - 1);
      RightLinks(t, off, i - k - 1);
    }
  }

  // ---------------------------------------------------------------- where the threads are

  /** The node before `a` points to `a` while the traversal stands at number `c`: `a` has a left
      subtree and `c` lies in it.  On the second visit of a node its own thread is still there. */
  ghost predicate Threaded(sp: seq<Span>, a: int, c: int, second: bool)
    requires 0 <= a < |sp|
  {
    sp[a].lo < a && sp[a].lo <= c && (c < a || (second && c == a))
  }

  ghost predicate SameThreads(sp: seq<Span>, c: int, second: bool, c': int, second': bool) {
    forall a :: 0 <= a < |sp| ==> (Threaded(sp, a, c, second) <==> Threaded(sp, a, c', second'))
  }

  /** Only null right pointers carry threads. */
  lemma ThreadNeedsNull(sp: seq<Span>, a: int)
    requires Geometry(sp, 0) && 0 < a < |sp| && sp[a].lo < a
    ensures sp[a - 1].rc.None? && sp[a - 1].hi == a
  {
    assert Nested(sp, 0, a) && Nested(sp, 0, a - 1) && Laminar(sp, 0, a - 1, a);
  }

  lemma NoThreadsAtRoot(sp: seq<Span>, c: int)
    requires Geometry(sp, 0) && 0 <= c < |sp| && sp[c].lo == 0 && sp[c].hi == |sp|
    ensures forall a :: 0 <= a < |sp| ==> !Threaded(sp, a, c, false)
  {
    forall a | 0 <= a < |sp|
      ensures !Threaded(sp, a, c, false)
    {
      if c < a {
        assert Nested(sp, 0, a) && Laminar(sp, 0, c, a);
      }
    }
  }

  /** Going down to the left child adds the one thread just written. */
  lemma ThreadsGoingLeft(sp: seq<Span>, c: int)
    requires Geometry(sp, 0) && 0 <= c < |sp| && sp[c].lc.Some?
    ensures forall a :: 0 <= a < |sp| ==>
      (Threaded(sp, a, sp[c].lc.value, false) <==> Threaded(sp, a, c, false) || a == c)
  {
    var l := sp[c].lc.value;
    assert Nested(sp, 0, c);
    forall a | 0 <= a < |sp|
      ensures Threaded(sp, a, l, false) <==> Threaded(sp, a, c, false) || a == c
    {
      if a < c {
        assert l < a ==> Laminar(sp, 0, l, a);
      } else if a > c {
        assert Laminar(sp, 0, c, a) && Nested(sp, 0, a);
      }
    }
  }

  /** Leaving a node for its right child keeps the threads. */
  lemma ThreadsGoingRight(sp: seq<Span>, c: int)
    requires Geometry(sp, 0) && 0 <= c < |sp| && sp[c].rc.Some?
    ensures SameThreads(sp, c, false, sp[c].rc.value, false)
    ensures c + 1 < |sp| && !Threaded(sp, c + 1, c, false)
  {
    var r := sp[c].rc.value;
    assert Nested(sp, 0, c) && Nested(sp, 0, c + 1) && Laminar(sp, 0, c, c + 1);
    forall a | 0 <= a < |sp|
      ensures Threaded(sp, a, c, false) <==> Threaded(sp, a, r, false)
    {
      assert Nested(sp, 0, a);
      if c < a {
        assert Laminar(sp, 0, c, a);
      }
      if r < a {
        assert Laminar(sp, 0, r, a);
      }
    }
  }

  /** Leaving a node without right child follows its thread, to the second visit of the next node. */
  lemma ThreadsGoingBack(sp: seq<Span>, c: int)
    requires Geometry(sp, 0) && 0 <= c < |sp| - 1 && sp[c].rc.None?
    ensures SameThreads(sp, c, false, c + 1, true)
    ensures Threaded(sp, c + 1, c, false)
  {
    assert Nested(sp, 0, c) && Nested(sp, 0, c + 1) && Related(sp, 0, c);
    forall a | 0 <= a < |sp|
      ensures Threaded(sp, a, c, false) <==> Threaded(sp, a, c + 1, true)
    {
      if c + 1 < a {
        assert Laminar(sp, 0, c + 1, a);
      }
    }
  }

  // ---------------------------------------------------------------- the heap during the run

  /** Left pointers are as given; right pointers are as given or threads. */
  ghost predicate HeapAt(s: seq<Node>, sp: seq<Span>, c: int, second: bool)
    requires |sp| == |s|
    reads s
  {
    forall i :: 0 <= i < |s| ==> NodeAt(s, sp, c, second, i)
  }

  ghost predicate NodeAt(s: seq<Node>, sp: seq<Span>, c: int, second: bool, i: int)
    requires |sp| == |s| && 0 <= i < |s|
    reads s
  {
    && s[i].left == Numbered(s, sp[i].lc, 0)
    && s[i].right == if i + 1 < |s| && Threaded(sp, i + 1, c, second) then s[i + 1] else Numbered(s, sp[i].rc, 0)
  }

  lemma SameHeap(s: seq<Node>, sp: seq<Span>, c: int, second: bool, c': int, second': bool)
    requires |sp| == |s| && HeapAt(s, sp, c, second) && SameThreads(sp, c, second, c', second')
    ensures HeapAt(s, sp, c', second')
  {
    forall i | 0 <= i < |s|
      ensures NodeAt(s, sp, c', second', i)
    {
      assert NodeAt(s, sp, c, second, i);
    }
  }

  /** The inner loop: down the right pointers of the left subtree to the node before `curr`. */
  method Predecessor(curr: Node, ghost s: seq<Node>, ghost sp: seq<Span>, ghost c: int, ghost second: bool)
      returns (temp: Node)
    requires |sp| == |s| && Geometry(sp, 0) && Distinct(s) && HeapAt(s, sp, c, second)
    requires 0 <= c < |s| && curr == s[c] && sp[c].lc.Some?
    ensures c > 0 && temp == s[c - 1]
    ensures temp.right == if second then curr else null
  {
    assert Nested(sp, 0, c) && NodeAt(s, sp, c, second, c);
    temp := curr.left;
    ghost var t := sp[c].lc.value;
    while temp.right != null && temp.right != curr
      invariant 0 <= t < c && temp == s[t] && sp[t].hi == c
      decreases c - t
    {
      assert NodeAt(s, sp, c, second, t) && Nested(sp, 0, t) && Nested(sp, 0, t + 1);
      assert t + 1 < c ==> Laminar(sp, 0, t + 1, c) && Laminar(sp, 0, t, t + 1);
      temp := temp.right;
      t := sp[t].rc.value;
    }
    assert NodeAt(s, sp, c, second, t) && Nested(sp, 0, t);
  }

  /** How many nodes were emitted when the traversal stands at number `c`. */
  ghost function Emitted(sp: seq<Span>, c: int, second: bool): int
    requires 0 <= c <= |sp|
  {
    if c < |sp| && !second then sp[c].lo else c
  }

  /** Where the traversal goes from number `c` once it has emitted it. */
  ghost function NextNumber(sp: seq<Span>, c: int): (int, bool)
    requires 0 <= c < |sp|
  {
    if sp[c].rc.Some? then (sp[c].rc.value, false) else (c + 1, c + 1 < |sp|)
  }

  /** After `c` was emitted and its own thread removed, its right pointer leads to the next node. */
  lemma Leaving(s: seq<Node>, sp: seq<Span>, c: int)
    requires |sp| == |s| && Geometry(sp, 0) && HeapAt(s, sp, c, false) && 0 <= c < |s|
    ensures var (c', second) := NextNumber(sp, c);
      && c < c' <= |s| && (second ==> c' < |s| && sp[c'].lc.Some?)
      && HeapAt(s, sp, c', second)
      && Emitted(sp, c', second) == c + 1
      && s[c].right == if c' < |s| then s[c'] else null
  {
    assert Nested(sp, 0, c) && NodeAt(s, sp, c, false, c);
    var (c', second) := NextNumber(sp, c);
    if sp[c].rc.Some? {
      ThreadsGoingRight(sp, c);
    } else if c + 1 < |s| {
      ThreadsGoingBack(sp, c);
      assert Nested(sp, 0, c + 1);
    }
    SameHeap(s, sp, c, false, c', second);
  }

  /** No threads: all pointers are those of the tree. */
  ghost predicate AsGiven(s: seq<Node>, sp: seq<Span>)
    requires |sp| == |s|
    reads s
  {
    forall i :: 0 <= i < |s| ==> Links(s, sp, 0, i)
  }

  lemma StartHeap(t: Tree<Node>)
    requires Stands(t, set n | n in Inorder(t))
    ensures Geometry(Spans(t, 0), 0) && AsGiven(Inorder(t), Spans(t, 0))
    ensures t.Bin? ==>
      && HeapAt(Inorder(t), Spans(t, 0), |Inorder(t.left)|, false)
      && Inorder(t)[|Inorder(t.left)|] == t.node
      && Emitted(Spans(t, 0), |Inorder(t.left)|, false) == 0
  {
    var s, sp := Inorder(t), Spans(t, 0);
    SpansAreGeometric(t, 0);
    forall i | 0 <= i < |s|
      ensures Links(s, sp, 0, i)
    {
      LinksOf(t, set n | n in s, 0, i);
    }
    if t.Bin? {
      RootSpan(t, 0);
      HeapAtRoot(s, sp, |Inorder(t.left)|);
    }
  }

  lemma HeapAtRoot(s: seq<Node>, sp: seq<Span>, c: int)
    requires |sp| == |s| && AsGiven(s, sp) && Geometry(sp, 0)
    requires 0 <= c < |sp| && sp[c].lo == 0 && sp[c].hi == |sp|
    ensures HeapAt(s, sp, c, false)
  {
    NoThreadsAtRoot(sp, c);
    forall i | 0 <= i < |s|
      ensures NodeAt(s, sp, c, false, i)
    {
      assert Links(s, sp, 0, i);
    }
  }

  lemma HeapAtEnd(s: seq<Node>, sp: seq<Span>)
    requires |sp| == |s| && HeapAt(s, sp, |s|, false)
    ensures AsGiven(s, sp)
  {
    forall i | 0 <= i < |s|
      ensures Links(s, sp, 0, i)
    {
      assert NodeAt(s, sp, |s|, false, i);
    }
  }

  /** First visit of a node with a left subtree: write the thread and go left. */
  method Descend(curr: Node, temp: Node, ghost s: seq<Node>, ghost sp: seq<Span>, ghost c: int)
    requires |sp| == |s| && Geometry(sp, 0) && Distinct(s) && HeapAt(s, sp, c, false)
    requires 0 < c < |s| && curr == s[c] && sp[c].lc.Some? && temp == s[c - 1]
    modifies temp
    ensures HeapAt(s, sp, sp[c].lc.value, false) && Data(s) == old(Data(s))
    ensures 0 <= sp[c].lc.value < c && curr.left == s[sp[c].lc.value]
  {
    assert Nested(sp, 0, c);
    ThreadNeedsNull(sp, c);
    ThreadsGoingLeft(sp, c);
    temp.right := curr;
    forall i | 0 <= i < |s|
      ensures NodeAt(s, sp, sp[c].lc.value, false, i)
    {
      assert old(NodeAt(s, sp, c, false, i));
    }
    assert NodeAt(s, sp, sp[c].lc.value, false, c);
  }

  /** Second visit: take the thread out. */
  method Unthread(temp: Node, ghost s: seq<Node>, ghost sp: seq<Span>, ghost c: int)
    requires |sp| == |s| && Geometry(sp, 0) && Distinct(s) && HeapAt(s, sp, c, true)
    requires 0 < c < |s| && sp[c].lc.Some? && temp == s[c - 1]
    modifies temp
    ensures HeapAt(s, sp, c, false) && Data(s) == old(Data(s))
  {
    assert Nested(sp, 0, c);
    ThreadNeedsNull(sp, c);
    temp.right := null;
    forall i | 0 <= i < |s|
      ensures NodeAt(s, sp, c, false, i)
    {
      assert old(NodeAt(s, sp, c, true, i));
    }
  }

  /** The traversal stands at number `c` and has emitted what comes before. */
  ghost predicate Running(s: seq<Node>, sp: seq<Span>, data: seq<int>, curr: Node?, out: seq<int>, c: int, second: bool)
    requires |sp| == |s| && |data| == |s|
    reads s
  {
    && 0 <= c <= |s| && curr == (if c < |s| then s[c] else null)
    && (second ==> c < |s| && sp[c].lc.Some?)
    && HeapAt(s, sp, c, second) && Data(s) == data
    && 0 <= Emitted(sp, c, second) <= |s| && out == data[..Emitted(sp, c, second)]
  }

  /** Emits `curr`, whose left subtree is done, and moves right. */
  method Emit(curr: Node, out: seq<int>, ghost s: seq<Node>, ghost sp: seq<Span>, ghost c: int)
      returns (next: Node?, out': seq<int>)
    requires |sp| == |s| && Geometry(sp, 0) && 0 <= c < |s| && curr == s[c]
    requires HeapAt(s, sp, c, false) && out == Data(s)[..c]
    ensures Running(s, sp, Data(s), next, out', NextNumber(sp, c).0, NextNumber(sp, c).1)
    ensures |out'| == |out| + 1
  {
    out' := out + [curr.data];
    Leaving(s, sp, c);
    next := curr.right;
  }

  /** One round of the main loop on a node with a left subtree. */
  method Round(curr: Node, out: seq<int>, ghost s: seq<Node>, ghost sp: seq<Span>, ghost c: int, ghost second: bool)
      returns (next: Node?, out': seq<int>, ghost c': int, ghost second': bool)
    requires |sp| == |s| && Geometry(sp, 0) && Distinct(s) && 0 <= c < |s| && sp[c].lc.Some?
    requires Running(s, sp, Data(s), curr, out, c, second)
    modifies s
    ensures Data(s) == old(Data(s)) && Running(s, sp, Data(s), next, out', c', second')
    ensures |out'| == |out| + 1 || (out' == out && !second && !second' && c' < c)
  {
    assert Nested(sp, 0, c);
    var temp := Predecessor(curr, s, sp, c, second);
    if temp.right == null {
      Descend(curr, temp, s, sp, c);
      next, out', c', second' := curr.left, out, sp[c].lc.value, false;
    } else {
      Unthread(temp, s, sp, c);
      next, out' := Emit(curr, out, s, sp, c);
      c', second' := NextNumber(sp, c).0, NextNumber(sp, c).1;
    }
  }

  /** The main loop: it ends with everything printed and no thread left. */
  method Loop(root: Node?, ghost s: seq<Node>, ghost sp: seq<Span>, ghost c0: int) returns (out: seq<int>)
    requires |sp| == |s| && Geometry(sp, 0) && Distinct(s) && Running(s, sp, Data(s), root, [], c0, false)
    modifies s
    ensures out == Data(s) == old(Data(s)) && HeapAt(s, sp, |s|, false)
  {
    ghost var c, second := c0, false;
    var curr := root;
    out := [];
    while curr != null
      invariant Data(s) == old(Data(s)) && Running(s, sp, Data(s), curr, out, c, second)
      decreases |s| - |out|, if second then 0 else c + 1
    {
      assert Nested(sp, 0, c) && NodeAt(s, sp, c, second, c);
      if curr.left == null {
        curr, out := Emit(curr, out, s, sp, c);
        c, second := NextNumber(sp, c).0, NextNumber(sp, c).1;
      } else {
        curr, out, c, second := Round(curr, out, s, sp, c, second);
      }
    }
  }

  /** The loop, and what it leaves behind: the nodes as they were. */
  method Traverse(root: Node?, ghost s: seq<Node>, ghost sp: seq<Span>, ghost c0: int) returns (out: seq<int>)
    requires |sp| == |s| && Geometry(sp, 0) && Distinct(s)
    requires Running(s, sp, Data(s), root, [], c0, false) && AsGiven(s, sp)
    modifies s
    ensures out == old(Data(s))
    ensures forall n :: n in s ==> n.left == old(n.left) && n.right == old(n.right) && n.data == old(n.data)
  {
    out := Loop(root, s, sp, c0);
    HeapAtEnd(s, sp);
    forall n | n in s
      ensures n.left == old(n.left) && n.right == old(n.right) && n.data == old(n.data)
    {
      var i :| 0 <= i < |s| && s[i] == n;
      assert Links(s, sp, 0, i) && old(Links(s, sp, 0, i));
      assert Data(s)[i] == old(Data(s))[i];
    }
  }

  /** Emits the data in inorder and leaves every node as it was. */
  method MorrisInorder(root: Node?, ghost t: Tree<Node>) returns (out: seq<int>)
    requires Stands(t, set n | n in Inorder(t)) && Distinct(Inorder(t)) && root == RootOf(t)
    modifies Inorder(t)
    ensures out == old(Data(Inorder(t)))
    ensures forall n :: n in Inorder(t) ==>
      n.left == old(n.left) && n.right == old(n.right) && n.data == old(n.data)
  {
    ghost var s, sp := Inorder(t), Spans(t, 0);
    StartHeap(t);
    out := Traverse(root, s, sp, if t.Bin? then |Inorder(t.left)| else 0);
  }
}
