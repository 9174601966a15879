/** Union-find with path halving and Kruskal's algorithm, algorithms/cpp/Graph/Kruskal.cpp. */
module Kruskal {
  import opened SpanningForest

  // ---------------------------------------------------------------- what the parent array means

  /** The parent of `i` has the same representative as `i`, which is its own parent, and `level`
      falls on the way there. */
  ghost predicate StepsTo(p: seq<int>, rep: seq<int>, level: seq<nat>, i: int)
    requires |rep| == |p| && |level| == |p| && 0 <= i < |p|
  {
    && 0 <= p[i] < |p| && 0 <= rep[i] < |p|
    && p[rep[i]] == rep[i] && rep[p[i]] == rep[i]
    && (if p[i] == i then rep[i] == i else level[p[i]] < level[i])
  }

  /** Following parents from any `i` ends in `rep[i]`. */
  ghost predicate Represents(p: seq<int>, rep: seq<int>, level: seq<nat>) {
    && |rep| == |p| && |level| == |p|
    && forall i :: 0 <= i < |p| ==> StepsTo(p, rep, level, i)
  }

  /** Both vertices have the same representative. */
  ghost function Merged(rep: seq<int>, x: int, y: int): (r: seq<int>)
    requires 0 <= x < |rep| && 0 <= y < |rep|
    ensures |r| == |rep|
    ensures forall i :: 0 <= i < |rep| ==> r[i] == if rep[i] == rep[x] then rep[y] else rep[i]
  {
    seq(|rep|, i requires 0 <= i < |rep| => if rep[i] == rep[x] then rep[y] else rep[i])
  }

  lemma {:induction false} RepFollows(p: seq<int>, rep: seq<int>, level: seq<nat>,
                                      rep': seq<int>, level': seq<nat>, i: int)
    requires Represents(p, rep, level) && Represents(p, rep', level') && 0 <= i < |p|
    ensures rep[i] == rep'[i]
    decreases level[i]
  {
    assert StepsTo(p, rep, level, i) && StepsTo(p, rep', level', i);
    if p[i] != i {
      RepFollows(p, rep, level, rep', level', p[i]);
    }
  }

  /** The parent array alone determines the representatives. */
  lemma RepIsUnique(p: seq<int>, rep: seq<int>, level: seq<nat>, rep': seq<int>, level': seq<nat>)
    requires Represents(p, rep, level) && Represents(p, rep', level')
    ensures rep == rep'
  {
    forall i | 0 <= i < |p|
      ensures rep[i] == rep'[i]
    {
      RepFollows(p, rep, level, rep', level', i);
    }
  }

  lemma HalvingKeepsRep(p: seq<int>, rep: seq<int>, level: seq<nat>, i: int)
    requires Represents(p, rep, level) && 0 <= i < |p| && p[i] != i
    requires 0 <= p[i] < |p|
    ensures Represents(p[i := p[p[i]]], rep, level)
  {
    assert StepsTo(p, rep, level, i) && StepsTo(p, rep, level, p[i]);
    var q := p[i := p[p[i]]];
    forall j | 0 <= j < |p|
      ensures StepsTo(q, rep, level, j)
    {
      assert StepsTo(p, rep, level, j) && StepsTo(p, rep, level, rep[j]);
    }
  }

  /** Levels after the root of `x` was hung below the root of `y`. */
  ghost function Raised(rep: seq<int>, level: seq<nat>, rx: int, ry: int): (r: seq<nat>)
    requires |level| == |rep| && 0 <= ry < |rep|
    ensures |r| == |rep|
    ensures forall i :: 0 <= i < |rep| ==> r[i] == if rep[i] == rx then level[i] + level[ry] + 1 else level[i]
  {
    seq(|rep|, i requires 0 <= i < |rep| => if rep[i] == rx then level[i] + level[ry] + 1 else level[i])
  }

  lemma LinkMergesAt(p: seq<int>, rep: seq<int>, level: seq<nat>, x: int, y: int, i: int)
    requires Represents(p, rep, level) && 0 <= x < |p| && 0 <= y < |p| && rep[x] != rep[y] && 0 <= i < |p|
    ensures 0 <= rep[x] < |p| && 0 <= rep[y] < |p|
    ensures StepsTo(p[rep[x] := rep[y]], Merged(rep, x, y), Raised(rep, level, rep[x], rep[y]), i)
  {
    assert StepsTo(p, rep, level, x) && StepsTo(p, rep, level, y) && StepsTo(p, rep, level, i);
    assert StepsTo(p, rep, level, rep[x]) && StepsTo(p, rep, level, rep[y]) && StepsTo(p, rep, level, rep[i]);
  }

  /** Hanging one representative below the other merges the two classes and no others. */
  lemma LinkMerges(p: seq<int>, rep: seq<int>, level: seq<nat>, x: int, y: int) returns (level': seq<nat>)
    requires Represents(p, rep, level) && 0 <= x < |p| && 0 <= y < |p|
    ensures 0 <= rep[x] < |p| && 0 <= rep[y] < |p|
    ensures Represents(p[rep[x] := rep[y]], Merged(rep, x, y), level')
  {
    assert StepsTo(p, rep, level, x) && StepsTo(p, rep, level, y);
    if rep[x] == rep[y] {
      level' := level;
      assert Merged(rep, x, y) == rep && p[rep[x] := rep[y]] == p;
    } else {
      level' := Raised(rep, level, rep[x], rep[y]);
      var q, r := p[rep[x] := rep[y]], Merged(rep, x, y);
      forall i | 0 <= i < |p|
        ensures StepsTo(q, r, level', i)
      {
        LinkMergesAt(p, rep, level, x, y, i);
      }
    }
  }

  // ---------------------------------------------------------------- the operations

  method Initial(parent: array<int>) returns (ghost rep: seq<int>, ghost level: seq<nat>)
    modifies parent
    ensures rep == seq(parent.Length, i => i) && Represents(parent[..], rep, level)
    ensures forall i :: 0 <= i < parent.Length ==> parent[i] == i
  {
    for i := 0 to parent.Length
      invariant forall j :: 0 <= j < i ==> parent[j] == j
    {
      parent[i] := i;
    }
    rep := seq(parent.Length, i => i);
    level := seq(parent.Length, i => 0);
  }

  ghost predicate Closed(p: seq<int>) {
    forall i :: 0 <= i < |p| ==> 0 <= p[i] < |p|
  }

  lemma RepresentsIsClosed(p: seq<int>, rep: seq<int>, level: seq<nat>)
    requires Represents(p, rep, level)
    ensures Closed(p)
  {
    forall i | 0 <= i < |p|
      ensures 0 <= p[i] < |p|
    {
      assert StepsTo(p, rep, level, i);
    }
  }

  /** `k` times the grandparent of `i`. */
  ghost function Grandparent(p: seq<int>, i: int, k: nat): (g: int)
    requires Closed(p) && 0 <= i < |p|
    ensures 0 <= g < |p|
  {
    if k == 0 then i else p[p[Grandparent(p, i, k - 1)]]
  }

  ghost predicate OnTheWay(p: seq<int>, i: int, j: int)
    requires Closed(p) && 0 <= i < |p|
  {
    exists k :: Grandparent(p, i, k) == j
  }

  /** Every second element on the way from `i` to its representative now points to its grandparent. */
  ghost predicate Halved(p: seq<int>, q: seq<int>, i: int)
    requires Closed(p) && 0 <= i < |p|
  {
    |q| == |p| && forall j :: 0 <= j < |p| ==> q[j] == if OnTheWay(p, i, j) then p[p[j]] else p[j]
  }

  /** The way was followed up to `i`: exactly the elements `seen` on it were changed, all above `i`. */
  ghost predicate Halving(p: seq<int>, q: seq<int>, level: seq<nat>, i0: int, i: int, t: nat, seen: set<int>)
    requires Closed(p) && 0 <= i0 < |p| && |level| == |p|
  {
    && |q| == |p| && i == Grandparent(p, i0, t)
    && (forall j :: 0 <= j < |p| ==> q[j] == if j in seen then p[p[j]] else p[j])
    && (forall j :: j in seen ==> 0 <= j < |p| && level[j] > level[i] && OnTheWay(p, i0, j))
    && (forall k: nat :: k < t ==> Grandparent(p, i0, k) in seen)
  }

  lemma HalvingOneMore(p: seq<int>, q: seq<int>, rep: seq<int>, level: seq<nat>, i0: int, i: int, t: nat,
                       seen: set<int>)
    requires Closed(p) && 0 <= i0 < |p| && Represents(p, rep, level) && Halving(p, q, level, i0, i, t, seen)
    requires 0 <= i < |p| && q[i] != i
    ensures q[i] == p[i] && q[q[i]] == p[p[i]]
    ensures Halving(p, q[i := p[p[i]]], level, i0, p[p[i]], t + 1, seen + {i})
  {
    assert i !in seen;
    assert StepsTo(p, rep, level, i) && StepsTo(p, rep, level, p[i]);
    assert p[i] !in seen;
  }

  /** From an element that is its own parent the way leads nowhere else. */
  lemma {:induction false} StaysAtRoot(p: seq<int>, i: int, t: nat, k: nat)
    requires Closed(p) && 0 <= i < |p| && t <= k && var r := Grandparent(p, i, t); p[r] == r
    ensures Grandparent(p, i, k) == Grandparent(p, i, t)
  {
    if t < k {
      StaysAtRoot(p, i, t, k - 1);
    }
  }

  lemma HalvingDone(p: seq<int>, q: seq<int>, level: seq<nat>, i0: int, i: int, t: nat, seen: set<int>)
    requires Closed(p) && 0 <= i0 < |p| && |level| == |p| && Halving(p, q, level, i0, i, t, seen)
    requires q[i] == i
    ensures Halved(p, q, i0)
  {
    assert i !in seen;
    forall j | 0 <= j < |p| && OnTheWay(p, i0, j) && j !in seen
      ensures j == i
    {
      var k: nat :| Grandparent(p, i0, k) == j;
      StaysAtRoot(p, i0, t, if k < t then t else k);
    }
  }

  /** Path halving finds the representative and changes nobody's. */
  method Root(parent: array<int>, i0: int, ghost rep: seq<int>, ghost level: seq<nat>) returns (r: int)
    requires Represents(parent[..], rep, level) && 0 <= i0 < parent.Length
    modifies parent
    ensures Represents(parent[..], rep, level)
    ensures r == rep[i0]
    ensures Closed(old(parent[..])) && Halved(old(parent[..]), parent[..], i0)
  {
    ghost var p, t: nat, seen: set<int> := parent[..], 0, {};
    RepresentsIsClosed(p, rep, level);
    var i := i0;
    while parent[i] != i
      invariant 0 <= i < parent.Length && Represents(parent[..], rep, level) && rep[i] == rep[i0]
      invariant Halving(p, parent[..], level, i0, i, t, seen)
      decreases level[i]
    {
      HalvingOneMore(p, parent[..], rep, level, i0, i, t, seen);
      t, seen := t + 1, seen + {i};
      assert StepsTo(parent[..], rep, level, i) && StepsTo(parent[..], rep, level, parent[i]);
      HalvingKeepsRep(parent[..], rep, level, i);
      ghost var next := parent[..][i := parent[parent[i]]];
      parent[i] := parent[parent[i]];
      assert parent[..] == next;
      i := parent[i];
    }
    assert StepsTo(parent[..], rep, level, i);
    HalvingDone(p, parent[..], level, i0, i, t, seen);
    r := i;
  }

  method Join(parent: array<int>, x: int, y: int, ghost rep: seq<int>, ghost level: seq<nat>)
      returns (ghost level': seq<nat>)
    requires Represents(parent[..], rep, level) && 0 <= x < parent.Length && 0 <= y < parent.Length
    modifies parent
    ensures Represents(parent[..], Merged(rep, x, y), level')
    ensures 0 <= rep[x] < parent.Length && parent[rep[x]] == rep[y]
  {
    var rootX := Root(parent, x, rep, level);
    var rootY := Root(parent, y, rep, level);
    level' := LinkMerges(parent[..], rep, level, x, y);
    ghost var next := parent[..][rootX := rootY];
    parent[rootX] := rootY;
    assert parent[..] == next;
  }

  // ---------------------------------------------------------------- the main loop

  /** Two vertices have the same representative exactly when the first `k` edges connect them. */
  ghost predicate Partition(rep: seq<int>, es: seq<Edge>, k: nat) {
    forall a, b :: 0 <= a < |rep| && 0 <= b < |rep| ==> (rep[a] == rep[b] <==> Connected(es, First(k), a, b))
  }

  /** The accepted edges `s` are a forest and connect, below each position up to `i`, all that the
      edges there connect. */
  ghost predicate GreedyUpTo(es: seq<Edge>, s: set<nat>, i: nat) {
    && Acyclic(es, s) && s <= First(i)
    && forall k: nat, u, v :: k <= i && Connected(es, First(k), u, v) ==> Connected(es, s * First(k), u, v)
  }

  lemma StartPartition(rep: seq<int>, es: seq<Edge>)
    requires forall i :: 0 <= i < |rep| ==> rep[i] == i
    ensures Partition(rep, es, 0) && GreedyUpTo(es, {}, 0)
  {
    assert First(0) == {};
    forall a, b | 0 <= a < |rep| && 0 <= b < |rep|
      ensures rep[a] == rep[b] <==> Connected(es, First(0), a, b)
    {
      Reflexive(es, {}, a);
      if Connected(es, {}, a, b) {
        NoEdgesNoConnection(es, a, b);
      }
    }
    forall k: nat, u, v | k <= 0 && Connected(es, First(k), u, v)
      ensures Connected(es, {} * First(k), u, v)
    {
      assert {} * First(k) == First(k);
    }
  }

  lemma AcceptPartition(rep: seq<int>, es: seq<Edge>, i: nat)
    requires i < |es| && InRange(es, |rep|) && Partition(rep, es, i)
    ensures Partition(Merged(rep, es[i].x, es[i].y), es, i + 1)
  {
    var x, y := es[i].x, es[i].y;
    var s, r := First(i), Merged(rep, x, y);
    assert First(i + 1) == s + {i};
    forall a, b | 0 <= a < |rep| && 0 <= b < |rep|
      ensures r[a] == r[b] <==> Connected(es, First(i + 1), a, b)
    {
      AddedEdge(es, s, i, a, b);
      assert rep[a] == rep[b] <==> Connected(es, s, a, b);
      assert rep[a] == rep[x] <==> Connected(es, s, a, x);
      assert rep[a] == rep[y] <==> Connected(es, s, a, y);
      assert rep[x] == rep[b] <==> Connected(es, s, x, b);
      assert rep[y] == rep[b] <==> Connected(es, s, y, b);
    }
  }

  lemma RejectPartition(rep: seq<int>, es: seq<Edge>, i: nat)
    requires i < |es| && InRange(es, |rep|) && Partition(rep, es, i) && rep[es[i].x] == rep[es[i].y]
    ensures Partition(rep, es, i + 1)
  {
    AcceptPartition(rep, es, i);
    assert Merged(rep, es[i].x, es[i].y) == rep;
  }

  lemma RejectGreedy(es: seq<Edge>, s: set<nat>, i: nat)
    requires i < |es| && GreedyUpTo(es, s, i) && Connected(es, First(i), es[i].x, es[i].y)
    ensures GreedyUpTo(es, s, i + 1)
  {
    forall k: nat, u, v | k <= i + 1 && Connected(es, First(k), u, v)
      ensures Connected(es, s * First(k), u, v)
    {
      if k == i + 1 {
        assert First(k) == First(i) + {i} && s * First(k) == s * First(i);
        RedundantEdge(es, First(i), i, u, v);
      }
    }
  }

  lemma AcceptGreedy(es: seq<Edge>, s: set<nat>, i: nat)
    requires i < |es| && GreedyUpTo(es, s, i) && !Connected(es, First(i), es[i].x, es[i].y)
    ensures GreedyUpTo(es, s + {i}, i + 1)
  {
    var t := s + {i};
    if Connected(es, s, es[i].x, es[i].y) {
      MoreEdges(es, s, First(i), es[i].x, es[i].y);
    }
    ForestGrows(es, s, i);
    forall k: nat, u, v | k <= i + 1 && Connected(es, First(k), u, v)
      ensures Connected(es, t * First(k), u, v)
    {
      if k == i + 1 {
        assert First(k) == First(i) + {i} && t * First(k) == t && s * First(i) == s;
        AddedEdge(es, First(i), i, u, v);
        AddedEdge(es, s, i, u, v);
      } else {
        assert t * First(k) == s * First(k);
      }
    }
  }

  lemma {:induction false} LaterEdgeNoCost(es: seq<Edge>, s: set<nat>, i: nat, k: nat)
    requires k <= i < |es|
    ensures CostUpTo(es, s + {i}, k) == CostUpTo(es, s, k)
  {
    if k > 0 {
      LaterEdgeNoCost(es, s, i, k - 1);
    }
  }

  /** The edges before it do not connect the ends of edge `j`. */
  ghost predicate Accepted(es: seq<Edge>, j: nat) {
    j < |es| && !Connected(es, First(j), es[j].x, es[j].y)
  }

  ghost predicate ChosenUpTo(es: seq<Edge>, s: set<nat>, i: nat) {
    forall j: nat :: j in s <==> j < i && Accepted(es, j)
  }

  /** What the loop keeps about the first `i` edges. */
  ghost predicate Growing(es: seq<Edge>, rep: seq<int>, s: set<nat>, cost: int, i: nat) {
    && i <= |es| && Partition(rep, es, i) && GreedyUpTo(es, s, i) && ChosenUpTo(es, s, i)
    && cost == CostUpTo(es, s, i)
  }

  lemma AcceptEdge(es: seq<Edge>, rep: seq<int>, s: set<nat>, cost: int, i: nat)
    requires InRange(es, |rep|) && Growing(es, rep, s, cost, i) && i < |es| && rep[es[i].x] != rep[es[i].y]
    ensures Growing(es, Merged(rep, es[i].x, es[i].y), s + {i}, cost + es[i].cost, i + 1)
  {
    assert Accepted(es, i);
    AcceptPartition(rep, es, i);
    AcceptGreedy(es, s, i);
    LaterEdgeNoCost(es, s, i, i);
    assert ChosenUpTo(es, s + {i}, i + 1);
  }

  lemma RejectEdge(es: seq<Edge>, rep: seq<int>, s: set<nat>, cost: int, i: nat)
    requires InRange(es, |rep|) && Growing(es, rep, s, cost, i) && i < |es| && rep[es[i].x] == rep[es[i].y]
    ensures Growing(es, rep, s, cost, i + 1)
  {
    assert !Accepted(es, i);
    RejectPartition(rep, es, i);
    RejectGreedy(es, s, i);
    assert ChosenUpTo(es, s, i + 1);
  }

  /** The classes of the parent array are the components of all edges. */
  ghost predicate ClassesAreComponents(p: seq<int>, es: seq<Edge>) {
    exists rep, level :: Represents(p, rep, level) && Partition(rep, es, |es|)
  }

  method Kruskal(es: seq<Edge>, parent: array<int>) returns (mincost: int, ghost forest: set<nat>)
    requires InRange(es, parent.Length)
    requires forall i :: 0 <= i < parent.Length ==> parent[i] == i
    modifies parent
    ensures IsSpanningForest(es, forest) && mincost == Cost(es, forest)
    ensures SortedByCost(es) ==> forall f :: IsSpanningForest(es, f) ==> mincost <= Cost(es, f)
    ensures forall j: nat :: j in forest <==> Accepted(es, j)
    ensures ClassesAreComponents(parent[..], es)
  {
    ghost var rep, level := seq(parent.Length, i => i), seq(parent.Length, i => 0);
    mincost, forest := 0, {};
    StartPartition(rep, es);
    for i := 0 to |es|
      invariant Represents(parent[..], rep, level) && Growing(es, rep, forest, mincost, i)
    {
      var x, y := es[i].x, es[i].y;
      var rootX := Root(parent, x, rep, level);
      var rootY := Root(parent, y, rep, level);
      if rootX != rootY {
        AcceptEdge(es, rep, forest, mincost, i);
        mincost := mincost + es[i].cost;
        level := Join(parent, x, y, rep, level);
        rep := Merged(rep, x, y);
        forest := forest + {i};
      } else {
        RejectEdge(es, rep, forest, mincost, i);
      }
    }
    GreedySpans(es, forest, parent.Length);
  }

  lemma GreedySpans(es: seq<Edge>, s: set<nat>, n: nat)
    requires GreedyUpTo(es, s, |es|) && InRange(es, n)
    ensures IsSpanningForest(es, s)
    ensures SortedByCost(es) ==> forall f :: IsSpanningForest(es, f) ==> Cost(es, s) <= Cost(es, f)
  {
    assert s * First(|es|) == s;
    if SortedByCost(es) {
      forall f | IsSpanningForest(es, f)
        ensures Cost(es, s) <= Cost(es, f)
      {
        GreedyIsCheapest(es, s, f, n);
      }
    }
  }
}
