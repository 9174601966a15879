/** Bellman-Ford with its negative cycle test, algorithms/cpp/Dynamic Programming/Bellman-Ford.cpp. */
module BellmanFord {
  import opened Walks

  datatype Edge = Edge(src: int, dst: int, weight: int)

  ghost function GraphOf(edges: seq<Edge>): Graph<int> {
    (u, v, w) => Edge(u, v, w) in edges
  }

  ghost predicate InRange(edges: seq<Edge>, n: nat) {
    forall j :: 0 <= j < |edges| ==> 0 <= edges[j].src < n && 0 <= edges[j].dst < n
  }

  /** The test of the inner loop: the edge would shorten a distance. */
  predicate Shortens(dist: seq<Dist>, e: Edge)
    requires 0 <= e.src < |dist| && 0 <= e.dst < |dist|
  {
    dist[e.src].Fin? && !AtMost(dist[e.dst], Plus(dist[e.src], e.weight))
  }

  // ---------------------------------------------------------------- what the passes keep

  /** Every finite distance is the weight of a walk. */
  ghost predicate Attained(edges: seq<Edge>, src: int, dist: seq<Dist>) {
    forall v :: 0 <= v < |dist| && dist[v].Fin? ==> AttainedAt(edges, src, dist, v)
  }

  ghost predicate AttainedAt(edges: seq<Edge>, src: int, dist: seq<Dist>, v: int)
    requires 0 <= v < |dist| && dist[v].Fin?
  {
    exists k :: Leads(GraphOf(edges), k, src, v) && Weight(k) == dist[v].value
  }

  /** No distance exceeds the weight of a walk with at most `i` edges. */
  ghost predicate Covers(edges: seq<Edge>, src: int, dist: seq<Dist>, i: int) {
    forall k: Walk<int>, v :: Leads(GraphOf(edges), k, src, v) && |k.ws| <= i && 0 <= v < |dist| ==>
      AtMost(dist[v], Fin(Weight(k)))
  }

  /** `d'` is below `d`, and below every relaxation of `d` along the first `j` edges. */
  ghost predicate Relaxed(edges: seq<Edge>, d: seq<Dist>, d': seq<Dist>, j: int)
    requires InRange(edges, |d|) && |d'| == |d| && 0 <= j <= |edges|
  {
    && (forall v :: 0 <= v < |d| ==> AtMost(d'[v], d[v]))
    && (forall e :: 0 <= e < j ==> AtMost(d'[edges[e].dst], Plus(d[edges[e].src], edges[e].weight)))
  }

  lemma RelaxingIsAttained(edges: seq<Edge>, src: int, dist: seq<Dist>, e: Edge)
    requires InRange(edges, |dist|) && e in edges && Attained(edges, src, dist)
    requires 0 <= e.src < |dist| && 0 <= e.dst < |dist| && dist[e.src].Fin?
    ensures Attained(edges, src, dist[e.dst := Plus(dist[e.src], e.weight)])
  {
    var g := GraphOf(edges);
    var d := dist[e.dst := Plus(dist[e.src], e.weight)];
    forall v | 0 <= v < |d| && d[v].Fin?
      ensures AttainedAt(edges, src, d, v)
    {
      if v == e.dst {
        assert AttainedAt(edges, src, dist, e.src);
        var k :| Leads(g, k, src, e.src) && Weight(k) == dist[e.src].value;
        ExtendLeads(g, k, src, e.src, e.dst, e.weight);
      } else {
        assert AttainedAt(edges, src, dist, v);
      }
    }
  }

  lemma PassCoversMore(edges: seq<Edge>, src: int, d: seq<Dist>, d': seq<Dist>, i: nat)
    requires InRange(edges, |d|) && |d'| == |d| && Covers(edges, src, d, i) && Relaxed(edges, d, d', |edges|)
    ensures Covers(edges, src, d', i + 1)
  {
    var g := GraphOf(edges);
    forall k: Walk<int>, v | Leads(g, k, src, v) && |k.ws| <= i + 1 && 0 <= v < |d|
      ensures AtMost(d'[v], Fin(Weight(k)))
    {
      if |k.ws| <= i {
        assert AtMost(d[v], Fin(Weight(k)));
      } else {
        var m := |k.ws| - 1;
        var u, w := k.vs[m], k.ws[m];
        SplitAt(g, k, src, v, m);
        assert g(k.vs[m], k.vs[m + 1], k.ws[m]);
        var e :| 0 <= e < |edges| && edges[e] == Edge(u, v, w);
        assert AtMost(d[u], Fin(Weight(Front(k, m))));
        assert AtMost(d'[edges[e].dst], Plus(d[edges[e].src], edges[e].weight));
        assert Front(k, m).ws == k.ws[..m];
      }
    }
  }

  // ---------------------------------------------------------------- the test after the passes

  /** No edge shortens any distance. */
  ghost predicate Settled(edges: seq<Edge>, dist: seq<Dist>)
    requires InRange(edges, |dist|)
  {
    forall j :: 0 <= j < |edges| ==> !Shortens(dist, edges[j])
  }

  /** Along a walk settled distances grow by no more than its weight. */
  lemma {:induction false} SettledAlong(edges: seq<Edge>, dist: seq<Dist>, k: Walk<int>, u: int, v: int)
    requires InRange(edges, |dist|) && Settled(edges, dist) && Leads(GraphOf(edges), k, u, v)
    requires 0 <= u < |dist| && dist[u].Fin?
    ensures 0 <= v < |dist| && AtMost(dist[v], Fin(dist[u].value + Weight(k)))
    decreases |k.ws|
  {
    var g := GraphOf(edges);
    if k.ws != [] {
      var m := |k.ws| - 1;
      SplitAt(g, k, u, v, m);
      SettledAlong(edges, dist, Front(k, m), u, k.vs[m]);
      assert g(k.vs[m], k.vs[m + 1], k.ws[m]);
      var e :| 0 <= e < |edges| && edges[e] == Edge(k.vs[m], v, k.ws[m]);
      assert !Shortens(dist, edges[e]);
      assert Front(k, m).ws == k.ws[..m];
    }
  }

  lemma SettledHasNoNegativeCycle(edges: seq<Edge>, src: int, dist: seq<Dist>)
    requires InRange(edges, |dist|) && Settled(edges, dist) && 0 <= src < |dist| && dist[src].Fin?
    ensures !NegativeCycleFrom(GraphOf(edges), src)
  {
    var g := GraphOf(edges);
    forall x, k, c | Leads(g, k, src, x) && Leads(g, c, x, x)
      ensures Weight(c) >= 0
    {
      SettledAlong(edges, dist, k, src, x);
      SettledAlong(edges, dist, c, x, x);
    }
  }

  lemma SettledIsShortest(edges: seq<Edge>, src: int, dist: seq<Dist>, v: int)
    requires InRange(edges, |dist|) && Settled(edges, dist) && Attained(edges, src, dist)
    requires 0 <= src < |dist| && AtMost(dist[src], Fin(0)) && 0 <= v < |dist|
    ensures IsDistance(GraphOf(edges), src, v, dist[v])
  {
    var g := GraphOf(edges);
    forall k | Leads(g, k, src, v)
      ensures AtMost(dist[v], Fin(Weight(k)))
    {
      SettledAlong(edges, dist, k, src, v);
    }
    if dist[v].Fin? {
      assert AttainedAt(edges, src, dist, v);
    }
  }

  /** Without a negative cycle the passes settle every edge. */
  lemma CoveredIsSettled(edges: seq<Edge>, src: int, dist: seq<Dist>)
    requires InRange(edges, |dist|) && Attained(edges, src, dist) && 0 <= src < |dist|
    requires Covers(edges, src, dist, |dist|) && !NegativeCycleFrom(GraphOf(edges), src)
    ensures Settled(edges, dist)
  {
    var g := GraphOf(edges);
    forall j | 0 <= j < |edges|
      ensures !Shortens(dist, edges[j])
    {
      var e := edges[j];
      if dist[e.src].Fin? {
        assert AttainedAt(edges, src, dist, e.src);
        var k :| Leads(g, k, src, e.src) && Weight(k) == dist[e.src].value;
        ExtendLeads(g, k, src, e.src, e.dst, e.weight);
        var k' := Extend(k, e.dst, e.weight);
        WalkStaysInRange(edges, k', src, e.dst, |dist|);
        var r := Shorten(g, k', src, e.dst, |dist|);
        assert AtMost(dist[e.dst], Fin(Weight(r)));
      }
    }
  }

  lemma WalkStaysInRange(edges: seq<Edge>, k: Walk<int>, u: int, v: int, n: nat)
    requires InRange(edges, n) && Leads(GraphOf(edges), k, u, v) && 0 <= u < n
    ensures forall i :: 0 <= i < |k.vs| ==> 0 <= k.vs[i] < n
    ensures forall a, b, w :: GraphOf(edges)(a, b, w) ==> 0 <= a < n && 0 <= b < n
  {
    var g := GraphOf(edges);
    forall i | 0 <= i < |k.vs|
      ensures 0 <= k.vs[i] < n
    {
      if i > 0 {
        assert g(k.vs[i - 1], k.vs[i - 1 + 1], k.ws[i - 1]);
      }
    }
  }

  // ---------------------------------------------------------------- the algorithm

  /** One round over all edges. */
  method Pass(edges: seq<Edge>, dist: array<Dist>, ghost src: int)
    requires InRange(edges, dist.Length) && Attained(edges, src, dist[..])
    modifies dist
    ensures Attained(edges, src, dist[..]) && Relaxed(edges, old(dist[..]), dist[..], |edges|)
  {
    for j := 0 to |edges|
      invariant Attained(edges, src, dist[..]) && Relaxed(edges, old(dist[..]), dist[..], j)
    {
      var e := edges[j];
      if dist[e.src].Fin? && !AtMost(dist[e.dst], Plus(dist[e.src], e.weight)) {
        RelaxingIsAttained(edges, src, dist[..], e);
        ghost var next := dist[..][e.dst := Plus(dist[e.src], e.weight)];
        dist[e.dst] := Plus(dist[e.src], e.weight);
        assert dist[..] == next;
      }
    }
  }

  /** The last round: does some edge still shorten a distance? */
  method Check(edges: seq<Edge>, dist: array<Dist>) returns (negative: bool)
    requires InRange(edges, dist.Length)
    ensures negative <==> !Settled(edges, dist[..])
  {
    for j := 0 to |edges|
      invariant forall i :: 0 <= i < j ==> !Shortens(dist[..], edges[i])
    {
      if Shortens(dist[..], edges[j]) {
        return true;
      }
    }
    return false;
  }

  /** BellmanFord: reports a negative cycle exactly when one can be reached from `src`; otherwise the
      array it prints holds the shortest distances. */
  method BellmanFord(edges: seq<Edge>, n: nat, src: int) returns (negative: bool, dist: array<Dist>)
    requires InRange(edges, n) && 0 <= src < n
    ensures dist.Length == n && fresh(dist)
    ensures negative <==> NegativeCycleFrom(GraphOf(edges), src)
    ensures !negative ==> forall v :: 0 <= v < n ==> IsDistance(GraphOf(edges), src, v, dist[v])
  {
    dist := new Dist[n](_ => Inf);
    dist[src] := Fin(0);
    Start(edges, src, dist[..]);
    for i := 0 to n
      invariant Attained(edges, src, dist[..]) && Covers(edges, src, dist[..], i) && AtMost(dist[src], Fin(0))
    {
      ghost var before := dist[..];
      Pass(edges, dist, src);
      PassCoversMore(edges, src, before, dist[..], i);
    }
    negative := Check(edges, dist);
    if !NegativeCycleFrom(GraphOf(edges), src) {
      CoveredIsSettled(edges, src, dist[..]);
    }
    if !negative {
      SettledHasNoNegativeCycle(edges, src, dist[..]);
      forall v | 0 <= v < n
        ensures IsDistance(GraphOf(edges), src, v, dist[v])
      {
        SettledIsShortest(edges, src, dist[..], v);
      }
    }
  }

  lemma Start(edges: seq<Edge>, src: int, dist: seq<Dist>)
    requires 0 <= src < |dist| && dist[src] == Fin(0)
    requires forall v :: 0 <= v < |dist| && v != src ==> dist[v] == Inf
    ensures Attained(edges, src, dist) && Covers(edges, src, dist, 0)
  {
    SingleLeads(GraphOf(edges), src);
    assert AttainedAt(edges, src, dist, src);
  }
}
