/** Dijkstra's labels as values: what every poll and every relaxation keeps, and what follows at
    the end of the loop of algorithms/java/Others/Dijkstra.java. */
module DijkstraLabels {
  import opened Names
  import opened Walks
  import opened Wrappers

  /** The neighbours of each vertex, by name, with the weights of the arcs. */
  type Adjacency = map<Name, map<Name, int>>

  ghost function GraphOf(adj: Adjacency): Graph<Name> {
    (u, v, w) => u in adj && v in adj[u] && adj[u][v] == w
  }

  /** Neighbours are vertices of the graph and no arc has negative weight. */
  ghost predicate Proper(adj: Adjacency) {
    forall u, v :: u in adj && v in adj[u] ==> v in adj && adj[u][v] >= 0
  }

  /** The fields `dist` and `previous` of all vertices. */
  datatype Labels = Labels(d: map<Name, Dist>, p: map<Name, Option<Name>>)

  // ---------------------------------------------------------------- the invariant

  /** The vertices taken out of the set so far, numbered in order of polling. */
  type Ranks = map<Name, nat>

  /** A reached vertex other than the source got its label from a polled vertex, which was polled
      before it; an unreached one has no previous vertex. */
  ghost predicate Labelled(adj: Adjacency, src: Name, lab: Labels, rank: Ranks, v: Name)
    requires lab.d.Keys == lab.p.Keys == adj.Keys && v in adj
  {
    if v == src then lab.d[v] == Fin(0) && lab.p[v] == Some(src)
    else if lab.d[v].Inf? then lab.p[v] == None
    else
      && lab.d[v].value >= 0
      && lab.p[v].Some? && var u := lab.p[v].value;
      && u in adj && v in adj[u] && lab.d[u].Fin? && lab.d[v].value == lab.d[u].value + adj[u][v]
      && u in rank && (v in rank ==> rank[u] < rank[v])
  }

  ghost predicate AllLabelled(adj: Adjacency, src: Name, lab: Labels, rank: Ranks) {
    && lab.d.Keys == lab.p.Keys == adj.Keys
    && forall v {:trigger Labelled(adj, src, lab, rank, v)} :: v in adj ==> Labelled(adj, src, lab, rank, v)
  }

  /** A polled vertex `u` is no farther than a vertex polled later or still in the set. */
  ghost predicate NoFarther(lab: Labels, rank: Ranks, u: Name, v: Name)
    requires u in rank && u in lab.d && v in lab.d
  {
    v !in rank || rank[u] <= rank[v] ==> AtMost(lab.d[u], lab.d[v])
  }

  /** Polled vertices are reached and were polled in order of distance. */
  ghost predicate Ordered(adj: Adjacency, lab: Labels, rank: Ranks) {
    && rank.Keys <= adj.Keys == lab.d.Keys
    && (forall u :: u in rank ==> lab.d[u].Fin? && rank[u] < |rank|)
    && (forall u, v {:trigger NoFarther(lab, rank, u, v)} :: u in rank && v in adj ==> NoFarther(lab, rank, u, v))
  }

  /** The arc from `u` to `v` offers no shorter way, or is still to be looked at. */
  ghost predicate ArcDone(adj: Adjacency, lab: Labels, cur: Name, todo: set<Name>, u: Name, v: Name)
    requires u in adj && v in adj[u] && u in lab.d && v in lab.d
  {
    (u == cur && v in todo) || AtMost(lab.d[v], Plus(lab.d[u], adj[u][v]))
  }

  /** All arcs out of polled vertices are relaxed, except those of `cur` to vertices in `todo`. */
  ghost predicate Relaxed(adj: Adjacency, lab: Labels, rank: Ranks, cur: Name, todo: set<Name>) {
    && rank.Keys <= adj.Keys == lab.d.Keys
    && forall u, v {:trigger ArcDone(adj, lab, cur, todo, u, v)} ::
         u in rank && v in adj[u] && v in adj ==> ArcDone(adj, lab, cur, todo, u, v)
  }

  /** Label `d` of vertex `n` comes before label `e` of vertex `m`: it is smaller, or equal and the name
      of `n` is earlier in dictionary order. */
  ghost predicate KeyLess(d: Dist, n: Name, e: Dist, m: Name) {
    if d == e then Earlier(n.text, m.text) else AtMost(d, e)
  }

  /** The label of `v` came from a vertex no earlier than `u`. */
  ghost predicate LabelledSince(lab: Labels, rank: Ranks, u: Name, v: Name)
    requires u in rank && v in lab.p
  {
    lab.p[v].Some? && lab.p[v].value in rank && rank[u] <= rank[lab.p[v].value]
  }

  /** `u` was polled before `v` because its key comes before that of `v`, or because `v` only got its
      label then or later. */
  ghost predicate RightlyFirst(src: Name, lab: Labels, rank: Ranks, u: Name, v: Name)
    requires u in rank && u in lab.d && v in lab.d && v in lab.p
  {
    u != v && (v in rank ==> rank[u] < rank[v]) ==>
      KeyLess(lab.d[u], u, lab.d[v], v) || (v != src && LabelledSince(lab, rank, u, v))
  }

  /** Unless its arc to `v` is still to be looked at, a polled `u` over which the distance of `v` is
      reached was not polled before the previous vertex of `v`. */
  ghost predicate NotEarlier(adj: Adjacency, src: Name, lab: Labels, rank: Ranks, cur: Name, todo: set<Name>,
      u: Name, v: Name)
    requires u in rank && u in adj && v in adj[u] && u in lab.d && v in lab.d && v in lab.p
  {
    v != src && lab.d[v].Fin? && lab.d[v] == Plus(lab.d[u], adj[u][v]) && !(u == cur && v in todo) ==>
      lab.p[v].Some? && lab.p[v].value in rank && rank[lab.p[v].value] <= rank[u]
  }

  /** How ties are broken: among the vertices to poll, and among the possible previous vertices. */
  ghost predicate Ties(adj: Adjacency, src: Name, lab: Labels, rank: Ranks, cur: Name, todo: set<Name>) {
    && rank.Keys <= adj.Keys == lab.d.Keys == lab.p.Keys
    && (forall u, v :: u in rank && v in rank && rank[u] == rank[v] ==> u == v)
    && (forall u, v {:trigger RightlyFirst(src, lab, rank, u, v)} ::
          u in rank && v in adj ==> RightlyFirst(src, lab, rank, u, v))
    && (forall u, v {:trigger NotEarlier(adj, src, lab, rank, cur, todo, u, v)} ::
          u in rank && v in adj[u] && v in adj ==> NotEarlier(adj, src, lab, rank, cur, todo, u, v))
  }

  ghost predicate Inv(adj: Adjacency, src: Name, lab: Labels, rank: Ranks, cur: Name, todo: set<Name>) {
    && Proper(adj) && src in adj
    && AllLabelled(adj, src, lab, rank) && Ordered(adj, lab, rank) && Relaxed(adj, lab, rank, cur, todo)
    && Ties(adj, src, lab, rank, cur, todo)
  }

  // ---------------------------------------------------------------- the steps

  function StartLabels(names: set<Name>, src: Name): Labels {
    Labels(map n | n in names :: if n == src then Fin(0) else Inf,
           map n | n in names :: if n == src then Some(src) else None)
  }

  lemma StartInv(adj: Adjacency, src: Name)
    requires Proper(adj) && src in adj
    ensures Inv(adj, src, StartLabels(adj.Keys, src), map[], src, {})
  {
  }

  lemma PollKeepsLabels(adj: Adjacency, src: Name, lab: Labels, rank: Ranks, u: Name)
    requires AllLabelled(adj, src, lab, rank) && (forall x :: x in rank ==> rank[x] < |rank|) && u !in rank
    ensures AllLabelled(adj, src, lab, rank[u := |rank|])
  {
    forall v | v in adj
      ensures Labelled(adj, src, lab, rank[u := |rank|], v)
    {
      assert Labelled(adj, src, lab, rank, v);
    }
  }

  lemma PollKeepsOrder(adj: Adjacency, lab: Labels, rank: Ranks, u: Name)
    requires Ordered(adj, lab, rank) && u in adj && u !in rank && lab.d[u].Fin?
    requires forall n :: n in adj && n !in rank ==> AtMost(lab.d[u], lab.d[n])
    ensures Ordered(adj, lab, rank[u := |rank|])
  {
    var rank' := rank[u := |rank|];
    assert |rank'| == |rank| + 1;
    forall x, y | x in rank' && y in adj
      ensures NoFarther(lab, rank', x, y)
    {
      if x in rank {
        assert NoFarther(lab, rank, x, y);
      }
    }
  }

  /** Of the named vertices still in the set `u` has the least distance, and of several such the earliest name. */
  ghost predicate LeastKey(names: set<Name>, lab: Labels, rank: Ranks, u: Name)
    requires names == lab.d.Keys && u in names
  {
    forall n {:trigger KeyLess(lab.d[u], u, lab.d[n], n)} ::
      n in names && n !in rank && n != u ==> KeyLess(lab.d[u], u, lab.d[n], n)
  }

  lemma PollKeepsFirst(adj: Adjacency, src: Name, lab: Labels, rank: Ranks, u: Name, x: Name, y: Name)
    requires rank.Keys <= adj.Keys == lab.d.Keys == lab.p.Keys && u in adj && u !in rank
    requires forall z :: z in rank ==> rank[z] < |rank|
    requires LeastKey(adj.Keys, lab, rank, u)
    requires y in adj && (x == u || (x in rank && RightlyFirst(src, lab, rank, x, y)))
    ensures RightlyFirst(src, lab, rank[u := |rank|], x, y)
  {
  }

  lemma PollKeepsTies(adj: Adjacency, src: Name, lab: Labels, rank: Ranks, cur: Name, u: Name)
    requires Ties(adj, src, lab, rank, cur, {}) && u in adj && u !in rank
    requires forall x :: x in rank ==> rank[x] < |rank|
    requires LeastKey(adj.Keys, lab, rank, u)
    ensures Ties(adj, src, lab, rank[u := |rank|], u, adj[u].Keys)
  {
    var rank' := rank[u := |rank|];
    forall x, y | x in rank' && y in adj
      ensures RightlyFirst(src, lab, rank', x, y)
    {
      PollKeepsFirst(adj, src, lab, rank, u, x, y);
    }
    forall x, y | x in rank' && y in adj[x] && y in adj
      ensures NotEarlier(adj, src, lab, rank', u, adj[u].Keys, x, y)
    {
      assert x in rank ==> NotEarlier(adj, src, lab, rank, cur, {}, x, y);
    }
  }

  /** The vertex of the least key leaves the set. */
  lemma PollInv(adj: Adjacency, src: Name, lab: Labels, rank: Ranks, cur: Name, u: Name)
    requires Inv(adj, src, lab, rank, cur, {}) && u in adj && u !in rank && lab.d[u].Fin?
    requires LeastKey(adj.Keys, lab, rank, u)
    ensures Inv(adj, src, lab, rank[u := |rank|], u, adj[u].Keys)
  {
    PollKeepsTies(adj, src, lab, rank, cur, u);
    assert forall n :: n in adj && n !in rank && n != u ==> KeyLess(lab.d[u], u, lab.d[n], n);
    PollKeepsLabels(adj, src, lab, rank, u);
    PollKeepsOrder(adj, lab, rank, u);
    forall x, y | x in rank[u := |rank|] && y in adj[x] && y in adj
      ensures ArcDone(adj, lab, u, adj[u].Keys, x, y)
    {
      assert x in rank ==> ArcDone(adj, lab, cur, {}, x, y);
    }
  }

  function Relabel(lab: Labels, u: Name, v: Name, d: Dist): Labels {
    Labels(lab.d[v := d], lab.p[v := Some(u)])
  }

  /** The test of the inner loop: the way over `u` is shorter. */
  predicate Improves(adj: Adjacency, lab: Labels, u: Name, v: Name)
    requires u in adj && v in adj[u] && u in lab.d && v in lab.d
  {
    !AtMost(lab.d[v], Plus(lab.d[u], adj[u][v]))
  }

  /** A vertex still in the set gets the smaller label `d` over the vertex just polled. */
  ghost predicate ShorterOver(adj: Adjacency, src: Name, lab: Labels, rank: Ranks, u: Name, v: Name, d: int)
    requires rank.Keys <= adj.Keys == lab.d.Keys
  {
    && u in rank && rank[u] == |rank| - 1 && v in adj[u] && v in adj && v !in rank && v != src
    && lab.d[u].Fin? && 0 <= lab.d[u].value <= d && d == lab.d[u].value + adj[u][v] && !AtMost(lab.d[v], Fin(d))
  }

  /** Only vertices still in the set get a new label. */
  lemma OnlyOpenImproves(adj: Adjacency, src: Name, lab: Labels, rank: Ranks, todo: set<Name>, u: Name, v: Name)
    requires Inv(adj, src, lab, rank, u, todo) && u in rank && rank[u] == |rank| - 1 && v in adj[u] && v in adj
    requires Improves(adj, lab, u, v)
    ensures v !in rank && v != src
    ensures lab.d[u].Fin? && ShorterOver(adj, src, lab, rank, u, v, lab.d[u].value + adj[u][v])
  {
    assert Labelled(adj, src, lab, rank, u) && Labelled(adj, src, lab, rank, v);
    assert adj[u][v] >= 0;
    assert v in rank ==> NoFarther(lab, rank, v, u);
  }

  lemma RelabelKeepsLabels(adj: Adjacency, src: Name, lab: Labels, rank: Ranks, u: Name, v: Name, d: int)
    requires Proper(adj) && AllLabelled(adj, src, lab, rank)
    requires u in rank && u in adj && lab.d[u].Fin? && lab.d[u].value >= 0
    requires v in adj[u] && v in adj && v !in rank && v != src
    requires d == lab.d[u].value + adj[u][v]
    ensures AllLabelled(adj, src, Relabel(lab, u, v, Fin(d)), rank)
  {
    var lab' := Relabel(lab, u, v, Fin(d));
    forall x | x in adj
      ensures Labelled(adj, src, lab', rank, x)
    {
      assert Labelled(adj, src, lab, rank, x);
    }
  }

  lemma RelabelKeepsOrder(adj: Adjacency, lab: Labels, rank: Ranks, u: Name, v: Name, d: int)
    requires Ordered(adj, lab, rank) && u in rank && rank[u] == |rank| - 1 && v in adj && v !in rank
    requires lab.d[u].value <= d
    ensures Ordered(adj, Relabel(lab, u, v, Fin(d)), rank)
  {
    var lab' := Relabel(lab, u, v, Fin(d));
    forall x, y | x in rank && y in adj
      ensures NoFarther(lab', rank, x, y)
    {
      assert NoFarther(lab, rank, x, y) && NoFarther(lab, rank, x, u);
    }
  }

  lemma RelabelKeepsRelaxed(adj: Adjacency, lab: Labels, rank: Ranks, todo: set<Name>,
      u: Name, v: Name, d: int)
    requires Relaxed(adj, lab, rank, u, todo) && u in rank && v in adj[u] && v in adj && v !in rank
    requires lab.d[u].Fin? && d == lab.d[u].value + adj[u][v] && !AtMost(lab.d[v], Fin(d))
    ensures Relaxed(adj, Relabel(lab, u, v, Fin(d)), rank, u, todo - {v})
  {
    var lab' := Relabel(lab, u, v, Fin(d));
    forall x, y | x in rank && y in adj[x] && y in adj
      ensures ArcDone(adj, lab', u, todo - {v}, x, y)
    {
      assert ArcDone(adj, lab, u, todo, x, y);
    }
  }

  lemma RelabelKeepsTies(adj: Adjacency, src: Name, lab: Labels, rank: Ranks, todo: set<Name>, u: Name, v: Name, d: int)
    requires Ties(adj, src, lab, rank, u, todo) && Relaxed(adj, lab, rank, u, todo)
    requires forall x :: x in rank ==> rank[x] < |rank|
    requires u in rank && rank[u] == |rank| - 1 && v in adj[u] && v in adj && v !in rank && v != src
    requires lab.d[u].Fin? && d == lab.d[u].value + adj[u][v] && !AtMost(lab.d[v], Fin(d))
    ensures Ties(adj, src, Relabel(lab, u, v, Fin(d)), rank, u, todo - {v})
  {
    var lab' := Relabel(lab, u, v, Fin(d));
    forall x, y | x in rank && y in adj
      ensures RightlyFirst(src, lab', rank, x, y)
    {
      assert RightlyFirst(src, lab, rank, x, y);
    }
    forall x, y | x in rank && y in adj[x] && y in adj
      ensures NotEarlier(adj, src, lab', rank, u, todo - {v}, x, y)
    {
      assert NotEarlier(adj, src, lab, rank, u, todo, x, y) && ArcDone(adj, lab, u, todo, x, y);
    }
  }

  /** The labels after the arc from `u` to `v` was looked at. */
  function AfterArc(adj: Adjacency, lab: Labels, u: Name, v: Name): Labels
    requires u in adj && v in adj[u] && u in lab.d && v in lab.d
  {
    if Improves(adj, lab, u, v) then Relabel(lab, u, v, Plus(lab.d[u], adj[u][v])) else lab
  }

  lemma ImprovingArc(adj: Adjacency, src: Name, lab: Labels, rank: Ranks, todo: set<Name>, u: Name, v: Name, d: int)
    requires Inv(adj, src, lab, rank, u, todo) && ShorterOver(adj, src, lab, rank, u, v, d)
    ensures Inv(adj, src, Relabel(lab, u, v, Fin(d)), rank, u, todo - {v})
  {
    RelabelKeepsLabels(adj, src, lab, rank, u, v, d);
    RelabelKeepsOrder(adj, lab, rank, u, v, d);
    RelabelKeepsRelaxed(adj, lab, rank, todo, u, v, d);
    RelabelKeepsTies(adj, src, lab, rank, todo, u, v, d);
  }

  lemma UselessKeepsRelaxed(adj: Adjacency, lab: Labels, rank: Ranks, todo: set<Name>, u: Name, v: Name)
    requires Relaxed(adj, lab, rank, u, todo) && u in rank && v in adj[u] && v in adj && !Improves(adj, lab, u, v)
    ensures Relaxed(adj, lab, rank, u, todo - {v})
  {
    forall x, y | x in rank && y in adj[x] && y in adj
      ensures ArcDone(adj, lab, u, todo - {v}, x, y)
    {
      assert ArcDone(adj, lab, u, todo, x, y);
    }
  }

  lemma UselessKeepsTies(adj: Adjacency, src: Name, lab: Labels, rank: Ranks, todo: set<Name>, u: Name, v: Name)
    requires Ties(adj, src, lab, rank, u, todo) && AllLabelled(adj, src, lab, rank)
    requires forall x :: x in rank ==> rank[x] < |rank|
    requires u in rank && rank[u] == |rank| - 1 && v in adj[u] && v in adj
    ensures Ties(adj, src, lab, rank, u, todo - {v})
  {
    forall x, y | x in rank && y in adj[x] && y in adj
      ensures NotEarlier(adj, src, lab, rank, u, todo - {v}, x, y)
    {
      assert NotEarlier(adj, src, lab, rank, u, todo, x, y) && Labelled(adj, src, lab, rank, y);
    }
  }

  lemma UselessArc(adj: Adjacency, src: Name, lab: Labels, rank: Ranks, todo: set<Name>, u: Name, v: Name)
    requires Inv(adj, src, lab, rank, u, todo) && u in rank && rank[u] == |rank| - 1 && v in adj[u] && v in adj
    requires !Improves(adj, lab, u, v)
    ensures Inv(adj, src, lab, rank, u, todo - {v})
  {
    UselessKeepsRelaxed(adj, lab, rank, todo, u, v);
    UselessKeepsTies(adj, src, lab, rank, todo, u, v);
  }

  /** One round of the inner loop. */
  lemma ArcInv(adj: Adjacency, src: Name, lab: Labels, rank: Ranks, todo: set<Name>, u: Name, v: Name)
    requires Inv(adj, src, lab, rank, u, todo) && u in rank && rank[u] == |rank| - 1 && v in adj[u] && v in adj
    ensures Inv(adj, src, AfterArc(adj, lab, u, v), rank, u, todo - {v})
    ensures Improves(adj, lab, u, v) ==> v !in rank
  {
    if Improves(adj, lab, u, v) {
      OnlyOpenImproves(adj, src, lab, rank, todo, u, v);
      var d := lab.d[u].value + adj[u][v];
      ImprovingArc(adj, src, lab, rank, todo, u, v, d);
      assert AfterArc(adj, lab, u, v) == Relabel(lab, u, v, Fin(d));
    } else {
      UselessArc(adj, src, lab, rank, todo, u, v);
    }
  }

  // ---------------------------------------------------------------- at the end of the loop

  /** Whatever is left in the set was never reached. */
  ghost predicate Finished(adj: Adjacency, src: Name, lab: Labels, rank: Ranks) {
    && (exists cur :: Inv(adj, src, lab, rank, cur, {}))
    && forall v :: v in adj && v !in rank ==> lab.d[v].Inf?
  }

  /** When the polled vertex is unreached, so are all that are left. */
  lemma NoneLeft(adj: Adjacency, src: Name, lab: Labels, rank: Ranks, cur: Name, u: Name)
    requires Inv(adj, src, lab, rank, cur, {}) && u in adj && lab.d[u].Inf? && LeastKey(adj.Keys, lab, rank, u)
    ensures Finished(adj, src, lab, rank)
  {
    forall v | v in adj && v !in rank
      ensures lab.d[v].Inf?
    {
      assert v != u ==> KeyLess(lab.d[u], u, lab.d[v], v);
    }
  }

  lemma {:induction false} NoShorterWalk(adj: Adjacency, src: Name, lab: Labels, rank: Ranks,
      k: Walk<Name>, v: Name)
    requires Finished(adj, src, lab, rank) && Leads(GraphOf(adj), k, src, v)
    ensures v in adj && AtMost(lab.d[v], Fin(Weight(k)))
    decreases |k.ws|
  {
    var g := GraphOf(adj);
    var cur :| Inv(adj, src, lab, rank, cur, {});
    if k.ws == [] {
      assert Labelled(adj, src, lab, rank, src);
    } else {
      var m := |k.ws| - 1;
      var u, w := k.vs[m], k.ws[m];
      SplitAt(g, k, src, v, m);
      NoShorterWalk(adj, src, lab, rank, Front(k, m), u);
      assert g(k.vs[m], k.vs[m + 1], k.ws[m]);
      assert v in adj && u in rank;
      assert ArcDone(adj, lab, cur, {}, u, v);
      assert Front(k, m).ws == k.ws[..m];
    }
  }

  ghost predicate FollowsPrevious(lab: Labels, k: Walk<Name>, i: int)
    requires 0 <= i < |k.vs| - 1
  {
    k.vs[i + 1] in lab.p && lab.p[k.vs[i + 1]] == Some(k.vs[i])
  }

  /** The vertices of `k` from the source to `v` follow the `previous` links, and none occurs twice. */
  ghost predicate PreviousChain(lab: Labels, src: Name, k: Walk<Name>, v: Name) {
    && |k.vs| == |k.ws| + 1 && k.vs[0] == src && k.vs[|k.ws|] == v
    && (forall i :: 0 <= i < |k.ws| ==> FollowsPrevious(lab, k, i))
    && (forall i, j :: 0 <= i < j < |k.vs| ==> k.vs[i] != k.vs[j])
  }

  lemma ChainGrows(lab: Labels, src: Name, rank: Ranks, k: Walk<Name>, u: Name, v: Name, w: int)
    requires PreviousChain(lab, src, k, u) && v in lab.p && lab.p[v] == Some(u)
    requires u in rank && v in rank && rank[u] < rank[v]
    requires forall i :: 0 <= i < |k.ws| ==> k.vs[i] in rank && rank[k.vs[i]] < rank[u]
    ensures PreviousChain(lab, src, Extend(k, v, w), v)
    ensures var e := Extend(k, v, w); forall i :: 0 <= i < |e.ws| ==> e.vs[i] in rank && rank[e.vs[i]] < rank[v]
  {
    var e := Extend(k, v, w);
    forall i | 0 <= i < |e.ws|
      ensures FollowsPrevious(lab, e, i) && e.vs[i] in rank && rank[e.vs[i]] < rank[v]
    {
      if i < |k.ws| {
        assert FollowsPrevious(lab, k, i);
      }
    }
  }

  /** A reached vertex has a chain of previous vertices back to the source, polled in that order,
      and the walk along it weighs exactly the vertex's distance. */
  lemma {:induction false} ChainTo(adj: Adjacency, src: Name, lab: Labels, rank: Ranks, v: Name)
      returns (k: Walk<Name>)
    requires AllLabelled(adj, src, lab, rank) && v in rank && v in adj && lab.d[v].Fin?
    requires forall u :: u in rank ==> u in adj && lab.d[u].Fin?
    ensures Leads(GraphOf(adj), k, src, v) && lab.d[v] == Fin(Weight(k)) && PreviousChain(lab, src, k, v)
    ensures forall i :: 0 <= i < |k.ws| ==> k.vs[i] in rank && rank[k.vs[i]] < rank[v]
    decreases rank[v]
  {
    var g := GraphOf(adj);
    assert Labelled(adj, src, lab, rank, v);
    if v == src {
      k := Single(src);
      SingleLeads(g, src);
    } else {
      var u := lab.p[v].value;
      var k' := ChainTo(adj, src, lab, rank, u);
      k := Extend(k', v, adj[u][v]);
      ExtendLeads(g, k', src, u, v, adj[u][v]);
      ChainGrows(lab, src, rank, k', u, v, adj[u][v]);
    }
  }

  /** The main result: `dist` is the least weight over all walks from the source, and `previous`
      spells out a walk without repetitions that has exactly that weight. */
  lemma FinishedIsShortest(adj: Adjacency, src: Name, lab: Labels, rank: Ranks, v: Name)
    requires Finished(adj, src, lab, rank) && v in adj
    ensures v in lab.d && IsDistance(GraphOf(adj), src, v, lab.d[v])
    ensures lab.d[v].Fin? ==>
      exists k :: Leads(GraphOf(adj), k, src, v) && PreviousChain(lab, src, k, v) && Weight(k) == lab.d[v].value
    ensures lab.d[v].Inf? ==> v in lab.p && lab.p[v] == None
  {
    var cur :| Inv(adj, src, lab, rank, cur, {});
    assert Labelled(adj, src, lab, rank, v);
    forall k | Leads(GraphOf(adj), k, src, v)
      ensures AtMost(lab.d[v], Fin(Weight(k)))
    {
      NoShorterWalk(adj, src, lab, rank, k, v);
    }
    if lab.d[v].Fin? {
      var k := ChainTo(adj, src, lab, rank, v);
    }
  }

  // ---------------------------------------------------------------- which of the shortest walks

  /** The distance of `v` is reached over its neighbour `u`. */
  ghost predicate Tight(adj: Adjacency, lab: Labels, u: Name, v: Name) {
    && u in adj && v in adj[u] && u in lab.d && v in lab.d
    && lab.d[u].Fin? && lab.d[v] == Plus(lab.d[u], adj[u][v])
  }

  /** `u` is the first one polled of the vertices over which the distance of `v` is reached. */
  ghost predicate FirstOver(adj: Adjacency, lab: Labels, rank: Ranks, u: Name, v: Name) {
    Tight(adj, lab, u, v) && u in rank && forall x :: Tight(adj, lab, x, v) ==> x in rank && rank[u] <= rank[x]
  }

  /** `u` is the closest of the vertices over which the distance of `v` is reached, of several the one
      with the earliest name. */
  ghost predicate NearestOver(adj: Adjacency, lab: Labels, u: Name, v: Name) {
    Tight(adj, lab, u, v) && forall x :: Tight(adj, lab, x, v) && x != u ==> KeyLess(lab.d[u], u, lab.d[x], x)
  }

  ghost predicate Positive(adj: Adjacency) {
    forall u, v :: u in adj && v in adj[u] ==> adj[u][v] > 0
  }

  /** The previous vertex of a reached vertex is the first one polled of those over which its distance
      is reached. */
  lemma PreviousIsFirst(adj: Adjacency, src: Name, lab: Labels, rank: Ranks, u: Name, v: Name)
    requires Finished(adj, src, lab, rank) && v in adj && v != src && lab.d[v].Fin?
    ensures lab.p[v] == Some(u) <==> FirstOver(adj, lab, rank, u, v)
  {
    var cur :| Inv(adj, src, lab, rank, cur, {});
    assert Labelled(adj, src, lab, rank, v);
    forall x | Tight(adj, lab, x, v)
      ensures x in rank && rank[lab.p[v].value] <= rank[x]
    {
      assert NotEarlier(adj, src, lab, rank, cur, {}, x, v);
    }
  }

  /** Without arcs of weight zero the vertices were polled by distance, and by name where that is equal. */
  lemma PolledByKey(adj: Adjacency, src: Name, lab: Labels, rank: Ranks, u: Name, v: Name)
    requires Finished(adj, src, lab, rank) && u in rank && v in rank && u != v && Positive(adj)
    ensures rank[u] < rank[v] <==> KeyLess(lab.d[u], u, lab.d[v], v)
  {
    var cur :| Inv(adj, src, lab, rank, cur, {});
    if rank[u] < rank[v] {
      FirstHasLess(adj, src, lab, rank, u, v);
    } else {
      FirstHasLess(adj, src, lab, rank, v, u);
      EarlierOneWay(u.text, v.text);
    }
  }

  lemma FirstHasLess(adj: Adjacency, src: Name, lab: Labels, rank: Ranks, u: Name, v: Name)
    requires Finished(adj, src, lab, rank) && u in rank && v in rank && rank[u] < rank[v] && Positive(adj)
    ensures KeyLess(lab.d[u], u, lab.d[v], v)
  {
    var cur :| Inv(adj, src, lab, rank, cur, {});
    assert RightlyFirst(src, lab, rank, u, v) && Labelled(adj, src, lab, rank, v);
    if v != src && LabelledSince(lab, rank, u, v) {
      assert NoFarther(lab, rank, u, lab.p[v].value);
    }
  }

  lemma FirstIsNearest(adj: Adjacency, src: Name, lab: Labels, rank: Ranks, u: Name, v: Name)
    requires Finished(adj, src, lab, rank) && Positive(adj) && FirstOver(adj, lab, rank, u, v)
    ensures NearestOver(adj, lab, u, v)
  {
    var cur :| Inv(adj, src, lab, rank, cur, {});
    forall x | Tight(adj, lab, x, v) && x != u
      ensures KeyLess(lab.d[u], u, lab.d[x], x)
    {
      assert rank[u] != rank[x];
      PolledByKey(adj, src, lab, rank, u, x);
    }
  }

  lemma OneNearest(adj: Adjacency, lab: Labels, u: Name, x: Name, v: Name)
    requires NearestOver(adj, lab, u, v) && NearestOver(adj, lab, x, v)
    ensures u == x
  {
    EarlierOneWay(u.text, x.text);
  }

  /** So, without arcs of weight zero, the previous vertex of a reached vertex is the closest, and of
      several the first by name, of those over which its distance is reached. */
  lemma PreviousIsNearest(adj: Adjacency, src: Name, lab: Labels, rank: Ranks, u: Name, v: Name)
    requires Finished(adj, src, lab, rank) && v in adj && v != src && lab.d[v].Fin? && Positive(adj)
    ensures lab.p[v] == Some(u) <==> NearestOver(adj, lab, u, v)
  {
    assert lab.p[v].Some? by {
      var cur :| Inv(adj, src, lab, rank, cur, {});
      assert Labelled(adj, src, lab, rank, v);
    }
    var q := lab.p[v].value;
    PreviousIsFirst(adj, src, lab, rank, q, v);
    FirstIsNearest(adj, src, lab, rank, q, v);
    if NearestOver(adj, lab, u, v) {
      OneNearest(adj, lab, q, u, v);
    }
  }

  /** The two results for the steps of a chain of previous vertices. */
  lemma ChainOverFirst(adj: Adjacency, src: Name, lab: Labels, rank: Ranks, k: Walk<Name>, v: Name, i: nat)
    requires Finished(adj, src, lab, rank) && PreviousChain(lab, src, k, v) && i < |k.ws|
    ensures FirstOver(adj, lab, rank, k.vs[i], k.vs[i + 1])
    ensures Positive(adj) ==> NearestOver(adj, lab, k.vs[i], k.vs[i + 1])
  {
    var cur :| Inv(adj, src, lab, rank, cur, {});
    assert FollowsPrevious(lab, k, i) && k.vs[0] != k.vs[i + 1];
    assert Labelled(adj, src, lab, rank, k.vs[i + 1]);
    PreviousIsFirst(adj, src, lab, rank, k.vs[i], k.vs[i + 1]);
    if Positive(adj) {
      PreviousIsNearest(adj, src, lab, rank, k.vs[i], k.vs[i + 1]);
    }
  }
}
