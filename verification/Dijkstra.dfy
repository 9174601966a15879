/** The vertex objects, the ordered set and the two `dijkstra` methods of
    algorithms/java/Others/Dijkstra.java. */
module Dijkstra {
  import opened Walks
  import opened DijkstraLabels
  import opened Names
  import opened Wrappers

  class Vertex {
    const name: Name
    var dist: Dist
    var previous: Vertex?
    var neighbours: map<Vertex, int>

    constructor (name: Name)
      ensures this.name == name && dist == Inf && previous == null && neighbours == map[]
    {
      this.name := name;
      dist, previous, neighbours := Inf, null, map[];
    }
  }

  // ---------------------------------------------------------------- the order of vertices

  function CompareDist(a: Dist, b: Dist): int {
    if a == b then 0 else if AtMost(a, b) then -1 else 1
  }

  /** The sign of Vertex.compareTo for vertices with these labels and names. */
  function Compare(d: Dist, n: Name, e: Dist, m: Name): int {
    if d == e then CompareNames(n.text, m.text) else CompareDist(d, e)
  }

  lemma CompareLaws(d: Dist, n: Name, e: Dist, m: Name)
    ensures Compare(d, n, e, m) < 0 <==> Compare(e, m, d, n) > 0
    ensures Compare(d, n, e, m) == 0 <==> d == e && n == m
  {
    CompareNamesLaws(n.text, m.text);
  }

  lemma CompareTransitive(d: Dist, n: Name, e: Dist, m: Name, f: Dist, o: Name)
    requires Compare(d, n, e, m) < 0 && Compare(e, m, f, o) < 0
    ensures Compare(d, n, f, o) < 0
  {
    if d == e == f {
      CompareNamesTransitive(n.text, m.text, o.text);
    }
  }

  /** compareTo orders by distance, and by the dictionary order of the names where that is equal. */
  lemma CompareIsByKey(d: Dist, n: Name, e: Dist, m: Name)
    ensures Compare(d, n, e, m) < 0 <==> KeyLess(d, n, e, m)
  {
    CompareNamesIsDictionary(n.text, m.text);
  }

  predicate Before(a: Vertex, b: Vertex)
    reads a, b
  {
    Compare(a.dist, a.name, b.dist, b.name) < 0
  }

  // ---------------------------------------------------------------- java.util.TreeSet<Vertex>

  ghost predicate Sorted(s: seq<Vertex>)
    reads s
  {
    forall i, j :: 0 <= i < j < |s| ==> Before(s[i], s[j])
  }

  /** Different vertices have different names. */
  ghost predicate Named(s: seq<Vertex>, v: Vertex)
  {
    forall i :: 0 <= i < |s| && s[i].name == v.name ==> s[i] == v
  }

  /** A set kept in order by comparing its elements.  All operations rely on the keys of the elements
      being what they were on insertion, which is what `Sorted` says. */
  class TreeSet {
    var elems: seq<Vertex>

    constructor ()
      ensures elems == []
    {
      elems := [];
    }

    /** The place of `v` in the order. */
    method Place(v: Vertex) returns (k: nat)
      requires Sorted(elems)
      ensures k <= |elems|
      ensures forall i :: 0 <= i < k ==> Before(elems[i], v)
      ensures forall i :: k <= i < |elems| ==> !Before(elems[i], v)
    {
      k := 0;
      while k < |elems| && Before(elems[k], v)
        invariant k <= |elems| && forall i :: 0 <= i < k ==> Before(elems[i], v)
      {
        k := k + 1;
      }
      if k < |elems| {
        forall i | k <= i < |elems|
          ensures !Before(elems[i], v)
        {
          if i > k && Before(elems[i], v) {
            CompareTransitive(elems[k].dist, elems[k].name, elems[i].dist, elems[i].name, v.dist, v.name);
          }
        }
      }
    }

    method Add(v: Vertex)
      requires Sorted(elems) && Named(elems, v)
      modifies this
      ensures Sorted(elems)
      ensures forall x :: x in elems <==> x == v || x in old(elems)
    {
      var k := Place(v);
      FoundAt(elems, v, k);
      if k == |elems| || Before(v, elems[k]) {
        ghost var s := elems;
        elems := elems[..k] + [v] + elems[k..];
        InsertSorted(s, v, k);
        assert s == s[..k] + s[k..];
      }
    }

    method Remove(v: Vertex)
      requires Sorted(elems) && Named(elems, v)
      modifies this
      ensures Sorted(elems)
      ensures forall x :: x in elems <==> x != v && x in old(elems)
    {
      var k := Place(v);
      FoundAt(elems, v, k);
      if k < |elems| && !Before(v, elems[k]) {
        RemoveSorted(elems, k);
        elems := RemoveAt(elems, k);
      }
    }

    method PollFirst() returns (v: Vertex)
      requires Sorted(elems) && elems != []
      modifies this
      ensures v in old(elems) && Sorted(elems)
      ensures forall x :: x in elems <==> x != v && x in old(elems)
      ensures forall i :: 0 <= i < |elems| ==> KeyLess(v.dist, v.name, elems[i].dist, elems[i].name)
    {
      v := elems[0];
      FirstIsLeast(elems);
      elems := elems[1..];
    }
  }

  function RemoveAt(s: seq<Vertex>, k: nat): seq<Vertex>
    requires k < |s|
  {
    s[..k] + s[k + 1..]
  }

  lemma FirstIsLeast(s: seq<Vertex>)
    requires Sorted(s) && s != []
    ensures Sorted(s[1..])
    ensures forall x :: x in s[1..] <==> x != s[0] && x in s
    ensures forall i :: 0 <= i < |s[1..]| ==> KeyLess(s[0].dist, s[0].name, s[1..][i].dist, s[1..][i].name)
  {
    RemoveSorted(s, 0);
    assert RemoveAt(s, 0) == s[1..];
    forall i | 0 <= i < |s[1..]|
      ensures KeyLess(s[0].dist, s[0].name, s[1..][i].dist, s[1..][i].name)
    {
      assert Before(s[0], s[i + 1]);
      CompareIsByKey(s[0].dist, s[0].name, s[i + 1].dist, s[i + 1].name);
    }
  }

  lemma InsertSorted(s: seq<Vertex>, v: Vertex, k: nat)
    requires Sorted(s) && k <= |s| && (forall i :: 0 <= i < k ==> Before(s[i], v))
    requires k < |s| ==> Before(v, s[k])
    ensures Sorted(s[..k] + [v] + s[k..])
  {
    var r := s[..k] + [v] + s[k..];
    forall i, j | 0 <= i < j < |r|
      ensures Before(r[i], r[j])
    {
      if i == k && j > k + 1 {
        assert Before(s[k], s[j - 1]);
        CompareTransitive(v.dist, v.name, s[k].dist, s[k].name, s[j - 1].dist, s[j - 1].name);
      }
    }
  }

  /** `v` is in the set exactly when the element at its place compares equal to it. */
  lemma FoundAt(s: seq<Vertex>, v: Vertex, k: nat)
    requires Sorted(s) && Named(s, v) && k <= |s| && (forall i :: 0 <= i < k ==> Before(s[i], v))
    requires forall i :: k <= i < |s| ==> !Before(s[i], v)
    ensures v in s <==> k < |s| && !Before(v, s[k])
    ensures k < |s| && !Before(v, s[k]) ==> s[k] == v
  {
    CompareLaws(v.dist, v.name, v.dist, v.name);
    if v in s {
      var i :| 0 <= i < |s| && s[i] == v;
      assert forall j :: 0 <= j < i ==> Before(s[j], s[i]);
    }
    if k < |s| {
      CompareLaws(v.dist, v.name, s[k].dist, s[k].name);
      CompareLaws(s[k].dist, s[k].name, v.dist, v.name);
    }
  }

  lemma RemoveSorted(s: seq<Vertex>, k: nat)
    requires Sorted(s) && k < |s|
    ensures Sorted(RemoveAt(s, k))
    ensures forall x :: x in RemoveAt(s, k) <==> x != s[k] && x in s
  {
    var r := RemoveAt(s, k);
    forall i | 0 <= i < |s| && i != k
      ensures s[i] != s[k] && s[i] in r
    {
      CompareLaws(s[k].dist, s[k].name, s[k].dist, s[k].name);
      assert if i < k then Before(s[i], s[k]) else Before(s[k], s[i]);
      assert r[if i < k then i else i - 1] == s[i];
    }
    forall i | 0 <= i < |r|
      ensures r[i] in s && r[i] != s[k]
    {
      assert r[i] == s[if i < k then i else i + 1];
    }
  }

  // ---------------------------------------------------------------- the graph in the heap

  /** Every vertex is stored under its own name. */
  ghost predicate Vertices(graph: map<Name, Vertex>) {
    forall n :: n in graph ==> graph[n].name == n
  }

  /** The neighbour maps of the vertices are `nb`. */
  ghost predicate Neighbours(graph: map<Name, Vertex>, nb: map<Name, map<Vertex, int>>)
    reads graph.Values
  {
    nb.Keys == graph.Keys && forall n :: n in graph ==> graph[n].neighbours == nb[n]
  }

  /** The neighbour maps spell out `adj`. */
  ghost predicate Wired(graph: map<Name, Vertex>, nb: map<Name, map<Vertex, int>>, adj: Adjacency) {
    && adj.Keys == graph.Keys == nb.Keys
    && forall n {:trigger WiredAt(graph, nb[n], adj[n])} :: n in graph ==> WiredAt(graph, nb[n], adj[n])
  }

  ghost predicate WiredAt(graph: map<Name, Vertex>, nb: map<Vertex, int>, arcs: map<Name, int>) {
    && (forall v :: v in nb ==> v.name in graph && graph[v.name] == v && v.name in arcs && arcs[v.name] == nb[v])
    && (forall m :: m in arcs ==> m in graph && graph[m] in nb)
  }

  /** The fields `dist` and `previous` are those of `lab`. */
  ghost predicate Shows(graph: map<Name, Vertex>, lab: Labels)
    reads graph.Values
  {
    && lab.d.Keys == lab.p.Keys == graph.Keys
    && forall n {:trigger ShowsAt(graph, lab, n)} :: n in graph ==> ShowsAt(graph, lab, n)
  }

  ghost predicate ShowsAt(graph: map<Name, Vertex>, lab: Labels, n: Name)
    requires n in graph && n in lab.d && n in lab.p
    reads graph.Values
  {
    && graph[n].dist == lab.d[n]
    && match lab.p[n] {
         case None => graph[n].previous == null
         case Some(m) => m in graph && graph[n].previous == graph[m]
       }
  }

  /** The set holds exactly the vertices not yet polled, in order. */
  ghost predicate Queued(elems: seq<Vertex>, graph: map<Name, Vertex>, rank: Ranks)
    reads elems
  {
    && Sorted(elems)
    && (forall i :: 0 <= i < |elems| ==> elems[i].name in graph && graph[elems[i].name] == elems[i])
    && (forall n :: n in graph ==> (graph[n] in elems <==> n !in rank))
  }

  lemma QueuedNamed(elems: seq<Vertex>, graph: map<Name, Vertex>, v: Vertex)
    requires v.name in graph && graph[v.name] == v
    requires forall i :: 0 <= i < |elems| ==> elems[i].name in graph && graph[elems[i].name] == elems[i]
    ensures Named(elems, v)
  {
  }

  // ---------------------------------------------------------------- the algorithm

  /** Takes `v` out of the set, changes its key, and puts it back. */
  method Rekey(graph: map<Name, Vertex>, q: TreeSet, u: Vertex, v: Vertex, d: Dist, ghost rank: Ranks)
    requires Vertices(graph) && Queued(q.elems, graph, rank)
    requires v.name in graph && graph[v.name] == v && v.name !in rank
    modifies q, v
    ensures Queued(q.elems, graph, rank)
    ensures v.dist == d && v.previous == u && v.neighbours == old(v.neighbours)
  {
    QueuedNamed(q.elems, graph, v);
    q.Remove(v);
    v.dist := d;
    v.previous := u;
    forall i | 0 <= i < |q.elems|
      ensures q.elems[i].name in graph && graph[q.elems[i].name] == q.elems[i]
    {
      assert q.elems[i] in old(q.elems);
    }
    QueuedNamed(q.elems, graph, v);
    ghost var rest := q.elems;
    q.Add(v);
    forall i | 0 <= i < |q.elems|
      ensures q.elems[i].name in graph && graph[q.elems[i].name] == q.elems[i]
    {
      assert q.elems[i] in q.elems;
      assert q.elems[i] == v || q.elems[i] in rest;
    }
  }

  /** The labels of all other vertices stay as they are. */
  ghost predicate OthersSame(graph: map<Name, Vertex>, v: Name, lab: Labels)
    requires v in graph && lab.d.Keys == lab.p.Keys == graph.Keys
    reads graph.Values
  {
    forall n {:trigger ShowsAt(graph, lab, n)} :: n in graph && n != v ==> ShowsAt(graph, lab, n)
  }

  lemma RelabelShows(graph: map<Name, Vertex>, lab: Labels, u: Name, v: Name, d: Dist)
    requires u in graph && v in graph && lab.d.Keys == lab.p.Keys == graph.Keys && OthersSame(graph, v, lab)
    requires graph[v].dist == d && graph[v].previous == graph[u]
    ensures Shows(graph, Relabel(lab, u, v, d))
  {
    var lab' := Relabel(lab, u, v, d);
    assert lab'.d.Keys == graph.Keys && lab'.p.Keys == graph.Keys;
    forall n | n in graph
      ensures ShowsAt(graph, lab', n)
    {
      if n != v {
        assert ShowsAt(graph, lab, n);
      }
    }
  }

  /** The body of the inner loop for the arc from `u` to `v`. */
  method LookAt(graph: map<Name, Vertex>, q: TreeSet, u: Vertex, v: Vertex, w: int, ghost adj: Adjacency,
                ghost lab: Labels, ghost rank: Ranks)
    requires Vertices(graph) && Shows(graph, lab) && Queued(q.elems, graph, rank)
    requires u.name in graph && graph[u.name] == u && u.name in adj
    requires v.name in graph && graph[v.name] == v && v.name in adj[u.name] && adj[u.name][v.name] == w
    requires Improves(adj, lab, u.name, v.name) ==> v.name !in rank
    modifies q, v
    ensures Shows(graph, AfterArc(adj, lab, u.name, v.name)) && Queued(q.elems, graph, rank)
    ensures v.neighbours == old(v.neighbours)
  {
    assert ShowsAt(graph, lab, u.name) && ShowsAt(graph, lab, v.name);
    if !AtMost(v.dist, Plus(u.dist, w)) {
      var d := Plus(u.dist, w);
      Rekey(graph, q, u, v, d, rank);
      forall n | n in graph && n != v.name
        ensures ShowsAt(graph, lab, n)
      {
        assert old(ShowsAt(graph, lab, n)) && graph[n] != v;
      }
      RelabelShows(graph, lab, u.name, v.name, d);
    }
  }

  /** All that the loops keep: the heap shows the labels, the neighbour maps and the set. */
  ghost predicate Running(graph: map<Name, Vertex>, elems: seq<Vertex>, nb: map<Name, map<Vertex, int>>,
                          lab: Labels, rank: Ranks)
    reads graph.Values, elems
  {
    Vertices(graph) && Neighbours(graph, nb) && Shows(graph, lab) && Queued(elems, graph, rank)
  }

  /** One round of the inner loop, for the arc from `u` to `v`. */
  method RelaxOne(graph: map<Name, Vertex>, q: TreeSet, u: Vertex, v: Vertex, w: int, ghost adj: Adjacency,
                  ghost nb: map<Name, map<Vertex, int>>, ghost src: Name, ghost lab: Labels,
                  ghost rank: Ranks, ghost todo: set<Name>)
    requires Running(graph, q.elems, nb, lab, rank)
    requires u.name in graph && graph[u.name] == u && u.name in adj && u.name in rank && rank[u.name] == |rank| - 1
    requires v.name in graph && graph[v.name] == v && v.name in adj[u.name] && v.name in adj && adj[u.name][v.name] == w
    requires Inv(adj, src, lab, rank, u.name, todo)
    modifies q, v
    ensures Running(graph, q.elems, nb, AfterArc(adj, lab, u.name, v.name), rank)
    ensures Inv(adj, src, AfterArc(adj, lab, u.name, v.name), rank, u.name, todo - {v.name})
  {
    ArcInv(adj, src, lab, rank, todo, u.name, v.name);
    LookAt(graph, q, u, v, w, adj, lab, rank);
  }

  /** The arcs to `todo` are among those not yet taken from the neighbour map. */
  ghost predicate Remaining(graph: map<Name, Vertex>, todo: set<Name>, rest: set<Vertex>) {
    forall m :: m in todo ==> m in graph && graph[m] in rest
  }

  lemma OneTaken(graph: map<Name, Vertex>, todo: set<Name>, rest: set<Vertex>, v: Vertex)
    requires Vertices(graph) && Remaining(graph, todo, rest)
    ensures Remaining(graph, todo - {v.name}, rest - {v})
  {
    forall m | m in todo - {v.name}
      ensures m in graph && graph[m] in rest - {v}
    {
      assert graph[m].name == m;
    }
  }

  /** The inner loop: all arcs out of `u`, in any order. */
  method RelaxAll(graph: map<Name, Vertex>, q: TreeSet, u: Vertex, ghost adj: Adjacency,
                  ghost nb: map<Name, map<Vertex, int>>, ghost src: Name, ghost start: Labels,
                  ghost rank: Ranks)
      returns (ghost lab: Labels)
    requires Running(graph, q.elems, nb, start, rank) && Wired(graph, nb, adj)
    requires u.name in graph && graph[u.name] == u && u.name in adj && u.name in rank && rank[u.name] == |rank| - 1
    requires Inv(adj, src, start, rank, u.name, adj[u.name].Keys)
    modifies q, graph.Values
    ensures Running(graph, q.elems, nb, lab, rank)
    ensures Inv(adj, src, lab, rank, u.name, {})
  {
    lab := start;
    ghost var todo := adj[u.name].Keys;
    assert WiredAt(graph, nb[u.name], adj[u.name]);
    var arcs := u.neighbours;
    var rest := arcs.Keys;
    while rest != {}
      invariant Running(graph, q.elems, nb, lab, rank) && Inv(adj, src, lab, rank, u.name, todo)
      invariant rest <= arcs.Keys && Remaining(graph, todo, rest)
      decreases rest
    {
      var v :| v in rest;
      RelaxOne(graph, q, u, v, arcs[v], adj, nb, src, lab, rank, todo);
      lab := AfterArc(adj, lab, u.name, v.name);
      OneTaken(graph, todo, rest, v);
      todo := todo - {v.name};
      rest := rest - {v};
    }
    assert todo == {};
  }

  /** The vertex just polled moves from the set to the ranked vertices. */
  lemma PolledQueue(elems: seq<Vertex>, rest: seq<Vertex>, graph: map<Name, Vertex>, rank: Ranks, u: Vertex)
    requires Vertices(graph) && Queued(elems, graph, rank) && u in elems && Sorted(rest)
    requires forall x :: x in rest <==> x != u && x in elems
    ensures u.name in graph && graph[u.name] == u && u.name !in rank
    ensures Queued(rest, graph, rank[u.name := |rank|])
  {
    var i :| 0 <= i < |elems| && elems[i] == u;
    assert elems[i].name in graph;
    forall j | 0 <= j < |rest|
      ensures rest[j].name in graph && graph[rest[j].name] == rest[j]
    {
      assert rest[j] in rest;
      var k :| 0 <= k < |elems| && elems[k] == rest[j];
    }
  }

  /** Of the vertices that were in the set the polled one is a closest one, and the first of those by name. */
  lemma PolledIsLeast(rest: seq<Vertex>, graph: map<Name, Vertex>, rank: Ranks, u: Vertex, lab: Labels)
    requires Shows(graph, lab) && u.name in graph && graph[u.name] == u
    requires Vertices(graph) && forall i :: 0 <= i < |rest| ==> KeyLess(u.dist, u.name, rest[i].dist, rest[i].name)
    requires forall n :: n in graph && n !in rank ==> graph[n] == u || graph[n] in rest
    ensures LeastKey(graph.Keys, lab, rank, u.name)
  {
    forall n | n in graph && n !in rank && n != u.name
      ensures KeyLess(lab.d[u.name], u.name, lab.d[n], n)
    {
      assert ShowsAt(graph, lab, n) && ShowsAt(graph, lab, u.name);
    }
  }

  /** pollFirst: the closest vertex leaves the set, of several the one with the earliest name. */
  method Poll(graph: map<Name, Vertex>, q: TreeSet, ghost nb: map<Name, map<Vertex, int>>, ghost lab: Labels,
              ghost rank: Ranks)
      returns (u: Vertex)
    requires Running(graph, q.elems, nb, lab, rank) && q.elems != []
    modifies q
    ensures u.name in graph && graph[u.name] == u && u.name !in rank && u.dist == lab.d[u.name]
    ensures Running(graph, q.elems, nb, lab, rank[u.name := |rank|])
    ensures LeastKey(graph.Keys, lab, rank, u.name)
  {
    ghost var elems := q.elems;
    u := q.PollFirst();
    assert Queued(elems, graph, rank);
    PolledQueue(elems, q.elems, graph, rank, u);
    PolledIsLeast(q.elems, graph, rank, u, lab);
    assert ShowsAt(graph, lab, u.name);
  }

  /** The body of the loop for a reached vertex `u` that was just polled. */
  method Settle(graph: map<Name, Vertex>, q: TreeSet, u: Vertex, ghost adj: Adjacency,
                ghost nb: map<Name, map<Vertex, int>>, ghost src: Name, ghost start: Labels,
                ghost rank: Ranks, ghost cur: Name)
      returns (ghost lab: Labels)
    requires u.name in graph && graph[u.name] == u && u.name !in rank && start.d.Keys == graph.Keys
    requires Running(graph, q.elems, nb, start, rank[u.name := |rank|]) && Wired(graph, nb, adj)
    requires Inv(adj, src, start, rank, cur, {}) && start.d[u.name].Fin? && LeastKey(graph.Keys, start, rank, u.name)
    modifies q, graph.Values
    ensures Running(graph, q.elems, nb, lab, rank[u.name := |rank|])
    ensures Inv(adj, src, lab, rank[u.name := |rank|], u.name, {})
  {
    PollInv(adj, src, start, rank, cur, u.name);
    lab := RelaxAll(graph, q, u, adj, nb, src, start, rank[u.name := |rank|]);
  }

  /** The loop of the private `dijkstra`. */
  method Loop(graph: map<Name, Vertex>, q: TreeSet, ghost adj: Adjacency, ghost nb: map<Name, map<Vertex, int>>,
              ghost src: Name, ghost start: Labels)
      returns (ghost lab: Labels, ghost rank: Ranks)
    requires Running(graph, q.elems, nb, start, map[]) && Wired(graph, nb, adj)
    requires Inv(adj, src, start, map[], src, {})
    modifies q, graph.Values
    ensures Neighbours(graph, nb) && Shows(graph, lab) && Finished(adj, src, lab, rank)
  {
    ghost var cur := src;
    lab, rank := start, map[];
    while q.elems != []
      invariant Running(graph, q.elems, nb, lab, rank) && Inv(adj, src, lab, rank, cur, {})
      decreases adj.Keys - rank.Keys
    {
      var u := Poll(graph, q, nb, lab, rank);
      if u.dist.Inf? {
        NoneLeft(adj, src, lab, rank, cur, u.name);
        return;
      }
      lab := Settle(graph, q, u, adj, nb, src, lab, rank, cur);
      cur, rank := u.name, rank[u.name := |rank|];
    }
    AllPolled(graph, adj, src, lab, rank, cur);
  }

  lemma AllPolled(graph: map<Name, Vertex>, adj: Adjacency, src: Name, lab: Labels, rank: Ranks,
                  cur: Name)
    requires adj.Keys == graph.Keys && Queued([], graph, rank) && Inv(adj, src, lab, rank, cur, {})
    ensures Finished(adj, src, lab, rank)
  {
    forall n | n in adj
      ensures n in rank
    {
      assert graph[n] !in [];
    }
  }

  // ---------------------------------------------------------------- the public method

  /** The vertices in `rest` still have to be set up; for the others the labels are right and they
      are in the set. */
  ghost predicate SettingUp(graph: map<Name, Vertex>, elems: seq<Vertex>, nb: map<Name, map<Vertex, int>>,
                            lab: Labels, rest: Ranks)
    requires lab.d.Keys == lab.p.Keys == graph.Keys
    reads graph.Values, elems
  {
    && Vertices(graph) && Neighbours(graph, nb) && Queued(elems, graph, rest)
    && forall n {:trigger ShowsAt(graph, lab, n)} :: n in graph && n !in rest ==> ShowsAt(graph, lab, n)
  }

  /** Labels a vertex that is not in the set and adds it. */
  method Enqueue(graph: map<Name, Vertex>, q: TreeSet, v: Vertex, d: Dist, p: Vertex?, ghost rest: Ranks)
    requires Vertices(graph) && Queued(q.elems, graph, rest)
    requires v.name in graph && graph[v.name] == v && v.name in rest
    modifies q, v
    ensures Queued(q.elems, graph, rest - {v.name})
    ensures v.dist == d && v.previous == p && v.neighbours == old(v.neighbours)
  {
    ghost var elems := q.elems;
    assert v !in elems;
    v.previous := p;
    v.dist := d;
    QueuedNamed(q.elems, graph, v);
    q.Add(v);
    AddedQueue(elems, q.elems, graph, rest, v);
  }

  /** The body of the loop that sets the vertices up. */
  method SetUpOne(graph: map<Name, Vertex>, q: TreeSet, v: Vertex, source: Vertex,
                  ghost nb: map<Name, map<Vertex, int>>, ghost rest: Ranks)
    requires v.name in graph && graph[v.name] == v && v.name in rest
    requires source.name in graph && graph[source.name] == source
    requires SettingUp(graph, q.elems, nb, StartLabels(graph.Keys, source.name), rest)
    modifies q, v
    ensures SettingUp(graph, q.elems, nb, StartLabels(graph.Keys, source.name), rest - {v.name})
  {
    ghost var lab := StartLabels(graph.Keys, source.name);
    Enqueue(graph, q, v, if v == source then Fin(0) else Inf, if v == source then source else null, rest);
    forall n | n in graph && n !in rest - {v.name}
      ensures ShowsAt(graph, lab, n)
    {
      assert n != v.name ==> graph[n] != v && old(ShowsAt(graph, lab, n));
    }
  }

  lemma AddedQueue(elems: seq<Vertex>, more: seq<Vertex>, graph: map<Name, Vertex>, rest: Ranks, v: Vertex)
    requires Vertices(graph) && Queued(elems, graph, rest) && Sorted(more)
    requires v.name in graph && graph[v.name] == v && forall x :: x in more <==> x == v || x in elems
    ensures Queued(more, graph, rest - {v.name})
  {
    forall i | 0 <= i < |more|
      ensures more[i].name in graph && graph[more[i].name] == more[i]
    {
      assert more[i] in more;
      if more[i] != v {
        var k :| 0 <= k < |elems| && elems[k] == more[i];
      }
    }
  }

  /** Sets all vertices up, in any order, and fills the set. */
  method SetUp(graph: map<Name, Vertex>, source: Vertex, ghost nb: map<Name, map<Vertex, int>>) returns (q: TreeSet)
    requires Vertices(graph) && Neighbours(graph, nb) && source.name in graph && graph[source.name] == source
    modifies graph.Values
    ensures fresh(q) && Running(graph, q.elems, nb, StartLabels(graph.Keys, source.name), map[])
  {
    q := new TreeSet();
    ghost var lab := StartLabels(graph.Keys, source.name);
    var rest: map<Name, nat> := map n | n in graph.Keys :: 0;
    while rest.Keys != {}
      invariant rest.Keys <= graph.Keys && SettingUp(graph, q.elems, nb, lab, rest)
      decreases rest.Keys
    {
      var n :| n in rest.Keys;
      SetUpOne(graph, q, graph[n], source, nb, rest);
      rest := rest - {n};
    }
    assert rest == map[];
  }

  // ---------------------------------------------------------------- the class

  datatype Edge = Edge(v1: Name, v2: Name, dist: int)

  /** The arcs out of `n`: of several edges to the same vertex the last one counts. */
  function OutArcs(edges: seq<Edge>, n: Name): map<Name, int> {
    if edges == [] then map[]
    else
      var m, e := OutArcs(edges[..|edges| - 1], n), edges[|edges| - 1];
      if e.v1 == n then m[e.v2 := e.dist] else m
  }

  function Ends(edges: seq<Edge>): set<Name> {
    if edges == [] then {} else Ends(edges[..|edges| - 1]) + {edges[|edges| - 1].v1, edges[|edges| - 1].v2}
  }

  /** Adjacency of the given vertices after some of the edges. */
  function ArcsSoFar(names: set<Name>, edges: seq<Edge>): Adjacency {
    map n | n in names :: OutArcs(edges, n)
  }

  function ArcsOf(edges: seq<Edge>): Adjacency {
    ArcsSoFar(Ends(edges), edges)
  }

  /** Edge `i` is the last one from `n` to `m`. */
  ghost predicate LastEdge(edges: seq<Edge>, n: Name, m: Name, i: nat) {
    && i < |edges| && edges[i].v1 == n && edges[i].v2 == m
    && forall j :: i < j < |edges| ==> !(edges[j].v1 == n && edges[j].v2 == m)
  }

  lemma {:induction false} LastEdgeCounts(edges: seq<Edge>, n: Name, m: Name)
    ensures m in OutArcs(edges, n) <==> exists i: nat :: LastEdge(edges, n, m, i)
    ensures forall i: nat :: LastEdge(edges, n, m, i) ==> OutArcs(edges, n)[m] == edges[i].dist
  {
    if edges != [] {
      var k := |edges| - 1;
      var es, e := edges[..k], edges[k];
      LastEdgeCounts(es, n, m);
      if e.v1 == n && e.v2 == m {
        assert LastEdge(edges, n, m, k);
      } else {
        forall i: nat
          ensures LastEdge(edges, n, m, i) <==> LastEdge(es, n, m, i)
        {
          assert forall j :: 0 <= j < k ==> edges[j] == es[j];
        }
      }
    }
  }

  /** Vertices no search has labelled. */
  ghost predicate Unlabelled(graph: map<Name, Vertex>)
    reads graph.Values
  {
    forall n :: n in graph ==> graph[n].dist == Inf && graph[n].previous == null
  }

  ghost predicate Bare(graph: map<Name, Vertex>)
    reads graph.Values
  {
    Vertices(graph) && Unlabelled(graph) && forall n :: n in graph ==> graph[n].neighbours == map[]
  }

  /** The first pass of the constructor: a vertex for every name. */
  method MakeVertices(edges: seq<Edge>) returns (graph: map<Name, Vertex>)
    ensures graph.Keys == Ends(edges) && Bare(graph) && fresh(graph.Values)
  {
    graph := map[];
    for i := 0 to |edges|
      invariant graph.Keys == Ends(edges[..i]) && Bare(graph) && fresh(graph.Values)
    {
      EndsGrow(edges, i);
      graph := WithEnds(graph, edges[i]);
    }
    assert edges[..|edges|] == edges;
  }

  lemma EndsGrow(edges: seq<Edge>, i: nat)
    requires i < |edges|
    ensures Ends(edges[..i + 1]) == Ends(edges[..i]) + {edges[i].v1} + {edges[i].v2}
  {
    assert edges[..i + 1][..i] == edges[..i];
  }

  method WithEnds(graph: map<Name, Vertex>, e: Edge) returns (more: map<Name, Vertex>)
    requires Bare(graph)
    ensures more.Keys == graph.Keys + {e.v1} + {e.v2} && Bare(more) && fresh(more.Values - graph.Values)
  {
    more := WithVertex(graph, e.v1);
    more := WithVertex(more, e.v2);
  }

  method WithVertex(graph: map<Name, Vertex>, n: Name) returns (more: map<Name, Vertex>)
    requires Bare(graph)
    ensures more.Keys == graph.Keys + {n} && Bare(more) && fresh(more.Values - graph.Values)
  {
    more := graph;
    if n !in graph {
      var v := new Vertex(n);
      more := graph[n := v];
      assert more.Values <= graph.Values + {v};
    }
  }

  lemma WiredMore(graph: map<Name, Vertex>, nb: map<Name, map<Vertex, int>>, adj: Adjacency, e: Edge)
    requires Vertices(graph) && Wired(graph, nb, adj) && e.v1 in graph && e.v2 in graph
    ensures Wired(graph, nb[e.v1 := nb[e.v1][graph[e.v2] := e.dist]], adj[e.v1 := adj[e.v1][e.v2 := e.dist]])
  {
    var nb', adj' := nb[e.v1 := nb[e.v1][graph[e.v2] := e.dist]], adj[e.v1 := adj[e.v1][e.v2 := e.dist]];
    forall n | n in graph
      ensures WiredAt(graph, nb'[n], adj'[n])
    {
      assert WiredAt(graph, nb[n], adj[n]);
    }
  }

  lemma ArcsGrow(names: set<Name>, edges: seq<Edge>, i: nat)
    requires i < |edges| && edges[i].v1 in names
    ensures var adj, e := ArcsSoFar(names, edges[..i]), edges[i];
      ArcsSoFar(names, edges[..i + 1]) == adj[e.v1 := adj[e.v1][e.v2 := e.dist]]
  {
    assert edges[..i + 1][..i] == edges[..i];
  }

  lemma {:induction false} EndsContain(edges: seq<Edge>, i: nat)
    requires i < |edges|
    ensures edges[i].v1 in Ends(edges) && edges[i].v2 in Ends(edges)
    decreases |edges|
  {
    if i < |edges| - 1 {
      EndsContain(edges[..|edges| - 1], i);
    }
  }

  ghost predicate EndOf(e: Edge, n: Name) {
    n == e.v1 || n == e.v2
  }

  /** The vertices are the ends of the edges, and nothing else. */
  lemma {:induction false} EndsAreEnds(edges: seq<Edge>, n: Name)
    ensures n in Ends(edges) <==> exists i :: 0 <= i < |edges| && EndOf(edges[i], n)
  {
    if n in Ends(edges) {
      var k := |edges| - 1;
      var es := edges[..k];
      EndsAreEnds(es, n);
      if n in Ends(es) {
        var i :| 0 <= i < |es| && EndOf(es[i], n);
        assert edges[i] == es[i];
      } else {
        assert EndOf(edges[k], n);
      }
    }
    if i :| 0 <= i < |edges| && EndOf(edges[i], n) {
      EndsContain(edges, i);
    }
  }

  /** The arcs of the graph built from the edges: from `v1` to `v2`, with the weight of the last edge between them. */
  lemma ArcsAreLastEdges(edges: seq<Edge>, u: Name, v: Name, w: int)
    ensures GraphOf(ArcsOf(edges))(u, v, w) <==> exists i: nat :: LastEdge(edges, u, v, i) && edges[i].dist == w
  {
    LastEdgeCounts(edges, u, v);
    if i: nat :| LastEdge(edges, u, v, i) {
      EndsContain(edges, i);
    }
  }

  /** The vertices with the arcs entered so far. */
  ghost predicate Entered(graph: map<Name, Vertex>, nb: map<Name, map<Vertex, int>>, adj: Adjacency)
    reads graph.Values
  {
    Vertices(graph) && Unlabelled(graph) && Neighbours(graph, nb) && Wired(graph, nb, adj)
  }

  lemma NothingEntered(graph: map<Name, Vertex>)
    requires Bare(graph)
    ensures Entered(graph, map n | n in graph :: map[], ArcsSoFar(graph.Keys, []))
  {
  }

  /** One edge, entered at its first vertex. */
  method EnterArc(graph: map<Name, Vertex>, e: Edge, ghost nb: map<Name, map<Vertex, int>>, ghost adj: Adjacency)
      returns (ghost nb': map<Name, map<Vertex, int>>)
    requires Entered(graph, nb, adj) && e.v1 in graph && e.v2 in graph
    modifies graph[e.v1]
    ensures Entered(graph, nb', adj[e.v1 := adj[e.v1][e.v2 := e.dist]])
  {
    WiredMore(graph, nb, adj, e);
    var u := graph[e.v1];
    nb' := nb[e.v1 := nb[e.v1][graph[e.v2] := e.dist]];
    u.neighbours := u.neighbours[graph[e.v2] := e.dist];
  }

  /** The second pass: enter every edge at its first vertex. */
  method MakeArcs(edges: seq<Edge>, graph: map<Name, Vertex>) returns (ghost nb: map<Name, map<Vertex, int>>)
    requires graph.Keys == Ends(edges) && Bare(graph)
    modifies graph.Values
    ensures Entered(graph, nb, ArcsOf(edges))
  {
    nb := map n | n in graph :: map[];
    NothingEntered(graph);
    for i := 0 to |edges|
      invariant Entered(graph, nb, ArcsSoFar(graph.Keys, edges[..i]))
    {
      EndsContain(edges, i);
      ArcsGrow(graph.Keys, edges, i);
      nb := EnterArc(graph, edges[i], nb, ArcsSoFar(graph.Keys, edges[..i]));
    }
    assert edges[..|edges|] == edges;
  }

  /** A name printed after an arrow, with the distance beside it. */
  datatype Stop = Stop(name: Name, dist: Dist)

  /** What printPath prints. */
  datatype Path = NoSuchVertex | Unreached(name: Name) | Along(source: Name, stops: seq<Stop>)

  /** The name printed before stop `i`. */
  ghost function StopBefore(path: Path, i: nat): Name
    requires path.Along? && i < |path.stops|
  {
    if i == 0 then path.source else path.stops[i - 1].name
  }

  ghost predicate StopAt(path: Path, k: Walk<Name>, lab: Labels, i: nat)
    requires path.Along? && i < |path.stops| && |k.vs| == |path.stops| + 1
  {
    path.stops[i].name == k.vs[i + 1] && k.vs[i + 1] in lab.d && path.stops[i].dist == lab.d[k.vs[i + 1]]
  }

  /** The vertices of the walk, each but the first with its distance. */
  ghost predicate Lists(path: Path, k: Walk<Name>, lab: Labels) {
    && path.Along? && |k.vs| == |path.stops| + 1 && path.source == k.vs[0]
    && forall i: nat {:trigger StopAt(path, k, lab, i)} :: i < |path.stops| ==> StopAt(path, k, lab, i)
  }

  lemma OneMoreStop(path: Path, k: Walk<Name>, lab: Labels, v: Name, w: int)
    requires Lists(path, k, lab) && v in lab.d
    ensures Lists(Along(path.source, path.stops + [Stop(v, lab.d[v])]), Extend(k, v, w), lab)
  {
    var more, e := Along(path.source, path.stops + [Stop(v, lab.d[v])]), Extend(k, v, w);
    forall i: nat | i < |more.stops|
      ensures StopAt(more, e, lab, i)
    {
      assert i < |path.stops| ==> StopAt(path, k, lab, i);
    }
  }

  /** The labels after a search from `src`, or, when none was `ran`, those of new vertices. */
  ghost predicate Labelling(adj: Adjacency, src: Name, lab: Labels, rank: Ranks, ran: bool) {
    if ran then Finished(adj, src, lab, rank)
    else rank == map[] && lab == NoLabels(adj.Keys)
  }

  function NoLabels(names: set<Name>): Labels {
    Labels(map n | n in names :: Inf, map n | n in names :: None)
  }

  lemma NewLabels(graph: map<Name, Vertex>)
    requires Unlabelled(graph)
    ensures Shows(graph, NoLabels(graph.Keys))
  {
    var lab := NoLabels(graph.Keys);
    forall n | n in graph
      ensures ShowsAt(graph, lab, n)
    {
    }
  }

  /** `path` lists a walk `k` along the `previous` links from the source to `v`, polled in that order. */
  ghost predicate PathFor(adj: Adjacency, src: Name, lab: Labels, rank: Ranks, path: Path, k: Walk<Name>, v: Name) {
    && Lists(path, k, lab) && Leads(GraphOf(adj), k, src, v) && PreviousChain(lab, src, k, v)
    && v in rank && forall i :: 0 <= i < |k.ws| ==> k.vs[i] in rank && rank[k.vs[i]] < rank[v]
  }

  lemma PathGrows(adj: Adjacency, src: Name, lab: Labels, rank: Ranks, path: Path, k: Walk<Name>,
                  u: Name, v: Name, w: int)
    requires PathFor(adj, src, lab, rank, path, k, u) && GraphOf(adj)(u, v, w)
    requires v in lab.d && v in lab.p && lab.p[v] == Some(u) && v in rank && rank[u] < rank[v]
    ensures PathFor(adj, src, lab, rank, Along(path.source, path.stops + [Stop(v, lab.d[v])]), Extend(k, v, w), v)
    ensures Weight(Extend(k, v, w)) == Weight(k) + w
  {
    OneMoreStop(path, k, lab, v, w);
    ExtendLeads(GraphOf(adj), k, src, u, v, w);
    ChainGrows(lab, src, rank, k, u, v, w);
  }

  /** Vertex.printPath: the names from the source to `v` along the `previous` links, with their distances. */
  method PathTo(graph: map<Name, Vertex>, v: Vertex, ghost adj: Adjacency, ghost src: Name,
                ghost lab: Labels, ghost rank: Ranks, ghost ran: bool)
      returns (path: Path, ghost k: Walk<Name>)
    requires Vertices(graph) && Shows(graph, lab) && adj.Keys == graph.Keys && Labelling(adj, src, lab, rank, ran)
    requires v.name in graph && graph[v.name] == v
    ensures v.dist.Inf? ==> path == Unreached(v.name)
    ensures v.dist.Fin? ==> v.dist == Fin(Weight(k)) && PathFor(adj, src, lab, rank, path, k, v.name)
    decreases if v.name in rank then rank[v.name] + 1 else 0
  {
    ghost var g := GraphOf(adj);
    LabelsAt(graph, adj, src, lab, rank, ran, v);
    k := Single(src);
    if v == v.previous {
      SingleLeads(g, src);
      path := Along(v.name, []);
    } else if v.previous == null {
      path := Unreached(v.name);
    } else {
      var u := v.previous;
      LabelsAt(graph, adj, src, lab, rank, ran, u);
      var before;
      ghost var k';
      before, k' := PathTo(graph, u, adj, src, lab, rank, ran);
      path := Along(before.source, before.stops + [Stop(v.name, v.dist)]);
      k := Extend(k', v.name, adj[u.name][v.name]);
      PathGrows(adj, src, lab, rank, before, k', u.name, v.name, adj[u.name][v.name]);
    }
  }

  /** The fields of a vertex: no distance and no previous vertex, or those of the search. */
  lemma LabelsAt(graph: map<Name, Vertex>, adj: Adjacency, src: Name, lab: Labels, rank: Ranks,
                 ran: bool, v: Vertex)
    requires Vertices(graph) && Shows(graph, lab) && adj.Keys == graph.Keys && Labelling(adj, src, lab, rank, ran)
    requires v.name in graph && graph[v.name] == v
    ensures v.dist == lab.d[v.name] && v.name in lab.p
    ensures v.dist.Fin? <==> v.name in rank
    ensures v.dist.Inf? ==> v.previous == null
    ensures v.dist.Fin? && v.name == src ==> v.previous == v && v.dist == Fin(0)
    ensures v.dist.Fin? && v.name != src ==>
      && v.previous != null && v.previous.name in graph && graph[v.previous.name] == v.previous && v.previous != v
      && lab.p[v.name] == Some(v.previous.name) && v.previous.name in rank && rank[v.previous.name] < rank[v.name]
      && v.name in adj[v.previous.name]
      && lab.d[v.previous.name].Fin? && v.dist.value == lab.d[v.previous.name].value + adj[v.previous.name][v.name]
  {
    assert ShowsAt(graph, lab, v.name);
    if ran {
      var cur :| Inv(adj, src, lab, rank, cur, {});
      assert Labelled(adj, src, lab, rank, v.name);
    }
  }

  class Graph {
    var graph: map<Name, Vertex>
    ghost var adj: Adjacency
    ghost var nb: map<Name, map<Vertex, int>>

    /** The vertex objects are stored by name and their neighbour maps spell out the arcs `adj`. */
    ghost predicate Valid()
      reads this, graph.Values
    {
      Vertices(graph) && Neighbours(graph, nb) && Wired(graph, nb, adj)
    }

    constructor (edges: seq<Edge>)
      ensures Valid() && adj == ArcsOf(edges) && fresh(graph.Values)
      ensures forall n :: n in graph <==> exists i :: 0 <= i < |edges| && EndOf(edges[i], n)
      ensures Shows(graph, NoLabels(graph.Keys))
    {
      var vertices;
      ghost var neighbours;
      vertices, neighbours := Build(edges);
      graph, nb, adj := vertices, neighbours, ArcsOf(edges);
    }

    /** The public `dijkstra`: for a start vertex in the graph every `dist` becomes the least weight of a
        walk from it; for any other name nothing changes. */
    method Dijkstra(start: Name) returns (found: bool, ghost lab: Labels, ghost rank: Ranks)
      requires Valid() && forall u, v :: u in adj && v in adj[u] ==> adj[u][v] >= 0
      modifies graph.Values
      ensures Valid() && (found <==> start in graph)
      ensures !found ==> unchanged(graph.Values)
      ensures found ==> Shows(graph, lab) && Finished(adj, start, lab, rank)
      ensures found ==> forall n :: n in graph ==> IsDistance(GraphOf(adj), start, n, graph[n].dist)
      ensures found ==> PreviousByOrder(adj, start, lab, rank)
    {
      lab, rank := Labels(map[], map[]), map[];
      found := start in graph;
      if found {
        lab, rank := Search(graph, start, adj, nb);
      }
    }

    /** printPath, before or after a search: the path for a reached vertex, or the message of the other two cases. */
    method PrintPath(end: Name, ghost start: Name, ghost lab: Labels, ghost rank: Ranks, ghost ran: bool)
        returns (path: Path)
      requires Valid() && Shows(graph, lab) && Labelling(adj, start, lab, rank, ran)
      ensures path.NoSuchVertex? <==> end !in graph
      ensures path.Unreached? ==> path.name == end
      ensures path.Along? <==> ran && exists k :: Leads(GraphOf(adj), k, start, end)
      ensures path.Along? ==> exists k: Walk<Name> ::
        && Lists(path, k, lab) && Leads(GraphOf(adj), k, start, end) && PreviousChain(lab, start, k, end)
        && IsDistance(GraphOf(adj), start, end, Fin(Weight(k)))
      ensures path.Along? ==> forall i :: 0 <= i < |path.stops| ==>
        IsDistance(GraphOf(adj), start, path.stops[i].name, path.stops[i].dist)
      ensures path.Along? ==> forall i: nat :: i < |path.stops| ==>
        FirstOver(adj, lab, rank, StopBefore(path, i), path.stops[i].name)
      ensures path.Along? && Positive(adj) ==> forall i: nat :: i < |path.stops| ==>
        NearestOver(adj, lab, StopBefore(path, i), path.stops[i].name)
    {
      if end !in graph {
        if ran {
          NoWalkOutside(adj, start, lab, rank, end);
        }
        return NoSuchVertex;
      }
      ghost var k;
      path, k := PathTo(graph, graph[end], adj, start, lab, rank, ran);
      LabelsAt(graph, adj, start, lab, rank, ran, graph[end]);
      if ran {
        FinishedIsShortest(adj, start, lab, rank, end);
        if path.Along? {
          StopsAreDistances(path, k, adj, start, lab, rank);
          StopsAreFirst(path, k, adj, start, lab, rank, end);
        }
      }
    }
  }

  /** Both passes of the constructor. */
  method Build(edges: seq<Edge>) returns (graph: map<Name, Vertex>, ghost nb: map<Name, map<Vertex, int>>)
    ensures Vertices(graph) && Neighbours(graph, nb) && Wired(graph, nb, ArcsOf(edges)) && fresh(graph.Values)
    ensures Shows(graph, NoLabels(graph.Keys))
    ensures forall n :: n in graph <==> exists i :: 0 <= i < |edges| && EndOf(edges[i], n)
  {
    graph := MakeVertices(edges);
    nb := MakeArcs(edges, graph);
    NewLabels(graph);
    forall n
      ensures n in graph <==> exists i :: 0 <= i < |edges| && EndOf(edges[i], n)
    {
      EndsAreEnds(edges, n);
    }
  }

  /** The search from a vertex of the graph. */
  method Search(graph: map<Name, Vertex>, start: Name, ghost adj: Adjacency,
                ghost nb: map<Name, map<Vertex, int>>)
      returns (ghost lab: Labels, ghost rank: Ranks)
    requires Vertices(graph) && Neighbours(graph, nb) && Wired(graph, nb, adj) && start in graph
    requires forall u, v :: u in adj && v in adj[u] ==> adj[u][v] >= 0
    modifies graph.Values
    ensures Neighbours(graph, nb) && Shows(graph, lab) && Finished(adj, start, lab, rank)
    ensures forall n :: n in graph ==> IsDistance(GraphOf(adj), start, n, graph[n].dist)
    ensures PreviousByOrder(adj, start, lab, rank)
  {
    ProperWhenWired(graph, nb, adj);
    StartInv(adj, start);
    var q := SetUp(graph, graph[start], nb);
    lab, rank := Loop(graph, q, adj, nb, start, StartLabels(graph.Keys, start));
    AllShortest(graph, adj, start, lab, rank);
    AllByOrder(adj, start, lab, rank);
  }

  /** Every reached vertex but the source: the first one polled of those over which its distance is reached
      is its previous vertex; without arcs of weight zero, that is the closest and first by name. */
  ghost predicate PreviousByOrder(adj: Adjacency, src: Name, lab: Labels, rank: Ranks) {
    forall n, u {:trigger Tight(adj, lab, u, n)} ::
      n in adj && n in lab.p && n in lab.d && n != src && lab.d[n].Fin? ==>
      && (lab.p[n] == Some(u) <==> FirstOver(adj, lab, rank, u, n))
      && (Positive(adj) ==> (lab.p[n] == Some(u) <==> NearestOver(adj, lab, u, n)))
  }

  lemma AllByOrder(adj: Adjacency, src: Name, lab: Labels, rank: Ranks)
    requires Finished(adj, src, lab, rank)
    ensures PreviousByOrder(adj, src, lab, rank)
  {
    forall n, u | n in adj && n in lab.p && n in lab.d && n != src && lab.d[n].Fin?
      ensures lab.p[n] == Some(u) <==> FirstOver(adj, lab, rank, u, n)
      ensures Positive(adj) ==> (lab.p[n] == Some(u) <==> NearestOver(adj, lab, u, n))
    {
      PreviousIsFirst(adj, src, lab, rank, u, n);
      if Positive(adj) {
        PreviousIsNearest(adj, src, lab, rank, u, n);
      }
    }
  }

  lemma StopsAreFirst(path: Path, k: Walk<Name>, adj: Adjacency, src: Name, lab: Labels, rank: Ranks, v: Name)
    requires Lists(path, k, lab) && Finished(adj, src, lab, rank) && PreviousChain(lab, src, k, v)
    ensures forall i: nat :: i < |path.stops| ==> FirstOver(adj, lab, rank, StopBefore(path, i), path.stops[i].name)
    ensures Positive(adj) ==>
      forall i: nat :: i < |path.stops| ==> NearestOver(adj, lab, StopBefore(path, i), path.stops[i].name)
  {
    forall i: nat | i < |path.stops|
      ensures FirstOver(adj, lab, rank, StopBefore(path, i), path.stops[i].name)
      ensures Positive(adj) ==> NearestOver(adj, lab, StopBefore(path, i), path.stops[i].name)
    {
      assert StopAt(path, k, lab, i) && (i > 0 ==> StopAt(path, k, lab, i - 1));
      ChainOverFirst(adj, src, lab, rank, k, v, i);
    }
  }

  lemma StopsAreDistances(path: Path, k: Walk<Name>, adj: Adjacency, src: Name, lab: Labels,
                          rank: Ranks)
    requires Lists(path, k, lab) && Finished(adj, src, lab, rank)
    ensures forall i :: 0 <= i < |path.stops| ==> IsDistance(GraphOf(adj), src, path.stops[i].name, path.stops[i].dist)
  {
    var cur :| Inv(adj, src, lab, rank, cur, {});
    forall i | 0 <= i < |path.stops|
      ensures IsDistance(GraphOf(adj), src, path.stops[i].name, path.stops[i].dist)
    {
      assert StopAt(path, k, lab, i);
      FinishedIsShortest(adj, src, lab, rank, k.vs[i + 1]);
    }
  }

  lemma NoWalkOutside(adj: Adjacency, src: Name, lab: Labels, rank: Ranks, v: Name)
    requires Finished(adj, src, lab, rank)
    ensures (exists k :: Leads(GraphOf(adj), k, src, v)) ==> v in adj
  {
    if k :| Leads(GraphOf(adj), k, src, v) {
      NoShorterWalk(adj, src, lab, rank, k, v);
    }
  }

  lemma ProperWhenWired(graph: map<Name, Vertex>, nb: map<Name, map<Vertex, int>>, adj: Adjacency)
    requires Vertices(graph) && Wired(graph, nb, adj) && forall u, v :: u in adj && v in adj[u] ==> adj[u][v] >= 0
    ensures Proper(adj)
  {
    forall u, v | u in adj && v in adj[u]
      ensures v in adj
    {
      assert WiredAt(graph, nb[u], adj[u]);
    }
  }

  lemma AllShortest(graph: map<Name, Vertex>, adj: Adjacency, src: Name, lab: Labels, rank: Ranks)
    requires adj.Keys == graph.Keys && Shows(graph, lab) && Finished(adj, src, lab, rank)
    ensures forall n :: n in graph ==> IsDistance(GraphOf(adj), src, n, graph[n].dist)
  {
    forall n | n in graph
      ensures IsDistance(GraphOf(adj), src, n, graph[n].dist)
    {
      assert ShowsAt(graph, lab, n);
      FinishedIsShortest(adj, src, lab, rank, n);
    }
  }
}
