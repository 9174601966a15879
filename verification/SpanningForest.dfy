/** Undirected graphs given by an edge list: connection, acyclic edge sets, and why a forest that
    takes as many of the cheap edges as possible is a cheapest one. */
module SpanningForest {

  datatype Edge = Edge(cost: int, x: int, y: int)

  /** An edge set is a set of positions in the edge list. */
  ghost predicate Adjacent(es: seq<Edge>, s: set<nat>, a: int, b: int) {
    exists e :: e in s && e < |es| && Joins(es[e], a, b)
  }

  predicate Joins(e: Edge, a: int, b: int) {
    (e.x == a && e.y == b) || (e.x == b && e.y == a)
  }

  ghost predicate Walk(es: seq<Edge>, s: set<nat>, p: seq<int>) {
    |p| > 0 && forall k :: 0 <= k < |p| - 1 ==> Adjacent(es, s, p[k], p[k + 1])
  }

  ghost predicate WalkFromTo(es: seq<Edge>, s: set<nat>, p: seq<int>, u: int, v: int) {
    Walk(es, s, p) && p[0] == u && p[|p| - 1] == v
  }

  ghost predicate Connected(es: seq<Edge>, s: set<nat>, u: int, v: int) {
    exists p :: WalkFromTo(es, s, p, u, v)
  }

  /** No edge of `s` joins two vertices that the others connect already. */
  ghost predicate Acyclic(es: seq<Edge>, s: set<nat>) {
    forall e :: e in s && e < |es| ==> !Connected(es, s - {e}, es[e].x, es[e].y)
  }

  /** The positions below `k`. */
  ghost function First(k: nat): (s: set<nat>)
    ensures forall e: nat :: e in s <==> e < k
  {
    if k == 0 then {} else First(k - 1) + {k - 1}
  }

  ghost function AllEdges(es: seq<Edge>): set<nat> {
    First(|es|)
  }

  /** `s` connects whatever the whole graph connects. */
  ghost predicate Spanning(es: seq<Edge>, s: set<nat>) {
    forall u, v :: Connected(es, AllEdges(es), u, v) ==> Connected(es, s, u, v)
  }

  ghost predicate IsSpanningForest(es: seq<Edge>, s: set<nat>) {
    s <= AllEdges(es) && Acyclic(es, s) && Spanning(es, s)
  }

  // ---------------------------------------------------------------- connection is an equivalence

  lemma Reflexive(es: seq<Edge>, s: set<nat>, u: int)
    ensures Connected(es, s, u, u)
  {
    assert WalkFromTo(es, s, [u], u, u);
  }

  lemma Transitive(es: seq<Edge>, s: set<nat>, u: int, v: int, w: int)
    requires Connected(es, s, u, v) && Connected(es, s, v, w)
    ensures Connected(es, s, u, w)
  {
    var p :| WalkFromTo(es, s, p, u, v);
    var q :| WalkFromTo(es, s, q, v, w);
    var r := p + q[1..];
    forall k | 0 <= k < |r| - 1
      ensures Adjacent(es, s, r[k], r[k + 1])
    {
      if k >= |p| - 1 {
        var j := k - |p| + 1;
        assert r[k] == q[j] && r[k + 1] == q[j + 1];
      } else {
        assert r[k] == p[k] && r[k + 1] == p[k + 1];
      }
    }
    assert WalkFromTo(es, s, r, u, w);
  }

  lemma Symmetric(es: seq<Edge>, s: set<nat>, u: int, v: int)
    requires Connected(es, s, u, v)
    ensures Connected(es, s, v, u)
  {
    var p :| WalkFromTo(es, s, p, u, v);
    var r := seq(|p|, i requires 0 <= i < |p| => p[|p| - 1 - i]);
    forall k | 0 <= k < |r| - 1
      ensures Adjacent(es, s, r[k], r[k + 1])
    {
      var j := |p| - 2 - k;
      assert Adjacent(es, s, p[j], p[j + 1]);
      var e :| e in s && e < |es| && Joins(es[e], p[j], p[j + 1]);
      assert Joins(es[e], r[k], r[k + 1]);
    }
    assert WalkFromTo(es, s, r, v, u);
  }

  lemma EdgeConnects(es: seq<Edge>, s: set<nat>, e: nat)
    requires e in s && e < |es|
    ensures Connected(es, s, es[e].x, es[e].y) && Connected(es, s, es[e].y, es[e].x)
  {
    var x, y := es[e].x, es[e].y;
    assert Joins(es[e], x, y) && Joins(es[e], y, x);
    assert WalkFromTo(es, s, [x, y], x, y);
    assert WalkFromTo(es, s, [y, x], y, x);
  }

  lemma MoreEdges(es: seq<Edge>, s: set<nat>, t: set<nat>, u: int, v: int)
    requires s <= t && Connected(es, s, u, v)
    ensures Connected(es, t, u, v)
  {
    var p :| WalkFromTo(es, s, p, u, v);
    forall k | 0 <= k < |p| - 1
      ensures Adjacent(es, t, p[k], p[k + 1])
    {
      assert Adjacent(es, s, p[k], p[k + 1]);
      var e :| e in s && e < |es| && Joins(es[e], p[k], p[k + 1]);
      assert e in t;
    }
    assert WalkFromTo(es, t, p, u, v);
  }

  // ---------------------------------------------------------------- adding one edge

  /** `u` and `v` are connected by `s`, or by going once over the edge `e`. */
  ghost predicate Via(es: seq<Edge>, s: set<nat>, e: nat, u: int, v: int)
    requires e < |es|
  {
    || Connected(es, s, u, v)
    || (Connected(es, s, u, es[e].x) && Connected(es, s, es[e].y, v))
    || (Connected(es, s, u, es[e].y) && Connected(es, s, es[e].x, v))
  }

  lemma ViaThenStep(es: seq<Edge>, s: set<nat>, e: nat, u: int, a: int, b: int)
    requires e < |es| && Via(es, s, e, u, a) && Adjacent(es, s + {e}, a, b)
    ensures Via(es, s, e, u, b)
  {
    var f :| f in s + {e} && f < |es| && Joins(es[f], a, b);
    if f in s {
      EdgeConnects(es, s, f);
      if Connected(es, s, u, a) {
        Transitive(es, s, u, a, b);
      } else if Connected(es, s, u, es[e].x) && Connected(es, s, es[e].y, a) {
        Transitive(es, s, es[e].y, a, b);
      } else {
        Transitive(es, s, es[e].x, a, b);
      }
    } else {
      Reflexive(es, s, b);
    }
  }

  lemma {:induction false} WalkIsVia(es: seq<Edge>, s: set<nat>, e: nat, p: seq<int>)
    requires e < |es| && Walk(es, s + {e}, p)
    ensures Via(es, s, e, p[0], p[|p| - 1])
    decreases |p|
  {
    if |p| == 1 {
      Reflexive(es, s, p[0]);
    } else {
      var q := p[..|p| - 1];
      forall k | 0 <= k < |q| - 1
        ensures Adjacent(es, s + {e}, q[k], q[k + 1])
      {
        assert Adjacent(es, s + {e}, p[k], p[k + 1]);
      }
      WalkIsVia(es, s, e, q);
      assert Adjacent(es, s + {e}, p[|p| - 2], p[|p| - 2 + 1]);
      ViaThenStep(es, s, e, p[0], p[|p| - 2], p[|p| - 1]);
    }
  }

  lemma AddedEdge(es: seq<Edge>, s: set<nat>, e: nat, u: int, v: int)
    requires e < |es|
    ensures Connected(es, s + {e}, u, v) <==> Via(es, s, e, u, v)
  {
    var t := s + {e};
    if Connected(es, t, u, v) {
      var p :| WalkFromTo(es, t, p, u, v);
      WalkIsVia(es, s, e, p);
    }
    if Via(es, s, e, u, v) {
      EdgeConnects(es, t, e);
      if Connected(es, s, u, v) {
        MoreEdges(es, s, t, u, v);
      } else if Connected(es, s, u, es[e].x) && Connected(es, s, es[e].y, v) {
        MoreEdges(es, s, t, u, es[e].x);
        MoreEdges(es, s, t, es[e].y, v);
        Transitive(es, t, u, es[e].x, es[e].y);
        Transitive(es, t, u, es[e].y, v);
      } else {
        MoreEdges(es, s, t, u, es[e].y);
        MoreEdges(es, s, t, es[e].x, v);
        Transitive(es, t, u, es[e].y, es[e].x);
        Transitive(es, t, u, es[e].x, v);
      }
    }
  }

  /** An edge between connected vertices connects nothing new. */
  lemma RedundantEdge(es: seq<Edge>, s: set<nat>, e: nat, u: int, v: int)
    requires e < |es| && Connected(es, s, es[e].x, es[e].y)
    ensures Connected(es, s + {e}, u, v) <==> Connected(es, s, u, v)
  {
    AddedEdge(es, s, e, u, v);
    var x, y := es[e].x, es[e].y;
    Symmetric(es, s, x, y);
    if Connected(es, s, u, x) && Connected(es, s, y, v) {
      Transitive(es, s, u, x, y);
      Transitive(es, s, u, y, v);
    } else if Connected(es, s, u, y) && Connected(es, s, x, v) {
      Transitive(es, s, u, y, x);
      Transitive(es, s, u, x, v);
    }
  }

  /** A forest stays one when it gains an edge between vertices it does not connect. */
  lemma ForestGrows(es: seq<Edge>, s: set<nat>, e: nat)
    requires e < |es| && e !in s && Acyclic(es, s) && !Connected(es, s, es[e].x, es[e].y)
    ensures Acyclic(es, s + {e})
  {
    var t := s + {e};
    forall f | f in t && f < |es|
      ensures !Connected(es, t - {f}, es[f].x, es[f].y)
    {
      if f == e {
        assert t - {f} == s;
      } else {
        assert t - {f} == (s - {f}) + {e};
        AddedEdge(es, s - {f}, e, es[f].x, es[f].y);
        if Via(es, s - {f}, e, es[f].x, es[f].y) {
          ClosesCycle(es, s, e, f);
        }
      }
    }
  }

  lemma ClosesCycle(es: seq<Edge>, s: set<nat>, e: nat, f: nat)
    requires e < |es| && f in s && f < |es|
    requires Via(es, s - {f}, e, es[f].x, es[f].y) && !Connected(es, s - {f}, es[f].x, es[f].y)
    ensures Connected(es, s, es[e].x, es[e].y)
  {
    var r := s - {f};
    var a, b, x, y := es[f].x, es[f].y, es[e].x, es[e].y;
    EdgeConnects(es, s, f);
    if Connected(es, r, a, x) && Connected(es, r, y, b) {
      MoreEdges(es, r, s, a, x);
      MoreEdges(es, r, s, y, b);
      Symmetric(es, s, a, x);
      Symmetric(es, s, y, b);
      Transitive(es, s, x, a, b);
      Transitive(es, s, x, b, y);
    } else {
      MoreEdges(es, r, s, a, y);
      MoreEdges(es, r, s, x, b);
      Symmetric(es, s, a, y);
      Transitive(es, s, x, b, a);
      Transitive(es, s, x, a, y);
    }
  }

  // ---------------------------------------------------------------- counting components

  /** The least vertex of each component. */
  ghost predicate Leader(es: seq<Edge>, s: set<nat>, v: int) {
    forall u :: 0 <= u < v ==> !Connected(es, s, u, v)
  }

  ghost function Leaders(es: seq<Edge>, s: set<nat>, n: nat): set<int> {
    set v | 0 <= v < n && Leader(es, s, v)
  }

  lemma {:induction false} FindLeader(es: seq<Edge>, s: set<nat>, v: int) returns (l: int)
    requires 0 <= v
    ensures 0 <= l <= v && Leader(es, s, l) && Connected(es, s, l, v)
    decreases v
  {
    if Leader(es, s, v) {
      l := v;
      Reflexive(es, s, v);
    } else {
      var u :| 0 <= u < v && Connected(es, s, u, v);
      l := FindLeader(es, s, u);
      Transitive(es, s, l, u, v);
    }
  }

  lemma LeaderIsUnique(es: seq<Edge>, s: set<nat>, l: int, m: int)
    requires 0 <= l && 0 <= m && Leader(es, s, l) && Leader(es, s, m) && Connected(es, s, l, m)
    ensures l == m
  {
    Symmetric(es, s, l, m);
  }

  lemma FewerLeaders(es: seq<Edge>, s: set<nat>, t: set<nat>, n: nat)
    requires s <= t
    ensures Leaders(es, t, n) <= Leaders(es, s, n)
  {
    forall v | v in Leaders(es, t, n)
      ensures Leader(es, s, v)
    {
      forall u | 0 <= u < v
        ensures !Connected(es, s, u, v)
      {
        if Connected(es, s, u, v) {
          MoreEdges(es, s, t, u, v);
        }
      }
    }
  }

  lemma SameConnectionSameLeaders(es: seq<Edge>, s: set<nat>, t: set<nat>, n: nat)
    requires forall u, v :: Connected(es, s, u, v) <==> Connected(es, t, u, v)
    ensures Leaders(es, s, n) == Leaders(es, t, n)
  {
    forall v
      ensures Leader(es, s, v) <==> Leader(es, t, v)
    {
    }
  }

  /** Nobody below the leader is in its component. */
  lemma LeaderIsLeast(es: seq<Edge>, s: set<nat>, l: int, u: int, w: int)
    requires 0 <= u && Leader(es, s, l) && Connected(es, s, l, w) && Connected(es, s, u, w)
    ensures l <= u
  {
    Symmetric(es, s, l, w);
    Transitive(es, s, u, w, l);
  }

  /** Across a new edge from the component led by `la` to that led by `lb`: of the two, a vertex
      that led before leads still if it is the lesser one. */
  lemma NoNewRival(es: seq<Edge>, s: set<nat>, a: int, la: int, b: int, lb: int, u: int, v: int)
    requires 0 <= u < v && 0 <= lb && Leader(es, s, v)
    requires Leader(es, s, la) && Connected(es, s, la, a) && Leader(es, s, lb) && Connected(es, s, lb, b)
    requires Connected(es, s, u, a) && Connected(es, s, b, v)
    ensures la < v && v == lb
  {
    LeaderIsLeast(es, s, la, u, a);
    Transitive(es, s, lb, b, v);
    LeaderIsUnique(es, s, lb, v);
  }

  lemma JoinLosesLeader(es: seq<Edge>, s: set<nat>, e: nat, n: nat)
    requires e < |es| && 0 <= es[e].x < n && 0 <= es[e].y < n
    requires !Connected(es, s, es[e].x, es[e].y)
    ensures |Leaders(es, s, n)| == |Leaders(es, s + {e}, n)| + 1
  {
    var t := s + {e};
    var x, y := es[e].x, es[e].y;
    var lx := FindLeader(es, s, x);
    var ly := FindLeader(es, s, y);
    if lx == ly {
      Symmetric(es, s, lx, x);
      Transitive(es, s, x, lx, y);
    }
    var lo, hi := if lx < ly then lx else ly, if lx < ly then ly else lx;
    assert !Leader(es, t, hi) by {
      Symmetric(es, s, lx, x);
      Symmetric(es, s, ly, y);
      AddedEdge(es, s, e, lo, hi);
    }
    forall v | 0 <= v < n && v != hi && Leader(es, s, v)
      ensures Leader(es, t, v)
    {
      forall u | 0 <= u < v
        ensures !Connected(es, t, u, v)
      {
        AddedEdge(es, s, e, u, v);
        if Connected(es, s, u, x) && Connected(es, s, y, v) {
          NoNewRival(es, s, x, lx, y, ly, u, v);
        } else if Connected(es, s, u, y) && Connected(es, s, x, v) {
          NoNewRival(es, s, y, ly, x, lx, u, v);
        }
      }
    }
    FewerLeaders(es, s, t, n);
    assert Leaders(es, s, n) == Leaders(es, t, n) + {hi};
  }

  // ---------------------------------------------------------------- cost and count up to a position

  ghost function CostUpTo(es: seq<Edge>, s: set<nat>, k: nat): int
    requires k <= |es|
  {
    if k == 0 then 0 else CostUpTo(es, s, k - 1) + if k - 1 in s then es[k - 1].cost else 0
  }

  ghost function CountUpTo(s: set<nat>, k: nat): nat {
    if k == 0 then 0 else CountUpTo(s, k - 1) + if k - 1 in s then 1 else 0
  }

  ghost function Cost(es: seq<Edge>, s: set<nat>): int {
    CostUpTo(es, s, |es|)
  }

  ghost predicate InRange(es: seq<Edge>, n: nat) {
    forall e :: 0 <= e < |es| ==> 0 <= es[e].x < n && 0 <= es[e].y < n
  }

  ghost predicate SortedByCost(es: seq<Edge>) {
    forall i, j :: 0 <= i < j < |es| ==> es[i].cost <= es[j].cost
  }

  lemma NoEdgesNoConnection(es: seq<Edge>, u: int, v: int)
    requires Connected(es, {}, u, v)
    ensures u == v
  {
    var p :| WalkFromTo(es, {}, p, u, v);
    assert |p| == 1 || Adjacent(es, {}, p[0], p[0 + 1]);
  }

  lemma {:induction false} NoEdgesAllLead(es: seq<Edge>, n: nat)
    ensures |Leaders(es, {}, n)| == n
    decreases n
  {
    if n == 0 {
      assert Leaders(es, {}, 0) == {};
    } else {
      var m := n - 1;
      NoEdgesAllLead(es, m);
      forall u | 0 <= u < m
        ensures !Connected(es, {}, u, m)
      {
        if Connected(es, {}, u, m) {
          NoEdgesNoConnection(es, u, m);
        }
      }
      assert Leaders(es, {}, n) == Leaders(es, {}, m) + {m};
    }
  }

  /** A forest has one component less for every edge. */
  lemma {:induction false} ForestCount(es: seq<Edge>, s: set<nat>, k: nat, n: nat)
    requires Acyclic(es, s) && InRange(es, n) && k <= |es|
    ensures CountUpTo(s, k) + |Leaders(es, s * First(k), n)| == n
  {
    if k == 0 {
      assert s * First(0) == {};
      NoEdgesAllLead(es, n);
    } else {
      ForestCount(es, s, k - 1, n);
      var r := s * First(k - 1);
      if k - 1 in s {
        assert s * First(k) == r + {k - 1};
        if Connected(es, r, es[k - 1].x, es[k - 1].y) {
          MoreEdges(es, r, s - {k - 1}, es[k - 1].x, es[k - 1].y);
        }
        JoinLosesLeader(es, r, k - 1, n);
      } else {
        assert s * First(k) == r;
      }
    }
  }

  // ---------------------------------------------------------------- the greedy forest is cheapest

  /** `s` takes, of the edges below each position, as many as any forest can. */
  ghost predicate Greedy(es: seq<Edge>, s: set<nat>) {
    && Acyclic(es, s)
    && forall k: nat, u, v :: k <= |es| && Connected(es, First(k), u, v) ==> Connected(es, s * First(k), u, v)
  }

  lemma GreedyIsAhead(es: seq<Edge>, s: set<nat>, f: set<nat>, k: nat, n: nat)
    requires InRange(es, n) && k <= |es| && Greedy(es, s) && Acyclic(es, f)
    ensures CountUpTo(f, k) <= CountUpTo(s, k)
  {
    ForestCount(es, s, k, n);
    ForestCount(es, f, k, n);
    forall u, v
      ensures Connected(es, s * First(k), u, v) <==> Connected(es, First(k), u, v)
    {
      if Connected(es, s * First(k), u, v) {
        MoreEdges(es, s * First(k), First(k), u, v);
      }
    }
    SameConnectionSameLeaders(es, s * First(k), First(k), n);
    FewerLeaders(es, f * First(k), First(k), n);
    Cardinality(Leaders(es, First(k), n), Leaders(es, f * First(k), n));
  }

  lemma Cardinality(a: set<int>, b: set<int>)
    requires a <= b
    ensures |a| <= |b|
  {
    assert b == a + (b - a);
  }

  /** Being ahead by `d` edges costs at most `d` times the price of the next edge. */
  lemma {:induction false} AheadCosts(es: seq<Edge>, s: set<nat>, f: set<nat>, k: nat, n: nat)
    requires InRange(es, n) && SortedByCost(es) && Greedy(es, s) && Acyclic(es, f) && 0 < k <= |es|
    ensures CostUpTo(es, s, k) - CostUpTo(es, f, k) <= (CountUpTo(s, k) - CountUpTo(f, k)) * es[k - 1].cost
  {
    if k > 1 {
      AheadCosts(es, s, f, k - 1, n);
      GreedyIsAhead(es, s, f, k - 1, n);
      var d := CountUpTo(s, k - 1) - CountUpTo(f, k - 1);
      PriceRises(d, es[k - 2].cost, es[k - 1].cost);
    }
  }

  lemma PriceRises(d: int, c: int, c': int)
    requires 0 <= d && c <= c'
    ensures d * c <= d * c' && (d + 1) * c' == d * c' + c' && (d - 1) * c' == d * c' - c'
  {
  }

  /** The greedy forest costs no more than any spanning forest. */
  lemma GreedyIsCheapest(es: seq<Edge>, s: set<nat>, f: set<nat>, n: nat)
    requires InRange(es, n) && SortedByCost(es) && Greedy(es, s) && IsSpanningForest(es, f)
    ensures Cost(es, s) <= Cost(es, f)
  {
    var m := |es|;
    if m > 0 {
      AheadCosts(es, s, f, m, n);
      GreedyIsAhead(es, s, f, m, n);
      ForestCount(es, s, m, n);
      ForestCount(es, f, m, n);
      assert f * First(m) == f;
      FewerLeaders(es, s * First(m), First(m), n);
      forall u, v
        ensures Connected(es, f, u, v) <==> Connected(es, First(m), u, v)
      {
        if Connected(es, f, u, v) {
          MoreEdges(es, f, First(m), u, v);
        }
      }
      SameConnectionSameLeaders(es, f, First(m), n);
      Cardinality(Leaders(es, First(m), n), Leaders(es, s * First(m), n));
      assert CountUpTo(s, m) <= CountUpTo(f, m);
    }
  }
}
