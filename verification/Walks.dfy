/** Walks in directed weighted graphs, shared by the shortest path algorithms. */
module Walks {

  /** A distance; Inf stands for INT_MAX or MAX_VALUE, "not reached". */
  datatype Dist = Inf | Fin(value: int)

  predicate AtMost(a: Dist, b: Dist) {
    b.Inf? || (a.Fin? && a.value <= b.value)
  }

  function Plus(a: Dist, w: int): Dist {
    if a.Inf? then Inf else Fin(a.value + w)
  }

  /** A graph is given by its arcs: from, to, weight. */
  type Graph<!V> = (V, V, int) -> bool

  /** The vertices passed and the weights of the arcs between them. */
  datatype Walk<V> = Walk(vs: seq<V>, ws: seq<int>)

  ghost predicate Follows<V>(g: Graph<V>, k: Walk<V>) {
    && |k.vs| == |k.ws| + 1
    && forall i :: 0 <= i < |k.ws| ==> g(k.vs[i], k.vs[i + 1], k.ws[i])
  }

  ghost predicate Leads<V>(g: Graph<V>, k: Walk<V>, u: V, v: V) {
    Follows(g, k) && k.vs[0] == u && k.vs[|k.ws|] == v
  }

  function Sum(ws: seq<int>): int {
    if ws == [] then 0 else Sum(ws[..|ws| - 1]) + ws[|ws| - 1]
  }

  function Weight<V>(k: Walk<V>): int {
    Sum(k.ws)
  }

  lemma {:induction false} SumAppends(a: seq<int>, b: seq<int>)
    ensures Sum(a + b) == Sum(a) + Sum(b)
    decreases |b|
  {
    if b == [] {
      assert a + b == a;
    } else {
      SumAppends(a, b[..|b| - 1]);
      assert (a + b)[..|a + b| - 1] == a + b[..|b| - 1];
    }
  }

  // ---------------------------------------------------------------- making walks from walks

  function Single<V>(v: V): Walk<V> {
    Walk([v], [])
  }

  function Extend<V>(k: Walk<V>, v: V, w: int): Walk<V> {
    Walk(k.vs + [v], k.ws + [w])
  }

  lemma SingleLeads<V>(g: Graph<V>, v: V)
    ensures Leads(g, Single(v), v, v) && Weight(Single(v)) == 0
  {
  }

  lemma ExtendLeads<V>(g: Graph<V>, k: Walk<V>, u: V, v: V, x: V, w: int)
    requires Leads(g, k, u, v) && g(v, x, w)
    ensures Leads(g, Extend(k, x, w), u, x) && Weight(Extend(k, x, w)) == Weight(k) + w
  {
    assert (k.ws + [w])[..|k.ws|] == k.ws;
  }

  function Front<V>(k: Walk<V>, i: nat): Walk<V>
    requires |k.vs| == |k.ws| + 1 && i <= |k.ws|
  {
    Walk(k.vs[..i + 1], k.ws[..i])
  }

  function Back<V>(k: Walk<V>, i: nat): Walk<V>
    requires |k.vs| == |k.ws| + 1 && i <= |k.ws|
  {
    Walk(k.vs[i..], k.ws[i..])
  }

  lemma SplitAt<V>(g: Graph<V>, k: Walk<V>, u: V, v: V, i: nat)
    requires Leads(g, k, u, v) && i <= |k.ws|
    ensures Leads(g, Front(k, i), u, k.vs[i]) && Leads(g, Back(k, i), k.vs[i], v)
    ensures Weight(k) == Weight(Front(k, i)) + Weight(Back(k, i))
  {
    SumAppends(k.ws[..i], k.ws[i..]);
    assert k.ws == k.ws[..i] + k.ws[i..];
  }

  function Join<V>(k: Walk<V>, m: Walk<V>): Walk<V>
    requires |m.vs| == |m.ws| + 1
  {
    Walk(k.vs + m.vs[1..], k.ws + m.ws)
  }

  lemma JoinLeads<V>(g: Graph<V>, k: Walk<V>, m: Walk<V>, u: V, x: V, v: V)
    requires Leads(g, k, u, x) && Leads(g, m, x, v)
    ensures Leads(g, Join(k, m), u, v) && Weight(Join(k, m)) == Weight(k) + Weight(m)
  {
    var j := Join(k, m);
    forall i | 0 <= i < |j.ws|
      ensures g(j.vs[i], j.vs[i + 1], j.ws[i])
    {
      if i < |k.ws| {
        assert g(k.vs[i], k.vs[i + 1], k.ws[i]);
      } else {
        var i' := i - |k.ws|;
        assert g(m.vs[i'], m.vs[i' + 1], m.ws[i']);
        assert j.vs[i] == m.vs[i'] && j.vs[i + 1] == m.vs[i' + 1];
      }
    }
    SumAppends(k.ws, m.ws);
  }

  // ---------------------------------------------------------------- shortest distances

  /** `d` is the least weight of a walk from `u` to `v`, Inf when there is none. */
  ghost predicate IsDistance<V(!new)>(g: Graph<V>, u: V, v: V, d: Dist) {
    && (forall k :: Leads(g, k, u, v) ==> AtMost(d, Fin(Weight(k))))
    && (d.Fin? ==> exists k :: Leads(g, k, u, v) && Weight(k) == d.value)
  }

  /** A negative closed walk that can be reached from `u`. */
  ghost predicate NegativeCycleFrom<V(!new)>(g: Graph<V>, u: V) {
    exists x, k, c :: Leads(g, k, u, x) && Leads(g, c, x, x) && Weight(c) < 0
  }

  // ---------------------------------------------------------------- removing cycles

  lemma {:induction false} Pigeonhole(s: seq<int>, n: nat) returns (i: nat, j: nat)
    requires |s| > n && forall k :: 0 <= k < |s| ==> 0 <= s[k] < n
    ensures i < j < |s| && s[i] == s[j]
    decreases n
  {
    if m :| 0 <= m < |s| - 1 && s[m] == s[|s| - 1] {
      return m, |s| - 1;
    }
    // Rename the last value away and recurse without it.
    var x := s[|s| - 1];
    var r := seq(|s| - 1, k requires 0 <= k < |s| - 1 => if s[k] == n - 1 then x else s[k]);
    forall k | 0 <= k < |r|
      ensures 0 <= r[k] < n - 1
    {
      assert s[k] != x;
    }
    i, j := Pigeonhole(r, n - 1);
  }

  /** The walk without the closed part from position `i` to position `j`. */
  lemma CutOut<V>(g: Graph<V>, k: Walk<V>, u: V, v: V, i: nat, j: nat) returns (r: Walk<V>, c: Walk<V>)
    requires Leads(g, k, u, v) && i < j <= |k.ws| && k.vs[i] == k.vs[j]
    ensures Leads(g, r, u, v) && |r.ws| == |k.ws| - (j - i) && |c.ws| == j - i
    ensures Leads(g, Front(k, i), u, k.vs[i]) && Leads(g, c, k.vs[i], k.vs[i])
    ensures Weight(k) == Weight(r) + Weight(c)
  {
    var x := k.vs[i];
    SplitAt(g, k, u, v, j);
    SplitAt(g, k, u, v, i);
    SplitAt(g, Front(k, j), u, x, i);
    c := Back(Front(k, j), i);
    assert Front(Front(k, j), i) == Front(k, i);
    r := Join(Front(k, i), Back(k, j));
    JoinLeads(g, Front(k, i), Back(k, j), u, x, v);
  }

  /** Without negative cycles, some walk with fewer than `n` arcs is at least as short. */
  lemma {:induction false} Shorten(g: Graph<int>, k: Walk<int>, u: int, v: int, n: nat) returns (r: Walk<int>)
    requires Leads(g, k, u, v) && !NegativeCycleFrom(g, u)
    requires forall i :: 0 <= i < |k.vs| ==> 0 <= k.vs[i] < n
    requires forall a, b, w :: g(a, b, w) ==> 0 <= a < n && 0 <= b < n
    ensures Leads(g, r, u, v) && |r.ws| < n && Weight(r) <= Weight(k)
    decreases |k.ws|
  {
    if |k.ws| < n {
      return k;
    }
    var i, j := Pigeonhole(k.vs, n);
    var s, c := CutOut(g, k, u, v, i, j);
    assert Weight(c) >= 0;
    forall a | 0 <= a < |s.vs|
      ensures 0 <= s.vs[a] < n
    {
      if a < |s.ws| {
        var x, y, w := s.vs[a], s.vs[a + 1], s.ws[a];
        assert g(x, y, w);
        assert 0 <= x < n;
      } else {
        assert s.vs[a] == k.vs[|k.ws|];
      }
    }
    r := Shorten(g, s, u, v, n);
  }
}
