/** In-place Floyd-Warshall, algorithms/cpp/Dynamic Programming/Floyd-Warshall.cpp. */
module FloydWarshall {
  import opened Walks

  type Matrix = seq<seq<Dist>>

  ghost predicate Square(m: Matrix, n: nat) {
    |m| == n && forall i :: 0 <= i < n ==> |m[i]| == n
  }

  /** An entry of the adjacency matrix that is not INT_MAX is an arc. */
  ghost function GraphOf(m: Matrix, n: nat): Graph<int>
    requires Square(m, n)
  {
    (u, v, w) => 0 <= u < n && 0 <= v < n && m[u][v] == Fin(w)
  }

  ghost predicate NoNegativeCycle(g: Graph<int>) {
    forall c, x :: Leads(g, c, x, x) ==> Weight(c) >= 0
  }

  // ---------------------------------------------------------------- the layered recurrence

  /** The test and the update for one pair of vertices. */
  function Better(direct: Dist, first: Dist, second: Dist): Dist {
    if first.Fin? && second.Fin? && !AtMost(direct, Fin(first.value + second.value))
    then Fin(first.value + second.value)
    else direct
  }

  /** All pairs may now also pass through `k`, computed from the old matrix only. */
  ghost function Layer(m: Matrix, n: nat, k: int): (r: Matrix)
    requires Square(m, n) && 0 <= k < n
    ensures Square(r, n)
    ensures forall i, j :: 0 <= i < n && 0 <= j < n ==> r[i][j] == Better(m[i][j], m[i][k], m[k][j])
  {
    seq(n, i requires 0 <= i < n => seq(n, j requires 0 <= j < n => Better(m[i][j], m[i][k], m[k][j])))
  }

  /** Row and column `k` stay as they are in round `k`. */
  lemma OwnRowAndColumnStay(m: Matrix, n: nat, k: int, i: int)
    requires Square(m, n) && 0 <= k < n && 0 <= i < n && AtMost(Fin(0), m[k][k])
    ensures Layer(m, n, k)[i][k] == m[i][k] && Layer(m, n, k)[k][i] == m[k][i]
  {
  }

  // ---------------------------------------------------------------- the updates one by one

  ghost function Updated(m: Matrix, n: nat, k: int, i: int, j: int): (r: Matrix)
    requires Square(m, n) && 0 <= k < n && 0 <= i < n && 0 <= j < n
    ensures Square(r, n)
    ensures forall x, y :: 0 <= x < n && 0 <= y < n ==>
      r[x][y] == if x == i && y == j then Better(m[i][j], m[i][k], m[k][j]) else m[x][y]
  {
    m[i := m[i][j := Better(m[i][j], m[i][k], m[k][j])]]
  }

  /** Round `k` after the rows above `i` and row `i` left of `j`. */
  ghost function UpdatedTo(m: Matrix, n: nat, k: int, i: nat, j: nat): (r: Matrix)
    requires Square(m, n) && 0 <= k < n && i <= n && j <= n && (i == n ==> j == 0)
    ensures Square(r, n)
    decreases i, j
  {
    if j > 0 then Updated(UpdatedTo(m, n, k, i, j - 1), n, k, i, j - 1)
    else if i > 0 then UpdatedTo(m, n, k, i - 1, n)
    else m
  }

  /** The matrix after the first `k` rounds. */
  ghost function AfterRounds(m: Matrix, n: nat, k: nat): (r: Matrix)
    requires Square(m, n) && k <= n
    ensures Square(r, n)
  {
    if k == 0 then m else UpdatedTo(AfterRounds(m, n, k - 1), n, k - 1, n, 0)
  }

  /** One vertex: a negative self-loop is doubled, any other entry stays. */
  lemma OneVertex(w: int)
    ensures AfterRounds([[Fin(w)]], 1, 1) == [[Fin(if w < 0 then 2 * w else w)]]
  {
    var m := [[Fin(w)]];
    assert UpdatedTo(m, 1, 0, 0, 0) == m;
    var r := Updated(m, 1, 0, 0, 0);
    assert UpdatedTo(m, 1, 0, 0, 1) == r && UpdatedTo(m, 1, 0, 1, 0) == r;
    assert AfterRounds(m, 1, 0) == m;
    assert r[0][0] == Fin(if w < 0 then 2 * w else w);
    assert r == [[r[0][0]]] by {
      assert r[0] == [r[0][0]];
    }
  }

  // ---------------------------------------------------------------- what a round achieves

  /** The vertices strictly inside the walk are below `k` and all different. */
  ghost predicate SimpleBelow(p: Walk<int>, k: int) {
    && (forall i :: 1 <= i < |p.ws| && i < |p.vs| ==> p.vs[i] < k)
    && (forall i, j :: 1 <= i < j < |p.ws| && j < |p.vs| ==> p.vs[i] != p.vs[j])
  }

  /** Every finite entry is the weight of a non-empty walk. */
  ghost predicate Attained(g: Graph<int>, m: Matrix, n: nat)
    requires Square(m, n)
  {
    forall i, j :: 0 <= i < n && 0 <= j < n && m[i][j].Fin? ==> AttainedAt(g, i, j, m[i][j].value)
  }

  ghost predicate AttainedAt(g: Graph<int>, i: int, j: int, d: int) {
    exists p :: Leads(g, p, i, j) && p.ws != [] && Weight(p) == d
  }

  /** No entry exceeds the weight of a non-empty walk that is simple below `k`. */
  ghost predicate Covers(g: Graph<int>, m: Matrix, n: nat, k: int)
    requires Square(m, n)
  {
    forall p, i, j :: 0 <= i < n && 0 <= j < n && Leads(g, p, i, j) && p.ws != [] && SimpleBelow(p, k) ==>
      AtMost(m[i][j], Fin(Weight(p)))
  }

  ghost predicate Right(g: Graph<int>, m: Matrix, n: nat, k: int) {
    Square(m, n) && Attained(g, m, n) && Covers(g, m, n, k)
  }

  function Sum2(a: Dist, b: Dist): Dist {
    if a.Fin? && b.Fin? then Fin(a.value + b.value) else Inf
  }

  /** `r` is below `m` and below every detour of `m` through `k`. */
  ghost predicate Tightened(m: Matrix, r: Matrix, n: nat, k: int)
    requires Square(m, n) && Square(r, n) && 0 <= k < n
  {
    forall i, j :: 0 <= i < n && 0 <= j < n ==> TightenedAt(m, r, n, k, i, j)
  }

  ghost predicate TightenedAt(m: Matrix, r: Matrix, n: nat, k: int, i: int, j: int)
    requires Square(m, n) && Square(r, n) && 0 <= k < n && 0 <= i < n && 0 <= j < n
  {
    AtMost(r[i][j], m[i][j]) && AtMost(r[i][j], Sum2(m[i][k], m[k][j]))
  }

  /** A simple walk through `k` is one to `k` and one from `k`. */
  lemma DetourCosts(g: Graph<int>, m: Matrix, n: nat, k: int, p: Walk<int>, i: int, j: int, a: nat)
    requires Square(m, n) && 0 <= k < n && 0 <= i < n && 0 <= j < n && Covers(g, m, n, k)
    requires Leads(g, p, i, j) && 1 <= a < |p.ws| && p.vs[a] == k && SimpleBelow(p, k + 1)
    ensures AtMost(Sum2(m[i][k], m[k][j]), Fin(Weight(p)))
  {
    SplitAt(g, p, i, j, a);
    var first, last := Front(p, a), Back(p, a);
    assert SimpleBelow(first, k) && SimpleBelow(last, k);
    assert AtMost(m[i][k], Fin(Weight(first)));
    assert AtMost(m[k][j], Fin(Weight(last)));
  }

  lemma TightenedCoversMore(g: Graph<int>, m: Matrix, r: Matrix, n: nat, k: int)
    requires Square(m, n) && Square(r, n) && 0 <= k < n && Covers(g, m, n, k) && Tightened(m, r, n, k)
    ensures Covers(g, r, n, k + 1)
  {
    forall p, i, j | 0 <= i < n && 0 <= j < n && Leads(g, p, i, j) && p.ws != [] && SimpleBelow(p, k + 1)
      ensures AtMost(r[i][j], Fin(Weight(p)))
    {
      assert TightenedAt(m, r, n, k, i, j);
      if x :| 1 <= x < |p.ws| && p.vs[x] == k {
        DetourCosts(g, m, n, k, p, i, j, x);
      } else {
        assert SimpleBelow(p, k);
        assert AtMost(m[i][j], Fin(Weight(p)));
      }
    }
  }

  lemma DetourIsAttained(g: Graph<int>, i: int, k: int, j: int, d: int, e: int)
    requires AttainedAt(g, i, k, d) && AttainedAt(g, k, j, e)
    ensures AttainedAt(g, i, j, d + e)
  {
    var p :| Leads(g, p, i, k) && p.ws != [] && Weight(p) == d;
    var q :| Leads(g, q, k, j) && q.ws != [] && Weight(q) == e;
    JoinLeads(g, p, q, i, k, j);
  }

  lemma StartCovers(m: Matrix, n: nat)
    requires Square(m, n)
    ensures Covers(GraphOf(m, n), m, n, 0) && Attained(GraphOf(m, n), m, n)
  {
    var g := GraphOf(m, n);
    forall p, i, j | 0 <= i < n && 0 <= j < n && Leads(g, p, i, j) && p.ws != [] && SimpleBelow(p, 0)
      ensures AtMost(m[i][j], Fin(Weight(p)))
    {
      assert g(p.vs[0], p.vs[0 + 1], p.ws[0]);
      assert |p.ws| == 1;
      assert p.ws == [p.ws[0]] && Sum(p.ws[..0]) == 0;
    }
    forall i, j | 0 <= i < n && 0 <= j < n && m[i][j].Fin?
      ensures AttainedAt(g, i, j, m[i][j].value)
    {
      SingleLeads(g, i);
      ExtendLeads(g, Single(i), i, i, j, m[i][j].value);
    }
  }

  // ---------------------------------------------------------------- negative cycles

  /** Without negative cycles some simple walk is at least as short. */
  lemma {:induction false} Simplify(g: Graph<int>, p: Walk<int>, i: int, j: int) returns (q: Walk<int>)
    requires Leads(g, p, i, j) && p.ws != [] && NoNegativeCycle(g)
    ensures Leads(g, q, i, j) && q.ws != [] && Weight(q) <= Weight(p)
    ensures forall x, y :: 1 <= x < y < |q.ws| ==> q.vs[x] != q.vs[y]
    decreases |p.ws|
  {
    if x, y :| 1 <= x < y < |p.ws| && p.vs[x] == p.vs[y] {
      var r, c := CutOut(g, p, i, j, x, y);
      assert Weight(c) >= 0;
      q := Simplify(g, r, i, j);
    } else {
      q := p;
    }
  }

  /** If there is a negative cycle there is a simple one. */
  lemma {:induction false} SimpleNegative(g: Graph<int>, p: Walk<int>, i: int) returns (q: Walk<int>, j: int)
    requires Leads(g, p, i, i) && Weight(p) < 0
    ensures Leads(g, q, j, j) && q.ws != [] && Weight(q) < 0
    ensures forall x, y :: 1 <= x < y < |q.ws| ==> q.vs[x] != q.vs[y]
    decreases |p.ws|
  {
    if x, y :| 1 <= x < y < |p.ws| && p.vs[x] == p.vs[y] {
      var r, c := CutOut(g, p, i, i, x, y);
      if Weight(c) < 0 {
        q, j := SimpleNegative(g, c, p.vs[x]);
      } else {
        q, j := SimpleNegative(g, r, i);
      }
    } else {
      q, j := p, i;
    }
  }

  lemma WalkStaysBelow(g: Graph<int>, p: Walk<int>, i: int, j: int, n: nat)
    requires Leads(g, p, i, j) && p.ws != []
    requires forall u, v, w :: g(u, v, w) ==> 0 <= u < n
    requires forall x, y :: 1 <= x < y < |p.ws| ==> p.vs[x] != p.vs[y]
    ensures SimpleBelow(p, n) && 0 <= i < n
  {
    forall x | 0 <= x < |p.ws|
      ensures 0 <= p.vs[x] < n
    {
      var u, v, w := p.vs[x], p.vs[x + 1], p.ws[x];
      assert g(u, v, w);
    }
  }

  /** A negative entry on the diagonal tells exactly whether there is a negative cycle. */
  lemma DiagonalTells(g: Graph<int>, m: Matrix, n: nat)
    requires Right(g, m, n, n)
    requires forall u, v, w :: g(u, v, w) ==> 0 <= u < n
    ensures NoNegativeCycle(g) <==> forall i :: 0 <= i < n ==> AtMost(Fin(0), m[i][i])
  {
    if NoNegativeCycle(g) {
      forall i | 0 <= i < n
        ensures AtMost(Fin(0), m[i][i])
      {
        DiagonalIsNonNegative(g, m, n, n, i);
      }
    } else {
      var c, x :| Leads(g, c, x, x) && Weight(c) < 0;
      var q, j := SimpleNegative(g, c, x);
      WalkStaysBelow(g, q, j, j, n);
      assert AtMost(m[j][j], Fin(Weight(q)));
    }
  }

  lemma DiagonalIsNonNegative(g: Graph<int>, m: Matrix, n: nat, k: nat, i: int)
    requires Right(g, m, n, k) && NoNegativeCycle(g) && 0 <= i < n
    ensures AtMost(Fin(0), m[i][i])
  {
    if m[i][i].Fin? {
      assert AttainedAt(g, i, i, m[i][i].value);
    }
  }

  // ---------------------------------------------------------------- distances

  /** `d` is the least weight of a non-empty walk from `u` to `v`, Inf when there is none. */
  ghost predicate IsStepDistance(g: Graph<int>, u: int, v: int, d: Dist) {
    && (forall p :: Leads(g, p, u, v) && p.ws != [] ==> AtMost(d, Fin(Weight(p))))
    && (d.Fin? ==> AttainedAt(g, u, v, d.value))
  }

  lemma RightIsDistance(g: Graph<int>, m: Matrix, n: nat, i: int, j: int)
    requires Right(g, m, n, n) && NoNegativeCycle(g) && 0 <= i < n && 0 <= j < n
    requires forall u, v, w :: g(u, v, w) ==> 0 <= u < n
    ensures IsStepDistance(g, i, j, m[i][j])
  {
    forall p | Leads(g, p, i, j) && p.ws != []
      ensures AtMost(m[i][j], Fin(Weight(p)))
    {
      var q := Simplify(g, p, i, j);
      WalkStaysBelow(g, q, i, j, n);
      assert AtMost(m[i][j], Fin(Weight(q)));
    }
    if m[i][j].Fin? {
      assert AttainedAt(g, i, j, m[i][j].value);
    }
  }

  /** Between different vertices the empty walk makes no difference; from a vertex to itself it does, unless some
      closed walk is as short. */
  lemma StepDistanceIsDistance(g: Graph<int>, u: int, v: int, d: Dist)
    requires IsStepDistance(g, u, v, d) && (u == v ==> AtMost(Fin(0), d))
    ensures IsDistance(g, u, v, d) <==> u != v || d == Fin(0)
    ensures u == v ==> (d == Fin(0) <==> AttainedAt(g, u, u, 0))
  {
    if u == v {
      SingleLeads(g, u);
      assert IsDistance(g, u, v, d) ==> AtMost(d, Fin(Weight(Single(u))));
    }
    if u != v || d == Fin(0) {
      forall p | Leads(g, p, u, v)
        ensures AtMost(d, Fin(Weight(p)))
      {
        assert p.ws == [] ==> Weight(p) == 0;
      }
      if d.Fin? {
        var p :| Leads(g, p, u, v) && p.ws != [] && Weight(p) == d.value;
      }
    }
  }

  /** A zero on the diagonal of the input is a closed walk of weight 0. */
  lemma ZeroLoop(g: Graph<int>, u: int)
    requires g(u, u, 0)
    ensures AttainedAt(g, u, u, 0)
  {
    SingleLeads(g, u);
    ExtendLeads(g, Single(u), u, u, u, 0);
  }

  // ---------------------------------------------------------------- the algorithm in place

  /** Every arc of the walk is the loop of weight 5. */
  lemma {:induction false} FiveEach(g: Graph<int>, p: Walk<int>, u: int, v: int)
    requires Leads(g, p, u, v) && forall a, b, w :: g(a, b, w) ==> w == 5
    ensures Weight(p) == 5 * |p.ws|
    decreases |p.ws|
  {
    if p.ws != [] {
      var n := |p.ws| - 1;
      SplitAt(g, p, u, v, n);
      FiveEach(g, Front(p, n), u, p.vs[n]);
      assert g(p.vs[n], p.vs[n + 1], p.ws[n]);
    }
  }

  /** One vertex with a self-loop of weight 5: there is no negative cycle, the program's entry is 5, and the distance is
      0. */
  lemma SelfLoopReplacesZero()
    ensures var g := GraphOf([[Fin(5)]], 1);
      NoNegativeCycle(g) && IsStepDistance(g, 0, 0, Fin(5)) && !AttainedAt(g, 0, 0, 0) && !IsDistance(g, 0, 0, Fin(5))
  {
    var g := GraphOf([[Fin(5)]], 1);
    forall p, u, v | Leads(g, p, u, v)
      ensures Weight(p) == 5 * |p.ws|
    {
      FiveEach(g, p, u, v);
    }
    SingleLeads(g, 0);
    ExtendLeads(g, Single(0), 0, 0, 0, 5);
    assert AttainedAt(g, 0, 0, 5);
    StepDistanceIsDistance(g, 0, 0, Fin(5));
  }

  ghost function MatrixOf(a: array2<Dist>): (m: Matrix)
    requires a.Length0 == a.Length1
    reads a
    ensures Square(m, a.Length0)
    ensures forall i, j :: 0 <= i < a.Length0 && 0 <= j < a.Length0 ==> m[i][j] == a[i, j]
  {
    seq(a.Length0, i requires 0 <= i < a.Length0 reads a =>
      seq(a.Length0, j requires 0 <= j < a.Length0 reads a => a[i, j]))
  }

  lemma SameMatrix(m: Matrix, r: Matrix, n: nat)
    requires Square(m, n) && Square(r, n)
    requires forall i, j :: 0 <= i < n && 0 <= j < n ==> m[i][j] == r[i][j]
    ensures m == r
  {
    forall i | 0 <= i < n
      ensures m[i] == r[i]
    {
      assert forall j :: 0 <= j < n ==> m[i][j] == r[i][j];
    }
  }

  /** Cell (x, y) of round `k`, done or not: never above the old value, once done not above the
      detour, and exactly the layered value as long as vertex `k` is on no negative cycle. */
  ghost predicate Cell(now: Dist, m: Matrix, n: nat, k: int, x: int, y: int, done: bool)
    requires Square(m, n) && 0 <= k < n && 0 <= x < n && 0 <= y < n
  {
    && AtMost(now, m[x][y])
    && (done ==> AtMost(now, Sum2(m[x][k], m[k][y])))
    && (AtMost(Fin(0), m[k][k]) ==> now == if done then Better(m[x][y], m[x][k], m[k][y]) else m[x][y])
  }

  /** The rows above `i`, and row `i` left of `j`, are done. */
  ghost predicate DoneTo(a: array2<Dist>, m: Matrix, k: int, i: int, j: int)
    requires a.Length0 == a.Length1 && Square(m, a.Length0) && 0 <= k < a.Length0
    reads a
  {
    forall x, y :: 0 <= x < a.Length0 && 0 <= y < a.Length0 ==>
      Cell(a[x, y], m, a.Length0, k, x, y, x < i || (x == i && y < j))
  }

  lemma CellUpdate(m: Matrix, n: nat, k: int, i: int, j: int, done: bool, done': bool, ij: Dist, ik: Dist, kj: Dist)
    requires Square(m, n) && 0 <= k < n && 0 <= i < n && 0 <= j < n
    requires Cell(ij, m, n, k, i, j, false) && Cell(ik, m, n, k, i, k, done) && Cell(kj, m, n, k, k, j, done')
    ensures Cell(Better(ij, ik, kj), m, n, k, i, j, true)
  {
    if AtMost(Fin(0), m[k][k]) {
      OwnRowAndColumnStay(m, n, k, i);
      OwnRowAndColumnStay(m, n, k, j);
    }
  }

  /** The update of one cell. */
  method Relax(a: array2<Dist>, ghost g: Graph<int>, ghost m: Matrix, k: int, i: int, j: int)
    requires a.Length0 == a.Length1 && Square(m, a.Length0)
    requires 0 <= k < a.Length0 && 0 <= i < a.Length0 && 0 <= j < a.Length0
    requires DoneTo(a, m, k, i, j) && Attained(g, MatrixOf(a), a.Length0)
    modifies a
    ensures DoneTo(a, m, k, i, j + 1) && Attained(g, MatrixOf(a), a.Length0)
    ensures MatrixOf(a) == Updated(old(MatrixOf(a)), a.Length0, k, i, j)
  {
    ghost var n := a.Length0;
    ghost var before: Matrix := MatrixOf(a);
    assert Cell(a[i, j], m, n, k, i, j, false);
    assert Cell(a[i, k], m, n, k, i, k, i < i || (i == i && k < j));
    assert Cell(a[k, j], m, n, k, k, j, k < i || (k == i && j < j));
    CellUpdate(m, n, k, i, j, k < j, k < i, a[i, j], a[i, k], a[k, j]);
    if a[i, k].Fin? && a[k, j].Fin? && !AtMost(a[i, j], Fin(a[i, k].value + a[k, j].value)) {
      assert AttainedAt(g, i, k, before[i][k].value) && AttainedAt(g, k, j, before[k][j].value);
      DetourIsAttained(g, i, k, j, before[i][k].value, before[k][j].value);
      a[i, j] := Fin(a[i, k].value + a[k, j].value);
    }
    ghost var now: Matrix := MatrixOf(a);
    SameMatrix(now, Updated(before, n, k, i, j), n);
    forall x, y | 0 <= x < n && 0 <= y < n && now[x][y].Fin?
      ensures AttainedAt(g, x, y, now[x][y].value)
    {
      assert x != i || y != j ==> now[x][y] == before[x][y];
    }
    forall x, y | 0 <= x < n && 0 <= y < n
      ensures Cell(a[x, y], m, n, k, x, y, x < i || (x == i && y < j + 1))
    {
      assert x != i || y != j ==> old(Cell(a[x, y], m, n, k, x, y, x < i || (x == i && y < j)));
    }
  }

  /** Round `k` in place.  As long as vertex `k` is on no negative cycle, it computes exactly the
      matrix of the layered recurrence although it overwrites what it reads. */
  method Round(a: array2<Dist>, ghost g: Graph<int>, ghost m: Matrix, k: int)
    requires a.Length0 == a.Length1 && MatrixOf(a) == m && 0 <= k < a.Length0 && Attained(g, m, a.Length0)
    modifies a
    ensures Attained(g, MatrixOf(a), a.Length0) && Tightened(m, MatrixOf(a), a.Length0, k)
    ensures AtMost(Fin(0), m[k][k]) ==> MatrixOf(a) == Layer(m, a.Length0, k)
    ensures MatrixOf(a) == UpdatedTo(m, a.Length0, k, a.Length0, 0)
  {
    for i := 0 to a.Length0
      invariant DoneTo(a, m, k, i, 0) && Attained(g, MatrixOf(a), a.Length0)
      invariant MatrixOf(a) == UpdatedTo(m, a.Length0, k, i, 0)
    {
      for j := 0 to a.Length0
        invariant DoneTo(a, m, k, i, j) && Attained(g, MatrixOf(a), a.Length0)
        invariant MatrixOf(a) == UpdatedTo(m, a.Length0, k, i, j)
      {
        Relax(a, g, m, k, i, j);
      }
      RowDone(a, m, k, i);
    }
    AllDone(a, m, k);
  }

  lemma RowDone(a: array2<Dist>, m: Matrix, k: int, i: int)
    requires a.Length0 == a.Length1 && Square(m, a.Length0) && 0 <= k < a.Length0
    requires DoneTo(a, m, k, i, a.Length0)
    ensures DoneTo(a, m, k, i + 1, 0)
  {
    var n := a.Length0;
    forall x, y | 0 <= x < n && 0 <= y < n
      ensures Cell(a[x, y], m, n, k, x, y, x < i + 1 || (x == i + 1 && y < 0))
    {
      assert Cell(a[x, y], m, n, k, x, y, x < i || (x == i && y < n));
    }
  }

  lemma AllDone(a: array2<Dist>, m: Matrix, k: int)
    requires a.Length0 == a.Length1 && Square(m, a.Length0) && 0 <= k < a.Length0
    requires DoneTo(a, m, k, a.Length0, 0)
    ensures Tightened(m, MatrixOf(a), a.Length0, k)
    ensures AtMost(Fin(0), m[k][k]) ==> MatrixOf(a) == Layer(m, a.Length0, k)
  {
    var n, r: Matrix := a.Length0, MatrixOf(a);
    forall x, y | 0 <= x < n && 0 <= y < n
      ensures TightenedAt(m, r, n, k, x, y)
      ensures AtMost(Fin(0), m[k][k]) ==> r[x][y] == Layer(m, n, k)[x][y]
    {
      assert Cell(a[x, y], m, n, k, x, y, x < n || (x == n && y < 0));
    }
    if AtMost(Fin(0), m[k][k]) {
      SameMatrix(r, Layer(m, n, k), n);
    }
  }

  /** FloydWarshall on an adjacency matrix: the result has a negative entry on the diagonal exactly
      when the graph has a negative cycle, and otherwise holds the least weights of non-empty walks. */
  method FloydWarshall(edges: array2<Dist>) returns (dist: array2<Dist>)
    requires edges.Length0 == edges.Length1
    ensures dist.Length0 == dist.Length1 == edges.Length0
    ensures var n, g := edges.Length0, GraphOf(MatrixOf(edges), edges.Length0);
      && (NoNegativeCycle(g) <==> forall i :: 0 <= i < n ==> AtMost(Fin(0), dist[i, i]))
      && (NoNegativeCycle(g) ==> forall i, j :: 0 <= i < n && 0 <= j < n ==>
            && IsStepDistance(g, i, j, dist[i, j])
            && (IsDistance(g, i, j, dist[i, j]) <==> i != j || AttainedAt(g, i, i, 0)))
      && (forall i :: 0 <= i < n && edges[i, i] == Fin(0) ==> AttainedAt(g, i, i, 0))
    ensures MatrixOf(dist) == AfterRounds(MatrixOf(edges), edges.Length0, edges.Length0)
  {
    var n := edges.Length0;
    dist := new Dist[n, n]((i, j) requires 0 <= i < edges.Length0 && 0 <= j < edges.Length1 reads edges => edges[i, j]);
    ghost var m: Matrix := MatrixOf(edges);
    ghost var g: Graph<int> := GraphOf(m, n);
    SameMatrix(MatrixOf(dist), m, n);
    StartCovers(m, n);
    for k := 0 to n
      invariant Right(g, MatrixOf(dist), n, k) && MatrixOf(dist) == AfterRounds(m, n, k)
    {
      ghost var before: Matrix := MatrixOf(dist);
      Round(dist, g, before, k);
      TightenedCoversMore(g, before, MatrixOf(dist), n, k);
    }
    Conclude(g, dist, n);
    forall i | 0 <= i < n && edges[i, i] == Fin(0)
      ensures AttainedAt(g, i, i, 0)
    {
      ZeroLoop(g, i);
    }
  }

  lemma Conclude(g: Graph<int>, dist: array2<Dist>, n: nat)
    requires n == dist.Length0 == dist.Length1 && Right(g, MatrixOf(dist), n, n)
    requires forall u, v, w :: g(u, v, w) ==> 0 <= u < n
    ensures NoNegativeCycle(g) <==> forall i :: 0 <= i < n ==> AtMost(Fin(0), dist[i, i])
    ensures NoNegativeCycle(g) ==> forall i, j :: 0 <= i < n && 0 <= j < n ==>
      && IsStepDistance(g, i, j, dist[i, j])
      && (IsDistance(g, i, j, dist[i, j]) <==> i != j || AttainedAt(g, i, i, 0))
  {
    var m: Matrix := MatrixOf(dist);
    DiagonalTells(g, m, n);
    assert forall i :: 0 <= i < n ==> m[i][i] == dist[i, i];
    if NoNegativeCycle(g) {
      forall i, j | 0 <= i < n && 0 <= j < n
        ensures IsStepDistance(g, i, j, dist[i, j])
        ensures IsDistance(g, i, j, dist[i, j]) <==> i != j || AttainedAt(g, i, i, 0)
      {
        RightIsDistance(g, m, n, i, j);
        StepDistanceIsDistance(g, i, j, dist[i, j]);
      }
    }
  }
}
