/** Binary code trees, their weighted path length, and the exchange argument behind
    algorithms/java/Others/Huffman.java. */
module HuffmanTree {

  /** A tree whose leaves carry letters; every inner node has two children. */
  datatype Tree = Leaf(letr: string, freq: int) | Branch(left: Tree, right: Tree)

  function Weight(t: Tree): int {
    match t
    case Leaf(_, f) => f
    case Branch(l, r) => Weight(l) + Weight(r)
  }

  /** The frequencies at the leaves. */
  function Freqs(t: Tree): multiset<int> {
    match t
    case Leaf(_, f) => multiset{f}
    case Branch(l, r) => Freqs(l) + Freqs(r)
  }

  /** How many leaves have frequency `z`. */
  function Count(t: Tree, z: int): nat {
    match t
    case Leaf(_, f) => One(f, z)
    case Branch(l, r) => Count(l, z) + Count(r, z)
  }

  function One(f: int, z: int): nat {
    if f == z then 1 else 0
  }

  lemma {:induction false} CountIsMultiplicity(t: Tree, z: int)
    ensures Count(t, z) == Freqs(t)[z]
  {
    match t
    case Leaf(_, _) =>
    case Branch(l, r) =>
      CountIsMultiplicity(l, z);
      CountIsMultiplicity(r, z);
  }

  /** The letters at the leaves, each with its frequency. */
  function Letters(t: Tree): multiset<(string, int)> {
    match t
    case Leaf(s, f) => multiset{(s, f)}
    case Branch(l, r) => Letters(l) + Letters(r)
  }

  /** `w * d`, written as repeated addition so that proofs about it stay linear. */
  function Times(w: int, d: nat): int {
    if d == 0 then 0 else w + Times(w, d - 1)
  }

  lemma {:induction false} TimesIsProduct(w: int, d: nat)
    ensures Times(w, d) == w * d
  {
    if d > 0 {
      TimesIsProduct(w, d - 1);
      assert w * d == w * (d - 1) + w;
    }
  }

  lemma {:induction false} TimesAdds(v: int, w: int, d: nat)
    ensures Times(v + w, d) == Times(v, d) + Times(w, d)
  {
    if d > 0 {
      TimesAdds(v, w, d - 1);
    }
  }

  lemma {:induction false} TimesGrows(w: int, k: nat, h: nat)
    requires 0 <= w && k <= h
    ensures Times(w, k) <= Times(w, h)
  {
    if k < h {
      TimesGrows(w, k, h - 1);
    }
  }

  /** Each leaf's frequency times its depth, summed, when the root sits at depth `d`. */
  function PathLength(t: Tree, d: nat): int {
    match t
    case Leaf(_, f) => Times(f, d)
    case Branch(l, r) => PathLength(l, d + 1) + PathLength(r, d + 1)
  }

  // ---------------------------------------------------------------- trees with one hole

  datatype Context = Hole | InLeft(ctx: Context, right: Tree) | InRight(left: Tree, ctx: Context)

  function Plug(c: Context, t: Tree): Tree {
    match c
    case Hole => t
    case InLeft(c', r) => Branch(Plug(c', t), r)
    case InRight(l, c') => Branch(l, Plug(c', t))
  }

  function HoleDepth(c: Context): nat {
    match c
    case Hole => 0
    case InLeft(c', _) => 1 + HoleDepth(c')
    case InRight(_, c') => 1 + HoleDepth(c')
  }

  function CountAround(c: Context, z: int): nat {
    match c
    case Hole => 0
    case InLeft(c', r) => CountAround(c', z) + Count(r, z)
    case InRight(l, c') => Count(l, z) + CountAround(c', z)
  }

  function LengthAround(c: Context, d: nat): int {
    match c
    case Hole => 0
    case InLeft(c', r) => LengthAround(c', d + 1) + PathLength(r, d + 1)
    case InRight(l, c') => PathLength(l, d + 1) + LengthAround(c', d + 1)
  }

  lemma {:induction false} PluggedLength(c: Context, t: Tree, d: nat)
    ensures PathLength(Plug(c, t), d) == LengthAround(c, d) + PathLength(t, d + HoleDepth(c))
  {
    match c
    case Hole =>
    case InLeft(c', _) => PluggedLength(c', t, d + 1);
    case InRight(_, c') => PluggedLength(c', t, d + 1);
  }

  lemma {:induction false} PluggedCount(c: Context, t: Tree, z: int)
    ensures Count(Plug(c, t), z) == CountAround(c, z) + Count(t, z)
  {
    match c
    case Hole =>
    case InLeft(c', _) => PluggedCount(c', t, z);
    case InRight(_, c') => PluggedCount(c', t, z);
  }

  function Height(t: Tree): nat {
    match t
    case Leaf(_, _) => 0
    case Branch(l, r) => 1 + if Height(l) >= Height(r) then Height(l) else Height(r)
  }

  /** No leaf of the context lies more than `h` below its root. */
  predicate Within(c: Context, h: int) {
    match c
    case Hole => true
    case InLeft(c', r) => Height(r) < h && Within(c', h - 1)
    case InRight(l, c') => Height(l) < h && Within(c', h - 1)
  }

  /** Two leaves at the greatest depth are siblings somewhere. */
  lemma {:induction false} DeepestPair(u: Tree) returns (c: Context, a: Tree, b: Tree)
    requires u.Branch?
    ensures a.Leaf? && b.Leaf? && u == Plug(c, Branch(a, b))
    ensures Within(c, HoleDepth(c) + 1) && Height(u) == HoleDepth(c) + 1
  {
    var l, r := u.left, u.right;
    if l.Leaf? && r.Leaf? {
      return Hole, l, r;
    }
    if Height(l) >= Height(r) {
      c, a, b := DeepestPair(l);
      c := InLeft(c, r);
    } else {
      c, a, b := DeepestPair(r);
      c := InRight(l, c);
    }
  }

  /** Overwriting one leaf `x` by `a` changes the path length by `a - x` times that leaf's depth. */
  lemma {:induction false} Overwrite(t: Tree, x: int, a: int, d: nat) returns (t': Tree, k: nat)
    requires Count(t, x) > 0
    ensures forall z :: Count(t', z) + One(x, z) == Count(t, z) + One(a, z)
    ensures Height(t') == Height(t) && k <= d + Height(t)
    ensures PathLength(t', d) == PathLength(t, d) + Times(a - x, k)
  {
    match t
    case Leaf(s, f) =>
      t', k := Leaf(s, a), d;
      TimesAdds(a - f, f, d);
    case Branch(l, r) =>
      var t1;
      if Count(l, x) > 0 {
        t1, k := Overwrite(l, x, a, d + 1);
        t' := Branch(t1, r);
      } else {
        t1, k := Overwrite(r, x, a, d + 1);
        t' := Branch(l, t1);
      }
  }

  lemma {:induction false} OverwriteAround(c: Context, x: int, a: int, h: int, d: nat) returns (c': Context, k: nat)
    requires CountAround(c, x) > 0 && Within(c, h)
    ensures forall z :: CountAround(c', z) + One(x, z) == CountAround(c, z) + One(a, z)
    ensures HoleDepth(c') == HoleDepth(c) && Within(c', h) && k <= d + h
    ensures LengthAround(c', d) == LengthAround(c, d) + Times(a - x, k)
  {
    match c
    case InLeft(c1, r) =>
      if Count(r, x) > 0 {
        var r';
        r', k := Overwrite(r, x, a, d + 1);
        c' := InLeft(c1, r');
      } else {
        var c2;
        c2, k := OverwriteAround(c1, x, a, h - 1, d + 1);
        c' := InLeft(c2, r);
      }
    case InRight(l, c1) =>
      if Count(l, x) > 0 {
        var l';
        l', k := Overwrite(l, x, a, d + 1);
        c' := InRight(l', c1);
      } else {
        var c2;
        c2, k := OverwriteAround(c1, x, a, h - 1, d + 1);
        c' := InRight(l, c2);
      }
  }

  /** Bringing the smaller frequency `x` down to the hole in exchange for `a` never costs. */
  lemma BringDown(c: Context, x: int, a: int) returns (c': Context)
    requires x <= a && Within(c, HoleDepth(c) + 1)
    requires x == a || CountAround(c, x) > 0
    ensures HoleDepth(c') == HoleDepth(c) && Within(c', HoleDepth(c) + 1)
    ensures forall z :: CountAround(c', z) + One(x, z) == CountAround(c, z) + One(a, z)
    ensures LengthAround(c', 0) + Times(x, HoleDepth(c) + 1) <= LengthAround(c, 0) + Times(a, HoleDepth(c) + 1)
  {
    if x == a {
      return c;
    }
    var k: nat;
    var h := HoleDepth(c) + 1;
    c', k := OverwriteAround(c, x, a, h, 0);
    TimesAdds(a - x, x, h);
    TimesGrows(a - x, k, h);
  }

  /** Filling the deepest pair of leaves with the two least frequencies never costs. */
  lemma FillDeepest(c: Context, a: int, b: int, x: int, y: int, rest: int -> nat) returns (c': Context)
    requires a <= b && Within(c, HoleDepth(c) + 1)
    requires forall z :: One(a, z) + One(b, z) + CountAround(c, z) == One(x, z) + One(y, z) + rest(z)
    requires x <= y && forall z :: rest(z) > 0 ==> y <= z
    ensures HoleDepth(c') == HoleDepth(c)
    ensures forall z :: CountAround(c', z) == rest(z)
    ensures var h := HoleDepth(c) + 1;
      LengthAround(c', 0) + Times(x, h) + Times(y, h) <= LengthAround(c, 0) + Times(a, h) + Times(b, h)
  {
    assert One(a, a) + One(b, a) + CountAround(c, a) > 0;
    assert One(a, x) + One(b, x) + CountAround(c, x) > 0;
    var c1 := BringDown(c, x, a);
    assert One(b, b) + CountAround(c1, b) > 0;
    assert One(b, y) + CountAround(c1, y) > 0;
    c' := BringDown(c1, y, b);
  }

  /** A tree with two leaves or more taken apart at its deepest pair, lesser frequency first. */
  lemma DeepestFreqs(u: Tree) returns (c: Context, a: int, b: int)
    requires u.Branch?
    ensures a <= b && Within(c, HoleDepth(c) + 1)
    ensures forall z :: Count(u, z) == One(a, z) + One(b, z) + CountAround(c, z)
    ensures PathLength(u, 0) == LengthAround(c, 0) + Times(a, HoleDepth(c) + 1) + Times(b, HoleDepth(c) + 1)
  {
    var p, q;
    c, p, q := DeepestPair(u);
    PluggedLength(c, Branch(p, q), 0);
    forall z
      ensures Count(u, z) == One(p.freq, z) + One(q.freq, z) + CountAround(c, z)
    {
      PluggedCount(c, Branch(p, q), z);
      assert Count(Branch(p, q), z) == Count(p, z) + Count(q, z);
    }
    if p.freq <= q.freq {
      a, b := p.freq, q.freq;
    } else {
      a, b := q.freq, p.freq;
    }
  }

  /** The tree with the sum `x + y` as one leaf in the hole. */
  lemma CloseHole(c: Context, x: int, y: int) returns (v: Tree)
    ensures forall z :: Count(v, z) == CountAround(c, z) + One(x + y, z)
    ensures PathLength(v, 0) + x + y ==
            LengthAround(c, 0) + Times(x, HoleDepth(c) + 1) + Times(y, HoleDepth(c) + 1)
  {
    v := Plug(c, Leaf("", x + y));
    forall z {
      PluggedCount(c, Leaf("", x + y), z);
    }
    PluggedLength(c, Leaf("", x + y), 0);
    TimesAdds(x, y, HoleDepth(c));
  }

  /** Removing the two least frequencies from the leaves and adding their sum: some tree over the
      new leaves is cheaper than `u` by at least that sum. */
  lemma MergeLeast(u: Tree, x: int, y: int, rest: int -> nat) returns (v: Tree)
    requires forall z :: Count(u, z) == One(x, z) + One(y, z) + rest(z)
    requires x <= y && forall z :: rest(z) > 0 ==> y <= z
    ensures forall z :: Count(v, z) == rest(z) + One(x + y, z)
    ensures PathLength(v, 0) + x + y <= PathLength(u, 0)
  {
    assert u.Branch? by {
      assert Count(u, x) > 0 && Count(u, y) > 0;
      assert x == y ==> Count(u, x) > 1;
    }
    var c, a, b := DeepestFreqs(u);
    var c' := FillDeepest(c, a, b, x, y, rest);
    v := CloseHole(c', x, y);
  }

  // ---------------------------------------------------------------- small facts used by the loop

  /** Hanging a tree one level lower adds its weight once. */
  lemma {:induction false} OneDeeper(t: Tree, d: nat)
    ensures PathLength(t, d + 1) == PathLength(t, d) + Weight(t)
  {
    match t
    case Leaf(_, _) =>
    case Branch(l, r) =>
      OneDeeper(l, d + 1);
      OneDeeper(r, d + 1);
  }

  lemma {:induction false} SomeLeaf(t: Tree) returns (f: int)
    ensures Count(t, f) > 0
  {
    match t
    case Leaf(_, g) => f := g;
    case Branch(l, _) => f := SomeLeaf(l);
  }

  /** A tree with a single leaf is that leaf. */
  lemma OnlyLeaf(v: Tree, w: int)
    requires forall z :: Count(v, z) == One(w, z)
    ensures v.Leaf?
  {
    if v.Branch? {
      var f := SomeLeaf(v.left);
      var g := SomeLeaf(v.right);
      assert Count(v, f) > 0 && Count(v, g) > 0;
    }
  }

  // ---------------------------------------------------------------- the same with products and multisets

  /** The weighted path length: every leaf's frequency times its depth, for a tree hung at depth `d`. */
  function WeightedLength(t: Tree, d: nat): int {
    match t
    case Leaf(_, f) => f * d
    case Branch(l, r) => WeightedLength(l, d + 1) + WeightedLength(r, d + 1)
  }

  lemma {:induction false} LengthIsWeighted(t: Tree, d: nat)
    ensures PathLength(t, d) == WeightedLength(t, d)
  {
    match t
    case Leaf(_, f) => TimesIsProduct(f, d);
    case Branch(l, r) =>
      LengthIsWeighted(l, d + 1);
      LengthIsWeighted(r, d + 1);
  }

  /** Equal counts are equal multisets. */
  lemma CountsAreFreqs(t: Tree, m: multiset<int>)
    ensures Freqs(t) == m <==> forall z :: Count(t, z) == m[z]
  {
    forall z
      ensures Count(t, z) == Freqs(t)[z]
    {
      CountIsMultiplicity(t, z);
    }
    if forall z :: Count(t, z) == m[z] {
      forall z
        ensures Freqs(t)[z] == m[z]
      {
        assert Count(t, z) == m[z];
      }
    }
  }

  // ---------------------------------------------------------------- the tree that is built

  function InsertTree(t: Tree, s: seq<Tree>): seq<Tree> {
    if s == [] || Weight(t) <= Weight(s[0]) then [t] + s else [s[0]] + InsertTree(t, s[1..])
  }

  /** The stable sort by weight. */
  function SortTrees(s: seq<Tree>): seq<Tree> {
    if s == [] then [] else InsertTree(s[0], SortTrees(s[1..]))
  }

  lemma {:induction false} InsertLength(t: Tree, s: seq<Tree>)
    ensures |InsertTree(t, s)| == |s| + 1
  {
    if s != [] && Weight(t) > Weight(s[0]) {
      InsertLength(t, s[1..]);
    }
  }

  lemma {:induction false} SortLength(s: seq<Tree>)
    ensures |SortTrees(s)| == |s|
  {
    if s != [] {
      SortLength(s[1..]);
      InsertLength(s[0], SortTrees(s[1..]));
    }
  }

  /** The trees after a round: the first two joined, the first as left child, and the list sorted again. */
  function AfterRound(s: seq<Tree>): (r: seq<Tree>)
    requires |s| >= 2
    ensures |r| == |s| - 1
  {
    SortLength(s[2..] + [Branch(s[0], s[1])]);
    SortTrees(s[2..] + [Branch(s[0], s[1])])
  }

  /** The tree that the rounds make of a sorted list. */
  function Finish(s: seq<Tree>): Tree
    requires s != []
    decreases |s|
  {
    if |s| == 1 then s[0] else Finish(AfterRound(s))
  }

  /** The tree for a list of leaves: sort it, then make the rounds. */
  function TreeFor(s: seq<Tree>): Tree
    requires s != []
  {
    SortLength(s);
    Finish(SortTrees(s))
  }

  /** Trees of one weight, in their order. */
  function OfWeight(s: seq<Tree>, w: int): seq<Tree> {
    if s == [] then [] else (if Weight(s[0]) == w then [s[0]] else []) + OfWeight(s[1..], w)
  }

  lemma {:induction false} InsertIsStable(t: Tree, s: seq<Tree>, w: int)
    ensures OfWeight(InsertTree(t, s), w) == OfWeight([t] + s, w)
  {
    assert ([t] + s)[1..] == s;
    if s != [] && Weight(t) > Weight(s[0]) {
      var r := InsertTree(t, s[1..]);
      InsertIsStable(t, s[1..], w);
      assert ([s[0]] + r)[1..] == r && ([t] + s[1..])[1..] == s[1..];
    }
  }

  /** The sort leaves trees of equal weight in their order. */
  lemma {:induction false} SortIsStable(s: seq<Tree>, w: int)
    ensures OfWeight(SortTrees(s), w) == OfWeight(s, w)
  {
    if s != [] {
      var r := SortTrees(s[1..]);
      SortIsStable(s[1..], w);
      InsertIsStable(s[0], r, w);
      assert ([s[0]] + r)[1..] == r;
    }
  }

  ghost predicate Ascending(s: seq<Tree>) {
    forall i, j :: 0 <= i < j < |s| ==> Weight(s[i]) <= Weight(s[j])
  }

  ghost predicate Lighter(s: seq<Tree>, w: int) {
    forall i :: 0 <= i < |s| ==> Weight(s[i]) <= w
  }

  ghost predicate Heavier(s: seq<Tree>, w: int) {
    forall i :: 0 <= i < |s| ==> Weight(s[i]) > w
  }

  /** A tree put at the end of a sorted list goes behind all trees that weigh no more. */
  lemma {:induction false} AppendedGoes(s: seq<Tree>, t: Tree, k: nat)
    requires k <= |s| && Ascending(s) && Lighter(s[..k], Weight(t)) && Heavier(s[k..], Weight(t))
    ensures SortTrees(s + [t]) == s[..k] + [t] + s[k..]
  {
    if s == [] {
      assert s + [t] == [t] && [t][1..] == [];
    } else {
      var rest, k' := s[1..], if k == 0 then 0 else k - 1;
      RestSplits(s, t, k, k');
      AppendedGoes(rest, t, k');
      assert (s + [t])[1..] == rest + [t];
      FirstInserted(s, t, k, rest[..k'] + [t] + rest[k'..]);
    }
  }

  lemma RestSplits(s: seq<Tree>, t: Tree, k: nat, k': nat)
    requires s != [] && k <= |s| && k' == (if k == 0 then 0 else k - 1)
    requires Ascending(s) && Lighter(s[..k], Weight(t)) && Heavier(s[k..], Weight(t))
    ensures k' <= |s[1..]| && Ascending(s[1..]) && Lighter(s[1..][..k'], Weight(t)) && Heavier(s[1..][k'..], Weight(t))
  {
    var rest := s[1..];
    forall i | 0 <= i < |rest|
      ensures i < k' ==> Weight(rest[i]) <= Weight(t)
      ensures i >= k' ==> Weight(rest[i]) > Weight(t)
    {
      assert i < k' ==> rest[i] == s[..k][i + 1];
      assert i >= k' ==> rest[i] == s[k..][i + 1 - k];
    }
  }

  lemma {:induction false} FirstInserted(s: seq<Tree>, t: Tree, k: nat, r: seq<Tree>)
    requires s != [] && k <= |s| && Ascending(s) && Lighter(s[..k], Weight(t)) && Heavier(s[k..], Weight(t))
    requires r == if k == 0 then [t] + s[1..] else s[1..k] + [t] + s[k..]
    ensures InsertTree(s[0], r) == s[..k] + [t] + s[k..]
  {
    if k == 0 {
      assert s[k..][0] == s[0];
      assert r[1..] == s[1..];
      assert InsertTree(s[0], s[1..]) == [s[0]] + s[1..];
    } else {
      assert s[..k][0] == s[0];
      assert [s[0]] + r == s[..k] + [t] + s[k..];
    }
  }

  // ---------------------------------------------------------------- the documented example

  lemma {:induction false} InsertBetween(t: Tree, a: seq<Tree>, b: seq<Tree>)
    requires (forall i :: 0 <= i < |a| ==> Weight(a[i]) < Weight(t)) && (b != [] ==> Weight(t) <= Weight(b[0]))
    ensures InsertTree(t, a + b) == a + [t] + b
  {
    if a == [] {
      assert a + b == b;
    } else {
      assert (a + b)[1..] == a[1..] + b;
      InsertBetween(t, a[1..], b);
      assert InsertTree(t, a + b) == [a[0]] + (a[1..] + [t] + b);
    }
  }

  const A := Leaf("a", 45)
  const B := Leaf("b", 13)
  const C := Leaf("c", 12)
  const D := Leaf("d", 16)
  const E := Leaf("e", 9)
  const F := Leaf("f", 5)

  /** One tree more at the front of a list whose sorted form is known. */
  lemma {:induction false} SortOneMore(t: Tree, s: seq<Tree>, a: seq<Tree>, b: seq<Tree>,
                                       more: seq<Tree>, sorted: seq<Tree>)
    requires SortTrees(s) == a + b && more == [t] + s && sorted == a + [t] + b
    requires (forall i :: 0 <= i < |a| ==> Weight(a[i]) < Weight(t)) && (b != [] ==> Weight(t) <= Weight(b[0]))
    ensures SortTrees(more) == sorted
  {
    assert more[1..] == s;
    InsertBetween(t, a, b);
  }

  lemma ExampleHalfSorted()
    ensures SortTrees([D, E, F]) == [F, E, D]
  {
    SortOneMore(F, [], [], [], [F], [F]);
    SortOneMore(E, [F], [F], [], [E, F], [F, E]);
    SortOneMore(D, [E, F], [F, E], [], [D, E, F], [F, E, D]);
  }

  lemma ExampleSorted()
    ensures SortTrees([A, B, C, D, E, F]) == [F, E, C, B, D, A]
  {
    ExampleHalfSorted();
    SortOneMore(C, [D, E, F], [F, E], [D], [C, D, E, F], [F, E, C, D]);
    SortOneMore(B, [C, D, E, F], [F, E, C], [D], [B, C, D, E, F], [F, E, C, B, D]);
    SortOneMore(A, [B, C, D, E, F], [F, E, C, B, D], [], [A, B, C, D, E, F], [F, E, C, B, D, A]);
  }

  /** A round on a sorted list, where the joined tree goes between `a` and `b`. */
  lemma {:induction false} OneRound(s: seq<Tree>, x: Tree, y: Tree, a: seq<Tree>, b: seq<Tree>, next: seq<Tree>)
    requires s == [x, y] + a + b && next == a + [Branch(x, y)] + b
    requires Ascending(a + b) && Lighter(a, Weight(x) + Weight(y)) && Heavier(b, Weight(x) + Weight(y))
    ensures next != [] && Finish(s) == Finish(next)
  {
    assert s[2..] == a + b && (a + b)[..|a|] == a && (a + b)[|a|..] == b;
    AppendedGoes(a + b, Branch(x, y), |a|);
  }

  lemma {:induction false} ExampleFirstRounds(fe: Tree, cb: Tree)
    requires fe == Branch(F, E) && cb == Branch(C, B)
    ensures Finish([F, E, C, B, D, A]) == Finish([fe, D, cb, A])
  {
    OneRound([F, E, C, B, D, A], F, E, [C, B], [D, A], [C, B, fe, D, A]);
    OneRound([C, B, fe, D, A], C, B, [fe, D], [A], [fe, D, cb, A]);
  }

  lemma {:induction false} ExampleLastRounds(fe: Tree, cb: Tree, d: Tree, a: Tree)
    requires Weight(fe) == 14 && Weight(d) == 16 && Weight(cb) == 25 && Weight(a) == 45
    ensures Finish([fe, d, cb, a]) == Branch(a, Branch(cb, Branch(fe, d)))
  {
    var fed := Branch(fe, d);
    var rest := Branch(cb, fed);
    OneRound([fe, d, cb, a], fe, d, [cb], [a], [cb, fed, a]);
    OneRound([cb, fed, a], cb, fed, [a], [], [a, rest]);
    OneRound([a, rest], a, rest, [], [], [Branch(a, rest)]);
  }

  /** The six letters of the example in the source's comment give the codes printed there: a is 0, b 101,
      c 100, d 111, e 1101 and f 1100, reading left as 0 and right as 1. */
  lemma DocumentedExample()
    ensures TreeFor([A, B, C, D, E, F]) == Branch(A, Branch(Branch(C, B), Branch(Branch(F, E), D)))
  {
    var fe, cb := Branch(F, E), Branch(C, B);
    ExampleSorted();
    ExampleFirstRounds(fe, cb);
    ExampleLastRounds(fe, cb, D, A);
  }
}
