/** make_huffmann_tree of algorithms/java/Others/Huffman.java on mutable nodes and a mutable list. */
module Huffman {
  import opened HuffmanTree

  class Node {
    var letr: string
    var freq: int
    var data: int
    var left: Node?
    var right: Node?

    constructor ()
      ensures letr == "" && freq == 0 && data == 0 && left == null && right == null
    {
      letr, freq, data, left, right := "", 0, 0, null, null;
    }
  }

  /** java.util.List<Node>. */
  class NodeList {
    var items: seq<Node>
  }

  // ---------------------------------------------------------------- nodes that form a tree

  /** Which nodes of the heap make up a tree, and how. */
  datatype Skeleton = Tip(node: Node) | Fork(node: Node, l: Skeleton, r: Skeleton)

  ghost function Foot(sk: Skeleton): set<Node> {
    match sk
    case Tip(n) => {n}
    case Fork(n, l, r) => {n} + Foot(l) + Foot(r)
  }

  /** No node occurs twice. */
  ghost predicate Apart(sk: Skeleton) {
    sk.Fork? ==>
      && Apart(sk.l) && Apart(sk.r)
      && sk.node !in Foot(sk.l) && sk.node !in Foot(sk.r)
      && Foot(sk.l) !! Foot(sk.r)
  }

  /** The fields of a node at one moment. */
  datatype Fields = Fields(letr: string, freq: int, data: int, left: Node?, right: Node?)

  /** A snapshot that agrees with the heap. */
  ghost predicate Mirrors(view: map<Node, Fields>)
    reads view.Keys
  {
    forall n :: n in view ==> view[n] == Fields(n.letr, n.freq, n.data, n.left, n.right)
  }

  /** The pointers follow the skeleton and spell out the tree `t`, every left child carries the
      bit 0 and every right child the bit 1. */
  ghost predicate Shows(view: map<Node, Fields>, sk: Skeleton, t: Tree) {
    && sk.node in view && view[sk.node].freq == Weight(t)
    && match (sk, t) {
         case (Tip(n), Leaf(s, f)) => view[n].left == null && view[n].right == null && view[n].letr == s
         case (Fork(n, l, r), Branch(tl, tr)) =>
           && view[n].left == l.node && view[n].right == r.node && view[n].letr == ""
           && Shows(view, l, tl) && Shows(view, r, tr)
           && view[l.node].data == 0 && view[r.node].data == 1
         case _ => false
       }
  }

  /** Outside the tree anything may change, inside it only the bit of the root. */
  ghost predicate Agree(view: map<Node, Fields>, view': map<Node, Fields>, foot: set<Node>, root: Node) {
    forall n :: n in foot && n in view ==>
      && n in view'
      && view'[n].(data := 0) == view[n].(data := 0)
      && (n != root ==> view'[n] == view[n])
  }

  lemma {:induction false} ShowsKept(view: map<Node, Fields>, view': map<Node, Fields>, sk: Skeleton, t: Tree)
    requires Apart(sk) && Shows(view, sk, t) && Agree(view, view', Foot(sk), sk.node)
    ensures Shows(view', sk, t)
  {
    assert sk.node in Foot(sk);
    if sk.Fork? {
      ShowsKept(view, view', sk.l, t.left);
      ShowsKept(view, view', sk.r, t.right);
      assert sk.l.node in Foot(sk.l) && sk.r.node in Foot(sk.r);
      assert view[sk.l.node] == view'[sk.l.node] && view[sk.r.node] == view'[sk.r.node];
    }
  }

  // ---------------------------------------------------------------- the list as a forest

  datatype Entry = Entry(sk: Skeleton, t: Tree)

  function Roots(forest: seq<Entry>): (ns: seq<Node>)
    ensures |ns| == |forest| && forall i :: 0 <= i < |ns| ==> ns[i] == forest[i].sk.node
  {
    seq(|forest|, i requires 0 <= i < |forest| => forest[i].sk.node)
  }

  /** The path lengths of all trees together. */
  function Total(forest: seq<Entry>): int {
    if forest == [] then 0 else PathLength(forest[0].t, 0) + Total(forest[1..])
  }

  /** How many trees weigh `z`. */
  function CountWeight(forest: seq<Entry>, z: int): nat {
    if forest == [] then 0 else One(Weight(forest[0].t), z) + CountWeight(forest[1..], z)
  }

  /** How many leaves have frequency `z`. */
  function CountLeaves(forest: seq<Entry>, z: int): nat {
    if forest == [] then 0 else Count(forest[0].t, z) + CountLeaves(forest[1..], z)
  }

  function AllLetters(forest: seq<Entry>): multiset<(string, int)> {
    if forest == [] then multiset{} else Letters(forest[0].t) + AllLetters(forest[1..])
  }

  ghost predicate Disjoint(forest: seq<Entry>) {
    forall i, j :: 0 <= i < j < |forest| ==> Foot(forest[i].sk) !! Foot(forest[j].sk)
  }

  ghost predicate AllApart(forest: seq<Entry>) {
    forall i :: 0 <= i < |forest| ==> Apart(forest[i].sk)
  }

  ghost predicate Sorted(forest: seq<Entry>) {
    forall i, j :: 0 <= i < j < |forest| ==> Weight(forest[i].t) <= Weight(forest[j].t)
  }

  function Trees(forest: seq<Entry>): (ts: seq<Tree>)
    ensures |ts| == |forest| && forall i :: 0 <= i < |ts| ==> ts[i] == forest[i].t
  {
    seq(|forest|, i requires 0 <= i < |forest| => forest[i].t)
  }

  // ---------------------------------------------------------------- li.sort(new comp())

  function InsertNode(n: Node, s: seq<Node>): (r: seq<Node>)
    reads n, s
    ensures forall i :: 0 <= i < |r| ==> r[i] == n || r[i] in s
  {
    if s == [] || n.freq <= s[0].freq then [n] + s else [s[0]] + InsertNode(n, s[1..])
  }

  /** The stable sort by frequency. */
  function SortNodes(s: seq<Node>): (r: seq<Node>)
    reads s
    ensures forall i :: 0 <= i < |r| ==> r[i] in s
  {
    if s == [] then []
    else
      var r := SortNodes(s[1..]);
      assert forall i :: 0 <= i < |r| ==> r[i] in s;
      InsertNode(s[0], r)
  }

  /** The nodes of one frequency, in their order. */
  function OfFreq(s: seq<Node>, w: int): seq<Node>
    reads s
  {
    if s == [] then [] else (if s[0].freq == w then [s[0]] else []) + OfFreq(s[1..], w)
  }

  lemma OneMoreNode(n: Node, s: seq<Node>, w: int)
    ensures OfFreq([n] + s, w) == (if n.freq == w then [n] else []) + OfFreq(s, w)
  {
    assert ([n] + s)[1..] == s;
  }

  lemma {:induction false} InsertNodeIsStable(n: Node, s: seq<Node>, w: int)
    ensures OfFreq(InsertNode(n, s), w) == OfFreq([n] + s, w)
  {
    if s != [] && n.freq > s[0].freq {
      var r := InsertNode(n, s[1..]);
      InsertNodeIsStable(n, s[1..], w);
      OneMoreNode(s[0], r, w);
      OneMoreNode(n, s[1..], w);
      OneMoreNode(n, s, w);
    }
  }

  /** The sort leaves nodes of equal frequency in their order. */
  lemma {:induction false} SortNodesIsStable(s: seq<Node>, w: int)
    ensures OfFreq(SortNodes(s), w) == OfFreq(s, w)
  {
    if s != [] {
      var r := SortNodes(s[1..]);
      SortNodesIsStable(s[1..], w);
      InsertNodeIsStable(s[0], r, w);
      OneMoreNode(s[0], r, w);
    }
  }

  function InsertEntry(e: Entry, s: seq<Entry>): seq<Entry> {
    if s == [] || Weight(e.t) <= Weight(s[0].t) then [e] + s else [s[0]] + InsertEntry(e, s[1..])
  }

  function SortEntries(s: seq<Entry>): seq<Entry> {
    if s == [] then [] else InsertEntry(s[0], SortEntries(s[1..]))
  }

  lemma {:induction false} TreesOfInsert(e: Entry, s: seq<Entry>)
    ensures Trees(InsertEntry(e, s)) == InsertTree(e.t, Trees(s))
  {
    if s == [] || Weight(e.t) <= Weight(s[0].t) {
      assert Trees([e] + s) == [e.t] + Trees(s);
    } else {
      TreesOfInsert(e, s[1..]);
      assert Trees(s)[1..] == Trees(s[1..]);
      assert Trees([s[0]] + InsertEntry(e, s[1..])) == [s[0].t] + Trees(InsertEntry(e, s[1..]));
    }
  }

  lemma {:induction false} TreesOfSort(s: seq<Entry>)
    ensures Trees(SortEntries(s)) == SortTrees(Trees(s))
  {
    if s != [] {
      TreesOfSort(s[1..]);
      TreesOfInsert(s[0], SortEntries(s[1..]));
      assert Trees(s)[1..] == Trees(s[1..]);
    }
  }

  lemma {:induction false} InsertKeeps(e: Entry, s: seq<Entry>, z: int)
    ensures Total(InsertEntry(e, s)) == PathLength(e.t, 0) + Total(s)
    ensures CountWeight(InsertEntry(e, s), z) == One(Weight(e.t), z) + CountWeight(s, z)
    ensures CountLeaves(InsertEntry(e, s), z) == Count(e.t, z) + CountLeaves(s, z)
    ensures |InsertEntry(e, s)| == |s| + 1
  {
    if s != [] && Weight(e.t) > Weight(s[0].t) {
      InsertKeeps(e, s[1..], z);
      assert InsertEntry(e, s)[1..] == InsertEntry(e, s[1..]);
    } else {
      assert ([e] + s)[1..] == s;
    }
  }

  lemma {:induction false} InsertKeepsLetters(e: Entry, s: seq<Entry>)
    ensures AllLetters(InsertEntry(e, s)) == Letters(e.t) + AllLetters(s)
  {
    if s != [] && Weight(e.t) > Weight(s[0].t) {
      InsertKeepsLetters(e, s[1..]);
      assert InsertEntry(e, s)[1..] == InsertEntry(e, s[1..]);
    } else {
      assert ([e] + s)[1..] == s;
    }
  }

  lemma {:induction false} SortKeeps(s: seq<Entry>, z: int)
    ensures Total(SortEntries(s)) == Total(s)
    ensures CountWeight(SortEntries(s), z) == CountWeight(s, z)
    ensures CountLeaves(SortEntries(s), z) == CountLeaves(s, z)
    ensures |SortEntries(s)| == |s|
  {
    if s != [] {
      SortKeeps(s[1..], z);
      InsertKeeps(s[0], SortEntries(s[1..]), z);
    }
  }

  lemma {:induction false} SortKeepsLetters(s: seq<Entry>)
    ensures AllLetters(SortEntries(s)) == AllLetters(s)
  {
    if s != [] {
      SortKeepsLetters(s[1..]);
      InsertKeepsLetters(s[0], SortEntries(s[1..]));
    }
  }

  /** The elements of an insertion, by position. */
  lemma {:induction false} InsertedAt(e: Entry, s: seq<Entry>) returns (k: nat)
    ensures k <= |s| && InsertEntry(e, s) == s[..k] + [e] + s[k..]
    ensures forall i :: 0 <= i < k ==> Weight(s[i].t) < Weight(e.t)
    ensures k < |s| ==> Weight(e.t) <= Weight(s[k].t)
  {
    if s != [] && Weight(e.t) > Weight(s[0].t) {
      var j := InsertedAt(e, s[1..]);
      k := j + 1;
      assert s[..k] == [s[0]] + s[1..][..j];
      assert s[k..] == s[1..][j..];
    } else {
      k := 0;
      assert [e] + s == s[..0] + [e] + s[0..];
    }
  }

  lemma InsertSorts(e: Entry, s: seq<Entry>)
    requires Sorted(s)
    ensures Sorted(InsertEntry(e, s))
  {
    var k := InsertedAt(e, s);
  }

  lemma InsertKeepsDisjoint(e: Entry, s: seq<Entry>)
    requires Disjoint(s) && AllApart(s) && Apart(e.sk)
    requires forall i :: 0 <= i < |s| ==> Foot(e.sk) !! Foot(s[i].sk)
    ensures Disjoint(InsertEntry(e, s)) && AllApart(InsertEntry(e, s))
  {
    var k := InsertedAt(e, s);
  }

  lemma {:induction false} SortSorts(s: seq<Entry>)
    ensures Sorted(SortEntries(s))
    ensures forall i :: 0 <= i < |SortEntries(s)| ==> SortEntries(s)[i] in s
  {
    if s != [] {
      SortSorts(s[1..]);
      var r := SortEntries(s[1..]);
      InsertSorts(s[0], r);
      var k := InsertedAt(s[0], r);
      assert r == r[..k] + r[k..] && s == [s[0]] + s[1..];
    }
  }

  lemma {:induction false} SortKeepsDisjoint(s: seq<Entry>)
    requires Disjoint(s) && AllApart(s)
    ensures Disjoint(SortEntries(s)) && AllApart(SortEntries(s))
  {
    if s != [] {
      SortKeepsDisjoint(s[1..]);
      SortSorts(s[1..]);
      var r := SortEntries(s[1..]);
      forall i | 0 <= i < |r|
        ensures Foot(s[0].sk) !! Foot(r[i].sk)
      {
        assert r[i] in s[1..];
      }
      InsertKeepsDisjoint(s[0], r);
    }
  }

  /** The frequency fields agree with the trees. */
  ghost predicate Weighed(forest: seq<Entry>)
    reads Roots(forest)
  {
    forall i :: 0 <= i < |forest| ==> Roots(forest)[i].freq == Weight(forest[i].t)
  }

  lemma RootsOfRest(s: seq<Entry>)
    requires s != []
    ensures Roots(s)[1..] == Roots(s[1..]) && Roots(s) == [s[0].sk.node] + Roots(s[1..])
  {
  }

  lemma WeighedRest(s: seq<Entry>)
    requires Weighed(s) && s != []
    ensures Weighed(s[1..]) && s[0].sk.node.freq == Weight(s[0].t)
  {
    assert Roots(s)[0].freq == Weight(s[0].t);
    forall i | 0 <= i < |s[1..]|
      ensures Roots(s[1..])[i].freq == Weight(s[1..][i].t)
    {
      assert Roots(s)[i + 1].freq == Weight(s[i + 1].t);
    }
  }

  lemma RootsOfCons(e: Entry, s: seq<Entry>)
    ensures Roots([e] + s) == [e.sk.node] + Roots(s)
  {
  }

  lemma {:induction false} InsertRoots(e: Entry, s: seq<Entry>)
    requires Weighed(s) && e.sk.node.freq == Weight(e.t)
    ensures InsertNode(e.sk.node, Roots(s)) == Roots(InsertEntry(e, s))
  {
    if s == [] {
      RootsOfCons(e, s);
    } else {
      RootsOfRest(s);
      WeighedRest(s);
      if Weight(e.t) <= Weight(s[0].t) {
        RootsOfCons(e, s);
      } else {
        InsertRoots(e, s[1..]);
        RootsOfCons(s[0], InsertEntry(e, s[1..]));
      }
    }
  }

  lemma {:induction false} SortRoots(s: seq<Entry>)
    requires Weighed(s)
    ensures SortNodes(Roots(s)) == Roots(SortEntries(s)) && Weighed(SortEntries(s))
  {
    if s != [] {
      var s1 := s[1..];
      assert Roots(s)[1..] == Roots(s1);
      forall i | 0 <= i < |s1|
        ensures Roots(s1)[i].freq == Weight(s1[i].t)
      {
        assert Roots(s)[i + 1].freq == Weight(s[i + 1].t);
      }
      SortRoots(s1);
      assert Roots(s)[0].freq == Weight(s[0].t);
      InsertRoots(s[0], SortEntries(s1));
      var k := InsertedAt(s[0], SortEntries(s1));
      forall i | 0 <= i < |SortEntries(s)|
        ensures Roots(SortEntries(s))[i].freq == Weight(SortEntries(s)[i].t)
      {
        var r := SortEntries(s1);
        assert i < k ==> Roots(r)[i].freq == Weight(r[i].t);
        assert i > k ==> Roots(r)[i - 1].freq == Weight(r[i - 1].t);
      }
    }
  }

  // ---------------------------------------------------------------- optimality of the merges

  ghost predicate Matches(v: Tree, forest: seq<Entry>) {
    forall z :: Count(v, z) == CountWeight(forest, z)
  }

  /** What was built so far, completed in the best possible way, is no longer than `u`. */
  ghost predicate Bounded(forest: seq<Entry>, u: Tree) {
    exists v :: Matches(v, forest) && PathLength(v, 0) + Total(forest) <= PathLength(u, 0)
  }

  lemma {:induction false} Append(s: seq<Entry>, e: Entry, z: int)
    ensures Total(s + [e]) == Total(s) + PathLength(e.t, 0)
    ensures CountWeight(s + [e], z) == CountWeight(s, z) + One(Weight(e.t), z)
    ensures CountLeaves(s + [e], z) == CountLeaves(s, z) + Count(e.t, z)
  {
    if s == [] {
      assert s + [e] == [e];
      assert [e][1..] == [];
    } else {
      Append(s[1..], e, z);
      assert (s + [e])[1..] == s[1..] + [e];
    }
  }

  lemma {:induction false} AppendLetters(s: seq<Entry>, e: Entry)
    ensures AllLetters(s + [e]) == AllLetters(s) + Letters(e.t)
  {
    if s == [] {
      assert s + [e] == [e];
      assert [e][1..] == [];
    } else {
      AppendLetters(s[1..], e);
      assert (s + [e])[1..] == s[1..] + [e];
    }
  }

  lemma TwoFirst(s: seq<Entry>, z: int)
    requires |s| >= 2
    ensures Total(s) == PathLength(s[0].t, 0) + PathLength(s[1].t, 0) + Total(s[2..])
    ensures CountWeight(s, z) == One(Weight(s[0].t), z) + One(Weight(s[1].t), z) + CountWeight(s[2..], z)
    ensures CountLeaves(s, z) == Count(s[0].t, z) + Count(s[1].t, z) + CountLeaves(s[2..], z)
  {
    assert s[1..][1..] == s[2..];
  }

  lemma TwoFirstLetters(s: seq<Entry>)
    requires |s| >= 2
    ensures AllLetters(s) == Letters(s[0].t) + (Letters(s[1].t) + AllLetters(s[2..]))
  {
    assert s[1..][1..] == s[2..];
  }

  lemma {:induction false} CountedOccurs(s: seq<Entry>, z: int) returns (i: nat)
    requires CountWeight(s, z) > 0
    ensures i < |s| && Weight(s[i].t) == z
  {
    if Weight(s[0].t) == z {
      i := 0;
    } else {
      i := CountedOccurs(s[1..], z);
      i := i + 1;
    }
  }

  /** The forest after the two lightest trees were joined and the list sorted again. */
  function Joined(forest: seq<Entry>, e: Entry): seq<Entry>
    requires |forest| >= 2
  {
    SortEntries(forest[2..] + [e])
  }

  lemma JoinedCount(forest: seq<Entry>, e: Entry, z: int)
    requires |forest| >= 2 && e.t == Branch(forest[0].t, forest[1].t)
    ensures CountWeight(Joined(forest, e), z) ==
            CountWeight(forest[2..], z) + One(Weight(forest[0].t) + Weight(forest[1].t), z)
    ensures Total(Joined(forest, e)) == Total(forest) + Weight(forest[0].t) + Weight(forest[1].t)
    ensures CountLeaves(Joined(forest, e), z) == CountLeaves(forest, z)
    ensures |Joined(forest, e)| == |forest| - 1
  {
    TwoFirst(forest, z);
    Append(forest[2..], e, z);
    SortKeeps(forest[2..] + [e], z);
    OneDeeper(forest[0].t, 0);
    OneDeeper(forest[1].t, 0);
  }

  lemma JoinedLetters(forest: seq<Entry>, e: Entry)
    requires |forest| >= 2 && e.t == Branch(forest[0].t, forest[1].t)
    ensures AllLetters(Joined(forest, e)) == AllLetters(forest)
  {
    TwoFirstLetters(forest);
    AppendLetters(forest[2..], e);
    SortKeepsLetters(forest[2..] + [e]);
    Regroup(Letters(forest[0].t), Letters(forest[1].t), AllLetters(forest[2..]));
  }

  lemma Regroup(a: multiset<(string, int)>, b: multiset<(string, int)>, m: multiset<(string, int)>)
    ensures a + (b + m) == m + (a + b)
  {
  }

  /** A round on the forest is a round on its trees. */
  lemma JoinedTrees(forest: seq<Entry>, e: Entry)
    requires |forest| >= 2 && e.t == Branch(forest[0].t, forest[1].t)
    ensures Trees(Joined(forest, e)) == AfterRound(Trees(forest))
  {
    TreesOfSort(forest[2..] + [e]);
    assert Trees(forest[2..] + [e]) == Trees(forest)[2..] + [e.t];
  }

  lemma JoinKeepsBound(forest: seq<Entry>, e: Entry, u: Tree)
    requires |forest| >= 2 && e.t == Branch(forest[0].t, forest[1].t)
    requires Sorted(forest) && Bounded(forest, u)
    ensures Bounded(Joined(forest, e), u)
  {
    var v :| Matches(v, forest) && PathLength(v, 0) + Total(forest) <= PathLength(u, 0);
    var x, y := Weight(forest[0].t), Weight(forest[1].t);
    var rest := z => CountWeight(forest[2..], z);
    forall z
      ensures Count(v, z) == One(x, z) + One(y, z) + rest(z)
      ensures rest(z) > 0 ==> y <= z
    {
      TwoFirst(forest, z);
      if rest(z) > 0 {
        var i := CountedOccurs(forest[2..], z);
        assert forest[2..][i] == forest[i + 2];
      }
    }
    var w := MergeLeast(v, x, y, rest);
    forall z
      ensures Count(w, z) == CountWeight(Joined(forest, e), z)
    {
      JoinedCount(forest, e, z);
    }
    JoinedCount(forest, e, 0);
    assert Matches(w, Joined(forest, e));
  }

  /** A single tree that is bounded by `u` is no longer than `u`. */
  lemma BoundedAtTheEnd(e: Entry, u: Tree)
    requires Bounded([e], u)
    ensures PathLength(e.t, 0) <= PathLength(u, 0)
  {
    var v :| Matches(v, [e]) && PathLength(v, 0) + Total([e]) <= PathLength(u, 0);
    assert [e][1..] == [];
    assert Total([e]) == PathLength(e.t, 0) + Total([e][1..]);
    forall z
      ensures Count(v, z) == One(Weight(e.t), z)
    {
      assert Count(v, z) == CountWeight([e], z);
    }
    OnlyLeaf(v, Weight(e.t));
    assert PathLength(v, 0) == 0;
  }

  // ---------------------------------------------------------------- joining two trees in memory

  /** li holds the roots of a forest of disjoint trees. */
  ghost predicate Holds(items: seq<Node>, view: map<Node, Fields>, forest: seq<Entry>) {
    && items == Roots(forest)
    && Disjoint(forest) && AllApart(forest)
    && forall i :: 0 <= i < |forest| ==> Shows(view, forest[i].sk, forest[i].t) && Foot(forest[i].sk) <= view.Keys
  }

  /** The new tree over the first two. */
  ghost function Pair(forest: seq<Entry>, temp: Node): Entry
    requires |forest| >= 2
  {
    Entry(Fork(temp, forest[0].sk, forest[1].sk), Branch(forest[0].t, forest[1].t))
  }

  /** The snapshot after the bits and the parent of the first two were written. */
  ghost function Joining(view: map<Node, Fields>, a: Node, b: Node, temp: Node): map<Node, Fields>
    requires a in view && b in view
  {
    view[a := view[a].(data := 0)][b := view[b].(data := 1)]
        [temp := Fields("", view[a].freq + view[b].freq, 0, a, b)]
  }

  lemma JoiningHolds(items: seq<Node>, view: map<Node, Fields>, forest: seq<Entry>, temp: Node)
    requires |forest| >= 2 && Holds(items, view, forest) && temp !in view
    ensures items[0] in view && items[1] in view
    ensures Holds(items[2..] + [temp], Joining(view, items[0], items[1], temp), forest[2..] + [Pair(forest, temp)])
  {
    var a, b := items[0], items[1];
    assert a in Foot(forest[0].sk) && b in Foot(forest[1].sk);
    var view' := Joining(view, a, b, temp);
    var e := Pair(forest, temp);
    forall i | 0 <= i < |forest|
      ensures Shows(view', forest[i].sk, forest[i].t) && Foot(forest[i].sk) <= view'.Keys && temp !in Foot(forest[i].sk)
    {
      assert Agree(view, view', Foot(forest[i].sk), forest[i].sk.node);
      ShowsKept(view, view', forest[i].sk, forest[i].t);
    }
    assert Apart(e.sk) && Shows(view', e.sk, e.t) && Foot(e.sk) <= view'.Keys;
  }

  // ---------------------------------------------------------------- what the loop keeps

  /** The list as given: every node is a leaf of its own. */
  function LeavesOf(items: seq<Node>): (s: seq<Entry>)
    reads items
    ensures |s| == |items|
    ensures forall i :: 0 <= i < |s| ==> s[i] == Entry(Tip(items[i]), Leaf(items[i].letr, items[i].freq))
  {
    seq(|items|, i requires 0 <= i < |items| reads items => Entry(Tip(items[i]), Leaf(items[i].letr, items[i].freq)))
  }

  /** A leaf for each node of the list. */
  function GivenLeaves(items: seq<Node>): (ts: seq<Tree>)
    reads items
    ensures |ts| == |items| && forall i :: 0 <= i < |ts| ==> ts[i] == Leaf(items[i].letr, items[i].freq)
  {
    seq(|items|, i requires 0 <= i < |items| reads items => Leaf(items[i].letr, items[i].freq))
  }

  /** The frequencies in the list. */
  function GivenFreqs(items: seq<Node>): multiset<int>
    reads items
  {
    if items == [] then multiset{} else multiset{items[0].freq} + GivenFreqs(items[1..])
  }

  lemma {:induction false} LeavesAreGiven(items: seq<Node>)
    ensures forall z :: CountWeight(LeavesOf(items), z) == GivenFreqs(items)[z]
  {
    if items != [] {
      LeavesAreGiven(items[1..]);
      assert LeavesOf(items)[1..] == LeavesOf(items[1..]);
    }
  }

  /** `u` has as many leaves of each frequency as the list has nodes. */
  ghost predicate Competes(u: Tree, start: seq<Entry>) {
    forall z :: Count(u, z) == CountWeight(start, z)
  }

  /** The forest still has the leaves of the list, and no competitor can beat its completion. */
  ghost predicate OnTrack(forest: seq<Entry>, start: seq<Entry>) {
    && AllLetters(forest) == AllLetters(start)
    && (forall z :: CountLeaves(forest, z) == CountWeight(start, z))
    && (forall u :: Competes(u, start) ==> Bounded(forest, u))
  }

  lemma {:induction false} LeavesCount(s: seq<Entry>, z: int)
    requires forall i :: 0 <= i < |s| ==> s[i].t.Leaf?
    ensures Total(s) == 0 && CountLeaves(s, z) == CountWeight(s, z)
  {
    if s != [] {
      LeavesCount(s[1..], z);
      assert PathLength(s[0].t, 0) == 0;
    }
  }

  lemma StartOnTrack(start: seq<Entry>)
    requires forall i :: 0 <= i < |start| ==> start[i].t.Leaf?
    ensures OnTrack(SortEntries(start), start)
  {
    var forest := SortEntries(start);
    SortKeepsLetters(start);
    forall z
      ensures CountLeaves(forest, z) == CountWeight(start, z)
      ensures CountWeight(forest, z) == CountWeight(start, z)
      ensures Total(forest) == 0
    {
      SortKeeps(start, z);
      LeavesCount(start, z);
    }
    forall u | Competes(u, start)
      ensures Bounded(forest, u)
    {
      assert Total(forest) == 0 by {
        assert CountLeaves(forest, 0) == CountWeight(start, 0);
      }
      assert Matches(u, forest);
    }
  }

  lemma JoinOnTrack(forest: seq<Entry>, start: seq<Entry>, e: Entry)
    requires |forest| >= 2 && e.t == Branch(forest[0].t, forest[1].t) && Sorted(forest)
    requires OnTrack(forest, start)
    ensures OnTrack(Joined(forest, e), start)
  {
    JoinedLetters(forest, e);
    forall z
      ensures CountLeaves(Joined(forest, e), z) == CountWeight(start, z)
    {
      JoinedCount(forest, e, z);
      assert CountLeaves(forest, z) == CountWeight(start, z);
    }
    forall u | Competes(u, start)
      ensures Bounded(Joined(forest, e), u)
    {
      JoinKeepsBound(forest, e, u);
    }
  }

  /** The forest over one tree: an optimal tree with exactly the leaves of the list. */
  lemma OnTrackAtTheEnd(forest: seq<Entry>, start: seq<Entry>)
    requires |forest| == 1 && OnTrack(forest, start)
    ensures Letters(forest[0].t) == AllLetters(start) && Competes(forest[0].t, start)
    ensures forall u :: Competes(u, start) ==> PathLength(forest[0].t, 0) <= PathLength(u, 0)
  {
    var e := forest[0];
    assert forest == [e] && forest[1..] == [];
    forall z
      ensures Count(e.t, z) == CountWeight(start, z)
    {
      assert CountLeaves(forest, z) == Count(e.t, z) + CountLeaves(forest[1..], z);
    }
    assert AllLetters(forest) == Letters(e.t) + AllLetters(forest[1..]);
    forall u | Competes(u, start)
      ensures PathLength(e.t, 0) <= PathLength(u, 0)
    {
      BoundedAtTheEnd(e, u);
    }
  }

  /** The tree has the leaves of the list, and no tree with these frequencies has a shorter path length. */
  ghost predicate BestFor(t: Tree, start: seq<Entry>) {
    && Letters(t) == AllLetters(start) && Competes(t, start)
    && forall u :: Competes(u, start) ==> PathLength(t, 0) <= PathLength(u, 0)
  }

  lemma {:induction false} RoundsAreBest(forest: seq<Entry>, start: seq<Entry>)
    requires forest != [] && Sorted(forest) && OnTrack(forest, start)
    ensures BestFor(Finish(Trees(forest)), start)
    decreases |forest|
  {
    if |forest| == 1 {
      OnTrackAtTheEnd(forest, start);
    } else {
      var e := Entry(forest[0].sk, Branch(forest[0].t, forest[1].t));
      JoinOnTrack(forest, start, e);
      SortSorts(forest[2..] + [e]);
      JoinedCount(forest, e, 0);
      JoinedTrees(forest, e);
      RoundsAreBest(Joined(forest, e), start);
    }
  }

  /** For every list of leaves the tree that the rounds make is optimal. */
  lemma TreeForIsBest(start: seq<Entry>)
    requires start != [] && forall i :: 0 <= i < |start| ==> start[i].t.Leaf?
    ensures BestFor(TreeFor(Trees(start)), start)
  {
    StartOnTrack(start);
    SortSorts(start);
    SortKeeps(start, 0);
    TreesOfSort(start);
    RoundsAreBest(SortEntries(start), start);
  }

  /** The rounds still to come make the tree for the list. */
  ghost predicate LeadsTo(forest: seq<Entry>, start: seq<Entry>) {
    forest != [] && start != [] && Finish(Trees(forest)) == TreeFor(Trees(start))
  }

  lemma StartLeads(start: seq<Entry>)
    requires start != []
    ensures LeadsTo(SortEntries(start), start)
  {
    SortKeeps(start, 0);
    TreesOfSort(start);
  }

  lemma JoinLeads(forest: seq<Entry>, start: seq<Entry>, e: Entry)
    requires |forest| >= 2 && e.t == Branch(forest[0].t, forest[1].t) && LeadsTo(forest, start)
    ensures LeadsTo(Joined(forest, e), start)
  {
    JoinedCount(forest, e, 0);
    JoinedTrees(forest, e);
  }

  // ---------------------------------------------------------------- the algorithm

  /** The same in terms of multisets and products. */
  lemma IsOptimal(t: Tree, start: seq<Entry>, freqs: multiset<int>)
    requires BestFor(t, start) && forall z :: CountWeight(start, z) == freqs[z]
    ensures Freqs(t) == freqs
    ensures forall u :: Freqs(u) == freqs ==> WeightedLength(t, 0) <= WeightedLength(u, 0)
  {
    CountsAreFreqs(t, freqs);
    LengthIsWeighted(t, 0);
    forall u | Freqs(u) == freqs
      ensures WeightedLength(t, 0) <= WeightedLength(u, 0)
    {
      CountsAreFreqs(u, freqs);
      LengthIsWeighted(u, 0);
      assert Competes(u, start);
    }
  }

  lemma SortHolds(items: seq<Node>, view: map<Node, Fields>, forest: seq<Entry>)
    requires Holds(items, view, forest) && Mirrors(view)
    ensures Holds(SortNodes(items), view, SortEntries(forest)) && Sorted(SortEntries(forest))
  {
    assert Weighed(forest) by {
      forall i | 0 <= i < |forest|
        ensures Roots(forest)[i].freq == Weight(forest[i].t)
      {
        assert Shows(view, forest[i].sk, forest[i].t);
      }
    }
    SortRoots(forest);
    SortKeepsDisjoint(forest);
    SortSorts(forest);
    var s := SortEntries(forest);
    forall i | 0 <= i < |s|
      ensures Shows(view, s[i].sk, s[i].t) && Foot(s[i].sk) <= view.Keys
    {
      assert s[i] in forest;
    }
  }

  /** A parent for two nodes, which get the bits 0 and 1. */
  method Parent(a: Node, b: Node, ghost view: map<Node, Fields>) returns (temp: Node, ghost view': map<Node, Fields>)
    requires a != b && a in view && b in view && Mirrors(view)
    modifies a, b
    ensures fresh(temp) && temp !in view
    ensures view' == Joining(view, a, b, temp) && Mirrors(view')
    ensures temp.left == a && temp.right == b && temp.freq == old(a.freq) + old(b.freq)
    ensures temp.letr == "" && temp.data == 0 && a.data == 0 && b.data == 1
  {
    temp := new Node();
    temp.freq := a.freq + b.freq;
    SetBits(a, b, view);
    temp.left := a;
    temp.right := b;
    view' := Joining(view, a, b, temp);
  }

  method SetBits(a: Node, b: Node, ghost view: map<Node, Fields>)
    requires a != b && a in view && b in view && Mirrors(view)
    modifies a, b
    ensures Mirrors(view[a := view[a].(data := 0)][b := view[b].(data := 1)])
  {
    a.data := 0;
    b.data := 1;
  }

  /** One round on a list of two nodes or more: a parent for the first two replaces them. */
  method Combine(li: NodeList, ghost view: map<Node, Fields>, ghost forest: seq<Entry>)
      returns (temp: Node, ghost view': map<Node, Fields>)
    requires |forest| >= 2 && Mirrors(view) && Holds(li.items, view, forest)
    modifies li, li.items[..2]
    ensures fresh(temp) && Mirrors(view') && temp !in view
    ensures li.items == old(li.items)[2..] + [temp]
    ensures old(li.items[0] in view && li.items[1] in view)
    ensures view' == Joining(view, old(li.items[0]), old(li.items[1]), temp)
    ensures Holds(li.items, view', forest[2..] + [Pair(forest, temp)])
  {
    ghost var items := li.items;
    var a, b := li.items[0], li.items[1];
    assert a != b && a in view && b in view by {
      assert a in Foot(forest[0].sk) && b in Foot(forest[1].sk);
    }
    temp, view' := Parent(a, b, view);
    li.items := li.items[2..] + [temp];
    JoiningHolds(items, view, forest, temp);
  }

  /** li.sort(new comp()) */
  method Sort(li: NodeList, ghost view: map<Node, Fields>, ghost forest: seq<Entry>)
    requires Mirrors(view) && Holds(li.items, view, forest)
    modifies li
    ensures Mirrors(view) && Holds(li.items, view, SortEntries(forest)) && Sorted(SortEntries(forest))
    ensures forall i :: 0 <= i < |li.items| ==> li.items[i] in old(li.items)
    ensures |li.items| == |old(li.items)|
    ensures forall w :: OfFreq(li.items, w) == old(OfFreq(li.items, w))
  {
    forall w
      ensures OfFreq(SortNodes(li.items), w) == OfFreq(li.items, w)
    {
      SortNodesIsStable(li.items, w);
    }
    SortHolds(li.items, view, forest);
    SortKeeps(forest, 0);
    li.items := SortNodes(li.items);
  }

  /** The fields of the list's nodes, except the bits, are those of the snapshot `first`. */
  ghost predicate OnlyBits(first: map<Node, Fields>, view: map<Node, Fields>) {
    forall n :: n in first ==> n in view && view[n].(data := 0) == first[n].(data := 0)
  }

  ghost function Snapshot(items: seq<Node>): map<Node, Fields>
    reads items
  {
    map n | n in items :: Fields(n.letr, n.freq, n.data, n.left, n.right)
  }

  /** The list as given is a forest of leaves. */
  lemma StartHolds(items: seq<Node>)
    requires forall i, j :: 0 <= i < j < |items| ==> items[i] != items[j]
    requires forall n :: n in items ==> n.left == null && n.right == null
    ensures Holds(items, Snapshot(items), LeavesOf(items)) && Mirrors(Snapshot(items))
  {
    var s := LeavesOf(items);
    forall i | 0 <= i < |s|
      ensures Apart(s[i].sk) && Shows(Snapshot(items), s[i].sk, s[i].t) && Foot(s[i].sk) <= Snapshot(items).Keys
    {
      assert items[i] in items;
    }
    assert items == Roots(s);
    assert Disjoint(s);
  }

  lemma JoiningOnlyBits(first: map<Node, Fields>, view: map<Node, Fields>, a: Node, b: Node, temp: Node)
    requires a in view && b in view && temp !in view && OnlyBits(first, view)
    ensures OnlyBits(first, Joining(view, a, b, temp))
  {
  }

  /** What the rounds keep of the list and the snapshot of its nodes. */
  ghost predicate Between(items: seq<Node>, view: map<Node, Fields>, forest: seq<Entry>, start: seq<Entry>,
                          first: map<Node, Fields>) {
    Holds(items, view, forest) && LeadsTo(forest, start) && OnlyBits(first, view)
  }

  /** One round on a list of two nodes or more: join the first two and sort again. */
  method JoinRound(li: NodeList, ghost start: seq<Entry>, ghost first: map<Node, Fields>,
                   ghost view: map<Node, Fields>, ghost forest: seq<Entry>)
      returns (ghost view': map<Node, Fields>, ghost forest': seq<Entry>)
    requires |li.items| >= 2 && Mirrors(view) && Between(li.items, view, forest, start, first)
    modifies li, li.items
    ensures Mirrors(view') && Between(li.items, view', forest', start, first)
    ensures |forest'| == |forest| - 1
    ensures forall i :: 0 <= i < |li.items| ==> li.items[i] in old(li.items) || fresh(li.items[i])
  {
    ghost var a, b := li.items[0], li.items[1];
    var temp;
    temp, view' := Combine(li, view, forest);
    JoiningOnlyBits(first, view, a, b, temp);
    Sort(li, view', forest[2..] + [Pair(forest, temp)]);
    forest' := Joined(forest, Pair(forest, temp));
    JoinLeads(forest, start, Pair(forest, temp));
    JoinedCount(forest, Pair(forest, temp), 0);
  }

  /** One round: a list of one node stays as it is. */
  method Round(li: NodeList, ghost start: seq<Entry>, ghost first: map<Node, Fields>,
               ghost view: map<Node, Fields>, ghost forest: seq<Entry>)
      returns (ghost view': map<Node, Fields>, ghost forest': seq<Entry>)
    requires Mirrors(view) && Between(li.items, view, forest, start, first)
    modifies li, li.items
    ensures Mirrors(view') && Between(li.items, view', forest', start, first)
    ensures |forest'| < |forest| || |li.items| == 1
    ensures forall i :: 0 <= i < |li.items| ==> li.items[i] in old(li.items) || fresh(li.items[i])
  {
    view', forest' := view, forest;
    if |li.items| >= 2 {
      view', forest' := JoinRound(li, start, first, view, forest);
    }
  }

  /** The rounds of the loop on a sorted list. */
  method Rounds(li: NodeList, ghost start: seq<Entry>, ghost first: map<Node, Fields>, ghost forest0: seq<Entry>)
      returns (root: Node, ghost view: map<Node, Fields>, ghost forest: seq<Entry>)
    requires Mirrors(first) && Between(li.items, first, forest0, start, first)
    modifies li, li.items
    ensures Mirrors(view) && Between(li.items, view, forest, start, first)
    ensures li.items == [root]
  {
    view, forest := first, forest0;
    while true
      invariant Mirrors(view) && Between(li.items, view, forest, start, first)
      invariant forall i :: 0 <= i < |li.items| ==> li.items[i] in old(li.items) || fresh(li.items[i])
      decreases |forest|
    {
      view, forest := Round(li, start, first, view, forest);
      if |li.items| == 1 {
        root := li.items[0];
        return;
      }
    }
  }

  /** make_huffmann_tree: root is null when the list is empty, where the source throws. */
  method MakeHuffmanTree(li: NodeList) returns (root: Node?, ghost view: map<Node, Fields>, ghost forest: seq<Entry>)
    requires forall i, j :: 0 <= i < j < |li.items| ==> li.items[i] != li.items[j]
    requires forall n :: n in li.items ==> n.left == null && n.right == null
    modifies li, li.items
    ensures root == null <==> old(li.items) == []
    ensures root == null ==> li.items == []
    ensures root != null ==>
      && li.items == [root] && |forest| == 1
      && Mirrors(view) && Holds([root], view, forest) && OnlyBits(old(Snapshot(li.items)), view)
      && Letters(forest[0].t) == old(AllLetters(LeavesOf(li.items)))
      && Freqs(forest[0].t) == old(GivenFreqs(li.items))
      && forest[0].t == TreeFor(old(GivenLeaves(li.items)))
      && forall u :: Freqs(u) == old(GivenFreqs(li.items)) ==> WeightedLength(forest[0].t, 0) <= WeightedLength(u, 0)
  {
    view, forest := map[], [];
    if li.items == [] {
      return null, view, forest;
    }
    ghost var start, first := LeavesOf(li.items), Snapshot(li.items);
    assert Trees(start) == GivenLeaves(li.items);
    LeavesAreGiven(li.items);
    StartHolds(li.items);
    StartLeads(start);
    Sort(li, first, start);
    root, view, forest := Rounds(li, start, first, SortEntries(start));
    TreeForIsBest(start);
    IsOptimal(forest[0].t, start, old(GivenFreqs(li.items)));
  }
}
