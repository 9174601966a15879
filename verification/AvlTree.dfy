/** Balanced search trees as values: what the insertion and deletion of
    algorithms/cpp/Datastructures/AVLtree.cpp do to a tree, and what they keep. */
module AvlTree {
  import opened Wrappers

  datatype Tree = Empty | Bin(left: Tree, data: int, right: Tree)

  function Height(t: Tree): (h: int)
    ensures h >= 0 && (h == 0 <==> t.Empty?)
  {
    if t.Empty? then 0 else 1 + Max(Height(t.left), Height(t.right))
  }

  function Balance(t: Tree): int
    requires t.Bin?
  {
    Height(t.left) - Height(t.right)
  }

  // ---------------------------------------------------------------- search trees and sorted lists

  ghost function Inorder(t: Tree): seq<int> {
    if t.Empty? then [] else Inorder(t.left) + [t.data] + Inorder(t.right)
  }

  /** Nothing greater on the left, nothing smaller on the right; equal values may be on either side. */
  ghost predicate Ordered(t: Tree) {
    t.Bin? ==>
      && Ordered(t.left) && Ordered(t.right)
      && (forall x :: x in Inorder(t.left) ==> x <= t.data)
      && (forall x :: x in Inorder(t.right) ==> t.data <= x)
  }

  ghost predicate Balanced(t: Tree) {
    t.Bin? ==> Balanced(t.left) && Balanced(t.right) && -1 <= Balance(t) <= 1
  }

  ghost predicate Sorted(s: seq<int>) {
    forall i, j :: 0 <= i < j < |s| ==> s[i] <= s[j]
  }

  ghost predicate Split(l: seq<int>, v: int, r: seq<int>) {
    Sorted(l) && Sorted(r) && (forall x :: x in l ==> x <= v) && (forall x :: x in r ==> v <= x)
  }

  lemma SortedSplit(l: seq<int>, v: int, r: seq<int>)
    ensures Sorted(l + [v] + r) <==> Split(l, v, r)
  {
    var s, n := l + [v] + r, |l|;
    if Sorted(s) {
      assert forall i :: 0 <= i < |l| ==> l[i] == s[i];
      assert forall i :: 0 <= i < |r| ==> r[i] == s[n + 1 + i];
      assert s[n] == v;
    }
    if Split(l, v, r) {
      forall i, j | 0 <= i < j < |s|
        ensures s[i] <= s[j]
      {
        assert i < n ==> s[i] in l;
        assert j > n ==> s[j] in r;
      }
    }
  }

  /** A tree is ordered exactly when its values in order are sorted. */
  lemma {:induction false} OrderedIsSorted(t: Tree)
    ensures Ordered(t) <==> Sorted(Inorder(t))
  {
    if t.Bin? {
      OrderedIsSorted(t.left);
      OrderedIsSorted(t.right);
      SortedSplit(Inorder(t.left), t.data, Inorder(t.right));
    }
  }

  // ---------------------------------------------------------------- one value more or less in a sorted list

  /** `x` put after everything not greater. */
  ghost function Place(s: seq<int>, x: int): seq<int> {
    if s == [] || x < s[0] then [x] + s else [s[0]] + Place(s[1..], x)
  }

  /** One `x` less, if there is one. */
  ghost function Without(s: seq<int>, x: int): seq<int> {
    if s == [] then [] else if s[0] == x then s[1..] else [s[0]] + Without(s[1..], x)
  }

  lemma {:induction false} PlaceLeft(l: seq<int>, v: int, r: seq<int>, x: int)
    requires x < v
    ensures Place(l + [v] + r, x) == Place(l, x) + [v] + r
  {
    var s := l + [v] + r;
    if l != [] && l[0] <= x {
      PlaceLeft(l[1..], v, r, x);
      assert s[1..] == l[1..] + [v] + r;
    }
  }

  lemma {:induction false} PlaceRight(l: seq<int>, r: seq<int>, x: int)
    requires forall y :: y in l ==> y <= x
    ensures Place(l + r, x) == l + Place(r, x)
  {
    if l == [] {
      assert l + r == r;
    } else {
      assert l[0] in l && forall y :: y in l[1..] ==> y in l;
      PlaceRight(l[1..], r, x);
      assert (l + r)[1..] == l[1..] + r;
    }
  }

  lemma {:induction false} WithoutAbsent(s: seq<int>, x: int)
    requires x !in s
    ensures Without(s, x) == s
  {
    if s != [] {
      WithoutAbsent(s[1..], x);
    }
  }

  lemma {:induction false} WithoutLeft(l: seq<int>, r: seq<int>, x: int)
    requires x in l
    ensures Without(l + r, x) == Without(l, x) + r
  {
    assert (l + r)[1..] == l[1..] + r;
    if l[0] != x {
      WithoutLeft(l[1..], r, x);
    }
  }

  lemma {:induction false} WithoutRight(l: seq<int>, r: seq<int>, x: int)
    requires x !in l
    ensures Without(l + r, x) == l + Without(r, x)
  {
    if l == [] {
      assert l + r == r;
    } else {
      assert (l + r)[1..] == l[1..] + r;
      WithoutRight(l[1..], r, x);
    }
  }

  lemma AllEqual(l: seq<int>, v: int)
    requires l != [] && l[0] == v && Sorted(l) && forall x :: x in l ==> x <= v
    ensures l[1..] + [v] == l
  {
    forall i | 0 <= i < |l|
      ensures l[i] == v
    {
      assert l[i] in l && l[0] <= l[i];
    }
  }

  lemma SplitRest(l: seq<int>, v: int, r: seq<int>)
    requires Split(l, v, r) && l != []
    ensures Split(l[1..], v, r)
  {
    assert forall y :: y in l[1..] ==> y in l;
  }

  lemma {:induction false} WithoutMiddle(l: seq<int>, v: int, r: seq<int>)
    requires Split(l, v, r)
    ensures Without(l + [v] + r, v) == l + r
  {
    var s := l + [v] + r;
    if l == [] {
      assert s[1..] == r;
    } else {
      assert s[0] == l[0] && s[1..] == l[1..] + [v] + r;
      if l[0] == v {
        AllEqual(l, v);
      } else {
        SplitRest(l, v, r);
        WithoutMiddle(l[1..], v, r);
        assert [l[0]] + (l[1..] + r) == l + r;
      }
    }
  }

  lemma {:induction false} PlaceAddsOne(s: seq<int>, x: int)
    ensures multiset(Place(s, x)) == multiset(s) + multiset{x}
  {
    if s != [] {
      assert s == [s[0]] + s[1..];
      PlaceAddsOne(s[1..], x);
    }
  }

  lemma {:induction false} WithoutTakesOne(s: seq<int>, x: int)
    ensures multiset(Without(s, x)) == multiset(s) - multiset{x}
  {
    if s != [] {
      assert s == [s[0]] + s[1..];
      WithoutTakesOne(s[1..], x);
    }
  }

  lemma FirstIsLeast(v: int, s: seq<int>)
    requires Sorted(s) && forall y :: y in s ==> v <= y
    ensures Sorted([v] + s)
  {
    assert forall i :: 0 <= i < |s| ==> s[i] in s;
  }

  lemma {:induction false} PlaceKeepsSorted(s: seq<int>, x: int)
    requires Sorted(s)
    ensures Sorted(Place(s, x)) && forall y :: y in Place(s, x) <==> y in s || y == x
  {
    if s != [] && s[0] <= x {
      var rest := s[1..];
      PlaceKeepsSorted(rest, x);
      assert s == [s[0]] + rest;
      assert forall y :: y in rest ==> s[0] <= y;
      FirstIsLeast(s[0], Place(rest, x));
    }
  }

  lemma {:induction false} WithoutKeepsSorted(s: seq<int>, x: int)
    requires Sorted(s)
    ensures Sorted(Without(s, x)) && forall y :: y in Without(s, x) ==> y in s
  {
    if s != [] && s[0] != x {
      var rest := s[1..];
      WithoutKeepsSorted(rest, x);
      assert s == [s[0]] + rest;
      assert forall y :: y in rest ==> s[0] <= y;
      FirstIsLeast(s[0], Without(rest, x));
    }
  }

  // ---------------------------------------------------------------- insertion

  function RightRotated(t: Tree): Tree
    requires t.Bin? && t.left.Bin?
  {
    Bin(t.left.left, t.left.data, Bin(t.left.right, t.data, t.right))
  }

  function LeftRotated(t: Tree): Tree
    requires t.Bin? && t.right.Bin?
  {
    Bin(Bin(t.left, t.data, t.right.left), t.right.data, t.right.right)
  }

  /** Left too high; when the left child leans right it is turned first. */
  function LeftCase(t: Tree): Tree
    requires t.Bin? && t.left.Bin?
  {
    RightRotated(if Balance(t.left) < 0 then t.(left := LeftRotated(t.left)) else t)
  }

  function RightCase(t: Tree): Tree
    requires t.Bin? && t.right.Bin?
  {
    LeftRotated(if Balance(t.right) > 0 then t.(right := RightRotated(t.right)) else t)
  }

  function Rebalanced(t: Tree): Tree
    requires t.Bin?
  {
    if Balance(t) > 1 then LeftCase(t) else if Balance(t) < -1 then RightCase(t) else t
  }

  function Inserted(t: Tree, x: int): Tree {
    if t.Empty? then Bin(Empty, x, Empty)
    else if x < t.data then Rebalanced(t.(left := Inserted(t.left, x)))
    else Rebalanced(t.(right := Inserted(t.right, x)))
  }

  lemma Reassociate(a: seq<int>, u: int, b: seq<int>, v: int, c: seq<int>)
    ensures a + [u] + (b + [v] + c) == (a + [u] + b) + [v] + c
  {
  }

  lemma RightRotationKeeps(t: Tree)
    requires t.Bin? && t.left.Bin?
    ensures Inorder(RightRotated(t)) == Inorder(t)
  {
    var l := t.left;
    Reassociate(Inorder(l.left), l.data, Inorder(l.right), t.data, Inorder(t.right));
  }

  lemma LeftRotationKeeps(t: Tree)
    requires t.Bin? && t.right.Bin?
    ensures Inorder(LeftRotated(t)) == Inorder(t)
  {
    var r := t.right;
    Reassociate(Inorder(t.left), t.data, Inorder(r.left), r.data, Inorder(r.right));
  }

  /** Rebalancing leaves every value in its place in the order. */
  lemma RebalancingKeeps(t: Tree)
    requires t.Bin?
    ensures Inorder(Rebalanced(t)) == Inorder(t)
  {
    if Balance(t) > 1 {
      if Balance(t.left) < 0 {
        LeftRotationKeeps(t.left);
        RightRotationKeeps(t.(left := LeftRotated(t.left)));
      } else {
        RightRotationKeeps(t);
      }
    } else if Balance(t) < -1 {
      if Balance(t.right) > 0 {
        RightRotationKeeps(t.right);
        LeftRotationKeeps(t.(right := RightRotated(t.right)));
      } else {
        LeftRotationKeeps(t);
      }
    }
  }

  /** Insertion into a search tree is insertion into its sorted list. */
  lemma {:induction false} InsertRefines(t: Tree, x: int)
    requires Ordered(t)
    ensures Inorder(Inserted(t, x)) == Place(Inorder(t), x)
    decreases t
  {
    if t.Bin? {
      var l, v, r := Inorder(t.left), t.data, Inorder(t.right);
      if x < v {
        InsertRefines(t.left, x);
        RebalancingKeeps(t.(left := Inserted(t.left, x)));
        PlaceLeft(l, v, r, x);
      } else {
        InsertRefines(t.right, x);
        RebalancingKeeps(t.(right := Inserted(t.right, x)));
        PlaceRight(l + [v], r, x);
      }
    }
  }

  lemma InsertKeepsOrder(t: Tree, x: int)
    requires Ordered(t)
    ensures Ordered(Inserted(t, x))
    ensures multiset(Inorder(Inserted(t, x))) == multiset(Inorder(t)) + multiset{x}
  {
    OrderedIsSorted(t);
    InsertRefines(t, x);
    PlaceKeepsSorted(Inorder(t), x);
    PlaceAddsOne(Inorder(t), x);
    OrderedIsSorted(Inserted(t, x));
  }

  lemma LeftCaseBalanced(t: Tree)
    requires t.Bin? && Balanced(t.left) && Balanced(t.right) && Balance(t) == 2
    ensures Balanced(LeftCase(t)) && Height(t) - 1 <= Height(LeftCase(t)) <= Height(t)
  {
    var l := t.left;
    if Balance(l) < 0 {
      var m := l.right;
      assert LeftCase(t) == Bin(Bin(l.left, l.data, m.left), m.data, Bin(m.right, t.data, t.right));
    }
  }

  lemma RightCaseBalanced(t: Tree)
    requires t.Bin? && Balanced(t.left) && Balanced(t.right) && Balance(t) == -2
    ensures Balanced(RightCase(t)) && Height(t) - 1 <= Height(RightCase(t)) <= Height(t)
  {
    var r := t.right;
    if Balance(r) > 0 {
      var m := r.left;
      assert RightCase(t) == Bin(Bin(t.left, t.data, m.left), m.data, Bin(m.right, r.data, r.right));
    }
  }

  /** Which rotations are made, for every tree: none, one, or the child's first. */
  lemma RotationCases(u: Tree)
    requires u.Bin?
    ensures -1 <= Balance(u) <= 1 ==> Rebalanced(u) == u
    ensures Balance(u) > 1 ==> u.left.Bin? && Rebalanced(u).Bin?
    ensures Balance(u) < -1 ==> u.right.Bin? && Rebalanced(u).Bin?
    ensures Balance(u) > 1 ==> Rebalanced(u).right.Bin? && Rebalanced(u).right.data == u.data
    ensures Balance(u) > 1 ==> Rebalanced(u).right.right == u.right
    ensures Balance(u) < -1 ==> Rebalanced(u).left.Bin? && Rebalanced(u).left.data == u.data
    ensures Balance(u) < -1 ==> Rebalanced(u).left.left == u.left
    ensures Balance(u) > 1 && Balance(u.left) >= 0 ==> Rebalanced(u).data == u.left.data
    ensures Balance(u) < -1 && Balance(u.right) <= 0 ==> Rebalanced(u).data == u.right.data
    ensures Balance(u) > 1 && Balance(u.left) < 0 ==> u.left.right.Bin? && Rebalanced(u).data == u.left.right.data
    ensures Balance(u) < -1 && Balance(u.right) > 0 ==> u.right.left.Bin? && Rebalanced(u).data == u.right.left.data
  {
  }

  /** However far out of balance the root is: if its subtrees are balanced, the new root is in balance. */
  lemma RootRepaired(u: Tree)
    requires u.Bin? && Balanced(u.left) && Balanced(u.right)
    ensures Rebalanced(u).Bin? && -1 <= Balance(Rebalanced(u)) <= 1
  {
    if Balance(u) > 1 {
      LeftRepaired(u);
    } else if Balance(u) < -1 {
      RightRepaired(u);
    }
  }

  lemma LeftRepaired(u: Tree)
    requires u.Bin? && Balanced(u.left) && Balanced(u.right) && Balance(u) > 1
    ensures LeftCase(u).Bin? && -1 <= Balance(LeftCase(u)) <= 1
  {
    var l := u.left;
    if Balance(l) < 0 {
      var m := l.right;
      assert LeftCase(u) == Bin(Bin(l.left, l.data, m.left), m.data, Bin(m.right, u.data, u.right));
    }
  }

  lemma RightRepaired(u: Tree)
    requires u.Bin? && Balanced(u.left) && Balanced(u.right) && Balance(u) < -1
    ensures RightCase(u).Bin? && -1 <= Balance(RightCase(u)) <= 1
  {
    var r := u.right;
    if Balance(r) > 0 {
      var m := r.left;
      assert RightCase(u) == Bin(Bin(u.left, u.data, m.left), m.data, Bin(m.right, r.data, r.right));
    }
  }

  /** Insertion repairs a root that deletions left out of balance, if its subtrees are balanced. */
  lemma InsertRepairsRoot(t: Tree, x: int)
    requires t.Bin? && Balanced(t.left) && Balanced(t.right)
    ensures Inserted(t, x).Bin? && -1 <= Balance(Inserted(t, x)) <= 1
  {
    if x < t.data {
      InsertKeepsBalance(t.left, x);
      RootRepaired(t.(left := Inserted(t.left, x)));
    } else {
      InsertKeepsBalance(t.right, x);
      RootRepaired(t.(right := Inserted(t.right, x)));
    }
  }

  /** A smaller item goes to the left and any other to the right; without a rotation the rest of the tree stays. */
  lemma WhereItemsGo(t: Tree, x: int)
    requires t.Bin?
    ensures x < t.data && -1 <= Height(Inserted(t.left, x)) - Height(t.right) <= 1 ==>
      Inserted(t, x) == Bin(Inserted(t.left, x), t.data, t.right)
    ensures x >= t.data && -1 <= Height(t.left) - Height(Inserted(t.right, x)) <= 1 ==>
      Inserted(t, x) == Bin(t.left, t.data, Inserted(t.right, x))
  {
  }

  lemma GrownLeft(t: Tree, l: Tree)
    requires t.Bin? && Balanced(t) && Balanced(l) && Height(t.left) <= Height(l) <= Height(t.left) + 1
    ensures var u := Rebalanced(t.(left := l)); Balanced(u) && Height(t) <= Height(u) <= Height(t) + 1
  {
    var u := t.(left := l);
    if Balance(u) > 1 {
      LeftCaseBalanced(u);
    }
  }

  lemma GrownRight(t: Tree, r: Tree)
    requires t.Bin? && Balanced(t) && Balanced(r) && Height(t.right) <= Height(r) <= Height(t.right) + 1
    ensures var u := Rebalanced(t.(right := r)); Balanced(u) && Height(t) <= Height(u) <= Height(t) + 1
  {
    var u := t.(right := r);
    if Balance(u) < -1 {
      RightCaseBalanced(u);
    }
  }

  /** Insertion keeps every balance within one, and the tree grows by at most one level. */
  lemma {:induction false} InsertKeepsBalance(t: Tree, x: int)
    requires Balanced(t)
    ensures Balanced(Inserted(t, x))
    ensures Height(t) <= Height(Inserted(t, x)) <= Height(t) + 1
    decreases t
  {
    if t.Bin? {
      if x < t.data {
        InsertKeepsBalance(t.left, x);
        GrownLeft(t, Inserted(t.left, x));
      } else {
        InsertKeepsBalance(t.right, x);
        GrownRight(t, Inserted(t.right, x));
      }
    }
  }

  ghost function Fib(n: nat): nat {
    if n < 2 then n else Fib(n - 2) + Fib(n - 1)
  }

  lemma {:induction false} FibGrows(n: nat)
    ensures Fib(n) <= Fib(n + 1)
  {
    if n > 0 {
      FibGrows(n - 1);
    }
  }

  lemma FibStep(h: nat, h': nat)
    requires -1 <= h - h' <= 1
    ensures Fib(h + 2) + Fib(h' + 2) >= Fib(3 + Max(h, h'))
  {
    var m := Max(h, h');
    FibGrows(m + 1);
    assert Fib(m + 3) == Fib(m + 1) + Fib(m + 2);
  }

  /** A balanced tree of height h has at least Fib(h + 2) - 1 values. */
  lemma {:induction false} BalancedIsFull(t: Tree)
    requires Balanced(t)
    ensures |Inorder(t)| >= Fib(Height(t) + 2) - 1
  {
    if t.Bin? {
      BalancedIsFull(t.left);
      BalancedIsFull(t.right);
      FibStep(Height(t.left), Height(t.right));
    }
  }

  // ---------------------------------------------------------------- deletion

  function Least(t: Tree): int
    requires t.Bin?
  {
    if t.left.Empty? then t.data else Least(t.left)
  }

  function Deleted(t: Tree, key: int): Tree {
    if t.Empty? then t
    else if key < t.data then t.(left := Deleted(t.left, key))
    else if key > t.data then t.(right := Deleted(t.right, key))
    else if t.right.Empty? then t.left
    else if t.left.Empty? then t.right
    else Bin(t.left, Least(t.right), Deleted(t.right, Least(t.right)))
  }

  lemma {:induction false} LeastIsFirst(t: Tree)
    requires t.Bin?
    ensures |Inorder(t)| > 0 && Least(t) == Inorder(t)[0]
  {
    if t.left.Bin? {
      LeastIsFirst(t.left);
    }
  }

  /** Deletion from a search tree takes one occurrence out of its sorted list, if there is one. */
  lemma {:induction false} DeleteRefines(t: Tree, key: int)
    requires Ordered(t)
    ensures Inorder(Deleted(t, key)) == Without(Inorder(t), key)
    decreases t
  {
    if t.Bin? {
      var l, v, r := Inorder(t.left), t.data, Inorder(t.right);
      if key < v {
        DeleteRefines(t.left, key);
        DeleteFromLeft(l, v, r, key);
      } else if key > v {
        DeleteRefines(t.right, key);
        WithoutRight(l + [v], r, key);
      } else {
        if t.right.Bin? {
          DeleteRefines(t.right, Least(t.right));
        }
        DeleteHere(t);
        OrderedIsSorted(t.left);
        OrderedIsSorted(t.right);
        WithoutMiddle(l, v, r);
      }
    }
  }

  lemma DeleteFromLeft(l: seq<int>, v: int, r: seq<int>, key: int)
    requires key < v && forall x :: x in r ==> v <= x
    ensures Without(l + [v] + r, key) == Without(l, key) + [v] + r
  {
    assert l + [v] + r == l + ([v] + r);
    if key in l {
      WithoutLeft(l, [v] + r, key);
    } else {
      WithoutRight(l, [v] + r, key);
      WithoutAbsent([v] + r, key);
      WithoutAbsent(l, key);
    }
  }

  lemma FirstAndRest(l: seq<int>, r: seq<int>)
    requires r != []
    ensures l + [r[0]] + Without(r, r[0]) == l + r
  {
    assert [r[0]] + r[1..] == r;
  }

  lemma DeleteHere(t: Tree)
    requires t.Bin? && Ordered(t)
    requires t.right.Bin? ==> Inorder(Deleted(t.right, Least(t.right))) == Without(Inorder(t.right), Least(t.right))
    ensures Inorder(Deleted(t, t.data)) == Inorder(t.left) + Inorder(t.right)
  {
    if t.left.Bin? && t.right.Bin? {
      LeastIsFirst(t.right);
      FirstAndRest(Inorder(t.left), Inorder(t.right));
    } else {
      assert Inorder(Empty) == [];
    }
  }

  /** What deletion leaves where it was: the other side, and at the key the left side under the least value of the right
      one. */
  lemma WhatDeletionLeaves(t: Tree, key: int)
    requires t.Bin?
    ensures key < t.data ==> Deleted(t, key) == Bin(Deleted(t.left, key), t.data, t.right)
    ensures key > t.data ==> Deleted(t, key) == Bin(t.left, t.data, Deleted(t.right, key))
    ensures key == t.data && t.right.Empty? ==> Deleted(t, key) == t.left
    ensures key == t.data && t.left.Empty? ==> Deleted(t, key) == t.right
    ensures key == t.data && t.left.Bin? && t.right.Bin? ==>
      && |Inorder(t.right)| > 0 && Deleted(t, key).Bin? && Deleted(t, key).left == t.left
      && Deleted(t, key).data == Inorder(t.right)[0]
  {
    if t.right.Bin? {
      LeastIsFirst(t.right);
    }
  }

  lemma DeleteKeepsOrder(t: Tree, key: int)
    requires Ordered(t)
    ensures Ordered(Deleted(t, key))
    ensures multiset(Inorder(Deleted(t, key))) == multiset(Inorder(t)) - multiset{key}
  {
    OrderedIsSorted(t);
    DeleteRefines(t, key);
    WithoutKeepsSorted(Inorder(t), key);
    WithoutTakesOne(Inorder(t), key);
    OrderedIsSorted(Deleted(t, key));
  }

  // ---------------------------------------------------------------- when deletion keeps the balance

  /** The key is found and the tree loses a level with it. */
  predicate Shrinks(t: Tree, key: int) {
    if t.Empty? then false
    else if key < t.data then Shrinks(t.left, key) && Balance(t) > 0
    else if key > t.data then Shrinks(t.right, key) && Balance(t) < 0
    else if t.right.Empty? || t.left.Empty? then true
    else Shrinks(t.right, Least(t.right)) && Balance(t) < 0
  }

  /** No subtree on the way that is already the lower one loses a level. */
  predicate KeepsBalance(t: Tree, key: int) {
    if t.Empty? then true
    else if key < t.data then KeepsBalance(t.left, key) && (Shrinks(t.left, key) ==> Balance(t) >= 0)
    else if key > t.data then KeepsBalance(t.right, key) && (Shrinks(t.right, key) ==> Balance(t) <= 0)
    else if t.right.Empty? || t.left.Empty? then true
    else KeepsBalance(t.right, Least(t.right)) && (Shrinks(t.right, Least(t.right)) ==> Balance(t) <= 0)
  }

  lemma {:induction false} DeletedHeight(t: Tree, key: int)
    ensures Height(Deleted(t, key)) == Height(t) - (if Shrinks(t, key) then 1 else 0)
    decreases t
  {
    if t.Bin? {
      if key < t.data {
        DeletedHeight(t.left, key);
      } else if key > t.data {
        DeletedHeight(t.right, key);
      } else if t.left.Bin? && t.right.Bin? {
        DeletedHeight(t.right, Least(t.right));
      }
    }
  }

  /** Deletion does not rebalance: it leaves a balanced tree balanced exactly under this condition. */
  lemma {:induction false} DeleteKeepsBalanceIff(t: Tree, key: int)
    requires Balanced(t)
    ensures Balanced(Deleted(t, key)) <==> KeepsBalance(t, key)
    decreases t
  {
    if t.Bin? {
      if key < t.data {
        DeleteKeepsBalanceIff(t.left, key);
        DeletedHeight(t.left, key);
      } else if key > t.data {
        DeleteKeepsBalanceIff(t.right, key);
        DeletedHeight(t.right, key);
      } else if t.left.Bin? && t.right.Bin? {
        DeleteKeepsBalanceIff(t.right, Least(t.right));
        DeletedHeight(t.right, Least(t.right));
      }
    }
  }

  // ---------------------------------------------------------------- whole runs

  datatype Operation = Insert(item: int) | Delete(key: int)

  datatype Run = Start | Then(before: Run, last: Operation)

  /** The tree a run builds from the empty one. */
  function Built(run: Run): Tree {
    match run
    case Start => Empty
    case Then(before, Insert(x)) => Inserted(Built(before), x)
    case Then(before, Delete(x)) => Deleted(Built(before), x)
  }

  /** The values a run leaves in a bag. */
  ghost function Contents(run: Run): multiset<int> {
    match run
    case Start => multiset{}
    case Then(before, Insert(x)) => Contents(before) + multiset{x}
    case Then(before, Delete(x)) => Contents(before) - multiset{x}
  }

  ghost predicate InsertOnly(run: Run) {
    run.Then? ==> run.last.Insert? && InsertOnly(run.before)
  }

  /** Every run: the tree is ordered and holds exactly what the bag holds. */
  lemma {:induction false} EveryRun(run: Run)
    ensures Ordered(Built(run)) && multiset(Inorder(Built(run))) == Contents(run)
  {
    match run
    case Start =>
    case Then(before, Insert(x)) => EveryRun(before); InsertKeepsOrder(Built(before), x);
    case Then(before, Delete(x)) => EveryRun(before); DeleteKeepsOrder(Built(before), x);
  }

  /** Every run of insertions: the tree is in balance too, and full for its height. */
  lemma {:induction false} EveryInsertOnlyRun(run: Run)
    requires InsertOnly(run)
    ensures Balanced(Built(run)) && |Contents(run)| >= Fib(Height(Built(run)) + 2) - 1
  {
    if run.Then? {
      EveryInsertOnlyRun(run.before);
      InsertKeepsBalance(Built(run.before), run.last.item);
    }
    BalancedIsFull(Built(run));
    EveryRun(run);
    assert |multiset(Inorder(Built(run)))| == |Inorder(Built(run))|;
  }

  /** What an insertion of `x` promises of the tree before and the tree after. */
  ghost predicate OneMore(t: Tree, t': Tree, x: int) {
    && (Ordered(t) ==> Ordered(t') && multiset(Inorder(t')) == multiset(Inorder(t)) + multiset{x})
    && (Balanced(t) ==> Balanced(t') && Height(t) <= Height(t') <= Height(t) + 1)
    && (t.Bin? && Balanced(t.left) && Balanced(t.right) ==> t'.Bin? && -1 <= Balance(t') <= 1)
  }

  /** What a deletion of `key` promises. */
  ghost predicate OneLess(t: Tree, t': Tree, key: int) {
    && (Ordered(t) ==> Ordered(t') && multiset(Inorder(t')) == multiset(Inorder(t)) - multiset{key})
    && (Balanced(t) ==> (Balanced(t') <==> KeepsBalance(t, key)))
  }

  /** What a run promises of the tree it builds. */
  ghost predicate After(run: Run, t: Tree) {
    && Ordered(t) && multiset(Inorder(t)) == Contents(run)
    && (InsertOnly(run) ==> Balanced(t) && |Contents(run)| >= Fib(Height(t) + 2) - 1)
  }

  lemma InsertKeeps(t: Tree, x: int)
    ensures OneMore(t, Inserted(t, x), x)
  {
    if Ordered(t) {
      InsertKeepsOrder(t, x);
    }
    if Balanced(t) {
      InsertKeepsBalance(t, x);
    }
    if t.Bin? && Balanced(t.left) && Balanced(t.right) {
      InsertRepairsRoot(t, x);
    }
  }

  lemma DeleteKeeps(t: Tree, key: int)
    ensures OneLess(t, Deleted(t, key), key)
  {
    if Ordered(t) {
      DeleteKeepsOrder(t, key);
    }
    if Balanced(t) {
      DeleteKeepsBalanceIff(t, key);
    }
  }

  lemma RunKeeps(run: Run)
    ensures After(run, Built(run))
  {
    EveryRun(run);
    if InsertOnly(run) {
      EveryInsertOnlyRun(run);
    }
  }

  /** Four insertions and one deletion that leave a tree out of balance. */
  lemma DeleteMayUnbalance()
    ensures !Balanced(Built(Then(Then(Then(Then(Then(Start, Insert(2)), Insert(1)), Insert(3)), Insert(4)), Delete(1))))
  {
    var three := Then(Then(Then(Start, Insert(2)), Insert(1)), Insert(3));
    assert Built(three) == Bin(Bin(Empty, 1, Empty), 2, Bin(Empty, 3, Empty));
    assert Built(Then(three, Insert(4))) == Bin(Bin(Empty, 1, Empty), 2, Bin(Empty, 3, Bin(Empty, 4, Empty)));
  }

  /** After a deletion that leaves the root out of balance by two, the next insertion below its higher side
      makes it three; the rotation brings it back into balance. */
  lemma InsertAfterDelete()
    ensures Built(Then(Then(Then(Then(Then(Then(Then(Start, Insert(20)), Insert(10)), Insert(30)), Insert(25)),
        Insert(40)), Delete(10)), Insert(50)))
      == Bin(Bin(Empty, 20, Bin(Empty, 25, Empty)), 30, Bin(Empty, 40, Bin(Empty, 50, Empty)))
  {
    var three := Then(Then(Then(Start, Insert(20)), Insert(10)), Insert(30));
    assert Built(three) == Bin(Bin(Empty, 10, Empty), 20, Bin(Empty, 30, Empty));
    var five := Then(Then(three, Insert(25)), Insert(40));
    var high := Bin(Bin(Empty, 25, Empty), 30, Bin(Empty, 40, Empty));
    assert Built(Then(three, Insert(25))) == Bin(Bin(Empty, 10, Empty), 20, high.(right := Empty));
    assert Built(five) == Bin(Bin(Empty, 10, Empty), 20, high);
    assert Built(Then(five, Delete(10))) == Bin(Empty, 20, high);
    assert Inserted(high, 50) == high.(right := Bin(Empty, 40, Bin(Empty, 50, Empty)));
  }
}
