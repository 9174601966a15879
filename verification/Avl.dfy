/** The program of algorithms/cpp/Datastructures/AVLtree.cpp on its own linked nodes. */
module Avl {
  import opened AvlTree
  import opened Wrappers

  class Node {
    var data: int
    var left: Node?
    var right: Node?

    constructor (data: int)
      ensures this.data == data && left == null && right == null
    {
      this.data := data;
      left, right := null, null;
    }
  }

  // ---------------------------------------------------------------- nodes that spell a tree

  /** Which node stands at which place of a tree. */
  datatype Shape = Nil | At(node: Node, left: Shape, data: int, right: Shape)

  ghost function Nodes(s: Shape): set<Node> {
    if s.Nil? then {} else Nodes(s.left) + {s.node} + Nodes(s.right)
  }

  ghost function TreeOf(s: Shape): (t: Tree)
    ensures t.Bin? <==> s.At?
  {
    if s.Nil? then Empty else Bin(TreeOf(s.left), s.data, TreeOf(s.right))
  }

  /** No node stands at two places. */
  ghost predicate Apart(s: Shape) {
    s.At? ==>
      && Apart(s.left) && Apart(s.right)
      && s.node !in Nodes(s.left) && s.node !in Nodes(s.right) && Nodes(s.left) !! Nodes(s.right)
  }

  /** The links from `n` on are those of the shape. */
  ghost predicate Spells(n: Node?, s: Shape)
    reads Nodes(s)
    decreases s
  {
    match s
    case Nil => n == null
    case At(m, l, d, r) => n == m && m.data == d && Spells(m.left, l) && Spells(m.right, r)
  }

  // ---------------------------------------------------------------- the program

  /** The height, by recursion over the nodes. */
  function HeightOf(n: Node?, ghost s: Shape): (h: int)
    requires Spells(n, s)
    reads Nodes(s)
    ensures h == Height(TreeOf(s))
    decreases s
  {
    if n == null then 0 else 1 + Max(HeightOf(n.left, s.left), HeightOf(n.right, s.right))
  }

  function GetBalance(n: Node, ghost s: Shape): (b: int)
    requires Spells(n, s)
    reads Nodes(s)
    ensures b == Balance(TreeOf(s))
  {
    HeightOf(n.left, s.left) - HeightOf(n.right, s.right)
  }

  method RightRotate(root: Node, ghost s: Shape, ghost repr: set<Node>) returns (t: Node, ghost s': Shape)
    requires s.At? && repr == Nodes(s) && Spells(root, s) && Apart(s) && s.left.At?
    modifies repr
    ensures Spells(t, s') && Apart(s') && Nodes(s') == repr && TreeOf(s') == RightRotated(TreeOf(s))
  {
    t := root.left;
    s' := At(t, s.left.left, s.left.data, At(root, s.left.right, s.data, s.right));
    var u := t.right;
    t.right := root;
    root.left := u;
  }

  method LeftRotate(root: Node, ghost s: Shape, ghost repr: set<Node>) returns (t: Node, ghost s': Shape)
    requires s.At? && repr == Nodes(s) && Spells(root, s) && Apart(s) && s.right.At?
    modifies repr
    ensures Spells(t, s') && Apart(s') && Nodes(s') == repr && TreeOf(s') == LeftRotated(TreeOf(s))
  {
    t := root.right;
    s' := At(t, At(root, s.left, s.data, s.right.left), s.right.data, s.right.right);
    var u := t.left;
    t.left := root;
    root.right := u;
  }

  /** Left too high: one rotation or two. */
  method FixLeft(root: Node, ghost s: Shape, ghost repr: set<Node>) returns (r: Node, ghost s': Shape)
    requires repr == Nodes(s) && Spells(root, s) && Apart(s) && s.left.At?
    modifies repr
    ensures Spells(r, s') && Apart(s') && Nodes(s') == repr && TreeOf(s') == LeftCase(TreeOf(s))
  {
    s' := s;
    if GetBalance(root.left, s.left) < 0 {
      var l, sl := LeftRotate(root.left, s.left, Nodes(s.left));
      root.left := l;
      s' := s.(left := sl);
    }
    r, s' := RightRotate(root, s', repr);
  }

  /** Right too high. */
  method FixRight(root: Node, ghost s: Shape, ghost repr: set<Node>) returns (r: Node, ghost s': Shape)
    requires repr == Nodes(s) && Spells(root, s) && Apart(s) && s.right.At?
    modifies repr
    ensures Spells(r, s') && Apart(s') && Nodes(s') == repr && TreeOf(s') == RightCase(TreeOf(s))
  {
    s' := s;
    if GetBalance(root.right, s.right) > 0 {
      var l, sl := RightRotate(root.right, s.right, Nodes(s.right));
      root.right := l;
      s' := s.(right := sl);
    }
    r, s' := LeftRotate(root, s', repr);
  }

  method Rebalance(root: Node, ghost s: Shape, ghost repr: set<Node>) returns (r: Node, ghost s': Shape)
    requires repr == Nodes(s) && Spells(root, s) && Apart(s)
    modifies repr
    ensures Spells(r, s') && Apart(s') && Nodes(s') == repr && TreeOf(s') == Rebalanced(TreeOf(s))
    ensures Balanced(TreeOf(s).left) && Balanced(TreeOf(s).right) ==> -1 <= Balance(TreeOf(s')) <= 1
    ensures -1 <= Balance(TreeOf(s)) <= 1 ==> s' == s && r == root
  {
    r, s' := root, s;
    RotationCases(TreeOf(s));
    if Balanced(TreeOf(s).left) && Balanced(TreeOf(s).right) {
      RootRepaired(TreeOf(s));
    }
    var b := GetBalance(root, s);
    if b > 1 {
      r, s' := FixLeft(root, s, repr);
    } else if b < -1 {
      r, s' := FixRight(root, s, repr);
    }
  }

  method Insert(root: Node?, item: int, ghost s: Shape, ghost repr: set<Node>)
    returns (r: Node, ghost s': Shape, ghost added: Node)
    requires repr == Nodes(s) && Spells(root, s) && Apart(s)
    modifies repr
    ensures Spells(r, s') && Apart(s') && fresh(added) && Nodes(s') == repr + {added}
    ensures TreeOf(s') == Inserted(TreeOf(s), item)
    ensures OneMore(TreeOf(s), TreeOf(s'), item)
    decreases s, 1
  {
    InsertKeeps(TreeOf(s), item);
    var nn := new Node(item);
    if root == null {
      return nn, At(nn, Nil, item, Nil), nn;
    }
    s', added := InsertBelow(root, item, s, repr);
    r, s' := Rebalance(root, s', repr + {added});
  }

  /** The recursive call on the side where the item belongs. */
  method InsertBelow(root: Node, item: int, ghost s: Shape, ghost repr: set<Node>)
    returns (ghost s': Shape, ghost added: Node)
    requires repr == Nodes(s) && Spells(root, s) && Apart(s)
    modifies repr
    ensures Spells(root, s') && Apart(s') && fresh(added) && Nodes(s') == repr + {added} && s'.data == s.data
    ensures TreeOf(s'.left) == if item < s.data then Inserted(TreeOf(s.left), item) else TreeOf(s.left)
    ensures TreeOf(s'.right) == if item < s.data then TreeOf(s.right) else Inserted(TreeOf(s.right), item)
    decreases s, 0
  {
    if item < root.data {
      var l, sl, nn := Insert(root.left, item, s.left, Nodes(s.left));
      root.left := l;
      s', added := s.(left := sl), nn;
    } else {
      var l, sl, nn := Insert(root.right, item, s.right, Nodes(s.right));
      root.right := l;
      s', added := s.(right := sl), nn;
    }
  }

  method MinValue(root: Node, ghost s: Shape) returns (r: Node)
    requires Spells(root, s)
    ensures r in Nodes(s) && r.data == Least(TreeOf(s))
    decreases s
  {
    if root.left == null {
      return root;
    }
    r := MinValue(root.left, s.left);
  }

  method DeleteNode(root: Node?, key: int, ghost s: Shape, ghost repr: set<Node>) returns (r: Node?, ghost s': Shape)
    requires repr == Nodes(s) && Spells(root, s) && Apart(s)
    modifies repr
    ensures Spells(r, s') && Apart(s') && Nodes(s') <= repr
    ensures TreeOf(s') == Deleted(TreeOf(s), key)
    ensures OneLess(TreeOf(s), TreeOf(s'), key)
    decreases s, 1
  {
    DeleteKeeps(TreeOf(s), key);
    r, s' := root, s;
    if root == null {
      return;
    }
    if key < root.data {
      var l, sl := DeleteNode(root.left, key, s.left, Nodes(s.left));
      root.left := l;
      s' := s.(left := sl);
    } else if key > root.data {
      var l, sl := DeleteNode(root.right, key, s.right, Nodes(s.right));
      root.right := l;
      s' := s.(right := sl);
    } else {
      r, s' := DeleteRoot(root, s, repr);
    }
  }

  /** The key is found: its node goes, or takes over the least value on the right. */
  method DeleteRoot(root: Node, ghost s: Shape, ghost repr: set<Node>) returns (r: Node?, ghost s': Shape)
    requires repr == Nodes(s) && Spells(root, s) && Apart(s)
    modifies repr
    ensures Spells(r, s') && Apart(s') && Nodes(s') <= repr
    ensures TreeOf(s') == Deleted(TreeOf(s), s.data)
    decreases s, 0
  {
    if root.right == null {
      return root.left, s.left;
    } else if root.left == null {
      return root.right, s.right;
    }
    var temp := MinValue(root.right, s.right);
    root.data := temp.data;
    var least := temp.data;
    var l, sl := DeleteNode(root.right, least, s.right, Nodes(s.right));
    root.right := l;
    r, s' := root, At(root, s.left, least, sl);
  }

  /** One operation on the nodes. */
  method Operate(root: Node?, op: Operation, ghost run: Run, ghost s: Shape, ghost repr: set<Node>)
      returns (r: Node?, ghost s': Shape, ghost repr': set<Node>)
    requires repr == Nodes(s) && Spells(root, s) && Apart(s) && TreeOf(s) == Built(run)
    modifies repr
    ensures repr' == Nodes(s') && fresh(repr' - repr) && Spells(r, s') && Apart(s')
    ensures TreeOf(s') == Built(Then(run, op))
  {
    match op
    case Insert(x) =>
      ghost var added;
      r, s', added := Insert(root, x, s, repr);
      repr' := repr + {added};
    case Delete(x) =>
      r, s' := DeleteNode(root, x, s, repr);
      repr' := Nodes(s');
  }

  /** The operations of a run, one after the other, from the empty tree. */
  method Replay(run: Run) returns (root: Node?, ghost s: Shape, ghost repr: set<Node>)
    ensures repr == Nodes(s) && fresh(repr) && Spells(root, s) && Apart(s)
    ensures TreeOf(s) == Built(run)
  {
    if run.Start? {
      return null, Nil, {};
    }
    root, s, repr := Replay(run.before);
    root, s, repr := Operate(root, run.last, run.before, s, repr);
  }

  /** After any run the nodes spell a search tree that holds exactly what the run leaves, in balance and full for its
      height if nothing was deleted. */
  method Perform(run: Run) returns (root: Node?, ghost s: Shape)
    ensures Spells(root, s) && Apart(s)
    ensures After(run, TreeOf(s))
  {
    ghost var repr;
    root, s, repr := Replay(run);
    RunKeeps(run);
  }
}
