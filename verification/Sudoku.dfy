/** The backtracking solver of algorithms/c/misc/sudokusolver.c, which fills and empties cells of
    one board in place. */
module Sudoku {

  /** Boxes have `r` rows and `c` columns; the board has side r * c. */
  datatype Shape = Shape(r: int, c: int) {
    predicate Valid() {
      r > 0 && c > 0
    }

    function Side(): int {
      r * c
    }
  }

  // ---------------------------------------------------------------- cells of a flat board

  function Index(n: int, x: int, y: int): int {
    x * n + y
  }

  predicate OnBoard(n: int, x: int, y: int) {
    0 <= x < n && 0 <= y < n
  }

  lemma IndexInRange(n: int, x: int, y: int)
    requires OnBoard(n, x, y)
    ensures 0 <= Index(n, x, y) < n * n
  {
    assert x * n <= (n - 1) * n;
  }

  lemma {:induction false} RowGap(n: int, x: int, x': int)
    requires 0 <= n
    ensures x < x' ==> x * n + n <= x' * n
    decreases x' - x
  {
    if x < x' {
      assert x' * n == (x' - 1) * n + n;
      RowGap(n, x, x' - 1);
    }
  }

  lemma IndexIsInjective(n: int, x: int, y: int, x': int, y': int)
    requires OnBoard(n, x, y) && OnBoard(n, x', y') && Index(n, x, y) == Index(n, x', y')
    ensures x == x' && y == y'
  {
    RowGap(n, x, x');
    RowGap(n, x', x);
  }

  ghost predicate Board(s: seq<int>, n: int) {
    n * n <= |s| && forall x, y :: OnBoard(n, x, y) ==> 0 <= Index(n, x, y) < |s|
  }

  lemma IsBoard(s: seq<int>, n: int)
    requires 0 <= n && n * n <= |s|
    ensures Board(s, n)
  {
    forall x, y | OnBoard(n, x, y)
      ensures 0 <= Index(n, x, y) < |s|
    {
      IndexInRange(n, x, y);
    }
  }

  /** The number in row `x` and column `y`. */
  ghost function At(s: seq<int>, n: int, x: int, y: int): int
    requires Board(s, n) && OnBoard(n, x, y)
  {
    s[Index(n, x, y)]
  }

  ghost predicate SameUnit(sh: Shape, x: int, y: int, x': int, y': int)
    requires sh.Valid()
  {
    x == x' || y == y' || (x / sh.r == x' / sh.r && y / sh.c == y' / sh.c)
  }

  // ---------------------------------------------------------------- what solve looks for

  /** Cell (x, y) of the filled board `t` clashes with no other cell of its row, column or box. */
  ghost predicate NoClash(t: seq<int>, sh: Shape, x: int, y: int)
    requires sh.Valid() && Board(t, sh.Side()) && OnBoard(sh.Side(), x, y)
  {
    var n := sh.Side();
    forall x', y' :: OnBoard(n, x', y') && SameUnit(sh, x, y, x', y') && At(t, n, x', y') == At(t, n, x, y) ==>
      x' == x && y' == y
  }

  /** How `t` continues `s` at one cell: a given stays, an empty cell gets a number without clash. */
  ghost predicate Continues(s: seq<int>, t: seq<int>, sh: Shape, x: int, y: int)
    requires sh.Valid() && Board(s, sh.Side()) && Board(t, sh.Side()) && OnBoard(sh.Side(), x, y)
  {
    var n := sh.Side();
    if At(s, n, x, y) == 0 then 1 <= At(t, n, x, y) <= n && NoClash(t, sh, x, y)
    else At(t, n, x, y) == At(s, n, x, y)
  }

  ghost predicate Completes(s: seq<int>, t: seq<int>, sh: Shape)
    requires sh.Valid() && Board(s, sh.Side())
  {
    && |t| == |s| && Board(t, sh.Side())
    && forall x, y {:trigger Continues(s, t, sh, x, y)} :: OnBoard(sh.Side(), x, y) ==> Continues(s, t, sh, x, y)
  }

  ghost predicate Solvable(s: seq<int>, sh: Shape)
    requires sh.Valid() && Board(s, sh.Side())
  {
    exists t :: Completes(s, t, sh)
  }

  /** The number `v` occurs in no cell that shares a unit with (x, y). */
  ghost predicate Fits(s: seq<int>, sh: Shape, x: int, y: int, v: int)
    requires sh.Valid() && Board(s, sh.Side()) && OnBoard(sh.Side(), x, y)
  {
    var n := sh.Side();
    forall x', y' {:trigger At(s, n, x', y')} ::
      OnBoard(n, x', y') && SameUnit(sh, x, y, x', y') ==> At(s, n, x', y') != v
  }

  // ---------------------------------------------------------------- trying one number

  ghost function Put(s: seq<int>, n: int, x: int, y: int, v: int): seq<int>
    requires Board(s, n) && OnBoard(n, x, y)
  {
    s[Index(n, x, y) := v]
  }

  lemma AtPut(s: seq<int>, n: int, x: int, y: int, v: int, x': int, y': int)
    requires Board(s, n) && OnBoard(n, x, y) && OnBoard(n, x', y')
    ensures Board(Put(s, n, x, y, v), n)
    ensures At(Put(s, n, x, y, v), n, x', y') == if x' == x && y' == y then v else At(s, n, x', y')
  {
    if Index(n, x, y) == Index(n, x', y') {
      IndexIsInjective(n, x, y, x', y');
    }
  }

  /** A completion of the board with a fitting number put in is a completion of the board. */
  lemma PutSound(s: seq<int>, t: seq<int>, sh: Shape, x: int, y: int, v: int)
    requires sh.Valid() && Board(s, sh.Side()) && OnBoard(sh.Side(), x, y) && At(s, sh.Side(), x, y) == 0
    requires 1 <= v <= sh.Side() && Fits(s, sh, x, y, v)
    requires Board(Put(s, sh.Side(), x, y, v), sh.Side()) && Completes(Put(s, sh.Side(), x, y, v), t, sh)
    ensures Completes(s, t, sh)
  {
    var n := sh.Side();
    var s' := Put(s, n, x, y, v);
    forall x1, y1 | OnBoard(n, x1, y1)
      ensures Continues(s, t, sh, x1, y1)
    {
      AtPut(s, n, x, y, v, x1, y1);
      assert Continues(s', t, sh, x1, y1);
      if x1 == x && y1 == y {
        forall x2, y2 | OnBoard(n, x2, y2) && SameUnit(sh, x, y, x2, y2) && At(t, n, x2, y2) == At(t, n, x, y)
          ensures x2 == x && y2 == y
        {
          AtPut(s, n, x, y, v, x2, y2);
          assert Continues(s', t, sh, x2, y2);
          if At(s, n, x2, y2) == 0 && !(x2 == x && y2 == y) {
            assert NoClash(t, sh, x2, y2);
            assert SameUnit(sh, x2, y2, x, y);
          }
        }
      }
    }
  }

  /** The number a completion has in an empty cell fits there, and stays possible once put in. */
  lemma PutComplete(s: seq<int>, t: seq<int>, sh: Shape, x: int, y: int)
    requires sh.Valid() && Board(s, sh.Side()) && OnBoard(sh.Side(), x, y) && At(s, sh.Side(), x, y) == 0
    requires Completes(s, t, sh)
    ensures var v := At(t, sh.Side(), x, y);
      && 1 <= v <= sh.Side() && Fits(s, sh, x, y, v)
      && Board(Put(s, sh.Side(), x, y, v), sh.Side()) && Completes(Put(s, sh.Side(), x, y, v), t, sh)
  {
    var n := sh.Side();
    var v := At(t, n, x, y);
    var s' := Put(s, n, x, y, v);
    assert Continues(s, t, sh, x, y);
    AtPut(s, n, x, y, v, x, y);
    forall x1, y1 | OnBoard(n, x1, y1)
      ensures SameUnit(sh, x, y, x1, y1) ==> At(s, n, x1, y1) != v
      ensures Continues(s', t, sh, x1, y1)
    {
      AtPut(s, n, x, y, v, x1, y1);
      assert Continues(s, t, sh, x1, y1);
    }
  }

  // ---------------------------------------------------------------- boxes

  lemma QuotientBelow(k: int, m: int, x: int, q: int)
    requires k > 0 && q * k <= x < k * m
    ensures q < m
  {
    Commutes(k, m);
    RowGap(k, m, q);
  }

  /** The box that contains row or column `x`: `k` lines wide, `m` of them. */
  lemma BoxLine(k: int, m: int, x: int, i: int)
    requires k > 0 && m > 0 && 0 <= x < k * m && 0 <= i < k
    ensures 0 <= BoxBase(x, k) + i < k * m && (BoxBase(x, k) + i) / k == x / k
  {
    var q := x / k;
    LineOfBox(k, x, x);
    QuotientBelow(k, m, x, q);
    RowGap(k, q, m);
    Commutes(k, m);
    RowGap(k, -1, q);
    DivideBack(k, q, i);
  }

  /** The cell at offset (i, j) of the box of (x, y). */
  lemma BoxCell(sh: Shape, x: int, y: int, i: int, j: int)
    requires sh.Valid() && OnBoard(sh.Side(), x, y) && 0 <= i < sh.r && 0 <= j < sh.c
    ensures OnBoard(sh.Side(), BoxBase(x, sh.r) + i, BoxBase(y, sh.c) + j)
    ensures (BoxBase(x, sh.r) + i) / sh.r == x / sh.r && (BoxBase(y, sh.c) + j) / sh.c == y / sh.c
  {
    Commutes(sh.r, sh.c);
    BoxLine(sh.r, sh.c, x, i);
    BoxLine(sh.c, sh.r, y, j);
  }

  /** The first row or column of the box of line `x`. */
  function BoxBase(x: int, k: int): int
    requires k > 0
  {
    x / k * k
  }

  lemma Commutes(a: int, b: int)
    ensures a * b == b * a
  {
  }

  lemma DivideBack(k: int, q: int, i: int)
    requires k > 0 && 0 <= i < k
    ensures (q * k + i) / k == q
  {
    var d := (q * k + i) / k;
    RowGap(k, d, q);
    RowGap(k, q, d);
  }

  lemma LineOfBox(k: int, x: int, x': int)
    requires k > 0 && x / k == x' / k
    ensures 0 <= x' % k < k && x' == BoxBase(x, k) + x' % k
  {
  }

  /** The cell lies in box `d` of box row `b`. */
  ghost predicate InBox(sh: Shape, b: int, d: int, x: int, y: int) {
    b * sh.r <= x < b * sh.r + sh.r && d * sh.c <= y < d * sh.c + sh.c
  }

  /** Two cells share a row, a column, or one of the boxes of `r` rows and `c` columns. */
  lemma UnitsAre(sh: Shape, x: int, y: int, x': int, y': int)
    requires sh.Valid()
    ensures SameUnit(sh, x, y, x', y') <==>
      x == x' || y == y' || exists b, d :: InBox(sh, b, d, x, y) && InBox(sh, b, d, x', y')
  {
    if x / sh.r == x' / sh.r && y / sh.c == y' / sh.c {
      LineOfBox(sh.r, x, x);
      LineOfBox(sh.r, x, x');
      LineOfBox(sh.c, y, y);
      LineOfBox(sh.c, y, y');
      assert InBox(sh, x / sh.r, y / sh.c, x, y) && InBox(sh, x / sh.r, y / sh.c, x', y');
    }
    if b, d :| InBox(sh, b, d, x, y) && InBox(sh, b, d, x', y') {
      DivideBack(sh.r, b, x - b * sh.r);
      DivideBack(sh.r, b, x' - b * sh.r);
      DivideBack(sh.c, d, y - d * sh.c);
      DivideBack(sh.c, d, y' - d * sh.c);
    }
  }

  // ---------------------------------------------------------------- the read-only scans

  method OkRow(a: array<int>, sh: Shape, x: int, y: int, v: int) returns (ok: bool)
    requires sh.Valid() && Board(a[..], sh.Side()) && OnBoard(sh.Side(), x, y)
    ensures ok <==> forall j :: 0 <= j < sh.Side() ==> At(a[..], sh.Side(), x, j) != v
  {
    var n := sh.Side();
    for j := 0 to n
      invariant forall i :: 0 <= i < j ==> At(a[..], n, x, i) != v
    {
      assert OnBoard(n, x, j);
      if a[x * n + j] == v {
        assert At(a[..], n, x, j) == v;
        return false;
      }
    }
    return true;
  }

  method OkCol(a: array<int>, sh: Shape, x: int, y: int, v: int) returns (ok: bool)
    requires sh.Valid() && Board(a[..], sh.Side()) && OnBoard(sh.Side(), x, y)
    ensures ok <==> forall i :: 0 <= i < sh.Side() ==> At(a[..], sh.Side(), i, y) != v
  {
    var n := sh.Side();
    for i := 0 to n
      invariant forall j :: 0 <= j < i ==> At(a[..], n, j, y) != v
    {
      assert OnBoard(n, i, y);
      if a[i * n + y] == v {
        assert At(a[..], n, i, y) == v;
        return false;
      }
    }
    return true;
  }

  /** The number is not at offset (i, j) of the box of (x, y). */
  ghost predicate NotAt(s: seq<int>, sh: Shape, x: int, y: int, v: int, i: int, j: int)
    requires sh.Valid() && Board(s, sh.Side()) && OnBoard(sh.Side(), x, y) && 0 <= i < sh.r && 0 <= j < sh.c
  {
    BoxCell(sh, x, y, i, j);
    At(s, sh.Side(), BoxBase(x, sh.r) + i, BoxBase(y, sh.c) + j) != v
  }

  method OkBox(a: array<int>, sh: Shape, x: int, y: int, v: int) returns (ok: bool)
    requires sh.Valid() && Board(a[..], sh.Side()) && OnBoard(sh.Side(), x, y)
    ensures ok <==> forall i, j :: 0 <= i < sh.r && 0 <= j < sh.c ==> NotAt(a[..], sh, x, y, v, i, j)
  {
    var n := sh.Side();
    var bi, bj := x / sh.r, y / sh.c;
    for i := 0 to sh.r
      invariant forall i', j :: 0 <= i' < i && 0 <= j < sh.c ==> NotAt(a[..], sh, x, y, v, i', j)
    {
      for j := 0 to sh.c
        invariant forall i', j' :: 0 <= i' < i && 0 <= j' < sh.c ==> NotAt(a[..], sh, x, y, v, i', j')
        invariant forall j' :: 0 <= j' < j ==> NotAt(a[..], sh, x, y, v, i, j')
      {
        BoxCell(sh, x, y, i, j);
        if a[(i + bi * sh.r) * n + (j + bj * sh.c)] == v {
          assert !NotAt(a[..], sh, x, y, v, i, j);
          return false;
        }
      }
    }
    return true;
  }

  lemma UnitsCovered(s: seq<int>, sh: Shape, x: int, y: int, v: int)
    requires sh.Valid() && Board(s, sh.Side()) && OnBoard(sh.Side(), x, y)
    ensures Fits(s, sh, x, y, v) <==>
      && (forall j :: 0 <= j < sh.Side() ==> At(s, sh.Side(), x, j) != v)
      && (forall i :: 0 <= i < sh.Side() ==> At(s, sh.Side(), i, y) != v)
      && (forall i, j :: 0 <= i < sh.r && 0 <= j < sh.c ==> NotAt(s, sh, x, y, v, i, j))
  {
    var n := sh.Side();
    if Fits(s, sh, x, y, v) {
      forall i, j | 0 <= i < sh.r && 0 <= j < sh.c
        ensures NotAt(s, sh, x, y, v, i, j)
      {
        BoxCell(sh, x, y, i, j);
        assert At(s, n, BoxBase(x, sh.r) + i, BoxBase(y, sh.c) + j) != v;
      }
      assert forall j :: 0 <= j < n ==> OnBoard(n, x, j) && SameUnit(sh, x, y, x, j);
      assert forall i :: 0 <= i < n ==> OnBoard(n, i, y) && SameUnit(sh, x, y, i, y);
    }
    if forall i, j :: 0 <= i < sh.r && 0 <= j < sh.c ==> NotAt(s, sh, x, y, v, i, j) {
      forall x', y' | OnBoard(n, x', y') && x / sh.r == x' / sh.r && y / sh.c == y' / sh.c
        ensures At(s, n, x', y') != v
      {
        LineOfBox(sh.r, x, x');
        LineOfBox(sh.c, y, y');
        assert NotAt(s, sh, x, y, v, x' % sh.r, y' % sh.c);
      }
    }
  }

  method Ok(a: array<int>, sh: Shape, x: int, y: int, v: int) returns (ok: bool)
    requires sh.Valid() && Board(a[..], sh.Side()) && OnBoard(sh.Side(), x, y)
    ensures ok <==> Fits(a[..], sh, x, y, v)
  {
    UnitsCovered(a[..], sh, x, y, v);
    ok := OkRow(a, sh, x, y, v);
    if ok {
      ok := OkCol(a, sh, x, y, v);
    }
    if ok {
      ok := OkBox(a, sh, x, y, v);
    }
  }

  // ---------------------------------------------------------------- the search

  /** How many of the first `k` cells are empty. */
  function Empties(s: seq<int>, k: nat): nat
    requires k <= |s|
  {
    if k == 0 then 0 else Empties(s, k - 1) + if s[k - 1] == 0 then 1 else 0
  }

  lemma {:induction false} OneLessEmpty(s: seq<int>, i: nat, v: int, k: nat)
    requires i < |s| && s[i] == 0 && v != 0 && k <= |s|
    ensures Empties(s[i := v], k) == Empties(s, k) - if i < k then 1 else 0
  {
    if k > 0 {
      OneLessEmpty(s, i, v, k - 1);
    }
  }

  /** No completion has a number below `v` in cell (x, y). */
  ghost predicate RuledOut(s: seq<int>, sh: Shape, x: int, y: int, v: int)
    requires sh.Valid() && Board(s, sh.Side()) && OnBoard(sh.Side(), x, y)
  {
    forall t :: Completes(s, t, sh) ==> At(t, sh.Side(), x, y) >= v
  }

  lemma NothingBelowOne(s: seq<int>, sh: Shape, x: int, y: int)
    requires sh.Valid() && Board(s, sh.Side()) && OnBoard(sh.Side(), x, y) && At(s, sh.Side(), x, y) == 0
    ensures RuledOut(s, sh, x, y, 1)
  {
    forall t | Completes(s, t, sh)
      ensures At(t, sh.Side(), x, y) >= 1
    {
      assert Continues(s, t, sh, x, y);
    }
  }

  lemma OneMoreRuledOut(s: seq<int>, sh: Shape, x: int, y: int, v: int)
    requires sh.Valid() && Board(s, sh.Side()) && OnBoard(sh.Side(), x, y) && At(s, sh.Side(), x, y) == 0
    requires RuledOut(s, sh, x, y, v) && Board(Put(s, sh.Side(), x, y, v), sh.Side())
    requires Fits(s, sh, x, y, v) ==> !Solvable(Put(s, sh.Side(), x, y, v), sh)
    ensures RuledOut(s, sh, x, y, v + 1)
  {
    forall t | Completes(s, t, sh)
      ensures At(t, sh.Side(), x, y) >= v + 1
    {
      PutComplete(s, t, sh, x, y);
    }
  }

  lemma AllRuledOut(s: seq<int>, sh: Shape, x: int, y: int)
    requires sh.Valid() && Board(s, sh.Side()) && OnBoard(sh.Side(), x, y) && At(s, sh.Side(), x, y) == 0
    requires RuledOut(s, sh, x, y, sh.Side() + 1)
    ensures !Solvable(s, sh)
  {
    forall t | Completes(s, t, sh)
      ensures false
    {
      PutComplete(s, t, sh, x, y);
    }
  }

  /** Cells that belong to no row of the board. */
  ghost predicate SamePast(s: seq<int>, t: seq<int>, n: int) {
    |s| == |t| && forall i :: 0 <= n * n <= i < |s| ==> t[i] == s[i]
  }

  lemma PutSamePast(s: seq<int>, t: seq<int>, n: int, x: int, y: int, v: int)
    requires Board(s, n) && OnBoard(n, x, y) && SamePast(Put(s, n, x, y, v), t, n)
    ensures SamePast(s, t, n)
  {
    IndexInRange(n, x, y);
  }

  // ---------------------------------------------------------------- which completion

  /** Cell `k`, counted row by row, is the first one in which the boards differ. */
  ghost predicate FirstDifference(s: seq<int>, t: seq<int>, k: int) {
    0 <= k < |s| && |t| == |s| && s[..k] == t[..k] && s[k] != t[k]
  }

  /** Where the board `t` first differs from `s`, row by row, it has the larger number. */
  ghost predicate NotAfter(s: seq<int>, t: seq<int>, n: int) {
    forall k {:trigger FirstDifference(s, t, k)} :: k < n * n && FirstDifference(s, t, k) ==> s[k] < t[k]
  }

  /** No completion of the board comes before `least`. */
  ghost predicate Least(s: seq<int>, least: seq<int>, sh: Shape)
    requires sh.Valid() && Board(s, sh.Side())
  {
    forall t :: Completes(s, t, sh) ==> NotAfter(least, t, sh.Side())
  }

  lemma CellOf(n: int, k: int)
    requires 0 < n && 0 <= k < n * n
    ensures OnBoard(n, k / n, k % n) && Index(n, k / n, k % n) == k
  {
    RowGap(n, n, k / n);
    assert k / n * n + k % n == k;
  }

  /** Completions agree on the cells that are not empty. */
  lemma GivensAgree(s: seq<int>, t: seq<int>, sh: Shape, k: int)
    requires sh.Valid() && Board(s, sh.Side()) && Completes(s, t, sh)
    requires 0 < sh.Side() && 0 <= k < sh.Side() * sh.Side() && s[k] != 0
    ensures t[k] == s[k]
  {
    var n := sh.Side();
    CellOf(n, k);
    assert Continues(s, t, sh, k / n, k % n);
  }

  ghost predicate FilledBefore(s: seq<int>, k: int) {
    0 <= k <= |s| && forall i :: 0 <= i < k ==> s[i] != 0
  }

  /** Two completions that differ in the first empty cell: that one comes first which has the smaller number. */
  lemma FirstEmptyDecides(s: seq<int>, a: seq<int>, t: seq<int>, sh: Shape, e: int)
    requires sh.Valid() && 0 < sh.Side() && Board(s, sh.Side()) && Completes(s, a, sh) && Completes(s, t, sh)
    requires e < sh.Side() * sh.Side() && FilledBefore(s, e) && e < |s| && a[e] < t[e]
    ensures NotAfter(a, t, sh.Side())
  {
    forall k | 0 <= k < e
      ensures a[k] == t[k]
    {
      GivensAgree(s, a, sh, k);
      GivensAgree(s, t, sh, k);
    }
    forall k | FirstDifference(a, t, k)
      ensures k == e
    {
      OneFirstDifference(a, t, e, k);
    }
  }

  lemma OneFirstDifference(a: seq<int>, t: seq<int>, e: int, k: int)
    requires FirstDifference(a, t, k) && 0 <= e < |a| && a[e] != t[e] && forall i :: 0 <= i < e ==> a[i] == t[i]
    ensures k == e
  {
    assert forall i :: 0 <= i < k ==> a[i] == a[..k][i] && t[i] == t[..k][i];
  }

  /** The smallest number that leads to a completion, with the least completion after it. */
  lemma LeastOfCell(s: seq<int>, a: seq<int>, sh: Shape, x: int, y: int, v: int)
    requires sh.Valid() && 0 < sh.Side() && Board(s, sh.Side()) && OnBoard(sh.Side(), x, y)
    requires At(s, sh.Side(), x, y) == 0 && v != 0 && RuledOut(s, sh, x, y, v)
    requires FilledBefore(s, Index(sh.Side(), x, y))
    requires Board(Put(s, sh.Side(), x, y, v), sh.Side()) && Completes(Put(s, sh.Side(), x, y, v), a, sh)
    requires Least(Put(s, sh.Side(), x, y, v), a, sh) && Completes(s, a, sh)
    ensures Least(s, a, sh)
  {
    var n := sh.Side();
    AtPut(s, n, x, y, v, x, y);
    assert Continues(Put(s, n, x, y, v), a, sh, x, y);
    IndexInRange(n, x, y);
    forall t | Completes(s, t, sh)
      ensures NotAfter(a, t, n)
    {
      if At(t, n, x, y) == v {
        PutComplete(s, t, sh, x, y);
      } else {
        FirstEmptyDecides(s, a, t, sh, Index(n, x, y));
      }
    }
  }

  lemma FullIsLeast(s: seq<int>, sh: Shape)
    requires sh.Valid() && 0 < sh.Side() && Board(s, sh.Side())
    requires forall x, y :: OnBoard(sh.Side(), x, y) ==> At(s, sh.Side(), x, y) != 0
    ensures Least(s, s, sh)
  {
    var n := sh.Side();
    forall t | Completes(s, t, sh)
      ensures NotAfter(s, t, n)
    {
      forall k | 0 <= k < n * n
        ensures t[k] == s[k]
      {
        CellOf(n, k);
        assert At(s, n, k / n, k % n) != 0;
        GivensAgree(s, t, sh, k);
      }
    }
  }

  /** The cells of the rows and columns before (x, y) are those with smaller numbers. */
  lemma FilledUpTo(s: seq<int>, n: int, x: int, y: int)
    requires 0 < n && Board(s, n) && OnBoard(n, x, y)
    requires forall x', y' :: OnBoard(n, x', y') && (x' < x || (x' == x && y' < y)) ==> At(s, n, x', y') != 0
    ensures FilledBefore(s, Index(n, x, y))
  {
    IndexInRange(n, x, y);
    forall k | 0 <= k < Index(n, x, y)
      ensures s[k] != 0
    {
      CellOf(n, k);
      RowGap(n, x, k / n);
      assert At(s, n, k / n, k % n) != 0;
    }
  }

  // ---------------------------------------------------------------- the two methods

  /** The loop over the numbers for one empty cell: leaves a completion, or the board as it was. */
  method TryCell(a: array<int>, sh: Shape, x: int, y: int) returns (solved: bool)
    requires sh.Valid() && Board(a[..], sh.Side()) && OnBoard(sh.Side(), x, y) && At(a[..], sh.Side(), x, y) == 0
    modifies a
    ensures solved ==> Completes(old(a[..]), a[..], sh) && SamePast(old(a[..]), a[..], sh.Side())
    ensures solved && FilledBefore(old(a[..]), Index(sh.Side(), x, y)) ==> Least(old(a[..]), a[..], sh)
    ensures !solved ==> a[..] == old(a[..]) && !Solvable(old(a[..]), sh)
    decreases Empties(a[..], a.Length), 0
  {
    var n := sh.Side();
    ghost var s := a[..];
    NothingBelowOne(s, sh, x, y);
    for v := 1 to n + 1
      invariant a[..] == s && RuledOut(s, sh, x, y, v)
    {
      AtPut(s, n, x, y, v, x, y);
      var fits := Ok(a, sh, x, y, v);
      if fits {
        OneLessEmpty(s, x * n + y, v, a.Length);
        a[x * n + y] := v;
        assert a[..] == Put(s, n, x, y, v);
        var ok := Solve(a, sh);
        if ok {
          PutSound(s, a[..], sh, x, y, v);
          PutSamePast(s, a[..], n, x, y, v);
          if FilledBefore(s, Index(n, x, y)) {
            LeastOfCell(s, a[..], sh, x, y, v);
          }
          return true;
        }
        a[x * n + y] := 0;
        assert a[..] == s;
      }
      OneMoreRuledOut(s, sh, x, y, v);
    }
    AllRuledOut(s, sh, x, y);
    return false;
  }

  /** solve: true with the first completion, row by row, on the board; or false with the board unchanged
      when there is none. */
  method Solve(a: array<int>, sh: Shape) returns (solved: bool)
    requires sh.Valid() && sh.Side() * sh.Side() <= a.Length
    modifies a
    ensures Board(old(a[..]), sh.Side())
    ensures solved ==> Completes(old(a[..]), a[..], sh) && SamePast(old(a[..]), a[..], sh.Side())
    ensures !solved ==> a[..] == old(a[..])
    ensures solved <==> Solvable(old(a[..]), sh)
    ensures solved ==> Least(old(a[..]), a[..], sh)
    decreases Empties(a[..], a.Length), 1
  {
    var n := sh.Side();
    ghost var s := a[..];
    IsBoard(s, n);
    var rem := false;
    for i := 0 to n
      invariant a[..] == s && (rem ==> !Solvable(s, sh))
      invariant !rem ==> forall x, y :: OnBoard(n, x, y) && x < i ==> At(s, n, x, y) != 0
    {
      for j := 0 to n
        invariant a[..] == s && (rem ==> !Solvable(s, sh))
        invariant !rem ==> forall x, y :: OnBoard(n, x, y) && (x < i || (x == i && y < j)) ==> At(s, n, x, y) != 0
      {
        assert OnBoard(n, i, j);
        if a[i * n + j] == 0 {
          if !rem {
            FilledUpTo(s, n, i, j);
          }
          rem := true;
          var ok := TryCell(a, sh, i, j);
          if ok {
            return true;
          }
        }
      }
    }
    if !rem {
      FullIsComplete(s, sh);
      FullIsLeast(s, sh);
      return true;
    }
    return false;
  }

  lemma FullIsComplete(s: seq<int>, sh: Shape)
    requires sh.Valid() && Board(s, sh.Side())
    requires forall x, y :: OnBoard(sh.Side(), x, y) ==> At(s, sh.Side(), x, y) != 0
    ensures Completes(s, s, sh)
  {
  }

  // ---------------------------------------------------------------- consistent givens

  /** A number from 1 to the side that clashes nowhere. */
  ghost predicate Proper(t: seq<int>, sh: Shape, x: int, y: int)
    requires sh.Valid() && Board(t, sh.Side()) && OnBoard(sh.Side(), x, y)
  {
    1 <= At(t, sh.Side(), x, y) <= sh.Side() && NoClash(t, sh, x, y)
  }

  /** A finished sudoku. */
  ghost predicate IsSudoku(t: seq<int>, sh: Shape)
    requires sh.Valid() && Board(t, sh.Side())
  {
    forall x, y {:trigger Proper(t, sh, x, y)} :: OnBoard(sh.Side(), x, y) ==> Proper(t, sh, x, y)
  }

  /** The givens are numbers from 1 to the side and clash nowhere. */
  ghost predicate Consistent(s: seq<int>, sh: Shape)
    requires sh.Valid() && Board(s, sh.Side())
  {
    forall x, y {:trigger Proper(s, sh, x, y)} ::
      OnBoard(sh.Side(), x, y) && At(s, sh.Side(), x, y) != 0 ==> Proper(s, sh, x, y)
  }

  ghost predicate KeepsGivens(s: seq<int>, t: seq<int>, sh: Shape)
    requires sh.Valid() && Board(s, sh.Side()) && Board(t, sh.Side())
  {
    forall x, y :: OnBoard(sh.Side(), x, y) && At(s, sh.Side(), x, y) != 0 ==>
      At(t, sh.Side(), x, y) == At(s, sh.Side(), x, y)
  }

  /** From consistent givens every completion is a sudoku that keeps them. */
  lemma ConsistentGivesSudoku(s: seq<int>, t: seq<int>, sh: Shape)
    requires sh.Valid() && Board(s, sh.Side()) && Completes(s, t, sh) && Consistent(s, sh)
    ensures IsSudoku(t, sh) && KeepsGivens(s, t, sh)
  {
    var n := sh.Side();
    forall x, y | OnBoard(n, x, y)
      ensures Proper(t, sh, x, y)
    {
      assert Continues(s, t, sh, x, y);
      if At(s, n, x, y) != 0 {
        assert Proper(s, sh, x, y);
        forall x', y' | OnBoard(n, x', y') && SameUnit(sh, x, y, x', y') && At(t, n, x', y') == At(t, n, x, y)
          ensures x' == x && y' == y
        {
          assert Continues(s, t, sh, x', y');
          assert SameUnit(sh, x', y', x, y);
        }
      }
    }
    forall x, y | OnBoard(n, x, y) && At(s, n, x, y) != 0
      ensures At(t, n, x, y) == At(s, n, x, y)
    {
      assert Continues(s, t, sh, x, y);
    }
  }

  /** A completion that is a sudoku comes from consistent givens only. */
  lemma SudokuNeedsConsistent(s: seq<int>, t: seq<int>, sh: Shape)
    requires sh.Valid() && Board(s, sh.Side()) && Completes(s, t, sh) && IsSudoku(t, sh)
    ensures Consistent(s, sh)
  {
    var n := sh.Side();
    forall x, y | OnBoard(n, x, y) && At(s, n, x, y) != 0
      ensures Proper(s, sh, x, y)
    {
      assert Continues(s, t, sh, x, y) && Proper(t, sh, x, y);
      forall x', y' | OnBoard(n, x', y') && SameUnit(sh, x, y, x', y') && At(s, n, x', y') == At(s, n, x, y)
        ensures x' == x && y' == y
      {
        assert Continues(s, t, sh, x', y');
      }
    }
  }

  /** Every sudoku that keeps the givens is a completion. */
  lemma SudokuCompletes(s: seq<int>, t: seq<int>, sh: Shape)
    requires sh.Valid() && Board(s, sh.Side()) && |t| == |s| && Board(t, sh.Side())
    requires IsSudoku(t, sh) && KeepsGivens(s, t, sh)
    ensures Completes(s, t, sh)
  {
    forall x, y | OnBoard(sh.Side(), x, y)
      ensures Continues(s, t, sh, x, y)
    {
      assert Proper(t, sh, x, y);
    }
  }

  /** For consistent givens, what solve decides is whether a sudoku with these givens exists. */
  lemma SolvableMeansSudoku(s: seq<int>, sh: Shape)
    requires sh.Valid() && Board(s, sh.Side()) && Consistent(s, sh)
    ensures Solvable(s, sh) <==>
      exists t: seq<int> :: |t| == |s| && Board(t, sh.Side()) && IsSudoku(t, sh) && KeepsGivens(s, t, sh)
  {
    if t :| Completes(s, t, sh) {
      ConsistentGivesSudoku(s, t, sh);
    }
    if t: seq<int> :| |t| == |s| && Board(t, sh.Side()) && IsSudoku(t, sh) && KeepsGivens(s, t, sh) {
      SudokuCompletes(s, t, sh);
    }
  }
}
