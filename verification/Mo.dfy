/** Counting the distinct values of many ranges by moving one window, as
    algorithms/cpp/Range queries/MO.cpp does. */
module Mo {

  // ---------------------------------------------------------------- the problem

  /** A query for the places l..r of the array, counted from 0, and its number in the input. */
  datatype Query = Query(l: int, r: int, i: int)

  /** The values at the places lo..hi-1; none when the range is inverted. */
  ghost function ValuesIn(a: seq<int>, lo: int, hi: int): set<int>
    requires 0 <= lo <= |a| && 0 <= hi <= |a|
  {
    set k | lo <= k < hi :: a[k]
  }

  ghost predicate ValuesFit(a: seq<int>, limit: int) {
    forall k :: 0 <= k < |a| ==> 0 <= a[k] < limit
  }

  /** `q` holds the queries `asked`, each with its number, in some order. */
  ghost predicate Arranges(q: seq<Query>, asked: seq<Query>) {
    && (forall k :: 0 <= k < |q| ==> 0 <= q[k].i < |asked| && asked[q[k].i] == q[k])
    && (forall j :: 0 <= j < |asked| ==> asked[j] in q)
    && (forall j :: 0 <= j < |asked| ==> asked[j].i == j)
  }

  ghost predicate InBounds(q: seq<Query>, n: int) {
    forall k :: 0 <= k < |q| ==> 0 <= q[k].l <= n && 0 <= q[k].r + 1 <= n
  }

  // ---------------------------------------------------------------- the comparison

  /** By block of the left end, then by right end. */
  predicate Before(x: Query, y: Query, bucketSize: int)
    requires bucketSize > 0
  {
    if x.l / bucketSize != y.l / bucketSize then x.l / bucketSize < y.l / bucketSize else x.r < y.r
  }

  ghost predicate Tied(x: Query, y: Query, bucketSize: int)
    requires bucketSize > 0
  {
    !Before(x, y, bucketSize) && !Before(y, x, bucketSize)
  }

  /** What a sorting routine demands of its comparison: a strict order whose ties are an equivalence. */
  lemma BeforeIsStrictWeak(x: Query, y: Query, z: Query, size: int)
    requires size > 0
    ensures !Before(x, x, size)
    ensures Before(x, y, size) && Before(y, z, size) ==> Before(x, z, size)
    ensures Tied(x, y, size) && Tied(y, z, size) ==> Tied(x, z, size)
  {
  }

  // ---------------------------------------------------------------- counting

  /** How often `v` occurs among the first `k` values. */
  ghost function Count(a: seq<int>, v: int, k: int): int
    requires 0 <= k <= |a|
    decreases k
  {
    if k == 0 then 0 else Count(a, v, k - 1) + (if a[k - 1] == v then 1 else 0)
  }

  /** The values whose counter is at least one. */
  ghost function Present(cnt: seq<int>): set<int> {
    set v | 0 <= v < |cnt| && cnt[v] >= 1
  }

  /** More occurrences before `hi` than before `lo`: exactly the values in between. */
  lemma {:induction false} CountTells(a: seq<int>, v: int, lo: int, hi: int)
    requires 0 <= lo <= |a| && 0 <= hi <= |a|
    ensures Count(a, v, hi) - Count(a, v, lo) >= 1 <==> v in ValuesIn(a, lo, hi)
    ensures lo <= hi ==> Count(a, v, hi) >= Count(a, v, lo)
    decreases hi + lo, lo
  {
    if lo < hi {
      CountTells(a, v, lo, hi - 1);
      assert ValuesIn(a, lo, hi) == ValuesIn(a, lo, hi - 1) + {a[hi - 1]};
    } else if hi < lo {
      CountTells(a, v, hi, lo);
    }
  }

  // ---------------------------------------------------------------- how far the ends move

  function Distance(x: int, y: int): nat {
    if x < y then y - x else x - y
  }

  /** The left end of the window after the first `k` queries. */
  function LeftEnd(q: seq<Query>, k: nat): int
    requires k <= |q|
  {
    if k == 0 then 0 else q[k - 1].l
  }

  function RightEnd(q: seq<Query>, k: nat): int
    requires k <= |q|
  {
    if k == 0 then 0 else q[k - 1].r + 1
  }

  /** The way both ends go during the first `k` queries. */
  function LeftMoves(q: seq<Query>, k: nat): nat
    requires k <= |q|
  {
    if k == 0 then 0 else LeftMoves(q, k - 1) + Distance(LeftEnd(q, k - 1), LeftEnd(q, k))
  }

  function RightMoves(q: seq<Query>, k: nat): nat
    requires k <= |q|
  {
    if k == 0 then 0 else RightMoves(q, k - 1) + Distance(RightEnd(q, k - 1), RightEnd(q, k))
  }

  function Moves(q: seq<Query>, k: nat): nat
    requires k <= |q|
  {
    LeftMoves(q, k) + RightMoves(q, k)
  }

  ghost predicate SortedBy(q: seq<Query>, size: int)
    requires size > 0
  {
    forall i, j :: 0 <= i < j < |q| ==> !Before(q[j], q[i], size)
  }

  /** The block of the left end after the first `k` queries. */
  function Block(q: seq<Query>, k: nat, size: int): int
    requires k <= |q| && size > 0
  {
    LeftEnd(q, k) / size
  }

  lemma BlocksAscend(q: seq<Query>, k: nat, size: int, n: int)
    requires 0 < k <= |q| && size > 0 && SortedBy(q, size) && InBounds(q, n)
    ensures 0 <= Block(q, k - 1, size) <= Block(q, k, size)
    ensures Block(q, k - 1, size) == Block(q, k, size) ==> RightEnd(q, k - 1) <= RightEnd(q, k)
  {
    if k == 1 {
      DivideGrows(0, LeftEnd(q, 1), size);
    } else {
      assert !Before(q[k - 1], q[k - 2], size);
      DivideGrows(0, LeftEnd(q, k - 1), size);
    }
  }

  lemma DivideGrows(x: int, y: int, size: int)
    requires size > 0 && 0 <= x <= y
    ensures 0 <= x / size <= y / size
  {
    var b, c := x / size, y / size;
    assert x == size * b + x % size && y == size * c + y % size;
    if c < b {
      TimesGrows(size, c + 1, b);
    }
    if b < 0 {
      TimesGrows(size, b, -1);
    }
  }

  lemma TimesGrows(c: int, x: int, y: int)
    requires 0 <= c && x <= y
    ensures c * x <= c * y && c * (x + 1) == c * x + c
  {
  }

  /** Within a block the left end moves less than a block; from block to block it moves on. */
  lemma {:induction false} LeftIsShort(q: seq<Query>, k: nat, size: int, n: int)
    requires k <= |q| && size > 0 && SortedBy(q, size) && InBounds(q, n)
    ensures LeftMoves(q, k) <= size * Block(q, k, size) + k * (size - 1)
  {
    if k > 0 {
      LeftIsShort(q, k - 1, size, n);
      BlocksAscend(q, k, size, n);
      OneMove(LeftEnd(q, k - 1), LeftEnd(q, k), size, k);
    }
  }

  lemma OneMove(x: int, y: int, size: int, k: int)
    requires size > 0 && x / size <= y / size
    ensures size * (x / size) + (k - 1) * (size - 1) + Distance(x, y) <= size * (y / size) + k * (size - 1)
  {
    var b, c := x / size, y / size;
    assert x == size * b + x % size && y == size * c + y % size;
    assert k * (size - 1) == (k - 1) * (size - 1) + (size - 1);
    if b < c {
      TimesGrows(size, b, b);
      TimesGrows(size, b + 1, c);
    }
  }

  /** Within a block the right end only moves on; at a new block it may go back all the way. */
  lemma {:induction false} RightIsShort(q: seq<Query>, k: nat, size: int, n: int)
    requires k <= |q| && size > 0 && SortedBy(q, size) && InBounds(q, n) && 0 <= n
    ensures RightMoves(q, k) <= RightEnd(q, k) + 2 * n * Block(q, k, size)
  {
    if k > 0 {
      RightIsShort(q, k - 1, size, n);
      BlocksAscend(q, k, size, n);
      BackAtMostOnce(RightMoves(q, k - 1), RightEnd(q, k - 1), RightEnd(q, k), n,
                     Block(q, k - 1, size), Block(q, k, size));
    }
  }

  lemma BackAtMostOnce(m: int, r: int, r': int, n: int, b: int, c: int)
    requires m <= r + 2 * n * b && 0 <= r <= n && 0 <= r' <= n && b <= c && (b == c ==> r <= r')
    ensures m + Distance(r, r') <= r' + 2 * n * c
  {
    if b < c {
      TimesGrows(2 * n, b, b);
      TimesGrows(2 * n, b + 1, c);
    }
  }

  lemma LastBlock(l: int, n: int, size: int)
    requires size > 0 && 0 <= l <= n
    ensures size * (l / size) <= n && 2 * n * (l / size) <= 2 * n * (n / size)
  {
    assert l == size * (l / size) + l % size;
    DivideGrows(l, n, size);
    TimesGrows(2 * n, l / size, n / size);
  }

  /** Sorting pays: the ends of the window move this much at most, where without it each query may cost 2n. */
  lemma SortedMovesLittle(q: seq<Query>, size: int, n: nat)
    requires size > 0 && SortedBy(q, size) && InBounds(q, n)
    ensures Moves(q, |q|) <= 2 * n + |q| * (size - 1) + 2 * n * (n / size)
  {
    LeftIsShort(q, |q|, size, n);
    RightIsShort(q, |q|, size, n);
    LastBlock(LeftEnd(q, |q|), n, size);
  }

  lemma RootDivides(n: nat, size: int)
    requires size > 0 && n <= size * size
    ensures n / size <= size
  {
    assert n == size * (n / size) + n % size;
    if n / size > size {
      TimesGrows(size, size, size);
      TimesGrows(size, size + 1, n / size);
    }
  }

  lemma Collect(n: int, t: nat, size: int)
    ensures t * (size - 1) + 2 * n * size <= (2 * n + t) * size
  {
    assert t * (size - 1) == t * size - t;
    assert (2 * n + t) * size == 2 * n * size + t * size;
  }

  /** With blocks as long as the root of n, rounded up, that is of the order of (n + queries) times the root. */
  lemma RootBlocks(q: seq<Query>, size: int, n: nat)
    requires size > 0 && n <= size * size && SortedBy(q, size) && InBounds(q, n)
    ensures Moves(q, |q|) <= 2 * n + (2 * n + |q|) * size
  {
    SortedMovesLittle(q, size, n);
    RootDivides(n, size);
    TimesGrows(2 * n, n / size, size);
    Collect(n, |q|, size);
  }

  // ---------------------------------------------------------------- sorting

  lemma InsertSorted(s: seq<Query>, x: Query, k: nat, size: int)
    requires size > 0 && SortedBy(s, size) && k <= |s|
    requires (forall i :: 0 <= i < k ==> !Before(x, s[i], size)) && (k < |s| ==> Before(x, s[k], size))
    ensures SortedBy(s[..k] + [x] + s[k..], size)
  {
    forall i | k <= i < |s|
      ensures !Before(s[i], x, size)
    {
      BeforeIsStrictWeak(s[i], x, s[k], size);
      assert k < i ==> !Before(s[i], s[k], size);
    }
  }

  /** The queries in sorted order; ties may come in any order. */
  method SortQueries(asked: seq<Query>, size: int) returns (q: seq<Query>)
    requires size > 0
    ensures SortedBy(q, size) && |q| == |asked| && forall x :: x in q <==> x in asked
  {
    q := [];
    for j := 0 to |asked|
      invariant SortedBy(q, size) && |q| == j && forall x :: x in q <==> x in asked[..j]
    {
      var k := 0;
      while k < |q| && !Before(asked[j], q[k], size)
        invariant k <= |q| && forall i :: 0 <= i < k ==> !Before(asked[j], q[i], size)
      {
        k := k + 1;
      }
      InsertSorted(q, asked[j], k, size);
      assert q == q[..k] + q[k..];
      q := q[..k] + [asked[j]] + q[k..];
      assert asked[..j + 1] == asked[..j] + [asked[j]];
    }
    assert asked[..|asked|] == asked;
  }

  // ---------------------------------------------------------------- the program

  class Window {
    const a: seq<int>
    const cnt: array<int>
    var ans: int
    /** How often Add and Remove were called. */
    ghost var moves: nat

    ghost predicate Valid()
      reads this, cnt
    {
      ValuesFit(a, cnt.Length) && ans == |Present(cnt[..])|
    }

    /** The counters are those of the window, signed when its ends are the wrong way round. */
    ghost predicate Spans(left: int, right: int)
      reads this, cnt
    {
      && 0 <= left <= |a| && 0 <= right <= |a|
      && forall v :: 0 <= v < cnt.Length ==> cnt[v] == Count(a, v, right) - Count(a, v, left)
    }

    constructor (a: seq<int>, limit: nat)
      requires ValuesFit(a, limit)
      ensures this.a == a && fresh(cnt) && cnt.Length == limit && Valid() && Spans(0, 0)
    {
      this.a := a;
      cnt := new int[limit](_ => 0);
      ans, moves := 0, 0;
      new;
      assert Present(cnt[..]) == {};
    }

    method Add(index: int)
      requires Valid() && 0 <= index < |a|
      modifies this`ans, this`moves, cnt
      ensures Valid() && cnt[..] == old(cnt[..])[a[index] := old(cnt[a[index]]) + 1]
      ensures moves == old(moves) + 1
    {
      moves := moves + 1;
      ghost var was := Present(cnt[..]);
      cnt[a[index]] := cnt[a[index]] + 1;
      if cnt[a[index]] == 1 {
        assert Present(cnt[..]) == was + {a[index]};
        ans := ans + 1;
      } else {
        assert Present(cnt[..]) == was;
      }
    }

    method Remove(index: int)
      requires Valid() && 0 <= index < |a|
      modifies this`ans, this`moves, cnt
      ensures Valid() && cnt[..] == old(cnt[..])[a[index] := old(cnt[a[index]]) - 1]
      ensures moves == old(moves) + 1
    {
      moves := moves + 1;
      ghost var was := Present(cnt[..]);
      cnt[a[index]] := cnt[a[index]] - 1;
      if cnt[a[index]] == 0 {
        assert Present(cnt[..]) == was - {a[index]};
        ans := ans - 1;
      } else {
        assert Present(cnt[..]) == was;
      }
    }

    /** Moving the left end to the query's. */
    method MoveLeft(start: int, right: int, l: int) returns (left: int)
      requires Valid() && Spans(start, right) && 0 <= l <= |a|
      modifies this`ans, this`moves, cnt
      ensures Valid() && Spans(left, right) && left == l && moves == old(moves) + Distance(start, l)
    {
      left := start;
      while left < l
        invariant Valid() && Spans(left, right) && moves + Distance(left, l) == old(moves) + Distance(start, l)
      {
        Remove(left);
        left := left + 1;
      }
      while left > l
        invariant Valid() && Spans(left, right) && left >= l
        invariant moves + Distance(left, l) == old(moves) + Distance(start, l)
      {
        Add(left - 1);
        left := left - 1;
      }
    }

    /** Moving the right end past the query's. */
    method MoveRight(left: int, start: int, r: int) returns (right: int)
      requires Valid() && Spans(left, start) && 0 <= r + 1 <= |a|
      modifies this`ans, this`moves, cnt
      ensures Valid() && Spans(left, right) && right == r + 1 && moves == old(moves) + Distance(start, r + 1)
    {
      right := start;
      while right <= r
        invariant Valid() && Spans(left, right)
        invariant moves + Distance(right, r + 1) == old(moves) + Distance(start, r + 1)
      {
        Add(right);
        right := right + 1;
      }
      while right > r + 1
        invariant Valid() && Spans(left, right) && right >= r + 1
        invariant moves + Distance(right, r + 1) == old(moves) + Distance(start, r + 1)
      {
        Remove(right - 1);
        right := right - 1;
      }
    }

    lemma AnsIsDistinct(left: int, right: int)
      requires Valid() && Spans(left, right)
      ensures ans == |ValuesIn(a, left, right)|
    {
      forall v
        ensures v in Present(cnt[..]) <==> v in ValuesIn(a, left, right)
      {
        CountTells(a, v, left, right);
      }
      assert Present(cnt[..]) == ValuesIn(a, left, right);
    }

    /** The queries in any order: every answer lands at the number of its query. */
    method AnswerAll(q: seq<Query>, ghost asked: seq<Query>, bucket: array<int>)
      requires Valid() && Spans(0, 0) && bucket != cnt
      requires Arranges(q, asked) && InBounds(q, |a|) && InBounds(asked, |a|) && bucket.Length == |asked|
      modifies this`ans, this`moves, cnt, bucket
      ensures Valid() && moves == old(moves) + Moves(q, |q|)
      ensures forall j :: 0 <= j < |asked| ==> bucket[j] == |ValuesIn(a, asked[j].l, asked[j].r + 1)|
    {
      var left, right := 0, 0;
      for k := 0 to |q|
        invariant Valid() && Spans(left, right) && left == LeftEnd(q, k) && right == RightEnd(q, k)
        invariant moves == old(moves) + Moves(q, k)
        invariant forall m {:trigger q[m]} :: 0 <= m < k ==> bucket[q[m].i] == |ValuesIn(a, q[m].l, q[m].r + 1)|
      {
        left := MoveLeft(left, right, q[k].l);
        right := MoveRight(left, right, q[k].r);
        AnsIsDistinct(left, right);
        bucket[q[k].i] := ans;
      }
      forall j | 0 <= j < |asked|
        ensures bucket[j] == |ValuesIn(a, asked[j].l, asked[j].r + 1)|
      {
        var m :| 0 <= m < |q| && q[m] == asked[j];
      }
    }

    /** The whole program: the answers in the order of the input, and few moves. */
    method Solve(asked: seq<Query>, size: int, bucket: array<int>)
      requires Valid() && Spans(0, 0) && bucket != cnt && bucket.Length == |asked| && size > 0
      requires InBounds(asked, |a|) && forall j :: 0 <= j < |asked| ==> asked[j].i == j
      modifies this`ans, this`moves, cnt, bucket
      ensures forall j :: 0 <= j < |asked| ==> bucket[j] == |ValuesIn(a, asked[j].l, asked[j].r + 1)|
      ensures moves - old(moves) <= 2 * |a| + |asked| * (size - 1) + 2 * |a| * (|a| / size)
      ensures |a| <= size * size ==> moves - old(moves) <= 2 * |a| + (2 * |a| + |asked|) * size
    {
      var q := SortQueries(asked, size);
      NumbersKept(q, asked, |a|);
      AnswerAll(q, asked, bucket);
      SortedMovesLittle(q, size, |a|);
      if |a| <= size * size {
        RootBlocks(q, size, |a|);
      }
    }
  }

  lemma NumbersKept(q: seq<Query>, asked: seq<Query>, n: int)
    requires (forall x :: x in q <==> x in asked) && InBounds(asked, n)
    requires forall j :: 0 <= j < |asked| ==> asked[j].i == j
    ensures Arranges(q, asked) && InBounds(q, n)
  {
    forall k | 0 <= k < |q|
      ensures 0 <= q[k].i < |asked| && asked[q[k].i] == q[k]
    {
      assert q[k] in asked;
    }
  }
}
