/** Longest increasing subsequences: the tail array method of
    algorithms/java/Dynamic Programming/LongestIncreasingSubsequence.java and the quadratic one of
    algorithms/cpp/Dynamic Programming/Longest Increasing Subsequence.cpp. */
module LongestIncreasing {

  // ---------------------------------------------------------------- the problem

  predicate Before(a: seq<int>, i: int, j: int)
    requires 0 <= i < |a| && 0 <= j < |a|
  {
    i < j && a[i] < a[j]
  }

  /** Positions of a strictly increasing subsequence of a[..n]. */
  ghost predicate Increasing(a: seq<int>, n: int, idx: seq<int>) {
    && n <= |a|
    && (forall k :: 0 <= k < |idx| ==> 0 <= idx[k] < n)
    && (forall k, m {:trigger Before(a, idx[k], idx[m])} :: 0 <= k < m < |idx| ==> Before(a, idx[k], idx[m]))
  }

  /** `len` is the length of a longest one in the first `n` elements. */
  ghost predicate IsLongest(a: seq<int>, n: int, len: int) {
    && (exists idx :: Increasing(a, n, idx) && |idx| == len)
    && (forall idx :: Increasing(a, n, idx) ==> |idx| <= len)
  }

  lemma LongestIsUnique(a: seq<int>, n: int, len: int, len': int)
    requires IsLongest(a, n, len) && IsLongest(a, n, len')
    ensures len == len'
  {
    var idx :| Increasing(a, n, idx) && |idx| == len;
    var idx' :| Increasing(a, n, idx') && |idx'| == len';
  }

  // ---------------------------------------------------------------- subsequences by last element

  /** A subsequence of length `len` in the first `n` elements ends at position `e`. */
  ghost predicate EndsAt(a: seq<int>, n: int, len: int, e: int) {
    exists idx :: Increasing(a, n, idx) && |idx| == len && len > 0 && idx[len - 1] == e
  }

  lemma EndsAlone(a: seq<int>, n: int, e: int)
    requires 0 <= e < n <= |a|
    ensures EndsAt(a, n, 1, e)
  {
    assert Increasing(a, n, [e]);
  }

  lemma EndsLater(a: seq<int>, n: int, n': int, len: int, e: int)
    requires EndsAt(a, n, len, e) && n <= n' <= |a|
    ensures EndsAt(a, n', len, e) && 0 <= e < n
  {
    var idx :| Increasing(a, n, idx) && |idx| == len && len > 0 && idx[len - 1] == e;
    assert Increasing(a, n', idx);
  }

  /** A subsequence can be continued by a later, greater element. */
  lemma EndsLonger(a: seq<int>, n: int, len: int, e: int, f: int)
    requires EndsAt(a, n, len, e) && 0 <= n <= f < |a| && a[e] < a[f]
    ensures EndsAt(a, f + 1, len + 1, f)
  {
    var idx :| Increasing(a, n, idx) && |idx| == len && len > 0 && idx[len - 1] == e;
    var more := idx + [f];
    forall k, m | 0 <= k < m < |more|
      ensures Before(a, more[k], more[m])
    {
      if m < len {
        assert Before(a, idx[k], idx[m]);
      } else if k < len - 1 {
        assert Before(a, idx[k], idx[len - 1]);
      }
    }
    assert Increasing(a, f + 1, more);
  }

  /** Without its last element a subsequence ends earlier, at a smaller element. */
  lemma EndsShorter(a: seq<int>, n: int, len: int, f: int) returns (e: int)
    requires EndsAt(a, n, len, f) && len > 1
    ensures 0 <= e < f < n <= |a| && a[e] < a[f] && EndsAt(a, f, len - 1, e)
  {
    var idx :| Increasing(a, n, idx) && |idx| == len && len > 0 && idx[len - 1] == f;
    e := idx[len - 2];
    assert Before(a, idx[len - 2], idx[len - 1]);
    var less := idx[..len - 1];
    forall k | 0 <= k < |less|
      ensures 0 <= less[k] < f
    {
      assert Before(a, idx[k], idx[len - 1]);
    }
    forall k, m | 0 <= k < m < |less|
      ensures Before(a, less[k], less[m])
    {
      assert Before(a, idx[k], idx[m]);
    }
    assert Increasing(a, f, less);
  }

  lemma LastOf(a: seq<int>, n: int, idx: seq<int>)
    requires Increasing(a, n, idx) && idx != []
    ensures EndsAt(a, n, |idx|, idx[|idx| - 1])
  {
  }

  // ---------------------------------------------------------------- the tail array

  /** `v` is the least last element of a subsequence of length `len` in the first `n` elements. */
  ghost predicate LeastEnd(a: seq<int>, n: int, len: int, v: int) {
    && n <= |a|
    && (exists e :: 0 <= e < n && a[e] == v && EndsAt(a, n, len, e))
    && (forall e :: 0 <= e < n && EndsAt(a, n, len, e) ==> v <= a[e])
  }

  /** tail[k] is the least last element for length k + 1, and no subsequence is longer. */
  ghost predicate Tails(a: seq<int>, n: int, tail: seq<int>, length: int) {
    && 0 <= length <= |tail| && n <= |a|
    && (forall k :: 0 <= k < length ==> LeastEnd(a, n, k + 1, tail[k]))
    && (forall idx :: Increasing(a, n, idx) ==> |idx| <= length)
  }

  lemma TailsAscend(a: seq<int>, n: int, tail: seq<int>, length: int, k: int)
    requires Tails(a, n, tail, length) && 0 <= k < k + 1 < length
    ensures tail[k] < tail[k + 1]
  {
    assert LeastEnd(a, n, k + 1 + 1, tail[k + 1]) && LeastEnd(a, n, k + 1, tail[k]);
    var e :| 0 <= e < n && a[e] == tail[k + 1] && EndsAt(a, n, k + 2, e);
    var d := EndsShorter(a, n, k + 2, e);
    EndsLater(a, e, n, k + 1, d);
  }

  lemma {:induction false} TailsSorted(a: seq<int>, n: int, tail: seq<int>, length: int, j: int, k: int)
    requires Tails(a, n, tail, length) && 0 <= j < k < length
    ensures tail[j] < tail[k]
    decreases k
  {
    TailsAscend(a, n, tail, length, k - 1);
    if j < k - 1 {
      TailsSorted(a, n, tail, length, j, k - 1);
    }
  }

  lemma EndsEarlier(a: seq<int>, n: int, m: int, len: int, e: int)
    requires EndsAt(a, n, len, e) && 0 <= e < m <= n <= |a|
    ensures EndsAt(a, m, len, e)
  {
    var idx :| Increasing(a, n, idx) && |idx| == len && len > 0 && idx[len - 1] == e;
    forall k | 0 <= k < |idx|
      ensures 0 <= idx[k] < m
    {
      assert k < len - 1 ==> Before(a, idx[k], idx[len - 1]);
    }
    assert Increasing(a, m, idx);
  }

  /** `k` is the place of the new element: the tail before it is smaller, the tail at it is not. */
  ghost predicate Place(tail: seq<int>, length: int, v: int, k: int) {
    && 0 <= k <= length <= |tail|
    && (k > 0 ==> tail[k - 1] < v)
    && (k < length ==> v <= tail[k])
  }

  /** A subsequence that ends with the new element has a smaller one of length one less before it. */
  lemma NewEnd(a: seq<int>, n: int, tail: seq<int>, length: int, len: int)
    requires 0 <= n < |a| && Tails(a, n, tail, length) && EndsAt(a, n + 1, len, n) && len > 1
    ensures len - 1 <= length && tail[len - 2] < a[n]
  {
    var d := EndsShorter(a, n + 1, len, n);
    var idx :| Increasing(a, n, idx) && |idx| == len - 1 && len - 1 > 0 && idx[len - 2] == d;
    assert LeastEnd(a, n, len - 2 + 1, tail[len - 2]);
  }

  lemma StepAtPlace(a: seq<int>, n: int, tail: seq<int>, length: int, k: int)
    requires 0 <= n < |a| && Tails(a, n, tail, length) && Place(tail, length, a[n], k)
    ensures LeastEnd(a, n + 1, k + 1, a[n])
  {
    if k == 0 {
      EndsAlone(a, n + 1, n);
    } else {
      assert LeastEnd(a, n, k - 1 + 1, tail[k - 1]);
      var e :| 0 <= e < n && a[e] == tail[k - 1] && EndsAt(a, n, k, e);
      EndsLonger(a, n, k, e, n);
    }
    forall e | 0 <= e < n + 1 && EndsAt(a, n + 1, k + 1, e)
      ensures a[n] <= a[e]
    {
      if e < n {
        EndsEarlier(a, n + 1, n, k + 1, e);
        var idx :| Increasing(a, n, idx) && |idx| == k + 1 && k + 1 > 0 && idx[k] == e;
        assert LeastEnd(a, n, k + 1, tail[k]);
      }
    }
  }

  /** Ending with the new element at a length other than its place's is no improvement. */
  lemma NewEndNotSmaller(a: seq<int>, n: int, tail: seq<int>, length: int, k: int, j: int)
    requires 0 <= n < |a| && Tails(a, n, tail, length) && Place(tail, length, a[n], k) && 0 <= j < length && j != k
    requires EndsAt(a, n + 1, j + 1, n)
    ensures tail[j] <= a[n]
  {
    if j < k - 1 {
      TailsSorted(a, n, tail, length, j, k - 1);
    } else if j > k {
      NewEnd(a, n, tail, length, j + 1);
      if k < j - 1 {
        TailsSorted(a, n, tail, length, k, j - 1);
      }
    }
  }

  lemma StepElsewhere(a: seq<int>, n: int, tail: seq<int>, length: int, k: int, j: int)
    requires 0 <= n < |a| && Tails(a, n, tail, length) && Place(tail, length, a[n], k) && 0 <= j < length && j != k
    ensures LeastEnd(a, n + 1, j + 1, tail[j])
  {
    assert LeastEnd(a, n, j + 1, tail[j]);
    var e :| 0 <= e < n && a[e] == tail[j] && EndsAt(a, n, j + 1, e);
    EndsLater(a, n, n + 1, j + 1, e);
    forall e | 0 <= e < n + 1 && EndsAt(a, n + 1, j + 1, e)
      ensures tail[j] <= a[e]
    {
      if e < n {
        EndsEarlier(a, n + 1, n, j + 1, e);
      } else {
        NewEndNotSmaller(a, n, tail, length, k, j);
      }
    }
  }

  lemma StepBound(a: seq<int>, n: int, tail: seq<int>, length: int, k: int, idx: seq<int>)
    requires 0 <= n < |a| && Tails(a, n, tail, length) && Place(tail, length, a[n], k) && Increasing(a, n + 1, idx)
    ensures |idx| <= length || |idx| <= k + 1
  {
    if |idx| > 1 {
      var m := |idx|;
      LastOf(a, n + 1, idx);
      if idx[m - 1] < n {
        EndsEarlier(a, n + 1, n, m, idx[m - 1]);
        var short :| Increasing(a, n, short) && |short| == m && m > 0 && short[m - 1] == idx[m - 1];
      } else {
        NewEnd(a, n, tail, length, m);
        if k < m - 2 {
          TailsSorted(a, n, tail, length, k, m - 2);
        }
      }
    }
  }

  /** Writing the new element at its place keeps the tails right. */
  lemma Step(a: seq<int>, n: int, tail: seq<int>, length: int, k: int)
    requires 0 <= n < |a| && Tails(a, n, tail, length) && Place(tail, length, a[n], k) && k < |tail|
    ensures Tails(a, n + 1, tail[k := a[n]], if k == length then length + 1 else length)
  {
    var tail', length' := tail[k := a[n]], if k == length then length + 1 else length;
    forall j | 0 <= j < length'
      ensures LeastEnd(a, n + 1, j + 1, tail'[j])
    {
      if j == k {
        StepAtPlace(a, n, tail, length, k);
      } else {
        StepElsewhere(a, n, tail, length, k, j);
      }
    }
    forall idx | Increasing(a, n + 1, idx)
      ensures |idx| <= length'
    {
      StepBound(a, n, tail, length, k, idx);
    }
  }

  /** The binary search: the least index whose element is not smaller than `key`. */
  method UpperBound(ar: array<int>, left: int, right: int, key: int) returns (r: int)
    requires -1 <= left < right < ar.Length
    requires ar[right] >= key && (left >= 0 ==> ar[left] < key)
    ensures left < r <= right && ar[r] >= key && (r > 0 ==> ar[r - 1] < key)
  {
    var l := left;
    r := right;
    while l < r - 1
      invariant left <= l < r <= right && ar[r] >= key && (l >= 0 ==> ar[l] < key)
    {
      var m := (l + r) / 2;
      if ar[m] >= key {
        r := m;
      } else {
        l := m;
      }
    }
  }

  lemma AtEnd(a: seq<int>, tail: seq<int>, length: int)
    requires Tails(a, |a|, tail, length)
    ensures IsLongest(a, |a|, length)
  {
    if length == 0 {
      assert Increasing(a, |a|, []);
    } else {
      assert LeastEnd(a, |a|, length - 1 + 1, tail[length - 1]);
      var e :| 0 <= e < |a| && a[e] == tail[length - 1] && EndsAt(a, |a|, length, e);
    }
  }

  lemma {:induction false} SpreadOut(a: seq<int>, n: int, idx: seq<int>, k: int)
    requires Increasing(a, n, idx) && 0 <= k < |idx|
    ensures idx[k] >= k
  {
    if k > 0 {
      SpreadOut(a, n, idx, k - 1);
      assert Before(a, idx[k - 1], idx[k]);
    }
  }

  lemma AtMostAll(a: seq<int>, n: nat, idx: seq<int>)
    requires Increasing(a, n, idx)
    ensures |idx| <= n
  {
    if |idx| > n {
      SpreadOut(a, n, idx, n);
    }
  }

  lemma NoTails(a: seq<int>)
    ensures Tails(a, 0, [], 0)
  {
    forall idx | Increasing(a, 0, idx)
      ensures |idx| <= 0
    {
      AtMostAll(a, 0, idx);
    }
  }

  lemma FirstTail(a: seq<int>, tail: seq<int>)
    requires |a| >= 1 && |tail| >= 1 && tail[0] == a[0]
    ensures Tails(a, 1, tail, 1)
  {
    EndsAlone(a, 1, 0);
    assert LeastEnd(a, 1, 1, tail[0]);
    forall idx | Increasing(a, 1, idx)
      ensures |idx| <= 1
    {
      AtMostAll(a, 1, idx);
    }
  }

  /** LIS by tails. */
  method LisByTails(items: array<int>) returns (length: int)
    ensures IsLongest(items[..], items.Length, length)
  {
    var n := items.Length;
    ghost var a := items[..];
    if n == 0 {
      NoTails(a);
      AtEnd(a, [], 0);
      return 0;
    }
    var tail := new int[n];
    length := 1;
    tail[0] := items[0];
    FirstTail(a, tail[..]);
    for i := 1 to n
      invariant items[..] == a && Tails(a, i, tail[..], length) && 1 <= length <= i
    {
      length := Insert(tail, length, a, i, items[i]);
    }
    AtEnd(a, tail[..], length);
  }

  /** The body of the loop: where the element goes. */
  method Insert(tail: array<int>, length: int, ghost a: seq<int>, ghost i: int, x: int) returns (length': int)
    requires 1 <= i < |a| && x == a[i] && 1 <= length <= i && tail.Length == |a| && Tails(a, i, tail[..], length)
    modifies tail
    ensures Tails(a, i + 1, tail[..], length') && 1 <= length' <= i + 1
  {
    ghost var t := tail[..];
    var k: int;
    if x < tail[0] {
      k, length' := 0, length;
    } else if x > tail[length - 1] {
      k, length' := length, length + 1;
    } else {
      k := UpperBound(tail, -1, length - 1, x);
      length' := length;
    }
    tail[k] := x;
    Step(a, i, t, length, k);
    assert tail[..] == t[k := x];
  }

  // ---------------------------------------------------------------- the quadratic method

  /** `len` is the length of a longest subsequence that ends at position `e`. */
  ghost predicate LongestAt(a: seq<int>, e: int, len: int) {
    && EndsAt(a, e + 1, len, e)
    && forall more {:trigger EndsAt(a, e + 1, more, e)} :: EndsAt(a, e + 1, more, e) ==> more <= len
  }

  /** Every earlier, smaller element has been looked at. */
  lemma RowDone(a: seq<int>, lis: seq<int>, i: int)
    requires 0 <= i < |a| == |lis| && EndsAt(a, i + 1, lis[i], i) && lis[i] >= 1
    requires forall d :: 0 <= d < i ==> LongestAt(a, d, lis[d]) && (a[d] < a[i] ==> lis[d] + 1 <= lis[i])
    ensures LongestAt(a, i, lis[i])
  {
    var n := i + 1;
    forall more | EndsAt(a, n, more, i)
      ensures more <= lis[i]
    {
      if more > 1 {
        var d := EndsShorter(a, n, more, i);
        EndsLater(a, i, i, more - 1, d);
        EndsEarlier(a, i, d + 1, more - 1, d);
        assert LongestAt(a, d, lis[d]);
      }
    }
  }

  lemma RowsTell(a: seq<int>, lis: seq<int>, idx: seq<int>) returns (e: int)
    requires |lis| == |a| && Increasing(a, |a|, idx) && |idx| > 0
    requires forall d :: 0 <= d < |a| ==> LongestAt(a, d, lis[d])
    ensures 0 <= e < |a| && |idx| <= lis[e]
  {
    e := idx[|idx| - 1];
    LastOf(a, |a|, idx);
    EndsEarlier(a, |a|, e + 1, |idx|, e);
    assert LongestAt(a, e, lis[e]);
  }

  method FillRow(a: array<int>, lis: array<int>, i: int)
    requires a != lis && 0 <= i < a.Length == lis.Length && lis[i] == 1
    requires forall d :: 0 <= d < i ==> LongestAt(a[..], d, lis[d])
    modifies lis
    ensures LongestAt(a[..], i, lis[i])
    ensures forall d :: 0 <= d < a.Length && d != i ==> lis[d] == old(lis[d])
  {
    EndsAlone(a[..], i + 1, i);
    for j := 0 to i
      invariant EndsAt(a[..], i + 1, lis[i], i) && lis[i] >= 1
      invariant forall d :: 0 <= d < a.Length && d != i ==> lis[d] == old(lis[d])
      invariant forall d :: 0 <= d < j ==> a[d] < a[i] ==> lis[d] + 1 <= lis[i]
    {
      if a[i] > a[j] && lis[i] < lis[j] + 1 {
        assert LongestAt(a[..], j, lis[j]);
        EndsLonger(a[..], j + 1, lis[j], j, i);
        lis[i] := lis[j] + 1;
      }
    }
    RowDone(a[..], lis[..], i);
  }

  method LisQuadratic(a: array<int>) returns (res: int)
    ensures IsLongest(a[..], a.Length, res)
  {
    var n := a.Length;
    var lis := new int[n];
    for i := 0 to n
      invariant forall d :: 0 <= d < i ==> lis[d] == 1
    {
      lis[i] := 1;
    }
    for i := 0 to n
      invariant forall d :: 0 <= d < i ==> LongestAt(a[..], d, lis[d])
      invariant forall d :: i <= d < n ==> lis[d] == 1
    {
      FillRow(a, lis, i);
    }
    res := Largest(a[..], lis);
  }

  method Largest(ghost a: seq<int>, lis: array<int>) returns (res: int)
    requires lis.Length == |a| && forall d :: 0 <= d < |a| ==> LongestAt(a, d, lis[d])
    ensures IsLongest(a, |a|, res)
  {
    res := 0;
    assert Increasing(a, |a|, []);
    for i := 0 to lis.Length
      invariant exists idx :: Increasing(a, |a|, idx) && |idx| == res
      invariant res >= 0 && forall d :: 0 <= d < i ==> lis[d] <= res
    {
      if lis[i] > res {
        assert LongestAt(a, i, lis[i]);
        EndsLater(a, i + 1, |a|, lis[i], i);
        res := lis[i];
      }
    }
    forall idx | Increasing(a, |a|, idx)
      ensures |idx| <= res
    {
      if |idx| > 0 {
        var e := RowsTell(a, lis[..], idx);
      }
    }
  }

  /** The two programs agree on every array. */
  method BothWays(a: array<int>) returns (fast: int, simple: int)
    ensures fast == simple && IsLongest(a[..], a.Length, fast)
  {
    fast := LisByTails(a);
    simple := LisQuadratic(a);
    LongestIsUnique(a[..], a.Length, fast, simple);
  }
}
