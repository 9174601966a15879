/** The longest well-formed stretch of brackets in a string, as
    algorithms/java/Dynamic Programming/LongestValidParentheses.java computes it. */
module LongestValidParentheses {

  // ---------------------------------------------------------------- well-formed stretches

  /** s[p..q] is well-formed: empty, or a well-formed part followed by one bracketed well-formed part. */
  ghost predicate WellFormed(s: string, p: int, q: int)
    requires 0 <= p <= q <= |s|
    decreases q - p
  {
    p == q ||
    exists m {:trigger WellFormed(s, p, m)} ::
      p <= m < q - 1 && s[m] == '(' && s[q - 1] == ')' && WellFormed(s, p, m) && WellFormed(s, m + 1, q - 1)
  }

  /** Some well-formed stretch has this length and none is longer. */
  ghost predicate IsLongest(s: string, len: int) {
    && (exists p, q :: 0 <= p <= q <= |s| && WellFormed(s, p, q) && q - p == len)
    && (forall p, q :: 0 <= p <= q <= |s| && WellFormed(s, p, q) ==> q - p <= len)
  }

  // ---------------------------------------------------------------- the same by depth

  /** Opened minus closed brackets among the first `k` characters. */
  ghost function Depth(s: string, k: int): int
    requires 0 <= k <= |s|
    decreases k
  {
    if k == 0 then 0
    else Depth(s, k - 1) + (if s[k - 1] == '(' then 1 else if s[k - 1] == ')' then -1 else 0)
  }

  ghost predicate Bracket(s: string, k: int)
    requires 0 <= k < |s|
  {
    s[k] == '(' || s[k] == ')'
  }

  ghost predicate Balanced(s: string, p: int, q: int)
    requires 0 <= p <= q <= |s|
  {
    && Depth(s, p) == Depth(s, q)
    && (forall k :: p <= k <= q ==> Depth(s, p) <= Depth(s, k))
    && (forall k :: p <= k < q ==> Bracket(s, k))
  }

  /** Where the bracket closed at `e` opens. */
  lemma Opening(s: string, p: int, e: int) returns (m: int)
    requires 0 <= p <= e < |s| && Balanced(s, p, e + 1)
    ensures p <= m < e && s[m] == '(' && s[e] == ')' && Balanced(s, p, m) && Balanced(s, m + 1, e)
  {
    assert Bracket(s, e) && Depth(s, p) <= Depth(s, e);
    m := LastAt(s, p, e);
    assert Bracket(s, m) && Depth(s, p) <= Depth(s, m + 1);
  }

  /** The last position before `e` at the depth of `p`. */
  lemma {:induction false} LastAt(s: string, p: int, e: int) returns (m: int)
    requires 0 <= p <= e < |s| && Depth(s, p) < Depth(s, e)
    ensures p <= m < e && Depth(s, m) == Depth(s, p)
    ensures forall k :: m < k <= e ==> Depth(s, p) < Depth(s, k)
    decreases e
  {
    if Depth(s, e - 1) == Depth(s, p) {
      m := e - 1;
    } else {
      m := LastAt(s, p, e - 1);
    }
  }

  /** A balanced stretch followed by a bracketed one. */
  lemma Enclosed(s: string, p: int, m: int, e: int)
    requires 0 <= p <= m < e < |s| && s[m] == '(' && s[e] == ')' && Balanced(s, p, m) && Balanced(s, m + 1, e)
    ensures Balanced(s, p, e + 1)
  {
    assert Depth(s, m + 1) == Depth(s, m) + 1;
    forall k | p <= k <= e + 1
      ensures Depth(s, p) <= Depth(s, k)
    {
      assert k <= m || m + 1 <= k <= e || k == e + 1;
    }
    forall k | p <= k < e + 1
      ensures Bracket(s, k)
    {
      assert k < m || k == m || m + 1 <= k < e || k == e;
    }
  }

  lemma {:induction false} DepthTells(s: string, p: int, q: int)
    requires 0 <= p <= q <= |s|
    ensures WellFormed(s, p, q) <==> Balanced(s, p, q)
    decreases q - p
  {
    if p < q {
      var e := q - 1;
      if WellFormed(s, p, q) {
        var m :| p <= m < e && s[m] == '(' && s[e] == ')' && WellFormed(s, p, m) && WellFormed(s, m + 1, e);
        DepthTells(s, p, m);
        DepthTells(s, m + 1, e);
        Enclosed(s, p, m, e);
      }
      if Balanced(s, p, q) {
        var m := Opening(s, p, e);
        DepthTells(s, p, m);
        DepthTells(s, m + 1, e);
      }
    }
  }

  // ---------------------------------------------------------------- the longest stretch that ends somewhere

  /** `p` is the start of the longest well-formed stretch that ends before `q`. */
  ghost predicate Starts(s: string, p: int, q: int) {
    0 <= p <= q <= |s| && Balanced(s, p, q) && forall p' :: 0 <= p' < p ==> !Balanced(s, p', q)
  }

  /** The bracket closed at `e` can open only just before the longest stretch ending there. */
  lemma OpensBefore(s: string, start: int, m: int, e: int)
    requires Starts(s, start, e) && 0 <= m < e < |s| && s[m] == '(' && Balanced(s, m + 1, e)
    ensures m == start - 1
  {
    assert Depth(s, m + 1) == Depth(s, m) + 1;
  }

  lemma Closed(s: string, start: int, before: int, e: int)
    requires Starts(s, start, e) && e < |s| && s[e] == ')' && start > 0 && s[start - 1] == '('
    requires Starts(s, before, start - 1)
    ensures Starts(s, before, e + 1)
  {
    Enclosed(s, before, start - 1, e);
    var q := e + 1;
    forall p | 0 <= p < before
      ensures !Balanced(s, p, q)
    {
      if Balanced(s, p, q) {
        var m := Opening(s, p, e);
        OpensBefore(s, start, m, e);
      }
    }
  }

  lemma NotClosed(s: string, start: int, e: int)
    requires Starts(s, start, e) && e < |s| && !(s[e] == ')' && start > 0 && s[start - 1] == '(')
    ensures Starts(s, e + 1, e + 1)
  {
    var q := e + 1;
    forall p | 0 <= p < q
      ensures !Balanced(s, p, q)
    {
      if Balanced(s, p, q) {
        var m := Opening(s, p, e);
        OpensBefore(s, start, m, e);
      }
    }
  }

  lemma NothingAfterOpening(s: string, start: int, q: int)
    requires Starts(s, start, q) && q > 0 && s[q - 1] == '('
    ensures start == q
  {
    if start < q {
      var m := Opening(s, start, q - 1);
    }
  }

  // ---------------------------------------------------------------- the program

  /** res[i] is the length of the longest well-formed stretch that ends with character i. */
  ghost predicate Filled(s: string, res: seq<int>, n: int) {
    n <= |s| == |res| && forall i {:trigger res[i]} :: 0 <= i < n ==> Starts(s, i + 1 - res[i], i + 1)
  }

  /** The value for a closing bracket. */
  method Close(s: string, res: array<int>, i: int) returns (r: int)
    requires 2 <= i < |s| == res.Length && s[i] == ')' && Filled(s, res[..], i)
    ensures Starts(s, i + 1 - r, i + 1)
  {
    assert res[..][i - 1] == res[i - 1] && res[..][i - 2] == res[i - 2];
    if s[i - 1] == '(' {
      NothingAfterOpening(s, i - res[i - 1], i);
      Closed(s, i, i - 1 - res[i - 2], i);
      r := res[i - 2] + 2;
    } else {
      var index := i - res[i - 1] - 1;
      if index >= 0 && s[index] == '(' {
        assert index >= 1 ==> res[..][index - 1] == res[index - 1];
        var before := if index - 1 >= 0 then res[index - 1] else 0;
        Closed(s, index + 1, index - before, i);
        r := res[i - 1] + 2 + before;
      } else {
        NotClosed(s, index + 1, i);
        r := 0;
      }
    }
  }

  /** One round of the loop. */
  method Fill(s: string, res: array<int>, i: int)
    requires 2 <= i < |s| == res.Length && Filled(s, res[..], i) && res[i] == 0
    modifies res
    ensures Filled(s, res[..], i + 1)
    ensures forall k :: 0 <= k < |s| && k != i ==> res[k] == old(res[k])
  {
    ghost var was := res[..];
    if s[i] == ')' {
      res[i] := Close(s, res, i);
    } else {
      assert was[i - 1] == res[i - 1];
      NotClosed(s, i - res[i - 1], i);
    }
    assert res[..] == was[i := res[i]];
  }

  lemma FirstTwo(s: string)
    requires |s| >= 2
    ensures Starts(s, 1, 1)
    ensures Starts(s, if s[1] == ')' && s[0] == '(' then 0 else 2, 2)
  {
    assert Starts(s, 0, 0);
    NotClosed(s, 0, 0);
    if s[1] == ')' && s[0] == '(' {
      Closed(s, 1, 0, 1);
    } else {
      NotClosed(s, 1, 1);
    }
  }

  ghost predicate Largest(res: seq<int>, n: int, at: int, max: int) {
    0 <= at < n <= |res| && max == res[at] && forall k :: 0 <= k < n ==> res[k] <= max
  }

  /** The largest entry is the length of the longest well-formed stretch. */
  lemma LargestIsLongest(s: string, res: seq<int>, i: int, max: int)
    requires Filled(s, res, |s|) && Largest(res, |s|, i, max)
    ensures IsLongest(s, max)
  {
    DepthTells(s, i + 1 - max, i + 1);
    forall p, q | 0 <= p <= q <= |s| && WellFormed(s, p, q)
      ensures q - p <= max
    {
      DepthTells(s, p, q);
      if p < q {
        var k := q - 1;
        assert res[k] <= max && Starts(s, k + 1 - res[k], k + 1);
      } else {
        assert Starts(s, i + 1 - res[i], i + 1);
      }
    }
  }

  method GetLongestValidParentheses(s: string) returns (max: int)
    ensures IsLongest(s, max)
  {
    if |s| < 2 {
      assert WellFormed(s, 0, 0);
      return 0;
    }
    var n := |s|;
    var res := new int[n](_ => 0);
    res[1] := if s[1] == ')' && s[0] == '(' then 2 else 0;
    max := res[1];
    ghost var at := 1;
    FirstTwo(s);
    for i := 2 to n
      invariant Filled(s, res[..], i)
      invariant forall k :: i <= k < n ==> res[k] == 0
      invariant Largest(res[..], i, at, max)
    {
      Fill(s, res, i);
      if res[i] > max {
        max, at := res[i], i;
      }
    }
    LargestIsLongest(s, res[..], at, max);
  }
}
