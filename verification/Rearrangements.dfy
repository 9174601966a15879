/** Words, their lexicographic order, and the rearrangements of a word. */
module Rearrangements {

  // ---------------------------------------------------------------- words and their order

  /** How often `c` occurs from place `lo` on. */
  ghost function Count(s: string, lo: int, c: char): nat
    requires 0 <= lo <= |s|
    decreases |s| - lo
  {
    if lo == |s| then 0 else (if s[lo] == c then 1 else 0) + Count(s, lo + 1, c)
  }

  /** The same letters, each as often, from place `lo` on. */
  ghost predicate SameFrom(s: string, t: string, lo: int)
    requires 0 <= lo <= |s| == |t|
  {
    forall c :: Count(s, lo, c) == Count(t, lo, c)
  }

  ghost predicate Rearranges(s: string, t: string) {
    |s| == |t| && SameFrom(s, t, 0)
  }

  ghost predicate Agree(s: string, t: string, d: int)
    requires 0 <= d <= |s| == |t|
  {
    forall k :: 0 <= k < d ==> s[k] == t[k]
  }

  ghost predicate LessAt(s: string, t: string, d: int) {
    0 <= d < |s| == |t| && Agree(s, t, d) && s[d] < t[d]
  }

  /** The lexicographic order of words of one length. */
  ghost predicate Less(s: string, t: string) {
    exists d :: LessAt(s, t, d)
  }

  lemma LessAsymmetric(s: string, t: string)
    requires Less(s, t)
    ensures !Less(t, s) && s != t
  {
    var d :| LessAt(s, t, d);
    forall e
      ensures !LessAt(t, s, e)
    {
      assert e < d || e == d || d < e;
    }
  }

  lemma LessTransitive(s: string, t: string, u: string)
    requires Less(s, t) && Less(t, u)
    ensures Less(s, u)
  {
    var d :| LessAt(s, t, d);
    var e :| LessAt(t, u, e);
    assert LessAt(s, u, if d < e then d else e);
  }

  lemma LessTotal(s: string, t: string)
    requires |s| == |t|
    ensures Less(s, t) || s == t || Less(t, s)
  {
    var d := FirstDifference(s, t, 0);
    if d < |s| {
      assert LessAt(s, t, d) || LessAt(t, s, d);
    }
  }

  lemma {:induction false} FirstDifference(s: string, t: string, k: int) returns (d: int)
    requires 0 <= k <= |s| == |t| && Agree(s, t, k)
    ensures k <= d <= |s| && Agree(s, t, d) && (d < |s| ==> s[d] != t[d])
    decreases |s| - k
  {
    if k == |s| || s[k] != t[k] {
      d := k;
    } else {
      d := FirstDifference(s, t, k + 1);
    }
  }

  // ---------------------------------------------------------------- counting letters

  lemma {:induction false} CountTells(s: string, lo: int, c: char)
    requires 0 <= lo <= |s|
    ensures Count(s, lo, c) > 0 <==> exists k :: lo <= k < |s| && s[k] == c
    decreases |s| - lo
  {
    if lo < |s| {
      CountTells(s, lo + 1, c);
    }
  }

  lemma {:induction false} SameAfter(s: string, t: string, lo: int, d: int)
    requires 0 <= lo <= d <= |s| == |t| && SameFrom(s, t, lo) && Agree(s, t, d)
    ensures SameFrom(s, t, d)
    decreases d - lo
  {
    if lo < d {
      var next := lo + 1;
      forall c
        ensures Count(s, next, c) == Count(t, next, c)
      {
        assert Count(s, lo, c) == Count(t, lo, c);
      }
      SameAfter(s, t, next, d);
    }
  }

  lemma {:induction false} SameBefore(s: string, t: string, lo: int, d: int)
    requires 0 <= lo <= d <= |s| == |t| && SameFrom(s, t, d) && Agree(s, t, d)
    ensures SameFrom(s, t, lo)
    decreases d - lo
  {
    if lo < d {
      SameBefore(s, t, lo + 1, d);
    }
  }

  lemma SameLetter(s: string, t: string, lo: int, k: int) returns (m: int)
    requires 0 <= lo <= k < |s| == |t| && SameFrom(s, t, lo)
    ensures lo <= m < |t| && t[m] == s[k]
  {
    CountTells(s, lo, s[k]);
    CountTells(t, lo, s[k]);
    m :| lo <= m < |t| && t[m] == s[k];
  }

  lemma {:induction false} CountUpdate(s: string, lo: int, k: int, x: char, c: char)
    requires 0 <= lo <= k < |s|
    ensures Count(s[k := x], lo, c) == Count(s, lo, c) - (if s[k] == c then 1 else 0) + (if x == c then 1 else 0)
    decreases |s| - lo
  {
    if lo < k {
      CountUpdate(s, lo + 1, k, x, c);
    } else {
      CountLater(s, s[k := x], lo + 1, c);
    }
  }

  lemma {:induction false} CountLater(s: string, t: string, lo: int, c: char)
    requires 0 <= lo <= |s| == |t| && forall k :: lo <= k < |s| ==> s[k] == t[k]
    ensures Count(s, lo, c) == Count(t, lo, c)
    decreases |s| - lo
  {
    if lo < |s| {
      CountLater(s, t, lo + 1, c);
    }
  }

  ghost function Swapped(s: string, i: int, j: int): string
    requires 0 <= i < |s| && 0 <= j < |s|
  {
    s[i := s[j]][j := s[i]]
  }

  lemma SwapKeeps(s: string, i: int, j: int, lo: int)
    requires 0 <= lo <= i < |s| && lo <= j < |s|
    ensures SameFrom(s, Swapped(s, i, j), lo)
  {
    forall c
      ensures Count(s, lo, c) == Count(Swapped(s, i, j), lo, c)
    {
      CountUpdate(s, lo, i, s[j], c);
      CountUpdate(s[i := s[j]], lo, j, s[i], c);
    }
  }

  lemma {:induction false} CountIsMultiplicity(s: string, lo: int, c: char)
    requires 0 <= lo <= |s|
    ensures Count(s, lo, c) == multiset(s[lo..])[c]
    decreases |s| - lo
  {
    if lo < |s| {
      CountIsMultiplicity(s, lo + 1, c);
      assert s[lo..] == [s[lo]] + s[lo + 1..];
    }
  }

  lemma RearrangesIsMultiset(s: string, t: string)
    ensures Rearranges(s, t) <==> multiset(s) == multiset(t)
  {
    assert s[0..] == s && t[0..] == t;
    forall c
      ensures Count(s, 0, c) == multiset(s)[c] && Count(t, 0, c) == multiset(t)[c]
    {
      CountIsMultiplicity(s, 0, c);
      CountIsMultiplicity(t, 0, c);
    }
    if multiset(s) == multiset(t) {
      assert |multiset(s)| == |s| && |multiset(t)| == |t|;
    }
    if Rearranges(s, t) {
      forall c
        ensures multiset(s)[c] == multiset(t)[c]
      {
        assert Count(s, 0, c) == Count(t, 0, c);
      }
    }
  }

  // ---------------------------------------------------------------- finitely many words

  ghost function Words(letters: set<char>, n: nat): set<string> {
    if n == 0 then {""} else set w, c | w in Words(letters, n - 1) && c in letters :: w + [c]
  }

  lemma {:induction false} InWords(s: string, letters: set<char>)
    requires forall k :: 0 <= k < |s| ==> s[k] in letters
    ensures s in Words(letters, |s|)
    decreases |s|
  {
    if |s| > 0 {
      var m := |s| - 1;
      InWords(s[..m], letters);
      assert s == s[..m] + [s[m]];
    }
  }

  /** The rearrangements of `s`. */
  ghost function Arrangements(s: string): set<string> {
    set u | u in Words(set k | 0 <= k < |s| :: s[k], |s|) && Rearranges(u, s)
  }

  lemma InArrangements(s: string, u: string)
    ensures u in Arrangements(s) <==> Rearranges(u, s)
  {
    if Rearranges(u, s) {
      var letters := set k | 0 <= k < |s| :: s[k];
      forall k | 0 <= k < |u|
        ensures u[k] in letters
      {
        var m := SameLetter(u, s, 0, k);
      }
      InWords(u, letters);
    }
  }
}
