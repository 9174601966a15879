/** Printing every rearrangement of a string in lexicographic order, as
    algorithms/c/misc/lexicographicPermutations.c does. */
module Permutations {
  import opened Multinomial
  import opened Rearrangements

  // ---------------------------------------------------------------- least, greatest and next

  ghost predicate Ascending(s: string, lo: int)
    requires 0 <= lo
  {
    forall k, m :: lo <= k < m < |s| ==> s[k] <= s[m]
  }

  ghost predicate Descending(s: string, lo: int)
    requires 0 <= lo
  {
    forall k, m :: lo <= k < m < |s| ==> s[k] >= s[m]
  }

  /** Ascending from `lo` on: no word with the same letters there comes before. */
  lemma AscendingIsLeast(s: string, u: string, lo: int, d: int)
    requires 0 <= lo <= d && |s| == |u| && lo <= |s| && SameFrom(u, s, lo) && Ascending(s, lo)
    ensures !LessAt(u, s, d)
  {
    if LessAt(u, s, d) {
      SameAfter(u, s, lo, d);
      var m := SameLetter(u, s, d, d);
    }
  }

  /** Descending from `lo` on: none comes after. */
  lemma DescendingIsGreatest(s: string, u: string, lo: int, d: int)
    requires 0 <= lo <= d && |s| == |u| && lo <= |s| && SameFrom(u, s, lo) && Descending(s, lo)
    ensures !LessAt(s, u, d)
  {
    if LessAt(s, u, d) {
      SameAfter(u, s, lo, d);
      var m := SameLetter(u, s, d, d);
    }
  }

  /** How the program gets from `s` to `t`: a greater letter at `i`, as small as possible, and the rest ascending. */
  ghost predicate Steps(s: string, t: string, i: int) {
    && 0 <= i < |s| == |t| && Rearranges(s, t) && Agree(s, t, i)
    && Descending(s, i + 1) && Ascending(t, i + 1)
    && s[i] < t[i]
    && forall k :: i < k < |s| && s[i] < s[k] ==> t[i] <= s[k]
  }

  /** No rearrangement lies between `s` and `t`. */
  lemma NothingBetween(s: string, t: string, i: int, u: string)
    requires Steps(s, t, i) && Rearranges(u, s) && Less(s, u)
    ensures u == t || Less(t, u)
  {
    var d :| LessAt(s, u, d);
    if d < i {
      assert LessAt(t, u, d);
    } else if d > i {
      SameAfter(u, s, 0, i + 1);
      DescendingIsGreatest(s, u, i + 1, d);
    } else {
      SameAfter(u, s, 0, i);
      var m := SameLetter(u, s, i, i);
      if u[i] == t[i] {
        SameAfter(u, t, 0, i + 1);
        NotBeforeAscending(t, u, i + 1);
      } else {
        assert LessAt(t, u, i);
      }
    }
  }

  lemma NotBeforeAscending(t: string, u: string, lo: int)
    requires 0 <= lo <= |t| == |u| && SameFrom(u, t, lo) && Agree(u, t, lo) && Ascending(t, lo)
    ensures u == t || Less(t, u)
  {
    LessTotal(t, u);
    if Less(u, t) {
      var d :| LessAt(u, t, d);
      AscendingIsLeast(t, u, lo, d);
    }
  }

  /** The rearrangements of `s` that come after `t`. */
  ghost function Later(s: string, t: string): set<string> {
    set u | u in Arrangements(s) && Less(t, u)
  }

  lemma FewerLater(s: string, t: string, t': string)
    requires Rearranges(t', s) && Less(t, t')
    ensures Later(s, t') < Later(s, t)
  {
    forall u | u in Later(s, t')
      ensures u in Later(s, t)
    {
      LessTransitive(t, t', u);
    }
    InArrangements(s, t');
    assert t' !in Later(s, t') by {
      if Less(t', t') {
        LessAsymmetric(t', t');
      }
    }
  }

  // ---------------------------------------------------------------- the program

  method Swap(a: array<char>, i: int, j: int)
    requires 0 <= i < a.Length && 0 <= j < a.Length
    modifies a
    ensures a[..] == Swapped(old(a[..]), i, j)
  {
    a[i], a[j] := a[j], a[i];
  }

  method LeastFrom(a: array<char>, lo: int) returns (m: int)
    requires 0 <= lo < a.Length
    ensures lo <= m < a.Length && forall k :: lo <= k < a.Length ==> a[m] <= a[k]
  {
    m := lo;
    for k := lo + 1 to a.Length
      invariant lo <= m < k && forall k' :: lo <= k' < k ==> a[m] <= a[k']
    {
      if a[k] < a[m] {
        m := k;
      }
    }
  }

  /** Sorting the places from `lo` on. */
  method SortFrom(a: array<char>, lo: int)
    requires 0 <= lo <= a.Length
    modifies a
    ensures Ascending(a[..], lo) && Agree(old(a[..]), a[..], lo) && SameFrom(old(a[..]), a[..], lo)
  {
    ghost var was := a[..];
    for i := lo to a.Length
      invariant Agree(was, a[..], lo) && SameFrom(was, a[..], lo)
      invariant forall k, m :: lo <= k < m < a.Length && k < i ==> a[k] <= a[m]
    {
      ghost var now := a[..];
      var m := LeastFrom(a, i);
      Swap(a, i, m);
      SwapKeeps(now, i, m, lo);
    }
  }

  /** The rightmost letter smaller than the one after it, or a negative number. */
  method Ascent(a: array<char>) returns (i: int)
    ensures i < a.Length - 1 || i < 0
    ensures i >= 0 ==> a[i] < a[i + 1] && Descending(a[..], i + 1)
    ensures i < 0 ==> Descending(a[..], 0)
  {
    i := a.Length - 2;
    while i >= 0 && a[i] >= a[i + 1]
      invariant -2 <= i < a.Length - 1
      invariant forall k, m :: i < k < m < a.Length && 0 <= k ==> a[k] >= a[m]
    {
      i := i - 1;
    }
  }

  /** The smallest greater letter after place `i`. */
  method Replacement(a: array<char>, i: int) returns (j: int)
    requires 0 <= i < a.Length - 1 && a[i] < a[i + 1] && forall k :: 0 <= k < a.Length ==> a[k] != '\0'
    ensures i < j < a.Length && a[i] < a[j] && forall k :: i < k < a.Length && a[i] < a[k] ==> a[j] <= a[k]
  {
    j := i + 1;
    var k := j;
    while k < a.Length && a[k] != '\0'
      invariant i < j < a.Length && i < k <= a.Length && a[i] < a[j]
      invariant forall k' :: i < k' < k && a[i] < a[k'] ==> a[j] <= a[k']
    {
      if a[k] > a[i] && a[k] < a[j] {
        j := k;
      }
      k := k + 1;
    }
  }

  lemma NoNul(s: string, t: string)
    requires Rearranges(t, s) && forall k :: 0 <= k < |s| ==> s[k] != '\0'
    ensures forall k :: 0 <= k < |t| ==> t[k] != '\0'
  {
    forall k | 0 <= k < |t|
      ensures t[k] != '\0'
    {
      var m := SameLetter(t, s, 0, k);
    }
  }

  /** One round: the next rearrangement, unless this is the last. */
  method Next(a: array<char>) returns (found: bool)
    requires forall k :: 0 <= k < a.Length ==> a[k] != '\0'
    modifies a
    ensures Rearranges(old(a[..]), a[..])
    ensures found ==> Less(old(a[..]), a[..])
    ensures found ==> forall u :: Rearranges(u, a[..]) && Less(old(a[..]), u) ==> u == a[..] || Less(a[..], u)
    ensures !found ==> a[..] == old(a[..]) && forall u :: Rearranges(u, a[..]) ==> !Less(a[..], u)
  {
    ghost var s := a[..];
    var i := Ascent(a);
    found := i >= 0;
    if found {
      var j := Replacement(a, i);
      Swap(a, i, j);
      ghost var swapped := a[..];
      SortFrom(a, i + 1);
      ghost var t := a[..];
      SwapKeeps(s, i, j, 0);
      SameBefore(swapped, t, 0, i + 1);
      assert LessAt(s, t, i) && Steps(s, t, i);
      forall u | Rearranges(u, t) && Less(s, u)
        ensures u == t || Less(t, u)
      {
        NothingBetween(s, t, i, u);
      }
    } else {
      forall u | Rearranges(u, s)
        ensures !Less(s, u)
      {
        forall d
          ensures !LessAt(s, u, d)
        {
          if d >= 0 {
            DescendingIsGreatest(s, u, 0, d);
          }
        }
      }
    }
  }

  /** Printed so far: the rearrangements before `t`, in order. */
  ghost predicate Printed(out: seq<string>, s: string, t: string) {
    && (forall u :: u in out <==> Rearranges(u, s) && Less(u, t))
    && (forall k, m :: 0 <= k < m < |out| ==> Less(out[k], out[m]))
  }

  ghost predicate AllPrinted(out: seq<string>, s: string) {
    && (forall u :: u in out <==> Rearranges(u, s))
    && (forall k, m :: 0 <= k < m < |out| ==> Less(out[k], out[m]))
  }

  /** Each rearrangement is in the list at one place only. */
  lemma PrintedOnce(out: seq<string>, s: string, k: int, m: int)
    requires AllPrinted(out, s) && 0 <= k < m < |out|
    ensures out[k] != out[m]
  {
    LessAsymmetric(out[k], out[m]);
  }

  /** So many words are printed. */
  lemma PrintedNumber(out: seq<string>, s: string, ls: seq<char>)
    requires AllPrinted(out, s) && Alphabet(ls, s)
    ensures |out| * Product(s, ls) == Factorial(|s|)
  {
    forall k, m | 0 <= k < m < |out|
      ensures out[k] != out[m]
    {
      PrintedOnce(out, s, k, m);
    }
    SizeOfDistinct(out);
    forall u
      ensures u in out <==> u in Arrangements(s)
    {
      InArrangements(s, u);
    }
    assert (set u | u in out) == Arrangements(s);
    ArrangementCount(s, ls);
  }

  lemma NothingPrinted(s: string, t: string)
    requires Rearranges(t, s) && Ascending(t, 0)
    ensures Printed([], s, t)
  {
    forall u | Rearranges(u, s)
      ensures !Less(u, t)
    {
      forall d
        ensures !LessAt(u, t, d)
      {
        if d >= 0 {
          AscendingIsLeast(t, u, 0, d);
        }
      }
    }
  }

  lemma InOrder(out: seq<string>, s: string, t: string)
    requires Printed(out, s, t)
    ensures forall k, m :: 0 <= k < m < |out + [t]| ==> Less((out + [t])[k], (out + [t])[m])
  {
    forall k, m | 0 <= k < m < |out + [t]|
      ensures Less((out + [t])[k], (out + [t])[m])
    {
      assert m == |out| ==> out[k] in out;
    }
  }

  lemma PrintNext(out: seq<string>, s: string, t: string, t': string)
    requires Printed(out, s, t) && Rearranges(t, s) && Rearranges(t', s) && Less(t, t')
    requires forall u :: Rearranges(u, t') && Less(t, u) ==> u == t' || Less(t', u)
    ensures Printed(out + [t], s, t')
  {
    InOrder(out, s, t);
    forall u
      ensures u in out + [t] <==> Rearranges(u, s) && Less(u, t')
    {
      if u in out {
        LessTransitive(u, t, t');
      }
      if Rearranges(u, s) && Less(u, t') {
        LessTotal(u, t);
        LessAsymmetric(u, t');
      }
    }
  }

  lemma PrintLast(out: seq<string>, s: string, t: string)
    requires Printed(out, s, t) && Rearranges(t, s)
    requires forall u :: Rearranges(u, t) ==> !Less(t, u)
    ensures AllPrinted(out + [t], s)
  {
    InOrder(out, s, t);
    forall u
      ensures u in out + [t] <==> Rearranges(u, s)
    {
      if Rearranges(u, s) {
        LessTotal(u, t);
      }
    }
  }

  method PrintSortedPermutations(str: array<char>) returns (out: seq<string>)
    requires forall k :: 0 <= k < str.Length ==> str[k] != '\0'
    modifies str
    ensures AllPrinted(out, old(str[..]))
    ensures forall ls :: Alphabet(ls, old(str[..])) ==> |out| * Product(old(str[..]), ls) == Factorial(str.Length)
  {
    ghost var s := str[..];
    SortFrom(str, 0);
    out := [];
    NothingPrinted(s, str[..]);
    NoNul(s, str[..]);
    var largerPermFound := true;
    while largerPermFound
      invariant Rearranges(str[..], s) && forall k :: 0 <= k < str.Length ==> str[k] != '\0'
      invariant largerPermFound ==> Printed(out, s, str[..])
      invariant !largerPermFound ==> AllPrinted(out, s)
      decreases largerPermFound, Later(s, str[..])
    {
      ghost var printed, t := out, str[..];
      out := out + [str[..]];
      largerPermFound := Next(str);
      NoNul(s, str[..]);
      if largerPermFound {
        PrintNext(printed, s, t, str[..]);
        FewerLater(s, t, str[..]);
      } else {
        PrintLast(printed, s, t);
      }
    }
    forall ls | Alphabet(ls, s)
      ensures |out| * Product(s, ls) == Factorial(|s|)
    {
      PrintedNumber(out, s, ls);
    }
  }
}
