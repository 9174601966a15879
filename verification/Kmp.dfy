/** Knuth-Morris-Pratt matching, algorithms/java/Others/KMP.java, against naive matching. */
module Kmp {

  // ---------------------------------------------------------------- borders and partial matches

  /** The first `i` characters of `h` end with the first `b` characters of `p`. */
  predicate EndsWith(h: string, i: int, p: string, b: int) {
    0 <= b <= i <= |h| && b <= |p| && h[i - b..i] == p[..b]
  }

  /** The first `b` characters of `p` are a proper border of its first `i` characters. */
  predicate Border(p: string, i: int, b: int) {
    b < i && EndsWith(p, i, p, b)
  }

  ghost predicate LongestBorder(p: string, i: int, b: int) {
    Border(p, i, b) && forall c :: Border(p, i, c) ==> c <= b
  }

  /** Of two partial matches the shorter one is a border of the longer one. */
  lemma ShorterIsBorder(h: string, i: int, p: string, q: int, b: int)
    requires EndsWith(h, i, p, q) && EndsWith(h, i, p, b) && b < q
    ensures Border(p, q, b)
  {
    assert h[i - b..i] == h[i - q..i][q - b..];
    assert p[..q][q - b..] == p[q - b..q];
  }

  lemma BorderIsMatch(h: string, i: int, p: string, q: int, b: int)
    requires EndsWith(h, i, p, q) && Border(p, q, b)
    ensures EndsWith(h, i, p, b)
  {
    assert h[i - b..i] == h[i - q..i][q - b..];
    assert p[..q][q - b..] == p[q - b..q];
  }

  lemma OneMoreCharacter(h: string, i: int, p: string, b: int)
    requires 0 <= i < |h| && 0 <= b < |p|
    ensures EndsWith(h, i + 1, p, b + 1) <==> EndsWith(h, i, p, b) && h[i] == p[b]
  {
    if b <= i {
      assert h[i - b..i + 1] == h[i - b..i] + [h[i]];
      assert p[..b + 1] == p[..b] + [p[b]];
      if h[i - b..i + 1] == p[..b + 1] {
        assert h[i - b..i] == h[i - b..i + 1][..b] && p[..b] == p[..b + 1][..b];
        assert h[i] == h[i - b..i + 1][b] && p[b] == p[..b + 1][b];
      }
    }
  }

  // ---------------------------------------------------------------- following borders

  /** `q` is the longest partial match shorter than `top`. */
  ghost predicate Longest(h: string, i: int, p: string, top: int, q: int) {
    EndsWith(h, i, p, q) && q < top && forall b :: EndsWith(h, i, p, b) && b < top ==> b <= q
  }

  /** `q` is a partial match, and no longer one shorter than `top` goes on with character `c`. */
  ghost predicate Candidate(h: string, i: int, p: string, top: int, q: int, c: char) {
    && EndsWith(h, i, p, q) && q < top <= |p|
    && forall b :: EndsWith(h, i, p, b) && q < b < top ==> p[b] != c
  }

  /** `pi` holds the longest borders of the first `k` prefixes. */
  ghost predicate Borders(p: string, pi: seq<int>, k: int) {
    |pi| == |p| && forall j :: 0 <= j < k && j < |pi| ==> LongestBorder(p, j + 1, pi[j])
  }

  /** Falling back to the longest border skips no candidate. */
  lemma FallBack(h: string, i: int, p: string, top: int, q: int, c: char, next: int)
    requires Candidate(h, i, p, top, q, c) && 0 < q && p[q] != c && LongestBorder(p, q, next)
    ensures Candidate(h, i, p, top, next, c)
  {
    BorderIsMatch(h, i, p, q, next);
    forall b | EndsWith(h, i, p, b) && next < b < top
      ensures p[b] != c
    {
      if b < q {
        ShorterIsBorder(h, i, p, q, b);
      }
    }
  }

  /** The longest partial match after one more character. */
  lemma Advance(h: string, i: int, p: string, top: int, q: int)
    requires 0 <= i < |h| && Candidate(h, i, p, top, q, h[i]) && (q == 0 || p[q] == h[i])
    ensures Longest(h, i + 1, p, top + 1, if p[q] == h[i] then q + 1 else 0)
  {
    var r, i' := if p[q] == h[i] then q + 1 else 0, i + 1;
    OneMoreCharacter(h, i, p, q);
    assert r == 0 ==> h[i'..i'] == p[..0];
    forall b | EndsWith(h, i', p, b) && b < top + 1
      ensures b <= r
    {
      if b > 0 {
        OneMoreCharacter(h, i, p, b - 1);
      }
    }
  }

  // ---------------------------------------------------------------- the prefix function

  /** The inner loop: fall back along borders until the next character fits; `falls` counts its rounds. */
  method Shrink(h: string, i: int, p: string, pi: array<int>, q0: int, ghost top: int, ghost k: int)
      returns (q: int, ghost falls: nat)
    requires 0 <= i < |h| && Longest(h, i, p, top, q0) && top <= |p| && top <= k + 1 && Borders(p, pi[..], k)
    ensures Candidate(h, i, p, top, q, h[i]) && (q == 0 || p[q] == h[i])
    ensures q + falls <= q0
  {
    q, falls := q0, 0;
    while q > 0 && h[i] != p[q]
      invariant Candidate(h, i, p, top, q, h[i]) && q + falls <= q0
      decreases q
    {
      assert LongestBorder(p, q - 1 + 1, pi[..][q - 1]);
      FallBack(h, i, p, top, q, h[i], pi[q - 1]);
      q, falls := pi[q - 1], falls + 1;
    }
  }

  /** One round: the longest border of one character more. */
  method NextBorder(p: string, i: int, pi: array<int>, q0: int) returns (q: int, ghost falls: nat)
    requires 0 < i < |p| && Borders(p, pi[..], i) && LongestBorder(p, i, q0)
    ensures LongestBorder(p, i + 1, q) && q + falls <= q0 + 1
  {
    LongestIsBorder(p, i, q0);
    q, falls := Shrink(p, i, p, pi, q0, i, i);
    Advance(p, i, p, i, q);
    if p[q] == p[i] {
      q := q + 1;
    }
    LongestIsBorder(p, i + 1, q);
  }

  lemma BordersGrow(p: string, pi: seq<int>, i: int, q: int)
    requires 0 <= i < |p| && Borders(p, pi, i) && LongestBorder(p, i + 1, q)
    ensures Borders(p, pi[i := q], i + 1)
  {
  }

  /** computePrefixFunction: pi[j] is the longest proper border of the first j + 1 characters, found with fewer
      fall-backs than there are characters. */
  method ComputePrefixFunction(p: string) returns (pi: array<int>, ghost falls: nat)
    requires p != []
    ensures fresh(pi) && Borders(p, pi[..], |p|) && falls < |p|
  {
    var n := |p|;
    pi := new int[n];
    pi[0] := 0;
    FirstBorder(p);
    var q := 0;
    falls := 0;
    for i := 1 to n
      invariant Borders(p, pi[..], i) && LongestBorder(p, i, q) && q + falls < i
    {
      ghost var more, was := 0, pi[..];
      q, more := NextBorder(p, i, pi, q);
      falls := falls + more;
      pi[i] := q;
      BordersGrow(p, was, i, q);
      assert pi[..] == was[i := q];
    }
  }

  lemma FirstBorder(p: string)
    requires p != []
    ensures LongestBorder(p, 1, 0)
  {
    assert p[1..1] == p[..0];
  }

  lemma LongestIsBorder(p: string, i: int, q: int)
    ensures LongestBorder(p, i, q) <==> Longest(p, i, p, i, q)
  {
    if Longest(p, i, p, i, q) {
      forall c | Border(p, i, c)
        ensures c <= q
      {
        assert EndsWith(p, i, p, c);
      }
    }
    if LongestBorder(p, i, q) {
      forall c | EndsWith(p, i, p, c) && c < i
        ensures c <= q
      {
        assert Border(p, i, c);
      }
    }
  }

  // ---------------------------------------------------------------- the matcher

  predicate OccursAt(h: string, p: string, s: int) {
    0 <= s && s + |p| <= |h| && h[s..s + |p|] == p
  }

  /** The positions at which `occurs` holds and `n` characters end within the first `i`, from left to right. */
  ghost function Hits(occurs: int -> bool, n: int, i: nat): seq<int> {
    if i == 0 then [] else Hits(occurs, n, i - 1) + if occurs(i - n) then [i - n] else []
  }

  ghost predicate Ascending(starts: seq<int>) {
    forall j, k :: 0 <= j < k < |starts| ==> starts[j] < starts[k]
  }

  /** The position that ends last, if it is one, comes last. */
  lemma OneMoreEnd(prev: seq<int>, occurs: int -> bool, n: int, i: int)
    requires i > 0 && Ascending(prev) && forall s :: s in prev <==> occurs(s) && 0 < s + n <= i - 1
    ensures var now := prev + if occurs(i - n) then [i - n] else [];
      Ascending(now) && forall s :: s in now <==> occurs(s) && 0 < s + n <= i
  {
    var now := prev + if occurs(i - n) then [i - n] else [];
    forall s
      ensures s in now <==> occurs(s) && 0 < s + n <= i
    {
      assert s in now <==> s in prev || (s == i - n && occurs(s));
    }
    forall j | 0 <= j < |prev|
      ensures prev[j] < i - n
    {
      assert prev[j] in prev;
    }
  }

  lemma {:induction false} HitsAreAll(occurs: int -> bool, n: int, i: nat)
    ensures Ascending(Hits(occurs, n, i))
    ensures forall s :: s in Hits(occurs, n, i) <==> occurs(s) && 0 < s + n <= i
  {
    if i > 0 {
      HitsAreAll(occurs, n, i - 1);
      OneMoreEnd(Hits(occurs, n, i - 1), occurs, n, i);
    }
  }

  /** All occurrences that end within the first `i` characters, from left to right. */
  ghost function Occurrences(h: string, p: string, i: nat): seq<int> {
    Hits(s => OccursAt(h, p, s), |p|, i)
  }

  lemma FullMatch(h: string, i: int, p: string)
    requires 0 <= i <= |h|
    ensures EndsWith(h, i, p, |p|) <==> OccursAt(h, p, i - |p|)
  {
    assert p[..|p|] == p;
  }

  /** Fall back, then go on with character `i` if it fits. */
  method TakeIn(h: string, i: int, p: string, pi: array<int>, q0: int) returns (q: int, ghost falls: nat)
    requires 0 <= i < |h| && p != [] && Borders(p, pi[..], |p|) && Longest(h, i, p, |p|, q0)
    ensures Longest(h, i + 1, p, |p| + 1, q) && q + falls <= q0 + 1
  {
    q, falls := Shrink(h, i, p, pi, q0, |p|, |p|);
    Advance(h, i, p, |p|, q);
    if h[i] == p[q] {
      q := q + 1;
    }
  }

  /** The body of the main loop: takes in character `i`; `hit` tells whether a match ends there. */
  method Feed(h: string, i: int, p: string, pi: array<int>, q0: int) returns (q: int, hit: bool, ghost falls: nat)
    requires 0 <= i < |h| && p != [] && Borders(p, pi[..], |p|) && Longest(h, i, p, |p|, q0)
    ensures Longest(h, i + 1, p, |p|, q)
    ensures hit <==> OccursAt(h, p, i + 1 - |p|)
    ensures q + falls <= q0 + 1
  {
    var n := |p|;
    q, falls := TakeIn(h, i, p, pi, q0);
    assert LongestBorder(p, n - 1 + 1, pi[..][n - 1]);
    Finish(h, i + 1, p, q, pi[n - 1]);
    hit := q == n;
    if hit {
      q, falls := pi[q - 1], falls + 1;
    }
  }

  /** The loop of KMPmatcher: at most one fall-back for every character read. */
  method Scan(haystack: string, needle: string, pi: array<int>) returns (starts: seq<int>, ghost falls: nat)
    requires needle != [] && Borders(needle, pi[..], |needle|)
    ensures starts == Occurrences(haystack, needle, |haystack|) && falls <= |haystack|
  {
    var m, n := |haystack|, |needle|;
    var q, hit := 0, false;
    starts, falls := [], 0;
    for i := 0 to m
      invariant Longest(haystack, i, needle, n, q) && q + falls <= i
      invariant starts == Occurrences(haystack, needle, i)
    {
      ghost var more;
      q, hit, more := Feed(haystack, i, needle, pi, q);
      falls := falls + more;
      if hit {
        starts := starts + [i + 1 - n];
      }
    }
  }

  /** KMPmatcher: reports exactly the places where the needle occurs, overlapping ones included, and falls back less
      often than there are characters in both strings. */
  method KmpMatcher(haystack: string, needle: string) returns (starts: seq<int>, ghost falls: nat)
    requires needle != []
    ensures forall s :: s in starts <==> OccursAt(haystack, needle, s)
    ensures forall j, k :: 0 <= j < k < |starts| ==> starts[j] < starts[k]
    ensures falls < |needle| + |haystack|
  {
    ghost var more;
    var pi;
    pi, falls := ComputePrefixFunction(needle);
    starts, more := Scan(haystack, needle, pi);
    falls := falls + more;
    MatcherIsNaive(haystack, needle, starts);
  }

  lemma AfterMatch(h: string, i: int, p: string, b: int)
    requires EndsWith(h, i, p, |p|) && LongestBorder(p, |p|, b)
    ensures Longest(h, i, p, |p|, b)
  {
    BorderIsMatch(h, i, p, |p|, b);
    forall c | EndsWith(h, i, p, c) && c < |p|
      ensures c <= b
    {
      ShorterIsBorder(h, i, p, |p|, c);
    }
  }

  /** The longest match of at most the whole needle tells whether the needle occurs; then the longest
      shorter one is known too. */
  lemma Finish(h: string, i: int, p: string, r: int, b: int)
    requires p != [] && Longest(h, i, p, |p| + 1, r) && LongestBorder(p, |p|, b)
    ensures r == |p| <==> OccursAt(h, p, i - |p|)
    ensures Longest(h, i, p, |p|, if r == |p| then b else r)
  {
    FullMatch(h, i, p);
    if r == |p| {
      AfterMatch(h, i, p, b);
    }
  }

  /** The matcher against naive matching: every start position is reported once, in order. */
  lemma MatcherIsNaive(h: string, p: string, starts: seq<int>)
    requires p != [] && starts == Occurrences(h, p, |h|)
    ensures forall s :: s in starts <==> OccursAt(h, p, s)
    ensures forall j, k :: 0 <= j < k < |starts| ==> starts[j] < starts[k]
  {
    HitsAreAll(s => OccursAt(h, p, s), |p|, |h|);
  }
}
