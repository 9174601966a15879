/** How many rearrangements a word has. */
module Multinomial {
  import opened Rearrangements

  function Factorial(n: nat): nat {
    if n == 0 then 1 else n * Factorial(n - 1)
  }

  /** The factorials of the letter counts, multiplied over the letters of `ls`. */
  ghost function Product(s: string, ls: seq<char>): nat {
    if ls == [] then 1 else Factorial(Count(s, 0, ls[0])) * Product(s, ls[1..])
  }

  /** `ls` lists every letter of `s`, none twice. */
  ghost predicate Alphabet(ls: seq<char>, s: string) {
    Distinct(ls) && forall k :: 0 <= k < |s| ==> s[k] in ls
  }

  ghost predicate Distinct(ls: seq<char>) {
    forall i, j :: 0 <= i < j < |ls| ==> ls[i] != ls[j]
  }

  lemma {:induction false} AlphabetExists(s: string) returns (ls: seq<char>)
    ensures Alphabet(ls, s)
    decreases |s|
  {
    ls := [];
    if s != [] {
      var n := |s| - 1;
      ls := AlphabetExists(s[..n]);
      assert forall k :: 0 <= k < n ==> s[k] == s[..n][k];
      if s[n] !in ls {
        ls := ls + [s[n]];
      }
    }
  }

  // ---------------------------------------------------------------- one letter less

  ghost function Removed(s: string, k: int): string
    requires 0 <= k < |s|
  {
    s[..k] + s[k + 1..]
  }

  lemma RemovedBag(s: string, k: int)
    requires 0 <= k < |s|
    ensures multiset(s) == multiset{s[k]} + multiset(Removed(s, k))
  {
    assert s == s[..k] + [s[k]] + s[k + 1..];
  }

  lemma RemovedCount(s: string, k: int, c: char)
    requires 0 <= k < |s|
    ensures Count(s, 0, c) == Count(Removed(s, k), 0, c) + (if s[k] == c then 1 else 0)
  {
    var r := Removed(s, k);
    CountIsMultiplicity(s, 0, c);
    CountIsMultiplicity(r, 0, c);
    assert s[0..] == s && r[0..] == r;
    RemovedBag(s, k);
  }

  /** What follows the first letter is a rearrangement of what remains. */
  lemma AfterFirst(s: string, k: int, w: string)
    requires 0 <= k < |s|
    ensures Rearranges([s[k]] + w, s) <==> Rearranges(w, Removed(s, k))
  {
    var r := Removed(s, k);
    RearrangesIsMultiset([s[k]] + w, s);
    RearrangesIsMultiset(w, r);
    RemovedBag(s, k);
    assert multiset([s[k]] + w) == multiset{s[k]} + multiset(w);
    if multiset{s[k]} + multiset(w) == multiset{s[k]} + multiset(r) {
      assert multiset(w) == multiset{s[k]} + multiset(w) - multiset{s[k]};
      assert multiset(r) == multiset{s[k]} + multiset(r) - multiset{s[k]};
    }
  }

  ghost function StartingWith(s: string, c: char): set<string> {
    set u | u in Arrangements(s) && u != [] && u[0] == c
  }

  ghost function Prefixed(c: char, ws: set<string>): set<string> {
    set w | w in ws :: [c] + w
  }

  lemma {:induction false} PrefixedSize(c: char, ws: set<string>)
    ensures |Prefixed(c, ws)| == |ws|
    decreases ws
  {
    if w :| w in ws {
      PrefixedSize(c, ws - {w});
      assert Prefixed(c, ws) == Prefixed(c, ws - {w}) + {[c] + w};
      assert [c] + w !in Prefixed(c, ws - {w}) by {
        forall v | v in ws - {w}
          ensures [c] + v != [c] + w
        {
          assert ([c] + v)[1..] == v && ([c] + w)[1..] == w;
        }
      }
    }
  }

  lemma StartingSize(s: string, k: int)
    requires 0 <= k < |s|
    ensures |StartingWith(s, s[k])| == |Arrangements(Removed(s, k))|
  {
    var c, r := s[k], Removed(s, k);
    forall u
      ensures u in StartingWith(s, c) <==> u in Prefixed(c, Arrangements(r))
    {
      if u != [] && u[0] == c {
        assert u == [c] + u[1..];
        AfterFirst(s, k, u[1..]);
        InArrangements(s, u);
        InArrangements(r, u[1..]);
      }
    }
    assert StartingWith(s, c) == Prefixed(c, Arrangements(r));
    PrefixedSize(c, Arrangements(r));
  }

  lemma {:induction false} ProductSame(s: string, t: string, ls: seq<char>)
    requires forall i :: 0 <= i < |ls| ==> Count(s, 0, ls[i]) == Count(t, 0, ls[i])
    ensures Product(s, ls) == Product(t, ls)
    decreases |ls|
  {
    if ls != [] {
      ProductSame(s, t, ls[1..]);
    }
  }

  lemma {:induction false} ProductStep(s: string, k: int, ls: seq<char>)
    requires 0 <= k < |s| && Distinct(ls) && s[k] in ls
    ensures Product(s, ls) == Count(s, 0, s[k]) * Product(Removed(s, k), ls)
    decreases |ls|
  {
    var r := Removed(s, k);
    forall c
      ensures Count(s, 0, c) == Count(r, 0, c) + (if s[k] == c then 1 else 0)
    {
      RemovedCount(s, k, c);
    }
    if ls[0] == s[k] {
      ProductSame(s, r, ls[1..]);
      MoveFactor(Count(s, 0, s[k]), Factorial(Count(r, 0, s[k])), Product(r, ls[1..]));
    } else {
      ProductStep(s, k, ls[1..]);
      MoveFactor(Count(s, 0, s[k]), Factorial(Count(r, 0, ls[0])), Product(r, ls[1..]));
    }
  }

  lemma MoveFactor(n: int, f: int, p: int)
    ensures (n * f) * p == n * (f * p) && f * (n * p) == n * (f * p)
  {
  }

  // ---------------------------------------------------------------- adding up over the first letter

  ghost function LetterSum(s: string, lo: int, ls: seq<char>, j: nat): nat
    requires 0 <= lo <= |s| && j <= |ls|
  {
    if j == 0 then 0 else LetterSum(s, lo, ls, j - 1) + Count(s, lo, ls[j - 1])
  }

  lemma {:induction false} OneLetter(s: string, lo: int, ls: seq<char>, j: nat)
    requires 0 <= lo < |s| && j <= |ls| && Distinct(ls)
    ensures LetterSum(s, lo, ls, j) == LetterSum(s, lo + 1, ls, j) + (if s[lo] in ls[..j] then 1 else 0)
    decreases j
  {
    if j > 0 {
      OneLetter(s, lo, ls, j - 1);
      assert ls[..j] == ls[..j - 1] + [ls[j - 1]];
    }
  }

  lemma {:induction false} AllLetters(s: string, lo: int, ls: seq<char>)
    requires 0 <= lo <= |s| && Alphabet(ls, s)
    ensures LetterSum(s, lo, ls, |ls|) == |s| - lo
    decreases |s| - lo
  {
    if lo < |s| {
      OneLetter(s, lo, ls, |ls|);
      AllLetters(s, lo + 1, ls);
      assert ls[..|ls|] == ls;
    } else {
      NoLetters(s, ls, |ls|);
    }
  }

  lemma {:induction false} NoLetters(s: string, ls: seq<char>, j: nat)
    requires j <= |ls|
    ensures LetterSum(s, |s|, ls, j) == 0
    decreases j
  {
    if j > 0 {
      NoLetters(s, ls, j - 1);
    }
  }

  /** The rearrangements that start with one of the first `j` letters. */
  ghost function StartingBelow(s: string, ls: seq<char>, j: nat): set<string>
    requires j <= |ls|
  {
    set u | u in Arrangements(s) && u != [] && u[0] in ls[..j]
  }

  lemma OneMoreStart(s: string, ls: seq<char>, j: nat)
    requires j < |ls| && Distinct(ls)
    ensures |StartingBelow(s, ls, j + 1)| == |StartingBelow(s, ls, j)| + |StartingWith(s, ls[j])|
  {
    assert ls[..j + 1] == ls[..j] + [ls[j]];
    assert StartingBelow(s, ls, j + 1) == StartingBelow(s, ls, j) + StartingWith(s, ls[j]);
    assert StartingBelow(s, ls, j) !! StartingWith(s, ls[j]);
  }

  lemma NoStart(s: string, c: char)
    requires Count(s, 0, c) == 0
    ensures StartingWith(s, c) == {}
  {
    if u :| u in StartingWith(s, c) {
      CountTells(s, 0, c);
      var m := SameLetter(u, s, 0, 0);
    }
  }

  lemma Scale(a: int, p: int, f: int, n: int, np: int)
    requires a * p == f && np == n * p
    ensures a * np == f * n
  {
    MoveFactor(n, a, p);
  }

  /** A letter that occurs n times starts n / |s| of all. */
  lemma StartingCount(s: string, ls: seq<char>, c: char)
    requires Alphabet(ls, s) && c in ls && s != []
    ensures |StartingWith(s, c)| * Product(s, ls) == Factorial(|s| - 1) * Count(s, 0, c)
    decreases |s|, 0
  {
    CountTells(s, 0, c);
    if Count(s, 0, c) == 0 {
      NoStart(s, c);
    } else {
      var k :| 0 <= k < |s| && s[k] == c;
      StartingSize(s, k);
      ArrangementCount(Removed(s, k), ls);
      ProductStep(s, k, ls);
      Scale(|StartingWith(s, c)|, Product(Removed(s, k), ls), Factorial(|s| - 1), Count(s, 0, c), Product(s, ls));
    }
  }

  lemma BelowCount(s: string, ls: seq<char>, j: nat)
    requires Alphabet(ls, s) && j <= |ls| && s != []
    ensures |StartingBelow(s, ls, j)| * Product(s, ls) == Factorial(|s| - 1) * LetterSum(s, 0, ls, j)
    decreases |s|, 1, j
  {
    if j == 0 {
      assert StartingBelow(s, ls, 0) == {};
    } else {
      BelowCount(s, ls, j - 1);
      StartingCount(s, ls, ls[j - 1]);
      OneMoreStart(s, ls, j - 1);
      AddUp(|StartingBelow(s, ls, j - 1)|, |StartingWith(s, ls[j - 1])|, |StartingBelow(s, ls, j)|, Product(s, ls),
            Factorial(|s| - 1), LetterSum(s, 0, ls, j - 1), Count(s, 0, ls[j - 1]), LetterSum(s, 0, ls, j));
    }
  }

  lemma AddUp(x: int, y: int, xy: int, p: int, f: int, m: int, n: int, mn: int)
    requires x * p == f * m && y * p == f * n && xy == x + y && mn == m + n
    ensures xy * p == f * mn
  {
    assert xy * p == x * p + y * p && f * mn == f * m + f * n;
  }

  lemma {:induction false} EmptyProduct(ls: seq<char>)
    ensures Product("", ls) == 1
    decreases |ls|
  {
    if ls != [] {
      EmptyProduct(ls[1..]);
    }
  }

  lemma FactorialStep(n: nat)
    requires n > 0
    ensures Factorial(n) == Factorial(n - 1) * n
  {
  }

  lemma OneEmptyWord()
    ensures Arrangements("") == {""}
  {
    forall u
      ensures u in Arrangements("") <==> u == ""
    {
      InArrangements("", u);
    }
  }

  lemma AllStart(s: string, ls: seq<char>)
    requires Alphabet(ls, s) && s != []
    ensures StartingBelow(s, ls, |ls|) == Arrangements(s)
  {
    assert ls[..|ls|] == ls;
    forall u | u in Arrangements(s)
      ensures u != [] && u[0] in ls
    {
      var m := SameLetter(u, s, 0, 0);
    }
  }

  /** The number of rearrangements times the product of the factorials of the letter counts is the factorial of the
      length. */
  lemma ArrangementCount(s: string, ls: seq<char>)
    requires Alphabet(ls, s)
    ensures |Arrangements(s)| * Product(s, ls) == Factorial(|s|)
    decreases |s|, 2
  {
    if s == [] {
      EmptyProduct(ls);
      OneEmptyWord();
    } else {
      BelowCount(s, ls, |ls|);
      AllLetters(s, 0, ls);
      AllStart(s, ls);
      FactorialStep(|s|);
    }
  }

  lemma {:induction false} SizeOfDistinct(out: seq<string>)
    requires forall k, m :: 0 <= k < m < |out| ==> out[k] != out[m]
    ensures |set u | u in out| == |out|
    decreases |out|
  {
    if out != [] {
      var n := |out| - 1;
      SizeOfDistinct(out[..n]);
      assert out == out[..n] + [out[n]];
      assert (set u | u in out) == (set u | u in out[..n]) + {out[n]};
    }
  }
}
