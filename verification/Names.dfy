/** The names of vertices and the order in which algorithms/java/Others/Dijkstra.java compares them. */
module Names {

  datatype Name = Name(text: string)

  /** java.lang.String.compareTo */
  function CompareNames(a: string, b: string): int {
    if a == [] || b == [] then |a| - |b|
    else if a[0] != b[0] then a[0] as int - b[0] as int
    else CompareNames(a[1..], b[1..])
  }

  lemma {:induction false} CompareNamesLaws(a: string, b: string)
    ensures CompareNames(a, b) == -CompareNames(b, a)
    ensures CompareNames(a, b) == 0 <==> a == b
  {
    if a != [] && b != [] && a[0] == b[0] {
      CompareNamesLaws(a[1..], b[1..]);
      assert a == [a[0]] + a[1..] && b == [b[0]] + b[1..];
    }
  }

  lemma {:induction false} CompareNamesTransitive(a: string, b: string, c: string)
    requires CompareNames(a, b) < 0 && CompareNames(b, c) < 0
    ensures CompareNames(a, c) < 0
  {
    if a != [] && b != [] && c != [] && a[0] == b[0] == c[0] {
      CompareNamesTransitive(a[1..], b[1..], c[1..]);
    }
  }

  /** Dictionary order: the first difference decides, and a beginning comes before the whole. */
  ghost predicate Earlier(a: string, b: string) {
    exists k :: DiffersAt(a, b, k)
  }

  ghost predicate DiffersAt(a: string, b: string, k: int) {
    && 0 <= k <= |a| && k < |b| && a[..k] == b[..k]
    && (k == |a| || a[k] < b[k])
  }

  lemma DiffersLater(a: string, b: string, k: int)
    requires a != [] && b != [] && a[0] == b[0]
    ensures DiffersAt(a[1..], b[1..], k) ==> DiffersAt(a, b, k + 1)
    ensures k > 0 && DiffersAt(a, b, k) ==> DiffersAt(a[1..], b[1..], k - 1)
  {
    if DiffersAt(a[1..], b[1..], k) {
      assert a[..k + 1] == [a[0]] + a[1..][..k] && b[..k + 1] == [b[0]] + b[1..][..k];
    }
    if k > 0 && DiffersAt(a, b, k) {
      assert a[1..][..k - 1] == a[..k][1..] && b[1..][..k - 1] == b[..k][1..];
    }
  }

  /** compareTo is negative exactly for the earlier name. */
  lemma {:induction false} CompareNamesIsDictionary(a: string, b: string)
    ensures CompareNames(a, b) < 0 <==> Earlier(a, b)
  {
    if a != [] && b != [] && a[0] == b[0] {
      CompareNamesIsDictionary(a[1..], b[1..]);
      if Earlier(a[1..], b[1..]) {
        var k :| DiffersAt(a[1..], b[1..], k);
        DiffersLater(a, b, k);
      }
      if Earlier(a, b) {
        var k :| DiffersAt(a, b, k);
        DiffersLater(a, b, k);
      }
    } else if a == [] || b == [] || a[0] < b[0] {
      assert b != [] ==> DiffersAt(a, b, 0);
    } else {
      forall k
        ensures !DiffersAt(a, b, k)
      {
        assert k > 0 && k <= |a| && k < |b| ==> a[..k][0] == a[0] && b[..k][0] == b[0];
      }
    }
  }

  lemma EarlierOneWay(a: string, b: string)
    ensures !(Earlier(a, b) && Earlier(b, a))
  {
    CompareNamesIsDictionary(a, b);
    CompareNamesIsDictionary(b, a);
    CompareNamesLaws(a, b);
  }
}
