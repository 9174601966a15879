/** The divide and conquer skyline of algorithms/java/SkylineProblem/SkylineProblem.java. */
module Skyline {
  import opened SkylineMerge
  import opened Wrappers

  datatype Building = Building(left: int, height: int, right: int)

  // ---------------------------------------------------------------- what a skyline says

  /** The height at `x`: that of the last point at or before `x`, zero before the first. */
  function HeightAt(sky: seq<Point>, x: int): int {
    if sky == [] then 0
    else if sky[|sky| - 1].x <= x then sky[|sky| - 1].h
    else HeightAt(sky[..|sky| - 1], x)
  }

  predicate Covers(b: Building, x: int) {
    b.left <= x < b.right
  }

  /** The height of the tallest building over `x`, zero when there is none. */
  function Tallest(bs: seq<Building>, x: int): int {
    if bs == [] then 0
    else
      var rest := Tallest(bs[..|bs| - 1], x);
      if Covers(bs[|bs| - 1], x) then Max(rest, bs[|bs| - 1].height) else rest
  }

  ghost predicate Proper(bs: seq<Building>) {
    forall i :: 0 <= i < |bs| ==> bs[i].left <= bs[i].right && bs[i].height >= 0
  }

  /** No building over `x` is taller, and one is as tall unless the height is zero. */
  lemma {:induction false} TallestIsTallest(bs: seq<Building>, x: int)
    requires Proper(bs)
    ensures forall i :: 0 <= i < |bs| && Covers(bs[i], x) ==> bs[i].height <= Tallest(bs, x)
    ensures Tallest(bs, x) == 0 || exists i :: 0 <= i < |bs| && Covers(bs[i], x) && bs[i].height == Tallest(bs, x)
    ensures Tallest(bs, x) >= 0
  {
    if bs != [] {
      var k := |bs| - 1;
      var rest := bs[..k];
      TallestIsTallest(rest, x);
      assert forall i :: 0 <= i < k ==> rest[i] == bs[i];
      if Tallest(bs, x) != 0 {
        if Covers(bs[k], x) && bs[k].height == Tallest(bs, x) {
        } else {
          var i :| 0 <= i < |rest| && Covers(rest[i], x) && rest[i].height == Tallest(rest, x);
          assert bs[i] == rest[i];
        }
      }
    }
  }

  lemma {:induction false} TallestSplits(a: seq<Building>, b: seq<Building>, x: int)
    requires Proper(a) && Proper(b)
    ensures Tallest(a + b, x) == Max(Tallest(a, x), Tallest(b, x))
    decreases |b|
  {
    TallestIsTallest(a, x);
    if b == [] {
      assert a + b == a;
    } else {
      var b' := b[..|b| - 1];
      TallestSplits(a, b', x);
      assert (a + b)[..|a + b| - 1] == a + b';
    }
  }

  // ---------------------------------------------------------------- well-formed skylines

  predicate NotRightOf(p: Point, q: Point) {
    p.x <= q.x
  }

  ghost predicate Ascending(sky: seq<Point>) {
    forall i, j {:trigger NotRightOf(sky[i], sky[j])} :: 0 <= i < j < |sky| ==> NotRightOf(sky[i], sky[j])
  }

  /** Points from left to right, no height negative, the last height zero. */
  ghost predicate WellFormed(sky: seq<Point>) {
    && sky != [] && Ascending(sky) && sky[|sky| - 1].h == 0
    && forall i :: 0 <= i < |sky| ==> sky[i].h >= 0
  }

  function LastHeight(sky: seq<Point>): int {
    if sky == [] then 0 else sky[|sky| - 1].h
  }

  /** All points lie at or left of `x`. */
  ghost predicate UpTo(sky: seq<Point>, x: int) {
    forall i :: 0 <= i < |sky| ==> sky[i].x <= x
  }

  lemma HeightRight(sky: seq<Point>, front: int, x: int)
    requires UpTo(sky, front) && front <= x
    ensures HeightAt(sky, x) == LastHeight(sky)
  {
  }

  lemma HeightOfMore(sky: seq<Point>, p: Point, x: int)
    ensures HeightAt(sky + [p], x) == if p.x <= x then p.h else HeightAt(sky, x)
  {
    assert (sky + [p])[..|sky|] == sky;
  }

  // ---------------------------------------------------------------- merging

  /** The output so far reads, everywhere, as the higher of the two parts consumed so far. */
  ghost predicate Reads(out: seq<Point>, a: seq<Point>, b: seq<Point>) {
    forall x :: ReadsAt(out, a, b, x)
  }

  ghost predicate ReadsAt(out: seq<Point>, a: seq<Point>, b: seq<Point>, x: int) {
    HeightAt(out, x) == Max(HeightAt(a, x), HeightAt(b, x))
  }

  /** Consuming one more point of `a`: the output gets a point of the new maximal height, or none if
      the maximum stays the same. */
  lemma Consume(out: seq<Point>, out': seq<Point>, a: seq<Point>, b: seq<Point>, p: Point)
    requires Reads(out, a, b) && UpTo(out, p.x) && UpTo(b, p.x)
    requires out' == out + [Point(p.x, Max(p.h, LastHeight(b)))]
          || (out' == out && LastHeight(out) == Max(p.h, LastHeight(b)))
    ensures Reads(out', a + [p], b) && LastHeight(out') == Max(p.h, LastHeight(b)) && UpTo(out', p.x)
  {
    forall x
      ensures ReadsAt(out', a + [p], b, x)
    {
      HeightOfMore(a, p, x);
      HeightOfMore(out, Point(p.x, Max(p.h, LastHeight(b))), x);
      if p.x <= x {
        HeightRight(b, p.x, x);
        HeightRight(out, p.x, x);
      } else {
        assert ReadsAt(out, a, b, x);
      }
    }
  }

  lemma ReadsBoth(out: seq<Point>, a: seq<Point>, b: seq<Point>)
    requires Reads(out, a, b)
    ensures Reads(out, b, a)
  {
    forall x
      ensures ReadsAt(out, b, a, x)
    {
      assert ReadsAt(out, a, b, x);
    }
  }

  /** No point still to come lies left of a point of `sky`. */
  ghost predicate LeftOf(sky: seq<Point>, rest: seq<Point>) {
    forall i, j {:trigger NotRightOf(sky[i], rest[j])} ::
      0 <= i < |sky| && 0 <= j < |rest| ==> NotRightOf(sky[i], rest[j])
  }

  /** The state of the merge loop: `a` and `b` are consumed, `r` and `s` still to come. */
  ghost predicate Merging(out: seq<Point>, a: seq<Point>, r: seq<Point>, b: seq<Point>, s: seq<Point>, maxH: int) {
    && Reads(out, a, b) && Ascending(out) && Ascending(r) && Ascending(s)
    && LastHeight(out) == Max(LastHeight(a), LastHeight(b)) <= maxH
    && LeftOf(out, r) && LeftOf(out, s) && LeftOf(a, s) && LeftOf(b, r)
    && (forall i :: 0 <= i < |out| ==> out[i].h >= 0)
  }

  lemma LeftOfFirst(sky: seq<Point>, rest: seq<Point>)
    requires LeftOf(sky, rest) && rest != []
    ensures UpTo(sky, rest[0].x)
  {
    assert forall i :: 0 <= i < |sky| ==> NotRightOf(sky[i], rest[0]);
  }

  lemma FrontierMoves(out: seq<Point>, out': seq<Point>, p: Point, r: seq<Point>, s: seq<Point>)
    requires r != [] && p == r[0] && Ascending(out) && UpTo(out, p.x) && LeftOf(out, r) && LeftOf(out, s)
    requires out' == out || (|out'| == |out| + 1 && out'[..|out|] == out && out'[|out|].x == p.x)
    requires forall j :: 0 <= j < |s| ==> NotRightOf(p, s[j])
    requires forall j :: 0 <= j < |r[1..]| ==> NotRightOf(p, r[1..][j])
    ensures Ascending(out') && LeftOf(out', r[1..]) && LeftOf(out', s)
  {
    assert forall i :: 0 <= i < |out| ==> out'[i] == out[i];
  }

  /** Taking the first point of `r`, which is not right of the first point of `s`. */
  lemma TakeFirst(out: seq<Point>, out': seq<Point>, a: seq<Point>, r: seq<Point>, b: seq<Point>, s: seq<Point>,
                  maxH: int, maxH': int)
    requires Merging(out, a, r, b, s, maxH) && r != [] && s != [] && r[0].x <= s[0].x && r[0].h >= 0
    requires r[0].h < LastHeight(b) ==>
      && maxH' == maxH
      && out' == if maxH != LastHeight(b) then out + [Point(r[0].x, LastHeight(b))] else out
    requires r[0].h >= LastHeight(b) ==> maxH' == r[0].h && out' == out + [Point(r[0].x, r[0].h)]
    ensures Merging(out', a + [r[0]], r[1..], b, s, maxH')
  {
    var p := r[0];
    LeftOfFirst(out, r);
    LeftOfFirst(b, r);
    Consume(out, out', a, b, p);
    assert LastHeight(a + [p]) == p.h;
    assert forall j :: 0 <= j < |s| ==> NotRightOf(p, s[j]) by {
      assert forall j :: 0 < j < |s| ==> NotRightOf(s[0], s[j]);
    }
    assert forall j :: 0 <= j < |r[1..]| ==> NotRightOf(p, r[1..][j]) by {
      assert forall j :: 0 < j < |r| ==> NotRightOf(r[0], r[j]);
    }
    FrontierMoves(out, out', p, r, s);
    assert LeftOf(a + [p], s);
    assert LeftOf(b, r[1..]);
  }

  lemma Mirror(out: seq<Point>, a: seq<Point>, r: seq<Point>, b: seq<Point>, s: seq<Point>, maxH: int)
    requires Merging(out, a, r, b, s, maxH)
    ensures Merging(out, b, s, a, r, maxH)
  {
    ReadsBoth(out, a, b);
  }

  /** The first branch of the loop. */
  lemma StepLeft(out: seq<Point>, a: seq<Point>, r: seq<Point>, b: seq<Point>, s: seq<Point>, maxH: int)
    requires Merging(out, a, r, b, s, maxH) && r != [] && s != [] && r[0].x <= s[0].x && r[0].h >= 0
    ensures var e := Emit(r[0], LastHeight(b), maxH); Merging(out + e.0, a + [r[0]], r[1..], b, s, e.1)
  {
    var e := Emit(r[0], LastHeight(b), maxH);
    assert e.0 == [] ==> out + e.0 == out;
    TakeFirst(out, out + e.0, a, r, b, s, maxH, e.1);
  }

  /** The second branch of the loop. */
  lemma StepRight(out: seq<Point>, a: seq<Point>, r: seq<Point>, b: seq<Point>, s: seq<Point>, maxH: int)
    requires Merging(out, a, r, b, s, maxH) && r != [] && s != [] && s[0].x <= r[0].x && s[0].h >= 0
    ensures var e := Emit(s[0], LastHeight(a), maxH); Merging(out + e.0, a, r, b + [s[0]], s[1..], e.1)
  {
    var e := Emit(s[0], LastHeight(a), maxH);
    Mirror(out, a, r, b, s, maxH);
    StepLeft(out, b, s, a, r, maxH);
    Mirror(out + e.0, b + [s[0]], s[1..], a, r, e.1);
  }

  /** One part is used up and ends at height zero: the rest of the other is taken over as it is. */
  lemma {:induction false} TakeRest(out: seq<Point>, a: seq<Point>, r: seq<Point>, b: seq<Point>)
    requires Reads(out, a, b) && Ascending(out) && Ascending(r) && LeftOf(out, r) && LeftOf(b, r) && LastHeight(b) == 0
    requires forall i :: 0 <= i < |r| ==> r[i].h >= 0
    ensures Reads(out + r, a + r, b) && Ascending(out + r)
    decreases |r|
  {
    if r == [] {
      assert out + r == out && a + r == a;
    } else {
      var p := r[0];
      LeftOfFirst(out, r);
      LeftOfFirst(b, r);
      Consume(out, out + [p], a, b, p);
      assert forall j :: 0 <= j < |r[1..]| ==> NotRightOf(p, r[1..][j]) by {
        assert forall j :: 0 < j < |r| ==> NotRightOf(r[0], r[j]);
      }
      FrontierMoves(out, out + [p], p, r, []);
      TakeRest(out + [p], a + [p], r[1..], b);
      assert out + [p] + r[1..] == out + r && a + [p] + r[1..] == a + r;
    }
  }

  /** ArrayList<Skyline>. */
  class PointList {
    var points: seq<Point>

    constructor ()
      ensures points == []
    {
      points := [];
    }

    method Add(p: Point)
      modifies this
      ensures points == old(points) + [p]
    {
      points := points + [p];
    }

    method RemoveFirst() returns (p: Point)
      requires points != []
      modifies this
      ensures p == old(points)[0] && points == old(points)[1..]
    {
      p := points[0];
      points := points[1..];
    }
  }

  /** Either branch of the loop: takes the first point of `sky` while the other skyline is `other` high. */
  method Take(sky: PointList, skyline: PointList, other: int, maxH: int) returns (current: int, maxH': int)
    requires sky != skyline && sky.points != []
    modifies sky, skyline
    ensures current == old(sky.points)[0].h && sky.points == old(sky.points)[1..]
    ensures var e := Emit(old(sky.points)[0], other, maxH); skyline.points == old(skyline.points) + e.0 && maxH' == e.1
    ensures |skyline.points| == |old(skyline.points)| + if current < other && other == maxH then 0 else 1
    ensures |skyline.points| > |old(skyline.points)| ==>
      skyline.points == old(skyline.points) + [Point(old(sky.points)[0].x, Max(current, other))]
    ensures maxH' == if current < other then maxH else current
  {
    maxH' := maxH;
    var p := sky.RemoveFirst();
    current := p.h;
    if current < other {
      if maxH != other {
        skyline.Add(Point(p.x, other));
      }
    } else {
      maxH' := current;
      skyline.Add(Point(p.x, current));
    }
  }

  /** All that the loop keeps: of the two skylines `a` and `b` are taken, `r` and `s` still there, and the
      output so far is what they give. */
  ghost predicate Looping(sky1: seq<Point>, sky2: seq<Point>, out: seq<Point>, a: seq<Point>, r: seq<Point>,
                          b: seq<Point>, s: seq<Point>, maxH: int) {
    && sky1 == a + r && sky2 == b + s && (r != [] || s != []) && Merging(out, a, r, b, s, maxH)
    && |out| <= |a| + |b|
    && out + Merged(r, s, LastHeight(a), LastHeight(b), maxH) == Merged(sky1, sky2, 0, 0, 0)
  }

  lemma MergedLeft(out: seq<Point>, r: seq<Point>, s: seq<Point>, h1: int, h2: int, maxH: int)
    requires r != [] && s != [] && r[0].x < s[0].x
    ensures var e := Emit(r[0], h2, maxH);
      out + e.0 + Merged(r[1..], s, r[0].h, h2, e.1) == out + Merged(r, s, h1, h2, maxH)
  {
  }

  lemma MergedRight(out: seq<Point>, r: seq<Point>, s: seq<Point>, h1: int, h2: int, maxH: int)
    requires r != [] && s != [] && s[0].x <= r[0].x
    ensures var e := Emit(s[0], h1, maxH);
      out + e.0 + Merged(r, s[1..], h1, s[0].h, e.1) == out + Merged(r, s, h1, h2, maxH)
  {
  }

  lemma LoopLeft(sky1: seq<Point>, sky2: seq<Point>, out: seq<Point>, a: seq<Point>, r: seq<Point>,
                 b: seq<Point>, s: seq<Point>, maxH: int)
    requires Looping(sky1, sky2, out, a, r, b, s, maxH) && r != [] && s != [] && r[0].x < s[0].x && WellFormed(sky1)
    ensures var e := Emit(r[0], LastHeight(b), maxH);
      Looping(sky1, sky2, out + e.0, a + [r[0]], r[1..], b, s, e.1)
  {
    assert r[0] == sky1[|a|];
    StepLeft(out, a, r, b, s, maxH);
    MergedLeft(out, r, s, LastHeight(a), LastHeight(b), maxH);
    assert LastHeight(a + [r[0]]) == r[0].h;
    assert a + [r[0]] + r[1..] == a + r;
  }

  lemma LoopRight(sky1: seq<Point>, sky2: seq<Point>, out: seq<Point>, a: seq<Point>, r: seq<Point>,
                  b: seq<Point>, s: seq<Point>, maxH: int)
    requires Looping(sky1, sky2, out, a, r, b, s, maxH) && r != [] && s != [] && s[0].x <= r[0].x && WellFormed(sky2)
    ensures var e := Emit(s[0], LastHeight(a), maxH);
      Looping(sky1, sky2, out + e.0, a, r, b + [s[0]], s[1..], e.1)
  {
    assert s[0] == sky2[|b|];
    StepRight(out, a, r, b, s, maxH);
    MergedRight(out, r, s, LastHeight(a), LastHeight(b), maxH);
    assert LastHeight(b + [s[0]]) == s[0].h;
    assert b + [s[0]] + s[1..] == b + s;
  }

  lemma LoopStarts(sky1: seq<Point>, sky2: seq<Point>)
    requires WellFormed(sky1) && WellFormed(sky2)
    ensures Looping(sky1, sky2, [], [], sky1, [], sky2, 0)
  {
  }

  /** The loop over both skylines: `a` and `b` are the parts taken so far. */
  method MergeLoop(sky1: PointList, sky2: PointList, skyline: PointList)
      returns (ghost a: seq<Point>, ghost b: seq<Point>, maxH: int)
    requires sky1 != sky2 && sky1 != skyline && sky2 != skyline && skyline.points == []
    requires WellFormed(sky1.points) && WellFormed(sky2.points)
    modifies sky1, sky2, skyline
    ensures Looping(old(sky1.points), old(sky2.points), skyline.points, a, sky1.points, b, sky2.points, maxH)
    ensures sky1.points == [] <==> sky2.points != []
  {
    var currentH1, currentH2 := 0, 0;
    maxH, a, b := 0, [], [];
    LoopStarts(sky1.points, sky2.points);
    while sky1.points != [] && sky2.points != []
      invariant currentH1 == LastHeight(a) && currentH2 == LastHeight(b)
      invariant Looping(old(sky1.points), old(sky2.points), skyline.points, a, sky1.points, b, sky2.points, maxH)
      decreases |sky1.points| + |sky2.points|
    {
      ghost var r, s := sky1.points, sky2.points;
      if sky1.points[0].x < sky2.points[0].x {
        LoopLeft(old(sky1.points), old(sky2.points), skyline.points, a, r, b, s, maxH);
        currentH1, maxH := Take(sky1, skyline, currentH2, maxH);
        a := a + [r[0]];
      } else {
        LoopRight(old(sky1.points), old(sky2.points), skyline.points, a, r, b, s, maxH);
        currentH2, maxH := Take(sky2, skyline, currentH1, maxH);
        b := b + [s[0]];
      }
    }
  }

  lemma RestOfSkyline(out: seq<Point>, a: seq<Point>, r: seq<Point>, sky1: seq<Point>, sky2: seq<Point>, maxH: int)
    requires WellFormed(sky1) && WellFormed(sky2) && sky1 == a + r && r != [] && Merging(out, a, r, sky2, [], maxH)
    ensures WellFormed(out + r) && Reads(out + r, sky1, sky2)
  {
    assert forall i :: 0 <= i < |r| ==> r[i] == sky1[|a| + i];
    TakeRest(out, a, r, sky2);
  }

  lemma RestIsRight(out: seq<Point>, a: seq<Point>, r: seq<Point>, b: seq<Point>, s: seq<Point>, maxH: int)
    requires Merging(out, a, r, b, s, maxH) && (r == [] <==> s != [])
    requires WellFormed(a + r) && WellFormed(b + s)
    ensures WellFormed(out + r + s) && Reads(out + r + s, a + r, b + s)
  {
    if r != [] {
      assert b + s == b && out + r + s == out + r;
      RestOfSkyline(out, a, r, a + r, b, maxH);
    } else {
      assert a + r == a && out + r + s == out + s;
      Mirror(out, a, r, b, s, maxH);
      RestOfSkyline(out, b, s, b + s, a, maxH);
      ReadsBoth(out + s, b + s, a);
    }
  }

  /** A skyline inside a taller building leaves no point; and if neither skyline repeats a height, the
      output repeats one exactly when a point was put out needlessly. */
  ghost predicate DropsHidden(out: seq<Point>, sky1: seq<Point>, sky2: seq<Point>) {
    && (Encloses(sky1, sky2) ==> out == sky1) && (Encloses(sky2, sky1) ==> out == sky2)
    && (NoRepeat(0, sky1) && NoRepeat(0, sky2) ==> (NoRepeat(0, out) <==> NoneNeedless(Steps(sky1, sky2, 0, 0))))
  }

  /** mergeSkyline: the higher of the two skylines, everywhere; both lists given are used up. */
  method MergeSkyline(sky1: PointList, sky2: PointList) returns (skyline: PointList)
    requires sky1 != sky2 && WellFormed(sky1.points) && WellFormed(sky2.points)
    modifies sky1, sky2
    ensures fresh(skyline) && sky1.points == [] && sky2.points == []
    ensures WellFormed(skyline.points) && Reads(skyline.points, old(sky1.points), old(sky2.points))
    ensures skyline.points == Merged(old(sky1.points), old(sky2.points), 0, 0, 0)
    ensures DropsHidden(skyline.points, old(sky1.points), old(sky2.points))
    ensures |skyline.points| <= |old(sky1.points)| + |old(sky2.points)|
  {
    skyline := new PointList();
    var maxH;
    ghost var a, b;
    a, b, maxH := MergeLoop(sky1, sky2, skyline);
    RestIsRight(skyline.points, a, sky1.points, b, sky2.points, maxH);
    MoveAll(sky1, skyline);
    MoveAll(sky2, skyline);
    PointsPutOut(old(sky1.points), old(sky2.points));
  }

  lemma PointsPutOut(sky1: seq<Point>, sky2: seq<Point>)
    requires WellFormed(sky1) && WellFormed(sky2)
    ensures DropsHidden(Merged(sky1, sky2, 0, 0, 0), sky1, sky2)
  {
    if Encloses(sky1, sky2) {
      EnclosedLeavesNothing(sky1, sky2);
    }
    if Encloses(sky2, sky1) {
      EnclosedLeavesNothing(sky2, sky1);
    }
    if NoRepeat(0, sky1) && NoRepeat(0, sky2) {
      RepeatsExactly(sky1, sky2);
    }
  }

  /** The two loops that move the remaining points over. */
  method MoveAll(sky: PointList, skyline: PointList)
    requires sky != skyline
    modifies sky, skyline
    ensures sky.points == [] && skyline.points == old(skyline.points) + old(sky.points)
  {
    while sky.points != []
      invariant skyline.points + sky.points == old(skyline.points) + old(sky.points)
      decreases |sky.points|
    {
      var p := sky.RemoveFirst();
      skyline.Add(p);
    }
  }

  /** The points findSkyline puts out for the buildings from `start` to `end`. */
  function SkyOf(bs: seq<Building>, start: int, end: int): seq<Point>
    requires 0 <= start <= end < |bs|
    decreases end - start
  {
    if start == end then [Point(bs[start].left, bs[start].height), Point(bs[start].right, 0)]
    else
      var mid := (start + end) / 2;
      Merged(SkyOf(bs, start, mid), SkyOf(bs, mid + 1, end), 0, 0, 0)
  }

  /** A building inside a taller one leaves no point, in either order. */
  lemma InnerBuildingHidden(b: Building, inner: Building)
    requires b.left < inner.left <= inner.right < b.right && 0 <= inner.height < b.height
    ensures SkyOf([b, inner], 0, 1) == [Point(b.left, b.height), Point(b.right, 0)]
    ensures SkyOf([inner, b], 0, 1) == [Point(b.left, b.height), Point(b.right, 0)]
  {
    EnclosedLeavesNothing([Point(b.left, b.height), Point(b.right, 0)],
                          [Point(inner.left, inner.height), Point(inner.right, 0)]);
  }

  /** `sky` is the skyline of the buildings from `start` to `end`: it reads, everywhere, the height of the
      tallest of them. */
  ghost predicate SkylineOf(sky: seq<Point>, bs: seq<Building>, start: int, end: int)
    requires 0 <= start <= end < |bs|
  {
    && WellFormed(sky) && |sky| <= 2 * (end - start + 1) && sky == SkyOf(bs, start, end)
    && forall x :: HeightAt(sky, x) == Tallest(bs[start..end + 1], x)
  }

  /** findSkyline */
  method FindSkyline(building: array<Building>, start: int, end: int) returns (sky: PointList)
    requires 0 <= start <= end < building.Length && Proper(building[..])
    ensures fresh(sky) && SkylineOf(sky.points, building[..], start, end)
    decreases end - start
  {
    if start == end {
      sky := new PointList();
      sky.Add(Point(building[start].left, building[start].height));
      sky.Add(Point(building[end].right, 0));
      OneBuilding(building[..], start, sky.points);
      return;
    }
    var mid := (start + end) / 2;
    var sky1 := FindSkyline(building, start, mid);
    var sky2 := FindSkyline(building, mid + 1, end);
    ghost var p1, p2 := sky1.points, sky2.points;
    sky := MergeSkyline(sky1, sky2);
    HalvesJoin(sky.points, p1, p2, building[..], start, end);
  }

  /** Two skylines of neighbouring ranges, merged, are the skyline of both. */
  lemma {:induction false} HalvesJoin(sky: seq<Point>, sky1: seq<Point>, sky2: seq<Point>, bs: seq<Building>,
                                      start: int, end: int)
    requires 0 <= start < end < |bs| && Proper(bs) && WellFormed(sky)
    requires SkylineOf(sky1, bs, start, (start + end) / 2) && SkylineOf(sky2, bs, (start + end) / 2 + 1, end)
    requires Reads(sky, sky1, sky2) && sky == Merged(sky1, sky2, 0, 0, 0) && |sky| <= |sky1| + |sky2|
    ensures SkylineOf(sky, bs, start, end)
  {
    var mid := (start + end) / 2;
    HalvesCover(sky, sky1, sky2, bs, start, mid + 1, end + 1);
    assert sky == SkyOf(bs, start, end);
  }

  lemma HalvesCover(sky: seq<Point>, sky1: seq<Point>, sky2: seq<Point>, bs: seq<Building>, i: int, m: int, j: int)
    requires Reads(sky, sky1, sky2) && Proper(bs) && 0 <= i <= m <= j <= |bs|
    requires forall x :: HeightAt(sky1, x) == Tallest(bs[i..m], x)
    requires forall x :: HeightAt(sky2, x) == Tallest(bs[m..j], x)
    ensures forall x :: HeightAt(sky, x) == Tallest(bs[i..j], x)
  {
    assert bs[i..j] == bs[i..m] + bs[m..j];
    forall x
      ensures HeightAt(sky, x) == Tallest(bs[i..j], x)
    {
      assert ReadsAt(sky, sky1, sky2, x);
      TallestSplits(bs[i..m], bs[m..j], x);
    }
  }

  lemma OneBuilding(bs: seq<Building>, k: int, sky: seq<Point>)
    requires 0 <= k < |bs| && Proper(bs) && sky == [Point(bs[k].left, bs[k].height), Point(bs[k].right, 0)]
    ensures SkylineOf(sky, bs, k, k)
  {
    var b := bs[k];
    assert bs[k..k + 1] == [b];
    forall x
      ensures HeightAt(sky, x) == Tallest([b], x)
    {
      assert sky[..1] == [Point(b.left, b.height)] && [b][..0] == [];
      assert sky[..1][..0] == [];
      assert HeightAt(sky[..1], x) == if b.left <= x then b.height else 0;
    }
  }
}
