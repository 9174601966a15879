/** The points that mergeSkyline of algorithms/java/SkylineProblem/SkylineProblem.java puts out, as
    values: which points it leaves out, and when one repeats the height before it. */
module SkylineMerge {
  import opened Wrappers

  datatype Point = Point(x: int, h: int)

  // ---------------------------------------------------------------- the code

  /** What either branch of the merge loop puts out for a point at `p.x` whose skyline is now `p.h` high
      while the other skyline is `other` high, and the variable `maxH` after it. */
  function Emit(p: Point, other: int, maxH: int): (seq<Point>, int) {
    if p.h < other then (if maxH != other then [Point(p.x, other)] else [], maxH)
    else ([Point(p.x, p.h)], p.h)
  }

  /** What the merge puts out for the points still in the two lists, when the points taken from them so
      far end at heights `h1` and `h2`. */
  function Merged(r: seq<Point>, s: seq<Point>, h1: int, h2: int, maxH: int): seq<Point>
    decreases |r| + |s|
  {
    if r == [] || s == [] then r + s
    else if r[0].x < s[0].x then
      var e := Emit(r[0], h2, maxH);
      e.0 + Merged(r[1..], s, r[0].h, h2, e.1)
    else
      var e := Emit(s[0], h1, maxH);
      e.0 + Merged(r, s[1..], h1, s[0].h, e.1)
  }

  // ---------------------------------------------------------------- hidden points

  /** All points lie left of `x` and below `h`. */
  ghost predicate Below(sky: seq<Point>, x: int, h: int) {
    forall i :: 0 <= i < |sky| ==> sky[i].x < x && sky[i].h < h
  }

  lemma {:induction false} HiddenFirst(r: seq<Point>, s: seq<Point>, h1: int, h: int)
    requires s != [] && Below(r, s[0].x, h)
    ensures Merged(r, s, h1, h, h) == s
    decreases |r|
  {
    if r == [] {
      assert r + s == s;
    } else {
      assert forall i :: 0 <= i < |r[1..]| ==> r[1..][i] == r[i + 1];
      HiddenFirst(r[1..], s, r[0].h, h);
    }
  }

  lemma {:induction false} HiddenSecond(r: seq<Point>, s: seq<Point>, h: int, h2: int)
    requires r != [] && Below(s, r[0].x, h)
    ensures Merged(r, s, h, h2, h) == r
    decreases |s|
  {
    if s == [] {
      assert r + s == r;
    } else {
      assert forall i :: 0 <= i < |s[1..]| ==> s[1..][i] == s[i + 1];
      HiddenSecond(r, s[1..], h, s[0].h);
    }
  }

  /** The skyline of one building, and one that lies between its walls and below its roof. */
  ghost predicate Encloses(building: seq<Point>, sky: seq<Point>) {
    && |building| == 2 && building[1].h == 0 <= building[0].h
    && forall i :: 0 <= i < |sky| ==> building[0].x < sky[i].x < building[1].x && sky[i].h < building[0].h
  }

  /** A skyline inside a taller building leaves no trace, whichever list it is in. */
  lemma EnclosedLeavesNothing(b: seq<Point>, sky: seq<Point>)
    requires Encloses(b, sky)
    ensures Merged(b, sky, 0, 0, 0) == b
    ensures Merged(sky, b, 0, 0, 0) == b
  {
    if sky == [] {
      assert b + sky == b && sky + b == b;
    } else {
      assert b == [b[0]] + b[1..];
      HiddenSecond(b[1..], sky, b[0].h, 0);
      HiddenFirst(sky, b[1..], 0, b[0].h);
    }
  }

  // ---------------------------------------------------------------- crests and drops

  /** A point as the loop takes it: at `x` its skyline goes from `was` to `own`, the other is `other` high. */
  datatype Taken = Taken(x: int, was: int, own: int, other: int)

  /** The points in the order of the loop: from left to right, of two at the same place that of the
      second list first. */
  function Steps(r: seq<Point>, s: seq<Point>, h1: int, h2: int): seq<Taken>
    decreases |r| + |s|
  {
    if r == [] || s == [] then []
    else if r[0].x < s[0].x then [Taken(r[0].x, h1, r[0].h, h2)] + Steps(r[1..], s, r[0].h, h2)
    else [Taken(s[0].x, h2, s[0].h, h1)] + Steps(r, s[1..], h1, s[0].h)
  }

  /** What is left in one list when the other is used up. */
  function Leftover(r: seq<Point>, s: seq<Point>): seq<Point>
    decreases |r| + |s|
  {
    if r == [] || s == [] then r + s
    else if r[0].x < s[0].x then Leftover(r[1..], s)
    else Leftover(r, s[1..])
  }

  /** The skyline of the point is the higher one after it. */
  predicate Crest(t: Taken) {
    t.own >= t.other
  }

  /** The skyline of the point drops below the other, which becomes the visible one. */
  predicate Drop(t: Taken) {
    t.own < t.other < t.was
  }

  /** A drop, and no crest since. */
  predicate Stale(steps: seq<Taken>) {
    steps != [] && var t := steps[|steps| - 1]; !Crest(t) && (Drop(t) || Stale(steps[..|steps| - 1]))
  }

  lemma {:induction false} StaleIsDrop(steps: seq<Taken>)
    ensures Stale(steps) <==>
      exists j :: 0 <= j < |steps| && Drop(steps[j]) && forall k :: j <= k < |steps| ==> !Crest(steps[k])
  {
    if steps != [] {
      var n := |steps| - 1;
      var front := steps[..n];
      StaleIsDrop(front);
      assert forall k :: 0 <= k < n ==> front[k] == steps[k];
      if Stale(steps) && !Drop(steps[n]) {
        var j :| 0 <= j < n && Drop(front[j]) && forall k :: j <= k < n ==> !Crest(front[k]);
        assert Drop(steps[j]) && forall k :: j <= k < |steps| ==> !Crest(steps[k]);
      }
      if j :| 0 <= j < |steps| && Drop(steps[j]) && forall k :: j <= k < |steps| ==> !Crest(steps[k]) {
        assert !Crest(steps[n]) && (j < n ==> Drop(front[j]));
      }
    }
  }

  /** A point under the other skyline, before and after, with no drop since the last crest. */
  predicate Hidden(t: Taken, stale: bool) {
    t.own < t.other && t.was <= t.other && !stale
  }

  /** The points put out for the steps: one of the visible height for each but the hidden ones. */
  function Printed(steps: seq<Taken>): seq<Point> {
    if steps == [] then []
    else
      var n := |steps| - 1;
      Printed(steps[..n]) + PrintedFor(steps[n], Stale(steps[..n]))
  }

  function PrintedFor(t: Taken, stale: bool): seq<Point> {
    if Hidden(t, stale) then [] else [Point(t.x, Max(t.own, t.other))]
  }

  /** The visible height after the steps. */
  function Visible(steps: seq<Taken>): int {
    if steps == [] then 0 else Max(steps[|steps| - 1].own, steps[|steps| - 1].other)
  }

  /** Every step starts from the visible height that the one before it left. */
  ghost predicate Linked(steps: seq<Taken>) {
    forall i {:trigger steps[..i]} :: 0 <= i < |steps| ==> Max(steps[i].was, steps[i].other) == Visible(steps[..i])
  }

  /** How the variable `maxH` goes with the steps: it is the visible height, or larger after a drop
      without a crest since. */
  ghost predicate Follows(steps: seq<Taken>, maxH: int) {
    Visible(steps) <= maxH && (Visible(steps) == maxH <==> !Stale(steps))
  }

  lemma OneStep(steps: seq<Taken>, t: Taken, maxH: int)
    requires Linked(steps) && Follows(steps, maxH) && Visible(steps) == Max(t.was, t.other)
    ensures Linked(steps + [t]) && Visible(steps + [t]) == Max(t.own, t.other)
    ensures var e := Emit(Point(t.x, t.own), t.other, maxH);
      Printed(steps + [t]) == Printed(steps) + e.0 && Follows(steps + [t], e.1)
  {
    var more := steps + [t];
    assert more[..|steps|] == steps;
    forall i | 0 <= i < |more|
      ensures Max(more[i].was, more[i].other) == Visible(more[..i])
    {
      if i < |steps| {
        assert more[..i] == steps[..i];
      }
    }
  }

  ghost predicate NoneNegative(sky: seq<Point>) {
    forall i :: 0 <= i < |sky| ==> sky[i].h >= 0
  }

  /** The result without the variable `maxH`: for all inputs the merge puts out a point for each step
      that is not hidden, and what is left over. */
  lemma {:induction false} MergedIsPrinted(done: seq<Taken>, r: seq<Point>, s: seq<Point>, h1: int, h2: int, maxH: int)
    requires Linked(done) && Follows(done, maxH) && Visible(done) == Max(h1, h2)
    ensures Linked(done + Steps(r, s, h1, h2))
    ensures Printed(done) + Merged(r, s, h1, h2, maxH) == Printed(done + Steps(r, s, h1, h2)) + Leftover(r, s)
    decreases |r| + |s|
  {
    if r == [] || s == [] {
      assert done + Steps(r, s, h1, h2) == done;
    } else if r[0].x < s[0].x {
      var t, e := Taken(r[0].x, h1, r[0].h, h2), Emit(r[0], h2, maxH);
      OneStep(done, t, maxH);
      MergedIsPrinted(done + [t], r[1..], s, r[0].h, h2, e.1);
      TakenThen(done, t, r[1..], s, r[0].h, h2, e.0, e.1);
    } else {
      var t, e := Taken(s[0].x, h2, s[0].h, h1), Emit(s[0], h1, maxH);
      OneStep(done, t, maxH);
      MergedIsPrinted(done + [t], r, s[1..], h1, s[0].h, e.1);
      TakenThen(done, t, r, s[1..], h1, s[0].h, e.0, e.1);
    }
  }

  lemma TakenThen(done: seq<Taken>, t: Taken, r: seq<Point>, s: seq<Point>, h1: int, h2: int,
                  out: seq<Point>, maxH: int)
    ensures done + [t] + Steps(r, s, h1, h2) == done + ([t] + Steps(r, s, h1, h2))
    ensures Printed(done) + out + Merged(r, s, h1, h2, maxH) == Printed(done) + (out + Merged(r, s, h1, h2, maxH))
  {
  }

  // ---------------------------------------------------------------- repeated heights

  /** No point has the height of the one before it, the first not `h`. */
  ghost predicate NoRepeat(h: int, sky: seq<Point>) {
    forall i :: 0 <= i < |sky| ==> sky[i].h != HeightBefore(h, sky, i)
  }

  ghost function HeightBefore(h: int, sky: seq<Point>, i: int): int
    requires 0 <= i < |sky|
  {
    if i == 0 then h else sky[i - 1].h
  }

  /** A point is put out although the visible height stays: its skyline comes up to the visible height,
      or it stays under the other one but there was a drop and no crest since. */
  predicate Needless(t: Taken, stale: bool) {
    || (t.own >= t.other && t.own == Max(t.was, t.other))
    || (t.own < t.other && t.was <= t.other && stale)
  }

  ghost predicate NoneNeedless(steps: seq<Taken>) {
    forall i {:trigger steps[..i]} :: 0 <= i < |steps| ==> !Needless(steps[i], Stale(steps[..i]))
  }

  ghost function LastOf(h: int, sky: seq<Point>): int {
    if sky == [] then h else sky[|sky| - 1].h
  }

  lemma NoRepeatSplits(h: int, a: seq<Point>, b: seq<Point>)
    ensures NoRepeat(h, a + b) <==> NoRepeat(h, a) && NoRepeat(LastOf(h, a), b)
  {
    var ab := a + b;
    forall i | 0 <= i < |ab|
      ensures ab[i].h == (if i < |a| then a[i].h else b[i - |a|].h)
      ensures HeightBefore(h, ab, i) ==
        if i < |a| then HeightBefore(h, a, i) else HeightBefore(LastOf(h, a), b, i - |a|)
    {
    }
    if NoRepeat(h, ab) {
      forall i | 0 <= i < |a|
        ensures a[i].h != HeightBefore(h, a, i)
      {
        assert ab[i].h != HeightBefore(h, ab, i);
      }
      forall i | 0 <= i < |b|
        ensures b[i].h != HeightBefore(LastOf(h, a), b, i)
      {
        assert ab[|a| + i].h != HeightBefore(h, ab, |a| + i);
      }
    }
  }

  lemma FrontOf(steps: seq<Taken>)
    requires steps != [] && Linked(steps)
    ensures var n := |steps| - 1; var front, t := steps[..n], steps[n];
      && Linked(front) && Visible(front) == Max(t.was, t.other)
      && (NoneNeedless(steps) <==> NoneNeedless(front) && !Needless(t, Stale(front)))
  {
    var n := |steps| - 1;
    var front := steps[..n];
    forall i | 0 <= i < n
      ensures front[i] == steps[i] && front[..i] == steps[..i]
    {
    }
    if NoneNeedless(steps) {
      assert NoneNeedless(front);
    }
    if NoneNeedless(front) && !Needless(steps[n], Stale(front)) {
      forall i | 0 <= i < |steps|
        ensures !Needless(steps[i], Stale(steps[..i]))
      {
        assert i < n ==> front[..i] == steps[..i];
      }
    }
  }

  lemma {:induction false} PrintedRepeats(steps: seq<Taken>)
    requires Linked(steps)
    ensures LastOf(0, Printed(steps)) == Visible(steps)
    ensures NoRepeat(0, Printed(steps)) <==> NoneNeedless(steps)
  {
    if steps != [] {
      var n := |steps| - 1;
      var front, t := steps[..n], steps[n];
      FrontOf(steps);
      PrintedRepeats(front);
      NoRepeatSplits(0, Printed(front), PrintedFor(t, Stale(front)));
      NeedlessRepeats(t, Stale(front), Visible(front));
    }
  }

  lemma NeedlessRepeats(t: Taken, stale: bool, visible: int)
    requires visible == Max(t.was, t.other)
    ensures NoRepeat(visible, PrintedFor(t, stale)) <==> !Needless(t, stale)
    ensures LastOf(visible, PrintedFor(t, stale)) == Max(t.own, t.other)
  {
    var out := PrintedFor(t, stale);
    assert out != [] ==> HeightBefore(visible, out, 0) == visible;
  }

  /** A list of points that starts from height `h`, ends at zero and repeats no height. */
  ghost predicate Clean(h: int, sky: seq<Point>) {
    h >= 0 && NoneNegative(sky) && NoRepeat(h, sky) && LastOf(h, sky) == 0
  }

  lemma CleanTail(h: int, sky: seq<Point>)
    requires Clean(h, sky) && sky != []
    ensures Clean(sky[0].h, sky[1..])
  {
    assert sky == [sky[0]] + sky[1..];
    NoRepeatSplits(h, [sky[0]], sky[1..]);
  }

  lemma CleanEnd(r: seq<Point>, s: seq<Point>, h1: int, h2: int)
    requires Clean(h1, r) && Clean(h2, s) && (r == [] || s == [])
    ensures NoRepeat(Max(h1, h2), r + s)
  {
    assert r + s == if r == [] then s else r;
  }

  lemma {:induction false} LeftoverClean(done: seq<Taken>, r: seq<Point>, s: seq<Point>, h1: int, h2: int)
    requires Visible(done) == Max(h1, h2) && Clean(h1, r) && Clean(h2, s)
    ensures NoRepeat(Visible(done + Steps(r, s, h1, h2)), Leftover(r, s))
    decreases |r| + |s|
  {
    if r == [] || s == [] {
      CleanEnd(r, s, h1, h2);
      assert done + Steps(r, s, h1, h2) == done;
    } else if r[0].x < s[0].x {
      var t := Taken(r[0].x, h1, r[0].h, h2);
      CleanTail(h1, r);
      LeftoverClean(done + [t], r[1..], s, r[0].h, h2);
      TakenThen(done, t, r[1..], s, r[0].h, h2, [], 0);
    } else {
      var t := Taken(s[0].x, h2, s[0].h, h1);
      CleanTail(h2, s);
      LeftoverClean(done + [t], r, s[1..], h1, s[0].h);
      TakenThen(done, t, r, s[1..], h1, s[0].h, [], 0);
    }
  }

  /** For all skylines without repeated heights: the merged one has none exactly when no step is needless. */
  lemma RepeatsExactly(sky1: seq<Point>, sky2: seq<Point>)
    requires Clean(0, sky1) && Clean(0, sky2)
    ensures NoRepeat(0, Merged(sky1, sky2, 0, 0, 0)) <==> NoneNeedless(Steps(sky1, sky2, 0, 0))
  {
    var steps := Steps(sky1, sky2, 0, 0);
    FromNothing(sky1, sky2);
    PrintedRepeats(steps);
    NoRepeatSplits(0, Printed(steps), Leftover(sky1, sky2));
  }

  lemma FromNothing(sky1: seq<Point>, sky2: seq<Point>)
    ensures var steps := Steps(sky1, sky2, 0, 0);
      && Linked(steps) && Merged(sky1, sky2, 0, 0, 0) == Printed(steps) + Leftover(sky1, sky2)
      && (Clean(0, sky1) && Clean(0, sky2) ==> NoRepeat(Visible(steps), Leftover(sky1, sky2)))
  {
    assert [] + Steps(sky1, sky2, 0, 0) == Steps(sky1, sky2, 0, 0);
    MergedIsPrinted([], sky1, sky2, 0, 0, 0);
    assert Printed([]) + Merged(sky1, sky2, 0, 0, 0) == Merged(sky1, sky2, 0, 0, 0);
    if Clean(0, sky1) && Clean(0, sky2) {
      LeftoverClean([], sky1, sky2, 0, 0);
    }
  }

  /** Such a point does come out where a skyline comes up to the height of the other. */
  lemma RepeatsAtEqualHeight()
    ensures Merged([Point(0, 5), Point(4, 0)], [Point(2, 5), Point(6, 0)], 0, 0, 0)
         == [Point(0, 5), Point(2, 5), Point(6, 0)]
  {
    assert Merged([Point(4, 0)], [Point(6, 0)], 5, 5, 5) == [Point(6, 0)];
    assert Merged([Point(4, 0)], [Point(2, 5), Point(6, 0)], 5, 0, 5) == [Point(2, 5), Point(6, 0)];
  }

  /** And where one steps under the other after a drop. */
  lemma RepeatsAfterDrop()
    ensures Merged([Point(0, 9), Point(4, 2), Point(5, 1), Point(9, 0)], [Point(1, 5), Point(8, 0)], 0, 0, 0)
         == [Point(0, 9), Point(4, 5), Point(5, 5), Point(8, 1), Point(9, 0)]
  {
    assert Merged([Point(9, 0)], [Point(8, 0)], 1, 5, 9) == [Point(8, 1), Point(9, 0)];
    assert Merged([Point(5, 1), Point(9, 0)], [Point(8, 0)], 2, 5, 9) == [Point(5, 5), Point(8, 1), Point(9, 0)];
    assert Merged([Point(4, 2), Point(5, 1), Point(9, 0)], [Point(8, 0)], 9, 5, 9)
        == [Point(4, 5), Point(5, 5), Point(8, 1), Point(9, 0)];
    assert Merged([Point(4, 2), Point(5, 1), Point(9, 0)], [Point(1, 5), Point(8, 0)], 9, 0, 9)
        == [Point(4, 5), Point(5, 5), Point(8, 1), Point(9, 0)];
  }

  /** Of two points at the same place that of the second list is taken first, so both can come out. */
  lemma SecondFirstAtSamePlace(x: int, x1: int, x2: int, low: int, high: int)
    requires x < x2 < x1 && 0 < low < high
    ensures Merged([Point(x, high), Point(x1, 0)], [Point(x, low), Point(x2, 0)], 0, 0, 0)
         == [Point(x, low), Point(x, high), Point(x1, 0)]
    ensures Merged([Point(x, low), Point(x2, 0)], [Point(x, high), Point(x1, 0)], 0, 0, 0)
         == [Point(x, high), Point(x1, 0)]
  {
    HiddenSecond([Point(x1, 0)], [Point(x2, 0)], high, low);
    HiddenFirst([Point(x, low), Point(x2, 0)], [Point(x1, 0)], 0, high);
    assert Merged([Point(x, high), Point(x1, 0)], [Point(x2, 0)], 0, low, low) == [Point(x, high), Point(x1, 0)];
  }
}
