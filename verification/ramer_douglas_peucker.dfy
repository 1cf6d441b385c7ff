/** `RamerDouglasPeucker.simplify`: polyline simplification that also writes
    the mean speed of every collapsed range onto the range's last point.

    The Ruby code recurses on array slices that share their Point objects, so
    a speed written by the left half is visible to the right half. Here the
    points are an immutable sequence, a call works on the index range
    [lo, hi] of it, and the current speed of every point is a sequence that
    is threaded through the calls, left half first. */
module RamerDouglasPeucker {
  import opened Points

  /** The tolerance `simplify` uses when none is given. */
  const DefaultEpsilon: real := 0.5

  /** Numerator of the distance from p to the line through a and b. */
  function Cross(a: Point, b: Point, p: Point): real {
    (p.x - a.x) * (b.y - a.y) - (p.y - a.y) * (b.x - a.x)
  }

  /** Squared length of the chord from a to b. */
  function ChordLength2(a: Point, b: Point): (r: real)
    ensures r >= 0.0
  {
    Sq(b.x - a.x) + Sq(b.y - a.y)
  }

  /** Square of `calculate_distance_from_line(a, b, p)`. For a zero-length
      chord Ruby divides 0.0 by 0.0 and gets NaN, which loses every `>`
      comparison and so acts exactly like distance 0. */
  function Distance2(a: Point, b: Point, p: Point): (d: real)
    ensures d >= 0.0
    ensures ChordLength2(a, b) > 0.0 ==> d * ChordLength2(a, b) == Sq(Cross(a, b, p))
    ensures Cross(a, b, p) == 0.0 ==> d == 0.0
    ensures d == 0.0 ==> Cross(a, b, p) == 0.0 || ChordLength2(a, b) == 0.0
  {
    var len2 := ChordLength2(a, b);
    if len2 == 0.0 then 0.0
    else
      var c2 := Sq(Cross(a, b, p));
      assert c2 / len2 >= 0.0 by { DivNonNegative(c2, len2); }
      SqZero(Cross(a, b, p));
      c2 / len2
  }

  /** Only 0 squares to 0. */
  lemma SqZero(v: real)
    ensures Sq(v) == 0.0 ==> v == 0.0
  {
    if v != 0.0 {
      SqPositive(v);
    }
  }

  lemma DivNonNegative(n: real, d: real)
    requires n >= 0.0 && d > 0.0
    ensures n / d >= 0.0
  {
  }

  /** Both ends of the chord lie on it. */
  lemma EndpointsOnChord(a: Point, b: Point)
    ensures Distance2(a, b, a) == 0.0
    ensures Distance2(a, b, b) == 0.0
  {
    assert Cross(a, b, b) == (b.x - a.x) * (b.y - a.y) - (b.y - a.y) * (b.x - a.x);
  }

  /** Squared distance of point i of pts from the chord of the range [lo, hi]. */
  function RangeDistance2(pts: seq<Point>, lo: nat, hi: nat, i: nat): real
    requires lo <= hi < |pts| && i < |pts|
  {
    Distance2(pts[lo], pts[hi], pts[i])
  }

  /** The scan state `index, dmax` of lines 16-26 (dmax squared). */
  datatype Farthest = Farthest(index: nat, dmax2: real)

  /** The scan of lines 16-26 after visiting i = lo+1 .. j: starts from
      `index = 0, dmax = 0` (index relative to lo) and moves to i only when
      its distance is strictly greater. The result is the lowest index that
      attains the maximum, or lo when every distance is 0. */
  function Scan(pts: seq<Point>, lo: nat, hi: nat, j: nat): (f: Farthest)
    requires lo <= j <= hi < |pts|
    decreases j - lo
    ensures lo <= f.index <= j
    ensures f.dmax2 >= 0.0
    ensures f.index == lo <==> f.dmax2 == 0.0
    ensures forall i :: lo < i <= j ==> RangeDistance2(pts, lo, hi, i) <= f.dmax2
    ensures f.index != lo ==> RangeDistance2(pts, lo, hi, f.index) == f.dmax2
    ensures forall i :: lo < i < f.index ==> RangeDistance2(pts, lo, hi, i) < f.dmax2
  {
    if j == lo then Farthest(lo, 0.0)
    else
      var f := Scan(pts, lo, hi, j - 1);
      var d := RangeDistance2(pts, lo, hi, j);
      if d > f.dmax2 then Farthest(j, d) else f
  }

  /** The complete scan over lo+1 .. hi. A positive maximum is attained
      strictly inside the range, since both chord ends have distance 0. */
  function FarthestPoint(pts: seq<Point>, lo: nat, hi: nat): (f: Farthest)
    requires lo <= hi < |pts|
    ensures f.dmax2 >= 0.0
    ensures f.dmax2 == 0.0 ==> f.index == lo
    ensures f.dmax2 > 0.0 ==> lo < f.index < hi
    ensures forall i :: lo <= i <= hi ==> RangeDistance2(pts, lo, hi, i) <= f.dmax2
    ensures f.dmax2 > 0.0 ==> RangeDistance2(pts, lo, hi, f.index) == f.dmax2
    ensures forall i :: lo < i < f.index ==> RangeDistance2(pts, lo, hi, i) < f.dmax2
  {
    EndpointsOnChord(pts[lo], pts[hi]);
    Scan(pts, lo, hi, hi)
  }

  /** `points.inject(0) { |t, p| t + p.speed }` */
  function Sum(s: seq<real>): real
    decreases |s|
  {
    if |s| == 0 then 0.0 else s[0] + Sum(s[1..])
  }

  /** Line 33: the arithmetic mean of the speeds of a range. */
  function Mean(s: seq<real>): real
    requires |s| > 0
  {
    Sum(s) / (|s| as real)
  }

  /** Retained original indices and the speeds of all points afterwards. */
  datatype Simplified = Simplified(kept: seq<nat>, speeds: seq<real>)

  /** The range [lo, hi] needs splitting: its farthest point is at distance
      at least epsilon from the chord (line 28, compared squared:
      epsilon2 = Sq(epsilon)). */
  predicate Splits(pts: seq<Point>, lo: nat, hi: nat, epsilon2: real)
    requires lo <= hi < |pts|
  {
    FarthestPoint(pts, lo, hi).dmax2 >= epsilon2
  }

  /** `simplify(points[lo..hi], epsilon)` with the current speeds `speeds`,
      where epsilon2 = Sq(epsilon). epsilon must be positive: with
      epsilon <= 0 and a one-point range the Ruby code calls itself on the
      same range forever. */
  function SimplifyRange(pts: seq<Point>, speeds: seq<real>, lo: nat, hi: nat, epsilon2: real): (r: Simplified)
    requires epsilon2 > 0.0
    requires lo <= hi < |pts| == |speeds|
    decreases hi - lo
    ensures |r.speeds| == |speeds|
    ensures |r.kept| >= 2
    ensures r.kept[0] == lo && r.kept[|r.kept| - 1] == hi
    ensures forall k :: 0 <= k < |r.kept| ==> lo <= r.kept[k] <= hi
  {
    if Splits(pts, lo, hi, epsilon2) then
      var index := FarthestPoint(pts, lo, hi).index;
      var left := SimplifyRange(pts, speeds, lo, index, epsilon2);
      var right := SimplifyRange(pts, left.speeds, index, hi, epsilon2);
      Simplified(left.kept[..|left.kept| - 1] + right.kept, right.speeds)
    else
      Simplified([lo, hi], speeds[hi := Mean(speeds[lo..hi + 1])])
  }

  /** Every index in s is strictly larger than the ones before it. */
  ghost predicate StrictlyIncreasing(s: seq<nat>) {
    forall i, j :: 0 <= i < j < |s| ==> s[i] < s[j]
  }

  /** Every point strictly inside the range is closer than epsilon to the
      range's chord: the condition under which line 28 collapses the range. */
  ghost predicate WithinTolerance(pts: seq<Point>, lo: nat, hi: nat, epsilon2: real)
    requires lo <= hi < |pts|
  {
    forall i :: lo < i < hi ==> RangeDistance2(pts, lo, hi, i) < epsilon2
  }

  /** Every point strictly between indices a and b is closer than epsilon
      to the chord from point a to point b. */
  ghost predicate ChordCovers(pts: seq<Point>, a: nat, b: nat, epsilon2: real) {
    forall j :: a < j < b < |pts| ==> Distance2(pts[a], pts[b], pts[j]) < epsilon2
  }

  /** Every dropped point lies closer than epsilon to the chord between the
      two consecutive retained points that enclose it. */
  ghost predicate DroppedNearChord(pts: seq<Point>, kept: seq<nat>, epsilon2: real) {
    forall k :: 0 <= k < |kept| - 1 ==> ChordCovers(pts, kept[k], kept[k + 1], epsilon2)
  }

  /** The indices kept by a split are those of both halves: the left half's
      last index is the right half's first. */
  lemma SplitKept(left: seq<nat>, right: seq<nat>, x: nat)
    requires |left| >= 1 && |right| >= 1 && left[|left| - 1] == right[0]
    ensures x in left[..|left| - 1] + right <==> x in left || x in right
  {
    if x in left {
      var p :| 0 <= p < |left| && left[p] == x;
      if p < |left| - 1 {
        assert (left[..|left| - 1] + right)[p] == x;
      } else {
        assert (left[..|left| - 1] + right)[|left| - 1] == x;
      }
    }
  }

  /** A range of at least two points keeps strictly increasing indices, so
      the result is a subsequence of the input; a one-point range yields its
      point twice. */
  lemma {:induction false} KeptIncreasing(pts: seq<Point>, speeds: seq<real>, lo: nat, hi: nat, epsilon2: real)
    requires epsilon2 > 0.0
    requires lo <= hi < |pts| == |speeds|
    decreases hi - lo
    ensures lo == hi ==> SimplifyRange(pts, speeds, lo, hi, epsilon2).kept == [lo, lo]
    ensures lo < hi ==> StrictlyIncreasing(SimplifyRange(pts, speeds, lo, hi, epsilon2).kept)
  {
    var r := SimplifyRange(pts, speeds, lo, hi, epsilon2);
    if Splits(pts, lo, hi, epsilon2) {
      var index := FarthestPoint(pts, lo, hi).index;
      var left := SimplifyRange(pts, speeds, lo, index, epsilon2);
      var right := SimplifyRange(pts, left.speeds, index, hi, epsilon2);
      KeptIncreasing(pts, speeds, lo, index, epsilon2);
      KeptIncreasing(pts, left.speeds, index, hi, epsilon2);
      assert r.kept == left.kept[..|left.kept| - 1] + right.kept;
      JoinIncreasing(left.kept, right.kept, index);
    }
  }

  /** Joining an increasing left half ending at index with an increasing
      right half starting at index, dropping the shared index once, is
      increasing. */
  lemma JoinIncreasing(left: seq<nat>, right: seq<nat>, index: nat)
    requires |left| >= 2 && |right| >= 1
    requires left[|left| - 1] == index == right[0]
    requires StrictlyIncreasing(left) && StrictlyIncreasing(right)
    ensures StrictlyIncreasing(left[..|left| - 1] + right)
  {
    var a := left[..|left| - 1];
    var r := a + right;
    forall i, j | 0 <= i < j < |r|
      ensures r[i] < r[j]
    {
      if j < |a| {
        assert r[i] == left[i] && r[j] == left[j];
      } else if i >= |a| {
        assert r[i] == right[i - |a|] && r[j] == right[j - |a|];
      } else {
        assert r[i] == left[i] < left[|left| - 1] == index;
        assert r[j] == right[j - |a|] >= index;
      }
    }
  }

  /** Line 28 both ways: the range collapses to its two ends, with the mean
      of its current speeds written onto the last point (lines 33-35),
      exactly when every interior point is within epsilon of the chord;
      otherwise it splits and keeps at least three points. */
  lemma CollapseIffWithinTolerance(pts: seq<Point>, speeds: seq<real>, lo: nat, hi: nat, epsilon2: real)
    requires epsilon2 > 0.0
    requires lo <= hi < |pts| == |speeds|
    ensures WithinTolerance(pts, lo, hi, epsilon2) ==>
      SimplifyRange(pts, speeds, lo, hi, epsilon2)
        == Simplified([lo, hi], speeds[hi := Mean(speeds[lo..hi + 1])])
    ensures !WithinTolerance(pts, lo, hi, epsilon2) ==>
      |SimplifyRange(pts, speeds, lo, hi, epsilon2).kept| >= 3
  {
    var f := FarthestPoint(pts, lo, hi);
    if Splits(pts, lo, hi, epsilon2) {
      assert lo < f.index < hi;
      assert RangeDistance2(pts, lo, hi, f.index) >= epsilon2;
    }
  }

  /** The split point of line 28 is the lowest index attaining the maximum
      distance and lies strictly inside the range, so both recursive calls of
      lines 29-30 work on shorter ranges. */
  lemma SplitPointInterior(pts: seq<Point>, lo: nat, hi: nat, epsilon2: real)
    requires epsilon2 > 0.0
    requires lo <= hi < |pts|
    requires Splits(pts, lo, hi, epsilon2)
    ensures var k := FarthestPoint(pts, lo, hi).index;
      && lo < k < hi
      && RangeDistance2(pts, lo, hi, k) >= epsilon2
      && (forall i :: lo <= i <= hi ==> RangeDistance2(pts, lo, hi, i) <= RangeDistance2(pts, lo, hi, k))
      && (forall i :: lo < i < k ==> RangeDistance2(pts, lo, hi, i) < RangeDistance2(pts, lo, hi, k))
  {
  }

  /** Joining two halves that share their junction index keeps the
      property that dropped points are near their chords. */
  lemma DroppedNearChordJoin(pts: seq<Point>, left: seq<nat>, right: seq<nat>, epsilon2: real)
    requires |left| >= 1 && |right| >= 1 && left[|left| - 1] == right[0]
    requires DroppedNearChord(pts, left, epsilon2) && DroppedNearChord(pts, right, epsilon2)
    ensures DroppedNearChord(pts, left[..|left| - 1] + right, epsilon2)
  {
    var a := left[..|left| - 1];
    var r := a + right;
    forall k | 0 <= k < |r| - 1
      ensures ChordCovers(pts, r[k], r[k + 1], epsilon2)
    {
      if k + 1 < |a| {
        assert r[k] == left[k] && r[k + 1] == left[k + 1];
      } else if k + 1 == |a| {
        assert r[k] == left[k] && r[k + 1] == right[0] == left[k + 1];
      } else {
        assert r[k] == right[k - |a|] && r[k + 1] == right[k - |a| + 1];
      }
    }
  }

  /** Lines 28 and 32-35: every dropped point is within epsilon of the chord
      between the retained points around it. */
  lemma {:induction false} DroppedPointsNearChord(pts: seq<Point>, speeds: seq<real>, lo: nat, hi: nat, epsilon2: real)
    requires epsilon2 > 0.0
    requires lo <= hi < |pts| == |speeds|
    decreases hi - lo
    ensures DroppedNearChord(pts, SimplifyRange(pts, speeds, lo, hi, epsilon2).kept, epsilon2)
  {
    var r := SimplifyRange(pts, speeds, lo, hi, epsilon2);
    if Splits(pts, lo, hi, epsilon2) {
      var index := FarthestPoint(pts, lo, hi).index;
      var left := SimplifyRange(pts, speeds, lo, index, epsilon2);
      var right := SimplifyRange(pts, left.speeds, index, hi, epsilon2);
      DroppedPointsNearChord(pts, speeds, lo, index, epsilon2);
      DroppedPointsNearChord(pts, left.speeds, index, hi, epsilon2);
      DroppedNearChordJoin(pts, left.kept, right.kept, epsilon2);
      assert r.kept == left.kept[..|left.kept| - 1] + right.kept;
    } else {
      assert r.kept == [lo, hi];
      forall j | lo < j < hi
        ensures Distance2(pts[lo], pts[hi], pts[j]) < epsilon2
      {
        assert RangeDistance2(pts, lo, hi, j) <= FarthestPoint(pts, lo, hi).dmax2;
      }
      assert ChordCovers(pts, r.kept[0], r.kept[1], epsilon2);
    }
  }

  /** Lines 33-35 and the sharing of the split point (29-31): only points in
      (lo, hi] can get a new speed, the first point of the range never does,
      and every point whose speed changes is a retained one. */
  lemma SpeedWrites(pts: seq<Point>, speeds: seq<real>, lo: nat, hi: nat, epsilon2: real)
    requires epsilon2 > 0.0
    requires lo <= hi < |pts| == |speeds|
    ensures var r := SimplifyRange(pts, speeds, lo, hi, epsilon2);
      forall j :: 0 <= j < |speeds| && (j <= lo || hi < j) ==> r.speeds[j] == speeds[j]
    ensures var r := SimplifyRange(pts, speeds, lo, hi, epsilon2);
      forall j :: 0 <= j < |speeds| && r.speeds[j] != speeds[j] ==> j in r.kept
  {
    SpeedsOutsideKept(pts, speeds, lo, hi, epsilon2);
    ChangedSpeedsRetained(pts, speeds, lo, hi, epsilon2);
  }

  /** Speeds at or before the first point of the range, and after its last
      point, are never written. */
  lemma {:induction false} SpeedsOutsideKept(pts: seq<Point>, speeds: seq<real>, lo: nat, hi: nat, epsilon2: real)
    requires epsilon2 > 0.0
    requires lo <= hi < |pts| == |speeds|
    decreases hi - lo
    ensures var r := SimplifyRange(pts, speeds, lo, hi, epsilon2);
      forall j :: 0 <= j < |speeds| && (j <= lo || hi < j) ==> r.speeds[j] == speeds[j]
  {
    var r := SimplifyRange(pts, speeds, lo, hi, epsilon2);
    if Splits(pts, lo, hi, epsilon2) {
      var index := FarthestPoint(pts, lo, hi).index;
      var left := SimplifyRange(pts, speeds, lo, index, epsilon2);
      var right := SimplifyRange(pts, left.speeds, index, hi, epsilon2);
      SpeedsOutsideKept(pts, speeds, lo, index, epsilon2);
      SpeedsOutsideKept(pts, left.speeds, index, hi, epsilon2);
      assert r.speeds == right.speeds;
      forall j | 0 <= j < |speeds| && (j <= lo || hi < j)
        ensures r.speeds[j] == speeds[j]
      {
        assert left.speeds[j] == speeds[j];
        assert right.speeds[j] == left.speeds[j];
      }
    } else if lo == hi {
      assert speeds[lo..hi + 1] == [speeds[lo]];
      assert Sum([speeds[lo]]) == speeds[lo] + Sum([]);
    }
  }

  /** Every point whose speed changes is a retained one. */
  lemma {:induction false} ChangedSpeedsRetained(pts: seq<Point>, speeds: seq<real>, lo: nat, hi: nat, epsilon2: real)
    requires epsilon2 > 0.0
    requires lo <= hi < |pts| == |speeds|
    decreases hi - lo
    ensures var r := SimplifyRange(pts, speeds, lo, hi, epsilon2);
      forall j :: 0 <= j < |speeds| && r.speeds[j] != speeds[j] ==> j in r.kept
  {
    var r := SimplifyRange(pts, speeds, lo, hi, epsilon2);
    if Splits(pts, lo, hi, epsilon2) {
      var index := FarthestPoint(pts, lo, hi).index;
      var left := SimplifyRange(pts, speeds, lo, index, epsilon2);
      var right := SimplifyRange(pts, left.speeds, index, hi, epsilon2);
      ChangedSpeedsRetained(pts, speeds, lo, index, epsilon2);
      ChangedSpeedsRetained(pts, left.speeds, index, hi, epsilon2);
      assert r.speeds == right.speeds;
      assert r.kept == left.kept[..|left.kept| - 1] + right.kept;
      forall j | 0 <= j < |speeds| && r.speeds[j] != speeds[j]
        ensures j in r.kept
      {
        assert left.speeds[j] != speeds[j] || right.speeds[j] != left.speeds[j];
        SplitKept(left.kept, right.kept, j);
      }
    } else {
      assert r.kept == [lo, hi];
    }
  }

  /** The sum of n values in [a, b] lies in [n * a, n * b]. */
  lemma {:induction false} SumBounds(s: seq<real>, a: real, b: real)
    requires forall i :: 0 <= i < |s| ==> a <= s[i] <= b
    decreases |s|
    ensures (|s| as real) * a <= Sum(s) <= (|s| as real) * b
  {
    if |s| > 0 {
      SumBounds(s[1..], a, b);
      assert (|s| as real) * a == ((|s| - 1) as real) * a + a;
      assert (|s| as real) * b == ((|s| - 1) as real) * b + b;
    }
  }

  /** The mean of values in [a, b] lies in [a, b]. */
  lemma MeanBounds(s: seq<real>, a: real, b: real)
    requires |s| > 0
    requires forall i :: 0 <= i < |s| ==> a <= s[i] <= b
    ensures a <= Mean(s) <= b
  {
    SumBounds(s, a, b);
    var n := |s| as real;
    var m := Mean(s);
    assert m * n == Sum(s);
    assert (m - a) * n >= 0.0;
    assert (b - m) * n >= 0.0;
  }

  /** Averaging never leaves the range of the current speeds: when every
      speed in [lo, hi] lies in [a, b], it still does afterwards. With
      a = b = 0 this says that the all-zero speeds a freshly parsed track
      starts with stay zero. */
  lemma {:induction false} SpeedsStayWithin(pts: seq<Point>, speeds: seq<real>, lo: nat, hi: nat, epsilon2: real, a: real, b: real)
    requires epsilon2 > 0.0
    requires lo <= hi < |pts| == |speeds|
    requires forall j :: lo <= j <= hi ==> a <= speeds[j] <= b
    decreases hi - lo
    ensures var r := SimplifyRange(pts, speeds, lo, hi, epsilon2);
      forall j :: lo <= j <= hi ==> a <= r.speeds[j] <= b
  {
    if Splits(pts, lo, hi, epsilon2) {
      var index := FarthestPoint(pts, lo, hi).index;
      var left := SimplifyRange(pts, speeds, lo, index, epsilon2);
      SpeedsStayWithin(pts, speeds, lo, index, epsilon2, a, b);
      SpeedWrites(pts, speeds, lo, index, epsilon2);
      forall j | index <= j <= hi ensures a <= left.speeds[j] <= b {
        if j == index {
          assert lo <= j <= index;
        } else {
          assert index < j < |speeds|;
          assert left.speeds[j] == speeds[j];
        }
      }
      SpeedsStayWithin(pts, left.speeds, index, hi, epsilon2, a, b);
      SpeedWrites(pts, left.speeds, index, hi, epsilon2);
      var right := SimplifyRange(pts, left.speeds, index, hi, epsilon2);
      assert SimplifyRange(pts, speeds, lo, hi, epsilon2).speeds == right.speeds;
      forall j | lo <= j < index ensures a <= right.speeds[j] <= b {
        assert right.speeds[j] == left.speeds[j];
      }
    } else {
      var s := speeds[lo..hi + 1];
      forall i | 0 <= i < |s| ensures a <= s[i] <= b {
        assert s[i] == speeds[lo + i];
      }
      MeanBounds(s, a, b);
    }
  }

  /** A larger tolerance keeps a subset of the indices a smaller one keeps:
      the split point of a range does not depend on epsilon, so every split
      made under the larger tolerance is also made under the smaller one.
      Speeds do not influence which points are kept. */
  lemma {:induction false} KeptMonotoneInTolerance(pts: seq<Point>, speeds1: seq<real>, speeds2: seq<real>, lo: nat, hi: nat, epsilon2a: real, epsilon2b: real)
    requires 0.0 < epsilon2a <= epsilon2b
    requires lo <= hi < |pts| == |speeds1| == |speeds2|
    decreases hi - lo
    ensures forall x :: x in SimplifyRange(pts, speeds2, lo, hi, epsilon2b).kept ==>
                        x in SimplifyRange(pts, speeds1, lo, hi, epsilon2a).kept
  {
    var r1 := SimplifyRange(pts, speeds1, lo, hi, epsilon2a);
    var r2 := SimplifyRange(pts, speeds2, lo, hi, epsilon2b);
    if Splits(pts, lo, hi, epsilon2b) {
      assert Splits(pts, lo, hi, epsilon2a);
      var index := FarthestPoint(pts, lo, hi).index;
      var left1 := SimplifyRange(pts, speeds1, lo, index, epsilon2a);
      var right1 := SimplifyRange(pts, left1.speeds, index, hi, epsilon2a);
      var left2 := SimplifyRange(pts, speeds2, lo, index, epsilon2b);
      var right2 := SimplifyRange(pts, left2.speeds, index, hi, epsilon2b);
      KeptMonotoneInTolerance(pts, speeds1, speeds2, lo, index, epsilon2a, epsilon2b);
      KeptMonotoneInTolerance(pts, left1.speeds, left2.speeds, index, hi, epsilon2a, epsilon2b);
      assert r1.kept == left1.kept[..|left1.kept| - 1] + right1.kept;
      assert r2.kept == left2.kept[..|left2.kept| - 1] + right2.kept;
      forall x | x in r2.kept
        ensures x in r1.kept
      {
        SplitKept(left2.kept, right2.kept, x);
        SplitKept(left1.kept, right1.kept, x);
      }
    } else {
      assert r2.kept == [lo, hi];
      assert r1.kept[0] == lo && r1.kept[|r1.kept| - 1] == hi;
    }
  }

  /** A strictly increasing sequence whose elements all occur in another
      strictly increasing sequence is no longer than it. */
  lemma {:induction false} IncreasingSubsetNoLonger(s: seq<nat>, t: seq<nat>)
    requires StrictlyIncreasing(s) && StrictlyIncreasing(t)
    requires forall x :: x in s ==> x in t
    decreases |s|
    ensures |s| <= |t|
  {
    if |s| > 0 {
      var x := s[|s| - 1];
      assert x in s;
      var p :| 0 <= p < |t| && t[p] == x;
      var s' := s[..|s| - 1];
      forall y | y in s'
        ensures y in t[..p]
      {
        var i :| 0 <= i < |s'| && s'[i] == y;
        assert y == s[i] < x;
        assert y in s;
        var q :| 0 <= q < |t| && t[q] == y;
        assert q < p;
        assert t[..p][q] == y;
      }
      IncreasingSubsetNoLonger(s', t[..p]);
    }
  }

  /** The k-th element of a strictly increasing sequence bounded below by lo
      is at least lo + k. */
  lemma {:induction false} IncreasingLowerBound(s: seq<nat>, lo: nat, k: nat)
    requires StrictlyIncreasing(s)
    requires forall i :: 0 <= i < |s| ==> lo <= s[i]
    requires k < |s|
    decreases k
    ensures lo + k <= s[k]
  {
    if k > 0 {
      IncreasingLowerBound(s, lo, k - 1);
    }
  }

  /** A range whose ends have the same coordinates (a closed loop) always
      collapses to its two ends: the chord has length 0, every distance is
      NaN in Ruby (0 here) and never reaches epsilon. */
  lemma ClosedLoopCollapses(pts: seq<Point>, speeds: seq<real>, lo: nat, hi: nat, epsilon2: real)
    requires epsilon2 > 0.0
    requires lo <= hi < |pts| == |speeds|
    requires pts[lo].x == pts[hi].x && pts[lo].y == pts[hi].y
    ensures SimplifyRange(pts, speeds, lo, hi, epsilon2).kept == [lo, hi]
  {
    assert ChordLength2(pts[lo], pts[hi]) == 0.0;
    CollapseIffWithinTolerance(pts, speeds, lo, hi, epsilon2);
  }

  /** The retained points, each carrying the speed it ends up with. Taken
      at strictly increasing indices, they are a subsequence of the input
      that differs from it only in speeds. */
  function Select(points: seq<Point>, s: Simplified): (r: seq<Point>)
    requires |s.speeds| == |points|
    requires forall k :: 0 <= k < |s.kept| ==> s.kept[k] < |points|
    ensures |r| == |s.kept|
    ensures forall k :: 0 <= k < |r| ==> r[k] == points[s.kept[k]].(speed := s.speeds[s.kept[k]])
    ensures StrictlyIncreasing(s.kept) ==> SubsequenceOf(r, points)
  {
    var r := seq(|s.kept|, k requires 0 <= k < |s.kept| => points[s.kept[k]].(speed := s.speeds[s.kept[k]]));
    assert StrictlyIncreasing(s.kept) ==> SubsequenceOf(r, points) by {
      if StrictlyIncreasing(s.kept) {
        assert forall k :: 0 <= k < |s.kept| ==> s.kept[k] < |points| && SamePosition(r[k], points[s.kept[k]]);
      }
    }
    r
  }

  /** r is made of points of `points`, in their original order, with only
      their speeds possibly changed. */
  ghost predicate SubsequenceOf(r: seq<Point>, points: seq<Point>) {
    exists idx: seq<nat> ::
      && |idx| == |r|
      && StrictlyIncreasing(idx)
      && (forall k :: 0 <= k < |idx| ==> idx[k] < |points| && SamePosition(r[k], points[idx[k]]))
  }

  /** The simplifier's indices for the whole track. */
  function SimplifyIndices(points: seq<Point>, epsilon: real): (s: Simplified)
    requires |points| >= 1
    requires epsilon > 0.0
    ensures |s.speeds| == |points|
    ensures forall k :: 0 <= k < |s.kept| ==> s.kept[k] < |points|
  {
    SqPositive(epsilon);
    SimplifyRange(points, Speeds(points), 0, |points| - 1, Sq(epsilon))
  }

  /** `RamerDouglasPeucker.simplify(points, epsilon)` with epsilon > 0: the
      result has at least two points, starts with the untouched first point
      and ends at the last point's position; a one-point track yields its
      point twice. The points returned are those the call on the whole
      range (SimplifyIndices) retains, picked out by Select. */
  function Simplify(points: seq<Point>, epsilon: real): (r: seq<Point>)
    requires |points| >= 1
    requires epsilon > 0.0
    ensures |r| >= 2
    ensures r[0] == points[0]
    ensures SamePosition(r[|r| - 1], points[|points| - 1])
    ensures |points| == 1 ==> r == [points[0], points[0]]
  {
    SimplifyIndicesEnds(points, epsilon);
    SinglePointIndices(points, epsilon);
    Select(points, SimplifyIndices(points, epsilon))
  }

  /** The whole-track indices keep the first and the last point, and the
      first point's speed; one point is kept twice with its own speed. */
  lemma SimplifyIndicesEnds(points: seq<Point>, epsilon: real)
    requires |points| >= 1
    requires epsilon > 0.0
    ensures var s := SimplifyIndices(points, epsilon);
      && |s.kept| >= 2 && s.kept[0] == 0 && s.kept[|s.kept| - 1] == |points| - 1
      && s.speeds[0] == points[0].speed
  {
    SqPositive(epsilon);
    FirstSpeedKept(points, Speeds(points), |points| - 1, Sq(epsilon));
  }

  /** The first point of the whole range keeps its speed. */
  lemma FirstSpeedKept(pts: seq<Point>, speeds: seq<real>, hi: nat, epsilon2: real)
    requires epsilon2 > 0.0
    requires hi < |pts| == |speeds|
    ensures SimplifyRange(pts, speeds, 0, hi, epsilon2).speeds[0] == speeds[0]
  {
    SpeedWrites(pts, speeds, 0, hi, epsilon2);
  }

  /** A one-point track: the simplifier keeps its point twice and the mean
      of its single speed is that speed. */
  lemma SinglePointIndices(points: seq<Point>, epsilon: real)
    requires |points| >= 1
    requires epsilon > 0.0
    ensures |points| == 1 ==> SimplifyIndices(points, epsilon) == Simplified([0, 0], Speeds(points))
  {
    if |points| > 1 {
      return;
    }
    SqPositive(epsilon);
    var sp := Speeds(points);
    CollapseIffWithinTolerance(points, sp, 0, 0, Sq(epsilon));
    assert sp[0..1] == [sp[0]];
    assert Sum([sp[0]]) == sp[0] + Sum([]);
    assert sp[0 := Mean(sp[0..1])] == sp;
  }

  /** For two or more points the result is an order-preserving subsequence
      of the input, no longer than it. */
  lemma SimplifyIsSubsequence(points: seq<Point>, epsilon: real)
    requires |points| >= 2
    requires epsilon > 0.0
    ensures |Simplify(points, epsilon)| <= |points|
    ensures SubsequenceOf(Simplify(points, epsilon), points)
  {
    var n := |points|;
    var s := SimplifyIndices(points, epsilon);
    var r := Simplify(points, epsilon);
    SqPositive(epsilon);
    KeptIncreasing(points, Speeds(points), 0, n - 1, Sq(epsilon));
    IncreasingLowerBound(s.kept, 0, |s.kept| - 1);
    assert |s.kept| == |r|;
    forall k | 0 <= k < |s.kept|
      ensures s.kept[k] < |points| && SamePosition(r[k], points[s.kept[k]])
    {
    }
  }

  /** A track in timestamp order stays in timestamp order. */
  lemma SimplifyKeepsTimeOrder(points: seq<Point>, epsilon: real)
    requires |points| >= 1
    requires epsilon > 0.0
    requires Chronological(points)
    ensures Chronological(Simplify(points, epsilon))
  {
    var n := |points|;
    var s := SimplifyIndices(points, epsilon);
    SqPositive(epsilon);
    KeptIncreasing(points, Speeds(points), 0, n - 1, Sq(epsilon));
    assert forall i, j :: 0 <= i < j < |s.kept| ==> s.kept[i] <= s.kept[j];
    SelectKeepsTimeOrder(points, s);
  }

  /** Points picked at non-decreasing indices of a timestamp-ordered track
      are in timestamp order. */
  lemma SelectKeepsTimeOrder(points: seq<Point>, s: Simplified)
    requires |s.speeds| == |points|
    requires forall k :: 0 <= k < |s.kept| ==> s.kept[k] < |points|
    requires forall i, j :: 0 <= i < j < |s.kept| ==> s.kept[i] <= s.kept[j]
    requires Chronological(points)
    ensures Chronological(Select(points, s))
  {
    var r := Select(points, s);
    forall i, j | 0 <= i < j < |r|
      ensures r[i].at <= r[j].at
    {
      assert r[i].at == points[s.kept[i]].at && r[j].at == points[s.kept[j]].at;
    }
  }

  /** Lines 33-35 on the all-zero speeds every parsed point starts with
      (line 58): the averages are all 0, so every speed stays 0. */
  lemma SimplifyKeepsZeroSpeeds(points: seq<Point>, epsilon: real)
    requires |points| >= 1
    requires epsilon > 0.0
    requires forall i :: 0 <= i < |points| ==> points[i].speed == 0.0
    ensures forall k :: 0 <= k < |Simplify(points, epsilon)| ==> Simplify(points, epsilon)[k].speed == 0.0
  {
    var n := |points|;
    var s := SimplifyIndices(points, epsilon);
    SqPositive(epsilon);
    ZeroSpeedsStayZero(points, Speeds(points), n - 1, Sq(epsilon));
    var r := Simplify(points, epsilon);
    assert r == Select(points, s);
    forall k | 0 <= k < |r|
      ensures r[k].speed == 0.0
    {
      assert 0 <= s.kept[k] <= n - 1;
      assert r[k].speed == s.speeds[s.kept[k]];
    }
  }

  lemma ZeroSpeedsStayZero(pts: seq<Point>, speeds: seq<real>, hi: nat, epsilon2: real)
    requires epsilon2 > 0.0
    requires hi < |pts| == |speeds|
    requires forall j :: 0 <= j <= hi ==> speeds[j] == 0.0
    ensures forall j :: 0 <= j <= hi ==> SimplifyRange(pts, speeds, 0, hi, epsilon2).speeds[j] == 0.0
  {
    SpeedsStayWithin(pts, speeds, 0, hi, epsilon2, 0.0, 0.0);
  }

  /** A two-point track is not returned unchanged: its last point gets the
      mean of both speeds (lines 33-35 run with no interior point). */
  lemma SimplifyTwoPoints(points: seq<Point>, epsilon: real)
    requires |points| == 2
    requires epsilon > 0.0
    ensures Simplify(points, epsilon)
      == [points[0], points[1].(speed := (points[0].speed + points[1].speed) / 2.0)]
  {
    SqPositive(epsilon);
    var sp := Speeds(points);
    CollapseIffWithinTolerance(points, sp, 0, 1, Sq(epsilon));
    assert sp[0..2] == [points[0].speed, points[1].speed];
    assert Sum([points[1].speed]) == points[1].speed + Sum([]);
    assert Sum(sp[0..2]) == points[0].speed + Sum([points[1].speed]);
  }

  /** Raising epsilon never lengthens the result. */
  lemma SimplifyMonotoneInEpsilon(points: seq<Point>, epsilonA: real, epsilonB: real)
    requires |points| >= 1
    requires 0.0 < epsilonA <= epsilonB
    ensures |Simplify(points, epsilonB)| <= |Simplify(points, epsilonA)|
  {
    if |points| >= 2 {
      SqPositive(epsilonA);
      SqMonotone(epsilonA, epsilonB);
      KeptNoLongerInTolerance(points, Speeds(points), |points| - 1, Sq(epsilonA), Sq(epsilonB));
      assert |Simplify(points, epsilonA)| == |SimplifyIndices(points, epsilonA).kept|;
      assert |Simplify(points, epsilonB)| == |SimplifyIndices(points, epsilonB).kept|;
    }
  }

  /** Over a whole range of two or more points, a larger squared tolerance
      keeps no more indices. */
  lemma KeptNoLongerInTolerance(pts: seq<Point>, speeds: seq<real>, hi: nat, epsilon2a: real, epsilon2b: real)
    requires 0.0 < epsilon2a <= epsilon2b
    requires 0 < hi < |pts| == |speeds|
    ensures |SimplifyRange(pts, speeds, 0, hi, epsilon2b).kept| <= |SimplifyRange(pts, speeds, 0, hi, epsilon2a).kept|
  {
    var ka := SimplifyRange(pts, speeds, 0, hi, epsilon2a).kept;
    var kb := SimplifyRange(pts, speeds, 0, hi, epsilon2b).kept;
    KeptIncreasing(pts, speeds, 0, hi, epsilon2a);
    KeptIncreasing(pts, speeds, 0, hi, epsilon2b);
    KeptMonotoneInTolerance(pts, speeds, speeds, 0, hi, epsilon2a, epsilon2b);
    IncreasingSubsetNoLonger(kb, ka);
  }
}
