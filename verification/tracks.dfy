/** The `Track` class: a simplified point sequence with its own limits. The
    file name it was parsed from is not modelled; a track is built from
    already-parsed points. */
module Tracks {
  import opened Wrappers
  import opened Points
  import opened Limits
  import RamerDouglasPeucker

  /** `Track::SPEED_FACTOR` */
  const SpeedFactor: real := 100.0

  datatype Track = Track(points: seq<Point>, limits: MinMax)

  /** The position limits of t are exactly the bounds of its points. */
  ghost predicate PositionLimitsExact(t: Track) {
    && IsLeast(t.limits.minX, Xs(t.points))
    && IsGreatest(t.limits.maxX, Xs(t.points))
    && IsLeast(t.limits.minY, Ys(t.points))
    && IsGreatest(t.limits.maxY, Ys(t.points))
  }

  /** The speed limits of t are exactly the bounds of its points' speeds. */
  ghost predicate SpeedLimitsExact(t: Track) {
    IsLeast(t.limits.minSpeed, Speeds(t.points)) && IsGreatest(t.limits.maxSpeed, Speeds(t.points))
  }

  /** `Track#set_min_max_pos`: one pass over the points updating the four
      position limits. Started from nil limits (as the constructor does) it
      yields exactly the bounds of the points. */
  function SetMinMaxPos(t: Track): (r: Track)
    ensures r.points == t.points
    ensures r.limits.minSpeed == t.limits.minSpeed && r.limits.maxSpeed == t.limits.maxSpeed
    ensures PositionUnset(t.limits) ==> PositionLimitsExact(r)
    ensures |t.points| > 0 ==> PositionSet(r.limits)
  {
    var xs := Xs(t.points);
    var ys := Ys(t.points);
    t.(limits := t.limits.(
      minX := FoldMin(t.limits.minX, xs), maxX := FoldMax(t.limits.maxX, xs),
      minY := FoldMin(t.limits.minY, ys), maxY := FoldMax(t.limits.maxY, ys)))
  }

  /** `Track#set_min_max_speed`, the same fold over the speeds. */
  function SetMinMaxSpeed(t: Track): (r: Track)
    ensures r.points == t.points
    ensures r.limits.(minSpeed := None, maxSpeed := None) == t.limits.(minSpeed := None, maxSpeed := None)
    ensures SpeedUnset(t.limits) ==> SpeedLimitsExact(r)
    ensures |t.points| > 0 ==> SpeedSet(r.limits)
  {
    var ss := Speeds(t.points);
    t.(limits := t.limits.(minSpeed := FoldMin(t.limits.minSpeed, ss), maxSpeed := FoldMax(t.limits.maxSpeed, ss)))
  }

  /** sqrt is a square root on the non-negative reals (Ruby's Math.sqrt). */
  ghost predicate IsSqrt(sqrt: real -> real) {
    forall v :: v >= 0.0 ==> sqrt(v) >= 0.0 && sqrt(v) * sqrt(v) == v
  }

  /** Time from prev to curr, in seconds. */
  function Elapsed(prev: Point, curr: Point): real {
    curr.at - prev.at
  }

  /** Euclidean distance from prev to curr (line 131). */
  function Distance(prev: Point, curr: Point, sqrt: real -> real): real {
    sqrt(Sq(prev.x - curr.x) + Sq(prev.y - curr.y))
  }

  /** `dist / time * SPEED_FACTOR` (line 133). */
  function SegmentSpeed(prev: Point, curr: Point, sqrt: real -> real): real
    requires Elapsed(prev, curr) > 0.0
  {
    Distance(prev, curr, sqrt) / Elapsed(prev, curr) * SpeedFactor
  }

  /** Lines 130-133 for one index of the array being updated in place. */
  function UpdateSpeedAt(pts: seq<Point>, index: nat, sqrt: real -> real): seq<Point>
    requires index < |pts|
  {
    if index > 0 && Elapsed(pts[index - 1], pts[index]) > 0.0
    then pts[index := pts[index].(speed := SegmentSpeed(pts[index - 1], pts[index], sqrt))]
    else pts
  }

  /** Elapsed time and speed of a segment depend only on coordinates and times. */
  lemma SegmentDependsOnPosition(a: Point, b: Point, c: Point, d: Point, sqrt: real -> real)
    requires SamePosition(a, c) && SamePosition(b, d)
    ensures Elapsed(a, b) == Elapsed(c, d)
    ensures Elapsed(a, b) > 0.0 ==> SegmentSpeed(a, b, sqrt) == SegmentSpeed(c, d, sqrt)
  {
    assert Distance(a, b, sqrt) == Distance(c, d, sqrt);
  }

  /** One in-place step changes no coordinates or times. */
  lemma UpdateKeepsSegments(pts: seq<Point>, index: nat, sqrt: real -> real)
    requires index < |pts|
    ensures var next := UpdateSpeedAt(pts, index, sqrt);
      && |next| == |pts|
      && (forall i :: 0 <= i < |pts| ==> SamePosition(next[i], pts[i]))
      && (forall i :: 0 <= i < |pts| && i != index ==> next[i] == pts[i])
      && (forall i :: 0 < i < |pts| ==> Elapsed(next[i - 1], next[i]) == Elapsed(pts[i - 1], pts[i]))
      && (forall i :: 0 < i < |pts| && Elapsed(pts[i - 1], pts[i]) > 0.0 ==>
            SegmentSpeed(next[i - 1], next[i], sqrt) == SegmentSpeed(pts[i - 1], pts[i], sqrt))
  {
    var next := UpdateSpeedAt(pts, index, sqrt);
    forall i | 0 < i < |pts|
      ensures Elapsed(next[i - 1], next[i]) == Elapsed(pts[i - 1], pts[i])
      ensures Elapsed(pts[i - 1], pts[i]) > 0.0 ==>
        SegmentSpeed(next[i - 1], next[i], sqrt) == SegmentSpeed(pts[i - 1], pts[i], sqrt)
    {
      SegmentDependsOnPosition(next[i - 1], next[i], pts[i - 1], pts[i], sqrt);
    }
  }

  /** The `each_index` loop of `compute_speed` from `index` on, updating the
      array in place. Since only speeds change, each step reads the same
      coordinates and times as the original points, so every point from
      `index` on gets its speed from its original predecessor. */
  function ComputeSpeedFrom(pts: seq<Point>, index: nat, sqrt: real -> real): (r: seq<Point>)
    requires index <= |pts|
    decreases |pts| - index
    ensures |r| == |pts|
    ensures forall i :: 0 <= i < |pts| ==> SamePosition(r[i], pts[i])
    ensures forall i :: 0 <= i < |pts| && (i < index || i == 0) ==> r[i] == pts[i]
    ensures forall i :: 0 < i < |pts| && index <= i && Elapsed(pts[i - 1], pts[i]) <= 0.0 ==> r[i] == pts[i]
    ensures forall i :: 0 < i < |pts| && index <= i && Elapsed(pts[i - 1], pts[i]) > 0.0 ==>
      r[i].speed == SegmentSpeed(pts[i - 1], pts[i], sqrt)
  {
    if index == |pts| then pts
    else
      var next := UpdateSpeedAt(pts, index, sqrt);
      UpdateKeepsSegments(pts, index, sqrt);
      ComputeSpeedFrom(next, index + 1, sqrt)
  }

  /** `Track#compute_speed`: coordinates and times stay, point 0 and every
      point reached in non-positive time keep their speed, and every other
      point gets distance / elapsed time * 100 from its predecessor. */
  function ComputeSpeed(pts: seq<Point>, sqrt: real -> real): (r: seq<Point>)
    ensures |r| == |pts|
    ensures forall i :: 0 <= i < |pts| ==> SamePosition(r[i], pts[i])
    ensures |pts| > 0 ==> r[0] == pts[0]
    ensures forall i :: 0 < i < |pts| && Elapsed(pts[i - 1], pts[i]) <= 0.0 ==> r[i] == pts[i]
    ensures forall i :: 0 < i < |pts| && Elapsed(pts[i - 1], pts[i]) > 0.0 ==>
      r[i].speed == SegmentSpeed(pts[i - 1], pts[i], sqrt)
  {
    ComputeSpeedFrom(pts, 0, sqrt)
  }

  /** Points shifted by (dx, dy). */
  function TranslatePoints(pts: seq<Point>, dx: real, dy: real): (r: seq<Point>)
    ensures |r| == |pts|
    ensures forall i :: 0 <= i < |pts| ==>
      r[i] == pts[i].(x := pts[i].x - dx, y := pts[i].y - dy)
  {
    seq(|pts|, i requires 0 <= i < |pts| => pts[i].(x := pts[i].x - dx, y := pts[i].y - dy))
  }

  /** Points mirrored about y = maxY / 2. */
  function InvertPoints(pts: seq<Point>, maxY: real): (r: seq<Point>)
    ensures |r| == |pts|
    ensures forall i :: 0 <= i < |pts| ==> r[i] == pts[i].(y := maxY - pts[i].y)
  {
    seq(|pts|, i requires 0 <= i < |pts| => pts[i].(y := maxY - pts[i].y))
  }

  /** `Track#translate(min_x, min_y)`: shifts the points and the position
      limits alike, so exact limits stay exact; speeds, times and speed
      limits are untouched. Ruby fails on nil limits. */
  function Translate(t: Track, minX: real, minY: real): (r: Track)
    requires PositionSet(t.limits)
    ensures r.points == TranslatePoints(t.points, minX, minY)
    ensures PositionSet(r.limits)
    ensures r.limits.minSpeed == t.limits.minSpeed && r.limits.maxSpeed == t.limits.maxSpeed
    ensures PositionLimitsExact(t) ==> PositionLimitsExact(r)
    ensures Speeds(r.points) == Speeds(t.points)
  {
    var r := Track(TranslatePoints(t.points, minX, minY), t.limits.(
      minX := Some(t.limits.minX.value - minX), maxX := Some(t.limits.maxX.value - minX),
      minY := Some(t.limits.minY.value - minY), maxY := Some(t.limits.maxY.value - minY)));
    LeastShifted(t.limits.minX, Xs(t.points), Xs(r.points), minX);
    GreatestShifted(t.limits.maxX, Xs(t.points), Xs(r.points), minX);
    LeastShifted(t.limits.minY, Ys(t.points), Ys(r.points), minY);
    GreatestShifted(t.limits.maxY, Ys(t.points), Ys(r.points), minY);
    assert Speeds(r.points) == Speeds(t.points);
    r
  }

  /** `Track#invert_y(max_y)`: y becomes max_y - y. The track's own limits
      are left as they were, so its y limits no longer describe its points. */
  function InvertY(t: Track, maxY: real): (r: Track)
    ensures r.limits == t.limits
    ensures r.points == InvertPoints(t.points, maxY)
    ensures Xs(r.points) == Xs(t.points)
    ensures Speeds(r.points) == Speeds(t.points)
  {
    var r := Track(InvertPoints(t.points, maxY), t.limits);
    assert Xs(r.points) == Xs(t.points);
    assert Speeds(r.points) == Speeds(t.points);
    r
  }

  /** Running `compute_speed` a second time changes nothing: speeds are read
      off coordinates and times only. */
  lemma ComputeSpeedIdempotent(pts: seq<Point>, sqrt: real -> real)
    ensures ComputeSpeed(ComputeSpeed(pts, sqrt), sqrt) == ComputeSpeed(pts, sqrt)
  {
    var r1 := ComputeSpeed(pts, sqrt);
    var r2 := ComputeSpeed(r1, sqrt);
    forall i | 0 <= i < |pts|
      ensures r2[i] == r1[i]
    {
      if i > 0 {
        SegmentDependsOnPosition(r1[i - 1], r1[i], pts[i - 1], pts[i], sqrt);
      }
    }
  }

  /** With a genuine square root, speeds that start non-negative stay
      non-negative. */
  lemma ComputeSpeedNonNegative(pts: seq<Point>, sqrt: real -> real)
    requires IsSqrt(sqrt)
    requires forall i :: 0 <= i < |pts| ==> pts[i].speed >= 0.0
    ensures forall i :: 0 <= i < |pts| ==> ComputeSpeed(pts, sqrt)[i].speed >= 0.0
  {
    var r := ComputeSpeed(pts, sqrt);
    forall i | 0 <= i < |pts|
      ensures r[i].speed >= 0.0
    {
      if i > 0 && Elapsed(pts[i - 1], pts[i]) > 0.0 {
        var d := Distance(pts[i - 1], pts[i], sqrt);
        var e := Elapsed(pts[i - 1], pts[i]);
        assert d >= 0.0;
        RamerDouglasPeucker.DivNonNegative(d, e);
        var q := d / e;
        assert r[i].speed == q * SpeedFactor;
      }
    }
  }

  /** Shifting both ends of a segment leaves its distance unchanged. */
  lemma DistanceTranslated(a: Point, b: Point, dx: real, dy: real, sqrt: real -> real)
    ensures Distance(a.(x := a.x - dx, y := a.y - dy), b.(x := b.x - dx, y := b.y - dy), sqrt)
         == Distance(a, b, sqrt)
  {
    assert (a.x - dx) - (b.x - dx) == a.x - b.x;
    assert (a.y - dy) - (b.y - dy) == a.y - b.y;
  }

  /** Mirroring both ends of a segment leaves its distance unchanged. */
  lemma DistanceInverted(a: Point, b: Point, maxY: real, sqrt: real -> real)
    ensures Distance(a.(y := maxY - a.y), b.(y := maxY - b.y), sqrt) == Distance(a, b, sqrt)
  {
    assert (maxY - a.y) - (maxY - b.y) == -(a.y - b.y);
    SqNegate(a.y - b.y);
  }

  /** The constructor computes speeds before the frame is normalised; doing
      it after a translation gives the same speeds. */
  lemma ComputeSpeedCommutesWithTranslate(pts: seq<Point>, dx: real, dy: real, sqrt: real -> real)
    ensures ComputeSpeed(TranslatePoints(pts, dx, dy), sqrt) == TranslatePoints(ComputeSpeed(pts, sqrt), dx, dy)
  {
    var q := TranslatePoints(pts, dx, dy);
    var a := ComputeSpeed(q, sqrt);
    var b := TranslatePoints(ComputeSpeed(pts, sqrt), dx, dy);
    forall i | 0 <= i < |pts|
      ensures a[i] == b[i]
    {
      if i > 0 {
        DistanceTranslated(pts[i - 1], pts[i], dx, dy, sqrt);
      }
    }
  }

  /** Likewise for the vertical flip. */
  lemma ComputeSpeedCommutesWithInvert(pts: seq<Point>, maxY: real, sqrt: real -> real)
    ensures ComputeSpeed(InvertPoints(pts, maxY), sqrt) == InvertPoints(ComputeSpeed(pts, sqrt), maxY)
  {
    var q := InvertPoints(pts, maxY);
    var a := ComputeSpeed(q, sqrt);
    var b := InvertPoints(ComputeSpeed(pts, sqrt), maxY);
    forall i | 0 <= i < |pts|
      ensures a[i] == b[i]
    {
      if i > 0 {
        DistanceInverted(pts[i - 1], pts[i], maxY, sqrt);
      }
    }
  }

  /** Flipping twice about the same max_y restores the track. */
  lemma InvertYInvolutive(t: Track, maxY: real)
    ensures InvertY(InvertY(t, maxY), maxY) == t
  {
    var r := InvertY(InvertY(t, maxY), maxY);
    assert r.points == t.points;
  }

  /** The flip keeps x and reverses the order of y: a point below another
      ends up above it. Points in [0, max_y] stay in [0, max_y]. */
  lemma InvertYReversesOrder(t: Track, maxY: real)
    ensures var r := InvertY(t, maxY);
      forall i, j :: 0 <= i < |t.points| && 0 <= j < |t.points| ==>
        (t.points[i].y < t.points[j].y <==> r.points[i].y > r.points[j].y)
    ensures var r := InvertY(t, maxY);
      forall i :: 0 <= i < |t.points| && 0.0 <= t.points[i].y <= maxY ==>
        0.0 <= r.points[i].y <= maxY && r.points[i].x == t.points[i].x
  {
  }

  /** Lines 83-89: parse (given), simplify with the default tolerance, set
      the position limits, compute speeds, set the speed limits. */
  function NewTrack(raw: seq<Point>, sqrt: real -> real): (t: Track)
    requires |raw| >= 1
    ensures |t.points| >= 2
    ensures PositionSet(t.limits) && SpeedSet(t.limits)
    ensures PositionLimitsExact(t) && SpeedLimitsExact(t)
  {
    var t0 := Track(RamerDouglasPeucker.Simplify(raw, RamerDouglasPeucker.DefaultEpsilon), Unset);
    var t1 := SetMinMaxPos(t0);
    var t2 := t1.(points := ComputeSpeed(t1.points, sqrt));
    assert Xs(t2.points) == Xs(t1.points) && Ys(t2.points) == Ys(t1.points);
    SetMinMaxSpeed(t2)
  }
}
