/** The script's top-level functions: `get_min_max_pos`, `translate`,
    `get_min_max_speed`, and the order in which the script runs them. The
    Ruby code keeps the global limits in a mutable hash; here they are a
    MinMax value passed in and returned. */
module MapGpx {
  import opened Wrappers
  import opened Points
  import opened Limits
  import opened Tracks
  import opened SpeedColors

  /** The global limits together with the tracks they describe. */
  datatype Drawing = Drawing(limits: MinMax, tracks: seq<Track>)

  predicate AllPositionSet(tracks: seq<Track>) {
    forall t :: 0 <= t < |tracks| ==> PositionSet(tracks[t].limits)
  }

  predicate AllSpeedSet(tracks: seq<Track>) {
    forall t :: 0 <= t < |tracks| ==> SpeedSet(tracks[t].limits)
  }

  /** One limit field read off every track, in track order. */
  function Column(tracks: seq<Track>, field: MinMax -> Option<real>): (vs: seq<real>)
    requires forall t :: 0 <= t < |tracks| ==> field(tracks[t].limits).Some?
    ensures |vs| == |tracks|
    ensures forall t :: 0 <= t < |tracks| ==> vs[t] == field(tracks[t].limits).value
  {
    seq(|tracks|, t requires 0 <= t < |tracks| => field(tracks[t].limits).value)
  }

  /** `get_min_max_pos(min_max, tracks)`: folds every track's position limits
      into the global ones. Every track's limits are set, since `Track.new`
      always leaves at least two points. */
  function GetMinMaxPos(m: MinMax, tracks: seq<Track>): (r: MinMax)
    requires AllPositionSet(tracks)
    ensures r.minSpeed == m.minSpeed && r.maxSpeed == m.maxSpeed
    ensures PositionSet(m) || |tracks| > 0 ==> PositionSet(r)
  {
    m.(minX := FoldMin(m.minX, Column(tracks, (l: MinMax) => l.minX)),
       maxX := FoldMax(m.maxX, Column(tracks, (l: MinMax) => l.maxX)),
       minY := FoldMin(m.minY, Column(tracks, (l: MinMax) => l.minY)),
       maxY := FoldMax(m.maxY, Column(tracks, (l: MinMax) => l.maxY)))
  }

  /** `get_min_max_speed(min_max, tracks)`: the same fold over speed limits. */
  function GetMinMaxSpeed(m: MinMax, tracks: seq<Track>): (r: MinMax)
    requires AllSpeedSet(tracks)
    ensures r.(minSpeed := None, maxSpeed := None) == m.(minSpeed := None, maxSpeed := None)
    ensures SpeedSet(m) || |tracks| > 0 ==> SpeedSet(r)
  {
    m.(minSpeed := FoldMin(m.minSpeed, Column(tracks, (l: MinMax) => l.minSpeed)),
       maxSpeed := FoldMax(m.maxSpeed, Column(tracks, (l: MinMax) => l.maxSpeed)))
  }

  /** Every point of every track lies inside the position limits m. */
  ghost predicate InFrame(tracks: seq<Track>, m: MinMax)
    requires PositionSet(m)
  {
    forall t, i :: 0 <= t < |tracks| && 0 <= i < |tracks[t].points| ==>
      && m.minX.value <= tracks[t].points[i].x <= m.maxX.value
      && m.minY.value <= tracks[t].points[i].y <= m.maxY.value
  }

  /** Each of the four position limits is the coordinate of some point. */
  ghost predicate FrameAttained(tracks: seq<Track>, m: MinMax)
    requires PositionSet(m)
  {
    && (exists t, i :: 0 <= t < |tracks| && 0 <= i < |tracks[t].points| && tracks[t].points[i].x == m.minX.value)
    && (exists t, i :: 0 <= t < |tracks| && 0 <= i < |tracks[t].points| && tracks[t].points[i].x == m.maxX.value)
    && (exists t, i :: 0 <= t < |tracks| && 0 <= i < |tracks[t].points| && tracks[t].points[i].y == m.minY.value)
    && (exists t, i :: 0 <= t < |tracks| && 0 <= i < |tracks[t].points| && tracks[t].points[i].y == m.maxY.value)
  }

  /** Every track is non-empty and its position limits are exact. */
  ghost predicate TracksReady(tracks: seq<Track>) {
    forall t :: 0 <= t < |tracks| ==>
      |tracks[t].points| > 0 && PositionSet(tracks[t].limits) && PositionLimitsExact(tracks[t])
  }

  /** Lines 146-153 from the nil hash: the global limits are exactly the
      bounding box of the union of all tracks' points. */
  lemma GetMinMaxPosBoundsUnion(tracks: seq<Track>)
    requires |tracks| > 0
    requires TracksReady(tracks)
    ensures PositionSet(GetMinMaxPos(Unset, tracks))
    ensures InFrame(tracks, GetMinMaxPos(Unset, tracks))
    ensures FrameAttained(tracks, GetMinMaxPos(Unset, tracks))
  {
    var m := GetMinMaxPos(Unset, tracks);
    var minXs := Column(tracks, (l: MinMax) => l.minX);
    var maxXs := Column(tracks, (l: MinMax) => l.maxX);
    var minYs := Column(tracks, (l: MinMax) => l.minY);
    var maxYs := Column(tracks, (l: MinMax) => l.maxY);
    forall t, i | 0 <= t < |tracks| && 0 <= i < |tracks[t].points|
      ensures m.minX.value <= tracks[t].points[i].x <= m.maxX.value
      ensures m.minY.value <= tracks[t].points[i].y <= m.maxY.value
    {
      assert minXs[t] == tracks[t].limits.minX.value && maxXs[t] == tracks[t].limits.maxX.value;
      assert minYs[t] == tracks[t].limits.minY.value && maxYs[t] == tracks[t].limits.maxY.value;
      assert Xs(tracks[t].points)[i] == tracks[t].points[i].x;
      assert Ys(tracks[t].points)[i] == tracks[t].points[i].y;
    }
    AttainedAt(tracks, minXs, m.minX.value, (l: MinMax) => l.minX, true);
    AttainedAt(tracks, maxXs, m.maxX.value, (l: MinMax) => l.maxX, true);
    AttainedAt(tracks, minYs, m.minY.value, (l: MinMax) => l.minY, false);
    AttainedAt(tracks, maxYs, m.maxY.value, (l: MinMax) => l.maxY, false);
  }

  /** A value taken from the column of an exact limit is a coordinate of
      some point of that track. */
  lemma AttainedAt(tracks: seq<Track>, column: seq<real>, v: real, field: MinMax -> Option<real>, isX: bool)
    requires TracksReady(tracks)
    requires forall t :: 0 <= t < |tracks| ==> field(tracks[t].limits).Some?
    requires column == Column(tracks, field)
    requires v in column
    requires forall t :: 0 <= t < |tracks| ==>
      field(tracks[t].limits).value in (if isX then Xs(tracks[t].points) else Ys(tracks[t].points))
    ensures isX ==> exists t, i :: 0 <= t < |tracks| && 0 <= i < |tracks[t].points| && tracks[t].points[i].x == v
    ensures !isX ==> exists t, i :: 0 <= t < |tracks| && 0 <= i < |tracks[t].points| && tracks[t].points[i].y == v
  {
    var t :| 0 <= t < |tracks| && column[t] == v;
    var vs := if isX then Xs(tracks[t].points) else Ys(tracks[t].points);
    assert v in vs;
    var i :| 0 <= i < |vs| && vs[i] == v;
    if isX {
      assert tracks[t].points[i].x == v;
    } else {
      assert tracks[t].points[i].y == v;
    }
  }

  /** Every track translated by the same offset. */
  function ShiftAll(tracks: seq<Track>, minX: real, minY: real): (r: seq<Track>)
    requires AllPositionSet(tracks)
    ensures |r| == |tracks|
    ensures forall t :: 0 <= t < |tracks| ==> r[t] == Translate(tracks[t], minX, minY)
  {
    seq(|tracks|, t requires 0 <= t < |tracks| => Translate(tracks[t], minX, minY))
  }

  /** The height the script flips the drawing about: the largest track
      max_y, starting from 0 rather than from nil. */
  function FrameMaxY(tracks: seq<Track>): (r: real)
    requires AllPositionSet(tracks)
    ensures r >= 0.0
    ensures forall t :: 0 <= t < |tracks| ==> tracks[t].limits.maxY.value <= r
    ensures r == 0.0 || exists t :: 0 <= t < |tracks| && tracks[t].limits.maxY.value == r
  {
    var maxYs := Column(tracks, (l: MinMax) => l.maxY);
    var r := FoldMax(Some(0.0), maxYs);
    assert r.value != 0.0 ==> r.value in maxYs;
    r.value
  }

  /** Every track mirrored about the same height. */
  function InvertAll(tracks: seq<Track>, maxY: real): (r: seq<Track>)
    ensures |r| == |tracks|
    ensures forall t :: 0 <= t < |tracks| ==> r[t] == InvertY(tracks[t], maxY)
  {
    seq(|tracks|, t requires 0 <= t < |tracks| => InvertY(tracks[t], maxY))
  }

  /** `translate(min_max, tracks)`: moves the global minimum to the origin,
      shifts every track by the same offset, then flips every y about the
      tallest translated track so that north is up in SVG coordinates.
      Positions change; speeds and every speed limit stay as they were. Ruby
      fails on a nil global limit. */
  function TranslateAll(m: MinMax, tracks: seq<Track>): (d: Drawing)
    requires PositionSet(m)
    requires AllPositionSet(tracks)
    ensures |d.tracks| == |tracks|
    ensures PositionSet(d.limits) && AllPositionSet(d.tracks)
    ensures d.limits.minSpeed == m.minSpeed && d.limits.maxSpeed == m.maxSpeed
  {
    var minX := m.minX.value;
    var minY := m.minY.value;
    var frame := m.(minX := Some(0.0), maxX := Some(m.maxX.value - minX),
                    minY := Some(0.0), maxY := Some(m.maxY.value - minY));
    var shifted := ShiftAll(tracks, minX, minY);
    Drawing(frame, InvertAll(shifted, FrameMaxY(shifted)))
  }

  /** A translated track's top edge is its highest translated point, so it
      lies at or below maxY - minY when every point lies at or below maxY. */
  lemma ShiftedTopBelow(tr: Track, minX: real, minY: real, maxY: real)
    requires PositionSet(tr.limits) && PositionLimitsExact(tr)
    requires forall i :: 0 <= i < |tr.points| ==> tr.points[i].y <= maxY
    ensures Translate(tr, minX, minY).limits.maxY.value <= maxY - minY
  {
    var s := Translate(tr, minX, minY);
    var v := s.limits.maxY.value;
    assert v in Ys(s.points);
    var i :| 0 <= i < |s.points| && Ys(s.points)[i] == v;
    assert v == tr.points[i].y - minY;
  }

  /** A translated track reaches at least as high as any translated point. */
  lemma ShiftedTopAbove(tr: Track, minX: real, minY: real, i: nat)
    requires PositionSet(tr.limits) && PositionLimitsExact(tr)
    requires i < |tr.points|
    ensures Translate(tr, minX, minY).limits.maxY.value >= tr.points[i].y - minY
  {
    var s := Translate(tr, minX, minY);
    assert Ys(s.points)[i] == tr.points[i].y - minY;
  }

  /** `translate` moves positions only: every track keeps its length, its
      speeds and its speed limits. */
  lemma TranslateKeepsSpeeds(m: MinMax, tracks: seq<Track>, t: nat)
    requires PositionSet(m) && AllPositionSet(tracks)
    requires t < |tracks|
    ensures
      var moved := TranslateAll(m, tracks).tracks[t];
      && |moved.points| == |tracks[t].points|
      && Speeds(moved.points) == Speeds(tracks[t].points)
      && moved.limits.minSpeed == tracks[t].limits.minSpeed
      && moved.limits.maxSpeed == tracks[t].limits.maxSpeed
  {
    var shifted := ShiftAll(tracks, m.minX.value, m.minY.value);
    assert shifted[t] == Translate(tracks[t], m.minX.value, m.minY.value);
  }

  /** The flip height equals the height of the frame: when every point lies
      in [minY, maxY] and some point reaches maxY, the tallest translated
      track reaches exactly maxY - minY. */
  lemma FlipHeightIsFrameHeight(tracks: seq<Track>, minX: real, minY: real, maxY: real, t0: nat, i0: nat)
    requires TracksReady(tracks)
    requires forall t, i :: 0 <= t < |tracks| && 0 <= i < |tracks[t].points| ==>
      minY <= tracks[t].points[i].y <= maxY
    requires t0 < |tracks| && i0 < |tracks[t0].points| && tracks[t0].points[i0].y == maxY
    ensures FrameMaxY(ShiftAll(tracks, minX, minY)) == maxY - minY
  {
    var shifted := ShiftAll(tracks, minX, minY);
    var r := FrameMaxY(shifted);
    ShiftedTopAbove(tracks[t0], minX, minY, i0);
    assert maxY - minY <= r;
    forall t | 0 <= t < |shifted|
      ensures shifted[t].limits.maxY.value <= maxY - minY
    {
      ShiftedTopBelow(tracks[t], minX, minY, maxY);
    }
    assert tracks[t0].points[i0].y >= minY;
  }

  /** Where `translate` moves one point, given the flip height h: x shifted,
      y shifted then flipped, time kept. */
  lemma PointMoves(m: MinMax, tracks: seq<Track>, h: real, t: nat, i: nat)
    requires PositionSet(m) && AllPositionSet(tracks)
    requires h == FrameMaxY(ShiftAll(tracks, m.minX.value, m.minY.value))
    requires t < |tracks| && i < |tracks[t].points|
    ensures i < |TranslateAll(m, tracks).tracks[t].points|
    ensures TranslateAll(m, tracks).tracks[t].points[i]
         == tracks[t].points[i].(x := tracks[t].points[i].x - m.minX.value,
                                 y := h - (tracks[t].points[i].y - m.minY.value))
  {
    var shifted := ShiftAll(tracks, m.minX.value, m.minY.value);
    var moved := Translate(tracks[t], m.minX.value, m.minY.value);
    assert shifted[t] == moved;
    assert moved.points[i] == tracks[t].points[i].(x := tracks[t].points[i].x - m.minX.value,
                                                   y := tracks[t].points[i].y - m.minY.value);
    assert TranslateAll(m, tracks).tracks[t] == InvertY(moved, h);
  }

  /** Every point moves as PointMoves says. */
  lemma PointsMove(m: MinMax, tracks: seq<Track>)
    requires PositionSet(m) && AllPositionSet(tracks)
    requires FrameMaxY(ShiftAll(tracks, m.minX.value, m.minY.value)) == m.maxY.value - m.minY.value
    ensures forall t, i :: 0 <= t < |tracks| && 0 <= i < |tracks[t].points| ==>
      && TranslateAll(m, tracks).tracks[t].points[i].x == tracks[t].points[i].x - m.minX.value
      && TranslateAll(m, tracks).tracks[t].points[i].y == m.maxY.value - tracks[t].points[i].y
      && TranslateAll(m, tracks).tracks[t].points[i].at == tracks[t].points[i].at
  {
    forall t, i | 0 <= t < |tracks| && 0 <= i < |tracks[t].points|
      ensures TranslateAll(m, tracks).tracks[t].points[i].x == tracks[t].points[i].x - m.minX.value
      ensures TranslateAll(m, tracks).tracks[t].points[i].y == m.maxY.value - tracks[t].points[i].y
      ensures TranslateAll(m, tracks).tracks[t].points[i].at == tracks[t].points[i].at
    {
      PointMoves(m, tracks, m.maxY.value - m.minY.value, t, i);
    }
  }

  /** After `translate`, every point lies inside the new frame
      [0, max_x - min_x] x [0, max_y - min_y]. */
  lemma TranslateStaysInFrame(m: MinMax, tracks: seq<Track>)
    requires PositionSet(m) && AllPositionSet(tracks)
    requires InFrame(tracks, m)
    requires FrameMaxY(ShiftAll(tracks, m.minX.value, m.minY.value)) == m.maxY.value - m.minY.value
    ensures InFrame(TranslateAll(m, tracks).tracks, TranslateAll(m, tracks).limits)
  {
    var d := TranslateAll(m, tracks);
    PointsMove(m, tracks);
    forall t, i | 0 <= t < |d.tracks| && 0 <= i < |d.tracks[t].points|
      ensures d.limits.minX.value <= d.tracks[t].points[i].x <= d.limits.maxX.value
      ensures d.limits.minY.value <= d.tracks[t].points[i].y <= d.limits.maxY.value
    {
      assert m.minX.value <= tracks[t].points[i].x <= m.maxX.value;
      assert m.minY.value <= tracks[t].points[i].y <= m.maxY.value;
    }
  }

  /** A point of the drawing moved from point i of track t. */
  lemma MovedPoint(m: MinMax, tracks: seq<Track>, t: nat, i: nat)
    requires PositionSet(m) && AllPositionSet(tracks)
    requires FrameMaxY(ShiftAll(tracks, m.minX.value, m.minY.value)) == m.maxY.value - m.minY.value
    requires t < |tracks| && i < |tracks[t].points|
    ensures
      var d := TranslateAll(m, tracks);
      && t < |d.tracks| && i < |d.tracks[t].points|
      && d.tracks[t].points[i].x - d.limits.minX.value == tracks[t].points[i].x - m.minX.value
      && d.limits.maxX.value - d.tracks[t].points[i].x == m.maxX.value - tracks[t].points[i].x
      && d.tracks[t].points[i].y - d.limits.minY.value == m.maxY.value - tracks[t].points[i].y
      && d.limits.maxY.value - d.tracks[t].points[i].y == tracks[t].points[i].y - m.minY.value
  {
    PointMoves(m, tracks, m.maxY.value - m.minY.value, t, i);
  }

  /** The leftmost point lands on x = 0. */
  lemma LeftEdgeTouched(m: MinMax, tracks: seq<Track>)
    requires PositionSet(m) && AllPositionSet(tracks)
    requires FrameMaxY(ShiftAll(tracks, m.minX.value, m.minY.value)) == m.maxY.value - m.minY.value
    requires exists t, i :: 0 <= t < |tracks| && 0 <= i < |tracks[t].points| && tracks[t].points[i].x == m.minX.value
    ensures
      var d := TranslateAll(m, tracks);
      exists t, i :: 0 <= t < |d.tracks| && 0 <= i < |d.tracks[t].points| && d.tracks[t].points[i].x == d.limits.minX.value
  {
    var t, i :| 0 <= t < |tracks| && 0 <= i < |tracks[t].points| && tracks[t].points[i].x == m.minX.value;
    MovedPoint(m, tracks, t, i);
  }

  /** The rightmost point lands on the right edge. */
  lemma RightEdgeTouched(m: MinMax, tracks: seq<Track>)
    requires PositionSet(m) && AllPositionSet(tracks)
    requires FrameMaxY(ShiftAll(tracks, m.minX.value, m.minY.value)) == m.maxY.value - m.minY.value
    requires exists t, i :: 0 <= t < |tracks| && 0 <= i < |tracks[t].points| && tracks[t].points[i].x == m.maxX.value
    ensures
      var d := TranslateAll(m, tracks);
      exists t, i :: 0 <= t < |d.tracks| && 0 <= i < |d.tracks[t].points| && d.tracks[t].points[i].x == d.limits.maxX.value
  {
    var t, i :| 0 <= t < |tracks| && 0 <= i < |tracks[t].points| && tracks[t].points[i].x == m.maxX.value;
    MovedPoint(m, tracks, t, i);
  }

  /** The highest point lands on y = 0, the top of the SVG canvas. */
  lemma TopEdgeTouched(m: MinMax, tracks: seq<Track>)
    requires PositionSet(m) && AllPositionSet(tracks)
    requires FrameMaxY(ShiftAll(tracks, m.minX.value, m.minY.value)) == m.maxY.value - m.minY.value
    requires exists t, i :: 0 <= t < |tracks| && 0 <= i < |tracks[t].points| && tracks[t].points[i].y == m.maxY.value
    ensures
      var d := TranslateAll(m, tracks);
      exists t, i :: 0 <= t < |d.tracks| && 0 <= i < |d.tracks[t].points| && d.tracks[t].points[i].y == d.limits.minY.value
  {
    var t, i :| 0 <= t < |tracks| && 0 <= i < |tracks[t].points| && tracks[t].points[i].y == m.maxY.value;
    MovedPoint(m, tracks, t, i);
  }

  /** The lowest point lands on the bottom edge. */
  lemma BottomEdgeTouched(m: MinMax, tracks: seq<Track>)
    requires PositionSet(m) && AllPositionSet(tracks)
    requires FrameMaxY(ShiftAll(tracks, m.minX.value, m.minY.value)) == m.maxY.value - m.minY.value
    requires exists t, i :: 0 <= t < |tracks| && 0 <= i < |tracks[t].points| && tracks[t].points[i].y == m.minY.value
    ensures
      var d := TranslateAll(m, tracks);
      exists t, i :: 0 <= t < |d.tracks| && 0 <= i < |d.tracks[t].points| && d.tracks[t].points[i].y == d.limits.maxY.value
  {
    var t, i :| 0 <= t < |tracks| && 0 <= i < |tracks[t].points| && tracks[t].points[i].y == m.minY.value;
    MovedPoint(m, tracks, t, i);
  }

  /** After `translate`, each edge of the new frame is still touched by some
      point. */
  lemma TranslateTouchesFrame(m: MinMax, tracks: seq<Track>)
    requires PositionSet(m) && AllPositionSet(tracks)
    requires FrameAttained(tracks, m)
    requires FrameMaxY(ShiftAll(tracks, m.minX.value, m.minY.value)) == m.maxY.value - m.minY.value
    ensures FrameAttained(TranslateAll(m, tracks).tracks, TranslateAll(m, tracks).limits)
  {
    LeftEdgeTouched(m, tracks);
    RightEdgeTouched(m, tracks);
    TopEdgeTouched(m, tracks);
    BottomEdgeTouched(m, tracks);
  }

  /** Lines 155-173 for a frame that is the exact bounding box of the
      tracks: the drawing's frame starts at the origin, every point lands
      inside it, each edge is touched by some point, x is shifted and y is
      shifted then flipped. */
  lemma TranslateNormalizes(m: MinMax, tracks: seq<Track>)
    requires PositionSet(m)
    requires TracksReady(tracks)
    requires InFrame(tracks, m) && FrameAttained(tracks, m)
    ensures TranslateAll(m, tracks).limits.minX == Some(0.0)
    ensures TranslateAll(m, tracks).limits.minY == Some(0.0)
    ensures TranslateAll(m, tracks).limits.maxX.value == m.maxX.value - m.minX.value
    ensures TranslateAll(m, tracks).limits.maxY.value == m.maxY.value - m.minY.value
    ensures InFrame(TranslateAll(m, tracks).tracks, TranslateAll(m, tracks).limits)
    ensures FrameAttained(TranslateAll(m, tracks).tracks, TranslateAll(m, tracks).limits)
    ensures forall t, i :: 0 <= t < |tracks| && 0 <= i < |tracks[t].points| ==>
      && TranslateAll(m, tracks).tracks[t].points[i].x == tracks[t].points[i].x - m.minX.value
      && TranslateAll(m, tracks).tracks[t].points[i].y == m.maxY.value - tracks[t].points[i].y
      && TranslateAll(m, tracks).tracks[t].points[i].at == tracks[t].points[i].at
  {
    var t3, i3 :| 0 <= t3 < |tracks| && 0 <= i3 < |tracks[t3].points| && tracks[t3].points[i3].y == m.maxY.value;
    FlipHeightIsFrameHeight(tracks, m.minX.value, m.minY.value, m.maxY.value, t3, i3);
    PointsMove(m, tracks);
    TranslateStaysInFrame(m, tracks);
    TranslateTouchesFrame(m, tracks);
  }

  /** Every track is non-empty and its speed limits are exact. */
  ghost predicate SpeedsReady(tracks: seq<Track>) {
    forall t :: 0 <= t < |tracks| ==>
      |tracks[t].points| > 0 && SpeedSet(tracks[t].limits) && SpeedLimitsExact(tracks[t])
  }

  /** Lines 175-180 from nil speed limits: the global speed limits are
      exactly the least and greatest speed over all points of all tracks. */
  lemma GetMinMaxSpeedBoundsUnion(m: MinMax, tracks: seq<Track>)
    requires |tracks| > 0
    requires SpeedUnset(m)
    requires SpeedsReady(tracks)
    ensures SpeedSet(GetMinMaxSpeed(m, tracks))
    ensures
      var s := GetMinMaxSpeed(m, tracks);
      && (forall t, i :: 0 <= t < |tracks| && 0 <= i < |tracks[t].points| ==>
            s.minSpeed.value <= tracks[t].points[i].speed <= s.maxSpeed.value)
      && (exists t, i :: 0 <= t < |tracks| && 0 <= i < |tracks[t].points| && tracks[t].points[i].speed == s.minSpeed.value)
      && (exists t, i :: 0 <= t < |tracks| && 0 <= i < |tracks[t].points| && tracks[t].points[i].speed == s.maxSpeed.value)
  {
    var s := GetMinMaxSpeed(m, tracks);
    var mins := Column(tracks, (l: MinMax) => l.minSpeed);
    var maxs := Column(tracks, (l: MinMax) => l.maxSpeed);
    forall t, i | 0 <= t < |tracks| && 0 <= i < |tracks[t].points|
      ensures s.minSpeed.value <= tracks[t].points[i].speed <= s.maxSpeed.value
    {
      assert mins[t] == tracks[t].limits.minSpeed.value && maxs[t] == tracks[t].limits.maxSpeed.value;
      assert Speeds(tracks[t].points)[i] == tracks[t].points[i].speed;
    }
    assert s.minSpeed.value in mins;
    var t1 :| 0 <= t1 < |tracks| && mins[t1] == s.minSpeed.value;
    assert s.minSpeed.value in Speeds(tracks[t1].points);
    var i1 :| 0 <= i1 < |tracks[t1].points| && Speeds(tracks[t1].points)[i1] == s.minSpeed.value;
    assert tracks[t1].points[i1].speed == s.minSpeed.value;
    assert s.maxSpeed.value in maxs;
    var t2 :| 0 <= t2 < |tracks| && maxs[t2] == s.maxSpeed.value;
    assert s.maxSpeed.value in Speeds(tracks[t2].points);
    var i2 :| 0 <= i2 < |tracks[t2].points| && Speeds(tracks[t2].points)[i2] == s.maxSpeed.value;
    assert tracks[t2].points[i2].speed == s.maxSpeed.value;
  }

  /** `tracks << Track.new(gpx_file)` for every file, in order. */
  function LoadTracks(raws: seq<seq<Point>>, sqrt: real -> real): (tracks: seq<Track>)
    requires forall k :: 0 <= k < |raws| ==> |raws[k]| >= 1
    ensures |tracks| == |raws|
    ensures TracksReady(tracks) && SpeedsReady(tracks)
    ensures AllPositionSet(tracks) && AllSpeedSet(tracks)
    ensures forall t :: 0 <= t < |tracks| ==> |tracks[t].points| >= 2
  {
    seq(|raws|, k requires 0 <= k < |raws| => NewTrack(raws[k], sqrt))
  }

  /** Lines 210-224 of the script: from nil global limits, take the
      position limits, normalise, then take the speed limits. Every track
      keeps its number of points. */
  function Normalize(tracks: seq<Track>): (d: Drawing)
    requires AllPositionSet(tracks) && AllSpeedSet(tracks)
    requires |tracks| >= 1
    ensures |d.tracks| == |tracks|
    ensures PositionSet(d.limits) && SpeedSet(d.limits)
    ensures forall t :: 0 <= t < |tracks| ==> |d.tracks[t].points| == |tracks[t].points|
  {
    var framed := GetMinMaxPos(Unset, tracks);
    var normal := TranslateAll(framed, tracks);
    forall t | 0 <= t < |tracks|
      ensures SpeedSet(normal.tracks[t].limits) && |normal.tracks[t].points| == |tracks[t].points|
    {
      TranslateKeepsSpeeds(framed, tracks, t);
    }
    Drawing(GetMinMaxSpeed(normal.limits, normal.tracks), normal.tracks)
  }

  /** The drawing's frame: anchored at the origin, holding every point, each
      edge touched by some point. */
  lemma NormalizeFrame(tracks: seq<Track>)
    requires |tracks| >= 1
    requires TracksReady(tracks) && AllSpeedSet(tracks)
    ensures
      var d := Normalize(tracks);
      && d.limits.minX == Some(0.0) && d.limits.minY == Some(0.0)
      && InFrame(d.tracks, d.limits)
      && FrameAttained(d.tracks, d.limits)
  {
    var framed := GetMinMaxPos(Unset, tracks);
    GetMinMaxPosBoundsUnion(tracks);
    TranslateNormalizes(framed, tracks);
    var normal := TranslateAll(framed, tracks);
    var d := Normalize(tracks);
    assert d.tracks == normal.tracks;
    FrameIgnoresSpeeds(d.tracks, normal.limits, d.limits);
  }

  /** InFrame and FrameAttained read only the position limits. */
  lemma FrameIgnoresSpeeds(tracks: seq<Track>, a: MinMax, b: MinMax)
    requires PositionSet(a)
    requires a.(minSpeed := None, maxSpeed := None) == b.(minSpeed := None, maxSpeed := None)
    ensures PositionSet(b)
    ensures InFrame(tracks, a) == InFrame(tracks, b)
    ensures FrameAttained(tracks, a) == FrameAttained(tracks, b)
  {
    assert a.minX == b.minX && a.maxX == b.maxX && a.minY == b.minY && a.maxY == b.maxY;
  }

  /** The drawing's speed limits are exactly the slowest and the fastest
      point of all tracks, and each track keeps speed limits exact for its
      own points (`speed_color` is called with those). */
  lemma NormalizeSpeeds(tracks: seq<Track>)
    requires |tracks| >= 1
    requires AllPositionSet(tracks) && SpeedsReady(tracks)
    ensures
      var d := Normalize(tracks);
      && SpeedsReady(d.tracks)
      && (forall t, i :: 0 <= t < |d.tracks| && 0 <= i < |d.tracks[t].points| ==>
            d.limits.minSpeed.value <= d.tracks[t].points[i].speed <= d.limits.maxSpeed.value)
      && (exists t, i :: 0 <= t < |d.tracks| && 0 <= i < |d.tracks[t].points| &&
            d.tracks[t].points[i].speed == d.limits.minSpeed.value)
      && (exists t, i :: 0 <= t < |d.tracks| && 0 <= i < |d.tracks[t].points| &&
            d.tracks[t].points[i].speed == d.limits.maxSpeed.value)
  {
    var framed := GetMinMaxPos(Unset, tracks);
    var normal := TranslateAll(framed, tracks);
    forall t | 0 <= t < |normal.tracks|
      ensures |normal.tracks[t].points| > 0 && SpeedSet(normal.tracks[t].limits)
      ensures SpeedLimitsExact(normal.tracks[t])
    {
      TranslateKeepsSpeeds(framed, tracks, t);
    }
    GetMinMaxSpeedBoundsUnion(normal.limits, normal.tracks);
  }

  /** The whole script from line 203 to line 224. Ruby fails when there is
      no file (nil limits reach `translate`) or a file holds no point (line
      33 divides the Integer 0 by 0). */
  function MapGpx(raws: seq<seq<Point>>, sqrt: real -> real): (d: Drawing)
    requires |raws| >= 1
    requires forall k :: 0 <= k < |raws| ==> |raws[k]| >= 1
    ensures |d.tracks| == |raws|
    ensures PositionSet(d.limits) && SpeedSet(d.limits)
    ensures forall t :: 0 <= t < |d.tracks| ==> |d.tracks[t].points| >= 2
  {
    Normalize(LoadTracks(raws, sqrt))
  }

  /** End to end: the drawing handed to the renderer has the frame of
      NormalizeFrame and the speed limits of NormalizeSpeeds. */
  lemma MapGpxDrawing(raws: seq<seq<Point>>, sqrt: real -> real)
    requires |raws| >= 1
    requires forall k :: 0 <= k < |raws| ==> |raws[k]| >= 1
    ensures
      var d := MapGpx(raws, sqrt);
      && d.limits.minX == Some(0.0) && d.limits.minY == Some(0.0)
      && InFrame(d.tracks, d.limits)
      && FrameAttained(d.tracks, d.limits)
      && SpeedsReady(d.tracks)
      && (forall t, i :: 0 <= t < |d.tracks| && 0 <= i < |d.tracks[t].points| ==>
            d.limits.minSpeed.value <= d.tracks[t].points[i].speed <= d.limits.maxSpeed.value)
  {
    var tracks := LoadTracks(raws, sqrt);
    NormalizeFrame(tracks);
    NormalizeSpeeds(tracks);
  }

  /** On a track with exact speed limits, as every track of a drawing has
      (MapGpxDrawing), every point's colour under the corrected ramp is a
      valid 8-bit colour, unless all its speeds are equal (then
      `speed_color` divides by zero). */
  lemma TrackColorsInByteRange(tr: Track)
    requires SpeedSet(tr.limits) && SpeedLimitsExact(tr)
    ensures forall i :: 0 <= i < |tr.points| && tr.limits.minSpeed.value < tr.limits.maxSpeed.value ==>
      InByteRange(SpeedColor(tr.points[i].speed, tr.limits.minSpeed.value, tr.limits.maxSpeed.value))
  {
    forall i | 0 <= i < |tr.points|
      ensures tr.limits.minSpeed.value <= tr.points[i].speed <= tr.limits.maxSpeed.value
    {
      assert Speeds(tr.points)[i] == tr.points[i].speed;
    }
  }
}
