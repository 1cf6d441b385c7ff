/** The track point record of the `Point` class: projected planar coordinates,
    a timestamp in seconds, and a derived speed (0 when the point is built). */
module Points {

  datatype Point = Point(x: real, y: real, at: real, speed: real)

  /** p and q agree on coordinates and timestamp; only the speed may differ. */
  predicate SamePosition(p: Point, q: Point) {
    p.x == q.x && p.y == q.y && p.at == q.at
  }

  /** The x coordinates of pts, in order. */
  function Xs(pts: seq<Point>): (xs: seq<real>)
    ensures |xs| == |pts|
    ensures forall i :: 0 <= i < |pts| ==> xs[i] == pts[i].x
  {
    seq(|pts|, i requires 0 <= i < |pts| => pts[i].x)
  }

  /** The y coordinates of pts, in order. */
  function Ys(pts: seq<Point>): (ys: seq<real>)
    ensures |ys| == |pts|
    ensures forall i :: 0 <= i < |pts| ==> ys[i] == pts[i].y
  {
    seq(|pts|, i requires 0 <= i < |pts| => pts[i].y)
  }

  /** The speeds of pts, in order. */
  function Speeds(pts: seq<Point>): (s: seq<real>)
    ensures |s| == |pts|
    ensures forall i :: 0 <= i < |pts| ==> s[i] == pts[i].speed
  {
    seq(|pts|, i requires 0 <= i < |pts| => pts[i].speed)
  }

  /** Timestamps never decrease along the sequence. */
  ghost predicate Chronological(pts: seq<Point>) {
    forall i, j :: 0 <= i < j < |pts| ==> pts[i].at <= pts[j].at
  }

  /** Ruby's `v**2`. */
  function Sq(v: real): (r: real)
    ensures r >= 0.0
  {
    v * v
  }

  /** The square of a non-zero value is positive. */
  lemma SqPositive(v: real)
    requires v != 0.0
    ensures Sq(v) > 0.0
  {
    if v > 0.0 {
      calc { Sq(v); == v * v; > 0.0; }
    } else {
      calc { Sq(v); == v * v; == (-v) * (-v); > 0.0; }
    }
  }

  /** A value and its negation have the same square. */
  lemma SqNegate(v: real)
    ensures Sq(-v) == Sq(v)
  {
    calc { Sq(-v); == (-v) * (-v); == v * v; == Sq(v); }
  }

  /** Squaring is monotone on non-negative values. */
  lemma SqMonotone(a: real, b: real)
    requires 0.0 <= a <= b
    ensures Sq(a) <= Sq(b)
  {
    calc { Sq(a); == a * a; <= a * b; <= b * b; == Sq(b); }
  }
}
