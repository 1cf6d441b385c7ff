/** Ruby tracks hold references to mutable Point objects, and `translate`
    and `invert_y` update those objects in place. The rest of the model
    treats points as values; this module models object identity, to show
    where the two views part: a one-point track lists one object twice. */
module PointObjects {
  import opened Points
  import RamerDouglasPeucker
  import Tracks

  /** A track as Ruby holds it: a list of references into a store of
      Point objects. */
  predicate ValidRefs(store: seq<Point>, refs: seq<nat>) {
    forall k :: 0 <= k < |refs| ==> refs[k] < |store|
  }

  /** No object is listed twice. */
  predicate Distinct(refs: seq<nat>) {
    forall j, k :: 0 <= j < k < |refs| ==> refs[j] != refs[k]
  }

  /** The points a list of references currently denotes. */
  function View(store: seq<Point>, refs: seq<nat>): (pts: seq<Point>)
    requires ValidRefs(store, refs)
    ensures |pts| == |refs|
    ensures forall k :: 0 <= k < |refs| ==> pts[k] == store[refs[k]]
  {
    seq(|refs|, k requires 0 <= k < |refs| => store[refs[k]])
  }

  /** One point moved by (-dx, -dy). */
  function Shifted(p: Point, dx: real, dy: real): Point {
    p.(x := p.x - dx, y := p.y - dy)
  }

  /** `Track#translate`'s point loop (lines 97-100) on objects: each listed
      object is shifted in place, once per time it is listed; objects not
      listed are untouched. */
  function TranslateInPlace(store: seq<Point>, refs: seq<nat>, dx: real, dy: real): (r: seq<Point>)
    requires ValidRefs(store, refs)
    decreases |refs|
    ensures |r| == |store|
    ensures forall o :: 0 <= o < |store| && o !in refs ==> r[o] == store[o]
  {
    if |refs| == 0 then store
    else
      var o := refs[0];
      TranslateInPlace(store[o := Shifted(store[o], dx, dy)], refs[1..], dx, dy)
  }

  /** One point mirrored about y = maxY / 2. */
  function Flipped(p: Point, maxY: real): Point {
    p.(y := maxY - p.y)
  }

  /** `Track#invert_y` (lines 103-107) on objects, in the same way. */
  function InvertInPlace(store: seq<Point>, refs: seq<nat>, maxY: real): (r: seq<Point>)
    requires ValidRefs(store, refs)
    decreases |refs|
    ensures |r| == |store|
    ensures forall o :: 0 <= o < |store| && o !in refs ==> r[o] == store[o]
  {
    if |refs| == 0 then store
    else
      var o := refs[0];
      InvertInPlace(store[o := Flipped(store[o], maxY)], refs[1..], maxY)
  }

  /** Dropping the first reference of a list with no repeats leaves a list
      with no repeats that does not mention the first. */
  lemma TailDistinct(refs: seq<nat>)
    requires |refs| > 0 && Distinct(refs)
    ensures Distinct(refs[1..]) && refs[0] !in refs[1..]
    ensures forall k :: 1 <= k < |refs| ==> refs[k] == refs[1..][k - 1] && refs[k] != refs[0]
  {
  }

  /** When no object is listed twice, translating the objects in place
      shifts each listed object exactly once. */
  lemma {:induction false} TranslateEachOnce(store: seq<Point>, refs: seq<nat>, dx: real, dy: real)
    requires ValidRefs(store, refs) && Distinct(refs)
    decreases |refs|
    ensures forall k :: 0 <= k < |refs| ==>
      TranslateInPlace(store, refs, dx, dy)[refs[k]] == Shifted(store[refs[k]], dx, dy)
  {
    if |refs| > 0 {
      var o := refs[0];
      TailDistinct(refs);
      TranslateEachOnce(store[o := Shifted(store[o], dx, dy)], refs[1..], dx, dy);
    }
  }

  /** ... so the track sees the value-level translation. */
  lemma TranslateInPlaceDistinct(store: seq<Point>, refs: seq<nat>, dx: real, dy: real)
    requires ValidRefs(store, refs) && Distinct(refs)
    ensures View(TranslateInPlace(store, refs, dx, dy), refs) == Tracks.TranslatePoints(View(store, refs), dx, dy)
  {
    TranslateEachOnce(store, refs, dx, dy);
    var r := TranslateInPlace(store, refs, dx, dy);
    assert forall k :: 0 <= k < |refs| ==> View(r, refs)[k] == Tracks.TranslatePoints(View(store, refs), dx, dy)[k];
  }

  /** When no object is listed twice, flipping the objects in place flips
      each listed object exactly once. */
  lemma {:induction false} InvertEachOnce(store: seq<Point>, refs: seq<nat>, maxY: real)
    requires ValidRefs(store, refs) && Distinct(refs)
    decreases |refs|
    ensures forall k :: 0 <= k < |refs| ==>
      InvertInPlace(store, refs, maxY)[refs[k]] == Flipped(store[refs[k]], maxY)
  {
    if |refs| > 0 {
      var o := refs[0];
      TailDistinct(refs);
      InvertEachOnce(store[o := Flipped(store[o], maxY)], refs[1..], maxY);
    }
  }

  /** ... so the track sees the value-level flip. */
  lemma InvertInPlaceDistinct(store: seq<Point>, refs: seq<nat>, maxY: real)
    requires ValidRefs(store, refs) && Distinct(refs)
    ensures View(InvertInPlace(store, refs, maxY), refs) == Tracks.InvertPoints(View(store, refs), maxY)
  {
    InvertEachOnce(store, refs, maxY);
    var r := InvertInPlace(store, refs, maxY);
    assert forall k :: 0 <= k < |refs| ==> View(r, refs)[k] == Tracks.InvertPoints(View(store, refs), maxY)[k];
  }

  /** The objects `simplify` returns: for two or more points each retained
      object once; for one point the same object twice (line 35 returns
      `points[0]` and `points[-1]`, which are one object). */
  lemma SimplifySharesOnlySinglePoint(points: seq<Point>, epsilon: real)
    requires |points| >= 1
    requires epsilon > 0.0
    ensures |points| >= 2 ==> Distinct(RamerDouglasPeucker.SimplifyIndices(points, epsilon).kept)
    ensures |points| == 1 ==> RamerDouglasPeucker.SimplifyIndices(points, epsilon).kept == [0, 0]
  {
    SqPositive(epsilon);
    RamerDouglasPeucker.KeptIncreasing(points, Speeds(points), 0, |points| - 1, Sq(epsilon));
  }

  /** For a file of two or more points the value model is exact: whatever
      the objects `simplify` returned hold by the time `translate` and
      `invert_y` run (lines 97-100 and 104-106), moving them in place moves
      each retained point once, as Tracks.Translate and Tracks.InvertY do. */
  lemma SimplifiedObjectsMoveOnce(points: seq<Point>, epsilon: real, store: seq<Point>, dx: real, dy: real, maxY: real)
    requires |points| >= 2
    requires epsilon > 0.0
    requires |store| == |points|
    ensures var refs := RamerDouglasPeucker.SimplifyIndices(points, epsilon).kept;
      && ValidRefs(store, refs)
      && View(TranslateInPlace(store, refs, dx, dy), refs) == Tracks.TranslatePoints(View(store, refs), dx, dy)
      && View(InvertInPlace(store, refs, maxY), refs) == Tracks.InvertPoints(View(store, refs), maxY)
  {
    var refs := RamerDouglasPeucker.SimplifyIndices(points, epsilon).kept;
    SimplifySharesOnlySinglePoint(points, epsilon);
    TranslateInPlaceDistinct(store, refs, dx, dy);
    InvertInPlaceDistinct(store, refs, maxY);
  }

  /** As written, a one-point track's point is shifted twice by `translate`:
      it ends at x - 2 * dx while the track's min_x becomes x - dx. */
  lemma SharedPointShiftedTwice(p: Point, dx: real, dy: real)
    ensures TranslateInPlace([p], [0, 0], dx, dy) == [p.(x := p.x - dx - dx, y := p.y - dy - dy)]
    ensures dx != 0.0 ==>
      View(TranslateInPlace([p], [0, 0], dx, dy), [0, 0]) != Tracks.TranslatePoints([p, p], dx, dy)
  {
    assert [0, 0][1..] == [0];
    var once := [Shifted(p, dx, dy)];
    assert TranslateInPlace([p], [0, 0], dx, dy) == TranslateInPlace(once, [0], dx, dy);
    assert [0][1..] == [];
    if dx != 0.0 {
      assert Tracks.TranslatePoints([p, p], dx, dy)[0].x == p.x - dx;
    }
  }

  /** As written, a one-point track's point is flipped twice by `invert_y`,
      that is, not at all. */
  lemma SharedPointNotFlipped(p: Point, maxY: real)
    ensures InvertInPlace([p], [0, 0], maxY) == [p]
    ensures p.y != maxY - p.y ==>
      View(InvertInPlace([p], [0, 0], maxY), [0, 0]) != Tracks.InvertPoints([p, p], maxY)
  {
    assert [0, 0][1..] == [0];
    var once := [Flipped(p, maxY)];
    assert InvertInPlace([p], [0, 0], maxY) == InvertInPlace(once, [0], maxY);
    assert [0][1..] == [];
    assert Tracks.InvertPoints([p, p], maxY)[0].y == maxY - p.y;
  }
}
