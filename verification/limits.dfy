/** The nil-initialised running minimum and maximum that `Track#set_min_max_pos`,
    `Track#set_min_max_speed`, `get_min_max_pos` and `get_min_max_speed` all use:
    an unset field adopts the first observed value, and afterwards a value
    replaces it only when it is strictly better. */
module Limits {
  import opened Wrappers

  /** The six optional limits that a track keeps in its attributes and the
      script keeps in its `min_max` hash. */
  datatype MinMax = MinMax(
    minX: Option<real>, maxX: Option<real>,
    minY: Option<real>, maxY: Option<real>,
    minSpeed: Option<real>, maxSpeed: Option<real>)

  /** The `min_max` hash as the script creates it: every field nil. */
  const Unset: MinMax := MinMax(None, None, None, None, None, None)

  predicate PositionSet(m: MinMax) {
    m.minX.Some? && m.maxX.Some? && m.minY.Some? && m.maxY.Some?
  }

  predicate PositionUnset(m: MinMax) {
    m.minX.None? && m.maxX.None? && m.minY.None? && m.maxY.None?
  }

  predicate SpeedSet(m: MinMax) {
    m.minSpeed.Some? && m.maxSpeed.Some?
  }

  predicate SpeedUnset(m: MinMax) {
    m.minSpeed.None? && m.maxSpeed.None?
  }

  /** One step of a running minimum: a value replaces the current one when
      nothing is held yet or it is strictly smaller. The result is the
      smaller of the two, with nil acting as no bound at all. */
  function ObserveMin(acc: Option<real>, v: real): (r: Option<real>)
    ensures r.Some? && r.value <= v
    ensures acc.Some? ==> r.value <= acc.value
    ensures r == Some(v) || r == acc
  {
    if acc.None? || v < acc.value then Some(v) else acc
  }

  /** One step of a running maximum, the mirror of ObserveMin. */
  function ObserveMax(acc: Option<real>, v: real): (r: Option<real>)
    ensures r.Some? && r.value >= v
    ensures acc.Some? ==> r.value >= acc.value
    ensures r == Some(v) || r == acc
  {
    if acc.None? || v > acc.value then Some(v) else acc
  }

  /** m is the least element of vs, and nil exactly when vs is empty. */
  ghost predicate IsLeast(m: Option<real>, vs: seq<real>) {
    if |vs| == 0 then m.None?
    else m.Some? && m.value in vs && forall i :: 0 <= i < |vs| ==> m.value <= vs[i]
  }

  /** m is the greatest element of vs, and nil exactly when vs is empty. */
  ghost predicate IsGreatest(m: Option<real>, vs: seq<real>) {
    if |vs| == 0 then m.None?
    else m.Some? && m.value in vs && forall i :: 0 <= i < |vs| ==> vs[i] <= m.value
  }

  /** Observes vs in order, starting from acc. The result is nil only when
      nothing was ever observed, bounds every observed value from below, and
      is attained: it is either the starting value or one of vs. */
  function FoldMin(acc: Option<real>, vs: seq<real>): (r: Option<real>)
    decreases |vs|
    ensures r.None? <==> acc.None? && |vs| == 0
    ensures r.Some? ==> r == acc || r.value in vs
    ensures r.Some? ==> forall i :: 0 <= i < |vs| ==> r.value <= vs[i]
    ensures r.Some? && acc.Some? ==> r.value <= acc.value
  {
    if |vs| == 0 then acc
    else
      var r := FoldMin(ObserveMin(acc, vs[0]), vs[1..]);
      assert r.Some? && r != ObserveMin(acc, vs[0]) ==> r.value in vs by {
        if r.Some? && r != ObserveMin(acc, vs[0]) {
          var k :| 0 <= k < |vs[1..]| && vs[1..][k] == r.value;
          assert vs[k + 1] == r.value;
        }
      }
      r
  }

  /** The mirror image of FoldMin. */
  function FoldMax(acc: Option<real>, vs: seq<real>): (r: Option<real>)
    decreases |vs|
    ensures r.None? <==> acc.None? && |vs| == 0
    ensures r.Some? ==> r == acc || r.value in vs
    ensures r.Some? ==> forall i :: 0 <= i < |vs| ==> vs[i] <= r.value
    ensures r.Some? && acc.Some? ==> acc.value <= r.value
  {
    if |vs| == 0 then acc
    else
      var r := FoldMax(ObserveMax(acc, vs[0]), vs[1..]);
      assert r.Some? && r != ObserveMax(acc, vs[0]) ==> r.value in vs by {
        if r.Some? && r != ObserveMax(acc, vs[0]) {
          var k :| 0 <= k < |vs[1..]| && vs[1..][k] == r.value;
          assert vs[k + 1] == r.value;
        }
      }
      r
  }

  /** Starting from nil, the fold yields exactly the least observed value. */
  lemma FoldMinFromUnset(vs: seq<real>)
    ensures IsLeast(FoldMin(None, vs), vs)
  {
  }

  /** Starting from nil, the fold yields exactly the greatest observed value. */
  lemma FoldMaxFromUnset(vs: seq<real>)
    ensures IsGreatest(FoldMax(None, vs), vs)
  {
  }

  /** Shifting every observed value by d shifts the least value by d. */
  lemma LeastShifted(m: Option<real>, vs: seq<real>, ws: seq<real>, d: real)
    requires |ws| == |vs| && forall i :: 0 <= i < |vs| ==> ws[i] == vs[i] - d
    ensures IsLeast(m, vs) ==> IsLeast(if m.Some? then Some(m.value - d) else None, ws)
  {
    if |vs| > 0 && IsLeast(m, vs) {
      var k :| 0 <= k < |vs| && vs[k] == m.value;
      assert ws[k] == m.value - d;
    }
  }

  /** Shifting every observed value by d shifts the greatest value by d. */
  lemma GreatestShifted(m: Option<real>, vs: seq<real>, ws: seq<real>, d: real)
    requires |ws| == |vs| && forall i :: 0 <= i < |vs| ==> ws[i] == vs[i] - d
    ensures IsGreatest(m, vs) ==> IsGreatest(if m.Some? then Some(m.value - d) else None, ws)
  {
    if |vs| > 0 && IsGreatest(m, vs) {
      var k :| 0 <= k < |vs| && vs[k] == m.value;
      assert ws[k] == m.value - d;
    }
  }
}
