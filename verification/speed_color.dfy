/** `Point#speed_color(min_speed, max_speed)`: the colour of the segment
    ending at a point, from the point's speed relative to the track's speed
    limits, on a four-band blue-cyan-green-yellow-red ramp. The source builds
    an "rgb(r,g,b)" string; here the three components are returned as
    integers. */
module SpeedColors {

  datatype Rgb = Rgb(r: int, g: int, b: int)

  /** Every component is a valid 8-bit channel value. */
  predicate InByteRange(c: Rgb) {
    0 <= c.r <= 255 && 0 <= c.g <= 255 && 0 <= c.b <= 255
  }

  /** Ruby's `Float#round`: the nearest integer, ties away from zero. */
  function Round(v: real): (n: int)
    ensures v - 0.5 <= n as real <= v + 0.5
    ensures n as real == v + 0.5 ==> v >= 0.0
    ensures n as real == v - 0.5 ==> v < 0.0
  {
    if v >= 0.0 then (v + 0.5).Floor else -((-v + 0.5).Floor)
  }

  /** Rounding never reverses the order of two values. */
  lemma RoundMonotone(a: real, b: real)
    requires a <= b
    ensures Round(a) <= Round(b)
  {
  }

  /** Rounding keeps whole numbers as they are. */
  lemma RoundWhole(k: int)
    ensures Round(k as real) == k
  {
  }

  /** The speed as a fraction of the speed range. Ruby divides by
      max_speed - min_speed with no guard, so equal limits raise (integer
      zero) or yield NaN and then fail in `round` (float zero); the model
      requires a non-empty range. */
  function Percent(speed: real, minSpeed: real, maxSpeed: real): (p: real)
    requires minSpeed < maxSpeed
    ensures p * (maxSpeed - minSpeed) == speed - minSpeed
    ensures minSpeed <= speed <= maxSpeed ==> 0.0 <= p <= 1.0
    ensures p == 0.0 <==> speed == minSpeed
    ensures p == 1.0 <==> speed == maxSpeed
  {
    (speed - minSpeed) / (maxSpeed - minSpeed)
  }

  /** Which quarter of the range a fraction falls in (the source's if/elsif
      chain); everything from 0.75 up, including fractions above 1, is the
      last band and everything below 0.25, including negative ones, the
      first. */
  function Band(p: real): (k: nat)
    ensures k < 4
    ensures k == 0 <==> p < 0.25
    ensures k == 3 <==> p >= 0.75
    ensures 0 < k < 3 ==> 0.25 * k as real <= p < 0.25 * (k + 1) as real
  {
    if p < 0.25 then 0 else if p < 0.5 then 1 else if p < 0.75 then 2 else 3
  }

  /** Band k's colour formula exactly as the source writes it. */
  function BandColorAsWritten(k: nat, p: real): Rgb
    requires k < 4
  {
    match k
    case 0 => Rgb(0, Round(255.0 * p * 4.0), 255)
    case 1 => Rgb(0, 255, Round(255.0 * (1.0 - p) * 4.0))
    case 2 => Rgb(Round(255.0 * p * 4.0), 255, 0)
    case _ => Rgb(255, Round(255.0 * (1.0 - p) * 4.0), 0)
  }

  /** `speed_color` as written. Its ends are pure blue and pure red, red is
      off in the lower half and blue in the upper half, green is full in the
      middle half; but the varying component of the two middle bands runs
      from 510 to 765, beyond a colour channel (see AsWrittenMiddleOverflows). */
  function SpeedColorAsWritten(speed: real, minSpeed: real, maxSpeed: real): (c: Rgb)
    requires minSpeed < maxSpeed
    ensures speed == minSpeed ==> c == Rgb(0, 0, 255)
    ensures speed == maxSpeed ==> c == Rgb(255, 0, 0)
    ensures Band(Percent(speed, minSpeed, maxSpeed)) < 2 ==> c.r == 0
    ensures Band(Percent(speed, minSpeed, maxSpeed)) >= 2 ==> c.b == 0
    ensures 0 < Band(Percent(speed, minSpeed, maxSpeed)) < 3 ==> c.g == 255
    ensures minSpeed <= speed <= maxSpeed ==>
      0 <= c.r <= 765 && 0 <= c.g <= 255 && 0 <= c.b <= 765
  {
    var p := Percent(speed, minSpeed, maxSpeed);
    var c := BandColorAsWritten(Band(p), p);
    AsWrittenBounds(p);
    RoundWhole(0);
    RoundWhole(1020);
    c
  }

  /** Component bounds of the as-written ramp on [0, 1]. */
  lemma AsWrittenBounds(p: real)
    ensures 0.0 <= p <= 1.0 ==>
      var c := BandColorAsWritten(Band(p), p);
      0 <= c.r <= 765 && 0 <= c.g <= 255 && 0 <= c.b <= 765
  {
    RoundWhole(0);
    RoundWhole(255);
    RoundWhole(765);
    if !(0.0 <= p <= 1.0) {
    } else if p < 0.25 {
      RoundMonotone(0.0, 255.0 * p * 4.0);
      RoundMonotone(255.0 * p * 4.0, 255.0);
    } else if p < 0.5 {
      RoundMonotone(0.0, 255.0 * (1.0 - p) * 4.0);
      RoundMonotone(255.0 * (1.0 - p) * 4.0, 765.0);
    } else if p < 0.75 {
      RoundMonotone(0.0, 255.0 * p * 4.0);
      RoundMonotone(255.0 * p * 4.0, 765.0);
    } else {
      RoundMonotone(0.0, 255.0 * (1.0 - p) * 4.0);
      RoundMonotone(255.0 * (1.0 - p) * 4.0, 255.0);
    }
  }

  /** In both middle bands the as-written varying component lies in
      510..765 for every fraction, so it is never a valid channel value. */
  lemma AsWrittenMiddleOverflows(p: real)
    requires 0.25 <= p < 0.75
    ensures var c := BandColorAsWritten(Band(p), p);
      && (p < 0.5 ==> 510 <= c.b <= 765)
      && (p >= 0.5 ==> 510 <= c.r <= 765)
      && !InByteRange(c)
  {
    RoundWhole(510);
    RoundWhole(765);
    if p < 0.5 {
      RoundMonotone(510.0, 255.0 * (1.0 - p) * 4.0);
      RoundMonotone(255.0 * (1.0 - p) * 4.0, 765.0);
    } else {
      RoundMonotone(510.0, 255.0 * p * 4.0);
      RoundMonotone(255.0 * p * 4.0, 765.0);
    }
  }

  /** The jump at a quarter of the range: for speed 25 in 0..100 the source
      writes rgb(0,255,765), while band 0's formula tends to rgb(0,255,255)
      as the speed rises to 25. The jump at half the range goes from
      (0,255,510) to (510,255,0). */
  lemma AsWrittenJumps()
    ensures SpeedColorAsWritten(24.9, 0.0, 100.0) == Rgb(0, 254, 255)
    ensures SpeedColorAsWritten(25.0, 0.0, 100.0) == Rgb(0, 255, 765)
    ensures BandColorAsWritten(0, 0.25) == Rgb(0, 255, 255)
    ensures BandColorAsWritten(1, 0.5) == Rgb(0, 255, 510)
    ensures SpeedColorAsWritten(50.0, 0.0, 100.0) == Rgb(510, 255, 0)
    ensures var c, d := BandColorAsWritten(Band(0.249), 0.249), BandColorAsWritten(Band(0.25), 0.25);
      Abs((c.b - d.b) as real) > 1020.0 * Abs(0.249 - 0.25) + 1.0
  {
    assert Percent(24.9, 0.0, 100.0) == 0.249;
    assert Round(253.98) == 254;
    assert Percent(25.0, 0.0, 100.0) == 0.25;
    assert Percent(50.0, 0.0, 100.0) == 0.5;
    RoundWhole(255);
    RoundWhole(510);
    RoundWhole(765);
  }

  /** Band k's colour with the middle bands measured from the middle of the
      range: blue falls from 255 to 0 over the second quarter and red rises
      from 0 to 255 over the third. The outer bands are as the source
      writes them. */
  function BandColor(k: nat, p: real): Rgb
    requires k < 4
  {
    match k
    case 0 => Rgb(0, Round(255.0 * p * 4.0), 255)
    case 1 => Rgb(0, 255, Round(255.0 * (0.5 - p) * 4.0))
    case 2 => Rgb(Round(255.0 * (p - 0.5) * 4.0), 255, 0)
    case _ => Rgb(255, Round(255.0 * (1.0 - p) * 4.0), 0)
  }

  /** The ramp `speed_color` evidently intends: pure blue at the slowest
      speed, pure red at the fastest, every channel in 0..255 for speeds in
      range, and the same colour as the source outside the two middle
      bands. */
  function SpeedColor(speed: real, minSpeed: real, maxSpeed: real): (c: Rgb)
    requires minSpeed < maxSpeed
    ensures speed == minSpeed ==> c == Rgb(0, 0, 255)
    ensures speed == maxSpeed ==> c == Rgb(255, 0, 0)
    ensures minSpeed <= speed <= maxSpeed ==> InByteRange(c)
    ensures Band(Percent(speed, minSpeed, maxSpeed)) in {0, 3} ==>
      c == SpeedColorAsWritten(speed, minSpeed, maxSpeed)
  {
    var p := Percent(speed, minSpeed, maxSpeed);
    RampInByteRange(p);
    RoundWhole(0);
    RoundWhole(1020);
    BandColor(Band(p), p)
  }

  /** Every channel of the corrected ramp is a valid 8-bit value on [0, 1]. */
  lemma RampInByteRange(p: real)
    ensures 0.0 <= p <= 1.0 ==> InByteRange(BandColor(Band(p), p))
  {
    RoundWhole(0);
    RoundWhole(255);
    var v := match Band(p)
      case 0 => 255.0 * p * 4.0
      case 1 => 255.0 * (0.5 - p) * 4.0
      case 2 => 255.0 * (p - 0.5) * 4.0
      case _ => 255.0 * (1.0 - p) * 4.0;
    if 0.0 <= p <= 1.0 {
      assert 0.0 <= v <= 255.0;
      RoundMonotone(0.0, v);
      RoundMonotone(v, 255.0);
    }
  }

  /** The corrected ramp has no jump: at each band boundary the formula of
      the band below gives the same colour as the band that starts there
      (cyan at a quarter, green at a half, yellow at three quarters). */
  lemma RampContinuous(k: nat)
    requires 1 <= k < 4
    ensures BandColor(k - 1, 0.25 * k as real) == BandColor(k, 0.25 * k as real)
    ensures BandColor(k, 0.25 * k as real) == BandColor(Band(0.25 * k as real), 0.25 * k as real)
  {
    RoundWhole(0);
    RoundWhole(255);
  }

  function Abs(v: real): real {
    if v < 0.0 then -v else v
  }

  /** v cut to the channel range [0, 255]. */
  function Clamp(v: real): (w: real)
    ensures 0.0 <= w <= 255.0
    ensures 0.0 <= v <= 255.0 ==> w == v
  {
    if v < 0.0 then 0.0 else if v > 255.0 then 255.0 else v
  }

  function Min(a: real, b: real): real {
    if a <= b then a else b
  }

  /** The corrected ramp, band by band, is a single clamped-linear colour
      per channel: red rises over the third quarter, green rises over the
      first and falls over the last, blue falls over the second. */
  lemma RampIsClampedLinear(p: real)
    requires 0.0 <= p <= 1.0
    ensures BandColor(Band(p), p) == Rgb(Round(Clamp(1020.0 * (p - 0.5))),
                                         Round(Clamp(1020.0 * Min(p, 1.0 - p))),
                                         Round(Clamp(1020.0 * (0.5 - p))))
  {
    RoundWhole(0);
    RoundWhole(255);
  }

  /** Two fractions that are close give colours that are close: no channel
      of the corrected ramp moves by more than 1020 per unit of fraction,
      plus one for rounding, anywhere in [0, 1]. */
  lemma RampHasNoJump(p: real, q: real)
    requires 0.0 <= p <= 1.0 && 0.0 <= q <= 1.0
    ensures var c, d := BandColor(Band(p), p), BandColor(Band(q), q);
      && Abs((c.r - d.r) as real) <= 1020.0 * Abs(p - q) + 1.0
      && Abs((c.g - d.g) as real) <= 1020.0 * Abs(p - q) + 1.0
      && Abs((c.b - d.b) as real) <= 1020.0 * Abs(p - q) + 1.0
  {
    RampIsClampedLinear(p);
    RampIsClampedLinear(q);
  }
}
