# map_gpx in Dafny

A model of the computational core of `bin/map_gpx.rb`, a Ruby script that
reads GPX tracks and draws them as one SVG with segments coloured by speed.
The model covers:

- the Ramer-Douglas-Peucker simplifier (`RamerDouglasPeucker.simplify`,
  `calculate_distance_from_line`), including its averaging of speeds onto
  the retained points;
- a track's limits and speeds (`Track#set_min_max_pos`, `compute_speed`,
  `set_min_max_speed`, `translate`, `invert_y`, and the constructor's order
  of calls);
- the script's global steps (`get_min_max_pos`, `translate`,
  `get_min_max_speed`) and their composition from line 203 to line 224;
- the colour ramp `Point#speed_color`.

Modules, one per file:

- `Wrappers` holds `Option`.
- `Points` holds the point record and its coordinate projections.
- `Limits` holds the nil-initialised min/max record that a Track and the
  global `min_max` hash share, with its folds.
- `RamerDouglasPeucker`, `Tracks`, `SpeedColors` and `MapGpx` hold the code
  named above.
- `PointObjects` models Ruby object identity. It is used to state one of
  the findings below.

Modelling choices:

- Points are values, and operations return new values. `simplify` mutates
  the shared `Point` objects' speeds; it is modelled on an index range of
  one immutable sequence, and the list of speeds is threaded from the left
  half into the right half.
- Distances are compared squared. A zero-length chord gives distance 0,
  which is how Ruby's NaN behaves under `d > dmax`.
- `Math.sqrt` is a parameter `sqrt: real -> real`. Lemmas that need it to
  be a square root say so with `IsSqrt`.
- The model follows the code where it departs from what a reader might
  expect:
  - `simplify` of one point returns that point twice.
  - `simplify` of two points replaces the last point's speed by the mean of
    both speeds.
  - With epsilon 0 `simplify` never terminates, so epsilon > 0 is required.
  - The constructor computes speeds before normalisation. The lemmas
    `Tracks.ComputeSpeedCommutesWithTranslate` and
    `Tracks.ComputeSpeedCommutesWithInvert` show the order makes no
    difference.
  - `speed_color` neither clamps nor guards equal limits.
  - `invert_y` leaves a track's own y limits as they were.
- `translate` and `invert_y` move each point once. That is the corrected behaviour of the second Finding below, and the script model uses it. The source differs only for a file of one point.

## Model

| member | source | states |
|---|---|---|
| Limits.ObserveMin | bin/map_gpx.rb:121 | One step of a running minimum: the result is set, at most the new value and at most the value held, and it is one of the two. Steps of this shape are lines 121, 123, 140, 148, 150 and 177. |
| Limits.ObserveMax | bin/map_gpx.rb:122 | The mirror step of a running maximum, as at lines 122, 124, 141, 149, 151 and 178. |
| Limits.FoldMin | bin/map_gpx.rb:119-126 | The nil-initialised running minimum with strict `<` replacement. It is nil exactly when there is no start value and no value. Otherwise it is the start value or one of the values, and it is at most every value and at most the start value. |
| Limits.FoldMax | bin/map_gpx.rb:119-126 | Mirror of FoldMin for the running maximum with strict `>`. |
| Limits.FoldMinFromUnset | bin/map_gpx.rb:119-126 | Started from nil, the fold is exactly the least value: attained and a lower bound. It is nil for no values. |
| Limits.FoldMaxFromUnset | bin/map_gpx.rb:138-143 | Started from nil, the fold is exactly the greatest value. It is nil for no values. |
| Limits.LeastShifted | bin/map_gpx.rb:92-100 | Subtracting one offset from a least value and from every value keeps it the least value. |
| Limits.GreatestShifted | bin/map_gpx.rb:92-100 | The same for a greatest value. |
| RamerDouglasPeucker.Distance2 | bin/map_gpx.rb:42-45 | The squared point-to-line distance, built from `Cross` (the numerator of line 44) and `ChordLength2` (the square of line 43): for a chord of positive length, times the squared chord length it is the squared cross product. It is non-negative, and it is 0 exactly when the point is on the line or the chord has zero length. |
| RamerDouglasPeucker.EndpointsOnChord | bin/map_gpx.rb:42-45 | Both ends of a chord are at distance 0 from it, so the scan can never choose them. |
| RamerDouglasPeucker.Scan | bin/map_gpx.rb:16-26 | Partway through the scan, dmax bounds every distance seen. The index is the lowest one attaining dmax. The index stays at the first point exactly when dmax is 0. |
| RamerDouglasPeucker.FarthestPoint | bin/map_gpx.rb:16-26 | After the whole scan, a positive maximum is attained at an interior point, the lowest such. Every point of the range is within dmax. |
| RamerDouglasPeucker.SimplifyRange | bin/map_gpx.rb:14-38 | Simplifying a range keeps its first and last index and at least two entries. Every kept index lies in the range, and the speed list keeps its length. |
| RamerDouglasPeucker.KeptIncreasing | bin/map_gpx.rb:28-35 | A range of two or more points keeps strictly increasing indices, so no point is duplicated. A one-point range keeps its point twice. |
| RamerDouglasPeucker.CollapseIffWithinTolerance | bin/map_gpx.rb:28-36 | In both directions: every interior point is closer than epsilon to the chord exactly when the result is the two ends, with the range's mean speed written onto the last one. Otherwise at least three points are kept. |
| RamerDouglasPeucker.SplitPointInterior | bin/map_gpx.rb:16-31 | When a range splits, the split index lies strictly inside it, so both recursive calls shrink. It is at least epsilon away, it is farthest, and it is the lowest farthest index. |
| RamerDouglasPeucker.DroppedNearChordJoin | bin/map_gpx.rb:29-31 | Joining two halves at their shared split point keeps "every dropped point is near its enclosing chord". |
| RamerDouglasPeucker.DroppedPointsNearChord | bin/map_gpx.rb:14-38 | Every dropped point is closer than epsilon to the chord between the two retained points that enclose it, which is the simplifier's guarantee. |
| RamerDouglasPeucker.SpeedWrites | bin/map_gpx.rb:29-35 | Only points after the first of the range can get a new speed, and every point whose speed changes is a retained one. |
| RamerDouglasPeucker.SumBounds | bin/map_gpx.rb:33 | The `inject` sum (`Sum`) of n speeds in [a, b] lies in [n*a, n*b]. |
| RamerDouglasPeucker.MeanBounds | bin/map_gpx.rb:33 | The average speed (`Mean`, line 33) lies between the least and the greatest speed averaged. |
| RamerDouglasPeucker.SpeedsStayWithin | bin/map_gpx.rb:29-35 | Averaging never moves a speed outside the range of the current speeds. |
| RamerDouglasPeucker.KeptMonotoneInTolerance | bin/map_gpx.rb:14-38 | A larger epsilon keeps a subset of the indices a smaller epsilon keeps, whatever the speeds. |
| RamerDouglasPeucker.IncreasingSubsetNoLonger | bin/map_gpx.rb:14-38 | A strictly increasing index list contained in another one is no longer than it. This is the counting step for monotonicity in epsilon. |
| RamerDouglasPeucker.IncreasingLowerBound | bin/map_gpx.rb:14-38 | The k-th of strictly increasing indices at or above lo is at least lo + k. This bounds the result's length by the input's. |
| RamerDouglasPeucker.ClosedLoopCollapses | bin/map_gpx.rb:16-36 | A range whose ends coincide (a closed loop) always collapses to its two ends, because every distance is 0. |
| RamerDouglasPeucker.Select | bin/map_gpx.rb:35 | The returned points, taken at strictly increasing retained indices, form an order-preserving subsequence of the input that agrees with it in position and time and may differ only in speed. |
| RamerDouglasPeucker.Simplify | bin/map_gpx.rb:14-38 | `simplify` returns at least two points. The first is untouched, and the last is at the input's last position. One point gives that point twice. |
| RamerDouglasPeucker.SimplifyIsSubsequence | bin/map_gpx.rb:14-38 | For two or more points the result is an order-preserving subsequence of the input by position, no longer than the input. |
| RamerDouglasPeucker.SimplifyKeepsTimeOrder | bin/map_gpx.rb:14-38 | A track in timestamp order stays in timestamp order. |
| RamerDouglasPeucker.SimplifyKeepsZeroSpeeds | bin/map_gpx.rb:33-35 | On freshly parsed points, whose speed is 0 (line 58), every speed stays 0. |
| RamerDouglasPeucker.SimplifyTwoPoints | bin/map_gpx.rb:28-36 | A two-point track comes back with its last speed replaced by the mean of both. |
| RamerDouglasPeucker.SimplifyMonotoneInEpsilon | bin/map_gpx.rb:14 | Raising epsilon never lengthens the result. |
| Tracks.SetMinMaxPos | bin/map_gpx.rb:119-126 | From nil limits, the four position limits are exactly the bounds of the points' x and y, and they are set for a non-empty track. Points and speed limits are untouched. |
| Tracks.SetMinMaxSpeed | bin/map_gpx.rb:138-143 | From nil limits, the speed limits are exactly the least and greatest point speed. Nothing else changes. |
| Tracks.SegmentDependsOnPosition | bin/map_gpx.rb:131-133 | A segment's elapsed time (`Elapsed`) and speed (`SegmentSpeed`, from `Distance`) depend only on the positions and times of its two points, not on their speeds. |
| Tracks.UpdateKeepsSegments | bin/map_gpx.rb:128-136 | Writing one point's speed (`UpdateSpeedAt`, one pass of lines 130-133) changes no segment's elapsed time or speed. This is why the in-place loop equals a closed form. |
| Tracks.ComputeSpeedFrom | bin/map_gpx.rb:128-136 | The loop from a given index on changes only speeds. Points before the index, and points whose elapsed time is not positive, are untouched. The others get distance / time * 100. |
| Tracks.ComputeSpeed | bin/map_gpx.rb:128-136 | `compute_speed`: positions and times are kept and the first point is untouched. A point reached in positive time gets distance / time * 100 from its predecessor; any other point keeps its speed. |
| Tracks.Translate | bin/map_gpx.rb:92-101 | `Track#translate` shifts every point once (`TranslatePoints`) and keeps exact limits exact. Speeds and speed limits are unchanged. |
| Tracks.InvertY | bin/map_gpx.rb:103-107 | `invert_y` mirrors every point's y once (`InvertPoints`), and keeps x, speeds and all of the track's limits. |
| Tracks.ComputeSpeedIdempotent | bin/map_gpx.rb:128-136 | Running `compute_speed` twice gives the same as once. |
| Tracks.ComputeSpeedNonNegative | bin/map_gpx.rb:128-136 | With a real square root and non-negative starting speeds, every computed speed is non-negative. |
| Tracks.DistanceTranslated | bin/map_gpx.rb:131 | A segment's length does not change when both ends move by the same offset. |
| Tracks.DistanceInverted | bin/map_gpx.rb:131 | A segment's length does not change when both ends are mirrored in y. |
| Tracks.ComputeSpeedCommutesWithTranslate | bin/map_gpx.rb:80-101 | Computing speeds before or after `translate` gives the same points. |
| Tracks.ComputeSpeedCommutesWithInvert | bin/map_gpx.rb:103-136 | Computing speeds before or after `invert_y` gives the same points. |
| Tracks.InvertYInvolutive | bin/map_gpx.rb:103-107 | Flipping twice about the same height restores the track. |
| Tracks.InvertYReversesOrder | bin/map_gpx.rb:103-107 | In both directions: one point is below another exactly when it is above it after the flip. Points in [0, max_y] stay there, with x kept. |
| Tracks.NewTrack | bin/map_gpx.rb:80-90 | `Track.new` yields at least two points and all six limits set. Position and speed limits are exactly the bounds of its points. |
| PointObjects.TranslateInPlace | bin/map_gpx.rb:97-100 | On objects, `translate` touches only the listed objects. |
| PointObjects.InvertInPlace | bin/map_gpx.rb:103-107 | On objects, `invert_y` touches only the listed objects. |
| PointObjects.TranslateEachOnce | bin/map_gpx.rb:97-100 | When no object is listed twice, each listed object is shifted exactly once. |
| PointObjects.TranslateInPlaceDistinct | bin/map_gpx.rb:97-100 | When no object is listed twice, the in-place loop gives the value-level translation. |
| PointObjects.InvertEachOnce | bin/map_gpx.rb:103-107 | When no object is listed twice, each listed object is flipped exactly once. |
| PointObjects.InvertInPlaceDistinct | bin/map_gpx.rb:103-107 | When no object is listed twice, the in-place loop gives the value-level flip. |
| PointObjects.SimplifySharesOnlySinglePoint | bin/map_gpx.rb:35 | `simplify` returns distinct objects for two or more points, and one object twice for one point. |
| PointObjects.SimplifiedObjectsMoveOnce | bin/map_gpx.rb:97-106 | For a file of two or more points (line 35 returns distinct objects), whatever the objects `simplify` returned hold, moving them in place shifts and flips each retained point once, as the value model does. |
| PointObjects.SharedPointShiftedTwice | bin/map_gpx.rb:97-100 | As written, a one-point track's point is shifted twice, ending at x - 2*dx. It differs from the value-level translation whenever the offset is non-zero. |
| PointObjects.SharedPointNotFlipped | bin/map_gpx.rb:103-107 | As written, a one-point track's point is flipped twice, that is, not at all. |
| SpeedColors.Round | bin/map_gpx.rb:63-69 | Ruby's `round` gives the nearest integer, with ties away from zero. |
| SpeedColors.Percent | bin/map_gpx.rb:61 | The fraction lies in [0, 1] for speeds within the limits. It is 0 exactly at the minimum and 1 exactly at the maximum. |
| SpeedColors.Band | bin/map_gpx.rb:62-70 | Selects the if/elsif branch: band 0 below a quarter, band 3 from three quarters, the middle bands by quarter. |
| SpeedColors.SpeedColorAsWritten | bin/map_gpx.rb:60-71 | As written: pure blue at the minimum and pure red at the maximum. Red is off in the lower half and blue in the upper half, and green is full in the middle half. Components lie in 0..765. The four branch formulas are `BandColorAsWritten`. |
| SpeedColors.AsWrittenBounds | bin/map_gpx.rb:62-70 | As written, on [0, 1], red and blue lie in 0..765 and green in 0..255. |
| SpeedColors.AsWrittenMiddleOverflows | bin/map_gpx.rb:64-67 | As written, the varying component of both middle bands is always in 510..765, never a valid channel. |
| SpeedColors.AsWrittenJumps | bin/map_gpx.rb:62-67 | As written, speed 25 of 0..100 gives rgb(0,255,765) and 24.9 gives rgb(0,254,255): a jump of 510 over a step of 0.001. |
| SpeedColors.SpeedColor | bin/map_gpx.rb:60-71 | Corrected ramp: pure blue at the minimum, pure red at the maximum, every channel in 0..255 within the limits. It equals the as-written colour in the outer bands. |
| SpeedColors.RampInByteRange | bin/map_gpx.rb:62-70 | Corrected ramp: every channel is in 0..255 on [0, 1]. |
| SpeedColors.RampContinuous | bin/map_gpx.rb:62-70 | Corrected ramp: at each band boundary the formula of the band below gives the colour of the band starting there. |
| SpeedColors.RampIsClampedLinear | bin/map_gpx.rb:62-70 | Corrected ramp: it equals an independent definition with one clamped linear function per channel. |
| SpeedColors.RampHasNoJump | bin/map_gpx.rb:62-70 | Corrected ramp: no channel moves by more than 1020 per unit of fraction, plus one for rounding, anywhere in [0, 1]. |
| MapGpx.GetMinMaxPos | bin/map_gpx.rb:146-153 | Folds the tracks' position limits into the global ones, leaving the speed entries alone. The result is set once there is a track. |
| MapGpx.GetMinMaxPosBoundsUnion | bin/map_gpx.rb:146-153 | From nil, the global limits are exactly the bounding box of all points of all tracks. Every point is inside, and each edge is touched by some point. |
| MapGpx.FrameMaxY | bin/map_gpx.rb:166-169 | The flip height is non-negative and at least every track's max_y. It is 0 or some track's max_y. |
| MapGpx.TranslateAll | bin/map_gpx.rb:155-173 | `translate` shifts every track (`ShiftAll`) and then flips every track (`InvertAll`) about `FrameMaxY`. It keeps the track count, sets all position limits and leaves the global speed entries alone. |
| MapGpx.TranslateKeepsSpeeds | bin/map_gpx.rb:155-173 | `translate` keeps every track's length, speeds and speed limits. |
| MapGpx.ShiftedTopBelow | bin/map_gpx.rb:92-101 | When every point lies at or below max_y, the track's translated max_y is at most max_y - min_y. |
| MapGpx.ShiftedTopAbove | bin/map_gpx.rb:92-101 | A translated track's max_y is at least each translated point's y. |
| MapGpx.FlipHeightIsFrameHeight | bin/map_gpx.rb:155-169 | The flip height equals the global frame's height, max_y - min_y. |
| MapGpx.PointMoves | bin/map_gpx.rb:155-173 | Each point's x is shifted, its y is shifted and then flipped about the flip height, and its time is kept. |
| MapGpx.PointsMove | bin/map_gpx.rb:155-173 | With the flip height equal to the frame's height, each point ends at x - min_x and max_y - y. |
| MapGpx.TranslateStaysInFrame | bin/map_gpx.rb:155-173 | After `translate`, every point lies in [0, max_x - min_x] x [0, max_y - min_y]. |
| MapGpx.MovedPoint | bin/map_gpx.rb:155-173 | A moved point keeps its distances to the frame edges, with the y edges swapped. |
| MapGpx.LeftEdgeTouched | bin/map_gpx.rb:155-173 | The leftmost point lands on x = 0. |
| MapGpx.RightEdgeTouched | bin/map_gpx.rb:155-173 | The rightmost point lands on the right edge. |
| MapGpx.TopEdgeTouched | bin/map_gpx.rb:155-173 | The highest point lands on y = 0, the top of the SVG canvas. |
| MapGpx.BottomEdgeTouched | bin/map_gpx.rb:155-173 | The lowest point lands on the bottom edge. |
| MapGpx.TranslateTouchesFrame | bin/map_gpx.rb:155-173 | After `translate`, each edge of the frame is still touched by some point. |
| MapGpx.TranslateNormalizes | bin/map_gpx.rb:155-173 | For an exact frame: the new frame starts at the origin with the old width and height. It holds every point and each edge is touched. Each point's x is shifted, and its y is shifted and then flipped. |
| MapGpx.GetMinMaxSpeed | bin/map_gpx.rb:175-180 | Folds the tracks' speed limits into the global ones, leaving the position entries alone. |
| MapGpx.GetMinMaxSpeedBoundsUnion | bin/map_gpx.rb:175-180 | From nil, the global speed limits are exactly the slowest and fastest speed over all points of all tracks. |
| MapGpx.LoadTracks | bin/map_gpx.rb:203-208 | Every non-empty GPX file yields a track of at least two points whose position and speed limits are set and exact. |
| MapGpx.Normalize | bin/map_gpx.rb:210-224 | From a nil hash, the global limits all end up set and the track count is kept. |
| MapGpx.NormalizeFrame | bin/map_gpx.rb:210-221 | After the global steps, the frame starts at the origin, holds every point, and each edge is touched. |
| MapGpx.FrameIgnoresSpeeds | bin/map_gpx.rb:223-224 | Taking the speed limits does not change which points the frame holds or touches. |
| MapGpx.NormalizeSpeeds | bin/map_gpx.rb:210-224 | After the global steps, the speed limits are exactly the slowest and fastest point. Every track keeps exact speed limits of its own. |
| MapGpx.MapGpx | bin/map_gpx.rb:203-224 | The whole script yields one track per file, each of at least two points, with all global limits set. |
| MapGpx.MapGpxDrawing | bin/map_gpx.rb:203-224 | End to end: the frame starts at the origin, holds every point and each edge is touched. Every point's speed is within the global speed limits, and per-track speed limits are exact. |
| MapGpx.TrackColorsInByteRange | bin/map_gpx.rb:186-191 | On a track with exact speed limits, as every drawn track has, every segment colour of the corrected ramp is a valid 8-bit colour. |

## Left out

- `parse_gpx` and the file listing of lines 206-208 are left out because they are XML and file I/O. Each file arrives as a sequence of already parsed points.
- `Point#initialize` (lines 54-59) is left out: scaling by 10000, rounding to 2 decimals and date parsing are all parsing. Points are given as values; their initial speed of 0 is covered by SimplifyKeepsZeroSpeeds.
- `generate_svg`, the `AIR` margin, the rounding of coordinates to 2 decimals and the stroke attributes are left out because they are SVG output. Only the colour it asks for is modelled.
- The `puts` progress messages are left out because they are console output.
- Floating point is modelled as exact real arithmetic. Rounding error, NaN and infinities are not modelled.
- Ruby's Integer speeds are not modelled: the initial speeds are Integer 0, and `simplify`'s mean uses integer division only when every averaged speed is that Integer 0, which gives the same 0.
- `Math.sqrt` is an abstract parameter, because the reals have no square root. Speeds are stated in terms of it.
- `Math.hypot` is not computed: distances are compared squared, which gives the same order.
- Tracks.ComputeSpeed: speeds are stated relative to the `sqrt` parameter. With a real square root they are the segment lengths over time, which is not proved for any concrete `sqrt`.
- RamerDouglasPeucker.Simplify: requires epsilon > 0, because with epsilon 0 the source recurses forever on a one-point range.
- RamerDouglasPeucker.Simplify: requires at least one point. For an empty GPX file the source divides the Integer 0 by 0 at line 33 and raises ZeroDivisionError.
- MapGpx.MapGpx: requires at least one file. With no file, the nil global limits reach `translate` and the source fails.
- SpeedColors.Percent: requires min_speed < max_speed. The source divides without a guard and fails on equal limits (integer zero division, or NaN reaching `round`). No clamp is applied, as in the source.
- Tracks.InvertY: the track's own y limits stay stale, as in the source. Nothing after this point reads a track's own position limits; line 191 reads only its speed limits.
- PointObjects models object identity for `translate` and `invert_y` only. `compute_speed` on values matches the source even for the shared one-point case, because that point's second visit has elapsed time 0 and gets no new speed.
- Tracks.Translate: shifts each point once, the corrected behaviour of the second Finding. For a one-point file the source shifts its one point twice. For two or more points the two agree (PointObjects.SimplifiedObjectsMoveOnce).
- Tracks.InvertY: flips each point once, the corrected behaviour of the second Finding. For a one-point file the source flips its one point twice, so it does not flip it at all.
- MapGpx.TranslateAll: built on Tracks.Translate and Tracks.InvertY, so it states the corrected behaviour. For a one-point file the source's point ends shifted twice and not flipped.
- MapGpx.ShiftedTopAbove: holds for the corrected translation only. In the source a one-point track's point, shifted twice, can lie above its track's max_y.
- MapGpx.PointMoves: states the corrected once-per-point move. A one-point file's point ends elsewhere in the source.
- MapGpx.PointsMove: the same one-point gap as PointMoves.
- MapGpx.TranslateStaysInFrame: holds for the corrected translation only. In the source a one-point file's point can land outside the frame.
- MapGpx.MovedPoint: the same one-point gap as PointMoves.
- MapGpx.LeftEdgeTouched: holds for the corrected translation only. If a one-point file holds the leftmost point, the source puts it at -min_x, not at 0.
- MapGpx.RightEdgeTouched: the same one-point gap as LeftEdgeTouched.
- MapGpx.TopEdgeTouched: the same one-point gap as LeftEdgeTouched.
- MapGpx.BottomEdgeTouched: the same one-point gap as LeftEdgeTouched.
- MapGpx.TranslateTouchesFrame: the same one-point gap as LeftEdgeTouched.
- MapGpx.TranslateNormalizes: "holds every point" and "each edge is touched" hold for the corrected translation only, not for a one-point file in the source.
- MapGpx.NormalizeFrame: the same one-point gap as TranslateNormalizes.
- MapGpx.MapGpxDrawing: the frame claims hold for the corrected translation only. When every file has at least two points, the source moves each point once too (PointObjects.SimplifiedObjectsMoveOnce). The speed claims hold for the source as well.

## Findings

| source | as written | input that shows it | evidently intended | confidence | as-written member | corrected member |
|---|---|---|---|---|---|---|
| bin/map_gpx.rb:64-67 | The middle bands use `255 * (1 - percent) * 4` for blue and `255 * percent * 4` for red. Both give 510..765, past a channel's 255, so the ramp jumps at a quarter and at a half of the range. | speed 25 with limits 0..100 gives rgb(0,255,765), and speed 24.9 gives rgb(0,254,255) | `(0.5 - percent)` for blue and `(percent - 0.5)` for red, so every channel stays in 0..255 and the colour has no jump | not executed; high | SpeedColors.AsWrittenJumps | SpeedColors.SpeedColor |
| bin/map_gpx.rb:35, 97-100 | A one-point track holds one `Point` object twice, so `Track#translate` shifts it twice and `invert_y` flips it twice, that is, not at all. The run then stops before drawing it: that track's speed limits are both the Integer 0, so `speed_color` (line 61, called from line 191) divides 0 by 0. | a one-point track at x = 5 with global min_x = 3 ends at x = -1, while its own min_x becomes 2 | each point shifted once, to x = 2, and flipped once | not executed; medium | PointObjects.SharedPointShiftedTwice | Tracks.Translate |
