# Polargraph line engine

A Dafny model of the drawing engine of the Polargraph SVG converter. The converter turns a grayscale
image into horizontal wavy polylines for a pen plotter. Rows are scanned at y = 0, s, 2s, … while y
lies inside the image. For each scan row:

- the pixels of image row `int(y)` become darkness values `1 - gray/255`;
- the row is cut into segments wherever a column is lighter than the threshold 0.1;
- every other column gets a point lifted off the nominal y by a darkness-modulated wave;
- if the previous non-empty row comes closer than 0.8 in some shared column, the new row is pushed
  down until it clears;
- polylines with at least two points are emitted.

The modules follow the stages of the converter:

- `Geometry`: points `(x: int, y: real)`, polylines (`Segment`), rows of polylines (`Row`),
  `Option` for the source's `float('inf')`, and well-formedness (non-empty polylines with strictly
  increasing columns).
- `Darkness`: the gray-to-darkness map.
- `Wave`: the row synthesizer. `GenerateWaveLineSegments` is the column loop, proved equal to the
  reference fold `WaveSegments`. The segmentation facts are proved about that fold through a scan
  invariant: maximal runs, order, coverage, whole-row cases, and columns independent of the wave.
- `Collision`: the clearance checker. `CheckSegmentCollision` is the four nested loops, proved to
  return the exact minimum gap over the compared pairs and to report a collision iff that minimum
  is below the clearance.
- `Clearance`: the clearance adjuster. `AdjustSegmentsForClearance` is the nested loops with their
  early `break`, proved equal to `AdjustedRow`. The floor properties are proved about that
  function.
- `Pipeline`: the row loop as methods with loop invariants.
  - `GenerateDrawing` and `ScanRows` run the loop; `ScanRow` is one iteration, and `SynthesizeRow`,
    `ResolveCollision`, `AcceptRow` and `EmitRow` are its parts.
  - The loop is proved equal to a fold (`FoldRows`/`Accept`) over the synthesized rows. The fold is
    proved to keep the loop's invariant (`Consistent`).

Notes on what the code does, which the model follows:

- Zero amplitude flattens a row only in the non-organic style. In organic mode the per-point wobble
  is added to the offset even when the amplitude scale is 0. `Wave.ZeroAmplitudeIsFlat` therefore
  requires the non-organic style, and `Wave.OrganicZeroAmplitudeNotFlat` proves an organic offset
  of 0.5 at amplitude scale 0.
- A row accepted without adjustment is only guaranteed to keep `|dy| >= 0.8` from the previous
  accepted row in every shared column (`Collision.KeepsClearance`); it may lie above it and may
  cross it between two columns (`Pipeline.UnadjustedRowMayCross`). Only an
  adjusted row is guaranteed to lie at least 0.8 below every previous point in its columns
  (`Clearance.AdjustClearsPrevious`). `Pipeline.Consistent` states the invariant in the form the
  code keeps.
- The clearance functions default to a clearance of 1.0, but the row loop always passes 0.8. The
  model takes the clearance as a parameter, and the pipeline passes `Pipeline.MinClearance` = 0.8.
- An empty row leaves the previous row in place: the last non-empty row stays the reference of the
  collision check.

## Model

| member | source | states |
|---|---|---|
| Darkness.PixelDarkness | polargraph_converter.py:33-43 | for gray levels 0..255 the darkness lies in [0, 1]; gray 0 gives 1 and gray 255 gives 0 |
| Darkness.DarknessAntitone | polargraph_converter.py:33-43 | a lighter pixel is never darker: darkness never increases with the gray level |
| Darkness.DrawnIffGrayAtMost229 | polargraph_converter.py:33-58 | against the default threshold 0.1, a pixel is drawn exactly when its gray level is at most 229 |
| Wave.WaveOffset | polargraph_converter.py:89-112 | the offset of a point is 0 when the style is not organic and the amplitude scale is 0 |
| Wave.GenerateWaveLineSegments | polargraph_converter.py:46-123 | the column loop returns exactly the reference segmentation `WaveSegments`: background columns close the open segment, drawn columns add `(x, y + offset)` |
| Wave.ScanStepKeeps | polargraph_converter.py:77-117 | one column, background or drawn, keeps the scan invariant: closed runs maximal and ordered, the open run ending at the previous column, points on the wave in draw order |
| Wave.ScanInvariant | polargraph_converter.py:76-118 | after any number of columns the scan state satisfies the scan invariant |
| Wave.SegmentsAreMaximalRuns | polargraph_converter.py:76-121 | every segment is a non-empty run of consecutive drawn columns, maximal on both sides; segments are left to right, separated by at least one background column, and together cover exactly the drawn columns; the row is well-formed |
| Wave.SegmentsFollowWave | polargraph_converter.py:100-117 | the m-th point of the row lies at the nominal y plus the wave offset of its column and darkness, with the m-th wobble draw |
| Wave.ZeroAmplitudeIsFlat | polargraph_converter.py:89-115 | with amplitude scale 0 and no organic style every point lies on the nominal y |
| Wave.ShapeIndependentOfWave | polargraph_converter.py:76-121 | the columns of the segments depend only on the darkness values and the threshold, not on y, the style, the sine or the random draws |
| Wave.AllBackgroundRowIsEmpty | polargraph_converter.py:76-123 | a row lighter than the threshold everywhere yields no segment |
| Wave.AllDrawnRowIsOneSegment | polargraph_converter.py:76-123 | a row drawn everywhere yields one segment with columns 0 .. width-1 |
| Collision.MinWithInfinity | polargraph_converter.py:141-160 | the running minimum with `None` as infinity is at most the new distance and the old minimum, and is one of them |
| Collision.VisitPair | polargraph_converter.py:157-160 | looking at one point pair extends the running minimum, and its witness pair, to that pair |
| Collision.ComparePolylines | polargraph_converter.py:153-160 | comparing every point of two overlapping polylines extends the running minimum over all their same-column pairs |
| Collision.CheckSegmentCollision | polargraph_converter.py:126-163 | no distance when no pair is compared (in particular when either row is empty); otherwise the minimum gap over all compared pairs, attained by one of them; collision iff that minimum is below the clearance, i.e. iff some compared pair is too close |
| Collision.OverlapNeverExcludes | polargraph_converter.py:147-158 | on well-formed rows a pair is compared exactly when its points share a column: the x-range test skips no same-column pair |
| Collision.NoCollisionIffClearance | polargraph_converter.py:153-162 | on well-formed rows, no collision holds exactly when every shared column keeps the clearance |
| Clearance.AdjustedRow | polargraph_converter.py:181-203 | the adjusted row has the same number of polylines, the same lengths and the same columns |
| Clearance.AdjustSegmentsForClearance | polargraph_converter.py:166-203 | the nested loops, with the early `break` at the first matching previous point, return exactly `AdjustedRow` |
| Clearance.FirstNearFindsColumn | polargraph_converter.py:192-197 | in a polyline with increasing columns, the first point within one column of p is the point in p's column |
| Clearance.RaisedNeverLower | polargraph_converter.py:187-197 | raising a point never decreases its y |
| Clearance.RaisedClearsEvery | polargraph_converter.py:190-197 | the raised y clears the matched point of every previous polyline by the clearance |
| Clearance.RaisedIsTight | polargraph_converter.py:187-197 | the raised y is the original y or exactly the clearance below one matched previous point |
| Clearance.AdjustWithoutPreviousIsIdentity | polargraph_converter.py:178-179 | without a previous row the adjustment returns its input unchanged |
| Clearance.AdjustNeverLowers | polargraph_converter.py:186-199 | no point moves up |
| Clearance.AdjustClearsPrevious | polargraph_converter.py:186-199 | against a well-formed previous row, every adjusted point lies at least the clearance below every previous point in its column |
| Clearance.AdjustIsLeastFloor | polargraph_converter.py:186-199 | every adjusted y is the original y or the clearance below some previous point in the same column |
| Clearance.AdjustKeepsUnmatched | polargraph_converter.py:186-199 | a point with no previous point in its column is unchanged |
| Clearance.AdjustedHasNoCollision | polargraph_converter.py:186-199 | after adjustment against a well-formed previous row the check finds no collision, and every shared column keeps the clearance |
| Clearance.AdjustKeepsShape | polargraph_converter.py:183-203 | adjustment keeps the columns of every polyline, hence well-formedness |
| Pipeline.RowDarkness | polargraph_converter.py:252-256 | a row of gray levels 0..255 becomes a darkness profile of the same width with every value in [0, 1] |
| Pipeline.RowAt | polargraph_converter.py:249-260 | the row synthesized at y from pixel row `int(y)` is well-formed |
| Pipeline.SynthesizeRow | polargraph_converter.py:249-260 | the darkness loop and the synthesizer give the reference row `RowAt`, which is well-formed |
| Pipeline.ResolveCollision | polargraph_converter.py:268-273 | a collision is reported iff there is a non-empty previous row and the check finds one; the accepted row is then the adjusted row, otherwise the row itself |
| Pipeline.EmitRow | polargraph_converter.py:276-279 | appends exactly the polylines with at least two points, in order |
| Pipeline.Drawable | polargraph_converter.py:276-277 | a polyline is emitted iff it belongs to the row and has at least two points |
| Pipeline.Emitted | polargraph_converter.py:276-279 | every emitted polyline has at least two points |
| Pipeline.AcceptRow | polargraph_converter.py:267-282 | one iteration on a non-empty row takes the loop's previous row, collision count and emitted polylines to the fold step `Accept` |
| Pipeline.ScanRow | polargraph_converter.py:247-285 | one iteration counts the row, advances y by the spacing, and leaves the loop's variables equal to the fold over one more row |
| Pipeline.ScanRows | polargraph_converter.py:240-285 | the loop ends with y outside the image after the last row inside it, and its variables are the fold over the rows at y = 0, s, …; the loop terminates |
| Pipeline.GenerateDrawing | polargraph_converter.py:240-285 | the emitted polylines and the collision count are those of the fold over all scan rows; the collision count is at most the row count; every emitted polyline has at least two points |
| Pipeline.ScanY | polargraph_converter.py:246-285 | scan positions are non-negative for a non-negative spacing |
| Pipeline.ScanYIsProduct | polargraph_converter.py:246-285 | the k-th scan position is k times the spacing |
| Pipeline.ScanYMonotone | polargraph_converter.py:246-285 | scan positions grow with the row number |
| Pipeline.LineBoundExists | polargraph_converter.py:247-285 | for a positive spacing some scan position lies outside the image, so the loop is bounded |
| Pipeline.AcceptKeepsConsistent | polargraph_converter.py:262-282 | one iteration keeps the invariant: the previous row is the last accepted one, accepted rows are non-empty and well-formed, consecutive accepted rows keep the clearance in every shared column; the count grows by at most one |
| Pipeline.AppendKeepsConsistent | polargraph_converter.py:276-282 | making a non-empty well-formed row that clears the previous one the new previous row keeps the invariant |
| Pipeline.FoldIsConsistent | polargraph_converter.py:246-285 | over any sequence of well-formed rows the invariant holds and the collision count is at most the number of rows |
| Pipeline.DrawingIsConsistent | polargraph_converter.py:246-285 | after any number of scan rows the loop's state keeps the invariant and its previous row is well-formed |
| Pipeline.AcceptedAreNonEmptyRows | polargraph_converter.py:262-282 | one accepted row per non-empty synthesized row, in order, with the same columns (an adjusted row differs from its synthesized row only in y): empty rows never replace the previous row |
| Wave.OrganicZeroAmplitudeNotFlat | polargraph_converter.py:100-112 | in the organic style the wobble lifts a point off the nominal y even at amplitude scale 0 |
| Pipeline.UnadjustedRowMayCross | polargraph_converter.py:268-273 | a row that the check passes lies within the clearance above the previous row and crosses it between columns, and the loop accepts it unadjusted |

## Left out

- Image loading and pixel access (`convert_to_grayscale`, `getpixel`) are file I/O and library calls. The image is an input grid of gray levels, one sequence per pixel row.
- `math.sin` is a parameter `sine: real -> real`; its values are not modelled.
- The random number generator is a parameter `rng` mapping a seed to the stream of `random.random()` values after `random.seed(seed)`. `random.uniform(a, b)` is `a + (b - a) * u` on a draw `u`. Per organic row, draw 0 is the phase, draw 1 the frequency variation and draw k + 2 the wobble of the k-th drawn point. `Pipeline.RowDraws` picks the stream of each row: in organic mode the source reseeds with `random.seed(42 + int(y * 1000))` before every row, so the row at y uses `rng(42 + Floor(y * 1000))` and the rows are reproducible; rows that are not organic never draw.
- `Wave.TwoPi` is the shortest decimal that rounds to the double `2 * math.pi`, not the real number 2π.
- Floating-point rounding is not modelled; all coordinates are exact reals. The scan position is the exact sum `ScanY`. `int(y)` and `int(y * 1000)` are `Floor` of non-negative reals, which agrees with Python's truncation for these values.
- The SVG document itself is left out: header, footer, `{:.2f}` formatting, file writing and status messages. The model emits the polylines, point by point, in document order.
- `main`, argument parsing and the validation of its arguments are left out. The validation also ensures a non-negative amplitude scale, which the model does not need. The only consequence the model needs, a positive line spacing, is a precondition of `Pipeline.GenerateDrawing`; with a zero spacing the source loop never ends; with a negative one `y` falls without bound and the loop stops only when the pixel read at `int(y)` leaves the image and raises an error.
- The `line_spacing` argument of `generate_wave_line_segments` is never used in its body and is not a parameter of the model.
- The minimum distance returned by the collision check is unused by the row loop; the model still returns it.
- `demo.py` and `create_examples.py` are scripts that draw images and run the converter as a subprocess; they are not part of this model.
- Collision.CheckSegmentCollision: requires non-empty polylines when both rows are non-empty; the source would fail indexing an empty polyline, and the synthesizer never produces one.
- Clearance.AdjustClearsPrevious: the floor is stated against previous rows whose polylines have increasing columns, the only rows the pipeline produces. Against other rows the `break` keeps only the first point within one column.
- Collision.OverlapNeverExcludes: stated for well-formed rows only. On other rows the x-range test of the source can skip a same-column pair.
- Pipeline.AcceptKeepsConsistent: the invariant between consecutive accepted rows is `|dy| >= 0.8` in every shared column, not "each row lies at least 0.8 below the previous one" and not "strokes never cross". The source checks only the gap at shared integer columns and adjusts only on a collision, and `Pipeline.UnadjustedRowMayCross` gives an accepted row above the previous one that crosses it.
- Wave.ZeroAmplitudeIsFlat: stated for the non-organic style only. The organic wobble is added even at amplitude scale 0, and `Wave.OrganicZeroAmplitudeNotFlat` gives an organic offset of 0.5 at amplitude scale 0.
