/**
 * The wave synthesizer: one scan row of darkness values becomes the polylines drawn for that row.
 * Columns lighter than the threshold are skipped and split the row into segments; every other
 * column gets a point displaced from the row's nominal y by a darkness-modulated wave.
 *
 * The lemmas about one column state `ScanInv(before) ==> ScanInv(after)` and take both the
 * column `x` and the prefix length `n == x + 1` as parameters. This keeps the invariant folded up
 * at their call sites, which the solver handles far more cheaply than an unfolded precondition.
 */
module Wave {
  import opened Geometry

  /** Columns whose darkness is below this are background (about gray level 230 and lighter). */
  const DefaultThreshold: real := 0.1
  const BaseFrequency: real := 0.1
  /** The shortest decimal that rounds to the double `2 * math.pi`. */
  const TwoPi: real := 6.283185307179586

  /**
   * The wave parameters of a row. `organic` adds a random phase, a random frequency variation,
   * a random wobble per point and an easing factor.
   */
  datatype WaveStyle = WaveStyle(amplitudeScale: real, organic: bool)

  /** `random.uniform(lo, hi)` for the underlying draw `u` of `random.random()`. */
  function Uniform(lo: real, hi: real, u: real): real
  {
    lo + (hi - lo) * u
  }

  /**
   * The vertical displacement of the point at column `x`. `sine` stands for `math.sin`;
   * `draws` is the stream of `random.random()` values of this row: draw 0 is the phase, draw 1
   * the frequency variation, and draw `k + 2` the wobble of the `k`-th point of the row.
   * Only organic rows consult `draws`.
   */
  function WaveOffset(style: WaveStyle, sine: real -> real, draws: nat -> real,
                      x: int, darkness: real, k: nat): (offset: real)
    ensures !style.organic && style.amplitudeScale == 0.0 ==> offset == 0.0
  {
    var phase := if style.organic then Uniform(0.0, TwoPi, draws(0)) else 0.0;
    var variation := if style.organic then Uniform(0.8, 1.2, draws(1)) else 1.0;
    var amplitude := darkness * style.amplitudeScale;
    var frequency := BaseFrequency + darkness * 0.2;
    var frequency' := if style.organic then frequency * variation else frequency;
    var wave := amplitude * sine(x as real * frequency' + phase);
    if style.organic then
      var wobble := Uniform(-0.5, 0.5, draws(k + 2)) * darkness;
      var ease := sine(x as real * frequency' * 2.0) * 0.3 + 1.0;
      (wave + wobble) * ease
    else
      wave
  }

  /**
   * A displacement rule: the offset of the point at column `x` of darkness `d`, `k` being the
   * number of points drawn before it in the row.
   */
  type Offset = (int, real, nat) -> real

  /** The displacement rule of a row: its wave offset. */
  function RowOffset(style: WaveStyle, sine: real -> real, draws: nat -> real): Offset
  {
    (x: int, d: real, k: nat) => WaveOffset(style, sine, draws, x, d, k)
  }

  /** The state of the left-to-right scan: the closed segments, the open one, the points drawn. */
  datatype Scan = Scan(closed: Row, open: Segment, drawn: nat)

  /** The segments of a scan once its open segment (if any) is closed. */
  function Flush(s: Scan): Row
  {
    if s.open != [] then s.closed + [s.open] else s.closed
  }

  /**
   * The scan after looking at column `x`: a background column closes the open segment; any
   * other column adds its point, displaced by `offset`, to the open segment.
   */
  function Step(s: Scan, y: real, darkness: seq<real>, threshold: real, offset: Offset, x: nat): Scan
    requires x < |darkness|
  {
    if darkness[x] < threshold then Scan(Flush(s), [], s.drawn)
    else Scan(s.closed, s.open + [Point(x, y + offset(x, darkness[x], s.drawn))], s.drawn + 1)
  }

  /** The scan after the first `n` columns. */
  function ScanPrefix(y: real, darkness: seq<real>, threshold: real, offset: Offset, n: nat): Scan
    requires n <= |darkness|
  {
    if n == 0 then Scan([], [], 0)
    else Step(ScanPrefix(y, darkness, threshold, offset, n - 1), y, darkness, threshold, offset, n - 1)
  }

  /** What `generate_wave_line_segments` returns for a row of `width` columns. */
  function WaveSegments(y: real, width: nat, darkness: seq<real>, threshold: real, style: WaveStyle,
                        sine: real -> real, draws: nat -> real): Row
    requires width <= |darkness|
  {
    Flush(ScanPrefix(y, darkness, threshold, RowOffset(style, sine, draws), width))
  }

  method GenerateWaveLineSegments(y: real, width: nat, darkness: seq<real>, threshold: real,
                                  style: WaveStyle, sine: real -> real, draws: nat -> real)
    returns (segments: Row)
    requires width <= |darkness|
    ensures segments == WaveSegments(y, width, darkness, threshold, style, sine, draws)
  {
    segments := [];
    var current: Segment := [];
    var drawn: nat := 0;
    for x := 0 to width
      invariant ScanPrefix(y, darkness, threshold, RowOffset(style, sine, draws), x) == Scan(segments, current, drawn)
    {
      ScanPrefixNext(y, darkness, threshold, RowOffset(style, sine, draws), x, Scan(segments, current, drawn));
      var d := darkness[x];
      if d < threshold {
        StepSkips(Scan(segments, current, drawn), y, darkness, threshold, RowOffset(style, sine, draws), x);
        if current != [] {
          segments := segments + [current];
          current := [];
        }
        continue;
      }
      var offset := WaveOffset(style, sine, draws, x, d, drawn);
      assert RowOffset(style, sine, draws)(x, d, drawn) == offset;
      StepDraws(Scan(segments, current, drawn), y, darkness, threshold, RowOffset(style, sine, draws), x, offset);
      current := current + [Point(x, y + offset)];
      drawn := drawn + 1;
    }
    if current != [] {
      segments := segments + [current];
    }
  }

  // ---------------------------------------------------------------------------
  // Reference definitions of the segmentation

  /** The drawn columns among the first `n`, in increasing order. */
  function DrawnColumns(darkness: seq<real>, threshold: real, n: nat): seq<int>
    requires n <= |darkness|
  {
    if n == 0 then []
    else DrawnColumns(darkness, threshold, n - 1) + (if darkness[n - 1] >= threshold then [n - 1] else [])
  }

  /** `seg` is a maximal run of consecutive drawn columns within the first `n` columns. */
  predicate IsRun(seg: Segment, darkness: seq<real>, threshold: real, n: nat)
    requires n <= |darkness|
  {
    && |seg| > 0
    && (forall k :: 0 <= k < |seg| ==> seg[k].x == seg[0].x + k)
    && (forall k :: 0 <= k < |seg| ==> 0 <= seg[k].x < n && darkness[seg[k].x] >= threshold)
    && (seg[0].x == 0 || darkness[seg[0].x - 1] < threshold)
    && (Last(seg).x == n - 1 || darkness[Last(seg).x + 1] < threshold)
  }

  /**
   * `row` splits the drawn columns among the first `n` into maximal runs, left to right,
   * consecutive runs being separated by at least one background column.
   */
  predicate Runs(row: Row, darkness: seq<real>, threshold: real, n: nat)
    requires n <= |darkness|
  {
    && (forall i :: 0 <= i < |row| ==> IsRun(row[i], darkness, threshold, n))
    && (forall i, j :: 0 <= i < j < |row| ==> Before(row[i], row[j]))
    && Xs(Points(row)) == DrawnColumns(darkness, threshold, n)
  }

  /** Segment `a` ends at least one background column before segment `b` starts. */
  predicate Before(a: Segment, b: Segment)
  {
    |a| > 0 && |b| > 0 && Last(a).x + 1 < b[0].x
  }

  /** All points of a row, polyline after polyline. */
  function Points(row: Row): seq<Point>
  {
    if row == [] then [] else Points(row[..|row| - 1]) + Last(row)
  }

  /** The `m`-th point lies `offset` below `y` for its column, `m` being its draw index. */
  predicate OnWave(pts: seq<Point>, y: real, darkness: seq<real>, offset: Offset)
  {
    forall m :: 0 <= m < |pts| ==>
      0 <= pts[m].x < |darkness| && pts[m].y == y + offset(pts[m].x, darkness[pts[m].x], m)
  }

  // ---------------------------------------------------------------------------
  // Lemmas

  lemma PointsAppend(row: Row, seg: Segment)
    ensures Points(row + [seg]) == Points(row) + seg
  {
    assert (row + [seg])[..|row|] == row;
  }

  lemma XsAppend(a: seq<Point>, b: seq<Point>)
    ensures Xs(a + b) == Xs(a) + Xs(b)
  {
  }

  lemma {:induction false} PointsContains(row: Row, i: nat, k: nat)
    requires i < |row| && k < |row[i]|
    ensures row[i][k] in Points(row)
  {
    var init := row[..|row| - 1];
    assert row == init + [Last(row)];
    PointsAppend(init, Last(row));
    if i < |row| - 1 {
      assert init[i] == row[i];
      PointsContains(init, i, k);
    }
  }

  /** The invariant of the scan after `n` columns, from which the segmentation properties follow. */
  predicate ScanInv(s: Scan, y: real, darkness: seq<real>, threshold: real, offset: Offset, n: nat)
    requires n <= |darkness|
  {
    RunsInv(s, darkness, threshold, n) && WaveInv(s, y, darkness, offset)
  }

  /** The segments found so far are the maximal runs of the first `n` columns. */
  predicate RunsInv(s: Scan, darkness: seq<real>, threshold: real, n: nat)
    requires n <= |darkness|
  {
    Runs(Flush(s), darkness, threshold, n) && ClosedBefore(s, n) && OpenAt(s, darkness, threshold, n)
  }

  /** Every closed segment ends at least one column before column `n - 1`. */
  predicate ClosedBefore(s: Scan, n: nat)
  {
    forall i :: 0 <= i < |s.closed| ==> |s.closed[i]| > 0 && Last(s.closed[i]).x + 1 < n
  }

  /** The open segment ends at column `n - 1`; without one, that column is background. */
  predicate OpenAt(s: Scan, darkness: seq<real>, threshold: real, n: nat)
    requires n <= |darkness|
  {
    && (s.open != [] ==> Last(s.open).x == n - 1)
    && (s.open == [] ==> n == 0 || darkness[n - 1] < threshold)
  }

  /** The points found so far lie on the wave, in draw order. */
  predicate WaveInv(s: Scan, y: real, darkness: seq<real>, offset: Offset)
  {
    && s.drawn == |Points(Flush(s))|
    && OnWave(Points(Flush(s)), y, darkness, offset)
  }

  lemma PointsOfFlush(s: Scan)
    ensures Points(Flush(s)) == Points(s.closed) + s.open
  {
    if s.open != [] { PointsAppend(s.closed, s.open); }
  }

  /** A background column closes the open segment and changes nothing else. */
  lemma ScanStepSkip(t: Scan, y: real, darkness: seq<real>, threshold: real, offset: Offset, x: nat, n: nat)
    requires n == x + 1 && x < |darkness| && darkness[x] < threshold
    requires ScanInv(t, y, darkness, threshold, offset, x)
    ensures ScanInv(Scan(Flush(t), [], t.drawn), y, darkness, threshold, offset, n)
  {
    var rt := Flush(t);
    assert Flush(Scan(rt, [], t.drawn)) == rt;
    assert DrawnColumns(darkness, threshold, x + 1) == DrawnColumns(darkness, threshold, x);
    forall i | 0 <= i < |rt| ensures IsRun(rt[i], darkness, threshold, x + 1) {
      assert IsRun(rt[i], darkness, threshold, x);
    }
  }

  /** A drawn column extends the open segment, or opens one; the runs stay maximal. */
  lemma ScanStepDrawRuns(t: Scan, darkness: seq<real>, threshold: real, x: nat, n: nat, p: Point)
    requires n == x + 1 && x < |darkness| && darkness[x] >= threshold && p.x == x
    requires RunsInv(t, darkness, threshold, x)
    ensures RunsInv(Scan(t.closed, t.open + [p], t.drawn + 1), darkness, threshold, n)
  {
    assert Flush(Scan(t.closed, t.open + [p], t.drawn + 1)) == t.closed + [t.open + [p]];
    DrawRuns(t, Flush(t), darkness, threshold, x, p);
  }

  /** The runs after a drawn column at `x`. */
  lemma DrawRuns(t: Scan, rt: Row, darkness: seq<real>, threshold: real, x: nat, p: Point)
    requires x < |darkness| && darkness[x] >= threshold && p.x == x
    requires rt == Flush(t) && Runs(rt, darkness, threshold, x)
    requires ClosedBefore(t, x) && OpenAt(t, darkness, threshold, x)
    ensures Runs(t.closed + [t.open + [p]], darkness, threshold, x + 1)
  {
    DrawExtendsColumns(t, darkness, threshold, x, p);
    DrawKeepsRuns(t, rt, darkness, threshold, x, p);
    DrawKeepsOrder(t, rt, darkness, threshold, x, p);
  }

  lemma DrawExtendsColumns(t: Scan, darkness: seq<real>, threshold: real, x: nat, p: Point)
    requires x < |darkness| && darkness[x] >= threshold && p.x == x
    requires Xs(Points(Flush(t))) == DrawnColumns(darkness, threshold, x)
    ensures Xs(Points(t.closed + [t.open + [p]])) == DrawnColumns(darkness, threshold, x + 1)
  {
    var rt := Flush(t);
    var r := t.closed + [t.open + [p]];
    PointsOfFlush(t);
    PointsAppend(t.closed, t.open + [p]);
    assert Points(r) == Points(rt) + [p];
    XsAppend(Points(rt), [p]);
  }

  /** A run that ends before column `x - 1` is still a maximal run once column `x` is seen. */
  lemma RunStays(seg: Segment, darkness: seq<real>, threshold: real, x: nat)
    requires x < |darkness| && IsRun(seg, darkness, threshold, x) && Last(seg).x + 1 < x
    ensures IsRun(seg, darkness, threshold, x + 1)
  {
  }

  /** The run ending at column `x - 1` grows by the drawn column `x`. */
  lemma RunExtends(seg: Segment, darkness: seq<real>, threshold: real, x: nat, p: Point)
    requires x < |darkness| && darkness[x] >= threshold && p.x == x
    requires IsRun(seg, darkness, threshold, x) && Last(seg).x == x - 1
    ensures IsRun(seg + [p], darkness, threshold, x + 1)
  {
    var seg' := seg + [p];
    assert forall k :: 0 <= k < |seg| ==> seg'[k] == seg[k];
  }

  /** A drawn column after a background column (or at the left edge) starts a run. */
  lemma RunStarts(darkness: seq<real>, threshold: real, x: nat, p: Point)
    requires x < |darkness| && darkness[x] >= threshold && p.x == x
    requires x == 0 || darkness[x - 1] < threshold
    ensures IsRun([p], darkness, threshold, x + 1)
  {
  }

  lemma DrawKeepsRuns(t: Scan, rt: Row, darkness: seq<real>, threshold: real, x: nat, p: Point)
    requires x < |darkness| && darkness[x] >= threshold && p.x == x
    requires rt == Flush(t) && forall i :: 0 <= i < |rt| ==> IsRun(rt[i], darkness, threshold, x)
    requires ClosedBefore(t, x) && OpenAt(t, darkness, threshold, x)
    ensures var r := t.closed + [t.open + [p]];
      forall i :: 0 <= i < |r| ==> IsRun(r[i], darkness, threshold, x + 1)
  {
    var r := t.closed + [t.open + [p]];
    forall i | 0 <= i < |r| ensures IsRun(r[i], darkness, threshold, x + 1) {
      if i < |t.closed| {
        assert r[i] == rt[i] == t.closed[i];
        RunStays(t.closed[i], darkness, threshold, x);
      } else if t.open != [] {
        assert rt[|rt| - 1] == t.open;
        RunExtends(t.open, darkness, threshold, x, p);
      } else {
        RunStarts(darkness, threshold, x, p);
      }
    }
  }

  lemma DrawKeepsOrder(t: Scan, rt: Row, darkness: seq<real>, threshold: real, x: nat, p: Point)
    requires x < |darkness| && p.x == x
    requires rt == Flush(t) && forall i, j :: 0 <= i < j < |rt| ==> Before(rt[i], rt[j])
    requires ClosedBefore(t, x) && OpenAt(t, darkness, threshold, x)
    ensures var r := t.closed + [t.open + [p]];
      forall i, j :: 0 <= i < j < |r| ==> Before(r[i], r[j])
  {
    var r := t.closed + [t.open + [p]];
    forall i, j | 0 <= i < j < |r| ensures Before(r[i], r[j]) {
      assert rt[i] == t.closed[i];
      if j < |t.closed| {
        assert rt[j] == t.closed[j];
      } else if t.open != [] {
        assert rt[j] == t.open;
      }
    }
  }

  /** A drawn column adds the point on the wave with the next draw index. */
  lemma ScanStepDrawWave(t: Scan, y: real, darkness: seq<real>, offset: Offset, x: nat, p: Point)
    requires x < |darkness|
    requires p == Point(x, y + offset(x, darkness[x], t.drawn))
    requires WaveInv(t, y, darkness, offset)
    ensures WaveInv(Scan(t.closed, t.open + [p], t.drawn + 1), y, darkness, offset)
  {
    var rt := Flush(t);
    var seg := t.open + [p];
    var r := t.closed + [seg];
    assert Flush(Scan(t.closed, seg, t.drawn + 1)) == r;
    PointsOfFlush(t);
    PointsAppend(t.closed, seg);
    assert Points(r) == Points(rt) + [p];
    var pts := Points(r);
    forall m | 0 <= m < |pts|
      ensures 0 <= pts[m].x < |darkness| && pts[m].y == y + offset(pts[m].x, darkness[pts[m].x], m)
    {
      if m < |Points(rt)| {
        assert pts[m] == Points(rt)[m];
      }
    }
  }

  /** Every column keeps the invariant of the scan. */
  lemma ScanStepKeeps(s: Scan, t: Scan, y: real, darkness: seq<real>, threshold: real, offset: Offset, x: nat, n: nat)
    requires n == x + 1 && x < |darkness| && s == Step(t, y, darkness, threshold, offset, x)
    ensures ScanInv(t, y, darkness, threshold, offset, x) ==> ScanInv(s, y, darkness, threshold, offset, n)
  {
    if ScanInv(t, y, darkness, threshold, offset, x) {
      if darkness[x] < threshold {
        assert s == Scan(Flush(t), [], t.drawn);
        ScanStepSkip(t, y, darkness, threshold, offset, x, n);
      } else {
        var p := Point(x, y + offset(x, darkness[x], t.drawn));
        assert s == Scan(t.closed, t.open + [p], t.drawn + 1);
        ScanStepDrawRuns(t, darkness, threshold, x, n, p);
        ScanStepDrawWave(t, y, darkness, offset, x, p);
      }
    }
  }

  lemma {:induction false} ScanInvariant(y: real, darkness: seq<real>, threshold: real, offset: Offset, n: nat)
    requires n <= |darkness|
    ensures ScanInv(ScanPrefix(y, darkness, threshold, offset, n), y, darkness, threshold, offset, n)
    decreases n, 1
  {
    if n == 0 {
      ScanStartKeeps(y, darkness, threshold, offset, n);
    } else {
      ScanInvariantStep(y, darkness, threshold, offset, n);
    }
  }

  lemma {:induction false} ScanInvariantStep(y: real, darkness: seq<real>, threshold: real, offset: Offset, n: nat)
    requires 0 < n <= |darkness|
    ensures ScanInv(ScanPrefix(y, darkness, threshold, offset, n), y, darkness, threshold, offset, n)
    decreases n, 0
  {
    ScanInvariant(y, darkness, threshold, offset, n - 1);
    ScanPrefixStep(y, darkness, threshold, offset, n);
    ScanStepKeeps(ScanPrefix(y, darkness, threshold, offset, n), ScanPrefix(y, darkness, threshold, offset, n - 1),
                  y, darkness, threshold, offset, n - 1, n);
  }

  lemma StepSkips(s: Scan, y: real, darkness: seq<real>, threshold: real, offset: Offset, x: nat)
    requires x < |darkness| && darkness[x] < threshold
    ensures Step(s, y, darkness, threshold, offset, x) == Scan(Flush(s), [], s.drawn)
  {
  }

  lemma StepDraws(s: Scan, y: real, darkness: seq<real>, threshold: real, offset: Offset, x: nat, v: real)
    requires x < |darkness| && darkness[x] >= threshold && v == offset(x, darkness[x], s.drawn)
    ensures Step(s, y, darkness, threshold, offset, x) == Scan(s.closed, s.open + [Point(x, y + v)], s.drawn + 1)
  {
  }

  lemma ScanPrefixNext(y: real, darkness: seq<real>, threshold: real, offset: Offset, x: nat, s: Scan)
    requires x < |darkness| && ScanPrefix(y, darkness, threshold, offset, x) == s
    ensures ScanPrefix(y, darkness, threshold, offset, x + 1) == Step(s, y, darkness, threshold, offset, x)
  {
  }

  lemma ScanPrefixStep(y: real, darkness: seq<real>, threshold: real, offset: Offset, n: nat)
    requires 0 < n <= |darkness|
    ensures ScanPrefix(y, darkness, threshold, offset, n)
         == Step(ScanPrefix(y, darkness, threshold, offset, n - 1), y, darkness, threshold, offset, n - 1)
  {
  }

  /** Before any column the invariant holds with nothing found. */
  lemma ScanStartKeeps(y: real, darkness: seq<real>, threshold: real, offset: Offset, n: nat)
    requires n == 0
    ensures ScanInv(ScanPrefix(y, darkness, threshold, offset, n), y, darkness, threshold, offset, n)
  {
    assert Flush(Scan([], [], 0)) == [];
  }

  // ---------------------------------------------------------------------------
  // Properties of the segments of one row

  /** The segments are the maximal runs of drawn columns, left to right, covering every drawn column. */
  lemma SegmentsAreMaximalRuns(y: real, width: nat, darkness: seq<real>, threshold: real,
                               style: WaveStyle, sine: real -> real, draws: nat -> real)
    requires width <= |darkness|
    ensures var segs := WaveSegments(y, width, darkness, threshold, style, sine, draws);
      && Runs(segs, darkness, threshold, width)
      && WellFormed(segs)
  {
    ScanInvariant(y, darkness, threshold, RowOffset(style, sine, draws), width);
    var segs := WaveSegments(y, width, darkness, threshold, style, sine, draws);
    forall i | 0 <= i < |segs| ensures |segs[i]| > 0 && StrictlyIncreasing(segs[i]) {
      assert IsRun(segs[i], darkness, threshold, width);
    }
  }

  /** Every point lies at `y` plus the wave offset of its column; the `m`-th point of the row uses the `m`-th wobble. */
  lemma SegmentsFollowWave(y: real, width: nat, darkness: seq<real>, threshold: real,
                           style: WaveStyle, sine: real -> real, draws: nat -> real)
    requires width <= |darkness|
    ensures var pts := Points(WaveSegments(y, width, darkness, threshold, style, sine, draws));
      forall m :: 0 <= m < |pts| ==>
        0 <= pts[m].x < |darkness| && pts[m].y == y + WaveOffset(style, sine, draws, pts[m].x, darkness[pts[m].x], m)
  {
    ScanInvariant(y, darkness, threshold, RowOffset(style, sine, draws), width);
  }

  /** With amplitude 0 and no organic style every point lies exactly on the row's nominal `y`. */
  lemma ZeroAmplitudeIsFlat(y: real, width: nat, darkness: seq<real>, threshold: real,
                            style: WaveStyle, sine: real -> real, draws: nat -> real)
    requires width <= |darkness|
    requires !style.organic && style.amplitudeScale == 0.0
    ensures var segs := WaveSegments(y, width, darkness, threshold, style, sine, draws);
      forall i, k :: 0 <= i < |segs| && 0 <= k < |segs[i]| ==> segs[i][k].y == y
  {
    var segs: Row := WaveSegments(y, width, darkness, threshold, style, sine, draws);
    SegmentsFollowWave(y, width, darkness, threshold, style, sine, draws);
    forall i, k | 0 <= i < |segs| && 0 <= k < |segs[i]| ensures segs[i][k].y == y {
      PointsContains(segs, i, k);
    }
  }

  /**
   * The organic wobble is added even at amplitude scale 0: with a zero sine and every draw 1.0,
   * a drawn column is lifted by 0.5 off the nominal y.
   */
  lemma OrganicZeroAmplitudeNotFlat()
    ensures WaveOffset(WaveStyle(0.0, true), (r: real) => 0.0, (k: nat) => 1.0, 3, 1.0, 0) == 0.5
  {
  }

  lemma ShapeAppend(row: Row, seg: Segment)
    ensures Shape(row + [seg]) == Shape(row) + [Xs(seg)]
  {
  }

  /** Closing the open segments of two scans with the same columns keeps their columns equal. */
  lemma FlushKeepsShape(t1: Scan, t2: Scan)
    requires Shape(t1.closed) == Shape(t2.closed) && Xs(t1.open) == Xs(t2.open)
    ensures Shape(Flush(t1)) == Shape(Flush(t2))
  {
    assert |t1.open| == |Xs(t1.open)| == |Xs(t2.open)| == |t2.open|;
    if t1.open != [] {
      ShapeAppend(t1.closed, t1.open);
      ShapeAppend(t2.closed, t2.open);
    }
  }

  /** Drawing the same column in two scans with the same columns keeps their columns equal. */
  lemma DrawKeepsShape(t1: Scan, t2: Scan, p1: Point, p2: Point)
    requires Xs(t1.open) == Xs(t2.open) && p1.x == p2.x
    ensures Xs(t1.open + [p1]) == Xs(t2.open + [p2])
  {
    XsAppend(t1.open, [p1]);
    XsAppend(t2.open, [p2]);
  }

  lemma {:induction false} ScanShape(y1: real, y2: real, darkness: seq<real>, threshold: real,
                                     offset1: Offset, offset2: Offset, n: nat)
    requires n <= |darkness|
    ensures var s1 := ScanPrefix(y1, darkness, threshold, offset1, n);
      var s2 := ScanPrefix(y2, darkness, threshold, offset2, n);
      Shape(s1.closed) == Shape(s2.closed) && Xs(s1.open) == Xs(s2.open)
  {
    if n > 0 {
      ScanShape(y1, y2, darkness, threshold, offset1, offset2, n - 1);
      var t1 := ScanPrefix(y1, darkness, threshold, offset1, n - 1);
      var t2 := ScanPrefix(y2, darkness, threshold, offset2, n - 1);
      var x := n - 1;
      if darkness[x] < threshold {
        FlushKeepsShape(t1, t2);
      } else {
        DrawKeepsShape(t1, t2, Point(x, y1 + offset1(x, darkness[x], t1.drawn)),
                       Point(x, y2 + offset2(x, darkness[x], t2.drawn)));
      }
    }
  }

  /** The column structure of the segments depends only on the darkness values and the threshold. */
  lemma ShapeIndependentOfWave(y1: real, y2: real, width: nat, darkness: seq<real>, threshold: real,
                               style1: WaveStyle, style2: WaveStyle,
                               sine1: real -> real, sine2: real -> real,
                               draws1: nat -> real, draws2: nat -> real)
    requires width <= |darkness|
    ensures Shape(WaveSegments(y1, width, darkness, threshold, style1, sine1, draws1))
         == Shape(WaveSegments(y2, width, darkness, threshold, style2, sine2, draws2))
  {
    var offset1, offset2 := RowOffset(style1, sine1, draws1), RowOffset(style2, sine2, draws2);
    ScanShape(y1, y2, darkness, threshold, offset1, offset2, width);
    FlushKeepsShape(ScanPrefix(y1, darkness, threshold, offset1, width),
                    ScanPrefix(y2, darkness, threshold, offset2, width));
  }

  lemma {:induction false} AllBackgroundScan(y: real, darkness: seq<real>, threshold: real, offset: Offset, n: nat)
    requires n <= |darkness|
    requires forall x :: 0 <= x < n ==> darkness[x] < threshold
    ensures ScanPrefix(y, darkness, threshold, offset, n) == Scan([], [], 0)
  {
    if n > 0 {
      AllBackgroundScan(y, darkness, threshold, offset, n - 1);
    }
  }

  /** A row that is background everywhere yields no segments. */
  lemma AllBackgroundRowIsEmpty(y: real, width: nat, darkness: seq<real>, threshold: real,
                                style: WaveStyle, sine: real -> real, draws: nat -> real)
    requires width <= |darkness|
    requires forall x :: 0 <= x < width ==> darkness[x] < threshold
    ensures WaveSegments(y, width, darkness, threshold, style, sine, draws) == []
  {
    AllBackgroundScan(y, darkness, threshold, RowOffset(style, sine, draws), width);
  }

  lemma {:induction false} AllDrawnScan(y: real, darkness: seq<real>, threshold: real, offset: Offset, n: nat)
    requires n <= |darkness|
    requires forall x :: 0 <= x < n ==> darkness[x] >= threshold
    ensures var s := ScanPrefix(y, darkness, threshold, offset, n);
      s.closed == [] && Xs(s.open) == seq(n, x => x)
  {
    if n > 0 {
      AllDrawnScan(y, darkness, threshold, offset, n - 1);
      var t := ScanPrefix(y, darkness, threshold, offset, n - 1);
      var p := Point(n - 1, y + offset(n - 1, darkness[n - 1], t.drawn));
      XsAppend(t.open, [p]);
      assert seq(n, x => x) == seq(n - 1, x => x) + [n - 1];
    }
  }

  /** A row that is drawn everywhere yields exactly one segment, covering columns 0 .. width-1. */
  lemma AllDrawnRowIsOneSegment(y: real, width: nat, darkness: seq<real>, threshold: real,
                                style: WaveStyle, sine: real -> real, draws: nat -> real)
    requires 0 < width <= |darkness|
    requires forall x :: 0 <= x < width ==> darkness[x] >= threshold
    ensures var segs := WaveSegments(y, width, darkness, threshold, style, sine, draws);
      |segs| == 1 && |segs[0]| == width && forall k :: 0 <= k < width ==> segs[0][k].x == k
  {
    AllDrawnScan(y, darkness, threshold, RowOffset(style, sine, draws), width);
    var s := ScanPrefix(y, darkness, threshold, RowOffset(style, sine, draws), width);
    assert |s.open| == |Xs(s.open)| == width;
    forall k | 0 <= k < width ensures s.open[k].x == k {
      assert Xs(s.open)[k] == k;
    }
  }
}
