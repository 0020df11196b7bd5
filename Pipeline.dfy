/**
 * The row pipeline: scan rows at y = 0, s, 2s, ... while y is inside the image, synthesize each
 * row's segments, skip background rows, check every other row against the previously accepted
 * row and push it down when it comes too close, and emit the polylines that have two points.
 */
module Pipeline {
  import opened Geometry
  import opened Darkness
  import opened Wave
  import opened Collision
  import opened Clearance

  /** The vertical clearance the pipeline keeps between consecutive accepted rows. */
  const MinClearance: real := 0.8
  /** The fixed seed of organic mode, offset per row by `int(y * 1000)`. */
  const OrganicSeed: int := 42

  /** The grid has `height` rows of `width` gray levels. */
  predicate Rectangular(grid: seq<seq<int>>, width: nat, height: nat)
  {
    |grid| == height && forall r :: 0 <= r < height ==> |grid[r]| == width
  }

  /** The darkness profile of one row of gray levels. */
  function RowDarkness(pixels: seq<int>): (d: seq<real>)
    ensures |d| == |pixels| && forall x :: 0 <= x < |pixels| ==> d[x] == PixelDarkness(pixels[x])
    ensures (forall x :: 0 <= x < |pixels| ==> 0 <= pixels[x] <= 255) ==>
              forall x :: 0 <= x < |d| ==> 0.0 <= d[x] <= 1.0
  {
    seq(|pixels|, x requires 0 <= x < |pixels| => PixelDarkness(pixels[x]))
  }

  /**
   * The `random.random()` stream the row at `y` consumes: `rng(seed)` is the stream after
   * `random.seed(seed)`. Rows that are not organic never draw.
   */
  function RowDraws(style: WaveStyle, rng: int -> (nat -> real), y: real): nat -> real
  {
    if style.organic then rng(OrganicSeed + (y * 1000.0).Floor) else (k: nat) => 0.0
  }

  /** The segments synthesized for the scan row at nominal `y`, read from pixel row `int(y)`. */
  function RowAt(grid: seq<seq<int>>, width: nat, y: real, style: WaveStyle,
                 sine: real -> real, rng: int -> (nat -> real)): (r: Row)
    requires Rectangular(grid, width, |grid|) && 0.0 <= y < |grid| as real
    ensures WellFormed(r)
  {
    var darkness := RowDarkness(grid[y.Floor]);
    SegmentsAreMaximalRuns(y, width, darkness, DefaultThreshold, style, sine, RowDraws(style, rng, y));
    WaveSegments(y, width, darkness, DefaultThreshold, style, sine, RowDraws(style, rng, y))
  }

  /** The rows synthesized by the first `n` iterations, at y = 0, s, ..., (n - 1) s. */
  ghost function Rows(grid: seq<seq<int>>, width: nat, lineSpacing: real, style: WaveStyle,
                      sine: real -> real, rng: int -> (nat -> real), n: nat): (rows: seq<Row>)
    requires Rectangular(grid, width, |grid|) && lineSpacing > 0.0
    requires n == 0 || ScanY(n - 1, lineSpacing) < |grid| as real
    ensures |rows| == n
    ensures forall r :: 0 <= r < |rows| ==> WellFormed(rows[r])
  {
    if n == 0 then []
    else
      Rows(grid, width, lineSpacing, style, sine, rng, n - 1) +
        [RowAt(grid, width, ScanY(n - 1, lineSpacing), style, sine, rng)]
  }

  /** The nominal y of the `k`-th scan row: the loop adds the spacing `k` times to 0. */
  function ScanY(k: nat, s: real): (y: real)
    ensures s >= 0.0 ==> y >= 0.0
  {
    if k == 0 then 0.0 else ScanY(k - 1, s) + s
  }

  /** Without rounding, the `k`-th scan position is `k * s`. */
  lemma {:induction false} ScanYIsProduct(k: nat, s: real)
    ensures ScanY(k, s) == k as real * s
  {
    if k > 0 {
      ScanYIsProduct(k - 1, s);
    }
  }

  /** Scan positions grow with the row number. */
  lemma {:induction false} ScanYMonotone(a: nat, b: nat, s: real)
    requires s > 0.0 && a <= b
    ensures ScanY(a, s) <= ScanY(b, s)
  {
    if a < b {
      ScanYMonotone(a, b - 1, s);
    }
  }

  /**
   * The state the loop carries: the previous accepted row (`None` before the first), the
   * accepted rows in order, and the number of rows that had to be adjusted.
   */
  datatype DrawingState = DrawingState(prev: Option<Row>, accepted: seq<Row>, collisions: nat)

  /** One iteration of the loop on the synthesized `row`. */
  ghost function Accept(st: DrawingState, row: Row): DrawingState
  {
    if row == [] then st
    else if st.prev.Some? && st.prev.value != [] && Collides(st.prev.value, row, MinClearance) then
      var adjusted := AdjustedRow(row, st.prev.value, MinClearance);
      DrawingState(Some(adjusted), st.accepted + [adjusted], st.collisions + 1)
    else
      DrawingState(Some(row), st.accepted + [row], st.collisions)
  }

  /** The state after the loop has seen `rows`, starting from no previous row. */
  ghost function FoldRows(rows: seq<Row>): DrawingState
  {
    if rows == [] then DrawingState(None, [], 0) else Accept(FoldRows(rows[..|rows| - 1]), Last(rows))
  }

  /** The polylines of a row that are drawn: those with at least two points, in order. */
  function Drawable(row: Row): (r: seq<Segment>)
    ensures forall s :: s in r <==> s in row && |s| >= 2
  {
    if row == [] then []
    else Drawable(row[..|row| - 1]) + (if |Last(row)| >= 2 then [Last(row)] else [])
  }

  /** The polylines emitted for the accepted rows, row after row. */
  function Emitted(accepted: seq<Row>): (r: seq<Segment>)
    ensures forall s :: s in r ==> |s| >= 2
  {
    if accepted == [] then [] else Emitted(accepted[..|accepted| - 1]) + Drawable(Last(accepted))
  }

  /** The darkness profile and segments of the scan row at `y`: one iteration's synthesis. */
  method SynthesizeRow(grid: seq<seq<int>>, width: nat, y: real, style: WaveStyle,
                       sine: real -> real, rng: int -> (nat -> real)) returns (segments: Row)
    requires Rectangular(grid, width, |grid|) && 0.0 <= y < |grid| as real
    ensures segments == RowAt(grid, width, y, style, sine, rng)
    ensures WellFormed(segments)
  {
    var yInt := y.Floor;
    var darkness: seq<real> := [];
    for x := 0 to width
      invariant |darkness| == x
      invariant forall x' :: 0 <= x' < x ==> darkness[x'] == PixelDarkness(grid[yInt][x'])
    {
      darkness := darkness + [PixelDarkness(grid[yInt][x])];
    }
    assert darkness == RowDarkness(grid[yInt]);
    segments := GenerateWaveLineSegments(y, width, darkness, DefaultThreshold, style, sine,
                                         RowDraws(style, rng, y));
    SegmentsAreMaximalRuns(y, width, darkness, DefaultThreshold, style, sine, RowDraws(style, rng, y));
  }

  /** Appends the drawn polylines of `segments` to `polylines`, as the inner emission loop does. */
  method EmitRow(polylines: seq<Segment>, segments: Row) returns (result: seq<Segment>)
    ensures result == polylines + Drawable(segments)
  {
    result := polylines;
    for s := 0 to |segments|
      invariant result == polylines + Drawable(segments[..s])
    {
      assert segments[..s + 1][..s] == segments[..s];
      if |segments[s]| >= 2 {
        result := result + [segments[s]];
      }
    }
    assert segments[..|segments|] == segments;
  }

  /**
   * The collision step of one iteration on a non-empty row: against a non-empty previous row,
   * check the clearance and, on a collision, adjust the row.
   */
  method ResolveCollision(prevLineSegments: Option<Row>, segments: Row) returns (accepted: Row, hasCollision: bool)
    requires segments != [] && WellFormed(segments)
    requires prevLineSegments.Some? ==> WellFormed(prevLineSegments.value)
    ensures hasCollision <==> prevLineSegments.Some? && prevLineSegments.value != [] &&
                              Collides(prevLineSegments.value, segments, MinClearance)
    ensures accepted == if hasCollision then AdjustedRow(segments, prevLineSegments.value, MinClearance)
                        else segments
  {
    accepted, hasCollision := segments, false;
    if prevLineSegments.Some? && prevLineSegments.value != [] {
      var minDistance;
      hasCollision, minDistance := CheckSegmentCollision(prevLineSegments.value, segments, MinClearance);
      if hasCollision {
        accepted := AdjustSegmentsForClearance(segments, prevLineSegments.value, MinClearance);
      }
    }
  }

  /** What the loop's `prev_line_segments`, `collision_count` and emitted polylines are after `n` rows. */
  ghost function Expected(grid: seq<seq<int>>, width: nat, lineSpacing: real, style: WaveStyle,
                          sine: real -> real, rng: int -> (nat -> real), n: nat): (Option<Row>, nat, seq<Segment>)
    requires Rectangular(grid, width, |grid|) && lineSpacing > 0.0
    requires n == 0 || ScanY(n - 1, lineSpacing) < |grid| as real
  {
    var st := FoldRows(Rows(grid, width, lineSpacing, style, sine, rng, n));
    (st.prev, st.collisions, Emitted(st.accepted))
  }

  /**
   * The rest of one iteration on a non-empty row: resolve a collision with the previous row,
   * emit the drawable polylines and make the row the previous one. It takes the loop's
   * variables from the fold state `st` to `Accept(st, segments)`.
   */
  method AcceptRow(ghost st: DrawingState, prevLineSegments: Option<Row>, collisionCount: nat,
                   polylines: seq<Segment>, segments: Row)
    returns (newPrev: Option<Row>, newCount: nat, newPolylines: seq<Segment>)
    requires st.prev.Some? ==> WellFormed(st.prev.value)
    requires (prevLineSegments, collisionCount, polylines) == (st.prev, st.collisions, Emitted(st.accepted))
    requires segments != [] && WellFormed(segments)
    ensures var next := Accept(st, segments);
      (newPrev, newCount, newPolylines) == (next.prev, next.collisions, Emitted(next.accepted))
  {
    var accepted, hasCollision := ResolveCollision(prevLineSegments, segments);
    newCount := if hasCollision then collisionCount + 1 else collisionCount;
    assert Accept(st, segments) == DrawingState(Some(accepted), st.accepted + [accepted], newCount);
    EmittedStep(st.accepted, accepted);
    newPolylines := EmitRow(polylines, accepted);
    newPrev := Some(accepted);
  }

  /**
   * One iteration of the row loop at scan position `y`, the `n`-th: synthesize the row, skip it
   * when it is empty (the loop's `continue`), otherwise accept it; the row count goes up either way.
   */
  method ScanRow(grid: seq<seq<int>>, width: nat, lineSpacing: real, style: WaveStyle,
                 sine: real -> real, rng: int -> (nat -> real), n: nat, y: real,
                 prevLineSegments: Option<Row>, collisionCount: nat, polylines: seq<Segment>)
    returns (newPrev: Option<Row>, newCount: nat, newPolylines: seq<Segment>, newY: real, newTotal: nat)
    requires Rectangular(grid, width, |grid|) && lineSpacing > 0.0
    requires y == ScanY(n, lineSpacing) && y < |grid| as real
    requires n == 0 || ScanY(n - 1, lineSpacing) < |grid| as real
    requires (prevLineSegments, collisionCount, polylines) == Expected(grid, width, lineSpacing, style, sine, rng, n)
    ensures newTotal == n + 1 && newY == ScanY(newTotal, lineSpacing)
    ensures ScanY(newTotal - 1, lineSpacing) < |grid| as real
    ensures (newPrev, newCount, newPolylines) == Expected(grid, width, lineSpacing, style, sine, rng, newTotal)
  {
    newTotal, newY := n + 1, y + lineSpacing;
    ghost var st := FoldRows(Rows(grid, width, lineSpacing, style, sine, rng, n));
    DrawingIsConsistent(grid, width, lineSpacing, style, sine, rng, n);
    var segments := SynthesizeRow(grid, width, y, style, sine, rng);
    RowsStep(grid, width, lineSpacing, style, sine, rng, n);
    if segments == [] {
      return prevLineSegments, collisionCount, polylines, newY, newTotal;
    }
    newPrev, newCount, newPolylines := AcceptRow(st, prevLineSegments, collisionCount, polylines, segments);
  }

  /**
   * The row loop: from y = 0, one iteration per scan position while y is inside the image,
   * carrying the previous accepted row, the collision count and the emitted polylines.
   */
  method ScanRows(grid: seq<seq<int>>, width: nat, lineSpacing: real, style: WaveStyle,
                  sine: real -> real, rng: int -> (nat -> real))
    returns (prevLineSegments: Option<Row>, collisionCount: nat, polylines: seq<Segment>, totalLines: nat)
    requires Rectangular(grid, width, |grid|) && lineSpacing > 0.0
    ensures ScanY(totalLines, lineSpacing) >= |grid| as real
    ensures totalLines == 0 || ScanY(totalLines - 1, lineSpacing) < |grid| as real
    ensures (prevLineSegments, collisionCount, polylines) ==
            Expected(grid, width, lineSpacing, style, sine, rng, totalLines)
  {
    prevLineSegments := None;
    collisionCount, totalLines := 0, 0;
    polylines := [];
    var y: real := 0.0;
    LineBoundExists(|grid| as real, lineSpacing);
    ghost var bound: nat :| ScanY(bound, lineSpacing) >= |grid| as real;
    while y < |grid| as real
      invariant y == ScanY(totalLines, lineSpacing)
      invariant totalLines == 0 || ScanY(totalLines - 1, lineSpacing) < |grid| as real
      invariant (prevLineSegments, collisionCount, polylines) ==
                Expected(grid, width, lineSpacing, style, sine, rng, totalLines)
      invariant totalLines <= bound
      decreases bound - totalLines
    {
      BoundIsUpper(|grid| as real, lineSpacing, totalLines, bound);
      prevLineSegments, collisionCount, polylines, y, totalLines :=
        ScanRow(grid, width, lineSpacing, style, sine, rng, totalLines, y, prevLineSegments, collisionCount, polylines);
    }
  }

  /**
   * The drawing part of the converter: the polylines emitted, the number of rows adjusted for
   * clearance and the number of scan rows, all as the fold of the loop over the synthesized rows.
   */
  method GenerateDrawing(grid: seq<seq<int>>, width: nat, height: nat, lineSpacing: real,
                         style: WaveStyle, sine: real -> real, rng: int -> (nat -> real))
    returns (polylines: seq<Segment>, collisionCount: nat, totalLines: nat)
    requires Rectangular(grid, width, height)
    requires lineSpacing > 0.0
    ensures ScanY(totalLines, lineSpacing) >= height as real
    ensures totalLines == 0 || ScanY(totalLines - 1, lineSpacing) < height as real
    ensures var st := FoldRows(Rows(grid, width, lineSpacing, style, sine, rng, totalLines));
      collisionCount == st.collisions && polylines == Emitted(st.accepted)
    ensures collisionCount <= totalLines
    ensures forall p :: p in polylines ==> |p| >= 2
  {
    var prevLineSegments;
    prevLineSegments, collisionCount, polylines, totalLines := ScanRows(grid, width, lineSpacing, style, sine, rng);
    DrawingIsConsistent(grid, width, lineSpacing, style, sine, rng, totalLines);
  }

  /**
   * After any number of rows the loop's state is consistent: in particular the previous row is
   * well-formed, and at most one collision is counted per row.
   */
  lemma DrawingIsConsistent(grid: seq<seq<int>>, width: nat, lineSpacing: real, style: WaveStyle,
                            sine: real -> real, rng: int -> (nat -> real), n: nat)
    requires Rectangular(grid, width, |grid|) && lineSpacing > 0.0
    requires n == 0 || ScanY(n - 1, lineSpacing) < |grid| as real
    ensures var st := FoldRows(Rows(grid, width, lineSpacing, style, sine, rng, n));
      && Consistent(st)
      && (st.prev.Some? ==> WellFormed(st.prev.value))
      && st.collisions <= n
  {
    var rows := Rows(grid, width, lineSpacing, style, sine, rng, n);
    FoldIsConsistent(rows);
    var st := FoldRows(rows);
    if st.prev.Some? {
      assert WellFormed(st.accepted[|st.accepted| - 1]);
    }
  }

  lemma RowsStep(grid: seq<seq<int>>, width: nat, lineSpacing: real, style: WaveStyle,
                 sine: real -> real, rng: int -> (nat -> real), n: nat)
    requires Rectangular(grid, width, |grid|) && lineSpacing > 0.0
    requires ScanY(n, lineSpacing) < |grid| as real
    ensures n == 0 || ScanY(n - 1, lineSpacing) < |grid| as real
    ensures FoldRows(Rows(grid, width, lineSpacing, style, sine, rng, n + 1)) ==
      Accept(FoldRows(Rows(grid, width, lineSpacing, style, sine, rng, n)),
             RowAt(grid, width, ScanY(n, lineSpacing), style, sine, rng))
  {
    var rows := Rows(grid, width, lineSpacing, style, sine, rng, n + 1);
    assert rows[..n] == Rows(grid, width, lineSpacing, style, sine, rng, n);
  }

  lemma EmittedStep(accepted: seq<Row>, row: Row)
    ensures Emitted(accepted + [row]) == Emitted(accepted) + Drawable(row)
  {
    assert (accepted + [row])[..|accepted|] == accepted;
  }

  /** Some number of iterations takes the scan position out of the image. */
  lemma LineBoundExists(h: real, s: real)
    requires s > 0.0
    ensures exists n: nat :: ScanY(n, s) >= h
  {
    var q := h / s;
    assert q * s == h;
    if q <= 0.0 {
      assert (-q) * s >= 0.0;
      assert ScanY(0, s) >= h;
    } else {
      var n: nat := q.Floor + 1;
      assert (n as real - q) * s > 0.0;
      ScanYIsProduct(n, s);
      assert n as real * s == q * s + (n as real - q) * s;
    }
  }

  /** While the scan position is inside the image there are iterations left before any bound. */
  lemma BoundIsUpper(h: real, s: real, n: nat, bound: nat)
    requires s > 0.0 && ScanY(n, s) < h && ScanY(bound, s) >= h
    ensures n < bound
  {
    if n >= bound {
      ScanYMonotone(bound, n, s);
    }
  }

  // ---------------------------------------------------------------------------
  // Properties of the loop

  /** The rows of `rows` that have at least one polyline, in order. */
  function NonEmptyRows(rows: seq<Row>): seq<Row>
  {
    if rows == [] then [] else NonEmptyRows(rows[..|rows| - 1]) + (if Last(rows) == [] then [] else [Last(rows)])
  }

  /**
   * The loop accepts exactly the non-empty synthesized rows, in order, each with its own columns:
   * empty rows leave the state alone and an adjustment only moves points vertically.
   */
  lemma {:induction false} AcceptedAreNonEmptyRows(rows: seq<Row>)
    ensures var acc := FoldRows(rows).accepted;
      var kept := NonEmptyRows(rows);
      |acc| == |kept| && forall a :: 0 <= a < |acc| ==> Shape(acc[a]) == Shape(kept[a])
  {
    if rows != [] {
      var init, row := rows[..|rows| - 1], Last(rows);
      AcceptedAreNonEmptyRows(init);
      var st := FoldRows(init);
      if row != [] {
        var r := Accept(st, row).prev.value;
        if st.prev.Some? && st.prev.value != [] && Collides(st.prev.value, row, MinClearance) {
          AdjustKeepsShape(row, st.prev.value, MinClearance);
        }
        assert Shape(r) == Shape(row);
        var acc, kept := st.accepted + [r], NonEmptyRows(init) + [row];
        assert FoldRows(rows).accepted == acc && NonEmptyRows(rows) == kept;
        forall a | 0 <= a < |acc| ensures Shape(acc[a]) == Shape(kept[a]) {
          if a < |st.accepted| {
            assert acc[a] == st.accepted[a] && kept[a] == NonEmptyRows(init)[a];
          }
        }
      }
    }
  }

  /**
   * What the loop keeps true: the previous row is the last accepted row (background rows never
   * replace it), every accepted row is non-empty with increasing columns, consecutive accepted
   * rows keep the minimum clearance in every shared column, and only rows with a predecessor
   * are ever counted as collisions.
   */
  ghost predicate Consistent(st: DrawingState)
  {
    && (st.prev.None? <==> st.accepted == [])
    && (st.prev.Some? ==> st.accepted != [] && st.prev.value == Last(st.accepted))
    && (forall a :: 0 <= a < |st.accepted| ==> st.accepted[a] != [] && WellFormed(st.accepted[a]))
    && (forall a, b :: 0 <= a && b == a + 1 && b < |st.accepted| ==>
          KeepsClearance(st.accepted[a], st.accepted[b], MinClearance))
    && (st.collisions == 0 || st.collisions < |st.accepted|)
  }

  /** One iteration keeps the loop's invariant, for any well-formed synthesized row. */
  lemma AcceptKeepsConsistent(st: DrawingState, row: Row)
    requires Consistent(st) && WellFormed(row)
    ensures Consistent(Accept(st, row))
    ensures Accept(st, row).collisions <= st.collisions + 1
  {
    if row != [] {
      if st.prev.Some? && st.prev.value != [] && Collides(st.prev.value, row, MinClearance) {
        var adjusted := AdjustedRow(row, st.prev.value, MinClearance);
        AdjustedHasNoCollision(row, st.prev.value, MinClearance);
        AdjustKeepsShape(row, st.prev.value, MinClearance);
        assert Accept(st, row) == DrawingState(Some(adjusted), st.accepted + [adjusted], st.collisions + 1);
        AppendKeepsConsistent(st, adjusted, st.collisions + 1);
      } else {
        if st.prev.Some? {
          NoCollisionIffClearance(st.prev.value, row, MinClearance);
        }
        assert Accept(st, row) == DrawingState(Some(row), st.accepted + [row], st.collisions);
        AppendKeepsConsistent(st, row, st.collisions);
      }
    }
  }

  /** Accepting a non-empty well-formed row that clears the previous one keeps the invariant. */
  lemma AppendKeepsConsistent(st: DrawingState, r: Row, c: nat)
    requires Consistent(st) && r != [] && WellFormed(r)
    requires st.prev.Some? ==> KeepsClearance(st.prev.value, r, MinClearance)
    requires c == st.collisions || (c == st.collisions + 1 && st.prev.Some?)
    ensures Consistent(DrawingState(Some(r), st.accepted + [r], c))
  {
    var acc := st.accepted + [r];
    forall a | 0 <= a < |acc| ensures acc[a] != [] && WellFormed(acc[a]) {
      if a < |st.accepted| {
        assert acc[a] == st.accepted[a];
      }
    }
    forall a, b | 0 <= a && b == a + 1 && b < |acc|
      ensures KeepsClearance(acc[a], acc[b], MinClearance)
    {
      if b < |st.accepted| {
        assert acc[a] == st.accepted[a] && acc[b] == st.accepted[b];
      } else {
        assert acc[a] == Last(st.accepted);
      }
    }
  }

  /**
   * Over any sequence of well-formed rows, the loop's invariant holds throughout, and the number
   * of adjusted rows is at most the number of rows.
   */
  lemma {:induction false} FoldIsConsistent(rows: seq<Row>)
    requires forall r :: 0 <= r < |rows| ==> WellFormed(rows[r])
    ensures Consistent(FoldRows(rows))
    ensures FoldRows(rows).collisions <= |rows|
  {
    if rows != [] {
      var init := rows[..|rows| - 1];
      FoldIsConsistent(init);
      AcceptKeepsConsistent(FoldRows(init), Last(rows));
    }
  }

  /**
   * A row that passes the check unadjusted need not lie below the previous row: here it starts
   * 2 above and ends 2 below it, crossing it between columns 0 and 1, and is accepted as it is.
   */
  lemma UnadjustedRowMayCross()
    ensures var prev: Row := [[Point(0, 5.0), Point(1, 5.0)]];
      var row: Row := [[Point(0, 3.0), Point(1, 7.0)]];
      && !Collides(prev, row, MinClearance)
      && Accept(DrawingState(Some(prev), [prev], 0), row).prev == Some(row)
      && row[0][0].y < prev[0][0].y + MinClearance
      && row[0][0].y < prev[0][0].y && row[0][1].y > prev[0][1].y
  {
    var prev: Row := [[Point(0, 5.0), Point(1, 5.0)]];
    var row: Row := [[Point(0, 3.0), Point(1, 7.0)]];
    NoCollisionIffClearance(prev, row, MinClearance);
    assert KeepsClearance(prev, row, MinClearance);
  }
}
