/**
 * The clearance adjuster: every point of the current row is pushed down to at least the minimum
 * clearance below the previous row's point in the same column. It never moves a point up and
 * never adds, removes or moves a point sideways.
 */
module Clearance {
  import opened Geometry
  import opened Collision

  /** The y of the first point of `seg` within one column of `p`: the inner loop stops there. */
  function FirstNear(seg: Segment, p: Point): Option<real>
  {
    if seg == [] then None
    else if Near(p, seg[0]) then Some(seg[0].y)
    else FirstNear(seg[1..], p)
  }

  /** The source's `adjusted_y` for `p` once the polylines of `prev` have been looked at in order. */
  function RaisedY(p: Point, prev: Row, minClearance: real): real
  {
    if prev == [] then p.y
    else
      var acc := RaisedY(p, prev[..|prev| - 1], minClearance);
      match FirstNear(Last(prev), p)
      case Some(py) => if acc < py + minClearance then py + minClearance else acc
      case None => acc
  }

  function AdjustedSegment(seg: Segment, prev: Row, minClearance: real): Segment
  {
    seq(|seg|, k requires 0 <= k < |seg| => Point(seg[k].x, RaisedY(seg[k], prev, minClearance)))
  }

  /** The current row with every point raised against `prev`: same polylines, same points, same columns. */
  function AdjustedRow(curr: Row, prev: Row, minClearance: real): (r: Row)
    ensures |r| == |curr|
    ensures forall i :: 0 <= i < |curr| ==> |r[i]| == |curr[i]|
    ensures forall i, k :: 0 <= i < |curr| && 0 <= k < |curr[i]| ==> r[i][k].x == curr[i][k].x
  {
    seq(|curr|, i requires 0 <= i < |curr| => AdjustedSegment(curr[i], prev, minClearance))
  }

  method AdjustSegmentsForClearance(curr: Row, prev: Row, minClearance: real) returns (adjusted: Row)
    ensures adjusted == AdjustedRow(curr, prev, minClearance)
  {
    if prev == [] {
      AdjustWithoutPreviousIsIdentity(curr, minClearance);
      return curr;
    }
    adjusted := [];
    for i := 0 to |curr|
      invariant |adjusted| == i
      invariant forall i' :: 0 <= i' < i ==> adjusted[i'] == AdjustedSegment(curr[i'], prev, minClearance)
    {
      var adjustedSegment: Segment := [];
      for k := 0 to |curr[i]|
        invariant |adjustedSegment| == k
        invariant forall k' :: 0 <= k' < k ==>
          adjustedSegment[k'] == Point(curr[i][k'].x, RaisedY(curr[i][k'], prev, minClearance))
      {
        var p := curr[i][k];
        var adjustedY := p.y;
        for j := 0 to |prev|
          invariant adjustedY == RaisedY(p, prev[..j], minClearance)
        {
          var ps := prev[j];
          var l := 0;
          while l < |ps|
            invariant 0 <= l <= |ps|
            invariant FirstNear(ps, p) == FirstNear(ps[l..], p)
            invariant adjustedY == RaisedY(p, prev[..j], minClearance)
          {
            if Abs((p.x - ps[l].x) as real) < 1.0 {
              assert FirstNear(ps, p) == Some(ps[l].y);
              if adjustedY < ps[l].y + minClearance {
                adjustedY := ps[l].y + minClearance;
              }
              break;
            }
            assert ps[l..][1..] == ps[l + 1..];
            l := l + 1;
          }
          assert prev[..j + 1][..j] == prev[..j];
        }
        assert prev[..|prev|] == prev;
        adjustedSegment := adjustedSegment + [Point(p.x, adjustedY)];
      }
      adjusted := adjusted + [adjustedSegment];
    }
  }

  // ---------------------------------------------------------------------------
  // Lemmas about one point

  lemma {:induction false} FirstNearFindsColumn(seg: Segment, p: Point, l: int)
    requires StrictlyIncreasing(seg) && 0 <= l < |seg| && seg[l].x == p.x
    ensures FirstNear(seg, p) == Some(seg[l].y)
  {
    NearIsSameColumn(p, seg[0]);
    if l > 0 {
      assert seg[0].x < seg[l].x;
      FirstNearFindsColumn(seg[1..], p, l - 1);
    }
  }

  lemma {:induction false} FirstNearIsAPoint(seg: Segment, p: Point)
    requires FirstNear(seg, p).Some?
    ensures exists l :: 0 <= l < |seg| && seg[l].x == p.x && seg[l].y == FirstNear(seg, p).value
  {
    NearIsSameColumn(p, seg[0]);
    if !Near(p, seg[0]) {
      FirstNearIsAPoint(seg[1..], p);
      var l :| 0 <= l < |seg[1..]| && seg[1..][l].x == p.x && seg[1..][l].y == FirstNear(seg[1..], p).value;
      assert seg[l + 1] == seg[1..][l];
    }
  }

  lemma {:induction false} FirstNearNone(seg: Segment, p: Point)
    requires forall l :: 0 <= l < |seg| ==> seg[l].x != p.x
    ensures FirstNear(seg, p) == None
  {
    if seg != [] {
      NearIsSameColumn(p, seg[0]);
      FirstNearNone(seg[1..], p);
    }
  }

  /** Raising only ever increases y. */
  lemma {:induction false} RaisedNeverLower(p: Point, prev: Row, minClearance: real)
    ensures RaisedY(p, prev, minClearance) >= p.y
  {
    if prev != [] {
      RaisedNeverLower(p, prev[..|prev| - 1], minClearance);
    }
  }

  /** The raised y clears the first same-column point of every previous polyline. */
  lemma {:induction false} RaisedClearsEvery(p: Point, prev: Row, minClearance: real, j: int)
    requires 0 <= j < |prev| && FirstNear(prev[j], p).Some?
    ensures RaisedY(p, prev, minClearance) >= FirstNear(prev[j], p).value + minClearance
  {
    var init := prev[..|prev| - 1];
    if j < |prev| - 1 {
      assert init[j] == prev[j];
      RaisedClearsEvery(p, init, minClearance, j);
    }
  }

  /** The raised y is the original y or exactly the clearance below some previous point. */
  lemma {:induction false} RaisedIsTight(p: Point, prev: Row, minClearance: real)
    ensures var r := RaisedY(p, prev, minClearance);
      r == p.y || exists j :: 0 <= j < |prev| && FirstNear(prev[j], p).Some? &&
                              r == FirstNear(prev[j], p).value + minClearance
  {
    if prev != [] {
      var init := prev[..|prev| - 1];
      RaisedIsTight(p, init, minClearance);
      var acc := RaisedY(p, init, minClearance);
      if acc != p.y && RaisedY(p, prev, minClearance) == acc {
        var j :| 0 <= j < |init| && FirstNear(init[j], p).Some? &&
                 acc == FirstNear(init[j], p).value + minClearance;
        assert prev[j] == init[j];
      }
    }
  }

  // ---------------------------------------------------------------------------
  // Lemmas about a whole row

  /** Without a previous row the adjustment returns its input unchanged. */
  lemma AdjustWithoutPreviousIsIdentity(curr: Row, minClearance: real)
    ensures AdjustedRow(curr, [], minClearance) == curr
  {
    var r := AdjustedRow(curr, [], minClearance);
    forall i | 0 <= i < |curr| ensures r[i] == curr[i] {
      assert AdjustedSegment(curr[i], [], minClearance) == curr[i];
    }
  }

  /** No point moves up. */
  lemma AdjustNeverLowers(curr: Row, prev: Row, minClearance: real)
    ensures var r := AdjustedRow(curr, prev, minClearance);
      forall i, k :: 0 <= i < |curr| && 0 <= k < |curr[i]| ==> r[i][k].y >= curr[i][k].y
  {
    forall i, k | 0 <= i < |curr| && 0 <= k < |curr[i]| {
      RaisedNeverLower(curr[i][k], prev, minClearance);
    }
  }

  /**
   * Against a previous row whose polylines have increasing columns, every adjusted point lies at
   * least `minClearance` below every previous point in its column.
   */
  lemma AdjustClearsPrevious(curr: Row, prev: Row, minClearance: real)
    requires WellFormed(prev)
    ensures var r := AdjustedRow(curr, prev, minClearance);
      forall i, j, k, l :: Indices(prev, r, i, j, k, l) && r[i][k].x == prev[j][l].x ==>
        r[i][k].y >= prev[j][l].y + minClearance
  {
    var r := AdjustedRow(curr, prev, minClearance);
    forall i, j, k, l | Indices(prev, r, i, j, k, l) && r[i][k].x == prev[j][l].x
      ensures r[i][k].y >= prev[j][l].y + minClearance
    {
      FirstNearFindsColumn(prev[j], curr[i][k], l);
      RaisedClearsEvery(curr[i][k], prev, minClearance, j);
    }
  }

  /**
   * The adjusted y is the least such floor: it is the original y or the clearance below some
   * previous point in the same column.
   */
  lemma AdjustIsLeastFloor(curr: Row, prev: Row, minClearance: real, i: int, k: int)
    requires 0 <= i < |curr| && 0 <= k < |curr[i]|
    ensures var y := AdjustedRow(curr, prev, minClearance)[i][k].y;
      y == curr[i][k].y ||
      exists j, l :: 0 <= j < |prev| && 0 <= l < |prev[j]| && prev[j][l].x == curr[i][k].x &&
                     y == prev[j][l].y + minClearance
  {
    var p := curr[i][k];
    RaisedIsTight(p, prev, minClearance);
    var y := RaisedY(p, prev, minClearance);
    if y != p.y {
      var j :| 0 <= j < |prev| && FirstNear(prev[j], p).Some? && y == FirstNear(prev[j], p).value + minClearance;
      FirstNearIsAPoint(prev[j], p);
    }
  }

  /** A point with no previous point in its column keeps its y. */
  lemma AdjustKeepsUnmatched(curr: Row, prev: Row, minClearance: real, i: int, k: int)
    requires 0 <= i < |curr| && 0 <= k < |curr[i]|
    requires forall j, l :: 0 <= j < |prev| && 0 <= l < |prev[j]| ==> prev[j][l].x != curr[i][k].x
    ensures AdjustedRow(curr, prev, minClearance)[i][k] == curr[i][k]
  {
    var p := curr[i][k];
    forall j | 0 <= j < |prev| ensures FirstNear(prev[j], p) == None {
      FirstNearNone(prev[j], p);
    }
    RaisedIsTight(p, prev, minClearance);
  }

  /** After adjustment the check finds no collision with the previous row. */
  lemma AdjustedHasNoCollision(curr: Row, prev: Row, minClearance: real)
    requires WellFormed(prev)
    ensures var r := AdjustedRow(curr, prev, minClearance);
      !Collides(prev, r, minClearance) && KeepsClearance(prev, r, minClearance)
  {
    var r := AdjustedRow(curr, prev, minClearance);
    AdjustClearsPrevious(curr, prev, minClearance);
    forall i, j, k, l | Indices(prev, r, i, j, k, l) && Near(r[i][k], prev[j][l])
      ensures Gap(prev, r, i, j, k, l) >= minClearance
    {
      NearIsSameColumn(r[i][k], prev[j][l]);
    }
  }

  /** The adjustment keeps the column structure, hence well-formedness. */
  lemma AdjustKeepsShape(curr: Row, prev: Row, minClearance: real)
    ensures Shape(AdjustedRow(curr, prev, minClearance)) == Shape(curr)
    ensures WellFormed(curr) ==> WellFormed(AdjustedRow(curr, prev, minClearance))
  {
    var r := AdjustedRow(curr, prev, minClearance);
    forall i | 0 <= i < |curr| ensures Xs(r[i]) == Xs(curr[i]) {
    }
  }
}
