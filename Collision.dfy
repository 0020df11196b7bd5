/**
 * The clearance checker: the smallest vertical gap between a point of the current row and a
 * point of the previous row in the same column, and whether it is below the minimum clearance.
 *
 * The lemmas about one loop step state `MinSoFar(before) ==> MinSoFar(after)` and take the next
 * index (`j' == j + 1`, `l' == l + 1`) as a parameter of its own. This keeps the running-minimum
 * invariant folded up at their call sites, which the solver handles far more cheaply.
 */
module Collision {
  import opened Geometry

  /** The column ranges of two polylines overlap, judged by their end points. */
  predicate Overlap(cs: Segment, ps: Segment)
    requires |cs| > 0 && |ps| > 0
  {
    Last(cs).x >= ps[0].x && cs[0].x <= Last(ps).x
  }

  /** `(i, j, k, l)` names point `k` of current polyline `i` and point `l` of previous polyline `j`. */
  predicate Indices(prev: Row, curr: Row, i: int, j: int, k: int, l: int)
  {
    0 <= i < |curr| && 0 <= j < |prev| && 0 <= k < |curr[i]| && 0 <= l < |prev[j]|
  }

  /** The pair `(i, j, k, l)` is compared: its polylines overlap and its points share a column. */
  predicate Compared(prev: Row, curr: Row, i: int, j: int, k: int, l: int)
    requires Indices(prev, curr, i, j, k, l)
  {
    Overlap(curr[i], prev[j]) && Near(curr[i][k], prev[j][l])
  }

  /** The vertical distance of the pair `(i, j, k, l)`. */
  function Gap(prev: Row, curr: Row, i: int, j: int, k: int, l: int): real
    requires Indices(prev, curr, i, j, k, l)
  {
    Abs(curr[i][k].y - prev[j][l].y)
  }

  /** Some compared pair is closer than `minClearance`. */
  ghost predicate Collides(prev: Row, curr: Row, minClearance: real)
  {
    exists i, j, k, l :: Indices(prev, curr, i, j, k, l) && Compared(prev, curr, i, j, k, l)
      && Gap(prev, curr, i, j, k, l) < minClearance
  }

  /** Every pair of points in the same column is at least `minClearance` apart vertically. */
  ghost predicate KeepsClearance(prev: Row, curr: Row, minClearance: real)
  {
    forall i, j, k, l :: Indices(prev, curr, i, j, k, l) && curr[i][k].x == prev[j][l].x ==>
      Gap(prev, curr, i, j, k, l) >= minClearance
  }

  /** `min(m, d)` where `None` is positive infinity. */
  function MinWithInfinity(m: Option<real>, d: real): (r: Option<real>)
    ensures r.Some? && r.value <= d
    ensures m.Some? ==> r.value <= m.value
    ensures r == m || r == Some(d)
  {
    if m.Some? && m.value <= d then m else Some(d)
  }

  /** `(a, b, c, e)` is visited before `(i, j, k, l)` by the four nested loops. */
  predicate Visited(a: int, b: int, c: int, e: int, i: int, j: int, k: int, l: int)
  {
    a < i || (a == i && (b < j || (b == j && (c < k || (c == k && e < l)))))
  }

  /**
   * `m` is the minimum gap over the compared pairs visited before `(i, j, k, l)`, attained at
   * the visited pair `w`; `None` when no visited pair is compared.
   */
  ghost predicate MinSoFar(prev: Row, curr: Row, m: Option<real>, w: (int, int, int, int),
                           i: int, j: int, k: int, l: int)
  {
    && (forall a, b, c, e ::
          Indices(prev, curr, a, b, c, e) && Visited(a, b, c, e, i, j, k, l) && Compared(prev, curr, a, b, c, e)
          ==> m.Some? && m.value <= Gap(prev, curr, a, b, c, e))
    && (m.Some? ==>
          && Indices(prev, curr, w.0, w.1, w.2, w.3) && Visited(w.0, w.1, w.2, w.3, i, j, k, l)
          && Compared(prev, curr, w.0, w.1, w.2, w.3) && m.value == Gap(prev, curr, w.0, w.1, w.2, w.3))
  }

  method CheckSegmentCollision(prev: Row, curr: Row, minClearance: real)
    returns (hasCollision: bool, minDistance: Option<real>)
    requires prev != [] && curr != [] ==> NonEmptySegments(prev) && NonEmptySegments(curr)
    ensures minDistance.None? ==>
      forall i, j, k, l :: Indices(prev, curr, i, j, k, l) ==> !Compared(prev, curr, i, j, k, l)
    ensures minDistance.Some? ==>
      exists i, j, k, l :: Indices(prev, curr, i, j, k, l) && Compared(prev, curr, i, j, k, l)
        && minDistance.value == Gap(prev, curr, i, j, k, l)
    ensures minDistance.Some? ==>
      forall i, j, k, l :: Indices(prev, curr, i, j, k, l) && Compared(prev, curr, i, j, k, l) ==>
        minDistance.value <= Gap(prev, curr, i, j, k, l)
    ensures hasCollision <==> minDistance.Some? && minDistance.value < minClearance
    ensures hasCollision == Collides(prev, curr, minClearance)
  {
    if prev == [] || curr == [] {
      return false, None;
    }
    minDistance := None;
    ghost var w := (0, 0, 0, 0);
    var i := 0;
    while i < |curr|
      invariant 0 <= i <= |curr|
      invariant MinSoFar(prev, curr, minDistance, w, i, 0, 0, 0)
    {
      var cs := curr[i];
      var j := 0;
      while j < |prev|
        invariant 0 <= j <= |prev|
        invariant MinSoFar(prev, curr, minDistance, w, i, j, 0, 0)
      {
        var ps := prev[j];
        var currXMin, currXMax := cs[0].x, cs[|cs| - 1].x;
        var prevXMin, prevXMax := ps[0].x, ps[|ps| - 1].x;
        if currXMax >= prevXMin && currXMin <= prevXMax {
          minDistance, w := ComparePolylines(prev, curr, i, j, j + 1, minDistance, w);
        } else {
          SkipPrevPolyline(prev, curr, minDistance, w, i, j, j + 1);
        }
        j := j + 1;
      }
      i := i + 1;
      NextCurrPolyline(prev, curr, minDistance, w, i - 1, i);
    }
    AllVisited(prev, curr, minDistance, w, i);
    hasCollision := minDistance.Some? && minDistance.value < minClearance;
    if hasCollision {
      assert Gap(prev, curr, w.0, w.1, w.2, w.3) < minClearance;
    }
  }

  /**
   * The two inner loops: every point of current polyline `i` against every point of the
   * overlapping previous polyline `j`, extending the running minimum over them.
   */
  method ComparePolylines(prev: Row, curr: Row, i: int, j: int, j': int, m: Option<real>,
                          ghost w: (int, int, int, int))
    returns (minDistance: Option<real>, ghost w': (int, int, int, int))
    requires 0 <= i < |curr| && 0 <= j < |prev| && j' == j + 1
    requires |curr[i]| > 0 && |prev[j]| > 0 && Overlap(curr[i], prev[j])
    requires MinSoFar(prev, curr, m, w, i, j, 0, 0)
    ensures MinSoFar(prev, curr, minDistance, w', i, j', 0, 0)
  {
    var cs, ps := curr[i], prev[j];
    minDistance, w' := m, w;
    var k := 0;
    while k < |cs|
      invariant 0 <= k <= |cs|
      invariant MinSoFar(prev, curr, minDistance, w', i, j, k, 0)
    {
      var l := 0;
      while l < |ps|
        invariant 0 <= l <= |ps|
        invariant MinSoFar(prev, curr, minDistance, w', i, j, k, l)
      {
        ghost var m0, w0 := minDistance, w';
        if Abs((cs[k].x - ps[l].x) as real) < 1.0 {
          var distance := Abs(cs[k].y - ps[l].y);
          if minDistance.None? || distance < minDistance.value {
            w' := (i, j, k, l);
          }
          minDistance := MinWithInfinity(minDistance, distance);
        }
        l := l + 1;
        VisitPair(prev, curr, m0, w0, minDistance, w', i, j, k, l - 1, l);
      }
      k := k + 1;
      NextCurrPoint(prev, curr, minDistance, w', i, j, k - 1, k);
    }
    NextPrevPolyline(prev, curr, minDistance, w', i, j, j', |cs|);
  }

  // ---------------------------------------------------------------------------
  // How the running minimum moves through the four nested loops

  /** Looking at the pair `(i, j, k, l)` of overlapping polylines extends the running minimum to it. */
  lemma VisitPair(prev: Row, curr: Row, m: Option<real>, w: (int, int, int, int), m': Option<real>,
                  w': (int, int, int, int), i: int, j: int, k: int, l: int, l': int)
    requires Indices(prev, curr, i, j, k, l) && l' == l + 1 && Overlap(curr[i], prev[j])
    requires Near(curr[i][k], prev[j][l]) ==>
      && m' == MinWithInfinity(m, Gap(prev, curr, i, j, k, l))
      && w' == (if m.None? || Gap(prev, curr, i, j, k, l) < m.value then (i, j, k, l) else w)
    requires !Near(curr[i][k], prev[j][l]) ==> m' == m && w' == w
    ensures MinSoFar(prev, curr, m, w, i, j, k, l) ==> MinSoFar(prev, curr, m', w', i, j, k, l')
  {
  }

  /** Past the last previous point, the next current point starts at the first previous point. */
  lemma NextCurrPoint(prev: Row, curr: Row, m: Option<real>, w: (int, int, int, int),
                      i: int, j: int, k: int, k': int)
    requires 0 <= i < |curr| && 0 <= j < |prev| && 0 <= k < |curr[i]| && k' == k + 1
    ensures MinSoFar(prev, curr, m, w, i, j, k, |prev[j]|) ==> MinSoFar(prev, curr, m, w, i, j, k', 0)
  {
  }

  /** Past the last current point, the next previous polyline starts from scratch. */
  lemma NextPrevPolyline(prev: Row, curr: Row, m: Option<real>, w: (int, int, int, int),
                         i: int, j: int, j': int, n: nat)
    requires 0 <= i < |curr| && 0 <= j < |prev| && j' == j + 1 && n == |curr[i]|
    ensures MinSoFar(prev, curr, m, w, i, j, n, 0) ==> MinSoFar(prev, curr, m, w, i, j', 0, 0)
  {
  }

  /** A previous polyline whose columns do not overlap contributes no compared pair. */
  lemma SkipPrevPolyline(prev: Row, curr: Row, m: Option<real>, w: (int, int, int, int),
                         i: int, j: int, j': int)
    requires 0 <= i < |curr| && 0 <= j < |prev| && j' == j + 1
    requires |curr[i]| > 0 && |prev[j]| > 0 && !Overlap(curr[i], prev[j])
    ensures MinSoFar(prev, curr, m, w, i, j, 0, 0) ==> MinSoFar(prev, curr, m, w, i, j', 0, 0)
  {
  }

  /** Past the last previous polyline, the next current polyline starts from scratch. */
  lemma NextCurrPolyline(prev: Row, curr: Row, m: Option<real>, w: (int, int, int, int), i: int, i': int)
    requires 0 <= i < |curr| && i' == i + 1
    ensures MinSoFar(prev, curr, m, w, i, |prev|, 0, 0) ==> MinSoFar(prev, curr, m, w, i', 0, 0, 0)
  {
  }

  /** Past the last current polyline every pair has been visited. */
  lemma AllVisited(prev: Row, curr: Row, m: Option<real>, w: (int, int, int, int), n: nat)
    requires n == |curr|
    ensures MinSoFar(prev, curr, m, w, n, 0, 0, 0) ==>
      && (forall a, b, c, e :: Indices(prev, curr, a, b, c, e) && Compared(prev, curr, a, b, c, e)
            ==> m.Some? && m.value <= Gap(prev, curr, a, b, c, e))
      && (m.Some? ==>
            && Indices(prev, curr, w.0, w.1, w.2, w.3) && Compared(prev, curr, w.0, w.1, w.2, w.3)
            && m.value == Gap(prev, curr, w.0, w.1, w.2, w.3))
  {
  }

  /** On rows whose polylines have increasing columns, the overlap test never skips a same-column pair. */
  lemma OverlapNeverExcludes(prev: Row, curr: Row, i: int, j: int, k: int, l: int)
    requires WellFormed(prev) && WellFormed(curr)
    requires Indices(prev, curr, i, j, k, l)
    ensures Compared(prev, curr, i, j, k, l) <==> curr[i][k].x == prev[j][l].x
  {
    NearIsSameColumn(curr[i][k], prev[j][l]);
    var cs, ps := curr[i], prev[j];
    assert k < |cs| - 1 ==> cs[k].x < Last(cs).x;
    assert k > 0 ==> cs[0].x < cs[k].x;
    assert l < |ps| - 1 ==> ps[l].x < Last(ps).x;
    assert l > 0 ==> ps[0].x < ps[l].x;
  }

  /** On well-formed rows, "no collision" and "clearance in every shared column" say the same. */
  lemma NoCollisionIffClearance(prev: Row, curr: Row, minClearance: real)
    requires WellFormed(prev) && WellFormed(curr)
    ensures !Collides(prev, curr, minClearance) <==> KeepsClearance(prev, curr, minClearance)
  {
    forall i, j, k, l | Indices(prev, curr, i, j, k, l)
      ensures Compared(prev, curr, i, j, k, l) <==> curr[i][k].x == prev[j][l].x
    {
      OverlapNeverExcludes(prev, curr, i, j, k, l);
    }
  }
}
