/** Points, polylines and rows of polylines, shared by every stage of the converter. */
module Geometry {

  /** `None` stands for the source's `float('inf')`: no distance observed yet. */
  datatype Option<+T> = None | Some(value: T)

  /** One vertex of a polyline: integer column `x`, vertical position `y` (grows downwards). */
  datatype Point = Point(x: int, y: real)

  /** A polyline: the points of one drawn stroke, left to right. */
  type Segment = seq<Point>

  /** Everything drawn for one scan row: its polylines, left to right. */
  type Row = seq<Segment>

  function Abs(r: real): (a: real)
    ensures a >= 0.0 && (a == r || a == -r)
  {
    if r < 0.0 then -r else r
  }

  function Last<T>(s: seq<T>): T
    requires |s| > 0
  {
    s[|s| - 1]
  }

  /** Two points are "at the same x" when their columns differ by less than one pixel. */
  predicate Near(p: Point, q: Point)
  {
    Abs((p.x - q.x) as real) < 1.0
  }

  lemma NearIsSameColumn(p: Point, q: Point)
    ensures Near(p, q) <==> p.x == q.x
  {
    if p.x != q.x {
      assert p.x - q.x >= 1 || q.x - p.x >= 1;
    }
  }

  predicate StrictlyIncreasing(seg: Segment)
  {
    forall a, b :: 0 <= a < b < |seg| ==> seg[a].x < seg[b].x
  }

  /** Every polyline of the row has a first and a last point. */
  predicate NonEmptySegments(row: Row)
  {
    forall i :: 0 <= i < |row| ==> |row[i]| > 0
  }

  /** Every polyline of the row is non-empty and its columns strictly increase. */
  predicate WellFormed(row: Row)
  {
    NonEmptySegments(row) && forall i :: 0 <= i < |row| ==> StrictlyIncreasing(row[i])
  }

  /** The columns of a polyline, in order. */
  function Xs(seg: Segment): (xs: seq<int>)
    ensures |xs| == |seg| && forall k :: 0 <= k < |seg| ==> xs[k] == seg[k].x
  {
    seq(|seg|, k requires 0 <= k < |seg| => seg[k].x)
  }

  /** The column structure of a row: the columns of each polyline, polyline by polyline. */
  function Shape(row: Row): (sh: seq<seq<int>>)
    ensures |sh| == |row| && forall i :: 0 <= i < |row| ==> sh[i] == Xs(row[i])
  {
    seq(|row|, i requires 0 <= i < |row| => Xs(row[i]))
  }
}
