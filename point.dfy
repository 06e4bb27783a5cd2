/** Points with strengths, axis-aligned square boxes and the quadtree geometry
    (src/point.h): containment, the padded bounding box, adjacency with a
    relative tolerance, quadrant codes and child boxes. */
module Geometry {

  import opened Vectors
  import opened Outcomes

  /** A source: a position and a strength. */
  datatype Point = Point(position: Vector2, strength: real)

  /** A square box given by its centre and half its side length. */
  datatype Box2 = Box2(center: Vector2, halfSide: real)
  {
    /** Box2::contains: both coordinates within halfSide of the centre (closed box). */
    predicate Contains(p: Point) {
      Abs(p.position.x - center.x) <= halfSide && Abs(p.position.y - center.y) <= halfSide
    }
  }

  function Abs(r: real): real {
    if r < 0.0 then -r else r
  }

  function Min(a: real, b: real): real {
    if a <= b then a else b
  }

  function Max(a: real, b: real): real {
    if a >= b then a else b
  }

  /** std::numeric_limits<double>::max(), written out exactly. */
  const DoubleMax: real := 179769313486231570814527423731704356798070567525844996598917476803157260780028538760589558632766878171540458953514382464234321326889464182768467546703537516986049910576551282076245490090389328944075868508455133942304583236903222948165808559332123348274797826204144723168738177180919299881250404026184124858368.0

  /** std::numeric_limits<double>::lowest(). */
  const DoubleLowest: real := -DoubleMax

  /** The relative padding added to the bounding box's half side. */
  const Padding: real := 0.00001

  /** The relative tolerance of the adjacency test. */
  const AdjacencyTolerance: real := 0.00001

  datatype Axis = XAxis | YAxis

  function Coord(p: Point, axis: Axis): real {
    match axis
    case XAxis => p.position.x
    case YAxis => p.position.y
  }

  // ---------------------------------------------------------------------------
  // computeBoundingBox

  /** The running minimum of one coordinate over ps, started at init. */
  function RunningMin(init: real, ps: seq<Point>, axis: Axis): real {
    if |ps| == 0 then init else Min(RunningMin(init, ps[..|ps| - 1], axis), Coord(ps[|ps| - 1], axis))
  }

  /** The running maximum of one coordinate over ps, started at init. */
  function RunningMax(init: real, ps: seq<Point>, axis: Axis): real {
    if |ps| == 0 then init else Max(RunningMax(init, ps[..|ps| - 1], axis), Coord(ps[|ps| - 1], axis))
  }

  /** The box computeBoundingBox returns: centre at the midpoint of the extremes,
      half side half the larger extent, times 1 + Padding; (0,0) and 0 when empty. */
  function BoundingBox(ps: seq<Point>): Box2 {
    if |ps| == 0 then Box2(Vector2(0.0, 0.0), 0.0)
    else
      var minX, maxX := RunningMin(DoubleMax, ps, XAxis), RunningMax(DoubleLowest, ps, XAxis);
      var minY, maxY := RunningMin(DoubleMax, ps, YAxis), RunningMax(DoubleLowest, ps, YAxis);
      Box2(Vector2(0.5 * (minX + maxX), 0.5 * (minY + maxY)),
           0.5 * Max(maxX - minX, maxY - minY) * (1.0 + Padding))
  }

  method ComputeBoundingBox(points: seq<Point>) returns (box: Box2)
    ensures box == BoundingBox(points)
    ensures |points| == 0 ==> box == Box2(Vector2(0.0, 0.0), 0.0)
    ensures box.halfSide >= 0.0
    ensures forall i :: 0 <= i < |points| ==> box.Contains(points[i])
  {
    if |points| == 0 {
      return Box2(Vector2(0.0, 0.0), 0.0);
    }
    var minX, maxX, minY, maxY := DoubleMax, DoubleLowest, DoubleMax, DoubleLowest;
    var i := 0;
    while i < |points|
      invariant 0 <= i <= |points|
      invariant minX == RunningMin(DoubleMax, points[..i], XAxis)
      invariant maxX == RunningMax(DoubleLowest, points[..i], XAxis)
      invariant minY == RunningMin(DoubleMax, points[..i], YAxis)
      invariant maxY == RunningMax(DoubleLowest, points[..i], YAxis)
    {
      var p := points[i];
      assert points[..i + 1][..i] == points[..i];
      minX := Min(minX, p.position.x);
      maxX := Max(maxX, p.position.x);
      minY := Min(minY, p.position.y);
      maxY := Max(maxY, p.position.y);
      i := i + 1;
    }
    assert points[..i] == points;
    var halfSide := 0.5 * Max(maxX - minX, maxY - minY);
    halfSide := halfSide * (1.0 + Padding);
    box := Box2(Vector2(0.5 * (minX + maxX), 0.5 * (minY + maxY)), halfSide);
    BoundingBoxContainsAll(points);
  }

  lemma {:induction false} RunningMinBelow(init: real, ps: seq<Point>, axis: Axis)
    ensures RunningMin(init, ps, axis) <= init
    ensures forall i :: 0 <= i < |ps| ==> RunningMin(init, ps, axis) <= Coord(ps[i], axis)
  {
    if |ps| > 0 {
      var front := ps[..|ps| - 1];
      RunningMinBelow(init, front, axis);
      forall i | 0 <= i < |ps|
        ensures RunningMin(init, ps, axis) <= Coord(ps[i], axis)
      {
        if i < |ps| - 1 {
          assert ps[i] == front[i];
        }
      }
    }
  }

  lemma {:induction false} RunningMaxAbove(init: real, ps: seq<Point>, axis: Axis)
    ensures RunningMax(init, ps, axis) >= init
    ensures forall i :: 0 <= i < |ps| ==> RunningMax(init, ps, axis) >= Coord(ps[i], axis)
  {
    if |ps| > 0 {
      var front := ps[..|ps| - 1];
      RunningMaxAbove(init, front, axis);
      forall i | 0 <= i < |ps|
        ensures RunningMax(init, ps, axis) >= Coord(ps[i], axis)
      {
        if i < |ps| - 1 {
          assert ps[i] == front[i];
        }
      }
    }
  }

  /** A coordinate between lo and hi is within half the extent of the midpoint. */
  lemma MidpointBound(v: real, lo: real, hi: real, h: real)
    requires lo <= v <= hi
    requires h >= 0.5 * (hi - lo)
    ensures Abs(v - 0.5 * (lo + hi)) <= h
  {
  }

  /** For non-empty input the bounding box has a non-negative half side and
      contains every input point. */
  lemma BoundingBoxContainsAll(ps: seq<Point>)
    ensures BoundingBox(ps).halfSide >= 0.0
    ensures forall i :: 0 <= i < |ps| ==> BoundingBox(ps).Contains(ps[i])
  {
    if |ps| > 0 {
      var minX, maxX := RunningMin(DoubleMax, ps, XAxis), RunningMax(DoubleLowest, ps, XAxis);
      var minY, maxY := RunningMin(DoubleMax, ps, YAxis), RunningMax(DoubleLowest, ps, YAxis);
      RunningMinBelow(DoubleMax, ps, XAxis);
      RunningMaxAbove(DoubleLowest, ps, XAxis);
      RunningMinBelow(DoubleMax, ps, YAxis);
      RunningMaxAbove(DoubleLowest, ps, YAxis);
      var e := Max(maxX - minX, maxY - minY);
      assert minX <= Coord(ps[0], XAxis) <= maxX;
      assert minY <= Coord(ps[0], YAxis) <= maxY;
      var box := BoundingBox(ps);
      assert box.halfSide == 0.5 * e * (1.0 + Padding);
      assert 0.5 * e * (1.0 + Padding) >= 0.5 * e;
      forall i | 0 <= i < |ps|
        ensures box.Contains(ps[i])
      {
        assert minX <= Coord(ps[i], XAxis) <= maxX;
        assert minY <= Coord(ps[i], YAxis) <= maxY;
        MidpointBound(ps[i].position.x, minX, maxX, box.halfSide);
        MidpointBound(ps[i].position.y, minY, maxY, box.halfSide);
      }
    }
  }

  // ---------------------------------------------------------------------------
  // adjacent

  /** adjacent: the centres are, on each axis, at most the sum of the half sides
      apart, plus a tolerance relative to the smaller box. */
  predicate Adjacent(box1: Box2, box2: Box2) {
    var dx := Abs(box1.center.x - box2.center.x);
    var dy := Abs(box1.center.y - box2.center.y);
    var sideSum := box1.halfSide + box2.halfSide;
    var tolerance := Min(box1.halfSide, box2.halfSide) * AdjacencyTolerance;
    dx <= sideSum + tolerance && dy <= sideSum + tolerance
  }

  lemma AdjacentSymmetric(box1: Box2, box2: Box2)
    ensures Adjacent(box1, box2) <==> Adjacent(box2, box1)
  {
  }

  lemma AdjacentReflexive(box: Box2)
    requires box.halfSide >= 0.0
    ensures Adjacent(box, box)
  {
  }

  /** Two boxes that are not adjacent have different centres, so the shift
      between their expansions is non-zero. */
  lemma NotAdjacentCentersDiffer(box1: Box2, box2: Box2)
    requires box1.halfSide >= 0.0 && box2.halfSide >= 0.0
    requires !Adjacent(box1, box2)
    ensures box1.center != box2.center
  {
  }

  // ---------------------------------------------------------------------------
  // getQuadrant and getChildBox

  /** getQuadrant: bit 0 set when x >= centre x, bit 1 set when y >= centre y
      (layout 2|3 over 0|1). The two disjoint bits are or-ed, which is their sum. */
  function GetQuadrant(box: Box2, position: Vector2): (quadrant: nat)
    ensures quadrant < 4
    ensures quadrant % 2 == 1 <==> position.x >= box.center.x
    ensures quadrant / 2 == 1 <==> position.y >= box.center.y
  {
    (if position.x >= box.center.x then 1 else 0) + (if position.y >= box.center.y then 2 else 0)
  }

  /** The sign (+1 or -1) of a child centre's offset along x for quadrant q. */
  function XOffsetSign(quadrant: nat): real {
    if quadrant % 2 == 1 then 1.0 else -1.0
  }

  /** The sign of a child centre's offset along y for quadrant q. */
  function YOffsetSign(quadrant: nat): real {
    if (quadrant / 2) % 2 == 1 then 1.0 else -1.0
  }

  /** getChildBox: the quarter of parent named by quadrant; any code above 3
      is the "Invalid quadrant" error. */
  function GetChildBox(parent: Box2, quadrant: nat): Result<Box2> {
    var h := 0.5 * parent.halfSide;
    match quadrant
    case 0 => Ok(Box2(Vector2(parent.center.x - h, parent.center.y - h), h))
    case 1 => Ok(Box2(Vector2(parent.center.x + h, parent.center.y - h), h))
    case 2 => Ok(Box2(Vector2(parent.center.x - h, parent.center.y + h), h))
    case 3 => Ok(Box2(Vector2(parent.center.x + h, parent.center.y + h), h))
    case _ => Failure("Invalid quadrant")
  }

  /** The four child boxes share one shape: half the parent's half side, the
      centre moved by that much on each axis, in the direction q's bits name. */
  lemma ChildBoxShape(parent: Box2, quadrant: nat)
    ensures quadrant < 4 <==> GetChildBox(parent, quadrant).Ok?
    ensures quadrant < 4 ==>
      var child := GetChildBox(parent, quadrant).value;
      && child.halfSide == parent.halfSide / 2.0
      && child.center.x == parent.center.x + XOffsetSign(quadrant) * (parent.halfSide / 2.0)
      && child.center.y == parent.center.y + YOffsetSign(quadrant) * (parent.halfSide / 2.0)
  {
  }

  /** The child of the point's quadrant contains every point its parent contains:
      this makes the descent from root to leaf sound. */
  lemma ChildContainsPoint(parent: Box2, p: Point)
    requires parent.Contains(p)
    ensures GetChildBox(parent, GetQuadrant(parent, p.position)).Ok?
    ensures GetChildBox(parent, GetQuadrant(parent, p.position)).value.Contains(p)
  {
  }

  /** Conversely, a point off the parent's centre lines lies in exactly one child,
      the one getQuadrant names. */
  lemma QuadrantIsUnique(parent: Box2, p: Point, quadrant: nat)
    requires quadrant < 4
    requires p.position.x != parent.center.x && p.position.y != parent.center.y
    requires GetChildBox(parent, quadrant).value.Contains(p)
    ensures GetQuadrant(parent, p.position) == quadrant
  {
  }

  /** Any two children of one parent (with a non-negative half side) are adjacent. */
  lemma SiblingsAdjacent(parent: Box2, q1: nat, q2: nat)
    requires parent.halfSide >= 0.0
    requires q1 < 4 && q2 < 4
    ensures Adjacent(GetChildBox(parent, q1).value, GetChildBox(parent, q2).value)
  {
  }
}
