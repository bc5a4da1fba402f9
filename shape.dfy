/**
 * Collision shapes (src/collision/shape.rs): the shape kinds, their corner and
 * vertex lists, their projections onto an axis and the candidate separating axes
 * between two shapes. Coordinates are reals; the square roots and trigonometry of
 * the elliptic parts are not modelled, and `Vec2::try_normalize` is a parameter.
 */
module Shapes {

  import opened Wrappers
  import opened Projections

  /** A 2-D vector. */
  datatype Vec2 = Vec2(x: real, y: real)

  function Add(a: Vec2, b: Vec2): Vec2 { Vec2(a.x + b.x, a.y + b.y) }

  function Sub(a: Vec2, b: Vec2): Vec2 { Vec2(a.x - b.x, a.y - b.y) }

  function Dot(a: Vec2, b: Vec2): real { a.x * b.x + a.y * b.y }

  function NegateX(v: Vec2): Vec2 { Vec2(-v.x, v.y) }

  function NegateY(v: Vec2): Vec2 { Vec2(v.x, -v.y) }

  /** `std::f32::consts::FRAC_1_SQRT_2`, to the precision of a decimal literal. */
  const Frac1Sqrt2: real := 0.7071067811865476

  /** The capacity of the `ArrayVec` that `axes_between` fills. */
  const AxesCapacity: nat := 4

  /**
   * `ShapeKind`. A triangle is the half of its bounding box below (`Normal`) or
   * above (`Invert`) a falling (`Decline`) or rising (`Incline`) diagonal.
   */
  datatype ShapeKind =
    | Ellipse
    | Rectangle
    | TriangleDeclineNormal
    | TriangleDeclineInvert
    | TriangleInclineNormal
    | TriangleInclineInvert

  predicate IsTriangle(k: ShapeKind)
  {
    k != Ellipse && k != Rectangle
  }

  /** `Shape`: a centre, the half extents of the bounding box, and the kind. */
  datatype Shape = Shape(origin: Vec2, hbound: Vec2, kind: ShapeKind)

  /** `point`: an ellipse with no extent, whose box casts a single point on either axis. */
  function PointShape(origin: Vec2): (s: Shape)
    ensures s.kind == Ellipse && s.origin == origin && s.hbound == Vec2(0.0, 0.0)
    ensures ProjectAligned(s) == (Point(origin.x), Point(origin.y))
  {
    Shape(origin, Vec2(0.0, 0.0), Ellipse)
  }

  /** `circle`: an ellipse whose box reaches `radius` from the centre along both axes. */
  function Circle(origin: Vec2, radius: real): (s: Shape)
    ensures s.kind == Ellipse && s.origin == origin && s.hbound == Vec2(radius, radius)
    ensures radius >= 0.0 ==> ProjectAligned(s) == (Symmetrical(origin.x, radius), Symmetrical(origin.y, radius))
  {
    Shape(origin, Vec2(radius, radius), Ellipse)
  }

  /** `ellipse`: the box reaches `radius.x` from the centre along x and `radius.y` along y. */
  function EllipseShape(origin: Vec2, radius: Vec2): (s: Shape)
    ensures s.kind == Ellipse && s.origin == origin && s.hbound == radius
    ensures radius.x >= 0.0 && radius.y >= 0.0
      ==> ProjectAligned(s) == (Symmetrical(origin.x, radius.x), Symmetrical(origin.y, radius.y))
  {
    Shape(origin, radius, Ellipse)
  }

  /** `square`: a rectangle whose half extent is `size` along both axes. */
  function Square(origin: Vec2, size: real): (s: Shape)
    ensures s.kind == Rectangle && s.origin == origin && s.hbound == Vec2(size, size)
    ensures size >= 0.0 ==> ProjectAligned(s) == (Symmetrical(origin.x, size), Symmetrical(origin.y, size))
  {
    Shape(origin, Vec2(size, size), Rectangle)
  }

  /** `rectangle`: `size` holds the half extents, not the full width and height. */
  function RectangleShape(origin: Vec2, size: Vec2): (s: Shape)
    ensures s.kind == Rectangle && s.origin == origin && s.hbound == size
    ensures size.x >= 0.0 && size.y >= 0.0
      ==> ProjectAligned(s) == (Symmetrical(origin.x, size.x), Symmetrical(origin.y, size.y))
  {
    Shape(origin, size, Rectangle)
  }

  /** True for the two rising triangle kinds. */
  predicate IsIncline(k: ShapeKind)
  {
    k == TriangleInclineNormal || k == TriangleInclineInvert
  }

  /** True for the two triangle kinds that keep the upper half of their box. */
  predicate IsInvert(k: ShapeKind)
  {
    k == TriangleDeclineInvert || k == TriangleInclineInvert
  }

  /**
   * `triangle`: the two flags select one of the four triangle kinds, and each
   * flag can be read back from the kind, so the four combinations give four
   * different kinds.
   */
  function Triangle(origin: Vec2, size: Vec2, incline: bool, invert: bool): (s: Shape)
    ensures IsTriangle(s.kind)
    ensures IsIncline(s.kind) == incline && IsInvert(s.kind) == invert
    ensures s.origin == origin && s.hbound == size
  {
    Shape(origin, size,
      match (incline, invert)
      case (false, false) => TriangleDeclineNormal
      case (false, true) => TriangleDeclineInvert
      case (true, false) => TriangleInclineNormal
      case (true, true) => TriangleInclineInvert)
  }

  /** The special constructors are the general ones at particular arguments. */
  lemma ConstructorsAgree(origin: Vec2, r: real)
    ensures PointShape(origin) == Circle(origin, 0.0)
    ensures Circle(origin, r) == EllipseShape(origin, Vec2(r, r))
    ensures Square(origin, r) == RectangleShape(origin, Vec2(r, r))
  {
  }

  /** The corner of the bounding box in direction (`sx`, `sy`), each of them -1 or 1. */
  function Corner(s: Shape, sx: real, sy: real): Vec2
  {
    Vec2(s.origin.x + sx * s.hbound.x, s.origin.y + sy * s.hbound.y)
  }

  /** `project_aligned`: the shape's box projected onto the x and the y axis. */
  function ProjectAligned(s: Shape): (r: (Projection, Projection))
    requires s.hbound.x >= 0.0 && s.hbound.y >= 0.0
    ensures r.0 == Span(s.origin.x - s.hbound.x, s.origin.x + s.hbound.x)
    ensures r.1 == Span(s.origin.y - s.hbound.y, s.origin.y + s.hbound.y)
  {
    (Symmetrical(s.origin.x, s.hbound.x), Symmetrical(s.origin.y, s.hbound.y))
  }

  /**
   * `get_points_bound`: the four corners of the bounding box, counter-clockwise
   * from the lower left.
   */
  function GetPointsBound(s: Shape): (r: seq<Vec2>)
    ensures r == [Corner(s, -1.0, -1.0), Corner(s, 1.0, -1.0), Corner(s, 1.0, 1.0), Corner(s, -1.0, 1.0)]
  {
    [Sub(s.origin, s.hbound), Add(s.origin, NegateY(s.hbound)), Add(s.origin, s.hbound), Add(s.origin, NegateX(s.hbound))]
  }

  /** The x direction of the bounding-box corner a triangle kind leaves out. */
  function OmittedX(k: ShapeKind): real
    requires IsTriangle(k)
  {
    if k == TriangleDeclineNormal || k == TriangleInclineInvert then 1.0 else -1.0
  }

  /** The y direction of the bounding-box corner a triangle kind leaves out. */
  function OmittedY(k: ShapeKind): real
    requires IsTriangle(k)
  {
    if k == TriangleDeclineNormal || k == TriangleInclineNormal then 1.0 else -1.0
  }

  /**
   * `get_points_slope`: the triangle's three vertices, which are the corners of
   * its bounding box less the one corner its kind cuts away: together with that
   * corner they are exactly the four corners. The source panics on a
   * non-triangle, hence the precondition.
   */
  function GetPointsSlope(s: Shape): (r: seq<Vec2>)
    requires IsTriangle(s.kind)
    ensures |r| == 3
    ensures multiset(r) + multiset{Corner(s, OmittedX(s.kind), OmittedY(s.kind))} == multiset(GetPointsBound(s))
  {
    match s.kind
    case TriangleDeclineNormal =>
      DeclineNormalPoints(s);
      [Sub(s.origin, s.hbound), Add(s.origin, NegateY(s.hbound)), Add(s.origin, NegateX(s.hbound))]
    case TriangleDeclineInvert =>
      DeclineInvertPoints(s);
      [Add(s.origin, s.hbound), Add(s.origin, NegateX(s.hbound)), Add(s.origin, NegateY(s.hbound))]
    case TriangleInclineNormal =>
      InclineNormalPoints(s);
      [Add(s.origin, NegateY(s.hbound)), Add(s.origin, s.hbound), Sub(s.origin, s.hbound)]
    case TriangleInclineInvert =>
      InclineInvertPoints(s);
      [Add(s.origin, NegateX(s.hbound)), Sub(s.origin, s.hbound), Add(s.origin, s.hbound)]
  }

  /** The vertices of a declining, normal triangle and the corner it leaves out are the four corners of its box. */
  lemma DeclineNormalPoints(s: Shape)
    requires s.kind == TriangleDeclineNormal
    ensures multiset([Sub(s.origin, s.hbound), Add(s.origin, NegateY(s.hbound)), Add(s.origin, NegateX(s.hbound))]) + multiset{Corner(s, OmittedX(s.kind), OmittedY(s.kind))} == multiset(GetPointsBound(s))
  {
    var c0, c1, c2, c3 := Corner(s, -1.0, -1.0), Corner(s, 1.0, -1.0), Corner(s, 1.0, 1.0), Corner(s, -1.0, 1.0);
    assert [Sub(s.origin, s.hbound), Add(s.origin, NegateY(s.hbound)), Add(s.origin, NegateX(s.hbound))] == [c0, c1, c3];
    assert Corner(s, OmittedX(s.kind), OmittedY(s.kind)) == c2;
    WithoutThird(c0, c1, c2, c3);
  }

  /** The vertices of a declining, inverted triangle and the corner it leaves out are the four corners of its box. */
  lemma DeclineInvertPoints(s: Shape)
    requires s.kind == TriangleDeclineInvert
    ensures multiset([Add(s.origin, s.hbound), Add(s.origin, NegateX(s.hbound)), Add(s.origin, NegateY(s.hbound))]) + multiset{Corner(s, OmittedX(s.kind), OmittedY(s.kind))} == multiset(GetPointsBound(s))
  {
    var c0, c1, c2, c3 := Corner(s, -1.0, -1.0), Corner(s, 1.0, -1.0), Corner(s, 1.0, 1.0), Corner(s, -1.0, 1.0);
    assert [Add(s.origin, s.hbound), Add(s.origin, NegateX(s.hbound)), Add(s.origin, NegateY(s.hbound))] == [c2, c3, c1];
    assert Corner(s, OmittedX(s.kind), OmittedY(s.kind)) == c0;
    WithoutFirst(c0, c1, c2, c3);
  }

  /** The vertices of an inclining, normal triangle and the corner it leaves out are the four corners of its box. */
  lemma InclineNormalPoints(s: Shape)
    requires s.kind == TriangleInclineNormal
    ensures multiset([Add(s.origin, NegateY(s.hbound)), Add(s.origin, s.hbound), Sub(s.origin, s.hbound)]) + multiset{Corner(s, OmittedX(s.kind), OmittedY(s.kind))} == multiset(GetPointsBound(s))
  {
    var c0, c1, c2, c3 := Corner(s, -1.0, -1.0), Corner(s, 1.0, -1.0), Corner(s, 1.0, 1.0), Corner(s, -1.0, 1.0);
    assert [Add(s.origin, NegateY(s.hbound)), Add(s.origin, s.hbound), Sub(s.origin, s.hbound)] == [c1, c2, c0];
    assert Corner(s, OmittedX(s.kind), OmittedY(s.kind)) == c3;
    WithoutFourth(c0, c1, c2, c3);
  }

  /** The vertices of an inclining, inverted triangle and the corner it leaves out are the four corners of its box. */
  lemma InclineInvertPoints(s: Shape)
    requires s.kind == TriangleInclineInvert
    ensures multiset([Add(s.origin, NegateX(s.hbound)), Sub(s.origin, s.hbound), Add(s.origin, s.hbound)]) + multiset{Corner(s, OmittedX(s.kind), OmittedY(s.kind))} == multiset(GetPointsBound(s))
  {
    var c0, c1, c2, c3 := Corner(s, -1.0, -1.0), Corner(s, 1.0, -1.0), Corner(s, 1.0, 1.0), Corner(s, -1.0, 1.0);
    assert [Add(s.origin, NegateX(s.hbound)), Sub(s.origin, s.hbound), Add(s.origin, s.hbound)] == [c3, c0, c2];
    assert Corner(s, OmittedX(s.kind), OmittedY(s.kind)) == c1;
    WithoutSecond(c0, c1, c2, c3);
  }

  /** The vertex order of a declining, normal triangle and its left-out corner make up all four corners. */
  lemma WithoutThird<T>(c0: T, c1: T, c2: T, c3: T)
    ensures multiset([c0, c1, c3]) + multiset{c2} == multiset([c0, c1, c2, c3])
  {
  }

  /** The same for a declining, inverted triangle. */
  lemma WithoutFirst<T>(c0: T, c1: T, c2: T, c3: T)
    ensures multiset([c2, c3, c1]) + multiset{c0} == multiset([c0, c1, c2, c3])
  {
  }

  /** The same for an inclining, normal triangle. */
  lemma WithoutFourth<T>(c0: T, c1: T, c2: T, c3: T)
    ensures multiset([c1, c2, c0]) + multiset{c3} == multiset([c0, c1, c2, c3])
  {
  }

  /** The same for an inclining, inverted triangle. */
  lemma WithoutSecond<T>(c0: T, c1: T, c2: T, c3: T)
    ensures multiset([c3, c0, c2]) + multiset{c1} == multiset([c0, c1, c2, c3])
  {
  }

  /** The closure of `project_points`' fold: widens `acc` to cover each point of `pts` in turn. */
  function FoldCover(acc: Projection, axis: Vec2, pts: seq<Vec2>): (r: Projection)
    ensures Covers(r, acc)
    ensures forall i :: 0 <= i < |pts| ==> Contains(r, Dot(axis, pts[i]))
    ensures r.near == acc.near || exists i :: 0 <= i < |pts| && r.near == Dot(axis, pts[i])
    ensures r.far == acc.far || exists i :: 0 <= i < |pts| && r.far == Dot(axis, pts[i])
    decreases |pts|
  {
    if pts == [] then acc
    else
      var r := FoldCover(CoveringPoint(acc, Dot(axis, pts[0])), axis, pts[1..]);
      assert forall i :: 1 <= i < |pts| ==> pts[i] == pts[1..][i - 1];
      r
  }

  /**
   * `project_points`: the smallest interval holding every point's projection:
   * each projection lies inside it, and both ends are projections of points.
   * The debug assertion that the point list is not empty is the precondition.
   */
  function ProjectPoints(axis: Vec2, pts: seq<Vec2>): (r: Projection)
    requires |pts| >= 1
    ensures forall i :: 0 <= i < |pts| ==> Contains(r, Dot(axis, pts[i]))
    ensures exists i :: 0 <= i < |pts| && r.near == Dot(axis, pts[i])
    ensures exists i :: 0 <= i < |pts| && r.far == Dot(axis, pts[i])
  {
    FoldCover(Point(Dot(axis, pts[0])), axis, pts[1..])
  }

  /** The points `project_on` folds for a box or triangle. */
  function Outline(s: Shape): seq<Vec2>
    requires s.kind != Ellipse
  {
    if s.kind == Rectangle then GetPointsBound(s) else GetPointsSlope(s)
  }

  /**
   * `project_on`: the projection of the shape's outline onto `axis`. For an
   * ellipse the source computes the radius with a square root
   * (`get_radius_on_axis`); here that radius is supplied by the caller.
   */
  function ProjectOn(s: Shape, axis: Vec2, ellipseRadius: real): (r: Projection)
    requires s.kind == Ellipse ==> ellipseRadius >= 0.0
    ensures s.kind == Ellipse ==> Mid(r) == Dot(axis, s.origin) && Length(r) == 2.0 * ellipseRadius
    ensures s.kind != Ellipse ==>
      (forall i :: 0 <= i < |Outline(s)| ==> Contains(r, Dot(axis, Outline(s)[i]))) &&
      (exists i :: 0 <= i < |Outline(s)| && r.near == Dot(axis, Outline(s)[i])) &&
      (exists i :: 0 <= i < |Outline(s)| && r.far == Dot(axis, Outline(s)[i]))
  {
    if s.kind == Ellipse then Symmetrical(Dot(axis, s.origin), ellipseRadius)
    else ProjectPoints(axis, Outline(s))
  }

  /** For a box, projecting on the two coordinate axes gives `project_aligned`. */
  lemma ProjectAlignedIsProjectOn(s: Shape)
    requires s.kind == Rectangle && s.hbound.x >= 0.0 && s.hbound.y >= 0.0
    ensures ProjectAligned(s).0 == ProjectOn(s, Vec2(1.0, 0.0), 0.0)
    ensures ProjectAligned(s).1 == ProjectOn(s, Vec2(0.0, 1.0), 0.0)
  {
    var pts := GetPointsBound(s);
    forall p: Vec2
      ensures Dot(Vec2(1.0, 0.0), p) == p.x && Dot(Vec2(0.0, 1.0), p) == p.y
    {
    }
    assert pts[0].x == pts[3].x == s.origin.x - s.hbound.x && pts[1].x == pts[2].x == s.origin.x + s.hbound.x;
    assert pts[0].y == pts[1].y == s.origin.y - s.hbound.y && pts[2].y == pts[3].y == s.origin.y + s.hbound.y;
  }

  /** A triangle projects inside the projection of its bounding box, on any axis. */
  lemma TriangleWithinBound(s: Shape, axis: Vec2)
    requires IsTriangle(s.kind)
    ensures Covers(ProjectOn(RectangleShape(s.origin, s.hbound), axis, 0.0), ProjectOn(s, axis, 0.0))
  {
    var box := RectangleShape(s.origin, s.hbound);
    var tri := GetPointsSlope(s);
    var corners := GetPointsBound(s);
    assert Outline(box) == corners;
    assert Outline(s) == tri;
    var outer := ProjectOn(box, axis, 0.0);
    var inner := ProjectOn(s, axis, 0.0);
    var i :| 0 <= i < |tri| && inner.near == Dot(axis, tri[i]);
    var j :| 0 <= j < |tri| && inner.far == Dot(axis, tri[j]);
    assert tri[i] in multiset(tri) && tri[j] in multiset(tri);
    ProjectedMember(outer, axis, corners, tri[i]);
    ProjectedMember(outer, axis, corners, tri[j]);
  }

  /** A projection holding every point's projection holds that of any member of the list. */
  lemma ProjectedMember(r: Projection, axis: Vec2, pts: seq<Vec2>, p: Vec2)
    requires forall i :: 0 <= i < |pts| ==> Contains(r, Dot(axis, pts[i]))
    requires p in pts
    ensures Contains(r, Dot(axis, p))
  {
    var i :| 0 <= i < |pts| && pts[i] == p;
  }

  /**
   * The fixed axis `axes_between` tests for a triangle: the unit diagonal
   * normal to its sloped side.
   */
  function Diagonal(k: ShapeKind): (v: Vec2)
    requires IsTriangle(k)
    ensures v == Vec2(Frac1Sqrt2 * OmittedX(k), Frac1Sqrt2 * OmittedY(k))
  {
    match k
    case TriangleDeclineNormal => Vec2(Frac1Sqrt2, Frac1Sqrt2)
    case TriangleInclineNormal => Vec2(-Frac1Sqrt2, Frac1Sqrt2)
    case TriangleDeclineInvert => Vec2(-Frac1Sqrt2, -Frac1Sqrt2)
    case TriangleInclineInvert => Vec2(Frac1Sqrt2, -Frac1Sqrt2)
  }

  /** The axes from `origin` towards each point of `pts` that `normalize` accepts, in order. */
  function NormalizedToward(origin: Vec2, pts: seq<Vec2>, normalize: Vec2 -> Option<Vec2>): seq<Vec2>
  {
    if pts == [] then []
    else
      NormalizedToward(origin, pts[..|pts| - 1], normalize) +
      match normalize(Sub(pts[|pts| - 1], origin))
      case Some(v) => [v]
      case None => []
  }

  /** Each point contributes at most one axis. */
  lemma {:induction false} NormalizedTowardLength(origin: Vec2, pts: seq<Vec2>, normalize: Vec2 -> Option<Vec2>)
    ensures |NormalizedToward(origin, pts, normalize)| <= |pts|
  {
    if pts != [] {
      NormalizedTowardLength(origin, pts[..|pts| - 1], normalize);
    }
  }

  /** Every axis produced is the normalisation of the direction to one of the points. */
  lemma {:induction false} NormalizedTowardSource(origin: Vec2, pts: seq<Vec2>, normalize: Vec2 -> Option<Vec2>, v: Vec2)
    requires v in NormalizedToward(origin, pts, normalize)
    ensures exists p :: p in pts && normalize(Sub(p, origin)) == Some(v)
  {
    var init := pts[..|pts| - 1];
    if v in NormalizedToward(origin, init, normalize) {
      NormalizedTowardSource(origin, init, normalize, v);
      var p :| p in init && normalize(Sub(p, origin)) == Some(v);
      assert p in pts;
    } else {
      assert pts[|pts| - 1] in pts;
    }
  }

  /** The points an ellipse tests its axes toward, for each kind of other shape. */
  function AxisTargets(other: Shape): seq<Vec2>
  {
    match other.kind
    case Ellipse => [other.origin]
    case Rectangle => GetPointsBound(other)
    case _ => GetPointsSlope(other)
  }

  /**
   * The axes `axes_between` returns: none for a box, the diagonal for a triangle,
   * and for an ellipse the directions toward the other shape's centre, corners
   * or vertices that `normalize` accepts.
   */
  function AxesSpec(s: Shape, other: Shape, normalize: Vec2 -> Option<Vec2>): seq<Vec2>
  {
    match s.kind
    case Rectangle => []
    case Ellipse => NormalizedToward(s.origin, AxisTargets(other), normalize)
    case _ => [Diagonal(s.kind)]
  }

  /**
   * How many axes each pairing yields: at most one, four and three for an ellipse
   * against an ellipse, a box and a triangle; never more than the `ArrayVec`'s
   * capacity of four.
   */
  lemma AxesCount(s: Shape, other: Shape, normalize: Vec2 -> Option<Vec2>)
    ensures s.kind == Rectangle ==> |AxesSpec(s, other, normalize)| == 0
    ensures IsTriangle(s.kind) ==> |AxesSpec(s, other, normalize)| == 1
    ensures s.kind == Ellipse && other.kind == Ellipse ==> |AxesSpec(s, other, normalize)| <= 1
    ensures s.kind == Ellipse && other.kind == Rectangle ==> |AxesSpec(s, other, normalize)| <= 4
    ensures s.kind == Ellipse && IsTriangle(other.kind) ==> |AxesSpec(s, other, normalize)| <= 3
    ensures |AxesSpec(s, other, normalize)| <= AxesCapacity
  {
    NormalizedTowardLength(s.origin, AxisTargets(other), normalize);
  }

  /**
   * `axes_between`: pushes each candidate axis in turn, as the source does into
   * its `ArrayVec<Vec2, 4>`; the assertion before each push is the capacity
   * check whose failure would panic.
   */
  method AxesBetween(s: Shape, other: Shape, normalize: Vec2 -> Option<Vec2>) returns (axes: seq<Vec2>)
    ensures axes == AxesSpec(s, other, normalize)
    ensures forall v :: v in axes && s.kind == Ellipse ==>
      exists p :: p in AxisTargets(other) && normalize(Sub(p, s.origin)) == Some(v)
  {
    axes := [];
    match s.kind {
      case Rectangle =>
      case Ellipse =>
        var pts := AxisTargets(other);
        assert |pts| <= AxesCapacity;
        for i := 0 to |pts|
          invariant axes == NormalizedToward(s.origin, pts[..i], normalize)
          invariant |axes| <= i
        {
          assert pts[..i + 1][..i] == pts[..i];
          match normalize(Sub(pts[i], s.origin)) {
            case Some(v) =>
              assert |axes| < AxesCapacity;
              axes := axes + [v];
            case None =>
          }
        }
        assert pts[..|pts|] == pts;
        forall v | v in axes
          ensures exists p :: p in AxisTargets(other) && normalize(Sub(p, s.origin)) == Some(v)
        {
          NormalizedTowardSource(s.origin, pts, normalize, v);
        }
      case _ =>
        axes := axes + [Diagonal(s.kind)];
    }
  }
}
