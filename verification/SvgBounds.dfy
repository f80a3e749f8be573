/** Bounding boxes of SVG trees under nested matrix, translate and scale transforms, over the reals. */
module SvgBounds {
  import opened Prelude
  import opened Utf8

  datatype Point = Point(x: real, y: real)

  /** The first two rows of the 3x3 matrix of SVG 1.1, section 7.4, column by column. */
  datatype Matrix = Matrix(a: real, b: real, c: real, d: real, e: real, f: real)

  datatype Box = Box(x1: real, y1: real, x2: real, y2: real)

  const IDENTITY := Matrix(1.0, 0.0, 0.0, 1.0, 0.0, 0.0)

  /** `_transform_point`. */
  function Apply(m: Matrix, p: Point): Point {
    Point(Row(m.a, m.c, m.e, p.x, p.y), Row(m.b, m.d, m.f, p.x, p.y))
  }

  function Times(u: real, v: real): real {
    u * v
  }

  /** One coordinate of an image. */
  function Row(k: real, l: real, shift: real, x: real, y: real): real {
    Times(k, x) + Times(l, y) + shift
  }

  /** `_multiply_matrix`. */
  function Multiply(l: Matrix, r: Matrix): Matrix {
    Matrix(Row(l.a, l.c, 0.0, r.a, r.b), Row(l.b, l.d, 0.0, r.a, r.b), Row(l.a, l.c, 0.0, r.c, r.d),
           Row(l.b, l.d, 0.0, r.c, r.d), Row(l.a, l.c, l.e, r.e, r.f), Row(l.b, l.d, l.f, r.e, r.f))
  }

  /** One row of the product law. */
  lemma RowProduct(p: real, q: real, s: real, a: real, b: real, c: real, d: real, e: real, f: real, x: real, y: real)
    ensures Row(Row(p, q, 0.0, a, b), Row(p, q, 0.0, c, d), Row(p, q, s, e, f), x, y)
         == Row(p, q, s, Row(a, c, e, x, y), Row(b, d, f, x, y))
  {
    assert (p * a + q * b) * x == p * (a * x) + q * (b * x);
    assert (p * c + q * d) * y == p * (c * y) + q * (d * y);
    assert p * (a * x + c * y + e) == p * (a * x) + p * (c * y) + p * e;
    assert q * (b * x + d * y + f) == q * (b * x) + q * (d * y) + q * f;
  }

  /** The matrix product is composition: the right factor is applied first. */
  lemma ProductComposes(l: Matrix, r: Matrix, p: Point)
    ensures Apply(Multiply(l, r), p) == Apply(l, Apply(r, p))
  {
    hide Row;
    RowProduct(l.a, l.c, l.e, r.a, r.b, r.c, r.d, r.e, r.f, p.x, p.y);
    RowProduct(l.b, l.d, l.f, r.a, r.b, r.c, r.d, r.e, r.f, p.x, p.y);
  }

  // Transform lists

  /** One transform function and the numbers between its parentheses. */
  datatype Operation = MatrixOf(numbers: seq<real>) | Translate(numbers: seq<real>) | Scale(numbers: seq<real>)

  /** Its matrix; None where too few numbers make the parser skip it. */
  function OperationMatrix(op: Operation): Option<Matrix> {
    var n := op.numbers;
    match op
    case MatrixOf(_) => if |n| >= 6 then Some(Matrix(n[0], n[1], n[2], n[3], n[4], n[5])) else None
    case Translate(_) =>
      if n == [] then None else Some(Matrix(1.0, 0.0, 0.0, 1.0, n[0], if |n| > 1 then n[1] else 0.0))
    case Scale(_) =>
      if n == [] then None else Some(Matrix(n[0], 0.0, 0.0, if |n| > 1 then n[1] else n[0], 0.0, 0.0))
  }

  /** What each function does to a point (SVG 1.1, section 7.6): translate moves it, by nothing along y where one
      number is given; scale multiplies, by the same where one is given; matrix takes its first six numbers column by
      column; and a function with too few numbers is passed over. */
  lemma OperationActs(op: Operation, p: Point)
    ensures OperationMatrix(op).None? <==> |op.numbers| < if op.MatrixOf? then 6 else 1
    ensures OperationMatrix(op).Some? ==>
      var (n, q) := (op.numbers, Apply(OperationMatrix(op).value, p));
      match op
      case Translate(_) => q.x - p.x == n[0] && (if |n| > 1 then q.y - p.y == n[1] else q.y == p.y)
      case Scale(_) => q.x == n[0] * p.x && q.y == (if |n| > 1 then n[1] else n[0]) * p.y
      case MatrixOf(_) => q.x == n[0] * p.x + n[2] * p.y + n[4] && q.y == n[1] * p.x + n[3] * p.y + n[5]
  {
  }

  /** What a transform list does to a point: its functions apply from the last to the first. */
  function ApplyInOrder(ops: seq<Operation>, p: Point): Point {
    if ops == [] then p
    else
      var inner := ApplyInOrder(ops[1..], p);
      match OperationMatrix(ops[0])
      case None => inner
      case Some(m) => Apply(m, inner)
  }

  lemma {:induction false} ApplyInOrderLast(ops: seq<Operation>, op: Operation, p: Point)
    ensures ApplyInOrder(ops + [op], p)
         == ApplyInOrder(ops, if OperationMatrix(op).Some? then Apply(OperationMatrix(op).value, p) else p)
  {
    hide Apply, OperationMatrix;
    if ops == [] {
      assert [op][1..] == [];
      assert ops + [op] == [op];
    } else {
      assert (ops + [op])[1..] == ops[1..] + [op];
      ApplyInOrderLast(ops[1..], op, p);
    }
  }

  /** Sent to the same place: the matrix and the list agree on every point. */
  ghost predicate Agrees(m: Matrix, ops: seq<Operation>) {
    forall p :: Apply(m, p) == ApplyInOrder(ops, p)
  }

  /** `_parse_svg_transform`: the fold is the list applied in order, on every point. */
  method ParseTransform(ops: seq<Operation>) returns (m: Matrix)
    ensures m == TransformMatrix(ops) && Agrees(m, ops)
  {
    hide OperationMatrix, Multiply, TransformMatrix, Apply;
    m := IDENTITY;
    IdentityAgrees();
    for i := 0 to |ops|
      invariant m == TransformMatrix(ops[..i]) && Agrees(m, ops[..i])
    {
      TransformStep(ops, i);
      AgreesStep(m, ops[..i], ops[i]);
      assert ops[..i + 1] == ops[..i] + [ops[i]];
      var operation := OperationMatrix(ops[i]);
      if operation.None? { continue; }
      m := Multiply(m, operation.value);
    }
    assert ops[..|ops|] == ops;
  }

  function TransformMatrix(ops: seq<Operation>): Matrix {
    if ops == [] then IDENTITY
    else
      var before := TransformMatrix(ops[..|ops| - 1]);
      match OperationMatrix(ops[|ops| - 1])
      case None => before
      case Some(m) => Multiply(before, m)
  }

  lemma TransformStep(ops: seq<Operation>, i: nat)
    requires i < |ops|
    ensures TransformMatrix(ops[..i + 1])
         == if OperationMatrix(ops[i]).None? then TransformMatrix(ops[..i])
            else Multiply(TransformMatrix(ops[..i]), OperationMatrix(ops[i]).value)
  {
    assert ops[..i + 1][..i] == ops[..i];
  }

  lemma IdentityAgrees()
    ensures Agrees(IDENTITY, []) && TransformMatrix([]) == IDENTITY
  {
  }

  lemma AgreesStep(m: Matrix, ops: seq<Operation>, op: Operation)
    requires Agrees(m, ops)
    ensures Agrees(if OperationMatrix(op).None? then m else Multiply(m, OperationMatrix(op).value), ops + [op])
  {
    hide Apply, Multiply, OperationMatrix, ApplyInOrder;
    var after := if OperationMatrix(op).None? then m else Multiply(m, OperationMatrix(op).value);
    forall p ensures Apply(after, p) == ApplyInOrder(ops + [op], p) {
      ApplyInOrderLast(ops, op, p);
      if OperationMatrix(op).Some? { ProductComposes(m, OperationMatrix(op).value, p); }
    }
  }

  // Boxes

  predicate Inside(box: Box, p: Point) {
    box.x1 <= p.x <= box.x2 && box.y1 <= p.y <= box.y2
  }

  predicate Within(inner: Box, outer: Box) {
    outer.x1 <= inner.x1 && outer.y1 <= inner.y1 && inner.x2 <= outer.x2 && inner.y2 <= outer.y2
  }

  function Least(a: real, b: real): real {
    if a <= b then a else b
  }

  function Greatest(a: real, b: real): real {
    if a <= b then b else a
  }

  function Join(a: Box, b: Box): Box {
    Box(Least(a.x1, b.x1), Least(a.y1, b.y1), Greatest(a.x2, b.x2), Greatest(a.y2, b.y2))
  }

  function JoinOptional(a: Option<Box>, b: Option<Box>): Option<Box> {
    if a.None? then b else if b.None? then a else Some(Join(a.value, b.value))
  }

  /** `_points_bbox`. */
  function PointsBox(points: seq<Point>): Option<Box> {
    if points == [] then None
    else
      var last := points[|points| - 1];
      JoinOptional(PointsBox(points[..|points| - 1]), Some(Box(last.x, last.y, last.x, last.y)))
  }

  predicate HoldsAll(box: Box, points: seq<Point>) {
    forall i :: 0 <= i < |points| ==> Inside(box, points[i])
  }

  /** The least box that holds all of some points. */
  ghost predicate IsLeastBox(points: seq<Point>, box: Box) {
    HoldsAll(box, points) && forall other: Box :: HoldsAll(other, points) ==> Within(box, other)
  }

  lemma HoldsAllButLast(box: Box, points: seq<Point>)
    requires points != []
    ensures HoldsAll(box, points) <==> HoldsAll(box, points[..|points| - 1]) && Inside(box, points[|points| - 1])
  {
    assert points == points[..|points| - 1] + [points[|points| - 1]];
  }

  lemma {:induction false} PointsBoxIsLeast(points: seq<Point>)
    requires points != []
    ensures PointsBox(points).Some? && IsLeastBox(points, PointsBox(points).value)
  {
    hide HoldsAll;
    var (n, box) := (|points| - 1, PointsBox(points).value);
    HoldsAllButLast(box, points);
    if n > 0 {
      PointsBoxIsLeast(points[..n]);
      JoinHolds(PointsBox(points[..n]).value, Box(points[n].x, points[n].y, points[n].x, points[n].y), points[..n]);
    } else {
      assert points[..n] == [];
      assert HoldsAll(box, []) by { HoldsNone(box); }
    }
    forall other: Box | HoldsAll(other, points) ensures Within(box, other) {
      HoldsAllButLast(other, points);
    }
  }

  lemma HoldsNone(box: Box)
    ensures HoldsAll(box, [])
  {
  }

  lemma JoinHolds(a: Box, b: Box, points: seq<Point>)
    requires HoldsAll(a, points)
    ensures HoldsAll(Join(a, b), points)
  {
  }

  lemma JoinAssociates(a: Option<Box>, b: Option<Box>, c: Option<Box>)
    ensures JoinOptional(JoinOptional(a, b), c) == JoinOptional(a, JoinOptional(b, c))
  {
  }

  lemma {:induction false} PointsBoxJoins(p: seq<Point>, q: seq<Point>)
    ensures PointsBox(p + q) == JoinOptional(PointsBox(p), PointsBox(q))
  {
    if q == [] {
      assert p + q == p;
    } else {
      var n := |q| - 1;
      assert (p + q)[..|p + q| - 1] == p + q[..n];
      PointsBoxJoins(p, q[..n]);
      JoinAssociates(PointsBox(p), PointsBox(q[..n]), Some(Box(q[n].x, q[n].y, q[n].x, q[n].y)));
    }
  }

  function Corners(box: Box, m: Matrix): (corners: seq<Point>)
    ensures |corners| == 4
  {
    [Apply(m, Point(box.x1, box.y1)), Apply(m, Point(box.x2, box.y1)),
     Apply(m, Point(box.x1, box.y2)), Apply(m, Point(box.x2, box.y2))]
  }

  /** `_transform_bbox`. */
  function TransformBox(box: Box, m: Matrix): Box {
    var transformed := PointsBox(Corners(box, m));
    if transformed.None? then box else transformed.value
  }

  /** A product with one factor in an interval lies between the products with its ends. */
  lemma ProductBetween(k: real, low: real, x: real, high: real)
    requires low <= x <= high
    ensures Least(Times(k, low), Times(k, high)) <= Times(k, x) <= Greatest(Times(k, low), Times(k, high))
  {
    hide Times;
    Distributes(x, low, k);
    Distributes(high, x, k);
    Distributes(x - low, x - low, k);
    Distributes(high - x, high - x, k);
    Distributes(low, low, k);
    ProductSigns(x - low, k);
    ProductSigns(high - x, k);
    ProductSigns(x - low, -k);
    ProductSigns(high - x, -k);
  }

  lemma SumBetween(a: real, a1: real, a2: real, b: real, b1: real, b2: real, low: real, high: real)
    requires Least(a1, a2) <= a <= Greatest(a1, a2) && Least(b1, b2) <= b <= Greatest(b1, b2)
    requires low <= a1 + b1 <= high && low <= a2 + b1 <= high && low <= a1 + b2 <= high && low <= a2 + b2 <= high
    ensures low <= a + b <= high
  {
  }

  /** A linear form over a box lies between its least and greatest corner values. */
  lemma FormBetween(box: Box, p: Point, k: real, l: real, low: real, high: real)
    requires Inside(box, p)
    requires low <= Times(k, box.x1) + Times(l, box.y1) <= high && low <= Times(k, box.x2) + Times(l, box.y1) <= high
    requires low <= Times(k, box.x1) + Times(l, box.y2) <= high && low <= Times(k, box.x2) + Times(l, box.y2) <= high
    ensures low <= Times(k, p.x) + Times(l, p.y) <= high
  {
    hide Least, Greatest, Times;
    ProductBetween(k, box.x1, p.x, box.x2);
    ProductBetween(l, box.y1, p.y, box.y2);
    SumBetween(Times(k, p.x), Times(k, box.x1), Times(k, box.x2), Times(l, p.y), Times(l, box.y1), Times(l, box.y2), low, high);
  }

  /** The linear parts of the two coordinates of an image, bounded by a box. */
  predicate LinearInside(out: Box, m: Matrix, x: real, y: real) {
    && out.x1 - m.e <= Times(m.a, x) + Times(m.c, y) <= out.x2 - m.e
    && out.y1 - m.f <= Times(m.b, x) + Times(m.d, y) <= out.y2 - m.f
  }

  lemma ImageInside(out: Box, m: Matrix, p: Point)
    ensures Inside(out, Apply(m, p)) <==> LinearInside(out, m, p.x, p.y)
  {
    hide Times;
  }

  lemma LinearBetween(box: Box, m: Matrix, p: Point, out: Box)
    requires Inside(box, p)
    requires LinearInside(out, m, box.x1, box.y1) && LinearInside(out, m, box.x2, box.y1)
    requires LinearInside(out, m, box.x1, box.y2) && LinearInside(out, m, box.x2, box.y2)
    ensures LinearInside(out, m, p.x, p.y)
  {
    hide Times;
    FormBetween(box, p, m.a, m.c, out.x1 - m.e, out.x2 - m.e);
    FormBetween(box, p, m.b, m.d, out.y1 - m.f, out.y2 - m.f);
  }

  /** The image of every point of a box is in the transformed box. */
  lemma TransformedBoxEncloses(box: Box, m: Matrix, p: Point)
    requires Inside(box, p)
    ensures Inside(TransformBox(box, m), Apply(m, p))
  {
    hide Apply, PointsBox, LinearInside, Corners, Inside;
    PointsBoxIsLeast(Corners(box, m));
    var out := TransformBox(box, m);
    CornersInside(box, m, out);
    ImageInside(out, m, Point(box.x1, box.y1));
    ImageInside(out, m, Point(box.x2, box.y1));
    ImageInside(out, m, Point(box.x1, box.y2));
    ImageInside(out, m, Point(box.x2, box.y2));
    LinearBetween(box, m, p, out);
    ImageInside(out, m, p);
  }

  lemma CornersInside(box: Box, m: Matrix, out: Box)
    requires HoldsAll(out, Corners(box, m))
    ensures Inside(out, Apply(m, Point(box.x1, box.y1))) && Inside(out, Apply(m, Point(box.x2, box.y1)))
    ensures Inside(out, Apply(m, Point(box.x1, box.y2))) && Inside(out, Apply(m, Point(box.x2, box.y2)))
  {
    hide Inside, Apply;
    var c := Corners(box, m);
    assert Inside(out, c[0]) && Inside(out, c[1]) && Inside(out, c[2]) && Inside(out, c[3]);
  }

  // Shapes

  datatype Shape =
    | Rect(x: real, y: real, width: real, height: real)
    | Ellipse(cx: real, cy: real, rx: real, ry: real)
    | Polygon(points: seq<Point>)
    | NoShape

  /** `_svg_shape_bbox`: a circle is an ellipse of two equal radii, a line a polygon of two points. */
  function ShapeBox(shape: Shape): Option<Box> {
    match shape
    case Rect(x, y, width, height) => if width > 0.0 && height > 0.0 then Some(Box(x, y, x + width, y + height)) else None
    case Ellipse(cx, cy, rx, ry) =>
      if rx > 0.0 && ry > 0.0 then Some(Box(cx - rx, cy - ry, cx + rx, cy + ry)) else None
    case Polygon(points) => PointsBox(points)
    case NoShape => None
  }

  /** Every half-plane that holds the points holds p: p is in their convex hull. */
  ghost predicate InHull(points: seq<Point>, p: Point) {
    forall k: real, l: real, limit: real ::
      (forall i :: 0 <= i < |points| ==> Below(points[i], k, l, limit)) ==> Below(p, k, l, limit)
  }

  predicate Below(p: Point, k: real, l: real, limit: real) {
    Times(k, p.x) + Times(l, p.y) <= limit
  }

  /** The points that a shape covers, its outline and its fill. */
  ghost predicate Covers(shape: Shape, p: Point) {
    match shape
    case Rect(x, y, width, height) => width > 0.0 && height > 0.0 && x <= p.x <= x + width && y <= p.y <= y + height
    case Ellipse(cx, cy, rx, ry) =>
      rx > 0.0 && ry > 0.0 && InEllipse(p.x - cx, p.y - cy, rx, ry)
    case Polygon(points) => points != [] && InHull(points, p)
    case NoShape => false
  }

  function Square(d: real): real {
    Times(d, d)
  }

  predicate InEllipse(dx: real, dy: real, rx: real, ry: real) {
    Times(Square(dx), Square(ry)) + Times(Square(dy), Square(rx)) <= Times(Square(rx), Square(ry))
  }

  lemma ProductSigns(u: real, v: real)
    ensures u > 0.0 && v > 0.0 ==> Times(u, v) > 0.0
    ensures u >= 0.0 && v >= 0.0 ==> Times(u, v) >= 0.0
    ensures Square(u) >= 0.0
  {
  }

  lemma DifferenceOfSquares(d: real, r: real)
    ensures Square(d) - Square(r) == Times(d - r, d + r) == Times(-d - r, -d + r)
  {
  }

  lemma LargerSquare(d: real, r: real)
    requires r > 0.0 && Square(d) <= Square(r)
    ensures -r <= d <= r
  {
    hide Times, Square;
    DifferenceOfSquares(d, r);
    ProductSigns(d - r, d + r);
    ProductSigns(-d - r, -d + r);
  }

  lemma Distributes(u: real, v: real, k: real)
    ensures Times(u - v, k) == Times(u, k) - Times(v, k)
    ensures Times(u, k) == Times(k, u) && Times(u, -k) == -Times(u, k)
  {
  }

  lemma CancelPositive(u: real, v: real, k: real)
    requires k > 0.0 && Times(u, k) <= Times(v, k)
    ensures u <= v
  {
    hide Times;
    Distributes(u, v, k);
    ProductSigns(u - v, k);
  }

  lemma WeightedBound(u: real, v: real, sx: real, sy: real)
    requires u >= 0.0 && v >= 0.0 && sx > 0.0 && sy > 0.0 && Times(u, sy) + Times(v, sx) <= Times(sx, sy)
    ensures u <= sx && v <= sy
  {
    hide Times;
    ProductSigns(u, sy);
    ProductSigns(v, sx);
    Distributes(sx, sx, sy);
    CancelPositive(u, sx, sy);
    CancelPositive(v, sy, sx);
  }

  lemma EllipseIsBounded(dx: real, dy: real, rx: real, ry: real)
    requires rx > 0.0 && ry > 0.0 && InEllipse(dx, dy, rx, ry)
    ensures -rx <= dx <= rx && -ry <= dy <= ry
  {
    hide Times;
    ProductSigns(rx, rx);
    ProductSigns(ry, ry);
    ProductSigns(dx, dx);
    ProductSigns(dy, dy);
    WeightedBound(Square(dx), Square(dy), Square(rx), Square(ry));
    LargerSquare(dx, rx);
    LargerSquare(dy, ry);
  }

  lemma HullIsBounded(points: seq<Point>, p: Point)
    requires points != [] && InHull(points, p)
    ensures PointsBox(points).Some? && Inside(PointsBox(points).value, p)
  {
    PointsBoxIsLeast(points);
    var box := PointsBox(points).value;
    forall i | 0 <= i < |points|
      ensures Below(points[i], 1.0, 0.0, box.x2) && Below(points[i], -1.0, 0.0, -box.x1)
           && Below(points[i], 0.0, 1.0, box.y2) && Below(points[i], 0.0, -1.0, -box.y1)
    {
      assert Inside(box, points[i]);
    }
    assert Below(p, 1.0, 0.0, box.x2) && Below(p, -1.0, 0.0, -box.x1);
    assert Below(p, 0.0, 1.0, box.y2) && Below(p, 0.0, -1.0, -box.y1);
  }

  lemma ShapeIsInItsBox(shape: Shape, p: Point)
    requires Covers(shape, p)
    ensures ShapeBox(shape).Some? && Inside(ShapeBox(shape).value, p)
  {
    hide InHull;
    match shape
    case Ellipse(cx, cy, rx, ry) => EllipseIsBounded(p.x - cx, p.y - cy, rx, ry);
    case Polygon(points) => HullIsBounded(points, p);
    case _ =>
  }

  /** A shape has a box exactly when it covers anything. */
  lemma ShapeBoxExactly(shape: Shape)
    ensures ShapeBox(shape).Some? <==> exists p :: Covers(shape, p)
  {
    hide InHull, Times;
    if p :| Covers(shape, p) { ShapeIsInItsBox(shape, p); }
    if ShapeBox(shape).Some? {
      match shape
      case Rect(x, y, _, _) => assert Covers(shape, Point(x, y));
      case Ellipse(cx, cy, rx, ry) => AxisEnds(cx, cy, rx, ry);
      case Polygon(points) =>
        assert points != [] by { NoPointsNoBox(); }
        PointIsInHull(points, 0);
    }
  }

  lemma NoPointsNoBox()
    ensures PointsBox([]).None?
  {
  }

  /** The four ends of the axes are covered. */
  lemma AxisEnds(cx: real, cy: real, rx: real, ry: real)
    requires rx > 0.0 && ry > 0.0
    ensures var e := Ellipse(cx, cy, rx, ry);
            && Covers(e, Point(cx - rx, cy)) && Covers(e, Point(cx + rx, cy))
            && Covers(e, Point(cx, cy - ry)) && Covers(e, Point(cx, cy + ry))
  {
    assert Square(0.0) == 0.0 && Square(-rx) == Square(rx) && Square(-ry) == Square(ry);
    assert Times(0.0, Square(rx)) == 0.0 && Times(0.0, Square(ry)) == 0.0;
    assert Times(Square(ry), Square(rx)) == Times(Square(rx), Square(ry));
  }

  lemma PointIsInHull(points: seq<Point>, i: nat)
    requires i < |points|
    ensures Covers(Polygon(points), points[i])
  {
    hide Below;
  }

  /** The box is the least one around what the shape covers. */
  lemma ShapeBoxIsLeast(shape: Shape, other: Box)
    requires ShapeBox(shape).Some? && forall p :: Covers(shape, p) ==> Inside(other, p)
    ensures Within(ShapeBox(shape).value, other)
  {
    hide InHull, Times, Covers;
    match shape
    case Rect(x, y, width, height) =>
      assert Covers(shape, Point(x, y)) && Covers(shape, Point(x + width, y + height)) by { RectCorners(shape); }
    case Ellipse(cx, cy, rx, ry) => AxisEnds(cx, cy, rx, ry);
    case Polygon(points) =>
      assert points != [] by { NoPointsNoBox(); }
      PointsBoxIsLeast(points);
      forall i | 0 <= i < |points| ensures Inside(other, points[i]) { PointIsInHull(points, i); }
      assert HoldsAll(other, points);
  }

  lemma RectCorners(shape: Shape)
    requires shape.Rect? && shape.width > 0.0 && shape.height > 0.0
    ensures Covers(shape, Point(shape.x, shape.y)) && Covers(shape, Point(shape.x + shape.width, shape.y + shape.height))
  {
  }

  // Trees

  datatype Element = Element(hidden: bool, ops: seq<Operation>, shape: Shape, id: Text, children: seq<Element>)

  function MatrixOfElement(e: Element, inherited: Matrix): Matrix {
    Multiply(inherited, TransformMatrix(e.ops))
  }

  /** The transformed corners of every shape that the tree draws. */
  function DrawnCorners(e: Element, inherited: Matrix): seq<Point>
    decreases e, 1
  {
    if e.hidden then []
    else
      var m := MatrixOfElement(e, inherited);
      (if ShapeBox(e.shape).Some? then Corners(ShapeBox(e.shape).value, m) else []) + ChildCorners(e, |e.children|, m)
  }

  function ChildCorners(e: Element, n: nat, m: Matrix): seq<Point>
    requires n <= |e.children|
    decreases e, 0, n
  {
    if n == 0 then [] else ChildCorners(e, n - 1, m) + DrawnCorners(e.children[n - 1], m)
  }

  /** The boxes recorded under ids, in the order they are written: children before their parent. */
  function Writes(e: Element, inherited: Matrix): seq<(Text, Box)>
    decreases e, 1
  {
    if e.hidden then []
    else
      var box := PointsBox(DrawnCorners(e, inherited));
      ChildWrites(e, |e.children|, MatrixOfElement(e, inherited))
      + if box.Some? && e.id != [] then [(e.id, box.value)] else []
  }

  function ChildWrites(e: Element, n: nat, m: Matrix): seq<(Text, Box)>
    requires n <= |e.children|
    decreases e, 0, n
  {
    if n == 0 then [] else ChildWrites(e, n - 1, m) + Writes(e.children[n - 1], m)
  }

  function Written(ids: map<Text, Box>, writes: seq<(Text, Box)>): map<Text, Box> {
    if writes == [] then ids
    else
      var last := writes[|writes| - 1];
      Written(ids, writes[..|writes| - 1])[last.0 := last.1]
  }

  lemma {:induction false} WrittenJoins(ids: map<Text, Box>, a: seq<(Text, Box)>, b: seq<(Text, Box)>)
    ensures Written(ids, a + b) == Written(Written(ids, a), b)
  {
    if b == [] {
      assert a + b == a;
    } else {
      assert (a + b)[..|a + b| - 1] == a + b[..|b| - 1];
      WrittenJoins(ids, a, b[..|b| - 1]);
    }
  }

  /** `_svg_element_bbox`: the least box over the transformed corners of everything drawn, and the boxes
      of the elements with ids. */
  method ElementBox(e: Element, inherited: Matrix, ids: map<Text, Box>) returns (box: Option<Box>, ids': map<Text, Box>)
    ensures box == PointsBox(DrawnCorners(e, inherited))
    ensures ids' == Written(ids, Writes(e, inherited))
    decreases e
  {
    hide Corners, PointsBox, Written, TransformMatrix, Multiply, ShapeBox;
    ids' := ids;
    if e.hidden {
      NothingDrawn(ids);
      return None, ids;
    }
    var transform := ParseTransform(e.ops);
    var m := Multiply(inherited, transform);
    var own := ShapeBox(e.shape);
    box := None;
    ghost var drawn: seq<Point> := [];
    NothingDrawn(ids);
    if own.Some? {
      OwnBox(own.value, m);
      box := Some(TransformBox(own.value, m));
      drawn := Corners(own.value, m);
    }
    ghost var shape := drawn;
    for k := 0 to |e.children|
      invariant drawn == shape + ChildCorners(e, k, m) && box == PointsBox(drawn)
      invariant ids' == Written(ids, ChildWrites(e, k, m))
    {
      var childBox;
      ghost var before := ids';
      childBox, ids' := ElementBox(e.children[k], m, ids');
      WrittenJoins(ids, ChildWrites(e, k, m), Writes(e.children[k], m));
      PointsBoxJoins(drawn, DrawnCorners(e.children[k], m));
      assert drawn + DrawnCorners(e.children[k], m) == shape + ChildCorners(e, k + 1, m);
      drawn := drawn + DrawnCorners(e.children[k], m);
      box := JoinOptional(box, childBox);
    }
    assert drawn == DrawnCorners(e, inherited);
    if box.Some? && e.id != [] {
      WrittenJoins(ids, ChildWrites(e, |e.children|, m), [(e.id, box.value)]);
      WrittenOne(ids', e.id, box.value);
      ids' := ids'[e.id := box.value];
    } else {
      assert Writes(e, inherited) == ChildWrites(e, |e.children|, m);
    }
  }

  predicate HasId(e: Element, id: Text) {
    e.id == id || exists i :: 0 <= i < |e.children| && HasId(e.children[i], id)
  }

  /** An id that nothing in the tree carries keeps its box, and a drawn element with an id has its own box there,
      whatever its children wrote. */
  lemma IdsExactly(e: Element, inherited: Matrix, ids: map<Text, Box>, id: Text)
    ensures var after := Written(ids, Writes(e, inherited));
            && (!HasId(e, id) ==> (id in after <==> id in ids) && (id in ids ==> after[id] == ids[id]))
            && (!e.hidden && e.id != [] && PointsBox(DrawnCorners(e, inherited)).Some? ==>
                  e.id in after && after[e.id] == PointsBox(DrawnCorners(e, inherited)).value)
  {
    hide PointsBox, DrawnCorners, MatrixOfElement;
    var writes := Writes(e, inherited);
    if !HasId(e, id) {
      WritesCarryIds(e, inherited, id);
      WrittenKeeps(ids, writes, id);
    }
    if !e.hidden && e.id != [] && PointsBox(DrawnCorners(e, inherited)).Some? {
      assert writes[|writes| - 1] == (e.id, PointsBox(DrawnCorners(e, inherited)).value);
    }
  }

  lemma {:induction false} WrittenKeeps(ids: map<Text, Box>, writes: seq<(Text, Box)>, id: Text)
    requires forall i :: 0 <= i < |writes| ==> writes[i].0 != id
    ensures id in Written(ids, writes) <==> id in ids
    ensures id in ids ==> Written(ids, writes)[id] == ids[id]
  {
    if writes != [] { WrittenKeeps(ids, writes[..|writes| - 1], id); }
  }

  lemma {:induction false} WritesCarryIds(e: Element, inherited: Matrix, id: Text)
    requires !HasId(e, id)
    ensures forall i :: 0 <= i < |Writes(e, inherited)| ==> Writes(e, inherited)[i].0 != id
    decreases e, 1
  {
    hide PointsBox, DrawnCorners, MatrixOfElement;
    if !e.hidden { ChildrenCarryIds(e, |e.children|, MatrixOfElement(e, inherited), id); }
  }

  lemma {:induction false} ChildrenCarryIds(e: Element, n: nat, m: Matrix, id: Text)
    requires n <= |e.children| && !HasId(e, id)
    ensures forall i :: 0 <= i < |ChildWrites(e, n, m)| ==> ChildWrites(e, n, m)[i].0 != id
    decreases e, 0, n
  {
    if n > 0 {
      ChildrenCarryIds(e, n - 1, m, id);
      WritesCarryIds(e.children[n - 1], m, id);
    }
  }

  lemma NothingDrawn(ids: map<Text, Box>)
    ensures PointsBox([]) == None && Written(ids, []) == ids
  {
  }

  lemma WrittenOne(ids: map<Text, Box>, id: Text, box: Box)
    ensures Written(ids, [(id, box)]) == ids[id := box]
  {
    assert [(id, box)][..0] == [];
  }

  lemma OwnBox(box: Box, m: Matrix)
    ensures PointsBox(Corners(box, m)) == Some(TransformBox(box, m))
  {
    PointsBoxIsLeast(Corners(box, m));
  }

  /** The box of a tree that draws something is the least one over its transformed corners. */
  lemma TreeBoxIsLeast(e: Element, inherited: Matrix)
    ensures PointsBox(DrawnCorners(e, inherited)).None? <==> DrawnCorners(e, inherited) == []
    ensures DrawnCorners(e, inherited) != [] ==>
      IsLeastBox(DrawnCorners(e, inherited), PointsBox(DrawnCorners(e, inherited)).value)
  {
    hide DrawnCorners, IsLeastBox;
    if DrawnCorners(e, inherited) != [] { PointsBoxIsLeast(DrawnCorners(e, inherited)); }
  }

  // Enclosure

  /** A way down the tree: the child to take at each level. */
  type Path = seq<nat>

  /** The path leads through drawn elements to one whose shape covers p in its own coordinates. */
  ghost predicate Draws(e: Element, path: Path, p: Point)
    decreases |path|
  {
    && !e.hidden
    && if path == [] then Covers(e.shape, p)
       else path[0] < |e.children| && Draws(e.children[path[0]], path[1..], p)
  }

  /** Where the nested transforms put a point of the element at the end of the path. */
  function Placed(e: Element, path: Path, p: Point): Point
    decreases |path|
  {
    var inner := if path != [] && path[0] < |e.children| then Placed(e.children[path[0]], path[1..], p) else p;
    ApplyInOrder(e.ops, inner)
  }

  lemma {:induction false} ChildCornersHold(e: Element, n: nat, m: Matrix, k: nat, c: Point)
    requires k < n <= |e.children| && c in DrawnCorners(e.children[k], m)
    ensures c in ChildCorners(e, n, m)
  {
    if k < n - 1 { ChildCornersHold(e, n - 1, m, k, c); }
  }

  lemma {:induction false} TransformAgrees(ops: seq<Operation>, p: Point)
    ensures Apply(TransformMatrix(ops), p) == ApplyInOrder(ops, p)
  {
    hide Apply, Multiply, OperationMatrix;
    if ops == [] {
      IdentityAgrees();
    } else {
      var (n, op) := (|ops| - 1, ops[|ops| - 1]);
      assert ops == ops[..n] + [op];
      ApplyInOrderLast(ops[..n], op, p);
      TransformStep(ops, n);
      assert ops[..n + 1] == ops;
      if OperationMatrix(op).Some? {
        ProductComposes(TransformMatrix(ops[..n]), OperationMatrix(op).value, p);
        TransformAgrees(ops[..n], Apply(OperationMatrix(op).value, p));
      } else {
        TransformAgrees(ops[..n], p);
      }
    }
  }

  /** A box that holds a subtree's corners holds the place of every point the subtree draws. */
  lemma {:induction false} BoxHoldsDrawnPoint(e: Element, inherited: Matrix, path: Path, p: Point, box: Box)
    requires Draws(e, path, p)
    requires forall c :: c in DrawnCorners(e, inherited) ==> Inside(box, c)
    ensures Inside(box, Apply(inherited, Placed(e, path, p)))
    decreases |path|
  {
    hide Apply, Multiply, Inside, TransformMatrix, Corners, ShapeBox, Covers, ApplyInOrder;
    var m := MatrixOfElement(e, inherited);
    if path == [] {
      ShapeIsInItsBox(e.shape, p);
      var own := ShapeBox(e.shape).value;
      assert forall c :: c in Corners(own, m) ==> c in DrawnCorners(e, inherited);
      CornerBoxHolds(own, m, p, box);
      PlacedByElement(e, inherited, p);
    } else {
      var child := e.children[path[0]];
      forall c | c in DrawnCorners(child, m) ensures Inside(box, c) {
        ChildCornersHold(e, |e.children|, m, path[0], c);
      }
      BoxHoldsDrawnPoint(child, m, path[1..], p, box);
      PlacedByElement(e, inherited, Placed(child, path[1..], p));
    }
  }

  lemma PlacedByElement(e: Element, inherited: Matrix, p: Point)
    ensures Apply(MatrixOfElement(e, inherited), p) == Apply(inherited, ApplyInOrder(e.ops, p))
  {
    ProductComposes(inherited, TransformMatrix(e.ops), p);
    TransformAgrees(e.ops, p);
  }

  lemma CornerBoxHolds(own: Box, m: Matrix, p: Point, box: Box)
    requires Inside(own, p) && forall c :: c in Corners(own, m) ==> Inside(box, c)
    ensures Inside(box, Apply(m, p))
  {
    hide Apply;
    var corners := Corners(own, m);
    PointsBoxIsLeast(corners);
    TransformedBoxEncloses(own, m, p);
    assert forall i :: 0 <= i < |corners| ==> corners[i] in corners;
    assert Within(TransformBox(own, m), box);
  }

  /** The computed box of a tree encloses the image, under all the nested transforms, of every point of
      every rectangle, circle, ellipse, line and polygon that the tree draws. */
  lemma TreeBoxEncloses(root: Element, path: Path, p: Point)
    requires Draws(root, path, p)
    ensures PointsBox(DrawnCorners(root, IDENTITY)).Some?
    ensures Inside(PointsBox(DrawnCorners(root, IDENTITY)).value, Placed(root, path, p))
  {
    hide DrawnCorners, Placed, Draws, Inside;
    var corners := DrawnCorners(root, IDENTITY);
    SomethingIsDrawn(root, IDENTITY, path, p);
    PointsBoxIsLeast(corners);
    var box := PointsBox(corners).value;
    forall c | c in corners ensures Inside(box, c) {
      var i :| 0 <= i < |corners| && corners[i] == c;
    }
    BoxHoldsDrawnPoint(root, IDENTITY, path, p, box);
    var placed := Placed(root, path, p);
    assert Apply(IDENTITY, placed) == placed;
  }

  lemma {:induction false} SomethingIsDrawn(e: Element, inherited: Matrix, path: Path, p: Point)
    requires Draws(e, path, p)
    ensures DrawnCorners(e, inherited) != []
    decreases |path|
  {
    hide Covers, Corners, ShapeBox, Multiply;
    var m := MatrixOfElement(e, inherited);
    if path == [] {
      ShapeIsInItsBox(e.shape, p);
    } else {
      var child := e.children[path[0]];
      SomethingIsDrawn(child, m, path[1..], p);
      ChildCornersHold(e, |e.children|, m, path[0], DrawnCorners(child, m)[0]);
    }
  }
}
