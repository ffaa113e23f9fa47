/** math.go over the reals: products of matrices, points and boxes. */
module Transforms {
  import opened Graph

  function Dot(x: Row, v: Row): real {
    x.a * v.a + x.b * v.b + x.c * v.c + x.d * v.d
  }

  /** What a matrix takes from a vector for each of its coordinates. */
  function Columns(t: Matrix): Matrix {
    Matrix(Row(t.r0.a, t.r1.a, t.r2.a, t.r3.a), Row(t.r0.b, t.r1.b, t.r2.b, t.r3.b),
           Row(t.r0.c, t.r1.c, t.r2.c, t.r3.c), Row(t.r0.d, t.r1.d, t.r2.d, t.r3.d))
  }

  /** t applied to a vector. */
  function Combine(t: Matrix, v: Row): Row {
    var c := Columns(t);
    Row(Dot(c.r0, v), Dot(c.r1, v), Dot(c.r2, v), Dot(c.r3, v))
  }

  function Mul(t: Matrix, u: Matrix): Matrix {
    Matrix(Combine(t, u.r0), Combine(t, u.r1), Combine(t, u.r2), Combine(t, u.r3))
  }

  function Mul3D(t: Matrix, p: Point): Point {
    Point(t.r0.a * p.x + t.r1.a * p.y + t.r2.a * p.z + t.r3.a,
          t.r0.b * p.x + t.r1.b * p.y + t.r2.b * p.z + t.r3.b,
          t.r0.c * p.x + t.r1.c * p.y + t.r2.c * p.z + t.r3.c)
  }

  /** The last column is that of a transform of points. */
  predicate Affine(t: Matrix) {
    t.r0.d == 0.0 && t.r1.d == 0.0 && t.r2.d == 0.0 && t.r3.d == 1.0
  }

  /** The weights of u followed by the weights x. */
  function Through(x: Row, u: Matrix): Row {
    Row(Dot(x, u.r0), Dot(x, u.r1), Dot(x, u.r2), Dot(x, u.r3))
  }

  /** Both ways of applying x, u and v add up the same products. */
  function Products(x: Row, u: Matrix, v: Row): real {
    (x.a * u.r0.a * v.a + x.b * u.r0.b * v.a + x.c * u.r0.c * v.a + x.d * u.r0.d * v.a)
    + (x.a * u.r1.a * v.b + x.b * u.r1.b * v.b + x.c * u.r1.c * v.b + x.d * u.r1.d * v.b)
    + (x.a * u.r2.a * v.c + x.b * u.r2.b * v.c + x.c * u.r2.c * v.c + x.d * u.r2.d * v.c)
    + (x.a * u.r3.a * v.d + x.b * u.r3.b * v.d + x.c * u.r3.c * v.d + x.d * u.r3.d * v.d)
  }

  lemma LastFirst(x: Row, u: Matrix, v: Row)
    ensures Dot(x, Combine(u, v)) == Products(x, u, v)
  {
  }

  lemma FirstFirst(x: Row, u: Matrix, v: Row)
    ensures Dot(Through(x, u), v) == Products(x, u, v)
  {
  }

  lemma DotDot(x: Row, u: Matrix, v: Row)
    ensures Dot(x, Combine(u, v)) == Dot(Through(x, u), v)
  {
    LastFirst(x, u, v);
    FirstFirst(x, u, v);
  }

  /** A product of matrices is the composition of what they do. */
  lemma CombineMul(t: Matrix, u: Matrix, v: Row)
    ensures Combine(Mul(t, u), v) == Combine(t, Combine(u, v))
  {
    var c := Columns(t);
    DotDot(c.r0, u, v);
    DotDot(c.r1, u, v);
    DotDot(c.r2, u, v);
    DotDot(c.r3, u, v);
    assert Columns(Mul(t, u)) == Matrix(Through(c.r0, u), Through(c.r1, u), Through(c.r2, u), Through(c.r3, u));
  }

  /** For transforms of points, the product does first what u does, then what t does. */
  lemma Mul3DMul(t: Matrix, u: Matrix, p: Point)
    requires Affine(u)
    ensures Mul3D(Mul(t, u), p) == Mul3D(t, Mul3D(u, p))
    ensures Affine(t) ==> Affine(Mul(t, u))
  {
    var v := Row(p.x, p.y, p.z, 1.0);
    CombineMul(t, u, v);
    CombinePoint(t, Mul3D(u, p));
    CombinePoint(u, p);
    CombinePoint(Mul(t, u), p);
    var c := Columns(t).r3;
    if Affine(t) {
      assert c == Row(0.0, 0.0, 0.0, 1.0);
      LastOnly(u.r0);
      LastOnly(u.r1);
      LastOnly(u.r2);
      LastOnly(u.r3);
    }
  }

  lemma LastOnly(v: Row)
    ensures Dot(Row(0.0, 0.0, 0.0, 1.0), v) == v.d
  {
  }

  lemma CombinePoint(t: Matrix, p: Point)
    ensures var w := Combine(t, Row(p.x, p.y, p.z, 1.0));
            Mul3D(t, p) == Point(w.a, w.b, w.c) && (Affine(t) ==> w.d == 1.0)
  {
  }

  // ---- Boxes ----

  datatype Box = Box(min: Point, max: Point)

  /** math.MaxFloat32 */
  const MAX := 340282346638528859811704183484516925440.0

  /** The largest float32: 24 bits, all ones, and 104 zeros. */
  lemma LargestFloat()
    ensures MAX == 16777215.0 * 4503599627370496.0 * 4503599627370496.0 && 4503599627370496 == 0x10_0000_0000_0000
  {
  }

  const EMPTY := Box(Point(0.0, 0.0, 0.0), Point(0.0, 0.0, 0.0))

  /** newLimitBox: inside out, so that the first thing it is extended by replaces it. */
  const LIMIT := Box(Point(MAX, MAX, MAX), Point(-MAX, -MAX, -MAX))

  function Min(x: real, y: real): real {
    if x < y then x else y
  }

  function Max(x: real, y: real): real {
    if x > y then x else y
  }

  function Extend(b: Box, v: Box): Box {
    Box(Point(Min(b.min.x, v.min.x), Min(b.min.y, v.min.y), Min(b.min.z, v.min.z)),
        Point(Max(b.max.x, v.max.x), Max(b.max.y, v.max.y), Max(b.max.z, v.max.z)))
  }

  function ExtendPoint(b: Box, v: Point): Box {
    Box(Point(Min(b.min.x, v.x), Min(b.min.y, v.y), Min(b.min.z, v.z)),
        Point(Max(b.max.x, v.x), Max(b.max.y, v.y), Max(b.max.z, v.z)))
  }

  /** Only two corners are transformed; coordinates that come out in the wrong order are swapped. */
  function MulBox(t: Matrix, b: Box): Box {
    if t.r3.d == 0.0 then b
    else
      var p, q := Mul3D(t, b.min), Mul3D(t, b.max);
      var (x0, x1) := if p.x > q.x then (q.x, p.x) else (p.x, q.x);
      var (y0, y1) := if p.y > q.y then (q.y, p.y) else (p.y, q.y);
      var (z0, z1) := if p.z > q.z then (q.z, p.z) else (p.z, q.z);
      Box(Point(x0, y0, z0), Point(x1, y1, z1))
  }

  type Axis = i: int | 0 <= i < 3

  function At(p: Point, i: Axis): real {
    if i == 0 then p.x else if i == 1 then p.y else p.z
  }

  /** On one axis, the box reaches exactly from the lowest point to the highest. */
  ghost predicate TightOn(b: Box, ps: seq<Point>, i: Axis) {
    && (forall p <- ps :: At(b.min, i) <= At(p, i) <= At(b.max, i))
    && (exists p <- ps :: At(p, i) == At(b.min, i))
    && exists p <- ps :: At(p, i) == At(b.max, i)
  }

  /** The smallest box around at least one point. */
  ghost predicate Tight(b: Box, ps: seq<Point>) {
    TightOn(b, ps, 0) && TightOn(b, ps, 1) && TightOn(b, ps, 2)
  }

  function Place(t: Matrix, ps: seq<Point>): (r: seq<Point>)
    ensures |r| == |ps| && forall k :: 0 <= k < |ps| ==> r[k] == Mul3D(t, ps[k])
  {
    seq(|ps|, k requires 0 <= k < |ps| => Mul3D(t, ps[k]))
  }

  /** The weights that make up coordinate i, and the shift. */
  function Weights(t: Matrix, i: Axis): Row {
    if i == 0 then Columns(t).r0 else if i == 1 then Columns(t).r1 else Columns(t).r2
  }

  function Weight(x: Row, j: Axis): real {
    if j == 0 then x.a else if j == 1 then x.b else x.c
  }

  /** No other axis than j matters. */
  predicate Only(x: Row, j: Axis) {
    (j == 0 || x.a == 0.0) && (j == 1 || x.b == 0.0) && (j == 2 || x.c == 0.0)
  }

  predicate OneInput(x: Row) {
    Only(x, 0) || Only(x, 1) || Only(x, 2)
  }

  /** Each coordinate comes from one axis: scaling, mirroring, swapping of axes, and shifting. */
  predicate Monomial(t: Matrix) {
    OneInput(Weights(t, 0)) && OneInput(Weights(t, 1)) && OneInput(Weights(t, 2))
  }

  lemma OneAxis(t: Matrix, p: Point, i: Axis, j: Axis, w: real, x: real)
    requires Only(Weights(t, i), j) && w == Weight(Weights(t, i), j) && x == At(p, j)
    ensures At(Mul3D(t, p), i) == w * x + Weights(t, i).d
  {
  }

  lemma Between(w: real, d: real, lo: real, x: real, hi: real, a: real, y: real, b: real)
    requires lo <= x <= hi && a == w * lo + d && y == w * x + d && b == w * hi + d
    ensures Min(a, b) <= y <= Max(a, b)
  {
    Monotone(w, lo, x);
    Monotone(w, x, hi);
    InOrder(w * lo, w * x, w * hi, d, a, y, b);
  }

  lemma InOrder(p: real, q: real, r: real, d: real, a: real, y: real, b: real)
    requires (p <= q <= r || r <= q <= p) && a == p + d && y == q + d && b == r + d
    ensures Min(a, b) <= y <= Max(a, b)
  {
  }

  lemma Monotone(k: real, a: real, b: real)
    requires a <= b
    ensures 0.0 <= k ==> k * a <= k * b
    ensures k <= 0.0 ==> k * b <= k * a
  {
    var d := b - a;
    assert k * b == k * a + k * d;
    if 0.0 <= k {
      assert 0.0 <= k * d;
    } else {
      assert 0.0 <= (-k) * d;
      assert (-k) * d == -(k * d);
    }
  }

  lemma MulBoxAt(t: Matrix, b: Box, i: Axis)
    requires t.r3.d != 0.0
    ensures At(MulBox(t, b).min, i) == Min(At(Mul3D(t, b.min), i), At(Mul3D(t, b.max), i))
    ensures At(MulBox(t, b).max, i) == Max(At(Mul3D(t, b.min), i), At(Mul3D(t, b.max), i))
  {
  }

  lemma MulBoxAround(t: Matrix, b: Box, p: Point, i: Axis, j: Axis)
    requires t.r3.d != 0.0 && Only(Weights(t, i), j) && At(b.min, j) <= At(p, j) <= At(b.max, j)
    ensures At(MulBox(t, b).min, i) <= At(Mul3D(t, p), i) <= At(MulBox(t, b).max, i)
  {
    MulBoxAt(t, b, i);
    var w, d, lo, x, hi := Weight(Weights(t, i), j), Weights(t, i).d, At(b.min, j), At(p, j), At(b.max, j);
    var a, y, c := At(Mul3D(t, b.min), i), At(Mul3D(t, p), i), At(Mul3D(t, b.max), i);
    OneAxis(t, b.min, i, j, w, lo);
    OneAxis(t, p, i, j, w, x);
    OneAxis(t, b.max, i, j, w, hi);
    Between(w, d, lo, x, hi, a, y, c);
  }

  lemma SameImage(t: Matrix, p: Point, q: Point, i: Axis, j: Axis)
    requires Only(Weights(t, i), j) && At(p, j) == At(q, j)
    ensures At(Mul3D(t, p), i) == At(Mul3D(t, q), i)
  {
    OneAxis(t, p, i, j, Weight(Weights(t, i), j), At(p, j));
    OneAxis(t, q, i, j, Weight(Weights(t, i), j), At(p, j));
  }

  /** Axis j of points becomes axis i of other points, its ends u and v in either order. */
  lemma TightImage(b: Box, ps: seq<Point>, j: Axis, c: Box, qs: seq<Point>, i: Axis, u: real, v: real)
    requires TightOn(b, ps, j) && |qs| == |ps| && At(c.min, i) == Min(u, v) && At(c.max, i) == Max(u, v)
    requires forall k :: 0 <= k < |ps| ==> At(c.min, i) <= At(qs[k], i) <= At(c.max, i)
    requires forall k :: 0 <= k < |ps| && At(ps[k], j) == At(b.min, j) ==> At(qs[k], i) == u
    requires forall k :: 0 <= k < |ps| && At(ps[k], j) == At(b.max, j) ==> At(qs[k], i) == v
    ensures TightOn(c, qs, i)
  {
    var lo :| lo in ps && At(lo, j) == At(b.min, j);
    var hi :| hi in ps && At(hi, j) == At(b.max, j);
    var k :| 0 <= k < |ps| && ps[k] == lo;
    var l :| 0 <= l < |ps| && ps[l] == hi;
    assert qs[k] in qs && qs[l] in qs;
  }

  lemma MulBoxTightOn(t: Matrix, b: Box, ps: seq<Point>, i: Axis, j: Axis)
    requires t.r3.d != 0.0 && Only(Weights(t, i), j) && TightOn(b, ps, j)
    ensures TightOn(MulBox(t, b), Place(t, ps), i)
  {
    var c, qs := MulBox(t, b), Place(t, ps);
    var u, v := At(Mul3D(t, b.min), i), At(Mul3D(t, b.max), i);
    forall k | 0 <= k < |ps|
      ensures At(c.min, i) <= At(qs[k], i) <= At(c.max, i)
      ensures At(ps[k], j) == At(b.min, j) ==> At(qs[k], i) == u
      ensures At(ps[k], j) == At(b.max, j) ==> At(qs[k], i) == v
    {
      MulBoxAround(t, b, ps[k], i, j);
      if At(ps[k], j) == At(b.min, j) {
        SameImage(t, ps[k], b.min, i, j);
      }
      if At(ps[k], j) == At(b.max, j) {
        SameImage(t, ps[k], b.max, i, j);
      }
    }
    MulBoxAt(t, b, i);
    TightImage(b, ps, j, c, qs, i, u, v);
  }

  /** With one input axis per coordinate, the transformed box is the tight box of the transformed points. */
  lemma MulBoxTight(t: Matrix, b: Box, ps: seq<Point>)
    requires t.r3.d != 0.0 && Monomial(t) && Tight(b, ps)
    ensures Tight(MulBox(t, b), Place(t, ps))
  {
    forall i: Axis ensures TightOn(MulBox(t, b), Place(t, ps), i) {
      var x := Weights(t, i);
      var j: Axis := if Only(x, 0) then 0 else if Only(x, 1) then 1 else 2;
      MulBoxTightOn(t, b, ps, i, j);
    }
  }

  // ---- Only such transforms are exact ----

  function Unit(j: Axis): Point {
    Point(if j == 0 then 1.0 else 0.0, if j == 1 then 1.0 else 0.0, if j == 2 then 1.0 else 0.0)
  }

  ghost predicate Exact(t: Matrix, b: Box, ps: seq<Point>) {
    Tight(b, ps) ==> Tight(MulBox(t, b), Place(t, ps))
  }

  /** Two axes weigh in on a coordinate: their unit points have a box that comes out too wide or too narrow. */
  lemma TwoAxesAreInexact(t: Matrix, i: Axis, j: Axis, k: Axis)
    requires t.r3.d != 0.0 && j != k && Weight(Weights(t, i), j) != 0.0 && Weight(Weights(t, i), k) != 0.0
    ensures var p, q := Unit(j), Unit(k); !Exact(t, Extend(Box(p, p), Box(q, q)), [p, q])
  {
    var p, q := Unit(j), Unit(k);
    var b := Extend(Box(p, p), Box(q, q));
    var x := Weights(t, i);
    assert p in [p, q] && q in [p, q];
    MulBoxAt(t, b, i);
    UnitsAt(t, i, j, k);
    PairIsInexact(MulBox(t, b), Mul3D(t, p), Mul3D(t, q), i, Weight(x, j), Weight(x, k), x.d);
    assert Place(t, [p, q]) == [Mul3D(t, p), Mul3D(t, q)];
  }

  lemma PairIsInexact(c: Box, p: Point, q: Point, i: Axis, u: real, v: real, d: real)
    requires u != 0.0 && v != 0.0 && At(p, i) == u + d && At(q, i) == v + d
    requires At(c.min, i) == Min(d, u + v + d) && At(c.max, i) == Max(d, u + v + d)
    ensures !TightOn(c, [p, q], i)
  {
    assert p in [p, q] && q in [p, q];
  }

  lemma UnitsAt(t: Matrix, i: Axis, j: Axis, k: Axis)
    requires j != k
    ensures var p, q, x := Unit(j), Unit(k), Weights(t, i); var b := Extend(Box(p, p), Box(q, q));
            && At(Mul3D(t, p), i) == Weight(x, j) + x.d && At(Mul3D(t, q), i) == Weight(x, k) + x.d
            && At(Mul3D(t, b.min), i) == x.d && At(Mul3D(t, b.max), i) == Weight(x, j) + Weight(x, k) + x.d
  {
    UnitAt(t, i, j);
    UnitAt(t, i, k);
    var b := Extend(Box(Unit(j), Unit(j)), Box(Unit(k), Unit(k)));
    assert b.min == Point(0.0, 0.0, 0.0);
    DiagonalAt(t, i, j, k, b.max);
  }

  lemma UnitAt(t: Matrix, i: Axis, j: Axis)
    ensures At(Mul3D(t, Unit(j)), i) == Weight(Weights(t, i), j) + Weights(t, i).d
  {
  }

  lemma DiagonalAt(t: Matrix, i: Axis, j: Axis, k: Axis, p: Point)
    requires j != k && forall l: Axis :: At(p, l) == if l == j || l == k then 1.0 else 0.0
    ensures At(Mul3D(t, p), i) == Weight(Weights(t, i), j) + Weight(Weights(t, i), k) + Weights(t, i).d
  {
    assert At(p, 0) == p.x && At(p, 1) == p.y && At(p, 2) == p.z;
  }

  /** A transform is exact for all points exactly if each coordinate comes from one axis. */
  lemma ExactIffMonomial(t: Matrix)
    requires t.r3.d != 0.0
    ensures Monomial(t) <==> forall b, ps :: Exact(t, b, ps)
  {
    if Monomial(t) {
      forall b, ps | Tight(b, ps) ensures Tight(MulBox(t, b), Place(t, ps)) {
        MulBoxTight(t, b, ps);
      }
    } else {
      var i: Axis := if !OneInput(Weights(t, 0)) then 0 else if !OneInput(Weights(t, 1)) then 1 else 2;
      var x := Weights(t, i);
      if x.a == 0.0 {
        TwoAxesAreInexact(t, i, 1, 2);
      } else if x.b == 0.0 {
        TwoAxesAreInexact(t, i, 0, 2);
      } else {
        TwoAxesAreInexact(t, i, 0, 1);
      }
    }
  }

  // ---- Extending ----

  predicate InRange(p: Point) {
    -MAX <= p.x <= MAX && -MAX <= p.y <= MAX && -MAX <= p.z <= MAX
  }

  predicate AllInRange(ps: seq<Point>) {
    forall p <- ps :: InRange(p)
  }

  /** The limit box while there are no points, then their tight box. */
  ghost predicate Covers(b: Box, ps: seq<Point>) {
    if ps == [] then b == LIMIT else Tight(b, ps)
  }

  lemma TightAppend(b: Box, ps: seq<Point>, c: Box, qs: seq<Point>, i: Axis)
    requires TightOn(b, ps, i) && TightOn(c, qs, i)
    ensures TightOn(Extend(b, c), ps + qs, i)
  {
    var p0 :| p0 in ps && At(p0, i) == At(b.min, i);
    var p1 :| p1 in ps && At(p1, i) == At(b.max, i);
    var q0 :| q0 in qs && At(q0, i) == At(c.min, i);
    var q1 :| q1 in qs && At(q1, i) == At(c.max, i);
    assert p0 in ps + qs && p1 in ps + qs && q0 in ps + qs && q1 in ps + qs;
  }

  lemma ExtendCovers(b: Box, ps: seq<Point>, c: Box, qs: seq<Point>)
    requires Covers(b, ps) && Tight(c, qs) && AllInRange(qs)
    ensures Tight(Extend(b, c), ps + qs)
  {
    if ps == [] {
      assert ps + qs == qs;
      assert Extend(b, c) == c;
    } else {
      TightAppend(b, ps, c, qs, 0);
      TightAppend(b, ps, c, qs, 1);
      TightAppend(b, ps, c, qs, 2);
    }
  }

  lemma ExtendPointCovers(b: Box, ps: seq<Point>, p: Point)
    requires Covers(b, ps) && InRange(p)
    ensures Tight(ExtendPoint(b, p), ps + [p])
  {
    assert p in [p];
    ExtendCovers(b, ps, Box(p, p), [p]);
  }

  function Grow(b: Box, boxes: seq<Box>): Box {
    if boxes == [] then b else Extend(Grow(b, boxes[..|boxes| - 1]), boxes[|boxes| - 1])
  }

  lemma ExtendSwap(b: Box, c: Box, d: Box)
    ensures Extend(Extend(b, c), d) == Extend(Extend(b, d), c)
  {
  }
}
