/** The STL importers and the mesh builder they share, which merges vertices that fall into the same cell. */
module Stl {
  import opened Wrappers
  import opened Bytes
  import opened Coherency
  import opened Graph

  datatype Cell = Cell(x: int, y: int, z: int)

  /** newvec3IFromVec3: the cubic micron a point lies in. */
  function CellOf(p: Point): Cell {
    Cell((p.x / 0.000001).Floor, (p.y / 0.000001).Floor, (p.z / 0.000001).Floor)
  }

  /** In millionths, on each axis, the cell holds the points from its number on, up to the next number. */
  lemma CellExactly(p: Point, c: Cell)
    ensures CellOf(p) == c <==>
              && c.x as real <= 1000000.0 * p.x < (c.x + 1) as real
              && c.y as real <= 1000000.0 * p.y < (c.y + 1) as real
              && c.z as real <= 1000000.0 * p.z < (c.z + 1) as real
  {
    FloorExactly(p.x, c.x);
    FloorExactly(p.y, c.y);
    FloorExactly(p.z, c.z);
  }

  lemma FloorExactly(x: real, n: int)
    ensures (x / 0.000001).Floor == n <==> n as real <= 1000000.0 * x < (n + 1) as real
  {
    assert x / 0.000001 == 1000000.0 * x;
  }

  predicate Near(a: real, b: real) {
    -0.000001 < a - b < 0.000001
  }

  lemma SameFloorIsNear(a: real, b: real)
    requires (a / 0.000001).Floor == (b / 0.000001).Floor
    ensures Near(a, b)
  {
    assert -1.0 < a / 0.000001 - b / 0.000001 < 1.0;
  }

  lemma SameCellIsNear(p: Point, q: Point)
    requires CellOf(p) == CellOf(q)
    ensures Near(p.x, q.x) && Near(p.y, q.y) && Near(p.z, q.z)
  {
    SameFloorIsNear(p.x, q.x);
    SameFloorIsNear(p.y, q.y);
    SameFloorIsNear(p.z, q.z);
  }

  // ---- Linear search ----

  /** The least index, from i on, of a vertex in the cell, or the number of vertices. */
  function Search(vs: seq<Point>, c: Cell, i: nat): (r: nat)
    requires i <= |vs|
    ensures i <= r <= |vs|
    ensures forall k :: i <= k < r ==> CellOf(vs[k]) != c
    ensures r < |vs| ==> CellOf(vs[r]) == c
    decreases |vs| - i
  {
    if i == |vs| || CellOf(vs[i]) == c then i else Search(vs, c, i + 1)
  }

  /** The vertices of a mesh that had the vertices vs, after points were added to it. */
  function Merged(vs: seq<Point>, ps: seq<Point>): (r: seq<Point>)
    ensures vs <= r
  {
    if ps == [] then vs
    else
      var n := |ps| - 1;
      var w := Merged(vs, ps[..n]);
      if Search(w, CellOf(ps[n]), |vs|) < |w| then w else w + [ps[n]]
  }

  /** The indices that the points got, in order. */
  function Indices(vs: seq<Point>, ps: seq<Point>): (r: seq<int>)
    ensures |r| == |ps|
  {
    if ps == [] then []
    else
      var n := |ps| - 1;
      Indices(vs, ps[..n]) + [Search(Merged(vs, ps[..n]), CellOf(ps[n]), |vs|)]
  }

  /** No two of the vertices from i on share a cell. */
  predicate CellsDiffer(vs: seq<Point>, i: nat) {
    forall j, k :: i <= j < k < |vs| ==> CellOf(vs[j]) != CellOf(vs[k])
  }

  lemma OneMoreDiffers(w: seq<Point>, p: Point, i: nat)
    requires i <= |w| && CellsDiffer(w, i) && Search(w, CellOf(p), i) == |w|
    ensures CellsDiffer(w + [p], i)
  {
    forall j, k | i <= j < k < |w| + 1 ensures CellOf((w + [p])[j]) != CellOf((w + [p])[k]) {
      assert (w + [p])[j] == w[j];
    }
  }

  lemma AddedDiffers(w: seq<Point>, p: Point, i: nat, r: seq<Point>)
    requires i <= |w| && CellsDiffer(w, i) && r == if Search(w, CellOf(p), i) < |w| then w else w + [p]
    ensures w <= r && CellsDiffer(r, i)
  {
    if Search(w, CellOf(p), i) == |w| {
      OneMoreDiffers(w, p, i);
    }
  }

  /** Earlier vertices never change, and no cell is stored twice. */
  lemma {:induction false} MergedKeeps(vs: seq<Point>, ps: seq<Point>, k: nat)
    requires k <= |ps|
    ensures Merged(vs, ps[..k]) <= Merged(vs, ps) && CellsDiffer(Merged(vs, ps), |vs|)
    decreases |ps|
  {
    if ps != [] {
      var n := |ps| - 1;
      MergedKeeps(vs, ps[..n], if k <= n then k else n);
      AddedDiffers(Merged(vs, ps[..n]), ps[n], |vs|, Merged(vs, ps));
      assert ps[..if k <= n then k else n] == ps[..n][..if k <= n then k else n];
    }
    assert k == |ps| ==> ps[..k] == ps;
  }

  /** The index a point gets is and stays the least index of a vertex in its cell. */
  lemma {:induction false} IndexIsLeast(vs: seq<Point>, ps: seq<Point>, k: nat)
    requires k < |ps|
    ensures Indices(vs, ps)[k] == Search(Merged(vs, ps), CellOf(ps[k]), |vs|) < |Merged(vs, ps)|
    decreases |ps|
  {
    var n := |ps| - 1;
    var w, all, c := Merged(vs, ps[..n]), Merged(vs, ps), CellOf(ps[k]);
    if k < n {
      IndexIsLeast(vs, ps[..n], k);
    }
    MergedKeeps(vs, ps, n);
    SearchStays(w, all, c, |vs|);
    if k == n && Search(w, c, |vs|) == |w| {
      assert CellOf(all[|w|]) == c;
    }
  }

  lemma {:induction false} MergedSize(vs: seq<Point>, ps: seq<Point>)
    ensures |Merged(vs, ps)| <= |vs| + |ps|
  {
    if ps != [] {
      MergedSize(vs, ps[..|ps| - 1]);
    }
  }

  lemma SearchStays(w: seq<Point>, all: seq<Point>, c: Cell, i: nat)
    requires w <= all && i <= |w|
    ensures Search(w, c, i) < |w| ==> Search(all, c, i) == Search(w, c, i)
    ensures Search(w, c, i) == |w| ==> Search(all, c, i) >= |w|
  {
    forall k | i <= k < Search(w, c, i) ensures CellOf(all[k]) != c {
      assert all[k] == w[k];
    }
  }

  /** Points get the same vertex exactly if they share a cell, and that vertex is near. */
  lemma MergesExactly(vs: seq<Point>, ps: seq<Point>, j: nat, k: nat)
    requires j < |ps| && k < |ps|
    ensures Indices(vs, ps)[j] == Indices(vs, ps)[k] <==> CellOf(ps[j]) == CellOf(ps[k])
    ensures |vs| <= Indices(vs, ps)[k] < |Merged(vs, ps)|
    ensures var v := Merged(vs, ps)[Indices(vs, ps)[k]];
            CellOf(v) == CellOf(ps[k]) && Near(v.x, ps[k].x) && Near(v.y, ps[k].y) && Near(v.z, ps[k].z)
  {
    IndexIsLeast(vs, ps, j);
    IndexIsLeast(vs, ps, k);
    SameCellIsNear(Merged(vs, ps)[Indices(vs, ps)[k]], ps[k]);
  }

  // ---- The builder ----

  class Mesh {
    var vertices: seq<Point>
    var triangles: seq<Triangle>

    constructor ()
      ensures vertices == [] && triangles == []
    {
      vertices, triangles := [], [];
    }
  }

  class MeshBuilder {
    var calculateConnectivity: bool
    const mesh: Mesh
    var vectorTree: map<Cell, U32>
    /** How many vertices the mesh had before; those are not merged with. */
    ghost const base: nat

    /** The tree holds the cell of every vertex that was added, with its index. */
    ghost predicate Valid()
      reads this, mesh
    {
      && base <= |mesh.vertices| && calculateConnectivity
      && (forall c <- vectorTree ::
            base <= vectorTree[c] < |mesh.vertices| && CellOf(mesh.vertices[vectorTree[c]]) == c)
      && forall i :: base <= i < |mesh.vertices| ==>
           CellOf(mesh.vertices[i]) in vectorTree && vectorTree[CellOf(mesh.vertices[i])] == i
    }

    constructor (m: Mesh)
      ensures Valid() && mesh == m && base == |m.vertices|
    {
      mesh := m;
      base := |m.vertices|;
      calculateConnectivity := true;
      vectorTree := map[];
    }

    /** Agrees with a linear search; the index has to fit. */
    method AddVertex(node: Point) returns (index: U32)
      requires calculateConnectivity ==> Valid()
      requires |mesh.vertices| < 0xFFFF_FFFF
      modifies this`vectorTree, mesh`vertices
      ensures calculateConnectivity ==> Valid()
      ensures index == if calculateConnectivity then Search(old(mesh.vertices), CellOf(node), base)
          else |old(mesh.vertices)|
      ensures mesh.vertices == if index < |old(mesh.vertices)| then old(mesh.vertices) else old(mesh.vertices) + [node]
    {
      if calculateConnectivity {
        if CellOf(node) in vectorTree {
          index := vectorTree[CellOf(node)];
          assert CellOf(mesh.vertices[Search(mesh.vertices, CellOf(node), base)]) == CellOf(node);
          return;
        }
      }
      mesh.vertices := mesh.vertices + [node];
      index := |mesh.vertices| - 1;
      if calculateConnectivity {
        vectorTree := vectorTree[CellOf(node) := index];
      }
    }
  }

  // ---- Importing ----

  /** Adding a point takes one step of Merged and of Indices. */
  lemma Added(vs: seq<Point>, ps: seq<Point>, p: Point, w: seq<Point>, i: nat)
    requires w == Merged(vs, ps) && i == Search(w, CellOf(p), |vs|)
    ensures Merged(vs, ps + [p]) == if i < |w| then w else w + [p]
    ensures Indices(vs, ps + [p]) == Indices(vs, ps) + [i]
  {
    assert (ps + [p])[..|ps|] == ps;
  }

  /** The corners of triangles, three by three. */
  function Corners(ts: seq<Triangle>): (r: seq<int>)
    ensures |r| == 3 * |ts|
  {
    if ts == [] then []
    else
      var t := ts[|ts| - 1];
      Corners(ts[..|ts| - 1]) + [t.v1, t.v2, t.v3]
  }

  lemma CornersNext(ts: seq<Triangle>, t: Triangle)
    ensures Corners(ts + [t]) == Corners(ts) + [t.v1, t.v2, t.v3]
  {
    assert (ts + [t])[..|ts|] == ts;
  }

  lemma {:induction false} CornersAt(ts: seq<Triangle>, k: nat, j: nat)
    requires k < |ts| && j < 3
    ensures Corners(ts)[3 * k + j] == Corner(ts[k], j)
    decreases |ts|
  {
    var n := |ts| - 1;
    if k < n {
      CornersAt(ts[..n], k, j);
    } else {
      assert Corners(ts)[3 * n + j] == [ts[n].v1, ts[n].v2, ts[n].v3][j];
    }
  }

  /** The triangles are made of the points three by three; one or two points left over do not make one. */
  ghost predicate Complete(ts: seq<Triangle>, indices: seq<int>) {
    3 * |ts| <= |indices| < 3 * |ts| + 3 && Corners(ts) == indices[..3 * |ts|]
  }

  lemma {:induction false} CornersTellTriangles(ts: seq<Triangle>, us: seq<Triangle>)
    requires Corners(ts) == Corners(us)
    ensures ts == us
    decreases |ts|
  {
    assert |ts| == |us|;
    if ts != [] {
      var n := |ts| - 1;
      var cs, ds := Corners(ts[..n]), Corners(us[..n]);
      assert cs == Corners(ts)[..3 * n] == ds;
      CornersTellTriangles(ts[..n], us[..n]);
      CornersAt(ts, n, 0);
      CornersAt(ts, n, 1);
      CornersAt(ts, n, 2);
      CornersAt(us, n, 0);
      CornersAt(us, n, 1);
      CornersAt(us, n, 2);
    }
  }

  /** So the points determine the mesh: a text and a binary file with the same corners are imported as the same mesh. */
  lemma PointsDetermineTriangles(vs: seq<Point>, ps: seq<Point>, ts: seq<Triangle>, us: seq<Triangle>)
    requires Complete(ts, Indices(vs, ps)) && Complete(us, Indices(vs, ps))
    ensures ts == us
  {
    CornersTellTriangles(ts, us);
  }

  /** Every corner of every triangle is a vertex, near the point the input gave for it. */
  lemma CornersAreNear(vs: seq<Point>, ps: seq<Point>, ts: seq<Triangle>, k: nat, j: nat)
    requires Complete(ts, Indices(vs, ps)) && k < |ts| && j < 3
    ensures 3 * k + j < |ps| && Corner(ts[k], j) < |Merged(vs, ps)|
    ensures var v, p := Merged(vs, ps)[Corner(ts[k], j)], ps[3 * k + j];
            CellOf(v) == CellOf(p) && Near(v.x, p.x) && Near(v.y, p.y) && Near(v.z, p.z)
  {
    var n := 3 * k + j;
    CornerIsIndex(ts, Indices(vs, ps), k, j, n);
    IndexIsLeast(vs, ps, n);
    SameCellIsNear(Merged(vs, ps)[Corner(ts[k], j)], ps[n]);
  }

  lemma CornerIsIndex(ts: seq<Triangle>, indices: seq<int>, k: nat, j: nat, n: nat)
    requires Complete(ts, indices) && k < |ts| && j < 3 && n == 3 * k + j
    ensures n < |indices| && indices[n] == Corner(ts[k], j)
  {
    CornersAt(ts, k, j);
    assert Corners(ts)[n] == indices[..3 * |ts|][n];
  }

  /** The builder has merged the points ps into the vertices vs; nodes holds the indices without a triangle yet. */
  ghost predicate Holds(mb: MeshBuilder, nodes: array<U32>, position: nat, vs: seq<Point>, ps: seq<Point>)
    reads mb, mb.mesh, nodes
  {
    && mb.Valid() && mb.base == |vs| && mb.mesh.vertices == Merged(vs, ps)
    && nodes.Length == 3 && position <= 3 && Indices(vs, ps) == Corners(mb.mesh.triangles) + nodes[..position]
  }

  method AddNode(mb: MeshBuilder, nodes: array<U32>, position: nat, p: Point, ghost vs: seq<Point>,
      ghost ps: seq<Point>)
    requires Holds(mb, nodes, position, vs, ps) && position < 3 && |vs| + |ps| < 0xFFFF_FFFF
    modifies mb`vectorTree, mb.mesh`vertices, nodes
    ensures Holds(mb, nodes, position + 1, vs, ps + [p])
  {
    MergedSize(vs, ps);
    ghost var w, before := mb.mesh.vertices, nodes[..position];
    nodes[position] := mb.AddVertex(p);
    Added(vs, ps, p, w, nodes[position]);
    NodesNext(Corners(mb.mesh.triangles), before, nodes[position], nodes[..position + 1]);
  }

  lemma NodesNext(corners: seq<int>, before: seq<int>, i: int, after: seq<int>)
    requires |after| == |before| + 1 && after[..|before|] == before && after[|before|] == i
    ensures corners + before + [i] == corners + after
  {
  }

  lemma TakeNext(ps: seq<Point>, all: seq<Point>, n: nat)
    requires n < |all|
    ensures ps + all[..n] + [all[n]] == ps + all[..n + 1]
  {
  }

  method AddTriangle(mb: MeshBuilder, nodes: array<U32>, ghost vs: seq<Point>, ghost ps: seq<Point>)
    requires Holds(mb, nodes, 3, vs, ps)
    modifies mb.mesh`triangles
    ensures Holds(mb, nodes, 0, vs, ps)
  {
    var t := Triangle(nodes[0], nodes[1], nodes[2]);
    CornersNext(mb.mesh.triangles, t);
    assert nodes[..3] == [t.v1, t.v2, t.v3];
    mb.mesh.triangles := mb.mesh.triangles + [t];
  }

  /** A line of three numbers after the word vertex; a number that cannot be read counts as parse says. */
  function VertexOf(fields: seq<string>, parse: string -> real): seq<Point> {
    if |fields| == 4 && fields[0] == "vertex" then [Point(parse(fields[1]), parse(fields[2]), parse(fields[3]))] else []
  }

  function VerticesOf(lines: seq<seq<string>>, parse: string -> real): (ps: seq<Point>)
    ensures |ps| <= |lines|
  {
    if lines == [] then [] else VerticesOf(lines[..|lines| - 1], parse) + VertexOf(lines[|lines| - 1], parse)
  }

  lemma VerticesNext(lines: seq<seq<string>>, parse: string -> real, i: nat)
    requires i < |lines|
    ensures VerticesOf(lines[..i + 1], parse) == VerticesOf(lines[..i], parse) + VertexOf(lines[i], parse)
  {
    assert lines[..i + 1][..i] == lines[..i];
  }

  /** lines are the lines that the scanner gives before it ends, split into fields, and failure is why it did. */
  method DecodeAscii(mesh: Mesh, lines: seq<seq<string>>, failure: Option<Error>, parse: string -> real)
    returns (err: Option<Error>)
    requires |mesh.vertices| + |lines| < 0xFFFF_FFFF && mesh.triangles == []
    modifies mesh
    ensures err == failure
    ensures mesh.vertices == Merged(old(mesh.vertices), VerticesOf(lines, parse))
    ensures Complete(mesh.triangles, Indices(old(mesh.vertices), VerticesOf(lines, parse)))
  {
    var mb := new MeshBuilder(mesh);
    ghost var vs := mesh.vertices;
    var position := 0;
    var nodes := new U32[3](_ => 0);
    ghost var ps := [];
    for i := 0 to |lines|
      invariant mb.mesh == mesh && fresh(mb) && fresh(nodes) && ps == VerticesOf(lines[..i], parse)
      invariant position < 3 && Holds(mb, nodes, position, vs, ps)
    {
      VerticesNext(lines, parse, i);
      position := DecodeLine(mb, nodes, position, lines[i], parse, vs, ps);
      ps := ps + VertexOf(lines[i], parse);
    }
    assert lines[..|lines|] == lines;
    err := failure;
  }

  /** The body of the loop: every third vertex completes a triangle. */
  method DecodeLine(mb: MeshBuilder, nodes: array<U32>, position: nat, fields: seq<string>, parse: string -> real,
                    ghost vs: seq<Point>, ghost ps: seq<Point>)
    returns (next: nat)
    requires Holds(mb, nodes, position, vs, ps) && position < 3 && |vs| + |ps| < 0xFFFF_FFFF
    modifies mb`vectorTree, mb.mesh, nodes
    ensures next < 3 && Holds(mb, nodes, next, vs, ps + VertexOf(fields, parse))
  {
    next := position;
    if |fields| == 4 && fields[0] == "vertex" {
      var p := Point(parse(fields[1]), parse(fields[2]), parse(fields[3]));
      AddNode(mb, nodes, position, p, vs, ps);
      next := position + 1;
      if next == 3 {
        next := 0;
        AddTriangle(mb, nodes, vs, ps + [p]);
      }
    } else {
      assert ps + [] == ps;
    }
  }

  datatype Face = Face(a: Point, b: Point, c: Point) {
    function Corner(j: nat): Point
      requires j < 3
    {
      if j == 0 then a else if j == 1 then b else c
    }
  }

  function CornersOf(faces: seq<Face>): (ps: seq<Point>)
    ensures |ps| == 3 * |faces|
  {
    if faces == [] then []
    else
      var n := |faces| - 1;
      CornersOf(faces[..n]) + [faces[n].a, faces[n].b, faces[n].c]
  }

  /** The bytes of a header, of a face, of a point, and where in them the count and the first vertex are. */
  const HEADER := 84
  const COUNT := 80
  const FACE := 50
  const VERTICES := 12
  const POINT := 12

  /** A 32-bit number, its low byte first. */
  function LittleEndian(bs: seq<Byte>, at: nat): (n: U32)
    requires at + 4 <= |bs|
  {
    bs[at] as int + 0x100 * (bs[at + 1] as int) + 0x1_0000 * (bs[at + 2] as int) + 0x100_0000 * (bs[at + 3] as int)
  }

  function LowFirst(n: U32): seq<Byte> {
    [Chr(n % 0x100), Chr(n / 0x100 % 0x100), Chr(n / 0x1_0000 % 0x100), Chr(n / 0x100_0000)]
  }

  lemma ReadLowFirst(bs: seq<Byte>, at: nat, n: U32)
    requires at + 4 <= |bs| && bs[at..at + 4] == LowFirst(n)
    ensures LittleEndian(bs, at) == n
  {
    var four := bs[at..at + 4];
    assert bs[at] == four[0] && bs[at + 1] == four[1] && bs[at + 2] == four[2] && bs[at + 3] == four[3];
    assert n == n % 0x100 + 0x100 * (n / 0x100);
    assert n / 0x100 == n / 0x100 % 0x100 + 0x100 * (n / 0x1_0000);
    assert n / 0x1_0000 == n / 0x1_0000 % 0x100 + 0x100 * (n / 0x100_0000);
  }

  /** number is the number that 32 bits are. */
  function PointAt(bs: seq<Byte>, at: nat, number: U32 -> real): Point
    requires at + POINT <= |bs|
  {
    Point(number(LittleEndian(bs, at)), number(LittleEndian(bs, at + 4)), number(LittleEndian(bs, at + 8)))
  }

  function FaceAt(bs: seq<Byte>, at: nat, number: U32 -> real): Face
    requires at + FACE <= |bs|
  {
    var v := at + VERTICES;
    Face(PointAt(bs, v, number), PointAt(bs, v + POINT, number), PointAt(bs, v + 2 * POINT, number))
  }

  /** The faces that the bytes after the header hold in full. */
  function Held(bs: seq<Byte>): nat
    requires |bs| >= HEADER
  {
    (|bs| - HEADER) / FACE
  }

  /** The faces that are decoded: as many as the header counts, if the bytes hold them. */
  function Decoded(bs: seq<Byte>): (n: nat)
    requires |bs| >= HEADER
    ensures n <= LittleEndian(bs, COUNT) && HEADER + FACE * n <= |bs|
  {
    if LittleEndian(bs, COUNT) <= Held(bs) then LittleEndian(bs, COUNT) else Held(bs)
  }

  function Faces(bs: seq<Byte>, n: nat, number: U32 -> real): (r: seq<Face>)
    requires HEADER + FACE * n <= |bs|
    ensures |r| == n && forall k :: 0 <= k < n ==> r[k] == FaceAt(bs, HEADER + FACE * k, number)
  {
    seq(n, k requires 0 <= k < n => FaceAt(bs, HEADER + FACE * k, number))
  }

  /** What a decoded mesh is: the corners of the faces merged into the vertices it had, and their triangles. */
  ghost predicate HoldsFaces(mesh: Mesh, vs: seq<Point>, faces: seq<Face>)
    reads mesh
  {
    mesh.vertices == Merged(vs, CornersOf(faces)) && Complete(mesh.triangles, Indices(vs, CornersOf(faces)))
  }

  /**
   * bs are the bytes that the reader gives before it ends or fails. It is a failure if they end before the last face;
   * what was decoded up to there stays in the mesh.
   */
  method DecodeBinary(mesh: Mesh, bs: seq<Byte>, number: U32 -> real) returns (ok: bool)
    requires |bs| >= HEADER ==> |mesh.vertices| + 3 * Decoded(bs) < 0xFFFF_FFFF
    modifies mesh
    ensures ok <==> |bs| >= HEADER && LittleEndian(bs, COUNT) <= Held(bs)
    ensures |bs| < HEADER ==> mesh.vertices == old(mesh.vertices) && mesh.triangles == old(mesh.triangles)
    ensures |bs| >= HEADER ==> HoldsFaces(mesh, old(mesh.vertices), Faces(bs, Decoded(bs), number))
  {
    var mb := new MeshBuilder(mesh);
    if |bs| < HEADER { return false; }
    mesh.triangles := [];
    ghost var faces := Faces(bs, Decoded(bs), number);
    assert CornersOf(faces[..0]) == [];
    ok := DecodeFaces(mb, bs, number, mesh.vertices, faces);
    assert faces[..|faces|] == faces;
  }

  /** The mesh after n of the faces. */
  ghost predicate Progress(mb: MeshBuilder, vs: seq<Point>, faces: seq<Face>, n: nat)
    reads mb, mb.mesh
    requires n <= |faces|
  {
    && mb.Valid() && mb.base == |vs| && mb.mesh.vertices == Merged(vs, CornersOf(faces[..n]))
    && Corners(mb.mesh.triangles) == Indices(vs, CornersOf(faces[..n]))
  }

  /** Where the bytes end, no face is missing that they hold in full. */
  lemma EndsThere(bs: seq<Byte>, n: nat)
    requires |bs| >= HEADER && n <= Decoded(bs) && n < LittleEndian(bs, COUNT)
    ensures HEADER + FACE * n + FACE <= |bs| <==> n < Decoded(bs)
    ensures n == Decoded(bs) ==> n == Held(bs)
  {
  }

  /** The loop over the faces. */
  method DecodeFaces(mb: MeshBuilder, bs: seq<Byte>, number: U32 -> real, ghost vs: seq<Point>, ghost faces: seq<Face>)
    returns (ok: bool)
    requires |bs| >= HEADER && faces == Faces(bs, Decoded(bs), number) && |vs| + 3 * |faces| < 0xFFFF_FFFF
    requires Progress(mb, vs, faces, 0)
    modifies mb`vectorTree, mb.mesh
    ensures ok <==> LittleEndian(bs, COUNT) <= Held(bs)
    ensures Progress(mb, vs, faces, |faces|)
  {
    var count, nFace := LittleEndian(bs, COUNT), 0;
    while nFace < count
      invariant nFace <= count && nFace <= |faces| && Progress(mb, vs, faces, nFace)
      decreases count - nFace
    {
      EndsThere(bs, nFace);
      var at := HEADER + FACE * nFace;
      if at + FACE > |bs| {
        return false;
      }
      DecodeNext(mb, FaceAt(bs, at, number), vs, faces, nFace);
      nFace := nFace + 1;
    }
    ok := true;
  }

  method DecodeNext(mb: MeshBuilder, facet: Face, ghost vs: seq<Point>, ghost faces: seq<Face>, ghost n: nat)
    requires n < |faces| && facet == faces[n] && Progress(mb, vs, faces, n) && |vs| + 3 * |faces| < 0xFFFF_FFFF
    modifies mb`vectorTree, mb.mesh
    ensures Progress(mb, vs, faces, n + 1)
  {
    DecodeFace(facet, mb, vs, CornersOf(faces[..n]));
    assert faces[..n + 1][..n] == faces[..n];
  }

  method DecodeFace(facet: Face, mb: MeshBuilder, ghost vs: seq<Point>, ghost ps: seq<Point>)
    requires mb.Valid() && mb.base == |vs| && mb.mesh.vertices == Merged(vs, ps) &&
        Corners(mb.mesh.triangles) == Indices(vs, ps)
    requires |vs| + |ps| + 3 < 0xFFFF_FFFF
    modifies mb`vectorTree, mb.mesh
    ensures mb.Valid() && mb.mesh.vertices == Merged(vs, ps + [facet.a, facet.b, facet.c])
    ensures Corners(mb.mesh.triangles) == Indices(vs, ps + [facet.a, facet.b, facet.c])
  {
    var nodes := new U32[3](_ => 0);
    ghost var all, now := [facet.a, facet.b, facet.c], ps;
    assert ps + all[..0] == ps && Indices(vs, ps) + nodes[..0] == Indices(vs, ps);
    for nVertex := 0 to 3
      invariant fresh(nodes) && now == ps + all[..nVertex] && Holds(mb, nodes, nVertex, vs, now)
    {
      AddNode(mb, nodes, nVertex, facet.Corner(nVertex), vs, now);
      TakeNext(ps, all, nVertex);
      now := now + [all[nVertex]];
    }
    assert now == ps + all;
    AddTriangle(mb, nodes, vs, now);
    assert Corners(mb.mesh.triangles) + nodes[..0] == Corners(mb.mesh.triangles);
  }
}
