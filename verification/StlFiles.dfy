/**
 * STL files as they are written, in both formats, byte by byte and line by line; and that the importers read from them
 * the faces that were written, corner by corner.
 */
module StlFiles {
  import opened Wrappers
  import opened Bytes
  import opened Coherency
  import opened Graph
  import opened Stl

  // ---- Binary files ----

  /** Three numbers, as 32 bits each. */
  datatype Bits = Bits(x: U32, y: U32, z: U32)

  /** A face of a file: its normal, its corners, and two bytes of attributes. */
  datatype Facet = Facet(normal: Bits, a: Bits, b: Bits, c: Bits, low: Byte, high: Byte)

  function WriteBits(v: Bits): (r: seq<Byte>)
    ensures |r| == 12
  {
    LowFirst(v.x) + LowFirst(v.y) + LowFirst(v.z)
  }

  function WriteFacet(f: Facet): (r: seq<Byte>)
    ensures |r| == 50
  {
    WriteBits(f.normal) + WriteBits(f.a) + WriteBits(f.b) + WriteBits(f.c) + [f.low, f.high]
  }

  function WriteFacets(fs: seq<Facet>): (r: seq<Byte>)
    ensures |r| == 50 * |fs|
  {
    if fs == [] then [] else WriteFacet(fs[0]) + WriteFacets(fs[1..])
  }

  /** A whole file: 80 bytes of title, the number of faces, and the faces. */
  function WriteStl(title: seq<Byte>, fs: seq<Facet>): (r: seq<Byte>)
    requires |title| == 80 && |fs| < 0x1_0000_0000
    ensures |r| == 84 + 50 * |fs|
  {
    title + LowFirst(|fs|) + WriteFacets(fs)
  }

  function PointOf(v: Bits, number: U32 -> real): Point {
    Point(number(v.x), number(v.y), number(v.z))
  }

  function FaceOf(f: Facet, number: U32 -> real): Face {
    Face(PointOf(f.a, number), PointOf(f.b, number), PointOf(f.c, number))
  }

  function FacesOf(fs: seq<Facet>, number: U32 -> real): (r: seq<Face>)
    ensures |r| == |fs| && forall k :: 0 <= k < |r| ==> r[k] == FaceOf(fs[k], number)
  {
    seq(|fs|, k requires 0 <= k < |fs| => FaceOf(fs[k], number))
  }

  predicate HoldsAt(bs: seq<Byte>, at: nat, part: seq<Byte>) {
    at + |part| <= |bs| && bs[at..at + |part|] == part
  }

  lemma HoldsParts(bs: seq<Byte>, at: nat, a: seq<Byte>, b: seq<Byte>)
    requires HoldsAt(bs, at, a + b)
    ensures HoldsAt(bs, at, a) && HoldsAt(bs, at + |a|, b)
  {
    var all := bs[at..at + |a + b|];
    assert bs[at..at + |a|] == all[..|a|] == a;
    assert bs[at + |a|..at + |a| + |b|] == all[|a|..] == b;
  }

  lemma ReadBits(bs: seq<Byte>, at: nat, v: Bits, number: U32 -> real)
    requires HoldsAt(bs, at, WriteBits(v))
    ensures PointAt(bs, at, number) == PointOf(v, number)
  {
    HoldsParts(bs, at, LowFirst(v.x) + LowFirst(v.y), LowFirst(v.z));
    HoldsParts(bs, at, LowFirst(v.x), LowFirst(v.y));
    ReadLowFirst(bs, at, v.x);
    ReadLowFirst(bs, at + 4, v.y);
    ReadLowFirst(bs, at + 8, v.z);
  }

  lemma ReadFacet(bs: seq<Byte>, at: nat, f: Facet, number: U32 -> real)
    requires HoldsAt(bs, at, WriteFacet(f))
    ensures FaceAt(bs, at, number) == FaceOf(f, number)
  {
    var n, a, b, c, e := WriteBits(f.normal), WriteBits(f.a), WriteBits(f.b), WriteBits(f.c), [f.low, f.high];
    HoldsParts(bs, at, n + a + b + c, e);
    HoldsParts(bs, at, n + a + b, c);
    HoldsParts(bs, at, n + a, b);
    HoldsParts(bs, at, n, a);
    ReadBits(bs, at + 12, f.a, number);
    ReadBits(bs, at + 24, f.b, number);
    ReadBits(bs, at + 36, f.c, number);
  }

  lemma {:induction false} FacetHeld(bs: seq<Byte>, at: nat, fs: seq<Facet>, k: nat)
    requires HoldsAt(bs, at, WriteFacets(fs)) && k < |fs|
    ensures HoldsAt(bs, at + 50 * k, WriteFacet(fs[k]))
    decreases k
  {
    HoldsParts(bs, at, WriteFacet(fs[0]), WriteFacets(fs[1..]));
    if k > 0 {
      FacetHeld(bs, at + 50, fs[1..], k - 1);
    }
  }

  /** The bytes of a file, cut off anywhere behind the header, and whatever follows if they are not. */
  predicate IsFile(bs: seq<Byte>, title: seq<Byte>, fs: seq<Facet>) {
    |title| == 80 && |fs| < 0x1_0000_0000 && |bs| >= 84
    && var all := WriteStl(title, fs);
    if |bs| < |all| then bs == all[..|bs|] else bs[..|all|] == all
  }

  /**
   * The header counts the faces that were written; those of them are decoded that are there in full; and they are read
   * as they were written.
   */
  lemma FileIsRead(bs: seq<Byte>, title: seq<Byte>, fs: seq<Facet>, number: U32 -> real)
    requires IsFile(bs, title, fs)
    ensures |bs| >= HEADER && LittleEndian(bs, COUNT) == |fs|
    ensures Decoded(bs) == if 84 + 50 * |fs| <= |bs| then |fs| else (|bs| - 84) / 50
    ensures Faces(bs, Decoded(bs), number) == FacesOf(fs, number)[..Decoded(bs)]
  {
    CountIsRead(bs, title, fs);
    EachIsRead(bs, title, fs, Decoded(bs), number);
    FacesAre(bs, fs, Decoded(bs), number);
  }

  lemma EachIsRead(bs: seq<Byte>, title: seq<Byte>, fs: seq<Facet>, n: nat, number: U32 -> real)
    requires IsFile(bs, title, fs) && n <= |fs| && HEADER + FACE * n <= |bs|
    ensures forall k :: 0 <= k < n ==> FaceAt(bs, HEADER + FACE * k, number) == FaceOf(fs[k], number)
  {
    forall k | 0 <= k < n ensures FaceAt(bs, HEADER + FACE * k, number) == FaceOf(fs[k], number) {
      var at := HEADER + FACE * k;
      assert at + FACE <= |bs|;
      FaceIsRead(bs, title, fs, k, at, number);
    }
  }

  lemma FacesAre(bs: seq<Byte>, fs: seq<Facet>, n: nat, number: U32 -> real)
    requires n <= |fs| && HEADER + FACE * n <= |bs|
    requires forall k :: 0 <= k < n ==> FaceAt(bs, HEADER + FACE * k, number) == FaceOf(fs[k], number)
    ensures Faces(bs, n, number) == FacesOf(fs, number)[..n]
  {
    var read, written := Faces(bs, n, number), FacesOf(fs, number)[..n];
    forall k | 0 <= k < n ensures read[k] == written[k] {
      assert read[k] == FaceAt(bs, HEADER + FACE * k, number);
    }
  }

  lemma CountIsRead(bs: seq<Byte>, title: seq<Byte>, fs: seq<Facet>)
    requires IsFile(bs, title, fs)
    ensures LittleEndian(bs, COUNT) == |fs|
  {
    var all := WriteStl(title, fs);
    assert all[80..84] == LowFirst(|fs|);
    SamePart(bs, all, 80, LowFirst(|fs|));
    ReadLowFirst(bs, 80, |fs|);
  }

  lemma FaceIsRead(bs: seq<Byte>, title: seq<Byte>, fs: seq<Facet>, k: nat, at: nat, number: U32 -> real)
    requires IsFile(bs, title, fs) && k < |fs| && at == 84 + 50 * k && at + 50 <= |bs|
    ensures FaceAt(bs, at, number) == FaceOf(fs[k], number)
  {
    FacetInFile(title, fs, k, at);
    ReadFacetAt(bs, WriteStl(title, fs), at, fs[k], number);
  }

  lemma FacetInFile(title: seq<Byte>, fs: seq<Facet>, k: nat, at: nat)
    requires |title| == 80 && |fs| < 0x1_0000_0000 && k < |fs| && at == 84 + 50 * k
    ensures HoldsAt(WriteStl(title, fs), at, WriteFacet(fs[k]))
  {
    FacetsHeld(title, fs);
    FacetHeld(WriteStl(title, fs), 84, fs, k);
  }

  lemma FacetsHeld(title: seq<Byte>, fs: seq<Facet>)
    requires |title| == 80 && |fs| < 0x1_0000_0000
    ensures HoldsAt(WriteStl(title, fs), 84, WriteFacets(fs))
  {
    HoldsLast(title + LowFirst(|fs|), WriteFacets(fs));
  }

  lemma HoldsLast(head: seq<Byte>, part: seq<Byte>)
    ensures HoldsAt(head + part, |head|, part)
  {
    assert (head + part)[|head|..] == part;
  }

  lemma ReadFacetAt(bs: seq<Byte>, all: seq<Byte>, at: nat, f: Facet, number: U32 -> real)
    requires HoldsAt(all, at, WriteFacet(f)) && at + 50 <= |bs|
    requires if |bs| < |all| then bs == all[..|bs|] else bs[..|all|] == all
    ensures FaceAt(bs, at, number) == FaceOf(f, number)
  {
    SamePart(bs, all, at, WriteFacet(f));
    ReadFacet(bs, at, f, number);
  }

  lemma SamePart(bs: seq<Byte>, all: seq<Byte>, at: nat, part: seq<Byte>)
    requires HoldsAt(all, at, part) && at + |part| <= |bs|
    requires if |bs| < |all| then bs == all[..|bs|] else bs[..|all|] == all
    ensures HoldsAt(bs, at, part)
  {
    assert forall i :: at <= i < at + |part| ==> bs[i] == all[i];
  }

  // ---- The mesh ----

  lemma {:induction false} CornersOfAt(faces: seq<Face>, k: nat)
    requires k < |faces|
    ensures CornersOf(faces)[3 * k] == faces[k].a
    ensures CornersOf(faces)[3 * k + 1] == faces[k].b
    ensures CornersOf(faces)[3 * k + 2] == faces[k].c
    decreases |faces|
  {
    var n := |faces| - 1;
    if k < n {
      CornersOfAt(faces[..n], k);
    }
  }

  predicate SameCorner(vertices: seq<Point>, i: U32, p: Point) {
    i < |vertices| && CellOf(vertices[i]) == CellOf(p)
  }

  /** A triangle for every face, in order, its corners at those of the face, in order. */
  lemma TrianglesOfFaces(vs: seq<Point>, faces: seq<Face>, ts: seq<Triangle>, k: nat)
    requires Complete(ts, Indices(vs, CornersOf(faces)))
    ensures |ts| == |faces|
    ensures k < |ts| ==>
              var v := Merged(vs, CornersOf(faces));
              && SameCorner(v, ts[k].v1, faces[k].a) && SameCorner(v, ts[k].v2, faces[k].b)
              && SameCorner(v, ts[k].v3, faces[k].c)
  {
    if k < |ts| {
      var ps := CornersOf(faces);
      CornersOfAt(faces, k);
      CornersAreNear(vs, ps, ts, k, 0);
      CornersAreNear(vs, ps, ts, k, 1);
      CornersAreNear(vs, ps, ts, k, 2);
    }
  }

  /** Importing a binary file into an empty mesh: a triangle for every face of the file. */
  method ImportBinary(title: seq<Byte>, fs: seq<Facet>, number: U32 -> real) returns (mesh: Mesh, ok: bool)
    requires |title| == 80 && 3 * |fs| < 0xFFFF_FFFF
    ensures ok && |mesh.triangles| == |fs|
    ensures forall k :: 0 <= k < |fs| ==>
              && SameCorner(mesh.vertices, mesh.triangles[k].v1, PointOf(fs[k].a, number))
              && SameCorner(mesh.vertices, mesh.triangles[k].v2, PointOf(fs[k].b, number))
              && SameCorner(mesh.vertices, mesh.triangles[k].v3, PointOf(fs[k].c, number))
  {
    var bs := WriteStl(title, fs);
    mesh := new Mesh();
    ghost var vs, faces := mesh.vertices, FacesOf(fs, number);
    assert bs[..|bs|] == bs;
    FileIsRead(bs, title, fs, number);
    ok := DecodeBinary(mesh, bs, number);
    assert faces[..|fs|] == faces;
    TrianglesOfFaces(vs, faces, mesh.triangles, 0);
    forall k | 0 <= k < |fs|
      ensures SameCorner(mesh.vertices, mesh.triangles[k].v1, PointOf(fs[k].a, number))
      ensures SameCorner(mesh.vertices, mesh.triangles[k].v2, PointOf(fs[k].b, number))
      ensures SameCorner(mesh.vertices, mesh.triangles[k].v3, PointOf(fs[k].c, number))
    {
      TrianglesOfFaces(vs, faces, mesh.triangles, k);
    }
  }

  // ---- Text files ----

  /** A face as lines of fields; text is how a number is written. */
  function FaceLines(f: Face, normal: Point, text: real -> string): seq<seq<string>> {
    [["facet", "normal", text(normal.x), text(normal.y), text(normal.z)], ["outer", "loop"],
     ["vertex", text(f.a.x), text(f.a.y), text(f.a.z)], ["vertex", text(f.b.x), text(f.b.y), text(f.b.z)],
     ["vertex", text(f.c.x), text(f.c.y), text(f.c.z)], ["endloop"], ["endfacet"]]
  }

  function AllLines(faces: seq<Face>, normals: seq<Point>, text: real -> string): seq<seq<string>>
    requires |normals| == |faces|
  {
    if faces == [] then []
    else
      var n := |faces| - 1;
      AllLines(faces[..n], normals[..n], text) + FaceLines(faces[n], normals[n], text)
  }

  lemma {:induction false} VerticesAppend(a: seq<seq<string>>, b: seq<seq<string>>, parse: string -> real)
    ensures VerticesOf(a + b, parse) == VerticesOf(a, parse) + VerticesOf(b, parse)
    decreases |b|
  {
    if b == [] {
      assert a + b == a;
    } else {
      var n := |b| - 1;
      assert (a + b)[..|a| + n] == a + b[..n];
      VerticesAppend(a, b[..n], parse);
      Assoc(VerticesOf(a, parse), VerticesOf(b[..n], parse), VertexOf(b[n], parse));
    }
  }

  lemma VertexLine(x: string, y: string, z: string, parse: string -> real)
    ensures VertexOf(["vertex", x, y, z], parse) == [Point(parse(x), parse(y), parse(z))]
  {
  }

  lemma OneLine(line: seq<string>, parse: string -> real)
    ensures VerticesOf([line], parse) == VertexOf(line, parse)
  {
    assert [line][..0] == [];
  }

  lemma LineByLine(ls: seq<seq<string>>, parse: string -> real)
    requires |ls| == 7
    ensures VerticesOf(ls, parse)
         == VertexOf(ls[0], parse) + VertexOf(ls[1], parse) + VertexOf(ls[2], parse) + VertexOf(ls[3], parse)
          + VertexOf(ls[4], parse) + VertexOf(ls[5], parse) + VertexOf(ls[6], parse)
  {
    forall i | 0 <= i < 7
      ensures VerticesOf(ls[..i + 1], parse) == VerticesOf(ls[..i], parse) + VertexOf(ls[i], parse)
    {
      assert ls[..i + 1][..i] == ls[..i];
    }
    assert ls[..7] == ls && ls[..0] == [];
  }

  lemma FaceLinesMean(f: Face, normal: Point, text: real -> string, parse: string -> real)
    requires forall x :: parse(text(x)) == x
    ensures VerticesOf(FaceLines(f, normal, text), parse) == [f.a, f.b, f.c]
  {
    LineByLine(FaceLines(f, normal, text), parse);
  }

  /**
   * A text file: its title, the lines of its faces, and its end; all numbers are written so that they are read back.
   */
  lemma {:induction false} TextMeans(faces: seq<Face>, normals: seq<Point>, text: real -> string, parse: string -> real)
    requires |normals| == |faces| && forall x :: parse(text(x)) == x
    ensures VerticesOf(AllLines(faces, normals, text), parse) == CornersOf(faces)
    decreases |faces|
  {
    if faces != [] {
      var n := |faces| - 1;
      TextMeans(faces[..n], normals[..n], text, parse);
      VerticesAppend(AllLines(faces[..n], normals[..n], text), FaceLines(faces[n], normals[n], text), parse);
      FaceLinesMean(faces[n], normals[n], text, parse);
    }
  }

  /** With its first and last line, it is read as the corners of its faces. */
  lemma TextFileMeans(title: seq<string>, faces: seq<Face>, normals: seq<Point>, end: seq<string>, text: real -> string,
      parse: string -> real)
    requires |normals| == |faces| && forall x :: parse(text(x)) == x
    requires title != [] && title[0] == "solid" && end != [] && end[0] == "endsolid"
    ensures VerticesOf([title] + AllLines(faces, normals, text) + [end], parse) == CornersOf(faces)
  {
    VerticesAppend([title] + AllLines(faces, normals, text), [end], parse);
    VerticesAppend([title], AllLines(faces, normals, text), parse);
    OneLine(title, parse);
    OneLine(end, parse);
    TextMeans(faces, normals, text, parse);
    assert "solid"[0] == 's' && "endsolid"[0] == 'e' && "vertex"[0] == 'v';
  }
}
