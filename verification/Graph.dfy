/** The object graph of a model: parts, objects, components and build items, and their transforms. */
module Graph {
  import opened Wrappers
  import opened Coherency

  datatype Point = Point(x: real, y: real, z: real)

  /** Four consecutive elements m[4r..4r+4] of a matrix. */
  datatype Row = Row(a: real, b: real, c: real, d: real)

  /** A 4x4 matrix in row major order. */
  datatype Matrix = Matrix(r0: Row, r1: Row, r2: Row, r3: Row)

  /** Matrix{}: no transform was given. */
  const ZERO := var z := Row(0.0, 0.0, 0.0, 0.0); Matrix(z, z, z, z)

  const IDENTITY :=
      Matrix(Row(1.0, 0.0, 0.0, 0.0), Row(0.0, 1.0, 0.0, 0.0), Row(0.0, 0.0, 1.0, 0.0), Row(0.0, 0.0, 0.0, 1.0))

  predicate HasTransform(t: Matrix) {
    t != ZERO && t != IDENTITY
  }

  /** A component; its path attribute is empty if there is none. */
  datatype Component = Component(path: string, id: U32, transform: Matrix) {
    function ObjectPath(default: string): string {
      if path != "" then path else default
    }
  }

  /** An object has a mesh, of which only the vertices matter here, or components. */
  datatype Object = Object(id: U32, mesh: Option<seq<Point>>, components: seq<Component>)

  /** A build item is a component of the build. */
  datatype Model = Model(path: string, objects: seq<Object>, childs: map<string, seq<Object>>, items: seq<Component>) {

    /** FindResources: the root part goes by three names. */
    function FindResources(p: string): Option<seq<Object>> {
      if p == "" || p == path || (path == "" && p == "/3D/3dmodel.model") then Some(objects)
      else if p in childs then Some(childs[p])
      else None
    }

    function FindObject(p: string, id: U32): Option<Object> {
      match FindResources(p)
      case Some(os) => First(os, id)
      case None => None
    }

    /** The object a component stands for. */
    function Find(c: Component, default: string): Option<Object> {
      FindObject(c.ObjectPath(default), c.id)
    }

    predicate Has(o: Object) {
      o in objects || exists p <- childs :: o in childs[p]
    }
  }

  /** The first object with an ID. */
  function First(os: seq<Object>, id: U32): Option<Object> {
    if os == [] then None else if os[0].id == id then Some(os[0]) else First(os[1..], id)
  }

  lemma {:induction false} FirstIsThere(os: seq<Object>, id: U32)
    ensures First(os, id).Some? <==> exists o <- os :: o.id == id
    ensures First(os, id).Some? ==> First(os, id).value in os && First(os, id).value.id == id
  {
    if os != [] {
      FirstIsThere(os[1..], id);
    }
  }

  lemma FoundIsThere(m: Model, p: string, id: U32)
    requires m.FindObject(p, id).Some?
    ensures m.Has(m.FindObject(p, id).value) && m.FindObject(p, id).value.id == id
  {
    FirstIsThere(m.FindResources(p).value, id);
  }

  method FindObject(os: seq<Object>, id: U32) returns (o: Option<Object>)
    ensures o == First(os, id)
  {
    for i := 0 to |os|
      invariant First(os, id) == First(os[i..], id)
    {
      if os[i].id == id { return Some(os[i]); }
    }
    o := None;
  }

  /**
   * The objects are ranked: each component stands for an object of a lower rank. This is what rules out cycles;
   * components name their objects by ID, and the code follows them without looking for cycles.
   */
  ghost predicate Ranked(m: Model, path: string, rank: Object -> nat) {
    forall o, c :: m.Has(o) && c in o.components && m.Find(c, path).Some? ==> rank(m.Find(c, path).value) < rank(o)
  }

  /** PathOrDefault */
  function Root(m: Model): string {
    if m.path == "" then "/3D/3dmodel.model" else m.path
  }

  /** The root part goes by the empty name and by its own, all others by theirs. */
  lemma PartsByName(m: Model, p: string)
    ensures m.FindResources(p) ==
              if p in {"", Root(m)} then Some(m.objects) else if p in m.childs then Some(m.childs[p]) else None
  {
  }

  /** An object in its part: a component of it that has no path stands for an object of that part. */
  datatype Located = Located(part: string, obj: Object)

  ghost predicate StepsTo(m: Model, x: Located, y: Located) {
    exists c <- x.obj.components :: c.ObjectPath(x.part) == y.part && m.Find(c, x.part) == Some(y.obj)
  }

  ghost predicate Walk(m: Model, walk: seq<Located>) {
    |walk| > 1 ==> StepsTo(m, walk[0], walk[1]) && Walk(m, walk[1..])
  }
}
