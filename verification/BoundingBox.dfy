/** Bounding boxes of meshes, of objects made of components, and of the build. */
module BoundingBox {
  import opened Wrappers
  import opened Coherency
  import opened Graph
  import opened Transforms

  // ---- Meshes ----

  function GrowPoints(vs: seq<Point>): Box {
    if vs == [] then LIMIT else ExtendPoint(GrowPoints(vs[..|vs| - 1]), vs[|vs| - 1])
  }

  function MeshBox(vs: seq<Point>): Box {
    if vs == [] then EMPTY else GrowPoints(vs)
  }

  method MeshBoundingBox(vs: seq<Point>) returns (box: Box)
    ensures box == MeshBox(vs)
  {
    if |vs| == 0 { return EMPTY; }
    box := LIMIT;
    for i := 0 to |vs|
      invariant box == GrowPoints(vs[..i])
    {
      assert vs[..i + 1][..i] == vs[..i];
      box := ExtendPoint(box, vs[i]);
    }
    assert vs[..|vs|] == vs;
  }

  lemma {:induction false} GrowPointsCovers(vs: seq<Point>)
    requires AllInRange(vs)
    ensures Covers(GrowPoints(vs), vs)
  {
    if vs != [] {
      var n := |vs| - 1;
      GrowPointsCovers(vs[..n]);
      ExtendPointCovers(GrowPoints(vs[..n]), vs[..n], vs[n]);
      assert vs == vs[..n] + [vs[n]];
    }
  }

  // ---- Objects ----

  /** A model, the part that paths default to, and a rank that falls along components. */
  datatype Scene = Scene(m: Model, path: string, rank: Object -> nat)

  ghost predicate Ok(s: Scene) {
    Ranked(s.m, s.path, s.rank)
  }

  ghost function Found(s: Scene, c: Component): (o: Option<Object>)
    ensures o.Some? ==> s.m.Has(o.value)
  {
    var o := s.m.Find(c, s.path);
    if o.Some? then FoundIsThere(s.m, c.ObjectPath(s.path), c.id); o else o
  }

  ghost function Height(s: Scene, c: Component): nat {
    if Found(s, c).Some? then s.rank(Found(s, c).value) + 1 else 0
  }

  ghost function Highest(s: Scene, cs: seq<Component>): (h: nat)
    ensures forall c <- cs :: Height(s, c) <= h
  {
    if cs == [] then 0
    else
      var n := |cs| - 1;
      var h, top := Highest(s, cs[..n]), Height(s, cs[n]);
      assert forall c <- cs :: c in cs[..n] || c == cs[n];
      if h < top then top else h
  }

  lemma {:induction false} HighestBelow(s: Scene, cs: seq<Component>, r: nat)
    requires forall c <- cs :: Height(s, c) <= r
    ensures Highest(s, cs) <= r
  {
    if cs != [] {
      HighestBelow(s, cs[..|cs| - 1], r);
    }
  }

  lemma ComponentsBelow(s: Scene, o: Object)
    requires Ok(s) && s.m.Has(o)
    ensures Highest(s, o.components) <= s.rank(o)
  {
    forall c <- o.components ensures Height(s, c) <= s.rank(o) {
    }
    HighestBelow(s, o.components, s.rank(o));
  }

  ghost function BoxOf(s: Scene, o: Object): Box
    requires Ok(s) && s.m.Has(o)
    decreases s.rank(o), 3
  {
    match o.mesh
    case Some(vs) => MeshBox(vs)
    case None =>
      if o.components == [] then EMPTY
      else
        ComponentsBelow(s, o);
        Grow(LIMIT, Boxes(s, o.components))
  }

  /** The boxes that components contribute. */
  ghost function Boxes(s: Scene, cs: seq<Component>): seq<Box>
    requires Ok(s)
    decreases Highest(s, cs), 2, |cs|
  {
    if cs == [] then [] else Boxes(s, cs[..|cs| - 1]) + BoxesOf(s, cs[|cs| - 1])
  }

  /** One box, or none where the object is not there or its box is the empty box. */
  ghost function BoxesOf(s: Scene, c: Component): seq<Box>
    requires Ok(s)
    decreases Height(s, c), 1
  {
    match Found(s, c)
    case None => []
    case Some(o) => if BoxOf(s, o) == EMPTY then [] else [MulBox(c.transform, BoxOf(s, o))]
  }

  /** What one turn of the loop makes of the box so far. */
  ghost function Turn(s: Scene, box: Box, c: Component): Box
    requires Ok(s)
  {
    match Found(s, c)
    case None => box
    case Some(o) => if BoxOf(s, o) == EMPTY then box else Extend(box, MulBox(c.transform, BoxOf(s, o)))
  }

  /** What the loop makes of components. */
  ghost function Joined(s: Scene, cs: seq<Component>): Box
    requires Ok(s)
  {
    Grow(LIMIT, Boxes(s, cs))
  }

  lemma JoinedSnoc(s: Scene, cs: seq<Component>, c: Component)
    requires Ok(s)
    ensures Joined(s, cs + [c]) == Turn(s, Joined(s, cs), c)
  {
    assert (cs + [c])[..|cs|] == cs;
    var boxes, more := Boxes(s, cs), BoxesOf(s, c);
    assert Boxes(s, cs + [c]) == boxes + more;
    if more == [] {
      assert boxes + more == boxes;
    } else {
      assert (boxes + more)[..|boxes|] == boxes;
    }
  }

  lemma NextTurn(s: Scene, cs: seq<Component>, i: nat)
    requires Ok(s) && i < |cs|
    ensures Joined(s, cs[..i + 1]) == Turn(s, Joined(s, cs[..i]), cs[i])
  {
    JoinedSnoc(s, cs[..i], cs[i]);
    assert cs[..i + 1] == cs[..i] + [cs[i]];
  }

  method ObjectBoundingBox(m: Model, path: string, o: Object, ghost rank: Object -> nat) returns (box: Box)
    requires Ranked(m, path, rank) && m.Has(o)
    ensures box == BoxOf(Scene(m, path, rank), o)
    decreases rank(o)
  {
    if o.mesh.Some? {
      box := MeshBoundingBox(o.mesh.value);
      return;
    }
    if |o.components| == 0 { return EMPTY; }
    box := LIMIT;
    ghost var s := Scene(m, path, rank);
    for i := 0 to |o.components|
      invariant box == Joined(s, o.components[..i])
    {
      NextTurn(s, o.components, i);
      var c := o.components[i];
      var found := m.Find(c, path);
      if found.Some? {
        FoundIsThere(m, c.ObjectPath(path), c.id);
        var cbox := ObjectBoundingBox(m, path, found.value, rank);
        if cbox != EMPTY {
          box := Extend(box, MulBox(c.transform, cbox));
        }
      }
    }
    assert o.components[..|o.components|] == o.components;
  }

  // ---- The build ----

  ghost function ModelBox(s: Scene): Box
    requires Ok(s)
  {
    if s.m.items == [] then EMPTY else Joined(s, s.m.items)
  }

  /** Every item has its own goroutine; arrival is the order in which they get hold of the lock, and does not matter. */
  method ModelBoundingBox(m: Model, arrival: seq<Component>, ghost rank: Object -> nat) returns (box: Box)
    requires Ranked(m, "", rank) && multiset(arrival) == multiset(m.items)
    ensures box == ModelBox(Scene(m, "", rank))
  {
    ghost var s := Scene(m, "", rank);
    if |m.items| == 0 { return EMPTY; }
    box := LIMIT;
    for i := 0 to |arrival|
      invariant box == Joined(s, arrival[..i])
    {
      NextTurn(s, arrival, i);
      var item := arrival[i];
      var found := m.Find(item, "");
      if found.Some? {
        FoundIsThere(m, item.ObjectPath(""), item.id);
        var ibox := ObjectBoundingBox(m, "", found.value, rank);
        if ibox != EMPTY {
          box := Extend(box, MulBox(item.transform, ibox));
        }
      }
    }
    assert arrival[..|arrival|] == arrival;
    JoinedAnyOrder(s, arrival, m.items);
  }

  function Without<T>(xs: seq<T>, k: nat): seq<T>
    requires k < |xs|
  {
    xs[..k] + xs[k + 1..]
  }

  lemma WithoutLast<T>(xs: seq<T>, k: nat)
    requires k < |xs| - 1
    ensures Without(xs, k) == Without(xs[..|xs| - 1], k) + [xs[|xs| - 1]]
  {
  }

  lemma SameWithout<T>(xs: seq<T>, ys: seq<T>, k: nat)
    requires xs != [] && multiset(xs) == multiset(ys) && k < |ys| && ys[k] == xs[|xs| - 1]
    ensures multiset(xs[..|xs| - 1]) == multiset(Without(ys, k))
  {
    assert xs == xs[..|xs| - 1] + [ys[k]] && ys == ys[..k] + [ys[k]] + ys[k + 1..];
    Cancel(xs[..|xs| - 1], ys[..k], ys[k + 1..], ys[k]);
  }

  lemma Cancel<T>(a: seq<T>, b: seq<T>, c: seq<T>, x: T)
    requires multiset(a + [x]) == multiset(b + [x] + c)
    ensures multiset(a) == multiset(b + c)
  {
    assert multiset(a) == multiset(a + [x]) - multiset{x};
    assert multiset(b + c) == multiset(b + [x] + c) - multiset{x};
  }

  lemma TurnSwap(s: Scene, box: Box, c: Component, d: Component)
    requires Ok(s)
    ensures Turn(s, Turn(s, box, c), d) == Turn(s, Turn(s, box, d), c)
  {
    if Found(s, c).Some? && Found(s, d).Some? {
      ExtendSwap(box, MulBox(c.transform, BoxOf(s, Found(s, c).value)),
          MulBox(d.transform, BoxOf(s, Found(s, d).value)));
    }
  }

  /** Any component can come last. */
  lemma {:induction false} JoinedPull(s: Scene, cs: seq<Component>, k: nat)
    requires Ok(s) && k < |cs|
    ensures Joined(s, cs) == Turn(s, Joined(s, Without(cs, k)), cs[k])
    decreases |cs|
  {
    var n := |cs| - 1;
    NextTurn(s, cs, n);
    assert cs[..n + 1] == cs;
    if k == n {
      assert Without(cs, k) == cs[..n];
    } else {
      JoinedPull(s, cs[..n], k);
      WithoutLast(cs, k);
      JoinedSnoc(s, Without(cs[..n], k), cs[n]);
      TurnSwap(s, Joined(s, Without(cs[..n], k)), cs[k], cs[n]);
    }
  }

  /** The order of the components does not matter. */
  lemma {:induction false} JoinedAnyOrder(s: Scene, xs: seq<Component>, ys: seq<Component>)
    requires Ok(s) && multiset(xs) == multiset(ys)
    ensures Joined(s, xs) == Joined(s, ys)
    decreases |xs|
  {
    if xs == [] {
      assert |multiset(ys)| == |ys|;
    } else {
      var n := |xs| - 1;
      assert xs[n] in multiset(ys);
      var k :| 0 <= k < |ys| && ys[k] == xs[n];
      JoinedPull(s, ys, k);
      SameWithout(xs, ys, k);
      JoinedAnyOrder(s, xs[..n], Without(ys, k));
      NextTurn(s, xs, n);
      assert xs[..n + 1] == xs;
    }
  }

  // ---- What the boxes are boxes of ----

  /** A matrix that MulBox leaves out stands for no transform. */
  function Effective(t: Matrix): Matrix {
    if t.r3.d == 0.0 then IDENTITY else t
  }

  /** The vertices below an object, each pushed up through the transforms of the components above it. */
  ghost function PointsOf(s: Scene, o: Object): seq<Point>
    requires Ok(s) && s.m.Has(o)
    decreases s.rank(o), 3
  {
    match o.mesh
    case Some(vs) => vs
    case None =>
      ComponentsBelow(s, o);
      Points(s, o.components)
  }

  ghost function Points(s: Scene, cs: seq<Component>): seq<Point>
    requires Ok(s)
    decreases Highest(s, cs), 2, |cs|
  {
    if cs == [] then [] else Points(s, cs[..|cs| - 1]) + Placed(s, cs[|cs| - 1])
  }

  ghost function Placed(s: Scene, c: Component): seq<Point>
    requires Ok(s)
    decreases Height(s, c), 1
  {
    match Found(s, c)
    case None => []
    case Some(o) => Place(Effective(c.transform), PointsOf(s, o))
  }

  /** No transform, or one that takes each coordinate from one axis. */
  predicate Usable(t: Matrix) {
    t.r3.d == 0.0 || (Affine(t) && Monomial(t))
  }

  // ---- What they are made of ----

  /** The points that a box is really made of. */
  ghost function KeptBy(s: Scene, o: Object): seq<Point>
    requires Ok(s) && s.m.Has(o)
    decreases s.rank(o), 3
  {
    match o.mesh
    case Some(vs) => vs
    case None =>
      ComponentsBelow(s, o);
      Kept(s, o.components)
  }

  ghost function Kept(s: Scene, cs: seq<Component>): seq<Point>
    requires Ok(s)
    decreases Highest(s, cs), 2, |cs|
  {
    if cs == [] then [] else Kept(s, cs[..|cs| - 1]) + KeptOf(s, cs[|cs| - 1])
  }

  /**
   * The box of a part whose points are all at the origin is taken for an empty one; a part that is hollow gives what
   * the transform makes of the box that is inside out.
   */
  ghost function KeptOf(s: Scene, c: Component): seq<Point>
    requires Ok(s)
    decreases Height(s, c), 1
  {
    match Found(s, c)
    case None => []
    case Some(o) =>
      var ps := KeptBy(s, o);
      if ps == [] && HasParts(o) then Spread(c.transform)
      else if AtOrigin(ps) then []
      else Place(Effective(c.transform), ps)
  }

  predicate HasParts(o: Object) {
    o.mesh.None? && o.components != []
  }

  predicate AtOrigin(ps: seq<Point>) {
    forall p <- ps :: p == EMPTY.min
  }

  /** The corners that a transform gives to the box that is inside out. */
  function Spread(t: Matrix): seq<Point> {
    if t.r3.d == 0.0 then [] else [MulBox(t, LIMIT).min, MulBox(t, LIMIT).max]
  }

  /** Coordinates in range and usable transforms, all the way down. */
  ghost predicate Plain(s: Scene, o: Object)
    requires Ok(s) && s.m.Has(o)
    decreases s.rank(o), 3
  {
    match o.mesh
    case Some(vs) => AllInRange(vs)
    case None =>
      ComponentsBelow(s, o);
      AllPlain(s, o.components)
  }

  ghost predicate AllPlain(s: Scene, cs: seq<Component>)
    requires Ok(s)
    decreases Highest(s, cs), 2, |cs|
  {
    cs != [] ==> AllPlain(s, cs[..|cs| - 1]) && PartPlain(s, cs[|cs| - 1])
  }

  ghost predicate PartPlain(s: Scene, c: Component)
    requires Ok(s)
    decreases Height(s, c), 1
  {
    match Found(s, c)
    case None => true
    case Some(o) => Plain(s, o) && Usable(c.transform) && AllInRange(KeptOf(s, c))
  }

  lemma PlaceIdentity(ps: seq<Point>)
    ensures Place(IDENTITY, ps) == ps
  {
    forall k | 0 <= k < |ps| ensures Mul3D(IDENTITY, ps[k]) == ps[k] {
    }
  }

  lemma UsableIsExact(t: Matrix, b: Box, ps: seq<Point>)
    requires Usable(t) && Tight(b, ps)
    ensures Tight(MulBox(t, b), Place(Effective(t), ps))
  {
    if t.r3.d == 0.0 {
      PlaceIdentity(ps);
    } else {
      MulBoxTight(t, b, ps);
    }
  }

  lemma NotEmptyBox(b: Box, ps: seq<Point>, p: Point)
    requires Tight(b, ps) && p in ps && p != EMPTY.min
    ensures b != EMPTY
  {
    assert At(p, 0) == p.x && At(p, 1) == p.y && At(p, 2) == p.z;
  }

  lemma InsideOut(box: Box, ps: seq<Point>)
    requires Covers(box, ps) && AllInRange(ps)
    ensures Extend(box, LIMIT) == box
  {
  }

  /** The box of an object is that of the points kept; without any, it is empty, or inside out if there are parts. */
  lemma {:induction false} BoxIsOfKept(s: Scene, o: Object)
    requires Ok(s) && s.m.Has(o) && Plain(s, o)
    ensures if KeptBy(s, o) == [] && !HasParts(o) then BoxOf(s, o) == EMPTY else Covers(BoxOf(s, o), KeptBy(s, o))
    decreases s.rank(o), 3
  {
    match o.mesh {
      case Some(vs) => GrowPointsCovers(vs);
      case None =>
        ComponentsBelow(s, o);
        KeptCovers(s, o.components);
    }
  }

  lemma {:induction false} KeptCovers(s: Scene, cs: seq<Component>)
    requires Ok(s) && AllPlain(s, cs)
    ensures Covers(Joined(s, cs), Kept(s, cs)) && AllInRange(Kept(s, cs))
    decreases Highest(s, cs), 2, |cs|
  {
    if cs != [] {
      var n := |cs| - 1;
      KeptCovers(s, cs[..n]);
      assert cs[..n + 1] == cs;
      NextTurn(s, cs, n);
      PartCovers(s, cs[n], Joined(s, cs[..n]), Kept(s, cs[..n]));
    }
  }

  lemma {:induction false} PartCovers(s: Scene, c: Component, box: Box, ps: seq<Point>)
    requires Ok(s) && PartPlain(s, c) && Covers(box, ps) && AllInRange(ps)
    ensures Covers(Turn(s, box, c), ps + KeptOf(s, c)) && AllInRange(ps + KeptOf(s, c))
    decreases Height(s, c), 1
  {
    assert ps + [] == ps;
    match Found(s, c) {
      case None =>
      case Some(o) =>
        BoxIsOfKept(s, o);
        var qs := KeptBy(s, o);
        if qs != [] {
          PointsCover(c.transform, box, ps, BoxOf(s, o), qs);
        } else if HasParts(o) {
          SpreadCovers(c.transform, box, ps);
        }
    }
  }

  lemma SpreadCovers(t: Matrix, box: Box, ps: seq<Point>)
    requires Covers(box, ps) && AllInRange(ps) && AllInRange(Spread(t))
    ensures Covers(Extend(box, MulBox(t, LIMIT)), ps + Spread(t))
  {
    if t.r3.d == 0.0 {
      InsideOut(box, ps);
      assert ps + Spread(t) == ps;
    } else {
      ExtendCovers(box, ps, MulBox(t, LIMIT), Spread(t));
    }
  }

  lemma PointsCover(t: Matrix, box: Box, ps: seq<Point>, b: Box, qs: seq<Point>)
    requires Covers(box, ps) && Tight(b, qs) && qs != [] && Usable(t)
    requires !AtOrigin(qs) ==> AllInRange(Place(Effective(t), qs))
    ensures b == EMPTY <==> AtOrigin(qs)
    ensures !AtOrigin(qs) ==> Covers(Extend(box, MulBox(t, b)), ps + Place(Effective(t), qs))
  {
    if AtOrigin(qs) {
      assert qs[0] in qs;
    } else {
      var p :| p in qs && p != EMPTY.min;
      NotEmptyBox(b, qs, p);
      UsableIsExact(t, b, qs);
      ExtendCovers(box, ps, MulBox(t, b), Place(Effective(t), qs));
    }
  }

  // ---- When it is right ----

  /** On axis i, p lies between two of the points, or on one. */
  ghost predicate Flanked(p: Point, qs: seq<Point>, i: Axis) {
    (exists q <- qs :: At(q, i) <= At(p, i)) && exists q <- qs :: At(p, i) <= At(q, i)
  }

  ghost predicate Within(ps: seq<Point>, qs: seq<Point>, i: Axis) {
    forall p <- ps {:trigger Flanked(p, qs, i)} :: Flanked(p, qs, i)
  }

  ghost predicate SameExtent(ps: seq<Point>, qs: seq<Point>) {
    forall i: Axis :: Within(ps, qs, i) && Within(qs, ps, i)
  }

  ghost predicate Inside(b: Box, ps: seq<Point>, i: Axis) {
    forall p <- ps :: At(b.min, i) <= At(p, i) <= At(b.max, i)
  }

  ghost predicate Reaching(b: Box, ps: seq<Point>, i: Axis) {
    (exists p <- ps :: At(p, i) <= At(b.min, i)) && exists p <- ps :: At(b.max, i) <= At(p, i)
  }

  lemma WithinIsInside(b: Box, ps: seq<Point>, qs: seq<Point>, i: Axis)
    requires Inside(b, qs, i) && Reaching(b, qs, i)
    ensures Within(ps, qs, i) <==> Inside(b, ps, i)
  {
    var lo :| lo in qs && At(lo, i) <= At(b.min, i);
    var hi :| hi in qs && At(b.max, i) <= At(hi, i);
    forall p | p in ps ensures Flanked(p, qs, i) <==> At(b.min, i) <= At(p, i) <= At(b.max, i) {
    }
  }

  lemma WithinIsReaching(b: Box, ps: seq<Point>, qs: seq<Point>, i: Axis)
    requires Inside(b, qs, i) && Reaching(b, qs, i)
    ensures Within(qs, ps, i) <==> Reaching(b, ps, i)
  {
    var lo :| lo in qs && At(lo, i) <= At(b.min, i);
    var hi :| hi in qs && At(b.max, i) <= At(hi, i);
    if Reaching(b, ps, i) {
      var l :| l in ps && At(l, i) <= At(b.min, i);
      var h :| h in ps && At(b.max, i) <= At(h, i);
      forall q | q in qs ensures Flanked(q, ps, i) {
        assert At(l, i) <= At(q, i) <= At(h, i);
      }
    }
    if Within(qs, ps, i) {
      assert Flanked(lo, ps, i) && Flanked(hi, ps, i);
      var l :| l in ps && At(l, i) <= At(lo, i);
      var h :| h in ps && At(hi, i) <= At(h, i);
      assert At(l, i) <= At(b.min, i) && At(b.max, i) <= At(h, i);
    }
  }

  lemma TightBothWays(b: Box, ps: seq<Point>, i: Axis)
    ensures TightOn(b, ps, i) <==> Inside(b, ps, i) && Reaching(b, ps, i)
  {
  }

  lemma SameEnds(b: Box, ps: seq<Point>, qs: seq<Point>, i: Axis)
    requires TightOn(b, qs, i)
    ensures TightOn(b, ps, i) <==> Within(ps, qs, i) && Within(qs, ps, i)
  {
    TightBothWays(b, ps, i);
    TightBothWays(b, qs, i);
    WithinIsInside(b, ps, qs, i);
    WithinIsReaching(b, ps, qs, i);
  }

  lemma NoExtent(p: Point, ps: seq<Point>)
    requires p in ps
    ensures !SameExtent(ps, []) && !SameExtent([], ps)
  {
    assert !Flanked(p, [], 0);
    assert !Within(ps, [], 0);
  }

  /** Points that reach as far have the same box, and no others do. */
  lemma SameBox(b: Box, ps: seq<Point>, qs: seq<Point>)
    requires Covers(b, qs)
    ensures Covers(b, ps) <==> SameExtent(ps, qs)
  {
    if qs != [] && ps != [] {
      SameTight(b, ps, qs);
    } else if ps != [] {
      NoExtent(ps[0], ps);
    } else if qs != [] {
      NoExtent(qs[0], qs);
    }
  }

  lemma SameTight(b: Box, ps: seq<Point>, qs: seq<Point>)
    requires Tight(b, qs)
    ensures Tight(b, ps) <==> SameExtent(ps, qs)
  {
    SameEnds(b, ps, qs, 0);
    SameEnds(b, ps, qs, 1);
    SameEnds(b, ps, qs, 2);
  }

  /** The box is the tight one of all points below, or the empty box if there are none. */
  ghost predicate Right(box: Box, ps: seq<Point>) {
    if ps == [] then box == EMPTY else Tight(box, ps)
  }

  /** The empty box is that of a point at the origin. */
  function OrOrigin(ps: seq<Point>): (r: seq<Point>)
    ensures r != []
  {
    if ps == [] then [EMPTY.min] else ps
  }

  /**
   * The nested box of an object is the flat one, that of all vertices below it, each in its place, exactly when on
   * every axis those reach as far as the points kept. That is always so without parts.
   */
  lemma RightExactly(s: Scene, o: Object)
    requires Ok(s) && s.m.Has(o) && Plain(s, o)
    ensures Right(BoxOf(s, o), PointsOf(s, o))
      <==> !HasParts(o) || SameExtent(OrOrigin(PointsOf(s, o)), KeptBy(s, o))
  {
    BoxIsOfKept(s, o);
    var ps := PointsOf(s, o);
    if HasParts(o) {
      SameBox(BoxOf(s, o), OrOrigin(ps), KeptBy(s, o));
      assert OrOrigin([])[0] == EMPTY.min;
    }
  }

  /** Every part has points, and not all at the origin. */
  ghost predicate Sound(s: Scene, o: Object)
    requires Ok(s) && s.m.Has(o)
    decreases s.rank(o), 3
  {
    o.mesh.None? ==>
      (ComponentsBelow(s, o);
       (o.components != [] ==> Points(s, o.components) != []) && AllSound(s, o.components))
  }

  ghost predicate AllSound(s: Scene, cs: seq<Component>)
    requires Ok(s)
    decreases Highest(s, cs), 2, |cs|
  {
    cs != [] ==> AllSound(s, cs[..|cs| - 1]) && PartSound(s, cs[|cs| - 1])
  }

  ghost predicate PartSound(s: Scene, c: Component)
    requires Ok(s)
    decreases Height(s, c), 1
  {
    match Found(s, c)
    case None => true
    case Some(o) => Sound(s, o) && (PointsOf(s, o) == [] || !AtOrigin(PointsOf(s, o)))
  }

  /** Then every point is kept, and the box is right at every level. */
  lemma BoxIsTight(s: Scene, o: Object)
    requires Ok(s) && s.m.Has(o) && Plain(s, o) && Sound(s, o)
    ensures KeptBy(s, o) == PointsOf(s, o) && Right(BoxOf(s, o), PointsOf(s, o))
  {
    AllAreKept(s, o);
    BoxIsOfKept(s, o);
  }

  lemma {:induction false} AllAreKept(s: Scene, o: Object)
    requires Ok(s) && s.m.Has(o) && Sound(s, o)
    ensures KeptBy(s, o) == PointsOf(s, o)
    decreases s.rank(o), 3
  {
    if o.mesh.None? {
      ComponentsBelow(s, o);
      PartsAreKept(s, o.components);
    }
  }

  lemma {:induction false} PartsAreKept(s: Scene, cs: seq<Component>)
    requires Ok(s) && AllSound(s, cs)
    ensures Kept(s, cs) == Points(s, cs)
    decreases Highest(s, cs), 2, |cs|
  {
    if cs != [] {
      PartsAreKept(s, cs[..|cs| - 1]);
      PartIsKept(s, cs[|cs| - 1]);
    }
  }

  lemma {:induction false} PartIsKept(s: Scene, c: Component)
    requires Ok(s) && PartSound(s, c)
    ensures KeptOf(s, c) == Placed(s, c)
    decreases Height(s, c), 1
  {
    match Found(s, c) {
      case None =>
      case Some(o) => AllAreKept(s, o);
    }
  }

  // ---- Composed matrices ----

  /** Every vertex through one matrix, the product of all transforms above it. */
  ghost function Flat(s: Scene, o: Object, t: Matrix): seq<Point>
    requires Ok(s) && s.m.Has(o)
    decreases s.rank(o), 3
  {
    match o.mesh
    case Some(vs) => Place(t, vs)
    case None =>
      ComponentsBelow(s, o);
      FlatParts(s, o.components, t)
  }

  ghost function FlatParts(s: Scene, cs: seq<Component>, t: Matrix): seq<Point>
    requires Ok(s)
    decreases Highest(s, cs), 2, |cs|
  {
    if cs == [] then [] else FlatParts(s, cs[..|cs| - 1], t) + FlatPart(s, cs[|cs| - 1], t)
  }

  ghost function FlatPart(s: Scene, c: Component, t: Matrix): seq<Point>
    requires Ok(s)
    decreases Height(s, c), 1
  {
    match Found(s, c)
    case None => []
    case Some(o) => Flat(s, o, Mul(t, Effective(c.transform)))
  }

  lemma PlaceTwice(t: Matrix, u: Matrix, ps: seq<Point>)
    requires Affine(u)
    ensures Place(Mul(t, u), ps) == Place(t, Place(u, ps))
  {
    forall k | 0 <= k < |ps| ensures Mul3D(Mul(t, u), ps[k]) == Mul3D(t, Mul3D(u, ps[k])) {
      Mul3DMul(t, u, ps[k]);
    }
  }

  lemma PlaceAppend(t: Matrix, ps: seq<Point>, qs: seq<Point>)
    ensures Place(t, ps + qs) == Place(t, ps) + Place(t, qs)
  {
  }

  /** Transforms of points, all the way down. */
  ghost predicate Straight(s: Scene, o: Object)
    requires Ok(s) && s.m.Has(o)
    decreases s.rank(o), 3
  {
    o.mesh.None? ==>
      (ComponentsBelow(s, o);
       AllStraight(s, o.components))
  }

  ghost predicate AllStraight(s: Scene, cs: seq<Component>)
    requires Ok(s)
    decreases Highest(s, cs), 2, |cs|
  {
    cs != [] ==> AllStraight(s, cs[..|cs| - 1]) && PartStraight(s, cs[|cs| - 1])
  }

  ghost predicate PartStraight(s: Scene, c: Component)
    requires Ok(s)
    decreases Height(s, c), 1
  {
    match Found(s, c)
    case None => true
    case Some(o) => Affine(Effective(c.transform)) && Straight(s, o)
  }

  /** Pushing points up one transform at a time is pushing them through the composed matrix. */
  lemma {:induction false} FlatIsNested(s: Scene, o: Object, t: Matrix)
    requires Ok(s) && s.m.Has(o) && Straight(s, o)
    ensures Flat(s, o, t) == Place(t, PointsOf(s, o))
    decreases s.rank(o), 3
  {
    match o.mesh {
      case Some(vs) =>
      case None =>
        ComponentsBelow(s, o);
        FlatPartsNested(s, o.components, t);
    }
  }

  lemma {:induction false} FlatPartsNested(s: Scene, cs: seq<Component>, t: Matrix)
    requires Ok(s) && AllStraight(s, cs)
    ensures FlatParts(s, cs, t) == Place(t, Points(s, cs))
    decreases Highest(s, cs), 2, |cs|
  {
    if cs != [] {
      var n := |cs| - 1;
      FlatPartsNested(s, cs[..n], t);
      FlatPartNested(s, cs[n], t);
      PlaceAppend(t, Points(s, cs[..n]), Placed(s, cs[n]));
    }
  }

  lemma {:induction false} FlatPartNested(s: Scene, c: Component, t: Matrix)
    requires Ok(s) && PartStraight(s, c)
    ensures FlatPart(s, c, t) == Place(t, Placed(s, c))
    decreases Height(s, c), 1
  {
    match Found(s, c) {
      case None =>
      case Some(o) =>
        FlatIsNested(s, o, Mul(t, Effective(c.transform)));
        PlaceTwice(t, Effective(c.transform), PointsOf(s, o));
    }
  }

  /** On the same terms, the box of an object is that of its vertices through the composed matrices. */
  lemma NestedIsFlat(s: Scene, o: Object)
    requires Ok(s) && s.m.Has(o) && Plain(s, o) && Straight(s, o)
    ensures Right(BoxOf(s, o), Flat(s, o, IDENTITY))
      <==> !HasParts(o) || SameExtent(OrOrigin(Flat(s, o, IDENTITY)), KeptBy(s, o))
  {
    RightExactly(s, o);
    FlatIsNested(s, o, IDENTITY);
    PlaceIdentity(PointsOf(s, o));
  }

  /** So is the model's box that of all the build places; without any points it stays inside out. */
  lemma ModelNestedIsFlat(s: Scene)
    requires Ok(s) && s.m.items != [] && AllPlain(s, s.m.items) && AllStraight(s, s.m.items)
    ensures var ps := FlatParts(s, s.m.items, IDENTITY);
      Covers(ModelBox(s), ps) <==> SameExtent(ps, Kept(s, s.m.items))
  {
    KeptCovers(s, s.m.items);
    SameBox(ModelBox(s), Points(s, s.m.items), Kept(s, s.m.items));
    FlatPartsNested(s, s.m.items, IDENTITY);
    PlaceIdentity(Points(s, s.m.items));
  }

  // ---- Which part a missing path stands for ----

  ghost predicate RankedParts(m: Model, rank: Located -> nat) {
    forall x, y :: StepsTo(m, x, y) ==> rank(y) < rank(x)
  }

  /** The vertices below an object, with a component that has no path taken to mean the part it stands in. */
  ghost function TruePoints(m: Model, rank: Located -> nat, x: Located): seq<Point>
    requires RankedParts(m, rank)
    decreases rank(x), 1, 0
  {
    match x.obj.mesh
    case Some(vs) => vs
    case None => TrueParts(m, rank, x, |x.obj.components|)
  }

  ghost function TrueParts(m: Model, rank: Located -> nat, x: Located, n: nat): seq<Point>
    requires RankedParts(m, rank) && n <= |x.obj.components|
    decreases rank(x), 0, n
  {
    if n == 0 then []
    else
      var c := x.obj.components[n - 1];
      TrueParts(m, rank, x, n - 1) +
      match m.Find(c, x.part)
      case None => []
      case Some(o) =>
        assert StepsTo(m, x, Located(c.ObjectPath(x.part), o));
        Place(Effective(c.transform), TruePoints(m, rank, Located(c.ObjectPath(x.part), o)))
  }

  /** Components leave out the path only where it means the same as the root part, where the code looks. */
  ghost predicate AtRoot(m: Model, x: Located) {
    forall c <- x.obj.components :: c.path == "" ==> m.FindResources(x.part) == m.FindResources("")
  }

  ghost predicate RootedBelow(m: Model, x: Located) {
    forall walk :: walk != [] && walk[0] == x && Walk(m, walk) ==> AtRoot(m, walk[|walk| - 1])
  }

  lemma RootedStep(m: Model, x: Located, y: Located)
    requires RootedBelow(m, x)
    ensures AtRoot(m, x) && (StepsTo(m, x, y) ==> RootedBelow(m, y))
  {
    assert Walk(m, [x]) && AtRoot(m, [x][0]);
    if StepsTo(m, x, y) {
      forall walk | walk != [] && walk[0] == y && Walk(m, walk) ensures AtRoot(m, walk[|walk| - 1]) {
        var more := [x] + walk;
        assert more[1..] == walk && more[|more| - 1] == walk[|walk| - 1];
      }
    }
  }

  /** Then the code comes to the same vertices. */
  lemma {:induction false} SamePoints(s: Scene, rank: Located -> nat, x: Located)
    requires Ok(s) && s.path == "" && RankedParts(s.m, rank) && s.m.Has(x.obj) && RootedBelow(s.m, x)
    ensures PointsOf(s, x.obj) == TruePoints(s.m, rank, x)
    decreases rank(x), 1, 0
  {
    if x.obj.mesh.None? {
      var cs := x.obj.components;
      SameParts(s, rank, x, |cs|);
      assert cs[..|cs|] == cs;
    }
  }

  lemma {:induction false} SameParts(s: Scene, rank: Located -> nat, x: Located, n: nat)
    requires Ok(s) && s.path == "" && RankedParts(s.m, rank) && RootedBelow(s.m, x) && n <= |x.obj.components|
    ensures Points(s, x.obj.components[..n]) == TrueParts(s.m, rank, x, n)
    decreases rank(x), 0, n
  {
    if n > 0 {
      SameParts(s, rank, x, n - 1);
      LastPlaced(s, x.obj.components, n);
      SamePlaced(s, rank, x, x.obj.components[n - 1]);
    }
  }

  lemma LastPlaced(s: Scene, cs: seq<Component>, n: nat)
    requires Ok(s) && 0 < n <= |cs|
    ensures cs[n - 1] in cs && Points(s, cs[..n]) == Points(s, cs[..n - 1]) + Placed(s, cs[n - 1])
  {
    assert cs[..n][..n - 1] == cs[..n - 1];
  }

  lemma {:induction false} SamePlaced(s: Scene, rank: Located -> nat, x: Located, c: Component)
    requires Ok(s) && s.path == "" && RankedParts(s.m, rank) && RootedBelow(s.m, x) && c in x.obj.components
    ensures Placed(s, c)
         == match s.m.Find(c, x.part)
            case None => []
            case Some(o) => Place(Effective(c.transform), TruePoints(s.m, rank, Located(c.ObjectPath(x.part), o)))
    decreases rank(x), 0, 0
  {
    FoundAtRoot(s, x, c);
    if Found(s, c).Some? {
      SamePoints(s, rank, Located(c.ObjectPath(x.part), Found(s, c).value));
    }
  }

  lemma FoundAtRoot(s: Scene, x: Located, c: Component)
    requires Ok(s) && s.path == "" && RootedBelow(s.m, x) && c in x.obj.components
    ensures s.m.Find(c, x.part) == Found(s, c)
    ensures Found(s, c).Some? ==>
              var y := Located(c.ObjectPath(x.part), Found(s, c).value);
              StepsTo(s.m, x, y) && RootedBelow(s.m, y)
  {
    RootedStep(s.m, x, x);
    assert s.m.Find(c, x.part) == s.m.Find(c, "");
    if Found(s, c).Some? {
      RootedStep(s.m, x, Located(c.ObjectPath(x.part), Found(s, c).value));
    }
  }

  /**
   * Whatever paths are missing: the box of an object is that of what is really below it exactly when on every axis that
   * reaches as far as the points kept.
   */
  lemma TrulyRightExactly(s: Scene, rank: Located -> nat, x: Located)
    requires Ok(s) && RankedParts(s.m, rank) && s.m.Has(x.obj) && Plain(s, x.obj)
    ensures Right(BoxOf(s, x.obj), TruePoints(s.m, rank, x))
       <==> !HasParts(x.obj) || SameExtent(OrOrigin(TruePoints(s.m, rank, x)), KeptBy(s, x.obj))
  {
    BoxIsOfKept(s, x.obj);
    var ps := TruePoints(s.m, rank, x);
    if HasParts(x.obj) {
      SameBox(BoxOf(s, x.obj), OrOrigin(ps), KeptBy(s, x.obj));
      assert OrOrigin([])[0] == EMPTY.min;
    }
  }

  /** The build, as an object of the root part made of its items. */
  function Build(m: Model): Located {
    Located("", Object(0, None, m.items))
  }

  /** The same of the box of the build. */
  lemma ModelTrulyRightExactly(s: Scene, rank: Located -> nat)
    requires Ok(s) && RankedParts(s.m, rank) && s.m.items != [] && AllPlain(s, s.m.items)
    ensures var ps := TruePoints(s.m, rank, Build(s.m));
      Covers(ModelBox(s), ps) <==> SameExtent(ps, Kept(s, s.m.items))
  {
    KeptCovers(s, s.m.items);
    SameBox(ModelBox(s), TruePoints(s.m, rank, Build(s.m)), Kept(s, s.m.items));
  }

  /** Where the build leaves out the path only where it means the root part, the code comes to what is really built. */
  lemma SameBuildPoints(s: Scene, rank: Located -> nat)
    requires Ok(s) && s.path == "" && RankedParts(s.m, rank) && RootedBelow(s.m, Build(s.m))
    ensures Points(s, s.m.items) == TruePoints(s.m, rank, Build(s.m))
  {
    SameParts(s, rank, Build(s.m), |s.m.items|);
    assert s.m.items[..|s.m.items|] == s.m.items;
  }

  lemma BoxOfOne(s: Scene, o: Object, c: Component, v: Point)
    requires Ok(s) && s.m.Has(o) && o.mesh == None && o.components == [c] && c.transform == IDENTITY
    requires Found(s, c).Some? && Found(s, c).value.mesh == Some([v]) && InRange(v) && v != EMPTY.min
    ensures BoxOf(s, o) == Box(v, v)
  {
    OneVertex(v);
    assert [c] == [] + [c] && BoxOf(s, Found(s, c).value) == Box(v, v);
    JoinedSnoc(s, [], c);
  }

  /**
   * Where an object of another part has a component without a path, the code looks for it in the root part: object 2 of
   * "/a" is made of object 1 of "/a", at w, and gets the box of object 1 of the root, at v.
   */
  lemma PartsAreMixedUp(v: Point, w: Point)
    requires InRange(v) && v != EMPTY.min && v != w
    ensures var here, there := Object(1, Some([v]), []), Object(1, Some([w]), []);
            var o := Object(2, None, [Component("", 1, IDENTITY)]);
            var m := Model("", [here], map["/a" := [there, o]], [Component("/a", 2, IDENTITY)]);
            var s := Scene(m, "", (p: Object) => if p == o then 1 else 0);
            var rank := (x: Located) => if x.obj.components == [] then 0 else if x.obj == o then 1 else 2;
            && Ok(s) && s.m.Has(o) && m.Find(m.items[0], "") == Some(o) && RankedParts(m, rank)
            && TruePoints(m, rank, Located("/a", o)) == [w] && BoxOf(s, o) == Box(v, v)
            && !Right(BoxOf(s, o), TruePoints(m, rank, Located("/a", o)))
  {
    var c := Component("", 1, IDENTITY);
    var here, there, o := Object(1, Some([v]), []), Object(1, Some([w]), []), Object(2, None, [c]);
    var m := Model("", [here], map["/a" := [there, o]], [Component("/a", 2, IDENTITY)]);
    var s := Scene(m, "", (p: Object) => if p == o then 1 else 0);
    assert [there, o][1..] == [o];
    assert First([o], 2) == Some(o);
    assert m.Find(c, "") == Some(here) && m.Find(c, "/a") == Some(there);
    BoxOfOne(s, o, c, v);
    PlaceIdentity([w]);
    var rank := (x: Located) => if x.obj.components == [] then 0 else if x.obj == o then 1 else 2;
    StepsDown(m, here, there, o, rank);
    assert TruePoints(m, rank, Located("/a", there)) == [w];
    assert TrueParts(m, rank, Located("/a", o), 0) == [];
    assert TrueParts(m, rank, Located("/a", o), 1) == [] + Place(IDENTITY, [w]);
    NotElsewhere(v, w);
  }

  lemma StepsDown(m: Model, here: Object, there: Object, o: Object, rank: Located -> nat)
    requires m == Model("", [here], map["/a" := [there, o]], m.items) && here.components == there.components == []
    requires o.components == [Component("", 1, IDENTITY)] && here.id == there.id == 1 && o.id == 2
    requires forall x: Located :: rank(x) == if x.obj.components == [] then 0 else if x.obj == o then 1 else 2
    ensures RankedParts(m, rank)
  {
    forall x, y | StepsTo(m, x, y) ensures rank(y) < rank(x) {
      var c :| c in x.obj.components && c.ObjectPath(x.part) == y.part && m.Find(c, x.part) == Some(y.obj);
      FoundIsThere(m, c.ObjectPath(x.part), c.id);
    }
  }

  lemma NotElsewhere(v: Point, w: Point)
    requires v != w
    ensures !Right(Box(v, v), [w])
  {
    assert w in [w];
  }

  /** A part whose points are all at the origin is lost, wherever its component puts it. */
  lemma OriginIsLost(move: Matrix)
    requires move == IDENTITY.(r3 := Row(5.0, 0.0, 0.0, 1.0))
    ensures var dot := Object(1, Some([Point(0.0, 0.0, 0.0)]), []);
            var o := Object(2, None, [Component("", 1, move)]);
            var s := Scene(Model("", [dot, o], map[], []), "", (p: Object) => if p == o then 1 else 0);
            Ok(s) && s.m.Has(o) && PointsOf(s, o) == [Point(5.0, 0.0, 0.0)] && BoxOf(s, o) == LIMIT
  {
    var dot := Object(1, Some([Point(0.0, 0.0, 0.0)]), []);
    var c := Component("", 1, move);
    var o := Object(2, None, [c]);
    var m := Model("", [dot, o], map[], []);
    var s := Scene(m, "", (p: Object) => if p == o then 1 else 0);
    assert m.Find(c, "") == Some(dot);
    assert Found(s, c) == Some(dot);
    var vs := dot.mesh.value;
    assert GrowPoints(vs[..0]) == LIMIT;
    assert BoxOf(s, dot) == EMPTY;
    assert o.components[..0] == [];
    assert Boxes(s, o.components) == BoxesOf(s, c) == [];
    assert Points(s, o.components) == Placed(s, c) == Place(move, vs);
  }

  /** What is found below a component whose object is not there: nothing, but the box is inside out. */
  lemma NothingFound(s: Scene, o: Object, c: Component)
    requires Ok(s) && s.m.Has(o) && o.mesh == None && o.components == [c] && Found(s, c) == None
    ensures PointsOf(s, o) == [] && BoxOf(s, o) == LIMIT
  {
    assert o.components[..0] == [];
    assert Boxes(s, [c]) == [];
    assert Points(s, [c]) == [];
  }

  /** A part with one vertex and one that is hollow, both placed by the identity. */
  lemma SpreadByIdentity(s: Scene, c: Component, d: Component, v: Point)
    requires Ok(s) && Found(s, c).Some? && Found(s, d).Some? && c.transform == d.transform == IDENTITY
    requires Found(s, c).value.mesh == Some([v]) && InRange(v) && v != EMPTY.min
    requires var o := Found(s, d).value; o.components != [] && PointsOf(s, o) == [] && BoxOf(s, o) == LIMIT
    ensures Joined(s, [c, d]) == Box(Point(-MAX, -MAX, -MAX), Point(MAX, MAX, MAX))
  {
    OneVertex(v);
    assert BoxOf(s, Found(s, c).value) == Box(v, v);
    assert [c, d] == [c] + [d] && [c] == [] + [c];
    JoinedSnoc(s, [], c);
    JoinedSnoc(s, [c], d);
    assert Joined(s, [c]) == Box(v, v);
  }

  lemma PointsOfPair(s: Scene, c: Component, d: Component, v: Point)
    requires Ok(s) && Found(s, c).Some? && Found(s, d).Some? && c.transform == d.transform == IDENTITY
    requires Found(s, c).value.mesh == Some([v]) && PointsOf(s, Found(s, d).value) == []
    ensures Points(s, [c, d]) == [v]
  {
    PlaceIdentity([v]);
    assert [c, d][..1] == [c] && [c][..0] == [];
    assert Points(s, [c]) == Placed(s, c) == [v];
    assert Placed(s, d) == [];
  }

  lemma OneVertex(v: Point)
    requires InRange(v)
    ensures MeshBox([v]) == Box(v, v)
  {
    assert [v][..0] == [] && GrowPoints([]) == LIMIT;
    assert GrowPoints([v]) == ExtendPoint(LIMIT, v);
  }

  lemma FirstOfThree(x: Object, y: Object, z: Object, id: U32)
    ensures First([x, y, z], id)
      == if x.id == id then Some(x) else if y.id == id then Some(y) else if z.id == id then Some(z) else None
  {
    assert [x, y, z][1..] == [y, z] && [y, z][1..] == [z] && [z][1..] == [];
    assert First([], id) == None;
    assert First([y, z], id) == if y.id == id then Some(y) else First([z], id);
  }

  /**
   * A part that has components but no points, placed by the identity: the box of the object is the whole range on every
   * axis, although the one vertex below it is at (1, 1, 1).
   */
  lemma HollowSpreads()
    ensures var dot, hollow := Object(1, Some([Point(1.0, 1.0, 1.0)]), []), Object(2, None, [Component("", 9, ZERO)]);
      var o := Object(3, None, [Component("", 1, IDENTITY), Component("", 2, IDENTITY)]);
      var s := Scene(Model("", [dot, hollow, o], map[], []), "", (p: Object) => if p == o then 1 else 0);
      Ok(s) && s.m.Has(o) && PointsOf(s, o) == [Point(1.0, 1.0, 1.0)]
      && BoxOf(s, o) == Box(Point(-MAX, -MAX, -MAX), Point(MAX, MAX, MAX))
  {
    var v := Point(1.0, 1.0, 1.0);
    var gone, c, d := Component("", 9, ZERO), Component("", 1, IDENTITY), Component("", 2, IDENTITY);
    var dot, hollow, o := Object(1, Some([v]), []), Object(2, None, [gone]), Object(3, None, [c, d]);
    var m := Model("", [dot, hollow, o], map[], []);
    var s := Scene(m, "", (p: Object) => if p == o then 1 else 0);
    FirstOfThree(dot, hollow, o, 9);
    FirstOfThree(dot, hollow, o, 1);
    FirstOfThree(dot, hollow, o, 2);
    assert m.Find(gone, "") == None && m.Find(c, "") == Some(dot) && m.Find(d, "") == Some(hollow);
    NothingFound(s, hollow, gone);
    SpreadByIdentity(s, c, d, v);
    PointsOfPair(s, c, d, v);
  }
}
