/** The slice extension's validator: slice stacks, and stacks that refer to stacks in other parts. */
module Slices {
  import opened Coherency

  /** -math.MaxFloat32: no ztop counts as above it before the first slice. */
  const LOWEST := -340282346638528859811704183484516925440.0

  /** Its 24 bits are all ones, with 104 zeros behind them. */
  lemma LowestFloat()
    ensures LOWEST == -(16777215.0 * 4503599627370496.0 * 4503599627370496.0)
  {
  }

  /** A polygon and the end vertex of each of its segments. */
  datatype Polygon = Polygon(startV: U32, ends: seq<U32>)

  datatype Slice = Slice(topZ: real, vertices: nat, polygons: seq<Polygon>)

  datatype Ref = Ref(path: string, id: U32)

  datatype SliceStack = SliceStack(bottomZ: real, slices: seq<Slice>, refs: seq<Ref>)

  /** What FindAsset finds: nothing, an asset of another kind, or a slice stack. */
  datatype Found = Missing | OtherAsset | Stack(st: SliceStack)

  type Assets = (string, U32) -> Found

  datatype Fault =
    | MissingTop(j: nat)
    | SmallTop(j: nat)
    | NoMonotonic(j: nat)
    | FewVertices(j: nat)
    | NoPolygons(j: nat)
    | NoSegments(j: nat, polygons: seq<nat>)
    | MissingPath(j: nat)
    | SamePart(j: nat)
    | MissingID(j: nat)
    | RefRef(j: nat)
    | NotAStack(j: nat)
    | MissingResource(j: nat)

  // ---- One stack ----

  function Flatten(parts: seq<seq<Fault>>): seq<Fault> {
    if parts == [] then [] else Flatten(parts[..|parts| - 1]) + parts[|parts| - 1]
  }

  lemma FlattenNext(parts: seq<seq<Fault>>, i: nat)
    requires i < |parts|
    ensures Flatten(parts[..i + 1]) == Flatten(parts[..i]) + parts[i]
  {
    assert parts[..i + 1][..i] == parts[..i];
  }

  lemma {:induction false} FlattenEmpty(parts: seq<seq<Fault>>)
    ensures Flatten(parts) == [] <==> forall i :: 0 <= i < |parts| ==> parts[i] == []
  {
    if parts != [] {
      FlattenEmpty(parts[..|parts| - 1]);
    }
  }

  /** Appends a fault where a check fails. */
  function When(errs: seq<Fault>, c: bool, f: Fault): (r: seq<Fault>)
    ensures r == [] <==> errs == [] && !c
  {
    if c then errs + [f] else errs
  }

  /** The polygons without segments, below the k-th. */
  function EmptyPolygons(ps: seq<Polygon>, k: nat): seq<nat>
    requires k <= |ps|
  {
    if k == 0 then [] else EmptyPolygons(ps, k - 1) + if ps[k - 1].ends == [] then [k - 1] else []
  }

  /** What is wrong with slice j, which comes after a slice with the given ztop. */
  function FaultsAt(s: Slice, j: nat, bottomZ: real, last: real): seq<Fault> {
    var e := When([], s.topZ == 0.0, MissingTop(j));
    var e := When(e, s.topZ != 0.0 && s.topZ < bottomZ, SmallTop(j));
    var e := When(e, s.topZ <= last, NoMonotonic(j));
    if |s.polygons| == 0 && s.vertices == 0 then e
    else
      var empty := EmptyPolygons(s.polygons, |s.polygons|);
      When(When(When(e, s.vertices < 2, FewVertices(j)), |s.polygons| == 0, NoPolygons(j)), empty != [],
          NoSegments(j, empty))
  }

  /** The ztop that slice j has to exceed. */
  function Before(slices: seq<Slice>, j: nat): real
    requires j <= |slices|
  {
    if j == 0 then LOWEST else slices[j - 1].topZ
  }

  function Reports(r: SliceStack): seq<seq<Fault>> {
    seq(|r.slices|, j requires 0 <= j < |r.slices| => FaultsAt(r.slices[j], j, r.bottomZ, Before(r.slices, j)))
  }

  /** All that is wrong with the slices of a stack, in order. */
  function SliceFaults(r: SliceStack): seq<Fault> {
    Flatten(Reports(r))
  }

  method ValidateSlices(r: SliceStack) returns (errs: seq<Fault>)
    ensures errs == SliceFaults(r)
  {
    errs := [];
    var lastTopZ := LOWEST;
    ghost var reports := Reports(r);
    for j := 0 to |r.slices|
      invariant errs == Flatten(reports[..j]) && lastTopZ == Before(r.slices, j)
    {
      var e := ValidateSlice(r.slices[j], j, r.bottomZ, lastTopZ);
      FlattenNext(reports, j);
      errs := errs + e;
      lastTopZ := r.slices[j].topZ;
    }
    assert reports[..|reports|] == reports;
  }

  method FindEmptyPolygons(ps: seq<Polygon>) returns (perrs: seq<nat>)
    ensures perrs == EmptyPolygons(ps, |ps|)
  {
    perrs := [];
    for k := 0 to |ps|
      invariant perrs == EmptyPolygons(ps, k)
    {
      if |ps[k].ends| < 1 {
        perrs := perrs + [k];
      }
    }
  }

  /** The body of the slice loop. A slice without any content is complete. */
  method ValidateSlice(s: Slice, j: nat, bottomZ: real, lastTopZ: real) returns (errs: seq<Fault>)
    ensures errs == FaultsAt(s, j, bottomZ, lastTopZ)
  {
    errs := [];
    if s.topZ == 0.0 {
      errs := errs + [MissingTop(j)];
    } else if s.topZ < bottomZ {
      errs := errs + [SmallTop(j)];
    }
    if s.topZ <= lastTopZ {
      errs := errs + [NoMonotonic(j)];
    }
    if |s.polygons| == 0 && s.vertices == 0 { return; }
    if s.vertices < 2 {
      errs := errs + [FewVertices(j)];
    }
    if |s.polygons| == 0 {
      errs := errs + [NoPolygons(j)];
    }
    var perrs := FindEmptyPolygons(s.polygons);
    if perrs != [] {
      errs := errs + [NoSegments(j, perrs)];
    }
  }

  /** Slices that rise strictly. */
  predicate Rising(slices: seq<Slice>) {
    forall i, j :: 0 <= i < j < |slices| ==> slices[i].topZ < slices[j].topZ
  }

  predicate SliceOk(s: Slice, bottomZ: real) {
    && s.topZ != 0.0 && bottomZ <= s.topZ && LOWEST < s.topZ
    && (s.polygons == [] ==> s.vertices == 0) && (s.polygons != [] ==> 2 <= s.vertices)
    && forall p <- s.polygons :: p.ends != []
  }

  predicate StackOk(r: SliceStack) {
    Rising(r.slices) && forall s <- r.slices :: SliceOk(s, r.bottomZ)
  }

  lemma {:induction false} NoEmptyPolygons(ps: seq<Polygon>, k: nat)
    requires k <= |ps|
    ensures EmptyPolygons(ps, k) == [] <==> forall i :: 0 <= i < k ==> ps[i].ends != []
  {
    if k > 0 {
      NoEmptyPolygons(ps, k - 1);
    }
  }

  lemma NoFaultsAt(s: Slice, j: nat, bottomZ: real, last: real)
    ensures LOWEST <= last ==> (FaultsAt(s, j, bottomZ, last) == [] <==> SliceOk(s, bottomZ) && last < s.topZ)
    ensures FaultsAt(s, j, bottomZ, last) == [] ==> last < s.topZ
  {
    NoEmptyPolygons(s.polygons, |s.polygons|);
  }

  /** Each slice above the one before it, the first above the lowest ztop. */
  predicate StepsUp(slices: seq<Slice>) {
    forall j :: 0 <= j < |slices| ==> Before(slices, j) < slices[j].topZ
  }

  lemma {:induction false} StepsRise(slices: seq<Slice>, i: nat, j: nat)
    requires StepsUp(slices) && i <= j < |slices|
    ensures LOWEST < slices[i].topZ <= slices[j].topZ && (i < j ==> slices[i].topZ < slices[j].topZ)
    decreases i + j
  {
    if i < j {
      StepsRise(slices, i, j - 1);
      assert Before(slices, j) < slices[j].topZ;
    } else if i > 0 {
      StepsRise(slices, i - 1, i - 1);
      assert Before(slices, i) < slices[i].topZ;
    } else {
      assert Before(slices, 0) < slices[0].topZ;
    }
  }

  /**
   * validateSlices reports nothing exactly for stacks that rise strictly and whose slices are complete and above the
   * bottom.
   */
  lemma ValidateSlicesExactly(r: SliceStack)
    ensures SliceFaults(r) == [] <==> StackOk(r)
  {
    var slices, reports := r.slices, Reports(r);
    FlattenEmpty(reports);
    forall j | 0 <= j < |slices|
      ensures StackOk(r) ==> reports[j] == []
      ensures reports[j] == [] ==> Before(slices, j) < slices[j].topZ
    {
      NoFaultsAt(slices[j], j, r.bottomZ, Before(slices, j));
      if StackOk(r) && j > 0 {
        assert SliceOk(slices[j - 1], r.bottomZ);
      }
    }
    if SliceFaults(r) == [] {
      assert StepsUp(slices);
      forall j | 0 <= j < |slices| ensures SliceOk(slices[j], r.bottomZ) {
        if j > 0 {
          StepsRise(slices, j - 1, j - 1);
        }
        NoFaultsAt(slices[j], j, r.bottomZ, Before(slices, j));
        assert reports[j] == [];
      }
      forall i, j | 0 <= i < j < |slices| ensures slices[i].topZ < slices[j].topZ {
        StepsRise(slices, i, j);
      }
    }
  }

  // ---- Which faults ----

  lemma {:induction false} FlattenIn(parts: seq<seq<Fault>>, f: Fault)
    ensures f in Flatten(parts) <==> exists i :: 0 <= i < |parts| && f in parts[i]
  {
    if parts != [] {
      var n := |parts| - 1;
      FlattenIn(parts[..n], f);
      if f in Flatten(parts[..n]) {
        var i :| 0 <= i < n && f in parts[..n][i];
        assert f in parts[i];
      }
      if i: nat :| i < |parts| && f in parts[i] {
        assert i < n ==> f in parts[..n][i];
      }
    }
  }

  predicate Climbing(ks: seq<nat>) {
    forall i, j :: 0 <= i < j < |ks| ==> ks[i] < ks[j]
  }

  predicate IsEmpty(ps: seq<Polygon>, k: nat) {
    k < |ps| && ps[k].ends == []
  }

  /** ks are the polygons without segments, in order. */
  ghost predicate ListsEmpty(ps: seq<Polygon>, ks: seq<nat>) {
    Climbing(ks) && forall k: nat :: k in ks <==> IsEmpty(ps, k)
  }

  lemma {:induction false} EmptyAre(ps: seq<Polygon>, n: nat)
    requires n <= |ps|
    ensures Climbing(EmptyPolygons(ps, n)) && forall k: nat :: k in EmptyPolygons(ps, n) <==> k < n && IsEmpty(ps, k)
  {
    if n > 0 {
      EmptyAre(ps, n - 1);
      ClimbOn(EmptyPolygons(ps, n - 1), n - 1);
    }
  }

  lemma ClimbOn(ks: seq<nat>, x: nat)
    requires Climbing(ks) && forall k <- ks :: k < x
    ensures Climbing(ks + [x])
  {
    forall i, j | 0 <= i < j < |ks| + 1 ensures (ks + [x])[i] < (ks + [x])[j] {
      assert ks[i] in ks && (ks + [x])[i] == ks[i];
    }
  }

  lemma HasFirst(ks: seq<nat>)
    ensures ks == [] || ks[0] in ks
  {
  }

  lemma {:induction false} ClimbingUnique(a: seq<nat>, b: seq<nat>)
    requires Climbing(a) && Climbing(b) && forall x :: x in a <==> x in b
    ensures a == b
    decreases |a|
  {
    HasFirst(a);
    HasFirst(b);
    if a != [] && b != [] {
      FirstIsLeast(a);
      FirstIsLeast(b);
      forall x ensures x in a[1..] <==> x in b[1..] {
        RestWithout(a, x);
        RestWithout(b, x);
      }
      ClimbingUnique(a[1..], b[1..]);
      assert a == [a[0]] + a[1..] && b == [b[0]] + b[1..];
    }
  }

  lemma FirstIsLeast(ks: seq<nat>)
    requires Climbing(ks) && ks != []
    ensures forall x <- ks :: ks[0] <= x
  {
  }

  lemma RestWithout(ks: seq<nat>, x: nat)
    requires Climbing(ks) && ks != []
    ensures x in ks[1..] <==> x in ks && x != ks[0]
  {
    if x in ks && x != ks[0] {
      var i :| 0 <= i < |ks| && ks[i] == x;
      assert ks[1..][i - 1] == x;
    }
  }

  /** When a fault is to be reported of slice j, kind by kind. */
  ghost predicate AtSlice(s: Slice, j: nat, bottomZ: real, last: real, f: Fault) {
    || (f == MissingTop(j) && s.topZ == 0.0)
    || (f == SmallTop(j) && s.topZ != 0.0 && s.topZ < bottomZ)
    || (f == NoMonotonic(j) && s.topZ <= last)
    || (f == FewVertices(j) && s.vertices < 2 && (s.vertices > 0 || s.polygons != []))
    || (f == NoPolygons(j) && s.vertices > 0 && s.polygons == [])
    || (f.NoSegments? && f.j == j && f.polygons != [] && ListsEmpty(s.polygons, f.polygons))
  }

  lemma InWhen(errs: seq<Fault>, c: bool, g: Fault, f: Fault)
    ensures f in When(errs, c, g) <==> f in errs || (c && f == g)
  {
  }

  lemma SegmentsAre(ps: seq<Polygon>, j: nat, f: Fault)
    ensures var empty := EmptyPolygons(ps, |ps|);
            empty != [] && f == NoSegments(j, empty) <==>
              f.NoSegments? && f.j == j && f.polygons != [] && ListsEmpty(ps, f.polygons)
  {
    var empty := EmptyPolygons(ps, |ps|);
    EmptyAre(ps, |ps|);
    assert ListsEmpty(ps, empty);
    if f.NoSegments? && ListsEmpty(ps, f.polygons) {
      ClimbingUnique(f.polygons, empty);
    }
  }

  lemma NoneEmpty(f: Fault, j: nat)
    ensures !(f.NoSegments? && f.polygons != [] && ListsEmpty([], f.polygons))
  {
    if f.NoSegments? && f.polygons != [] {
      assert f.polygons[0] in f.polygons && !IsEmpty([], f.polygons[0]);
    }
  }

  lemma FaultsAtAre(s: Slice, j: nat, bottomZ: real, last: real, f: Fault)
    ensures f in FaultsAt(s, j, bottomZ, last) <==> AtSlice(s, j, bottomZ, last, f)
  {
    var e1 := When([], s.topZ == 0.0, MissingTop(j));
    var e2 := When(e1, s.topZ != 0.0 && s.topZ < bottomZ, SmallTop(j));
    var e3 := When(e2, s.topZ <= last, NoMonotonic(j));
    InWhen([], s.topZ == 0.0, MissingTop(j), f);
    InWhen(e1, s.topZ != 0.0 && s.topZ < bottomZ, SmallTop(j), f);
    InWhen(e2, s.topZ <= last, NoMonotonic(j), f);
    if |s.polygons| == 0 && s.vertices == 0 {
      NoneEmpty(f, j);
    } else {
      var empty := EmptyPolygons(s.polygons, |s.polygons|);
      var e4 := When(e3, s.vertices < 2, FewVertices(j));
      var e5 := When(e4, |s.polygons| == 0, NoPolygons(j));
      InWhen(e3, s.vertices < 2, FewVertices(j), f);
      InWhen(e4, |s.polygons| == 0, NoPolygons(j), f);
      InWhen(e5, empty != [], NoSegments(j, empty), f);
      SegmentsAre(s.polygons, j, f);
    }
  }

  /** Exactly those faults are reported, of each slice after the one before it. */
  lemma SliceFaultsAre(r: SliceStack, f: Fault)
    ensures f in SliceFaults(r) <==>
              f.j < |r.slices| && AtSlice(r.slices[f.j], f.j, r.bottomZ, Before(r.slices, f.j), f)
  {
    var reports := Reports(r);
    FlattenIn(reports, f);
    forall j | 0 <= j < |reports|
      ensures f in reports[j] <==> AtSlice(r.slices[j], j, r.bottomZ, Before(r.slices, j), f)
    {
      FaultsAtAre(r.slices[j], j, r.bottomZ, Before(r.slices, j), f);
    }
  }

  // ---- References ----

  /** A reference that is worth following. */
  predicate Followed(ref: Ref, path: string) {
    ref.path != "" && ref.path != path && ref.id != 0
  }

  function RefFaultsAt(find: Assets, ref: Ref, i: nat, path: string, last: real): seq<Fault> {
    if !Followed(ref, path) then
      When(When(When([], ref.path == "", MissingPath(i)), ref.path != "" && ref.path == path, SamePart(i)), ref.id == 0,
          MissingID(i))
    else match find(ref.path, ref.id)
      case Missing => [MissingResource(i)]
      case OtherAsset => [NotAStack(i)]
      case Stack(st) =>
          When(When([], st.refs != [], RefRef(i)), st.slices != [] && st.slices[0].topZ <= last, NoMonotonic(i))
  }

  /** The ztop to exceed after a reference: that of the last slice of its stack, if there is one. */
  function TopAfter(find: Assets, ref: Ref, path: string, last: real): real {
    if !Followed(ref, path) then last
    else match find(ref.path, ref.id)
      case Stack(st) => if st.slices == [] then last else st.slices[|st.slices| - 1].topZ
      case _ => last
  }

  /** The ztop that the i-th reference has to exceed. */
  function LastTop(find: Assets, refs: seq<Ref>, path: string, i: nat): real
    requires i <= |refs|
  {
    if i == 0 then LOWEST else TopAfter(find, refs[i - 1], path, LastTop(find, refs, path, i - 1))
  }

  function RefReports(find: Assets, refs: seq<Ref>, path: string): seq<seq<Fault>> {
    seq(|refs|, i requires 0 <= i < |refs| => RefFaultsAt(find, refs[i], i, path, LastTop(find, refs, path, i)))
  }

  function RefFaults(find: Assets, refs: seq<Ref>, path: string): seq<Fault> {
    Flatten(RefReports(find, refs, path))
  }

  /** When a fault is to be reported of reference i, kind by kind. */
  ghost predicate AtRef(find: Assets, ref: Ref, i: nat, path: string, last: real, f: Fault) {
    var found := find(ref.path, ref.id);
    || (f == MissingPath(i) && ref.path == "")
    || (f == SamePart(i) && ref.path != "" && ref.path == path)
    || (f == MissingID(i) && ref.id == 0)
    || (Followed(ref, path) &&
        ((f == MissingResource(i) && found == Missing)
        || (f == NotAStack(i) && found == OtherAsset)
        || (f == RefRef(i) && found.Stack? && found.st.refs != [])
        || (f == NoMonotonic(i) && found.Stack? && found.st.slices != [] && found.st.slices[0].topZ <= last)))
  }

  lemma RefFaultsAtAre(find: Assets, ref: Ref, i: nat, path: string, last: real, f: Fault)
    ensures f in RefFaultsAt(find, ref, i, path, last) <==> AtRef(find, ref, i, path, last, f)
  {
    if !Followed(ref, path) {
      var e1 := When([], ref.path == "", MissingPath(i));
      var e2 := When(e1, ref.path != "" && ref.path == path, SamePart(i));
      InWhen([], ref.path == "", MissingPath(i), f);
      InWhen(e1, ref.path != "" && ref.path == path, SamePart(i), f);
      InWhen(e2, ref.id == 0, MissingID(i), f);
    } else if find(ref.path, ref.id).Stack? {
      var st := find(ref.path, ref.id).st;
      InWhen([], st.refs != [], RefRef(i), f);
      InWhen(When([], st.refs != [], RefRef(i)), st.slices != [] && st.slices[0].topZ <= last, NoMonotonic(i), f);
    }
  }

  /** Exactly those faults are reported, of each reference after the slices of those before it. */
  lemma RefFaultsAre(find: Assets, refs: seq<Ref>, path: string, f: Fault)
    ensures f in RefFaults(find, refs, path) <==>
              f.j < |refs| && AtRef(find, refs[f.j], f.j, path, LastTop(find, refs, path, f.j), f)
  {
    var reports := RefReports(find, refs, path);
    FlattenIn(reports, f);
    forall i | 0 <= i < |reports|
      ensures f in reports[i] <==> AtRef(find, refs[i], i, path, LastTop(find, refs, path, i), f)
    {
      RefFaultsAtAre(find, refs[i], i, path, LastTop(find, refs, path, i), f);
    }
  }

  method ValidateRefs(find: Assets, r: SliceStack, path: string) returns (errs: seq<Fault>)
    ensures errs == RefFaults(find, r.refs, path)
  {
    errs := [];
    var lastTopZ := LOWEST;
    ghost var reports := RefReports(find, r.refs, path);
    for i := 0 to |r.refs|
      invariant errs == Flatten(reports[..i]) && lastTopZ == LastTop(find, r.refs, path, i)
    {
      var e, top := ValidateRef(find, r.refs[i], i, path, lastTopZ);
      FlattenNext(reports, i);
      errs := errs + e;
      lastTopZ := top;
    }
    assert reports[..|reports|] == reports;
  }

  /** The body of the reference loop: it stops early for a reference that cannot be followed. */
  method ValidateRef(find: Assets, ref: Ref, i: nat, path: string, lastTopZ: real) returns (errs: seq<Fault>, top: real)
    ensures errs == RefFaultsAt(find, ref, i, path, lastTopZ)
    ensures top == TopAfter(find, ref, path, lastTopZ)
  {
    var valid := true;
    errs, top := [], lastTopZ;
    if ref.path == "" {
      valid, errs := false, errs + [MissingPath(i)];
    } else if ref.path == path {
      valid, errs := false, errs + [SamePart(i)];
    }
    if ref.id == 0 {
      valid, errs := false, errs + [MissingID(i)];
    }
    if !valid { return; }
    match find(ref.path, ref.id) {
      case Missing => errs := errs + [MissingResource(i)];
      case OtherAsset => errs := errs + [NotAStack(i)];
      case Stack(st) =>
        if |st.refs| != 0 {
          errs := errs + [RefRef(i)];
        }
        if |st.slices| > 0 && st.slices[0].topZ <= lastTopZ {
          errs := errs + [NoMonotonic(i)];
        }
        if |st.slices| > 0 {
          top := st.slices[|st.slices| - 1].topZ;
        }
    }
  }

  /** The slices that a reference stands for. */
  function SlicesOf(find: Assets, ref: Ref): seq<Slice> {
    match find(ref.path, ref.id)
    case Stack(st) => st.slices
    case _ => []
  }

  function Parts(find: Assets, refs: seq<Ref>): (parts: seq<seq<Slice>>)
    ensures |parts| == |refs|
  {
    seq(|refs|, i requires 0 <= i < |refs| => SlicesOf(find, refs[i]))
  }

  function Joined(parts: seq<seq<Slice>>, i: nat): seq<Slice>
    requires i <= |parts|
  {
    if i == 0 then [] else Joined(parts, i - 1) + parts[i - 1]
  }

  /** The slices of all referenced stacks, in order. */
  function Referenced(find: Assets, refs: seq<Ref>): seq<Slice> {
    Joined(Parts(find, refs), |refs|)
  }

  /** A reference to a stack in another part that has no references itself. */
  predicate RefOk(find: Assets, ref: Ref, path: string) {
    Followed(ref, path) && find(ref.path, ref.id).Stack? && find(ref.path, ref.id).st.refs == []
  }

  /** b starts above the end of a. */
  predicate Begins(last: real, b: seq<Slice>) {
    b == [] || last < b[0].topZ
  }

  predicate High(b: seq<Slice>) {
    forall s <- b :: LOWEST < s.topZ
  }

  lemma RisingJoin(a: seq<Slice>, b: seq<Slice>)
    requires Rising(b) && High(b)
    ensures Rising(a + b) <==> Rising(a) && Begins(Before(a, |a|), b)
  {
    if Rising(a + b) {
      forall i, j | 0 <= i < j < |a| ensures a[i].topZ < a[j].topZ {
        assert (a + b)[i] == a[i] && (a + b)[j] == a[j];
      }
      if a != [] && b != [] {
        assert (a + b)[|a| - 1] == a[|a| - 1] && (a + b)[|a|] == b[0];
      }
    }
  }

  /** Each of the first i parts begins above the last slice before it. */
  predicate AllBegin(parts: seq<seq<Slice>>, i: nat)
    requires i <= |parts|
  {
    i > 0 ==> AllBegin(parts, i - 1) && Begins(Before(Joined(parts, i - 1), |Joined(parts, i - 1)|), parts[i - 1])
  }

  predicate AllRise(parts: seq<seq<Slice>>) {
    forall k :: 0 <= k < |parts| ==> Rising(parts[k]) && High(parts[k])
  }

  lemma {:induction false} JoinedRise(parts: seq<seq<Slice>>, i: nat)
    requires i <= |parts| && AllRise(parts)
    ensures Rising(Joined(parts, i)) <==> AllBegin(parts, i)
  {
    if i > 0 {
      JoinedRise(parts, i - 1);
      JoinedStep(Joined(parts, i - 1), parts[i - 1], Joined(parts, i));
    }
  }

  lemma JoinedStep(a: seq<Slice>, b: seq<Slice>, ab: seq<Slice>)
    requires Rising(b) && High(b) && ab == a + b
    ensures Rising(ab) <==> Rising(a) && Begins(Before(a, |a|), b)
  {
    RisingJoin(a, b);
  }

  lemma NoRefFaultsAt(find: Assets, ref: Ref, i: nat, path: string, last: real)
    ensures RefFaultsAt(find, ref, i, path, last) == [] <==> RefOk(find, ref, path) && Begins(last, SlicesOf(find, ref))
  {
  }

  /** The first i references are. */
  predicate RefsOk(find: Assets, refs: seq<Ref>, path: string, i: nat)
    requires i <= |refs|
  {
    i > 0 ==> RefsOk(find, refs, path, i - 1) && RefOk(find, refs[i - 1], path)
  }

  lemma {:induction false} RefsOkMeans(find: Assets, refs: seq<Ref>, path: string, i: nat)
    requires i <= |refs|
    ensures RefsOk(find, refs, path, i) <==> forall ref <- refs[..i] :: RefOk(find, ref, path)
  {
    if i > 0 {
      RefsOkMeans(find, refs, path, i - 1);
      assert refs[..i] == refs[..i - 1] + [refs[i - 1]];
    }
  }

  lemma TopAppend(a: seq<Slice>, b: seq<Slice>)
    ensures Before(a + b, |a + b|) == if b == [] then Before(a, |a|) else b[|b| - 1].topZ
  {
    if b == [] {
      assert a + b == a;
    }
  }

  lemma TopAfterOk(find: Assets, ref: Ref, path: string, last: real, b: seq<Slice>)
    requires RefOk(find, ref, path) && b == SlicesOf(find, ref)
    ensures TopAfter(find, ref, path, last) == if b == [] then last else b[|b| - 1].topZ
  {
  }

  /** The ztop to exceed is that of the last slice so far. */
  lemma {:induction false} TopIsLast(find: Assets, refs: seq<Ref>, path: string, parts: seq<seq<Slice>>, i: nat)
    requires i <= |refs| && RefsOk(find, refs, path, i) && parts == Parts(find, refs)
    ensures LastTop(find, refs, path, i) == Before(Joined(parts, i), |Joined(parts, i)|)
  {
    if i > 0 {
      TopIsLast(find, refs, path, parts, i - 1);
      TopAfterOk(find, refs[i - 1], path, LastTop(find, refs, path, i - 1), parts[i - 1]);
      TopAppend(Joined(parts, i - 1), parts[i - 1]);
    }
  }

  lemma PartsRise(find: Assets, refs: seq<Ref>, k: nat)
    requires k < |refs|
    requires find(refs[k].path, refs[k].id).Stack? ==> SliceFaults(find(refs[k].path, refs[k].id).st) == []
    ensures Rising(Parts(find, refs)[k]) && High(Parts(find, refs)[k])
  {
    match find(refs[k].path, refs[k].id) {
      case Stack(st) =>
        ValidateSlicesExactly(st);
        forall s <- st.slices ensures LOWEST < s.topZ {
          assert SliceOk(s, st.bottomZ);
        }
      case _ =>
    }
  }

  lemma RefReportOk(find: Assets, refs: seq<Ref>, path: string, parts: seq<seq<Slice>>, k: nat)
    requires k < |refs| && RefsOk(find, refs, path, k) && parts == Parts(find, refs)
    ensures RefReports(find, refs, path)[k] == [] <==>
              RefOk(find, refs[k], path) && Begins(Before(Joined(parts, k), |Joined(parts, k)|), parts[k])
  {
    TopIsLast(find, refs, path, parts, k);
    NoRefFaultsAt(find, refs[k], k, path, LastTop(find, refs, path, k));
  }

  /** The first i reports are empty exactly if the references lead somewhere and their slices begin high enough. */
  lemma {:induction false} RefReportsOk(find: Assets, refs: seq<Ref>, path: string, parts: seq<seq<Slice>>,
                                        reports: seq<seq<Fault>>, i: nat)
    requires i <= |refs| && parts == Parts(find, refs) && reports == RefReports(find, refs, path)
    ensures Flatten(reports[..i]) == [] <==> RefsOk(find, refs, path, i) && AllBegin(parts, i)
  {
    if i > 0 {
      RefReportsOk(find, refs, path, parts, reports, i - 1);
      FlattenNext(reports, i - 1);
      if RefsOk(find, refs, path, i - 1) {
        RefReportOk(find, refs, path, parts, i - 1);
      }
    }
  }

  /**
   * Where every referenced stack is valid by itself, validateRefs reports nothing exactly if every reference leads to a
   * stack in another part without references, and all their slices together rise strictly.
   */
  lemma ValidateRefsExactly(find: Assets, refs: seq<Ref>, path: string)
    requires forall k :: 0 <= k < |refs| && find(refs[k].path, refs[k].id).Stack? ==>
               SliceFaults(find(refs[k].path, refs[k].id).st) == []
    ensures RefFaults(find, refs, path) == [] <==>
              (forall ref <- refs :: RefOk(find, ref, path)) && Rising(Referenced(find, refs))
  {
    var reports, parts := RefReports(find, refs, path), Parts(find, refs);
    assert reports[..|refs|] == reports && refs[..|refs|] == refs;
    RefsOkMeans(find, refs, path, |refs|);
    RefReportsOk(find, refs, path, parts, reports, |refs|);
    forall k | 0 <= k < |refs| ensures Rising(parts[k]) && High(parts[k]) {
      PartsRise(find, refs, k);
    }
    JoinedRise(parts, |refs|);
  }

  /** If nothing is reported, the referenced stacks form one: all in place, rising, each slice above its own bottom. */
  lemma CleanRefsFormOneStack(find: Assets, refs: seq<Ref>, path: string, k: nat)
    requires k < |refs| && RefFaults(find, refs, path) == []
    requires forall k :: 0 <= k < |refs| && find(refs[k].path, refs[k].id).Stack? ==>
               SliceFaults(find(refs[k].path, refs[k].id).st) == []
    ensures Rising(Referenced(find, refs))
    ensures var f := find(refs[k].path, refs[k].id);
            f.Stack? && f.st.refs == [] && forall s <- f.st.slices :: f.st.bottomZ <= s.topZ
  {
    ValidateRefsExactly(find, refs, path);
    assert RefOk(find, refs[k], path);
    var st := find(refs[k].path, refs[k].id).st;
    ValidateSlicesExactly(st);
    forall s <- st.slices ensures st.bottomZ <= s.topZ {
      assert SliceOk(s, st.bottomZ);
    }
  }

  // ---- Closed polygons ----

  predicate IsClosed(p: Polygon) {
    p.ends != [] ==> p.startV == p.ends[|p.ends| - 1]
  }

  method IsSliceStackClosed(r: SliceStack) returns (ok: bool)
    ensures ok <==> forall s <- r.slices :: forall p <- s.polygons :: IsClosed(p)
  {
    for i := 0 to |r.slices|
      invariant forall s <- r.slices[..i] :: forall p <- s.polygons :: IsClosed(p)
    {
      var ps := r.slices[i].polygons;
      for k := 0 to |ps|
        invariant forall p <- ps[..k] :: IsClosed(p)
      {
        if |ps[k].ends| > 0 && ps[k].startV != ps[k].ends[|ps[k].ends| - 1] {
          assert !IsClosed(ps[k]) && ps[k] in r.slices[i].polygons;
          return false;
        }
      }
    }
    ok := true;
  }

  /** checkAllClosed: the stack's own polygons, and those of the stacks it refers to. */
  method CheckAllClosed(find: Assets, r: SliceStack) returns (ok: bool)
    ensures ok <==> && (forall s <- r.slices :: forall p <- s.polygons :: IsClosed(p))
                    && forall ref <- r.refs :: find(ref.path, ref.id).Stack? ==>
                         forall s <- find(ref.path, ref.id).st.slices :: forall p <- s.polygons :: IsClosed(p)
  {
    ok := IsSliceStackClosed(r);
    if !ok { return; }
    for i := 0 to |r.refs|
      invariant forall ref <- r.refs[..i] :: find(ref.path, ref.id).Stack? ==>
                  forall s <- find(ref.path, ref.id).st.slices :: forall p <- s.polygons :: IsClosed(p)
    {
      var ref := r.refs[i];
      match find(ref.path, ref.id) {
        case Stack(st) =>
          ok := IsSliceStackClosed(st);
          if !ok {
            assert ref in r.refs;
            return;
          }
        case _ =>
      }
    }
    ok := true;
  }
}
