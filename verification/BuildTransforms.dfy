/** The slice extension demands planar transforms: validateBuildTransforms, over the component graph. */
module BuildTransforms {
  import opened Wrappers
  import opened Coherency
  import opened Graph
  import opened Transforms

  /** validTransform: z is kept, and does not mix with x and y. */
  predicate ValidTransform(t: Matrix) {
    t.r0.c == 0.0 && t.r1.c == 0.0 && t.r2.a == 0.0 && t.r2.b == 0.0 && t.r2.c == 1.0
  }

  predicate Planar(t: Matrix) {
    HasTransform(t) ==> ValidTransform(t)
  }

  // ---- What the test means ----

  /** The height of p is kept but for a shift, and where it comes to in the plane does not depend on its height. */
  predicate LayerKept(t: Matrix, p: Point, q: Point) {
    && Mul3D(t, p).z == p.z + t.r3.c
    && (p.x == q.x && p.y == q.y ==> Mul3D(t, p).x == Mul3D(t, q).x && Mul3D(t, p).y == Mul3D(t, q).y)
  }

  ghost predicate KeepsLayers(t: Matrix) {
    forall p, q :: LayerKept(t, p, q)
  }

  /** A matrix that is not given stands for the identity. */
  function Given(t: Matrix): Matrix {
    if t == ZERO then IDENTITY else t
  }

  /** The five elements that are tested tell exactly the transforms that keep layers. */
  lemma ValidExactly(t: Matrix)
    ensures ValidTransform(t) <==> KeepsLayers(t)
  {
    if ValidTransform(t) {
      forall p, q ensures LayerKept(t, p, q) {
        ValidKeeps(t, p, q);
      }
    }
    if KeepsLayers(t) {
      var o, x, y, z := Point(0.0, 0.0, 0.0), Point(1.0, 0.0, 0.0), Point(0.0, 1.0, 0.0), Point(0.0, 0.0, 1.0);
      assert LayerKept(t, x, o) && LayerKept(t, y, o) && LayerKept(t, z, o);
      KeptIsValid(t, o, x, y, z);
    }
  }

  lemma ValidKeeps(t: Matrix, p: Point, q: Point)
    requires ValidTransform(t)
    ensures LayerKept(t, p, q)
  {
  }

  lemma KeptIsValid(t: Matrix, o: Point, x: Point, y: Point, z: Point)
    requires o == Point(0.0, 0.0, 0.0) && x == Point(1.0, 0.0, 0.0) && y == Point(0.0, 1.0, 0.0)
    requires z == Point(0.0, 0.0, 1.0) && LayerKept(t, x, o) && LayerKept(t, y, o) && LayerKept(t, z, o)
    ensures ValidTransform(t)
  {
    UnitPoints(t, o, x, y, z);
  }

  lemma UnitPoints(t: Matrix, o: Point, x: Point, y: Point, z: Point)
    requires o == Point(0.0, 0.0, 0.0) && x == Point(1.0, 0.0, 0.0) && y == Point(0.0, 1.0, 0.0)
    requires z == Point(0.0, 0.0, 1.0)
    ensures Mul3D(t, o) == Point(t.r3.a, t.r3.b, t.r3.c)
    ensures Mul3D(t, x).z == t.r0.c + t.r3.c && Mul3D(t, y).z == t.r1.c + t.r3.c
    ensures Mul3D(t, z) == Point(t.r2.a + t.r3.a, t.r2.b + t.r3.b, t.r2.c + t.r3.c)
  {
  }

  /** A transform is accepted exactly if it keeps layers; none at all does. */
  lemma PlanarExactly(t: Matrix)
    ensures Planar(t) <==> KeepsLayers(Given(t))
  {
    ValidExactly(Given(t));
  }

  predicate Targets(c: Component, path: string, id: U32) {
    c.id == id && c.ObjectPath(path) == path
  }

  /** A component may refer to the target, but then its transform has to be planar. */
  predicate Fine(c: Component, path: string, id: U32) {
    Targets(c, path, id) ==> Planar(c.transform)
  }

  /** The loop over the components ends at the first one that has the object's own ID in the target's part. */
  function Cut(o: Object, path: string, k: nat): (n: nat)
    requires k <= |o.components|
    ensures k <= n <= |o.components|
    ensures forall i :: k <= i < n ==> !Targets(o.components[i], path, o.id)
    ensures n < |o.components| ==> Targets(o.components[n], path, o.id)
    decreases |o.components| - k
  {
    if k == |o.components| || Targets(o.components[k], path, o.id) then k else Cut(o, path, k + 1)
  }

  /**
   * The objects are ranked, and each component that a loop goes down into stands for an object of a lower rank. A
   * component that stands for its own object ends the loop, and so may be there.
   */
  ghost predicate Descends(m: Model, path: string, rank: Object -> nat) {
    forall o, k: int :: m.Has(o) && 0 <= k < Cut(o, path, 0) && m.Find(o.components[k], path).Some? ==>
      rank(m.Find(o.components[k], path).value) < rank(o)
  }

  /** The components that are looked at: those up to the end of the loop. */
  ghost predicate Clear(o: Object, path: string, id: U32) {
    forall k :: 0 <= k < |o.components| && k <= Cut(o, path, 0) ==> Fine(o.components[k], path, id)
  }

  /** One object leads to another if it has a component for it before the loop ends. */
  ghost predicate Leads(m: Model, path: string, o: Object, p: Object) {
    exists k :: 0 <= k < Cut(o, path, 0) && m.Find(o.components[k], path) == Some(p)
  }

  ghost predicate Chain(m: Model, path: string, chain: seq<Object>) {
    |chain| > 0 ==>
        m.Has(chain[0]) && (|chain| > 1 ==> Leads(m, path, chain[0], chain[1]) && Chain(m, path, chain[1..]))
  }

  /** Every object that can be reached from o is clear. */
  ghost predicate AllClear(m: Model, path: string, id: U32, o: Object) {
    forall chain :: Chain(m, path, chain) && chain != [] && chain[0] == o ==> Clear(chain[|chain| - 1], path, id)
  }

  ghost predicate ChildClear(m: Model, path: string, id: U32, c: Component) {
    m.Find(c, path).Some? ==> AllClear(m, path, id, m.Find(c, path).value)
  }

  /** A component or a build item is fine, and so is everything below it. */
  ghost predicate ItemFine(m: Model, path: string, id: U32, item: Component) {
    Fine(item, path, id) && ChildClear(m, path, id, item)
  }

  ghost predicate AllFine(m: Model, path: string, id: U32, cs: seq<Component>) {
    forall c <- cs :: ItemFine(m, path, id, c)
  }

  /** What the recursion computes; TreeFineExactly says what it means. */
  ghost predicate TreeFine(m: Model, path: string, id: U32, rank: Object -> nat, o: Object)
    requires Descends(m, path, rank) && m.Has(o)
    decreases rank(o), 1, 0
  {
    PartsFine(m, path, id, rank, o, 0)
  }

  ghost predicate PartsFine(m: Model, path: string, id: U32, rank: Object -> nat, o: Object, k: nat)
    requires Descends(m, path, rank) && m.Has(o) && k <= Cut(o, path, 0)
    decreases rank(o), 0, |o.components| - k
  {
    k < |o.components| ==>
      var c := o.components[k];
      && Fine(c, path, id)
      && (Targets(c, path, o.id) ||
          (BelowFine(m, path, id, rank, c, rank(o)) && PartsFine(m, path, id, rank, o, k + 1)))
  }

  ghost predicate BelowFine(m: Model, path: string, id: U32, rank: Object -> nat, c: Component, bound: nat)
    requires Descends(m, path, rank) && (m.Find(c, path).Some? ==> rank(m.Find(c, path).value) < bound)
    decreases bound, 0, 0
  {
    m.Find(c, path).Some? ==>
      (FoundIsThere(m, c.ObjectPath(path), c.id); TreeFine(m, path, id, rank, m.Find(c, path).value))
  }

  method ValidateObjectTransforms(m: Model, o: Object, path: string, id: U32, ghost rank: Object -> nat)
      returns (ok: bool)
    requires Descends(m, path, rank) && m.Has(o)
    ensures ok <==> TreeFine(m, path, id, rank, o)
    decreases rank(o)
  {
    for k := 0 to |o.components|
      invariant k <= Cut(o, path, 0) && (TreeFine(m, path, id, rank, o) <==> PartsFine(m, path, id, rank, o, k))
    {
      var c := o.components[k];
      if c.id == id && c.ObjectPath(path) == path {
        if HasTransform(c.transform) && !ValidTransform(c.transform) {
          return false;
        }
      }
      if c.id == o.id && c.ObjectPath(path) == path {
        return true;
      }
      var found := m.Find(c, path);
      if found.Some? {
        FoundIsThere(m, c.ObjectPath(path), c.id);
        var below := ValidateObjectTransforms(m, found.value, path, id, rank);
        if !below {
          return false;
        }
      }
    }
    ok := true;
  }

  /** True exactly if every object that can be reached is clear. */
  lemma {:induction false} TreeFineExactly(m: Model, path: string, id: U32, rank: Object -> nat, o: Object)
    requires Descends(m, path, rank) && m.Has(o)
    ensures TreeFine(m, path, id, rank, o) <==> AllClear(m, path, id, o)
    decreases rank(o), 1, 0
  {
    var bad := PartsFineExactly(m, path, id, rank, o, 0);
    if TreeFine(m, path, id, rank, o) {
      ClearBelow(m, path, id, o);
    } else if !Fine(o.components[bad], path, id) {
      NotClear(m, path, id, o, bad);
    } else {
      ChildNotClear(m, path, id, o, bad);
    }
  }

  /** bad is the component that the loop fails on. */
  lemma {:induction false} PartsFineExactly(m: Model, path: string, id: U32, rank: Object -> nat, o: Object, k: nat)
    returns (bad: nat)
    requires Descends(m, path, rank) && m.Has(o) && k <= Cut(o, path, 0)
    ensures PartsFine(m, path, id, rank, o, k) ==> AllFine(m, path, id, o.components[k..Cut(o, path, 0)])
    ensures PartsFine(m, path, id, rank, o, k) && Cut(o, path, 0) < |o.components| ==>
        Fine(o.components[Cut(o, path, 0)], path, id)
    ensures !PartsFine(m, path, id, rank, o, k) ==>
              && bad < |o.components| && bad <= Cut(o, path, 0)
              && (!Fine(o.components[bad], path, id) ||
                  (bad < Cut(o, path, 0) && !ChildClear(m, path, id, o.components[bad])))
    decreases rank(o), 0, |o.components| - k
  {
    bad := k;
    if k < Cut(o, path, 0) {
      var c := o.components[k];
      BelowFineExactly(m, path, id, rank, c, rank(o));
      if Fine(c, path, id) && BelowFine(m, path, id, rank, c, rank(o)) {
        bad := PartsFineExactly(m, path, id, rank, o, k + 1);
        FineCons(m, path, id, o.components, k, Cut(o, path, 0));
      }
    }
  }

  lemma FineCons(m: Model, path: string, id: U32, cs: seq<Component>, k: nat, n: nat)
    requires k < n <= |cs| && ItemFine(m, path, id, cs[k])
    ensures AllFine(m, path, id, cs[k + 1..n]) ==> AllFine(m, path, id, cs[k..n])
  {
    assert cs[k..n] == [cs[k]] + cs[k + 1..n];
  }

  lemma {:induction false} BelowFineExactly(m: Model, path: string, id: U32, rank: Object -> nat, c: Component,
      bound: nat)
    requires Descends(m, path, rank) && (m.Find(c, path).Some? ==> rank(m.Find(c, path).value) < bound)
    ensures BelowFine(m, path, id, rank, c, bound) <==> ChildClear(m, path, id, c)
    decreases bound, 0, 0
  {
    if m.Find(c, path).Some? {
      FoundIsThere(m, c.ObjectPath(path), c.id);
      TreeFineExactly(m, path, id, rank, m.Find(c, path).value);
    }
  }

  lemma NotClear(m: Model, path: string, id: U32, o: Object, k: nat)
    requires m.Has(o) && k < |o.components| && k <= Cut(o, path, 0) && !Fine(o.components[k], path, id)
    ensures !AllClear(m, path, id, o)
  {
    assert Chain(m, path, [o]);
    assert !Clear([o][0], path, id);
  }

  lemma ChildNotClear(m: Model, path: string, id: U32, o: Object, k: nat)
    requires m.Has(o) && k < Cut(o, path, 0) && !ChildClear(m, path, id, o.components[k])
    ensures !AllClear(m, path, id, o)
  {
    var p := m.Find(o.components[k], path).value;
    var chain :| Chain(m, path, chain) && chain != [] && chain[0] == p && !Clear(chain[|chain| - 1], path, id);
    assert Leads(m, path, o, p);
    Prepend(m, path, id, o, chain);
  }

  lemma Prepend(m: Model, path: string, id: U32, o: Object, chain: seq<Object>)
    requires m.Has(o) && Chain(m, path, chain) && chain != [] && Leads(m, path, o, chain[0])
    ensures AllClear(m, path, id, o) ==> Clear(chain[|chain| - 1], path, id)
  {
    var longer := [o] + chain;
    assert longer[1..] == chain && longer[|longer| - 1] == chain[|chain| - 1];
  }

  lemma ClearBelow(m: Model, path: string, id: U32, o: Object)
    requires AllFine(m, path, id, o.components[..Cut(o, path, 0)])
    requires Cut(o, path, 0) < |o.components| ==> Fine(o.components[Cut(o, path, 0)], path, id)
    ensures AllClear(m, path, id, o)
  {
    var n := Cut(o, path, 0);
    forall k | 0 <= k < |o.components| && k <= n ensures Fine(o.components[k], path, id) {
      if k < n {
        assert ItemFine(m, path, id, o.components[..n][k]);
      }
    }
    forall chain | Chain(m, path, chain) && chain != [] && chain[0] == o ensures Clear(chain[|chain| - 1], path, id) {
      if |chain| > 1 {
        assert Leads(m, path, o, chain[1]);
        var k :| 0 <= k < n && m.Find(o.components[k], path) == Some(chain[1]);
        assert o.components[..n][k] == o.components[k];
        assert ItemFine(m, path, id, o.components[k]);
        ClearAtEnd(m, path, id, chain);
      }
    }
  }

  lemma ClearAtEnd(m: Model, path: string, id: U32, chain: seq<Object>)
    requires |chain| > 1 && Chain(m, path, chain) && AllClear(m, path, id, chain[1])
    ensures Clear(chain[|chain| - 1], path, id)
  {
    var rest := chain[1..];
    assert rest[0] == chain[1] && chain[|chain| - 1] == rest[|rest| - 1];
  }

  // ---- The build ----

  /** True exactly if no build item and no component that can be reached from one turns the target out of its plane. */
  method ValidateBuildTransforms(m: Model, path: string, id: U32, ghost rank: Object -> nat) returns (ok: bool)
    requires Descends(m, path, rank)
    ensures ok <==> AllFine(m, path, id, m.items)
  {
    for i := 0 to |m.items|
      invariant AllFine(m, path, id, m.items[..i])
    {
      var fine := ValidateItem(m, m.items[i], path, id, rank);
      if !fine {
        assert m.items[i] in m.items;
        return false;
      }
    }
    assert m.items[..|m.items|] == m.items;
    ok := true;
  }

  /** The body of the loop over the items. */
  method ValidateItem(m: Model, item: Component, path: string, id: U32, ghost rank: Object -> nat) returns (ok: bool)
    requires Descends(m, path, rank)
    ensures ok <==> ItemFine(m, path, id, item)
  {
    var targetPath := item.path;
    if targetPath == "" {
      targetPath := path;
    }
    if item.id == id && targetPath == path {
      if HasTransform(item.transform) && !ValidTransform(item.transform) {
        return false;
      }
    }
    var found := m.FindObject(targetPath, item.id);
    ok := true;
    if found.Some? {
      FoundIsThere(m, targetPath, item.id);
      ok := ValidateObjectTransforms(m, found.value, path, id, rank);
      TreeFineExactly(m, path, id, rank, found.value);
    }
  }

  // ---- When the loops see everything ----

  /** One object has a component that stands for another. */
  ghost predicate Links(m: Model, path: string, o: Object, p: Object) {
    exists c <- o.components :: m.Find(c, path) == Some(p)
  }

  ghost predicate Reach(m: Model, path: string, chain: seq<Object>) {
    |chain| > 1 ==> Links(m, path, chain[0], chain[1]) && Reach(m, path, chain[1..])
  }

  /** The guard: no component of the object has the object's own ID in the target's part. */
  ghost predicate WholeLoop(o: Object, path: string) {
    forall c <- o.components :: !Targets(c, path, o.id)
  }

  ghost predicate NeverEnds(m: Model, path: string, o: Object) {
    forall chain :: chain != [] && chain[0] == o && Reach(m, path, chain) ==> WholeLoop(chain[|chain| - 1], path)
  }

  ghost predicate PartsPlanar(o: Object, path: string, id: U32) {
    forall c <- o.components :: Fine(c, path, id)
  }

  /**
   * Every component of every object on any way down from o has no transform or a planar one where it is the target's.
   */
  ghost predicate BelowPlanar(m: Model, path: string, id: U32, o: Object) {
    forall chain :: chain != [] && chain[0] == o && Reach(m, path, chain) ==> PartsPlanar(chain[|chain| - 1], path, id)
  }

  ghost predicate AllPlanar(m: Model, path: string, id: U32, item: Component) {
    Fine(item, path, id) && (m.Find(item, path).Some? ==> BelowPlanar(m, path, id, m.Find(item, path).value))
  }

  lemma LeadsIffLinks(m: Model, path: string, o: Object, p: Object)
    requires Cut(o, path, 0) == |o.components|
    ensures Leads(m, path, o, p) <==> Links(m, path, o, p)
  {
    if Links(m, path, o, p) {
      var c :| c in o.components && m.Find(c, path) == Some(p);
      var k :| 0 <= k < |o.components| && o.components[k] == c;
    }
  }

  lemma WholeCut(o: Object, path: string)
    ensures WholeLoop(o, path) <==> Cut(o, path, 0) == |o.components|
  {
    if Cut(o, path, 0) == |o.components| {
      forall c | c in o.components ensures !Targets(c, path, o.id) {
        var k :| 0 <= k < |o.components| && o.components[k] == c;
      }
    } else {
      assert o.components[Cut(o, path, 0)] in o.components;
    }
  }

  lemma {:induction false} ChainIsReach(m: Model, path: string, chain: seq<Object>)
    requires Chain(m, path, chain)
    ensures Reach(m, path, chain)
  {
    if |chain| > 1 {
      var k :| 0 <= k < Cut(chain[0], path, 0) && m.Find(chain[0].components[k], path) == Some(chain[1]);
      assert chain[0].components[k] in chain[0].components;
      ChainIsReach(m, path, chain[1..]);
    }
  }

  lemma ReachFrom(m: Model, path: string, o: Object, chain: seq<Object>)
    requires chain != [] && Links(m, path, o, chain[0]) && Reach(m, path, chain)
    ensures var more := [o] + chain;
      more[0] == o && Reach(m, path, more) && more[|more| - 1] == chain[|chain| - 1]
  {
    assert ([o] + chain)[1..] == chain;
  }

  lemma NeverEndsBelow(m: Model, path: string, o: Object, p: Object)
    requires NeverEnds(m, path, o) && Links(m, path, o, p)
    ensures NeverEnds(m, path, p)
  {
    forall chain | chain != [] && chain[0] == p && Reach(m, path, chain)
      ensures WholeLoop(chain[|chain| - 1], path)
    {
      ReachFrom(m, path, o, chain);
    }
  }

  lemma {:induction false} ReachIsChain(m: Model, path: string, chain: seq<Object>)
    requires chain != [] && m.Has(chain[0]) && NeverEnds(m, path, chain[0]) && Reach(m, path, chain)
    ensures Chain(m, path, chain) && WholeLoop(chain[|chain| - 1], path)
  {
    assert Reach(m, path, [chain[0]]);
    assert WholeLoop([chain[0]][0], path);
    if |chain| > 1 {
      WholeCut(chain[0], path);
      LeadsIffLinks(m, path, chain[0], chain[1]);
      NeverEndsBelow(m, path, chain[0], chain[1]);
      LinkIsThere(m, path, chain[0], chain[1]);
      ReachIsChain(m, path, chain[1..]);
    }
  }

  lemma LinkIsThere(m: Model, path: string, o: Object, p: Object)
    requires Links(m, path, o, p)
    ensures m.Has(p)
  {
    var c :| c in o.components && m.Find(c, path) == Some(p);
    FoundIsThere(m, c.ObjectPath(path), c.id);
  }

  /** In any model: nothing is rejected of which all is planar. */
  lemma PlanarIsFine(m: Model, path: string, id: U32, item: Component)
    requires AllPlanar(m, path, id, item)
    ensures ItemFine(m, path, id, item)
  {
    if m.Find(item, path).Some? {
      var o := m.Find(item, path).value;
      forall chain | Chain(m, path, chain) && chain != [] && chain[0] == o ensures Clear(chain[|chain| - 1], path, id) {
        ChainIsReach(m, path, chain);
        var last := chain[|chain| - 1];
        assert PartsPlanar(last, path, id);
      }
    }
  }

  /** Where no loop ends early, an item is fine exactly if it and every component of every object below it are. */
  lemma ItemFineExactly(m: Model, path: string, id: U32, item: Component)
    requires m.Find(item, path).Some? ==> NeverEnds(m, path, m.Find(item, path).value)
    ensures ItemFine(m, path, id, item) <==> AllPlanar(m, path, id, item)
  {
    if AllPlanar(m, path, id, item) {
      PlanarIsFine(m, path, id, item);
    }
    if ItemFine(m, path, id, item) && m.Find(item, path).Some? {
      FoundIsThere(m, item.ObjectPath(path), item.id);
      forall chain | chain != [] && chain[0] == m.Find(item, path).value && Reach(m, path, chain)
        ensures PartsPlanar(chain[|chain| - 1], path, id)
      {
        ReachIsChain(m, path, chain);
        ClearIsPlanar(chain[|chain| - 1], path, id);
      }
    }
  }

  lemma ClearIsPlanar(o: Object, path: string, id: U32)
    requires WholeLoop(o, path) && Clear(o, path, id)
    ensures PartsPlanar(o, path, id)
  {
    WholeCut(o, path);
    forall c | c in o.components ensures Fine(c, path, id) {
      var k :| 0 <= k < |o.components| && o.components[k] == c;
    }
  }

  // ---- In terms of points ----

  /** Where a component stands for the target, its transform keeps layers. */
  ghost predicate Layered(c: Component, path: string, id: U32) {
    Targets(c, path, id) ==> KeepsLayers(Given(c.transform))
  }

  ghost predicate PartsLayered(o: Object, path: string, id: U32) {
    forall c <- o.components :: Layered(c, path, id)
  }

  ghost predicate BelowLayered(m: Model, path: string, id: U32, o: Object) {
    forall chain :: chain != [] && chain[0] == o && Reach(m, path, chain) ==> PartsLayered(chain[|chain| - 1], path, id)
  }

  /** No reference to the target, from the item on any way down, takes it out of its layers. */
  ghost predicate AllLayered(m: Model, path: string, id: U32, item: Component) {
    Layered(item, path, id) && (m.Find(item, path).Some? ==> BelowLayered(m, path, id, m.Find(item, path).value))
  }

  lemma FineMeans(c: Component, path: string, id: U32)
    ensures Fine(c, path, id) <==> Layered(c, path, id)
  {
    PlanarExactly(c.transform);
  }

  lemma PartsMean(o: Object, path: string, id: U32)
    ensures PartsPlanar(o, path, id) <==> PartsLayered(o, path, id)
  {
    forall c | c in o.components ensures Fine(c, path, id) <==> Layered(c, path, id) {
      FineMeans(c, path, id);
    }
  }

  lemma BelowMeans(m: Model, path: string, id: U32, o: Object)
    ensures BelowPlanar(m, path, id, o) <==> BelowLayered(m, path, id, o)
  {
    forall chain | chain != [] && chain[0] == o && Reach(m, path, chain)
      ensures PartsPlanar(chain[|chain| - 1], path, id) <==> PartsLayered(chain[|chain| - 1], path, id)
    {
      PartsMean(chain[|chain| - 1], path, id);
    }
  }

  /** Where no loop ends early, an item is accepted exactly if the target keeps its layers on all ways down. */
  lemma ItemLayeredExactly(m: Model, path: string, id: U32, item: Component)
    requires m.Find(item, path).Some? ==> NeverEnds(m, path, m.Find(item, path).value)
    ensures ItemFine(m, path, id, item) <==> AllLayered(m, path, id, item)
  {
    ItemFineExactly(m, path, id, item);
    FineMeans(item, path, id);
    if m.Find(item, path).Some? {
      BelowMeans(m, path, id, m.Find(item, path).value);
    }
  }

  /** All objects and references are in the target's part. */
  ghost predicate SinglePart(m: Model, path: string) {
    && m.FindResources(path).Some?
    && (forall o, c :: m.Has(o) && c in o.components ==> c.ObjectPath(path) == path)
    && forall item <- m.items :: item.ObjectPath(path) == path
  }

  /** So the answer is exact in one part in which no object has a component for itself, which is an error of its own. */
  lemma SinglePartExactly(m: Model, path: string, id: U32, item: Component)
    requires SinglePart(m, path) && item in m.items
    requires forall o, c :: m.Has(o) && c in o.components ==> c.id != o.id
    ensures ItemFine(m, path, id, item) <==> AllPlanar(m, path, id, item)
  {
    if m.Find(item, path).Some? {
      FoundIsThere(m, item.ObjectPath(path), item.id);
      var o := m.Find(item, path).value;
      forall chain | chain != [] && chain[0] == o && Reach(m, path, chain) ensures WholeLoop(chain[|chain| - 1], path) {
        ReachIsThere(m, path, chain);
      }
    }
    ItemFineExactly(m, path, id, item);
  }

  lemma {:induction false} ReachIsThere(m: Model, path: string, chain: seq<Object>)
    requires chain != [] && m.Has(chain[0]) && Reach(m, path, chain)
    ensures m.Has(chain[|chain| - 1])
    decreases |chain|
  {
    if |chain| > 1 {
      LinkIsThere(m, path, chain[0], chain[1]);
      ReachIsThere(m, path, chain[1..]);
    }
  }

  // ---- When a loop ends early ----

  /** What the loop over an object's components leaves out, and all below it, is planar. */
  ghost predicate HiddenPlanar(m: Model, path: string, id: U32, o: Object) {
    forall k :: Cut(o, path, 0) <= k < |o.components| ==>
      var c := o.components[k];
      Fine(c, path, id) && (m.Find(c, path).Some? ==> BelowPlanar(m, path, id, m.Find(c, path).value))
  }

  /** That is so of every object that the loops come to. */
  ghost predicate NothingHidden(m: Model, path: string, id: U32, o: Object) {
    forall chain :: Chain(m, path, chain) && chain != [] && chain[0] == o ==>
      HiddenPlanar(m, path, id, chain[|chain| - 1])
  }

  /** What is accepted is planar exactly if nothing that is not is hidden behind the end of a loop. */
  lemma AcceptedExactly(m: Model, path: string, id: U32, item: Component)
    requires ItemFine(m, path, id, item)
    ensures AllPlanar(m, path, id, item)
       <==> (m.Find(item, path).Some? ==> NothingHidden(m, path, id, m.Find(item, path).value))
  {
    if m.Find(item, path).Some? {
      var o := m.Find(item, path).value;
      FoundIsThere(m, item.ObjectPath(path), item.id);
      if BelowPlanar(m, path, id, o) {
        PlanarHidesNothing(m, path, id, o);
      }
      if NothingHidden(m, path, id, o) {
        forall chain | chain != [] && chain[0] == o && Reach(m, path, chain)
          ensures PartsPlanar(chain[|chain| - 1], path, id)
        {
          SeenOrHidden(m, path, id, chain);
        }
      }
    }
  }

  lemma PlanarHidesNothing(m: Model, path: string, id: U32, o: Object)
    requires BelowPlanar(m, path, id, o)
    ensures NothingHidden(m, path, id, o)
  {
    forall chain | Chain(m, path, chain) && chain != [] && chain[0] == o
      ensures HiddenPlanar(m, path, id, chain[|chain| - 1])
    {
      ChainIsReach(m, path, chain);
      PlanarAtEnd(m, path, id, o, chain);
    }
  }

  lemma PlanarAtEnd(m: Model, path: string, id: U32, o: Object, chain: seq<Object>)
    requires BelowPlanar(m, path, id, o) && chain != [] && chain[0] == o && Reach(m, path, chain)
    ensures HiddenPlanar(m, path, id, chain[|chain| - 1])
  {
    var last := chain[|chain| - 1];
    assert PartsPlanar(last, path, id);
    forall k | 0 <= k < |last.components| && m.Find(last.components[k], path).Some?
      ensures BelowPlanar(m, path, id, m.Find(last.components[k], path).value)
    {
      var c := last.components[k];
      assert c in last.components;
      BelowPlanarLink(m, path, id, o, chain, m.Find(c, path).value);
    }
  }

  lemma BelowPlanarLink(m: Model, path: string, id: U32, o: Object, chain: seq<Object>, p: Object)
    requires BelowPlanar(m, path, id, o) && chain != [] && chain[0] == o && Reach(m, path, chain)
    requires Links(m, path, chain[|chain| - 1], p)
    ensures BelowPlanar(m, path, id, p)
  {
    forall more | more != [] && more[0] == p && Reach(m, path, more)
      ensures PartsPlanar(more[|more| - 1], path, id)
    {
      ReachAppend(m, path, chain, more);
      var all := chain + more;
      assert all[0] == o && all[|all| - 1] == more[|more| - 1];
    }
  }

  lemma {:induction false} ReachAppend(m: Model, path: string, chain: seq<Object>, more: seq<Object>)
    requires chain != [] && more != [] && Reach(m, path, chain) && Reach(m, path, more)
    requires Links(m, path, chain[|chain| - 1], more[0])
    ensures Reach(m, path, chain + more)
    decreases |chain|
  {
    assert (chain + more)[1..] == chain[1..] + more;
    if |chain| == 1 {
      assert chain[1..] + more == more;
    } else {
      ReachAppend(m, path, chain[1..], more);
    }
  }

  /** Every object on the way is come to, or is below one that is hidden. */
  lemma {:induction false} SeenOrHidden(m: Model, path: string, id: U32, chain: seq<Object>)
    requires chain != [] && m.Has(chain[0]) && Reach(m, path, chain)
    requires AllClear(m, path, id, chain[0]) && NothingHidden(m, path, id, chain[0])
    ensures PartsPlanar(chain[|chain| - 1], path, id)
    decreases |chain|
  {
    var o := chain[0];
    assert Chain(m, path, [o]);
    assert Clear([o][0], path, id) && HiddenPlanar(m, path, id, [o][0]);
    if |chain| == 1 {
      SeenParts(m, path, id, o);
    } else {
      var c :| c in o.components && m.Find(c, path) == Some(chain[1]);
      var k :| 0 <= k < |o.components| && o.components[k] == c;
      if k < Cut(o, path, 0) {
        LinkIsThere(m, path, o, chain[1]);
        assert Leads(m, path, o, chain[1]);
        SeenBelow(m, path, id, o, chain[1]);
        SeenOrHidden(m, path, id, chain[1..]);
      } else {
        assert BelowPlanar(m, path, id, chain[1]);
        assert chain[1..][0] == chain[1] && chain[1..][|chain| - 2] == chain[|chain| - 1];
      }
    }
  }

  lemma SeenParts(m: Model, path: string, id: U32, o: Object)
    requires Clear(o, path, id) && HiddenPlanar(m, path, id, o)
    ensures PartsPlanar(o, path, id)
  {
    forall c | c in o.components ensures Fine(c, path, id) {
      var k :| 0 <= k < |o.components| && o.components[k] == c;
    }
  }

  lemma SeenBelow(m: Model, path: string, id: U32, o: Object, p: Object)
    requires m.Has(o) && Leads(m, path, o, p) && AllClear(m, path, id, o) && NothingHidden(m, path, id, o)
    ensures AllClear(m, path, id, p) && NothingHidden(m, path, id, p)
  {
    forall chain | Chain(m, path, chain) && chain != [] && chain[0] == p
      ensures Clear(chain[|chain| - 1], path, id) && HiddenPlanar(m, path, id, chain[|chain| - 1])
    {
      var longer := [o] + chain;
      assert longer[1..] == chain && longer[|longer| - 1] == chain[|chain| - 1] && longer[0] == o;
      assert Chain(m, path, longer);
    }
  }

  /**
   * Across parts the loop can end too early: a component that names an object of the target's part by the ID its own
   * object has in another part hides the components after it, here one that turns the target.
   */
  lemma EarlyEndHides()
    ensures var turn := IDENTITY.(r2 := Row(1.0, 0.0, 1.0, 0.0));
            var x, y := Object(1, Some([]), []), Object(5, Some([]), []);
            var o := Object(5, None, [Component("/a", 5, IDENTITY), Component("/a", 1, turn)]);
            var m := Model("", [], map["/a" := [x, y], "/b" := [o]], [Component("/b", 5, IDENTITY)]);
            && m.FindObject("/a", 1) == Some(x) && m.Find(m.items[0], "/a") == Some(o)
            && !AllPlanar(m, "/a", 1, m.items[0]) && ItemFine(m, "/a", 1, m.items[0])
  {
    var turn := IDENTITY.(r2 := Row(1.0, 0.0, 1.0, 0.0));
    var x, y := Object(1, Some([]), []), Object(5, Some([]), []);
    var o := Object(5, None, [Component("/a", 5, IDENTITY), Component("/a", 1, turn)]);
    var m := Model("", [], map["/a" := [x, y], "/b" := [o]], [Component("/b", 5, IDENTITY)]);
    HidesNext(m, "/a", 1, m.items[0], o);
  }

  /** A first component that ends the loop hides the second one. */
  lemma HidesNext(m: Model, path: string, id: U32, item: Component, o: Object)
    requires m.Find(item, path) == Some(o) && Fine(item, path, id) && |o.components| == 2
    requires Targets(o.components[0], path, o.id) && Fine(o.components[0], path, id) && !Fine(o.components[1], path, id)
    ensures ItemFine(m, path, id, item) && !AllPlanar(m, path, id, item)
  {
    assert Cut(o, path, 0) == 0;
    ClearBelow(m, path, id, o);
    assert Reach(m, path, [o]) && !PartsPlanar([o][0], path, id) by {
      assert o.components[1] in o.components;
    }
  }

  /** In a single part an object that has a component for itself hides the components after it in the same way. */
  lemma SelfReferenceHides(path: string)
    requires path != ""
    ensures var turn := IDENTITY.(r2 := Row(1.0, 0.0, 1.0, 0.0));
            var o := Object(5, None, [Component("", 5, IDENTITY), Component("", 1, turn)]);
            var m := Model(path, [Object(1, Some([]), []), o], map[], [Component("", 5, IDENTITY)]);
            && Root(m) == path && SinglePart(m, path) && m.Find(m.items[0], path) == Some(o)
            && Descends(m, path, (p: Object) => 0)
            && !AllPlanar(m, path, 1, m.items[0]) && ItemFine(m, path, 1, m.items[0])
  {
    var turn := IDENTITY.(r2 := Row(1.0, 0.0, 1.0, 0.0));
    var x, o := Object(1, Some([]), []), Object(5, None, [Component("", 5, IDENTITY), Component("", 1, turn)]);
    var m := Model(path, [x, o], map[], [Component("", 5, IDENTITY)]);
    assert First([o], 5) == Some(o) && m.objects[1..] == [o];
    assert Cut(o, path, 0) == 0 && Cut(x, path, 0) == 0;
    AloneInPart(m, path, x, o);
    HidesNext(m, path, 1, m.items[0], o);
  }

  lemma AloneInPart(m: Model, path: string, x: Object, o: Object)
    requires m.path == path != "" && m.objects == [x, o] && m.childs == map[]
    requires Cut(x, path, 0) == 0 && Cut(o, path, 0) == 0
    requires forall c :: c in x.components || c in o.components || c in m.items ==> c.path == ""
    ensures SinglePart(m, path) && Descends(m, path, (p: Object) => 0)
  {
    assert forall p :: m.Has(p) <==> p == x || p == o;
  }

  // ---- Which part a missing path stands for ----

  /** Every component that stands for the target is planar. */
  ghost predicate PlacePlanar(x: Located, path: string, id: U32) {
    forall c <- x.obj.components :: c.id == id && c.ObjectPath(x.part) == path ==> Planar(c.transform)
  }

  /** What the check is for: the item, a reference from the root part, and all it stands for leave the target planar. */
  ghost predicate TrulyPlanar(m: Model, path: string, id: U32, item: Component) {
    && (item.id == id && item.ObjectPath(Root(m)) == path ==> Planar(item.transform))
    && (m.Find(item, Root(m)).Some? ==>
          TrulyBelow(m, path, id, Located(item.ObjectPath(Root(m)), m.Find(item, Root(m)).value)))
  }

  ghost predicate TrulyBelow(m: Model, path: string, id: U32, x: Located) {
    forall walk :: walk != [] && walk[0] == x && Walk(m, walk) ==> PlacePlanar(walk[|walk| - 1], path, id)
  }

  /** Only components of the target's part leave out the path. */
  ghost predicate Named(x: Located, path: string) {
    forall c <- x.obj.components :: c.path == "" ==> x.part == path
  }

  ghost predicate Anchored(m: Model, path: string, x: Located) {
    forall walk :: walk != [] && walk[0] == x && Walk(m, walk) ==> Named(walk[|walk| - 1], path)
  }

  ghost predicate ItemAnchored(m: Model, path: string, item: Component) {
    && (item.path == "" ==> Root(m) == path)
    && (m.Find(item, Root(m)).Some? ==>
        Anchored(m, path, Located(item.ObjectPath(Root(m)), m.Find(item, Root(m)).value)))
  }

  lemma AnchoredBelow(m: Model, path: string, x: Located, y: Located)
    requires Anchored(m, path, x) && StepsTo(m, x, y)
    ensures Anchored(m, path, y)
  {
    forall walk | walk != [] && walk[0] == y && Walk(m, walk) ensures Named(walk[|walk| - 1], path) {
      var more := [x] + walk;
      assert more[1..] == walk && more[|more| - 1] == walk[|walk| - 1];
    }
  }

  lemma AnchoredHere(m: Model, path: string, x: Located)
    requires Anchored(m, path, x)
    ensures Named(x, path)
  {
    assert Walk(m, [x]) && Named([x][0], path);
  }

  lemma {:induction false} WalkIsReach(m: Model, path: string, walk: seq<Located>) returns (chain: seq<Object>)
    requires walk != [] && Anchored(m, path, walk[0]) && Walk(m, walk)
    ensures |chain| == |walk| && chain[0] == walk[0].obj && chain[|chain| - 1] == walk[|walk| - 1].obj
    ensures Reach(m, path, chain) && Named(walk[|walk| - 1], path)
    decreases |walk|
  {
    AnchoredHere(m, path, walk[0]);
    chain := [walk[0].obj];
    if |walk| > 1 {
      AnchoredBelow(m, path, walk[0], walk[1]);
      var rest := WalkIsReach(m, path, walk[1..]);
      ReachFrom(m, path, chain[0], rest);
      chain := chain + rest;
    }
  }

  lemma NextLocated(m: Model, path: string, x: Located, o: Object) returns (y: Located)
    requires Named(x, path) && Links(m, path, x.obj, o)
    ensures StepsTo(m, x, y) && y.obj == o
  {
    var c :| c in x.obj.components && m.Find(c, path) == Some(o);
    y := Located(c.ObjectPath(x.part), o);
  }

  lemma {:induction false} ReachIsWalk(m: Model, path: string, x: Located, chain: seq<Object>)
      returns (walk: seq<Located>)
    requires chain != [] && chain[0] == x.obj && Anchored(m, path, x) && Reach(m, path, chain)
    ensures |walk| == |chain| && walk[0] == x && chain[|chain| - 1] == walk[|walk| - 1].obj
    ensures Walk(m, walk) && Named(walk[|walk| - 1], path)
    decreases |chain|
  {
    AnchoredHere(m, path, x);
    walk := [x];
    if |chain| > 1 {
      var y := NextLocated(m, path, x, chain[1]);
      AnchoredBelow(m, path, x, y);
      var rest := ReachIsWalk(m, path, y, chain[1..]);
      walk := [x] + rest;
      assert walk[1..] == rest;
    }
  }

  lemma TrulyBelowExactly(m: Model, path: string, id: U32, x: Located)
    requires Anchored(m, path, x)
    ensures TrulyBelow(m, path, id, x) <==> BelowPlanar(m, path, id, x.obj)
  {
    if BelowPlanar(m, path, id, x.obj) {
      forall walk | walk != [] && walk[0] == x && Walk(m, walk) ensures PlacePlanar(walk[|walk| - 1], path, id) {
        var chain := WalkIsReach(m, path, walk);
        assert PartsPlanar(chain[|chain| - 1], path, id);
      }
    }
    if TrulyBelow(m, path, id, x) {
      forall chain | chain != [] && chain[0] == x.obj && Reach(m, path, chain)
        ensures PartsPlanar(chain[|chain| - 1], path, id)
      {
        var walk := ReachIsWalk(m, path, x, chain);
        assert PlacePlanar(walk[|walk| - 1], path, id);
      }
    }
  }

  /**
   * Where only references from the target's part leave out the path and no loop ends early, an item is fine exactly if
   * nothing that it really stands for turns the target.
   */
  lemma TrulyPlanarExactly(m: Model, path: string, id: U32, item: Component)
    requires ItemAnchored(m, path, item)
    requires m.Find(item, path).Some? ==> NeverEnds(m, path, m.Find(item, path).value)
    ensures ItemFine(m, path, id, item) <==> TrulyPlanar(m, path, id, item)
  {
    ItemFineExactly(m, path, id, item);
    assert item.ObjectPath(Root(m)) == item.ObjectPath(path);
    if m.Find(item, path).Some? {
      TrulyBelowExactly(m, path, id, Located(item.ObjectPath(path), m.Find(item, path).value));
    }
  }

  /**
   * An item without a path stands for object 1 of the root part; that it is turned is held against object 1 of "/a".
   */
  lemma MissingPathMisleads()
    ensures var turn := IDENTITY.(r2 := Row(1.0, 0.0, 1.0, 0.0));
            var x, y := Object(1, Some([]), []), Object(1, Some([Point(0.0, 0.0, 0.0)]), []);
            var m := Model("", [x], map["/a" := [y]], [Component("", 1, turn)]);
            && m.Find(m.items[0], Root(m)) == Some(x) && m.FindObject("/a", 1) == Some(y)
            && TrulyPlanar(m, "/a", 1, m.items[0]) && !ItemFine(m, "/a", 1, m.items[0])
  {
    var turn := IDENTITY.(r2 := Row(1.0, 0.0, 1.0, 0.0));
    var x, y := Object(1, Some([]), []), Object(1, Some([Point(0.0, 0.0, 0.0)]), []);
    var m := Model("", [x], map["/a" := [y]], [Component("", 1, turn)]);
    assert HasTransform(turn) && !ValidTransform(turn);
    assert Root(m) != "/a" by {
      assert Root(m)[1] == '3';
    }
    NoParts(m, "/a", 1, Located(Root(m), x));
  }

  lemma NoParts(m: Model, path: string, id: U32, x: Located)
    requires x.obj.components == []
    ensures TrulyBelow(m, path, id, x)
  {
    forall walk | walk != [] && walk[0] == x && Walk(m, walk) ensures PlacePlanar(walk[|walk| - 1], path, id) {
      assert |walk| > 1 ==> StepsTo(m, x, walk[1]);
    }
  }
}
