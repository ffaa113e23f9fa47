/** Resource identifiers: the lowest unused one. */
module Resources {
  import opened Coherency

  predicate Sorted(s: seq<int>) {
    forall i, j :: 0 <= i < j < |s| ==> s[i] <= s[j]
  }

  function Insert(x: int, s: seq<int>): (r: seq<int>)
    requires Sorted(s)
    ensures Sorted(r) && multiset(r) == multiset(s) + multiset{x}
  {
    if s == [] || x <= s[0] then
      assert [x] + s == [x] + s;
      [x] + s
    else
      var t := Insert(x, s[1..]);
      assert s == [s[0]] + s[1..];
      InsertBelow(s, x, t);
      [s[0]] + t
  }

  lemma InsertBelow(s: seq<int>, x: int, t: seq<int>)
    requires Sorted(s) && s != [] && s[0] < x && Sorted(t) && multiset(t) == multiset(s[1..]) + multiset{x}
    ensures Sorted([s[0]] + t)
  {
    forall i | 0 <= i < |t| ensures s[0] <= t[i] {
      assert t[i] in multiset(t);
      assert t[i] == x || t[i] in s[1..];
    }
  }

  /** sort.Ints */
  function Sort(s: seq<int>): (r: seq<int>)
    ensures Sorted(r) && multiset(r) == multiset(s) && |r| == |s|
  {
    if s == [] then []
    else
      var r := Insert(s[0], Sort(s[1..]));
      assert s == [s[0]] + s[1..];
      assert |multiset(r)| == |r| && |multiset(s)| == |s|;
      r
  }

  /** The first index that does not hold itself, or the length. */
  function FirstGap(s: seq<int>, i: nat): (g: nat)
    requires i <= |s|
    ensures i <= g <= |s| && (forall k :: i <= k < g ==> s[k] == k) && (g < |s| ==> s[g] != g)
    decreases |s| - i
  {
    if i < |s| && s[i] == i then FirstGap(s, i + 1) else i
  }

  /** The conversion uint32(n), which keeps the low 32 bits. */
  function ToUint32(n: nat): (r: U32)
    ensures (n - r) % 0x1_0000_0000 == 0
  {
    if n < 0x1_0000_0000 then n else n % 0x1_0000_0000
  }

  /**
   * UnusedID, given the IDs of the assets and of the objects. Zero is sorted in with them; the answer is the first
   * index that is not its own ID, or one more than the last ID, cut to 32 bits.
   */
  method UnusedID(assets: seq<U32>, objects: seq<U32>) returns (id: U32)
    ensures id == ToUint32(FirstGap(Sort([0] + (assets + objects)), 0))
  {
    if |assets| == 0 && |objects| == 0 {
      assert assets + objects == [];
      ZeroFirst([]);
      return 1;
    }
    var ids := CollectIDs(assets, objects);
    ids := Sort(ids);
    ZeroFirst(assets + objects);
    var lowest := 0;
    for i := 0 to |ids|
      invariant lowest == 0 && FirstGap(ids, i) == FirstGap(ids, 0)
    {
      if ids[i] != i {
        lowest := i;
        break;
      }
    }
    if lowest == 0 {
      lowest := ids[|ids| - 1] + 1;
    }
    id := ToUint32(lowest);
  }

  method CollectIDs(assets: seq<U32>, objects: seq<U32>) returns (ids: seq<int>)
    ensures ids == [0] + (assets + objects)
  {
    var a := new int[|assets| + |objects| + 1](_ => 0);
    for i := 0 to |assets|
      invariant a[0] == 0 && forall k :: 0 <= k < i ==> a[k + 1] == assets[k]
    {
      a[i + 1] := assets[i];
    }
    for i := 0 to |objects|
      invariant a[0] == 0 && (forall k :: 0 <= k < |assets| ==> a[k + 1] == assets[k])
      invariant forall k :: 0 <= k < i ==> a[|assets| + k + 1] == objects[k]
    {
      a[|assets| + i + 1] := objects[i];
    }
    ids := a[..];
    assert forall k :: 0 < k < |ids| ==> ids[k] == (assets + objects)[k - 1];
  }

  lemma ZeroFirst(used: seq<U32>)
    ensures var s := Sort([0] + used); |s| == |used| + 1 && s[0] == 0
  {
    var s := Sort([0] + used);
    assert 0 in multiset([0] + used) && 0 in multiset(s);
    assert s[0] in multiset(s) && s[0] in [0] + used;
    var k :| 0 <= k < |s| && s[k] == 0;
  }

  /** m is the least positive ID that is not used. */
  predicate LeastUnused(used: seq<U32>, m: int) {
    1 <= m && m !in used && forall k :: 1 <= k < m ==> k in used
  }

  /** Zero, and every ID below m - 1, is met exactly once. */
  predicate OnceBelow(used: seq<U32>, m: int) {
    forall v :: 0 <= v < m - 1 ==> multiset([0] + used)[v] == 1
  }

  lemma {:induction false} PrefixIsIdentity(s: seq<int>, m: nat, k: nat)
    requires Sorted(s) && |s| > 0 && s[0] == 0 && k < m && (forall v :: 0 <= v < m ==> v in s)
    requires forall v :: 0 <= v < m - 1 ==> multiset(s)[v] == 1
    ensures k < |s| && s[k] == k
  {
    if k > 0 {
      PrefixIsIdentity(s, m, k - 1);
      assert k in s;
      var at :| 0 <= at < |s| && s[at] == k;
      assert k - 1 < at && k < |s|;
      if s[k] == k - 1 {
        TwiceInSeq(s, k - 1, k);
      }
    }
  }

  lemma TwiceInSeq(s: seq<int>, i: nat, j: nat)
    requires i < j < |s| && s[i] == s[j]
    ensures multiset(s)[s[i]] >= 2
  {
    assert s == s[..i] + [s[i]] + s[i + 1..j] + [s[j]] + s[j + 1..];
  }

  lemma OnceInSorted(s: seq<int>, v: nat)
    requires Sorted(s) && v < |s| && (forall k :: 0 <= k <= v ==> s[k] == k) && (v + 1 < |s| ==> s[v + 1] == v + 1)
    ensures multiset(s)[v] == 1
  {
    OnceBetween(s[..v], v, s[v + 1..]);
    assert s == s[..v] + [v] + s[v + 1..];
  }

  lemma OnceBetween(s: seq<int>, v: int, t: seq<int>)
    requires v !in s && v !in t
    ensures multiset(s + [v] + t)[v] == 1
  {
    assert multiset(s)[v] == 0 && multiset(t)[v] == 0;
  }

  /**
   * UnusedID returns the least unused ID exactly when zero and every ID below the one before it is met once: an ID of
   * zero, or a repeated ID, that lies lower makes it return an ID that is in use.
   */
  lemma UnusedExactly(used: seq<U32>, m: int)
    requires LeastUnused(used, m)
    ensures FirstGap(Sort([0] + used), 0) == m <==> OnceBelow(used, m)
  {
    SortedIDs(used);
    if OnceBelow(used, m) {
      OnceGivesLeast(Sort([0] + used), m);
    }
    if FirstGap(Sort([0] + used), 0) == m {
      forall v | 0 <= v < m - 1 ensures multiset([0] + used)[v] == 1 {
        OnceInSorted(Sort([0] + used), v);
      }
    }
  }

  lemma SortedIDs(used: seq<U32>)
    ensures var s := Sort([0] + used); |s| > 0 && s[0] == 0 && forall x :: x in s <==> x == 0 || x in used
  {
    var s := Sort([0] + used);
    ZeroFirst(used);
    forall x ensures x in s <==> x == 0 || x in used {
      assert x in s <==> x in multiset(s);
      assert x in [0] + used <==> x in multiset([0] + used);
    }
  }

  lemma OnceGivesLeast(s: seq<int>, m: nat)
    requires Sorted(s) && |s| > 0 && s[0] == 0 && 1 <= m && m !in s && (forall v :: 0 <= v < m ==> v in s)
    requires forall v :: 0 <= v < m - 1 ==> multiset(s)[v] == 1
    ensures FirstGap(s, 0) == m
  {
    forall k: nat | k < m ensures k < |s| && s[k] == k {
      PrefixIsIdentity(s, m, k);
    }
    var g := FirstGap(s, 0);
    assert m - 1 < |s|;
    forall k: nat | k < g ensures k in s {
      assert s[k] == k;
    }
  }

  /** No ID is zero, and none is met twice. */
  predicate Distinct(used: seq<U32>) {
    forall x <- used :: x != 0 && multiset(used)[x] == 1
  }

  /** No ID but zero is met twice. */
  predicate Once(used: seq<U32>) {
    forall x <- used :: x != 0 ==> multiset(used)[x] == 1
  }

  /**
   * A resource by its ID, and whether its own validation reports an ID of zero: that of an object, of base materials
   * and of the materials extension does, that of a slice stack and of an unknown asset does not.
   */
  datatype Resource = Resource(id: U32, checksID: bool)

  function IDs(rs: seq<Resource>): (r: seq<U32>)
    ensures |r| == |rs| && forall i | 0 <= i < |rs| :: r[i] == rs[i].id
  {
    seq(|rs|, i requires 0 <= i < |rs| => rs[i].id)
  }

  function AsObjects(ids: seq<U32>): (r: seq<Resource>)
    ensures |r| == |ids| && forall i | 0 <= i < |ids| :: r[i] == Resource(ids[i], true)
  {
    seq(|ids|, i requires 0 <= i < |ids| => Resource(ids[i], true))
  }

  datatype IDFault = MissingID(i: nat) | DuplicatedID(i: nat)

  /** What is reported of a resource: that its ID is missing, if its kind checks it, or that it was met before. */
  function IDFaultAt(before: seq<U32>, r: Resource): seq<IDFault> {
    if r.id == 0 then if r.checksID then [MissingID(|before|)] else []
    else if r.id in before then [DuplicatedID(|before|)] else []
  }

  function IDFaults(rs: seq<Resource>): seq<IDFault> {
    if rs == [] then []
    else
      var n := |rs| - 1;
      IDFaults(rs[..n]) + IDFaultAt(IDs(rs[..n]), rs[n])
  }

  lemma NextID(rs: seq<Resource>, r: Resource)
    ensures IDFaults(rs + [r]) == IDFaults(rs) + IDFaultAt(IDs(rs), r)
  {
    assert (rs + [r])[..|rs|] == rs;
  }

  /** What validation demands: the ID is there where it is checked, and none but zero is met twice. */
  predicate ValidIDs(rs: seq<Resource>) {
    (forall r <- rs :: r.checksID ==> r.id != 0) && Once(IDs(rs))
  }

  /** What the loops know after n resources. */
  ghost predicate Checked(errs: seq<IDFault>, met: set<int>, rs: seq<Resource>, n: nat)
    requires n <= |rs|
  {
    errs == IDFaults(rs[..n]) && forall x :: x in met <==> x in IDs(rs[..n])
  }

  /** The two loops of Resources.validate over one set of IDs; a missing ID is reported by the resource itself. */
  method ValidateIDs(assets: seq<Resource>, objects: seq<U32>) returns (errs: seq<IDFault>)
    ensures errs == IDFaults(assets + AsObjects(objects))
    ensures errs == [] <==> ValidIDs(assets + AsObjects(objects))
  {
    ghost var all := assets + AsObjects(objects);
    NoneChecked(all);
    var met: set<int>;
    errs, met := CheckAssets(assets, all);
    errs := CheckObjects(errs, met, objects, |assets|, all);
    AllChecked(errs, all);
  }

  method CheckAssets(assets: seq<Resource>, ghost all: seq<Resource>) returns (errs: seq<IDFault>, met: set<int>)
    requires assets <= all && Checked([], {}, all, 0)
    ensures Checked(errs, met, all, |assets|)
  {
    errs, met := [], {};
    for i := 0 to |assets|
      invariant Checked(errs, met, all, i)
    {
      errs, met := CheckID(errs, met, assets[i], i, all);
    }
  }

  method CheckObjects(before: seq<IDFault>, known: set<int>, objects: seq<U32>, n: nat, ghost all: seq<Resource>)
    returns (errs: seq<IDFault>)
    requires n <= |all| && all[n..] == AsObjects(objects) && Checked(before, known, all, n)
    ensures errs == IDFaults(all[..|all|])
  {
    errs := before;
    var met := known;
    for i := 0 to |objects|
      invariant Checked(errs, met, all, n + i)
    {
      assert all[n + i] == all[n..][i];
      errs, met := CheckID(errs, met, Resource(objects[i], true), n + i, all);
    }
    assert |all| == n + |objects|;
  }

  lemma NoneChecked(rs: seq<Resource>)
    ensures Checked([], {}, rs, 0)
  {
  }

  lemma AllChecked(errs: seq<IDFault>, rs: seq<Resource>)
    requires errs == IDFaults(rs[..|rs|])
    ensures errs == IDFaults(rs) && (errs == [] <==> ValidIDs(rs))
  {
    assert rs[..|rs|] == rs;
    NoIDFaults(rs);
  }

  lemma IDsSnoc(rs: seq<Resource>, r: Resource)
    ensures IDs(rs + [r]) == IDs(rs) + [r.id]
  {
  }

  /** The body of both loops: only an ID that is not zero is looked up. */
  method CheckID(errs: seq<IDFault>, met: set<int>, r: Resource, n: nat, ghost rs: seq<Resource>)
    returns (errs': seq<IDFault>, met': set<int>)
    requires n < |rs| && r == rs[n] && Checked(errs, met, rs, n)
    ensures Checked(errs', met', rs, n + 1)
  {
    errs' := errs;
    if r.id != 0 && r.id in met {
      errs' := errs' + [DuplicatedID(n)];
    }
    met' := met + {r.id};
    if r.checksID && r.id == 0 {
      errs' := errs' + [MissingID(n)];
    }
    assert rs[..n + 1] == rs[..n] + [r];
    NextID(rs[..n], r);
    IDsSnoc(rs[..n], r);
  }

  lemma {:induction false} NoIDFaults(rs: seq<Resource>)
    ensures IDFaults(rs) == [] <==> ValidIDs(rs)
  {
    if rs != [] {
      var n := |rs| - 1;
      NoIDFaults(rs[..n]);
      ValidStep(rs, rs[..n], rs[n]);
      NextID(rs[..n], rs[n]);
      assert rs == rs[..n] + [rs[n]];
    }
  }

  lemma ValidStep(all: seq<Resource>, rs: seq<Resource>, r: Resource)
    requires all == rs + [r]
    ensures ValidIDs(all) <==> ValidIDs(rs) && if r.id == 0 then !r.checksID else r.id !in IDs(rs)
  {
    IDsSnoc(rs, r);
    OnceStep(IDs(rs), r.id);
    assert forall x :: x in all <==> x in rs || x == r;
  }

  lemma OnceStep(used: seq<U32>, id: U32)
    ensures Once(used + [id]) <==> Once(used) && (id == 0 || id !in used)
  {
    var more := used + [id];
    assert multiset(more) == multiset(used) + multiset{id};
    assert id in used <==> id in multiset(used);
    assert id in more && forall x <- used :: x in more && x in multiset(used);
    if Once(used) && (id == 0 || id !in used) {
      forall x | x in more && x != 0 ensures multiset(more)[x] == 1 {
        assert x == id || x in used;
      }
    }
  }

  /**
   * Of a model whose IDs validate, UnusedID returns the least unused one exactly when no resource has ID zero or
   * none has ID one.
   */
  lemma ValidatedExactly(rs: seq<Resource>, m: int)
    requires ValidIDs(rs) && LeastUnused(IDs(rs), m)
    ensures FirstGap(Sort([0] + IDs(rs)), 0) == m <==> 0 !in IDs(rs) || 1 !in IDs(rs)
  {
    var used := IDs(rs);
    UnusedExactly(used, m);
    assert multiset([0] + used)[0] == 1 + multiset(used)[0];
    assert 0 in used <==> 0 in multiset(used);
    if 0 !in used || 1 !in used {
      forall v | 0 <= v < m - 1 ensures multiset([0] + used)[v] == 1 {
        assert v == 0 || v in used;
        assert 1 in used;
      }
    } else {
      assert m != 1;
    }
  }

  /**
   * An unknown asset without an ID and an object with ID 1: validation reports nothing, and yet UnusedID returns 1, so
   * that what is imported gets the ID of the object.
   */
  lemma UnknownAssetMisleads()
    ensures var rs := [Resource(0, false)] + AsObjects([1]);
      ValidIDs(rs) && IDs(rs) == [0, 1] && FirstGap(Sort([0] + IDs(rs)), 0) == 1
      && !ValidIDs(rs + AsObjects([1]))
  {
    var rs := [Resource(0, false)] + AsObjects([1]);
    assert IDs(rs) == [0, 1];
    ZeroMisleads();
    assert Once([0, 1]) by {
      assert multiset([0, 1])[1] == 1;
    }
    assert rs + AsObjects([1]) == rs + [Resource(1, true)];
    ValidStep(rs + [Resource(1, true)], rs, Resource(1, true));
    assert IDs(rs)[1] == 1;
  }

  lemma DistinctOnce(used: seq<U32>, m: int)
    requires Distinct(used) && LeastUnused(used, m)
    ensures OnceBelow(used, m)
  {
    forall v | 0 <= v < m - 1 ensures multiset([0] + used)[v] == 1 {
      assert v == 0 || v in used;
      assert 0 !in used;
    }
  }

  /** There is a least unused ID, no higher than the number of IDs and one. */
  lemma {:induction false} LeastExists(used: seq<U32>, from: int) returns (m: int)
    requires 1 <= from <= |used| + 1 && forall k :: 1 <= k < from ==> k in used
    ensures LeastUnused(used, m) && m <= |used| + 1
    decreases |used| + 1 - from
  {
    if from !in used {
      return from;
    }
    if from == |used| + 1 {
      Pigeonhole(used, from);
      assert false;
    } else {
      m := LeastExists(used, from + 1);
    }
  }

  lemma {:induction false} Pigeonhole(used: seq<U32>, n: nat)
    requires forall k :: 1 <= k <= n ==> k in used
    ensures n <= |used|
    decreases n
  {
    if n > 0 {
      assert n in used;
      var i :| 0 <= i < |used| && used[i] == n;
      var rest := used[..i] + used[i + 1..];
      forall k | 1 <= k <= n - 1 ensures k in rest {
        assert k in used;
        var j :| 0 <= j < |used| && used[j] == k;
        assert rest[if j < i then j else j - 1] == k;
      }
      Pigeonhole(rest, n - 1);
    }
  }

  /** With IDs that are non-zero and distinct, UnusedID returns the least unused one. */
  lemma DistinctGivesLeast(used: seq<U32>)
    requires Distinct(used)
    ensures var g := FirstGap(Sort([0] + used), 0); LeastUnused(used, g) && g <= |used| + 1
  {
    var m := LeastExists(used, 1);
    DistinctOnce(used, m);
    UnusedExactly(used, m);
  }

  /**
   * The ID of an import joins the IDs of the model, which stay non-zero and distinct however often this is repeated.
   */
  method ImportID(assets: seq<U32>, objects: seq<U32>) returns (id: U32, objects': seq<U32>)
    requires Distinct(assets + objects) && |assets| + |objects| < 0xFFFF_FFFF
    ensures LeastUnused(assets + objects, id) && objects' == objects + [id] && Distinct(assets + objects')
  {
    ghost var used := assets + objects;
    DistinctGivesLeast(used);
    id := UnusedID(assets, objects);
    objects' := objects + [id];
    DistinctSnoc(used, id);
    assert assets + objects' == used + [id];
  }

  lemma DistinctSnoc(used: seq<U32>, id: U32)
    requires Distinct(used) && id != 0 && id !in used
    ensures Distinct(used + [id])
  {
    forall x | x in used + [id] ensures x != 0 && multiset(used + [id])[x] == 1 {
      assert x == id || x in used;
    }
  }

  /** An asset without an ID makes UnusedID return an ID in use. */
  lemma ZeroMisleads()
    ensures FirstGap(Sort([0] + [0, 1]), 0) == 1
  {
    assert [0] + [0, 1] == [0, 0, 1] && [0, 0, 1][1..] == [0, 1] && [0, 1][1..] == [1] && [1][1..] == [];
    assert Insert(1, []) == [1] && Insert(0, [1]) == [0, 1] && Insert(0, [0, 1]) == [0, 0, 1];
    assert Sort([1]) == [1] && Sort([0, 1]) == [0, 1] && Sort([0, 0, 1]) == [0, 0, 1];
  }
}
