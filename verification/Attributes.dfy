/**
 * What the attributes of triangles, segments and beams mean, whatever their number and order: which one counts, what
 * stands for those that are missing, which errors are reported, and which attributes an encoder leaves out.
 */
module Attributes {
  import opened Wrappers
  import opened Coherency
  import opened Elision

  // ---- Which attribute counts ----

  /** The last attribute with this name. */
  predicate IsLast(attrs: seq<NumAttr>, f: Field, i: nat) {
    i < |attrs| && attrs[i].field == f && forall j :: i < j < |attrs| ==> attrs[j].field != f
  }

  predicate Missing(attrs: seq<NumAttr>, f: Field) {
    forall a <- attrs :: a.field != f
  }

  /** v is the value of the last attribute with this name, or the default if there is none. */
  ghost predicate Stands(attrs: seq<NumAttr>, f: Field, default: U32, v: U32) {
    if Missing(attrs, f) then v == default else exists i: nat :: IsLast(attrs, f, i) && attrs[i].value == v
  }

  lemma {:induction false} LastStands(attrs: seq<NumAttr>, f: Field, default: U32)
    ensures Last(attrs, f).None? <==> Missing(attrs, f)
    ensures Stands(attrs, f, default, ApplyDefault(Last(attrs, f), default))
    decreases |attrs|
  {
    if attrs != [] {
      var n := |attrs| - 1;
      LastStands(attrs[..n], f, default);
      assert forall a :: a in attrs <==> a in attrs[..n] || a == attrs[n];
      if attrs[n].field == f {
        assert IsLast(attrs, f, n);
      } else if !Missing(attrs[..n], f) {
        var i: nat :| IsLast(attrs[..n], f, i) && attrs[..n][i].value == Last(attrs, f).value;
        assert IsLast(attrs, f, i);
      }
    }
  }

  /** A triangle: missing corners are zero, a missing property is that of the object, p2 and p3 follow p1. */
  lemma FaceMeans(attrs: seq<NumAttr>, d: Default)
    ensures var t := DecodeFace(attrs, d);
            && Stands(attrs, V1, 0, t.v1) && Stands(attrs, V2, 0, t.v2) && Stands(attrs, V3, 0, t.v3)
            && Stands(attrs, Pid, d.pid, t.pid) && Stands(attrs, P1, d.pindex, t.p1)
            && Stands(attrs, P2, t.p1, t.p2) && Stands(attrs, P3, t.p1, t.p3)
  {
    var p1 := DecodeFace(attrs, d).p1;
    LastStands(attrs, V1, 0);
    LastStands(attrs, V2, 0);
    LastStands(attrs, V3, 0);
    LastStands(attrs, Pid, d.pid);
    LastStands(attrs, P1, d.pindex);
    LastStands(attrs, P2, p1);
    LastStands(attrs, P3, p1);
  }

  /** A segment: what is missing is zero, but p2 follows p1. */
  lemma SegmentMeans(attrs: seq<NumAttr>)
    ensures var s := DecodeSegment(attrs);
            && Stands(attrs, V2, 0, s.v2) && Stands(attrs, Pid, 0, s.pid) && Stands(attrs, P1, 0, s.p1)
            && Stands(attrs, P2, s.p1, s.p2)
  {
    LastStands(attrs, V2, 0);
    LastStands(attrs, Pid, 0);
    LastStands(attrs, P1, 0);
    LastStands(attrs, P2, DecodeSegment(attrs).p1);
  }

  // ---- Errors ----

  predicate Bad(attrs: seq<NumAttr>, f: Field) {
    exists a <- attrs :: a.field == f && !a.ok
  }

  lemma {:induction false} FaultsAre(attrs: seq<NumAttr>, required: Field -> bool, f: Field, r: bool)
    ensures Fault(f, r) in Faults(attrs, required) <==> Bad(attrs, f) && r == required(f)
    decreases |attrs|
  {
    if attrs != [] {
      var n := |attrs| - 1;
      FaultsAre(attrs[..n], required, f, r);
      assert forall a :: a in attrs <==> a in attrs[..n] || a == attrs[n];
    }
  }

  function BadOnes(attrs: seq<NumAttr>): seq<Field>
    decreases |attrs|
  {
    if attrs == [] then [] else (if attrs[0].ok then [] else [attrs[0].field]) + BadOnes(attrs[1..])
  }

  lemma {:induction false} BadOnesSnoc(attrs: seq<NumAttr>, a: NumAttr)
    ensures BadOnes(attrs + [a]) == BadOnes(attrs) + if a.ok then [] else [a.field]
    decreases |attrs|
  {
    if attrs == [] {
      assert attrs + [a] == [a];
    } else {
      assert (attrs + [a])[1..] == attrs[1..] + [a];
      BadOnesSnoc(attrs[1..], a);
      var first, last := if attrs[0].ok then [] else [attrs[0].field], if a.ok then [] else [a.field];
      assert first + (BadOnes(attrs[1..]) + last) == first + BadOnes(attrs[1..]) + last;
    }
  }

  /** One for each attribute that does not parse, in their order. */
  lemma {:induction false} FaultsInOrder(attrs: seq<NumAttr>, required: Field -> bool)
    ensures var faults := Faults(attrs, required);
            |faults| == |BadOnes(attrs)| && forall i :: 0 <= i < |faults| ==> faults[i].field == BadOnes(attrs)[i]
    decreases |attrs|
  {
    if attrs != [] {
      var n := |attrs| - 1;
      FaultsInOrder(attrs[..n], required);
      assert attrs == attrs[..n] + [attrs[n]];
      BadOnesSnoc(attrs[..n], attrs[n]);
    }
  }

  /** Of a triangle, a property or index that does not parse is optional, all else required. */
  lemma TriangleFaults(attrs: seq<NumAttr>, f: Field, r: bool)
    ensures Fault(f, r) in Faults(attrs, FaceRequires) <==> Bad(attrs, f) && (r <==> f in {V1, V2, V3, Other})
  {
    FaultsAre(attrs, FaceRequires, f, r);
  }

  /** Of a segment, only the vertex is required. */
  lemma SegmentFaults(attrs: seq<NumAttr>, f: Field, r: bool)
    ensures Fault(f, r) in Faults(attrs, SegmentRequires) <==> Bad(attrs, f) && (r <==> f == V2)
  {
    FaultsAre(attrs, SegmentRequires, f, r);
  }

  /** Of a beam, both vertices are required, the radii optional; caps and other attributes are never reported. */
  lemma {:induction false} BeamFaultsAre(index: nat, attrs: seq<BeamAttr>, f: BeamFault)
    ensures f in BeamFaults(index, attrs) <==>
              && f.index == index && f.attr in attrs
              && (((f.attr.BV1? || f.attr.BV2?) && !f.attr.ok && f.required)
                  || ((f.attr.R1? || f.attr.R2?) && !f.attr.ok && !f.required))
    decreases |attrs|
  {
    if attrs != [] {
      var n := |attrs| - 1;
      BeamFaultsAre(index, attrs[..n], f);
      assert forall a :: a in attrs <==> a in attrs[..n] || a == attrs[n];
    }
  }

  // ---- Beams ----

  datatype Kind = OfBV1 | OfBV2 | OfR1 | OfR2 | OfCap1 | OfCap2

  predicate Is(k: Kind, a: BeamAttr) {
    match k
    case OfBV1 => a.BV1?
    case OfBV2 => a.BV2?
    case OfR1 => a.R1?
    case OfR2 => a.R2?
    case OfCap1 => a.Cap1?
    case OfCap2 => a.Cap2?
  }

  /** The index of the last attribute of a kind, or -1. */
  function LastOf(attrs: seq<BeamAttr>, k: Kind): (i: int)
    ensures -1 <= i < |attrs| && (i >= 0 ==> Is(k, attrs[i])) && forall j :: i < j < |attrs| ==> !Is(k, attrs[j])
    decreases |attrs|
  {
    if attrs == [] then -1
    else
      var n := |attrs| - 1;
      if Is(k, attrs[n]) then n else LastOf(attrs[..n], k)
  }

  function Number(attrs: seq<BeamAttr>, k: Kind): U32
    requires k in {OfBV1, OfBV2}
  {
    var i := LastOf(attrs, k);
    if i < 0 then 0 else attrs[i].n
  }

  function Radius(attrs: seq<BeamAttr>, k: Kind): real
    requires k in {OfR1, OfR2}
  {
    var i := LastOf(attrs, k);
    if i < 0 then 0.0 else attrs[i].r
  }

  function CapRead(attrs: seq<BeamAttr>, k: Kind): Cap
    requires k in {OfCap1, OfCap2}
  {
    var i := LastOf(attrs, k);
    if i < 0 || attrs[i].c.None? then Sphere else attrs[i].c.value
  }

  predicate KnownCap(attrs: seq<BeamAttr>, k: Kind)
    requires k in {OfCap1, OfCap2}
  {
    exists a <- attrs :: Is(k, a) && a.c.Some?
  }

  function ReadSoFar(attrs: seq<BeamAttr>): Partial {
    Partial(Beam(Number(attrs, OfBV1), Number(attrs, OfBV2), Radius(attrs, OfR1),
                 Radius(attrs, OfR2), CapRead(attrs, OfCap1), CapRead(attrs, OfCap2)),
            KnownCap(attrs, OfCap1), KnownCap(attrs, OfCap2))
  }

  lemma LastSnoc(attrs: seq<BeamAttr>, a: BeamAttr, k: Kind)
    ensures LastOf(attrs + [a], k) == if Is(k, a) then |attrs| else LastOf(attrs, k)
  {
    assert (attrs + [a])[..|attrs|] == attrs;
  }

  lemma CapSnoc(attrs: seq<BeamAttr>, a: BeamAttr, k: Kind)
    requires k in {OfCap1, OfCap2}
    ensures KnownCap(attrs + [a], k) <==> KnownCap(attrs, k) || (Is(k, a) && a.c.Some?)
  {
    assert forall x :: x in attrs + [a] <==> x in attrs || x == a;
  }

  lemma {:induction false} BeamRead(attrs: seq<BeamAttr>)
    ensures TakeBeamAttrs(NO_BEAM, attrs) == ReadSoFar(attrs)
    decreases |attrs|
  {
    if attrs != [] {
      var n := |attrs| - 1;
      var init, a := attrs[..n], attrs[n];
      assert attrs == init + [a];
      BeamRead(init);
      TakeAppend(NO_BEAM, init, [a]);
      TakeFew(TakeBeamAttrs(NO_BEAM, init), [a]);
      ReadOneMore(init, a);
    }
  }

  lemma ReadOneMore(attrs: seq<BeamAttr>, a: BeamAttr)
    ensures ReadSoFar(attrs + [a]) == TakeBeamAttr(ReadSoFar(attrs), a)
  {
    NumberMore(attrs, a, OfBV1);
    NumberMore(attrs, a, OfBV2);
    RadiusMore(attrs, a, OfR1);
    RadiusMore(attrs, a, OfR2);
    CapMore(attrs, a, OfCap1);
    CapMore(attrs, a, OfCap2);
  }

  lemma NumberMore(attrs: seq<BeamAttr>, a: BeamAttr, k: Kind)
    requires k in {OfBV1, OfBV2}
    ensures Number(attrs + [a], k) == if Is(k, a) then a.n else Number(attrs, k)
  {
    LastSnoc(attrs, a, k);
  }

  lemma RadiusMore(attrs: seq<BeamAttr>, a: BeamAttr, k: Kind)
    requires k in {OfR1, OfR2}
    ensures Radius(attrs + [a], k) == if Is(k, a) then a.r else Radius(attrs, k)
  {
    LastSnoc(attrs, a, k);
  }

  lemma CapMore(attrs: seq<BeamAttr>, a: BeamAttr, k: Kind)
    requires k in {OfCap1, OfCap2}
    ensures CapRead(attrs + [a], k)
         == if !Is(k, a) then CapRead(attrs, k) else if a.c.Some? then a.c.value else Sphere
    ensures KnownCap(attrs + [a], k) <==> KnownCap(attrs, k) || (Is(k, a) && a.c.Some?)
  {
    LastSnoc(attrs, a, k);
    CapSnoc(attrs, a, k);
  }

  /**
   * A beam: the last of each attribute counts; a first radius of zero is that of the lattice, a second one is the
   * first; and where no cap mode was recognised it is that of the lattice.
   */
  lemma BeamMeans(attrs: seq<BeamAttr>, m: Lattice)
    ensures var b := DecodeBeam(attrs, m);
            && b.i1 == Number(attrs, OfBV1) && b.i2 == Number(attrs, OfBV2)
            && (var r := Radius(attrs, OfR1); b.r1 == if r != 0.0 then r else m.radius)
            && (var r := Radius(attrs, OfR2); b.r2 == if r != 0.0 then r else b.r1)
            && b.cap1 == (if KnownCap(attrs, OfCap1) then CapRead(attrs, OfCap1) else m.cap)
            && b.cap2 == (if KnownCap(attrs, OfCap2) then CapRead(attrs, OfCap2) else m.cap)
  {
    BeamRead(attrs);
  }

  // ---- What is left out ----

  /** The first n attributes say what the whole triangle is. */
  predicate Enough(t: Face, d: Default, all: seq<NumAttr>, n: nat)
    requires n <= |all|
  {
    DecodeFace(all[..n], d) == t
  }

  /**
   * Of the seven attributes, the first three are written of a triangle without a property; of any other, the first
   * three, five or seven, whichever is the least that says all.
   */
  lemma FaceIsShortest(t: Face, d: Default)
    ensures var all := [FormatUint(V1, t.v1), FormatUint(V2, t.v2), FormatUint(V3, t.v3), FormatUint(Pid, t.pid),
                        FormatUint(P1, t.p1), FormatUint(P2, t.p2), FormatUint(P3, t.p3)];
            EncodeFace(t, d) == all[..if t.pid == 0 || Enough(t, d, all, 3) then 3
                                      else if Enough(t, d, all, 5) then 5 else 7]
  {
    var all := [FormatUint(V1, t.v1), FormatUint(V2, t.v2), FormatUint(V3, t.v3), FormatUint(Pid, t.pid),
                FormatUint(P1, t.p1), FormatUint(P2, t.p2), FormatUint(P3, t.p3)];
    FirstFields(all[..3], all, 3, d, t);
    FirstFields(all[..5], all, 5, d, t);
    assert all[..7] == all;
  }

  lemma LastOne(attrs: seq<NumAttr>, a: NumAttr, f: Field)
    ensures Last(attrs + [a], f) == if a.field == f then Some(a.value) else Last(attrs, f)
  {
    assert (attrs + [a])[..|attrs|] == attrs;
  }

  lemma LastThree(t: Face, f: Field)
    ensures Last([FormatUint(V1, t.v1), FormatUint(V2, t.v2), FormatUint(V3, t.v3)], f)
         == if f == V1 then Some(t.v1) else if f == V2 then Some(t.v2) else if f == V3 then Some(t.v3) else None
  {
    var a, b, c := FormatUint(V1, t.v1), FormatUint(V2, t.v2), FormatUint(V3, t.v3);
    assert [] + [a] == [a] && [a] + [b] == [a, b] && [a, b] + [c] == [a, b, c];
    LastOne([], a, f);
    LastOne([a], b, f);
    LastOne([a, b], c, f);
  }

  lemma LastFive(t: Face, f: Field, five: seq<NumAttr>)
    requires five == [FormatUint(V1, t.v1), FormatUint(V2, t.v2), FormatUint(V3, t.v3)] + [FormatUint(Pid, t.pid)]
                     + [FormatUint(P1, t.p1)]
    ensures Last(five, f) == match f {
              case V1 => Some(t.v1) case V2 => Some(t.v2) case V3 => Some(t.v3)
              case Pid => Some(t.pid) case P1 => Some(t.p1) case P2 => None case P3 => None case Other => None
            }
  {
    var three := [FormatUint(V1, t.v1), FormatUint(V2, t.v2), FormatUint(V3, t.v3)];
    LastThree(t, f);
    LastOne(three, FormatUint(Pid, t.pid), f);
    LastOne(three + [FormatUint(Pid, t.pid)], FormatUint(P1, t.p1), f);
  }

  lemma FirstFields(attrs: seq<NumAttr>, all: seq<NumAttr>, n: nat, d: Default, t: Face)
    requires all == [FormatUint(V1, t.v1), FormatUint(V2, t.v2), FormatUint(V3, t.v3), FormatUint(Pid, t.pid),
                     FormatUint(P1, t.p1), FormatUint(P2, t.p2), FormatUint(P3, t.p3)]
    requires n in {3, 5} && attrs == all[..n]
    ensures DecodeFace(attrs, d) == if n == 3 then Face(t.v1, t.v2, t.v3, d.pid, d.pindex, d.pindex, d.pindex)
                                    else Face(t.v1, t.v2, t.v3, t.pid, t.p1, t.p1, t.p1)
  {
    var three := [FormatUint(V1, t.v1), FormatUint(V2, t.v2), FormatUint(V3, t.v3)];
    if n == 3 {
      assert attrs == three;
      forall f: Field ensures Last(attrs, f) == Last(three, f) && (f in {Pid, P1, P2, P3} ==> Last(three, f) == None) {
        LastThree(t, f);
      }
      LastThree(t, V1);
      LastThree(t, V2);
      LastThree(t, V3);
    } else {
      assert attrs == three + [FormatUint(Pid, t.pid)] + [FormatUint(P1, t.p1)];
      LastFive(t, V1, attrs);
      LastFive(t, V2, attrs);
      LastFive(t, V3, attrs);
      LastFive(t, Pid, attrs);
      LastFive(t, P1, attrs);
      LastFive(t, P2, attrs);
      LastFive(t, P3, attrs);
    }
  }

  /** Of a segment with a property, a second index is written exactly if it is not the first. */
  lemma SegmentIsShortest(s: Segment)
    ensures var all := [FormatUint(V2, s.v2), FormatUint(Pid, s.pid), FormatUint(P1, s.p1), FormatUint(P2, s.p2)];
            EncodeSegment(s) == all[..if s.pid == 0 then 1 else if DecodeSegment(all[..3]) == s then 3 else 4]
  {
    var all := [FormatUint(V2, s.v2), FormatUint(Pid, s.pid), FormatUint(P1, s.p1), FormatUint(P2, s.p2)];
    var three := all[..3];
    LastAt(three, V2);
    LastAt(three, Pid);
    LastAt(three, P1);
    LastAt(three, P2);
    assert three[0] == all[0] && three[1] == all[1] && three[2] == all[2] && all[..4] == all;
  }

  /** Of a beam, a radius is written exactly if it is positive and not the lattice's, a cap exactly if it is not. */
  lemma BeamIsShort(b: Beam, m: Lattice, a: BeamAttr)
    ensures a in EncodeBeam(b, m) <==>
              || a in {BV1(b.i1, true), BV2(b.i2, true)}
              || (a == R1(b.r1, true) && b.r1 > 0.0 && b.r1 != m.radius)
              || (a == R2(b.r2, true) && b.r2 > 0.0 && b.r2 != m.radius)
              || (a == Cap1(Some(b.cap1)) && b.cap1 != m.cap) || (a == Cap2(Some(b.cap2)) && b.cap2 != m.cap)
  {
  }
}
