/**
 * Attributes left out when they would only say the default, and put back by the decoder: triangles, slice segments
 * and beams. Number text is an exact inverse of the number, except where it is not a number at all.
 */
module Elision {
  import opened Wrappers
  import opened Coherency

  /** The attribute names of triangles and segments; Other is any name the decoders do not know. */
  datatype Field = V1 | V2 | V3 | Pid | P1 | P2 | P3 | Other

  /** An attribute and what ParseUint makes of its text: the value it returns, and whether there is no error. */
  datatype NumAttr = NumAttr(field: Field, value: U32, ok: bool)

  /** ParseAttrError: the attribute that failed to parse, and whether it is required. */
  datatype Fault = Fault(field: Field, required: bool)

  function FormatUint(field: Field, value: U32): NumAttr {
    NumAttr(field, value, true)
  }

  /** The value of the last attribute with a name: an attribute that is repeated overrides itself. */
  function Last(attrs: seq<NumAttr>, field: Field): Option<U32>
    decreases |attrs|
  {
    if attrs == [] then None
    else
      var a := attrs[|attrs| - 1];
      if a.field == field then Some(a.value) else Last(attrs[..|attrs| - 1], field)
  }

  function ApplyDefault(val: Option<U32>, defVal: U32): U32 {
    if val.Some? then val.value else defVal
  }

  /** The faults of an attribute list, in order, where a name counts as required or not. */
  function Faults(attrs: seq<NumAttr>, required: Field -> bool): seq<Fault>
    decreases |attrs|
  {
    if attrs == [] then []
    else
      var a := attrs[|attrs| - 1];
      Faults(attrs[..|attrs| - 1], required) + if a.ok then [] else [Fault(a.field, required(a.field))]
  }

  // ---- Triangles ----

  datatype Face = Face(v1: U32, v2: U32, v3: U32, pid: U32, p1: U32, p2: U32, p3: U32)

  /** The property the object gives to triangles that name none. */
  datatype Default = Default(pid: U32, pindex: U32)

  /** The attributes of one triangle. */
  function EncodeFace(t: Face, d: Default): seq<NumAttr> {
    var vs := [FormatUint(V1, t.v1), FormatUint(V2, t.v2), FormatUint(V3, t.v3)];
    if t.pid == 0 then vs
    else if t.p1 != t.p2 || t.p1 != t.p3 then
      vs + [FormatUint(Pid, t.pid), FormatUint(P1, t.p1), FormatUint(P2, t.p2), FormatUint(P3, t.p3)]
    else if t.pid != d.pid || t.p1 != d.pindex then vs + [FormatUint(Pid, t.pid), FormatUint(P1, t.p1)]
    else vs
  }

  /** writeTriangles: one array of attributes is overwritten for every triangle, and a prefix of it is emitted. */
  method WriteTriangles(ts: seq<Face>, d: Default) returns (out: seq<seq<NumAttr>>)
    ensures |out| == |ts| && forall i :: 0 <= i < |ts| ==> out[i] == EncodeFace(ts[i], d)
  {
    out := [];
    var attrs := new NumAttr[7][FormatUint(V1, 0), FormatUint(V2, 0), FormatUint(V3, 0),
                                FormatUint(Pid, 0), FormatUint(P1, 0), FormatUint(P2, 0), FormatUint(P3, 0)];
    for i := 0 to |ts|
      invariant |out| == i && forall k :: 0 <= k < i ==> out[k] == EncodeFace(ts[k], d)
    {
      var t := ts[i];
      attrs[0], attrs[1], attrs[2] := FormatUint(V1, t.v1), FormatUint(V2, t.v2), FormatUint(V3, t.v3);
      var n := 3;
      if t.pid != 0 {
        if t.p1 != t.p2 || t.p1 != t.p3 {
          attrs[3], attrs[4] := FormatUint(Pid, t.pid), FormatUint(P1, t.p1);
          attrs[5], attrs[6] := FormatUint(P2, t.p2), FormatUint(P3, t.p3);
          n := 7;
        } else if t.pid != d.pid || t.p1 != d.pindex {
          attrs[3], attrs[4] := FormatUint(Pid, t.pid), FormatUint(P1, t.p1);
          n := 5;
        }
      }
      assert attrs[..n] == EncodeFace(t, d);
      out := out + [attrs[..n]];
    }
  }

  /** What a triangle's attributes mean, in any order and number. */
  function DecodeFace(attrs: seq<NumAttr>, d: Default): Face {
    var p1 := ApplyDefault(Last(attrs, P1), d.pindex);
    Face(ApplyDefault(Last(attrs, V1), 0), ApplyDefault(Last(attrs, V2), 0), ApplyDefault(Last(attrs, V3), 0),
         ApplyDefault(Last(attrs, Pid), d.pid), p1, ApplyDefault(Last(attrs, P2), p1),
             ApplyDefault(Last(attrs, P3), p1))
  }

  predicate FaceRequires(f: Field) {
    !(f in {Pid, P1, P2, P3})
  }

  method ReadTriangle(attrs: seq<NumAttr>, d: Default) returns (t: Face, errs: seq<Fault>)
    ensures t == DecodeFace(attrs, d) && errs == Faults(attrs, FaceRequires)
  {
    t, errs := Face(0, 0, 0, 0, 0, 0, 0), [];
    var pid: Option<U32>, p1: Option<U32>, p2: Option<U32>, p3: Option<U32> := None, None, None, None;
    for i := 0 to |attrs|
      invariant t == Face(ApplyDefault(Last(attrs[..i], V1), 0), ApplyDefault(Last(attrs[..i], V2), 0),
          ApplyDefault(Last(attrs[..i], V3), 0), 0, 0, 0, 0)
      invariant pid == Last(attrs[..i], Pid) && p1 == Last(attrs[..i], P1)
      invariant p2 == Last(attrs[..i], P2) && p3 == Last(attrs[..i], P3)
      invariant errs == Faults(attrs[..i], FaceRequires)
    {
      var a := attrs[i];
      assert attrs[..i + 1][..i] == attrs[..i];
      var required := true;
      match a.field {
        case V1 => t := t.(v1 := a.value);
        case V2 => t := t.(v2 := a.value);
        case V3 => t := t.(v3 := a.value);
        case Pid => pid, required := Some(a.value), false;
        case P1 => p1, required := Some(a.value), false;
        case P2 => p2, required := Some(a.value), false;
        case P3 => p3, required := Some(a.value), false;
        case Other =>
      }
      if !a.ok {
        errs := errs + [Fault(a.field, required)];
      }
    }
    assert attrs[..|attrs|] == attrs;
    var q := ApplyDefault(p1, d.pindex);
    t := t.(pid := ApplyDefault(pid, d.pid), p1 := q, p2 := ApplyDefault(p2, q), p3 := ApplyDefault(p3, q));
  }

  /** Exactly the triangles that survive: those with a property, and those without one where it would not come back. */
  predicate FaceSurvives(t: Face, d: Default) {
    t.pid != 0 || (d.pid == 0 && t.p1 == t.p2 == t.p3 == d.pindex)
  }

  lemma FaceRoundTrip(t: Face, d: Default)
    ensures DecodeFace(EncodeFace(t, d), d) == t <==> FaceSurvives(t, d)
    ensures EncodeFace(DecodeFace(EncodeFace(t, d), d), d) == EncodeFace(t, d)
  {
    var attrs := EncodeFace(t, d);
    LastOfFace(t, d, V1);
    LastOfFace(t, d, V2);
    LastOfFace(t, d, V3);
    LastOfFace(t, d, Pid);
    LastOfFace(t, d, P1);
    LastOfFace(t, d, P2);
    LastOfFace(t, d, P3);
  }

  /** Each field of an encoded triangle can be read off by its position. */
  lemma LastOfFace(t: Face, d: Default, f: Field)
    ensures var attrs := EncodeFace(t, d);
            Last(attrs, f) == match f {
              case V1 => Some(t.v1) case V2 => Some(t.v2) case V3 => Some(t.v3)
              case Pid => if |attrs| > 3 then Some(t.pid) else None
              case P1 => if |attrs| > 3 then Some(t.p1) else None
              case P2 => if |attrs| == 7 then Some(t.p2) else None
              case P3 => if |attrs| == 7 then Some(t.p3) else None
              case Other => None
            }
  {
    var attrs := EncodeFace(t, d);
    LastAt(attrs, f);
    assert attrs[0] == FormatUint(V1, t.v1) && attrs[1] == FormatUint(V2, t.v2) && attrs[2] == FormatUint(V3, t.v3);
    if |attrs| > 3 {
      assert attrs[3] == FormatUint(Pid, t.pid) && attrs[4] == FormatUint(P1, t.p1);
    }
    if |attrs| == 7 {
      assert attrs[5] == FormatUint(P2, t.p2) && attrs[6] == FormatUint(P3, t.p3);
    }
  }

  /** With distinct names, the last attribute of a name is the only one. */
  lemma {:induction false} LastAt(attrs: seq<NumAttr>, f: Field)
    requires forall i, j :: 0 <= i < j < |attrs| ==> attrs[i].field != attrs[j].field
    ensures (forall i :: 0 <= i < |attrs| && attrs[i].field == f ==> Last(attrs, f) == Some(attrs[i].value))
    ensures (forall i :: 0 <= i < |attrs| ==> attrs[i].field != f) ==> Last(attrs, f).None?
    decreases |attrs|
  {
    if attrs != [] {
      var init := attrs[..|attrs| - 1];
      LastAt(init, f);
      forall i | 0 <= i < |attrs| && attrs[i].field == f ensures Last(attrs, f) == Some(attrs[i].value) {
        if i < |init| {
          assert init[i] == attrs[i];
        }
      }
    }
  }

  function EncodeFaces(ts: seq<Face>, d: Default): (r: seq<seq<NumAttr>>)
    ensures |r| == |ts| && forall i :: 0 <= i < |r| ==> r[i] == EncodeFace(ts[i], d)
  {
    seq(|ts|, i requires 0 <= i < |ts| => EncodeFace(ts[i], d))
  }

  function DecodeFaces(ls: seq<seq<NumAttr>>, d: Default): (r: seq<Face>)
    ensures |r| == |ls| && forall i :: 0 <= i < |r| ==> r[i] == DecodeFace(ls[i], d)
  {
    seq(|ls|, i requires 0 <= i < |ls| => DecodeFace(ls[i], d))
  }

  /**
   * A triangle list decodes back to itself exactly when each of its triangles survives; what is written never changes
   * again.
   */
  lemma FacesRoundTrip(ts: seq<Face>, d: Default)
    ensures DecodeFaces(EncodeFaces(ts, d), d) == ts <==> forall t <- ts :: FaceSurvives(t, d)
    ensures EncodeFaces(DecodeFaces(EncodeFaces(ts, d), d), d) == EncodeFaces(ts, d)
  {
    var back := DecodeFaces(EncodeFaces(ts, d), d);
    forall i | 0 <= i < |ts|
      ensures back[i] == ts[i] <==> FaceSurvives(ts[i], d)
      ensures EncodeFace(back[i], d) == EncodeFace(ts[i], d)
    {
      FaceRoundTrip(ts[i], d);
    }
    if back == ts {
      forall t | t in ts ensures FaceSurvives(t, d) {
        var i :| 0 <= i < |ts| && ts[i] == t;
        assert back[i] == ts[i];
      }
    }
  }

  // ---- Segments of slice polygons ----

  datatype Segment = Segment(v2: U32, pid: U32, p1: U32, p2: U32)

  function EncodeSegment(s: Segment): seq<NumAttr> {
    if s.pid == 0 then [FormatUint(V2, s.v2)]
    else if s.p1 != s.p2 then [FormatUint(V2, s.v2), FormatUint(Pid, s.pid), FormatUint(P1, s.p1), FormatUint(P2, s.p2)]
    else [FormatUint(V2, s.v2), FormatUint(Pid, s.pid), FormatUint(P1, s.p1)]
  }

  /** The segment loop of marshalPolygons, over one array of attributes. */
  method WriteSegments(segments: seq<Segment>) returns (out: seq<seq<NumAttr>>)
    ensures |out| == |segments| && forall i :: 0 <= i < |segments| ==> out[i] == EncodeSegment(segments[i])
  {
    out := [];
    var attrs := new NumAttr[4][FormatUint(V2, 0), FormatUint(Pid, 0), FormatUint(P1, 0), FormatUint(P2, 0)];
    for i := 0 to |segments|
      invariant |out| == i && forall k :: 0 <= k < i ==> out[k] == EncodeSegment(segments[k])
    {
      var s := segments[i];
      attrs[0] := FormatUint(V2, s.v2);
      var n := 1;
      if s.pid != 0 {
        attrs[1], attrs[2] := FormatUint(Pid, s.pid), FormatUint(P1, s.p1);
        if s.p1 != s.p2 {
          attrs[3] := FormatUint(P2, s.p2);
          n := 4;
        } else {
          n := 3;
        }
      }
      assert attrs[..n] == EncodeSegment(s);
      out := out + [attrs[..n]];
    }
  }

  function DecodeSegment(attrs: seq<NumAttr>): Segment {
    var p1 := ApplyDefault(Last(attrs, P1), 0);
    Segment(ApplyDefault(Last(attrs, V2), 0), ApplyDefault(Last(attrs, Pid), 0), p1, ApplyDefault(Last(attrs, P2), p1))
  }

  predicate SegmentRequires(f: Field) {
    f == V2
  }

  /** polygonSegmentDecoder.Start: P2 follows P1 until it has a value of its own. */
  method ReadSegment(attrs: seq<NumAttr>) returns (s: Segment, errs: seq<Fault>)
    ensures s == DecodeSegment(attrs) && errs == Faults(attrs, SegmentRequires)
  {
    s, errs := Segment(0, 0, 0, 0), [];
    var hasP1, hasP2 := false, false;
    for i := 0 to |attrs|
      invariant s == DecodeSegment(attrs[..i]) && errs == Faults(attrs[..i], SegmentRequires)
      invariant hasP1 == Last(attrs[..i], P1).Some? && hasP2 == Last(attrs[..i], P2).Some?
    {
      var a := attrs[i];
      assert attrs[..i + 1][..i] == attrs[..i];
      var required := false;
      match a.field {
        case V2 => s, required := s.(v2 := a.value), true;
        case Pid => s := s.(pid := a.value);
        case P1 => s, hasP1 := s.(p1 := a.value), true;
        case P2 => s, hasP2 := s.(p2 := a.value), true;
        case _ =>
      }
      if hasP1 && !hasP2 {
        s := s.(p2 := s.p1);
      }
      if !a.ok {
        errs := errs + [Fault(a.field, required)];
      }
    }
    assert attrs[..|attrs|] == attrs;
  }

  lemma SegmentRoundTrip(s: Segment)
    ensures DecodeSegment(EncodeSegment(s)) == s <==> s.pid != 0 || s.p1 == s.p2 == 0
    ensures EncodeSegment(DecodeSegment(EncodeSegment(s))) == EncodeSegment(s)
  {
    var attrs := EncodeSegment(s);
    LastAt(attrs, V2);
    LastAt(attrs, Pid);
    LastAt(attrs, P1);
    LastAt(attrs, P2);
    assert attrs[0] == FormatUint(V2, s.v2);
    if |attrs| > 1 {
      assert attrs[1] == FormatUint(Pid, s.pid) && attrs[2] == FormatUint(P1, s.p1);
    }
    if |attrs| == 4 {
      assert attrs[3] == FormatUint(P2, s.p2);
    }
  }

  // ---- Beams ----

  datatype Cap = Sphere | Hemisphere | Butt

  datatype Beam = Beam(i1: U32, i2: U32, r1: real, r2: real, cap1: Cap, cap2: Cap)

  /** What the lattice says for beams that do not. */
  datatype Lattice = Lattice(radius: real, cap: Cap)

  /**
   * The attributes of a beam: what is made of a number, and whether there is no error. A cap is none if its text names
   * no cap mode. OtherAttr is an attribute in a namespace, or of any other name.
   */
  datatype BeamAttr =
    | BV1(n: U32, ok: bool)
    | BV2(n: U32, ok: bool)
    | R1(r: real, ok: bool)
    | R2(r: real, ok: bool)
    | Cap1(c: Option<Cap>)
    | Cap2(c: Option<Cap>)
    | OtherAttr

  function EncodeBeam(b: Beam, m: Lattice): seq<BeamAttr> {
    [BV1(b.i1, true), BV2(b.i2, true)]
    + (if b.r1 > 0.0 && b.r1 != m.radius then [R1(b.r1, true)] else [])
    + (if b.r2 > 0.0 && b.r2 != m.radius then [R2(b.r2, true)] else [])
    + (if b.cap1 != m.cap then [Cap1(Some(b.cap1))] else [])
    + (if b.cap2 != m.cap then [Cap2(Some(b.cap2))] else [])
  }

  /** marshalBeams */
  method WriteBeams(bs: seq<Beam>, m: Lattice) returns (out: seq<seq<BeamAttr>>)
    ensures out == EncodeBeams(bs, m)
  {
    out := [];
    for i := 0 to |bs|
      invariant |out| == i && forall k :: 0 <= k < i ==> out[k] == EncodeBeam(bs[k], m)
    {
      var beam := WriteBeam(bs[i], m);
      out := out + [beam];
    }
  }

  /** The body of the loop, attribute by attribute. */
  method WriteBeam(b: Beam, m: Lattice) returns (out: seq<BeamAttr>)
    ensures out == EncodeBeam(b, m)
  {
    out := [BV1(b.i1, true), BV2(b.i2, true)];
    if b.r1 > 0.0 && b.r1 != m.radius {
      out := out + [R1(b.r1, true)];
    }
    if b.r2 > 0.0 && b.r2 != m.radius {
      out := out + [R2(b.r2, true)];
    }
    if b.cap1 != m.cap {
      out := out + [Cap1(Some(b.cap1))];
    }
    if b.cap2 != m.cap {
      out := out + [Cap2(Some(b.cap2))];
    }
  }

  /** A beam while its attributes are read; has1 and has2 tell whether a cap mode has been recognised. */
  datatype Partial = Partial(b: Beam, has1: bool, has2: bool)

  /** One attribute more. An unknown cap mode reads as the zero value. */
  function TakeBeamAttr(p: Partial, a: BeamAttr): Partial {
    match a
    case BV1(n, _) => p.(b := p.b.(i1 := n))
    case BV2(n, _) => p.(b := p.b.(i2 := n))
    case R1(r, _) => p.(b := p.b.(r1 := r))
    case R2(r, _) => p.(b := p.b.(r2 := r))
    case Cap1(c) => Partial(p.b.(cap1 := if c.Some? then c.value else Sphere), p.has1 || c.Some?, p.has2)
    case Cap2(c) => Partial(p.b.(cap2 := if c.Some? then c.value else Sphere), p.has1, p.has2 || c.Some?)
    case OtherAttr => p
  }

  /** The index of the beam that has a number that fails to parse, the attribute, and whether it is required. */
  datatype BeamFault = BeamFault(index: nat, attr: BeamAttr, required: bool)

  function BeamFaultAt(index: nat, a: BeamAttr): seq<BeamFault> {
    match a
    case BV1(_, ok) => if ok then [] else [BeamFault(index, a, true)]
    case BV2(_, ok) => if ok then [] else [BeamFault(index, a, true)]
    case R1(_, ok) => if ok then [] else [BeamFault(index, a, false)]
    case R2(_, ok) => if ok then [] else [BeamFault(index, a, false)]
    case Cap1(_) => []
    case Cap2(_) => []
    case OtherAttr => []
  }

  function BeamFaults(index: nat, attrs: seq<BeamAttr>): seq<BeamFault>
    decreases |attrs|
  {
    if attrs == [] then []
    else BeamFaults(index, attrs[..|attrs| - 1]) + BeamFaultAt(index, attrs[|attrs| - 1])
  }

  function TakeBeamAttrs(p: Partial, attrs: seq<BeamAttr>): Partial
    decreases |attrs|
  {
    if attrs == [] then p else TakeBeamAttrs(TakeBeamAttr(p, attrs[0]), attrs[1..])
  }

  /** The defaults: the second radius follows the first one, not the lattice. */
  function CompleteBeam(p: Partial, m: Lattice): Beam {
    var r1 := if p.b.r1 == 0.0 then m.radius else p.b.r1;
    p.b.(r1 := r1, r2 := if p.b.r2 == 0.0 then r1 else p.b.r2,
         cap1 := if p.has1 then p.b.cap1 else m.cap, cap2 := if p.has2 then p.b.cap2 else m.cap)
  }

  const NO_BEAM := Partial(Beam(0, 0, 0.0, 0.0, Sphere, Sphere), false, false)

  function DecodeBeam(attrs: seq<BeamAttr>, m: Lattice): Beam {
    CompleteBeam(TakeBeamAttrs(NO_BEAM, attrs), m)
  }

  /** beamDecoder.Start: the beam joins those of the lattice, whatever is wrong with its attributes. */
  method ReadBeam(attrs: seq<BeamAttr>, m: Lattice, beams: seq<Beam>) returns (more: seq<Beam>, errs: seq<BeamFault>)
    ensures more == beams + [DecodeBeam(attrs, m)] && errs == BeamFaults(|beams|, attrs)
  {
    var b := Beam(0, 0, 0.0, 0.0, Sphere, Sphere);
    var hasCap1, hasCap2 := false, false;
    errs := [];
    for i := 0 to |attrs|
      invariant TakeBeamAttrs(Partial(b, hasCap1, hasCap2), attrs[i..]) == TakeBeamAttrs(NO_BEAM, attrs)
      invariant errs == BeamFaults(|beams|, attrs[..i])
    {
      assert attrs[i..][1..] == attrs[i + 1..] && attrs[..i + 1][..i] == attrs[..i];
      var bad, required := false, false;
      match attrs[i] {
        case BV1(n, ok) => b, bad, required := b.(i1 := n), !ok, true;
        case BV2(n, ok) => b, bad, required := b.(i2 := n), !ok, true;
        case R1(r, ok) => b, bad := b.(r1 := r), !ok;
        case R2(r, ok) => b, bad := b.(r2 := r), !ok;
        case Cap1(c) =>
          b := b.(cap1 := if c.Some? then c.value else Sphere);
          if c.Some? { hasCap1 := true; }
        case Cap2(c) =>
          b := b.(cap2 := if c.Some? then c.value else Sphere);
          if c.Some? { hasCap2 := true; }
        case OtherAttr =>
      }
      if bad {
        errs := errs + [BeamFault(|beams|, attrs[i], required)];
      }
    }
    assert attrs[..|attrs|] == attrs;
    if b.r1 == 0.0 { b := b.(r1 := m.radius); }
    if b.r2 == 0.0 { b := b.(r2 := b.r1); }
    if !hasCap1 { b := b.(cap1 := m.cap); }
    if !hasCap2 { b := b.(cap2 := m.cap); }
    more := beams + [b];
  }

  lemma {:induction false} TakeAppend(p: Partial, a: seq<BeamAttr>, b: seq<BeamAttr>)
    ensures TakeBeamAttrs(p, a + b) == TakeBeamAttrs(TakeBeamAttrs(p, a), b)
    decreases |a|
  {
    if a == [] {
      assert a + b == b;
    } else {
      assert (a + b)[1..] == a[1..] + b;
      TakeAppend(TakeBeamAttr(p, a[0]), a[1..], b);
    }
  }

  lemma TakeFew(p: Partial, attrs: seq<BeamAttr>)
    requires |attrs| <= 1
    ensures TakeBeamAttrs(p, attrs) == if attrs == [] then p else TakeBeamAttr(p, attrs[0])
  {
  }

  /** What the decoder has read of an encoded beam: exactly the parts that were not left out. */
  lemma ReadBack(b: Beam, m: Lattice)
    ensures TakeBeamAttrs(NO_BEAM, EncodeBeam(b, m)) ==
              Partial(Beam(b.i1, b.i2,
                           if b.r1 > 0.0 && b.r1 != m.radius then b.r1 else 0.0,
                           if b.r2 > 0.0 && b.r2 != m.radius then b.r2 else 0.0,
                           if b.cap1 != m.cap then b.cap1 else Sphere,
                           if b.cap2 != m.cap then b.cap2 else Sphere),
                      b.cap1 != m.cap, b.cap2 != m.cap)
  {
    var vs := [BV1(b.i1, true), BV2(b.i2, true)];
    var r1 := if b.r1 > 0.0 && b.r1 != m.radius then [R1(b.r1, true)] else [];
    var r2 := if b.r2 > 0.0 && b.r2 != m.radius then [R2(b.r2, true)] else [];
    var c1 := if b.cap1 != m.cap then [Cap1(Some(b.cap1))] else [];
    var c2 := if b.cap2 != m.cap then [Cap2(Some(b.cap2))] else [];
    TakeAppend(NO_BEAM, vs + r1 + r2 + c1, c2);
    TakeAppend(NO_BEAM, vs + r1 + r2, c1);
    TakeAppend(NO_BEAM, vs + r1, r2);
    TakeAppend(NO_BEAM, vs, r1);
    var p0 := TakeBeamAttrs(NO_BEAM, vs);
    assert vs[1..] == [BV2(b.i2, true)] && vs[1..][1..] == [];
    assert TakeBeamAttrs(NO_BEAM, vs) == TakeBeamAttr(TakeBeamAttr(NO_BEAM, BV1(b.i1, true)), BV2(b.i2, true)) by {
      TakeFew(TakeBeamAttr(NO_BEAM, BV1(b.i1, true)), vs[1..]);
    }
    TakeFew(p0, r1);
    var p1 := TakeBeamAttrs(p0, r1);
    TakeFew(p1, r2);
    var p2 := TakeBeamAttrs(p1, r2);
    TakeFew(p2, c1);
    TakeFew(TakeBeamAttrs(p2, c1), c2);
  }

  /** Exactly the beams that survive. */
  predicate BeamSurvives(b: Beam, m: Lattice) {
    (b.r1 > 0.0 || b.r1 == m.radius) && (b.r2 == b.r1 || (b.r2 > 0.0 && b.r2 != m.radius))
  }

  lemma BeamRoundTrip(b: Beam, m: Lattice)
    ensures DecodeBeam(EncodeBeam(b, m), m) == b <==> BeamSurvives(b, m)
  {
    ReadBack(b, m);
  }

  /** With positive radii a beam is lost exactly when only its first radius differs from the lattice's. */
  lemma PositiveBeamRoundTrip(b: Beam, m: Lattice)
    requires b.r1 > 0.0 && b.r2 > 0.0
    ensures DecodeBeam(EncodeBeam(b, m), m) == b <==> b.r1 == m.radius || b.r2 != m.radius
  {
    BeamRoundTrip(b, m);
  }

  /** Encoding again writes the same unless only the first radius was written: the second is then read from it. */
  lemma BeamReencoded(b: Beam, m: Lattice)
    ensures EncodeBeam(DecodeBeam(EncodeBeam(b, m), m), m) == EncodeBeam(b, m)
       <==> (b.r1 > 0.0 && b.r1 != m.radius ==> b.r2 > 0.0 && b.r2 != m.radius)
  {
    ReadBack(b, m);
    var back := DecodeBeam(EncodeBeam(b, m), m);
    var w1, w2 := b.r1 > 0.0 && b.r1 != m.radius, b.r2 > 0.0 && b.r2 != m.radius;
    assert back.cap1 == b.cap1 && back.cap2 == b.cap2 && back.i1 == b.i1 && back.i2 == b.i2;
    if w1 && !w2 {
      assert |EncodeBeam(back, m)| == |EncodeBeam(b, m)| + 1;
    }
  }

  function EncodeBeams(bs: seq<Beam>, m: Lattice): (r: seq<seq<BeamAttr>>)
    ensures |r| == |bs| && forall i :: 0 <= i < |r| ==> r[i] == EncodeBeam(bs[i], m)
  {
    seq(|bs|, i requires 0 <= i < |bs| => EncodeBeam(bs[i], m))
  }

  function DecodeBeams(ls: seq<seq<BeamAttr>>, m: Lattice): (r: seq<Beam>)
    ensures |r| == |ls| && forall i :: 0 <= i < |r| ==> r[i] == DecodeBeam(ls[i], m)
  {
    seq(|ls|, i requires 0 <= i < |ls| => DecodeBeam(ls[i], m))
  }

  /** A list of beams decodes back to itself exactly when each of its beams survives. */
  lemma BeamsRoundTrip(bs: seq<Beam>, m: Lattice)
    ensures DecodeBeams(EncodeBeams(bs, m), m) == bs <==> forall b <- bs :: BeamSurvives(b, m)
  {
    var back := DecodeBeams(EncodeBeams(bs, m), m);
    forall i | 0 <= i < |bs| ensures back[i] == bs[i] <==> BeamSurvives(bs[i], m) {
      BeamRoundTrip(bs[i], m);
    }
    if back == bs {
      forall b | b in bs ensures BeamSurvives(b, m) {
        var i :| 0 <= i < |bs| && bs[i] == b;
        assert back[i] == bs[i];
      }
    }
  }
}
