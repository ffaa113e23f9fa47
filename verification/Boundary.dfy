/** What follows for a mesh that ValidateCoherency accepts: it has no boundary. */
module Boundary {
  import opened Coherency

  function Sum(f: Edge -> real, es: seq<Edge>): real {
    if es == [] then 0.0 else f(es[0]) + Sum(f, es[1..])
  }

  ghost predicate Antisymmetric(f: Edge -> real) {
    forall e: Edge :: f(e.Reverse()) == -f(e)
  }

  lemma {:induction false} SumAppend(f: Edge -> real, a: seq<Edge>, b: seq<Edge>)
    ensures Sum(f, a + b) == Sum(f, a) + Sum(f, b)
  {
    if a == [] {
      assert a + b == b;
    } else {
      assert (a + b)[1..] == a[1..] + b;
      SumAppend(f, a[1..], b);
    }
  }

  /** The first edge of a closed sequence, its reverse, and the rest, which is closed as well. */
  lemma Pair(es: seq<Edge>) returns (p: nat, rest: seq<Edge>)
    requires Closed(es) && es != []
    ensures 0 < p < |es| && es[p] == es[0].Reverse() && rest == es[1..p] + es[p + 1..] && Closed(rest)
  {
    var e := es[0];
    assert e in es && e.Reverse() in multiset(es);
    p :| 0 <= p < |es| && es[p] == e.Reverse();
    rest := es[1..p] + es[p + 1..];
    assert es == [e] + es[1..p] + [e.Reverse()] + es[p + 1..];
    TakeTwo(es[1..p], es[p + 1..], e, e.Reverse());
    ClosedRest(es, rest, e);
  }

  lemma TakeTwo(a: seq<Edge>, b: seq<Edge>, e: Edge, f: Edge)
    ensures multiset([e] + a + [f] + b) == multiset(a + b) + multiset{e, f}
  {
    assert multiset([e] + a + [f] + b) == multiset{e} + multiset(a) + multiset{f} + multiset(b);
    assert multiset(a + b) == multiset(a) + multiset(b);
  }

  lemma ClosedRest(es: seq<Edge>, rest: seq<Edge>, e: Edge)
    requires Closed(es) && e in es && multiset(es) == multiset(rest) + multiset{e, e.Reverse()}
    ensures Closed(rest)
  {
    forall g <- rest ensures g.a != g.b && multiset(rest)[g] == 1 && multiset(rest)[g.Reverse()] == 1 {
      assert g in multiset(rest) && g in multiset(es) && g in es;
      assert multiset(es)[g] == multiset(rest)[g] + multiset{e, e.Reverse()}[g];
      assert g != e && g != e.Reverse();
    }
  }

  /** The boundary of an accepted mesh is zero: every antisymmetric function of its edges sums to zero. */
  lemma {:induction false} ZeroBoundary(f: Edge -> real, es: seq<Edge>)
    requires Closed(es) && Antisymmetric(f)
    ensures Sum(f, es) == 0.0
    decreases |es|
  {
    if es != [] {
      var p, rest := Pair(es);
      ZeroBoundary(f, rest);
      SumAppend(f, es[1..p], es[p + 1..]);
      assert es[1..] == es[1..p] + es[p..] && es[p..][1..] == es[p + 1..];
      SumAppend(f, es[1..p], es[p..]);
    }
  }

  lemma OnceInDistinct(order: seq<Edge>, i: nat)
    requires i < |order| && forall j, k :: 0 <= j < k < |order| ==> order[j] != order[k]
    ensures multiset(order)[order[i]] == 1
  {
    assert order == order[..i] + [order[i]] + order[i + 1..];
    assert order[i] !in order[..i] && order[i] !in order[i + 1..];
  }

  function Reversed(order: seq<Edge>): (r: seq<Edge>)
    ensures |r| == |order| && forall i :: 0 <= i < |r| ==> r[i] == order[i].Reverse()
  {
    seq(|order|, i requires 0 <= i < |order| => order[i].Reverse())
  }

  lemma OccursBothWays(order: seq<Edge>, es: seq<Edge>, e: Edge)
    requires Closed(es) && Listed(order, es)
    ensures multiset(es)[e] == multiset(order)[e] + multiset(Reversed(order))[e]
  {
    if e in es {
      OccursOnce(order, es, e);
    } else {
      NumberedBothWays(order, es);
      assert e !in multiset(es) && e !in order && e !in Reversed(order);
    }
  }

  lemma OccursOnce(order: seq<Edge>, es: seq<Edge>, e: Edge)
    requires Closed(es) && Listed(order, es) && e in es
    ensures multiset(es)[e] == multiset(order)[e] + multiset(Reversed(order))[e]
  {
    var back := Reversed(order);
    var i :| 0 <= i < |order| && order[i] == e.Key();
    assert back[i] == e.Key().Reverse();
    OnceInDistinct(order, i);
    forall j, k | 0 <= j < k < |back| ensures back[j] != back[k] {
      assert order[j] == back[j].Reverse() && order[k] == back[k].Reverse();
    }
    OnceInDistinct(back, i);
    assert e.Reverse() !in order || e.Reverse().a <= e.Reverse().b;
  }

  lemma NumberedBothWays(order: seq<Edge>, es: seq<Edge>)
    requires Closed(es) && Listed(order, es)
    ensures (forall e <- order :: e in es) && forall e <- Reversed(order) :: e in es
  {
    forall i | 0 <= i < |order| ensures order[i] in es && order[i].Reverse() in es {
      if order[i] in es {
        BackThere(es, order[i]);
      } else {
        BackThere(es, order[i].Reverse());
      }
    }
  }

  lemma BackThere(es: seq<Edge>, e: Edge)
    requires Closed(es) && e in es
    ensures e.Reverse() in es
  {
    assert multiset(es)[e.Reverse()] == 1;
  }

  /** Every edge the check numbers belongs to exactly two directed edges. */
  lemma TwicePerEdge(order: seq<Edge>, es: seq<Edge>)
    requires Closed(es) && Listed(order, es)
    ensures |es| == 2 * |order|
  {
    var both := multiset(order) + multiset(Reversed(order));
    forall e: Edge ensures multiset(es)[e] == both[e] {
      OccursBothWays(order, es, e);
    }
    assert multiset(es) == both;
    assert |multiset(es)| == |es| && |multiset(order)| == |order| && |multiset(Reversed(order))| == |order|;
  }

  /** Three times the triangles of an accepted mesh is twice the edges the check numbers, so their number is even. */
  lemma EdgesPerTriangle(vertexCount: nat, ts: seq<Triangle>)
    requires Coherent(vertexCount, ts)
    ensures 3 * |ts| == 2 * |Order(Edges(ts, 3 * |ts|))| && |ts| % 2 == 0
  {
    var es := Edges(ts, 3 * |ts|);
    OrderLists(es);
    TwicePerEdge(Order(es), es);
    Halve(|ts|, |Order(es)|);
  }

  lemma Halve(n: nat, m: nat)
    requires 3 * n == 2 * m
    ensures n % 2 == 0
  {
  }

  // ---- Volume ----

  datatype Vec = Vec(x: real, y: real, z: real) {
    function Plus(v: Vec): Vec {
      Vec(x + v.x, y + v.y, z + v.z)
    }

    function Dot(v: Vec): real {
      x * v.x + y * v.y + z * v.z
    }

    function Cross(v: Vec): Vec {
      Vec(y * v.z - z * v.y, z * v.x - x * v.z, x * v.y - y * v.x)
    }
  }

  /** Six times the signed volume below a triangle. */
  function Det(a: Vec, b: Vec, c: Vec): real {
    a.Dot(b.Cross(c))
  }

  /** Six times the signed volume of a mesh whose vertices lie where at says. */
  function Volume(at: U32 -> Vec, ts: seq<Triangle>): real {
    if ts == [] then 0.0 else Det(at(ts[0].v1), at(ts[0].v2), at(ts[0].v3)) + Volume(at, ts[1..])
  }

  lemma CrossMoved(b: Vec, c: Vec, t: Vec)
    ensures b.Plus(t).Cross(c.Plus(t)) == b.Cross(c).Plus(b.Cross(t)).Plus(t.Cross(c))
  {
    var moved, sum := b.Plus(t).Cross(c.Plus(t)), b.Cross(c).Plus(b.Cross(t)).Plus(t.Cross(c));
    assert moved.x == sum.x by {
      MinorMoved(b.y, b.z, c.y, c.z, t.y, t.z);
    }
    assert moved.y == sum.y by {
      MinorMoved(b.z, b.x, c.z, c.x, t.z, t.x);
    }
    assert moved.z == sum.z by {
      MinorMoved(b.x, b.y, c.x, c.y, t.x, t.y);
    }
  }

  lemma MinorMoved(p: real, q: real, r: real, s: real, u: real, v: real)
    ensures (p + u) * (s + v) - (q + v) * (r + u) == (p * s - q * r) + (p * v - q * u) + (u * s - v * r)
  {
  }

  lemma DotPlus(a: Vec, v: Vec, w: Vec)
    ensures a.Dot(v.Plus(w)) == a.Dot(v) + a.Dot(w) && v.Plus(w).Dot(a) == v.Dot(a) + w.Dot(a)
  {
  }

  lemma Cyclic(a: Vec, b: Vec, c: Vec)
    ensures a.Dot(b.Cross(c)) == c.Dot(a.Cross(b))
  {
  }

  lemma Repeated(t: Vec, b: Vec)
    ensures t.Dot(b.Cross(t)) == 0.0 && t.Dot(t.Cross(b)) == 0.0
  {
  }

  /** What moving one triangle by t adds is a sum over its edges. */
  lemma DetMoved(a: Vec, b: Vec, c: Vec, t: Vec)
    ensures Det(a.Plus(t), b.Plus(t), c.Plus(t))
        == Det(a, b, c) + t.Dot(a.Cross(b)) + t.Dot(b.Cross(c)) + t.Dot(c.Cross(a))
  {
    var u, v, w := b.Cross(c), b.Cross(t), t.Cross(c);
    CrossMoved(b, c, t);
    DotSums(a, t, u, v, w);
    Cyclic(a, b, t);
    Cyclic(c, a, t);
    Cyclic(a, t, c);
    Cyclic(t, c, a);
    Repeated(t, b);
    Repeated(t, c);
  }

  lemma DotSums(a: Vec, t: Vec, u: Vec, v: Vec, w: Vec)
    ensures a.Plus(t).Dot(u.Plus(v).Plus(w)) == a.Dot(u) + a.Dot(v) + a.Dot(w) + t.Dot(u) + t.Dot(v) + t.Dot(w)
  {
    var s := u.Plus(v).Plus(w);
    DotPlus(s, a, t);
    DotPlus(a, u.Plus(v), w);
    DotPlus(a, u, v);
    DotPlus(t, u.Plus(v), w);
    DotPlus(t, u, v);
  }

  function Moved(at: U32 -> Vec, t: Vec): U32 -> Vec {
    (v: U32) => at(v).Plus(t)
  }

  /** What moving a mesh by t adds along one edge. */
  function Swept(at: U32 -> Vec, t: Vec): Edge -> real {
    (e: Edge) => t.Dot(at(e.a).Cross(at(e.b)))
  }

  lemma EdgesCons(ts: seq<Triangle>)
    requires ts != []
    ensures var t := ts[0];
            Edges(ts, 3 * |ts|) == [Edge(t.v1, t.v2), Edge(t.v2, t.v3), Edge(t.v3, t.v1)]
                + Edges(ts[1..], 3 * |ts[1..]|)
  {
    forall k | 3 <= k < 3 * |ts| ensures EdgeAt(ts, k) == EdgeAt(ts[1..], k - 3) {
      assert (k - 3) / 3 == k / 3 - 1 && (k - 3) % 3 == k % 3;
    }
  }

  lemma {:induction false} VolumeMoved(at: U32 -> Vec, t: Vec, ts: seq<Triangle>)
    ensures Volume(Moved(at, t), ts) == Volume(at, ts) + Sum(Swept(at, t), Edges(ts, 3 * |ts|))
  {
    if ts != [] {
      var r, g := ts[0], Swept(at, t);
      var three := [Edge(r.v1, r.v2), Edge(r.v2, r.v3), Edge(r.v3, r.v1)];
      VolumeMoved(at, t, ts[1..]);
      DetMoved(at(r.v1), at(r.v2), at(r.v3), t);
      EdgesCons(ts);
      SumAppend(g, three, Edges(ts[1..], 3 * |ts[1..]|));
      SumThree(g, three);
    }
  }

  lemma SumThree(f: Edge -> real, es: seq<Edge>)
    requires |es| == 3
    ensures Sum(f, es) == f(es[0]) + f(es[1]) + f(es[2])
  {
    assert Sum(f, es[1..]) == f(es[1]) + Sum(f, es[2..]) by { assert es[1..][1..] == es[2..]; }
    assert Sum(f, es[2..]) == f(es[2]) + Sum(f, []) by { assert es[2..][1..] == []; }
  }

  lemma SweptAntisymmetric(at: U32 -> Vec, t: Vec)
    ensures Antisymmetric(Swept(at, t))
  {
    var f := Swept(at, t);
    forall e: Edge ensures f(e.Reverse()) == -f(e) {
      var p, q := at(e.a), at(e.b);
      assert t.Dot(q.Cross(p)) == -t.Dot(p.Cross(q));
    }
  }

  /** The signed volume of an accepted mesh does not depend on where the mesh lies. */
  lemma VolumeIsInvariant(vertexCount: nat, ts: seq<Triangle>, at: U32 -> Vec, t: Vec)
    requires Coherent(vertexCount, ts)
    ensures Volume(Moved(at, t), ts) == Volume(at, ts)
  {
    VolumeMoved(at, t, ts);
    SweptAntisymmetric(at, t);
    ZeroBoundary(Swept(at, t), Edges(ts, 3 * |ts|));
  }
}
