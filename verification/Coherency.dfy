/** Mesh.ValidateCoherency: whether a triangle list is a closed, oriented manifold. */
module Coherency {
  import opened Wrappers

  type U32 = x: int | 0 <= x < 0x1_0000_0000

  datatype Triangle = Triangle(v1: U32, v2: U32, v3: U32)

  datatype Edge = Edge(a: U32, b: U32) {
    function Reverse(): Edge {
      Edge(b, a)
    }

    /** newPairEntry: the key both directions of an edge share. */
    function Key(): Edge {
      if a < b then this else Reverse()
    }
  }

  datatype MeshError = InsufficientVertices | InsufficientTriangles | MeshConsistency

  /** The corner after the last one is the first. */
  function Corner(t: Triangle, j: nat): U32
    requires j <= 3
  {
    if j == 1 then t.v2 else if j == 2 then t.v3 else t.v1
  }

  /** The k-th directed edge of a triangle list, three to a triangle. */
  function EdgeAt(ts: seq<Triangle>, k: nat): Edge
    requires k < 3 * |ts|
  {
    Edge(Corner(ts[k / 3], k % 3), Corner(ts[k / 3], k % 3 + 1))
  }

  /** The first n directed edges. */
  function Edges(ts: seq<Triangle>, n: nat): (es: seq<Edge>)
    requires n <= 3 * |ts|
    ensures |es| == n && forall k :: 0 <= k < n ==> es[k] == EdgeAt(ts, k)
  {
    seq(n, k requires 0 <= k < n => EdgeAt(ts, k))
  }

  /** Every directed edge joins two different vertices, and occurs exactly once, as does its reverse. */
  predicate Closed(es: seq<Edge>) {
    forall e <- es :: e.a != e.b && multiset(es)[e] == 1 && multiset(es)[e.Reverse()] == 1
  }

  predicate Coherent(vertexCount: nat, ts: seq<Triangle>) {
    3 <= vertexCount && 4 <= |ts| && Closed(Edges(ts, 3 * |ts|))
  }

  /** The undirected edges, in the order they are met. */
  function Order(es: seq<Edge>): (r: seq<Edge>)
    ensures |r| <= |es|
  {
    if es == [] then []
    else
      var order, key := Order(es[..|es| - 1]), es[|es| - 1].Key();
      if key in order then order else order + [key]
  }

  /** order lists every undirected edge of es once. */
  ghost predicate Listed(order: seq<Edge>, es: seq<Edge>) {
    && (forall i, j :: 0 <= i < j < |order| ==> order[i] != order[j])
    && (forall i :: 0 <= i < |order| ==> order[i].a <= order[i].b && (order[i] in es || order[i].Reverse() in es))
    && forall e <- es :: e.Key() in order
  }

  lemma {:induction false} OrderLists(es: seq<Edge>)
    ensures Listed(Order(es), es)
  {
    if es != [] {
      var n := |es| - 1;
      OrderLists(es[..n]);
      ListedStep(Order(es[..n]), es[..n], es[n], Order(es), es);
    }
  }

  lemma ListedStep(order: seq<Edge>, es: seq<Edge>, e: Edge, next: seq<Edge>, all: seq<Edge>)
    requires Listed(order, es) && |all| == |es| + 1 && all[..|es|] == es && all[|es|] == e
    requires next == if e.Key() in order then order else order + [e.Key()]
    ensures Listed(next, all)
  {
    var key := e.Key();
    assert all == es + [e];
    assert e in all && (key == e || key.Reverse() == e);
    assert forall f <- es :: f in all;
    assert forall f <- order :: f in next;
    assert key in next;
  }

  /** matching holds the place of every edge in order. */
  ghost predicate Numbers(matching: map<Edge, U32>, order: seq<Edge>) {
    && (forall k <- matching :: matching[k] < |order| && order[matching[k]] == k)
    && forall i :: 0 <= i < |order| ==> order[i] in matching && matching[order[i]] == i
  }

  lemma EdgesStep(ts: seq<Triangle>, i: nat, j: nat)
    requires i < |ts| && j < 3
    ensures Edges(ts, 3 * i + j + 1) == Edges(ts, 3 * i + j) + [Edge(Corner(ts[i], j), Corner(ts[i], j + 1))]
  {
    assert (3 * i + j) / 3 == i && (3 * i + j) % 3 == j;
  }

  /** Finds the undirected edges and numbers them. */
  method MatchPairs(ts: seq<Triangle>) returns (matching: map<Edge, U32>, edgeCounter: U32)
    requires 3 * |ts| <= 0xFFFF_FFFF
    ensures var order := Order(Edges(ts, 3 * |ts|)); edgeCounter == |order| && Numbers(matching, order)
  {
    matching, edgeCounter := map[], 0;
    ghost var es := Edges(ts, 3 * |ts|);
    for i := 0 to |ts|
      invariant edgeCounter == |Order(es[..3 * i])| && Numbers(matching, Order(es[..3 * i]))
    {
      EdgesOfTriangle(ts, i);
      matching, edgeCounter := MatchTriangle(ts[i], matching, edgeCounter, es, 3 * i);
    }
    assert es[..3 * |ts|] == es;
  }

  method MatchTriangle(t: Triangle, matching: map<Edge, U32>, edgeCounter: U32, ghost es: seq<Edge>, ghost n: nat)
    returns (m: map<Edge, U32>, c: U32)
    requires |es| <= 0xFFFF_FFFF && HasTriangle(es, t, n)
    requires edgeCounter == |Order(es[..n])| && Numbers(matching, Order(es[..n]))
    ensures c == |Order(es[..n + 3])| && Numbers(m, Order(es[..n + 3]))
  {
    m, c := matching, edgeCounter;
    ghost var k := n;
    for j := 0 to 3
      invariant k == n + j && c == |Order(es[..k])| && Numbers(m, Order(es[..k]))
    {
      assert es[n + j] == Edge(Corner(t, j), Corner(t, j + 1));
      m, c := MatchOne(Corner(t, j), Corner(t, j + 1), m, c, es, k);
      k := k + 1;
    }
  }

  method MatchOne(n1: U32, n2: U32, matching: map<Edge, U32>, edgeCounter: U32, ghost es: seq<Edge>, ghost k: nat)
    returns (m: map<Edge, U32>, c: U32)
    requires k < |es| <= 0xFFFF_FFFF && es[k] == Edge(n1, n2)
    requires edgeCounter == |Order(es[..k])| && Numbers(matching, Order(es[..k]))
    ensures c == |Order(es[..k + 1])| && Numbers(m, Order(es[..k + 1]))
  {
    var key := Edge(n1, n2).Key();
    m, c := matching, edgeCounter;
    OrderLists(es[..k]);
    assert es[..k + 1][..k] == es[..k];
    if key !in matching {
      m, c := matching[key := edgeCounter], edgeCounter + 1;
    }
  }

  /** positive and negative hold how often each numbered edge was met in its own and in the other direction. */
  ghost predicate Counted(positive: seq<U32>, negative: seq<U32>, order: seq<Edge>, es: seq<Edge>) {
    && |positive| == |negative| == |order|
    && forall i :: 0 <= i < |order| ==>
         && positive[i] == multiset(es)[order[i]]
         && negative[i] == if order[i].a == order[i].b then 0 else multiset(es)[order[i].Reverse()]
  }

  lemma CountedStep(positive: seq<U32>, negative: seq<U32>, order: seq<Edge>, es: seq<Edge>, e: Edge, i: nat)
    requires Counted(positive, negative, order, es) && i < |order| && order[i] == e.Key() && |es| < 0xFFFF_FFFF
    requires forall j, k :: 0 <= j < k < |order| ==> order[j] != order[k]
    requires forall j :: 0 <= j < |order| ==> order[j].a <= order[j].b
    ensures positive[i] <= |es| && negative[i] <= |es|
    ensures e.a <= e.b ==> Counted(positive[i := positive[i] + 1], negative, order, es + [e])
    ensures e.a > e.b ==> Counted(positive, negative[i := negative[i] + 1], order, es + [e])
  {
    assert multiset(es)[order[i]] <= |multiset(es)| && multiset(es)[order[i].Reverse()] <= |multiset(es)|;
  }

  /** Counts the directed edges at the numbers of their undirected edges. */
  method CountEdges(ts: seq<Triangle>, matching: map<Edge, U32>, edgeCounter: U32, ghost order: seq<Edge>)
    returns (positive: array<U32>, negative: array<U32>)
    requires 3 * |ts| <= 0xFFFF_FFFF && edgeCounter == |order| && Numbers(matching, order) &&
        Listed(order, Edges(ts, 3 * |ts|))
    ensures fresh(positive) && fresh(negative)
    ensures Counted(positive[..], negative[..], order, Edges(ts, 3 * |ts|))
  {
    positive, negative := new U32[edgeCounter](_ => 0), new U32[edgeCounter](_ => 0);
    ghost var es := Edges(ts, 3 * |ts|);
    for i := 0 to |ts|
      invariant Counted(positive[..], negative[..], order, es[..3 * i])
    {
      EdgesOfTriangle(ts, i);
      CountTriangle(ts[i], matching, positive, negative, order, es, 3 * i);
    }
    assert es[..3 * |ts|] == es;
  }

  ghost predicate HasTriangle(es: seq<Edge>, t: Triangle, n: nat) {
    n + 3 <= |es| && forall j :: 0 <= j < 3 ==> es[n + j] == Edge(Corner(t, j), Corner(t, j + 1))
  }

  lemma EdgesOfTriangle(ts: seq<Triangle>, i: nat)
    requires i < |ts|
    ensures HasTriangle(Edges(ts, 3 * |ts|), ts[i], 3 * i)
  {
    forall j | 0 <= j < 3 ensures EdgeAt(ts, 3 * i + j) == Edge(Corner(ts[i], j), Corner(ts[i], j + 1)) {
      assert (3 * i + j) / 3 == i && (3 * i + j) % 3 == j;
    }
  }

  method CountTriangle(t: Triangle, matching: map<Edge, U32>, positive: array<U32>, negative: array<U32>,
                       ghost order: seq<Edge>, ghost es: seq<Edge>, ghost n: nat)
    requires |es| <= 0xFFFF_FFFF && HasTriangle(es, t, n) && positive != negative
    requires Numbers(matching, order) && Listed(order, es) && Counted(positive[..], negative[..], order, es[..n])
    modifies positive, negative
    ensures Counted(positive[..], negative[..], order, es[..n + 3])
  {
    ghost var k := n;
    for j := 0 to 3
      invariant k == n + j && Counted(positive[..], negative[..], order, es[..k])
    {
      var n1, n2 := Corner(t, j), Corner(t, j + 1);
      assert es[n + j] == Edge(n1, n2);
      CountOne(n1, n2, matching, positive, negative, order, es, k);
      k := k + 1;
    }
  }

  method CountOne(n1: U32, n2: U32, matching: map<Edge, U32>, positive: array<U32>, negative: array<U32>,
                  ghost order: seq<Edge>, ghost es: seq<Edge>, ghost n: nat)
    requires n < |es| <= 0xFFFF_FFFF && es[n] == Edge(n1, n2) && positive != negative
    requires Numbers(matching, order) && Listed(order, es) && Counted(positive[..], negative[..], order, es[..n])
    modifies positive, negative
    ensures Counted(positive[..], negative[..], order, es[..n + 1])
  {
    var e := Edge(n1, n2);
    assert e in es && es[..n + 1] == es[..n] + [e];
    var k := matching[e.Key()];
    CountedStep(positive[..], negative[..], order, es[..n], e, k);
    if n1 <= n2 {
      positive[k] := positive[k] + 1;
    } else {
      negative[k] := negative[k] + 1;
    }
  }

  ghost predicate AllOnes(positive: seq<U32>, negative: seq<U32>)
    requires |positive| == |negative|
  {
    forall i :: 0 <= i < |positive| ==> positive[i] == 1 && negative[i] == 1
  }

  /** Every counter being one says exactly that the edges are closed. */
  lemma OnesIffClosed(positive: seq<U32>, negative: seq<U32>, order: seq<Edge>, es: seq<Edge>)
    requires Listed(order, es) && Counted(positive, negative, order, es)
    ensures AllOnes(positive, negative) <==> Closed(es)
  {
    if AllOnes(positive, negative) {
      forall e <- es ensures e.a != e.b && multiset(es)[e] == 1 && multiset(es)[e.Reverse()] == 1 {
        var i :| 0 <= i < |order| && order[i] == e.Key();
        assert positive[i] == 1 && negative[i] == 1;
      }
    }
    if Closed(es) {
      forall i | 0 <= i < |order| ensures positive[i] == 1 && negative[i] == 1 {
        var e := if order[i] in es then order[i] else order[i].Reverse();
        assert e in es;
      }
    }
  }

  method CheckOnes(positive: array<U32>, negative: array<U32>) returns (ok: bool)
    requires positive.Length == negative.Length
    ensures ok <==> AllOnes(positive[..], negative[..])
  {
    for i := 0 to positive.Length
      invariant AllOnes(positive[..i], negative[..i])
    {
      if positive[i] != 1 || negative[i] != 1 {
        assert positive[..][i] != 1 || negative[..][i] != 1;
        return false;
      }
    }
    assert positive[..positive.Length] == positive[..] && negative[..positive.Length] == negative[..];
    ok := true;
  }

  /** The whole check. Its counters are uint32, so the edge count has to fit. */
  method ValidateCoherency(vertexCount: nat, ts: seq<Triangle>) returns (err: Option<MeshError>)
    requires 3 * |ts| <= 0xFFFF_FFFF
    ensures err.None? <==> Coherent(vertexCount, ts)
    ensures err == Some(InsufficientVertices) <==> vertexCount < 3
    ensures err == Some(InsufficientTriangles) <==> 3 <= vertexCount && |ts| < 4
  {
    if vertexCount < 3 { return Some(InsufficientVertices); }
    if |ts| <= 3 { return Some(InsufficientTriangles); }
    var matching, edgeCounter := MatchPairs(ts);
    ghost var es := Edges(ts, 3 * |ts|);
    OrderLists(es);
    var positive, negative := CountEdges(ts, matching, edgeCounter, Order(es));
    OnesIffClosed(positive[..], negative[..], Order(es), es);
    var ok := CheckOnes(positive, negative);
    err := if ok then None else Some(MeshConsistency);
  }

  /** No triangle of an accepted mesh has a corner twice. */
  lemma CornersDiffer(vertexCount: nat, ts: seq<Triangle>, i: nat)
    requires Coherent(vertexCount, ts) && i < |ts|
    ensures ts[i].v1 != ts[i].v2 && ts[i].v2 != ts[i].v3 && ts[i].v3 != ts[i].v1
  {
    var es := Edges(ts, 3 * |ts|);
    EdgesStep(ts, i, 0);
    EdgesStep(ts, i, 1);
    EdgesStep(ts, i, 2);
    assert es[3 * i] in es && es[3 * i + 1] in es && es[3 * i + 2] in es;
  }

  /**
   * Counting directed edges alone would not tell: whatever closed mesh gets a triangle that is apart from it and has
   * a corner twice, each directed edge and its reverse still occur exactly once. The check rejects the mesh because a
   * loop has no second direction to count.
   */
  lemma LoopsAreRejected(vertexCount: nat, ts: seq<Triangle>, p: U32, q: U32)
    requires Coherent(vertexCount, ts) && p != q
    requires forall e <- Edges(ts, 3 * |ts|) :: e.a !in {p, q} && e.b !in {p, q}
    ensures var more := ts + [Triangle(p, p, q)];
            var es := Edges(more, 3 * |more|);
            && (forall e <- es :: multiset(es)[e] == 1 && multiset(es)[e.Reverse()] == 1)
            && !Coherent(vertexCount, more)
  {
    var more, es := ts + [Triangle(p, p, q)], Edges(ts, 3 * |ts|);
    var all, loop := Edges(more, 3 * |more|), [Edge(p, p), Edge(p, q), Edge(q, p)];
    assert all == es + loop by {
      forall k | 0 <= k < |all| ensures all[k] == (es + loop)[k] {
        assert k < |es| ==> es[k] == EdgeAt(ts, k);
      }
    }
    LoopApart(es, p, q, all);
    assert all[|es|] == Edge(p, p);
  }

  lemma LoopApart(es: seq<Edge>, p: U32, q: U32, all: seq<Edge>)
    requires Closed(es) && p != q && (forall e <- es :: e.a !in {p, q} && e.b !in {p, q})
    requires all == es + [Edge(p, p), Edge(p, q), Edge(q, p)]
    ensures forall e <- all :: multiset(all)[e] == 1 && multiset(all)[e.Reverse()] == 1
  {
    assert multiset(all) == multiset(es) + multiset{Edge(p, p), Edge(p, q), Edge(q, p)};
    forall e | e in all ensures multiset(all)[e] == 1 && multiset(all)[e.Reverse()] == 1 {
      if e in es {
        assert e.Reverse() in multiset(es);
      } else {
        assert e !in multiset(es) && e.Reverse() !in multiset(es);
      }
    }
  }
}
