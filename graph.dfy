/**
 * The input graph shared by every algorithm of the library: a vertex count,
 * a directedness flag and an ordered list of weighted edges over the
 * vertices 1..vertexCount.  Every algorithm keeps its per-vertex vectors with
 * n + 1 slots, so vertex 0 exists but no generated edge touches it.
 */
module Graphs {

  /** An input edge `(from, to, weight)`; for the flow algorithms the weight is a capacity. */
  datatype Edge = Edge(u: int, v: int, w: int)

  datatype Graph = Graph(vertexCount: int, edgeCount: int, isDirected: bool, edges: seq<Edge>)

  /** Outcome of an operation that can refuse its input (the source throws instead). */
  datatype Result<T> = Ok(value: T) | Err(msg: string)

  /** Endpoints of every edge are vertices 1..n and no edge is a self-loop. */
  ghost predicate EdgesWithin(n: int, es: seq<Edge>)
  {
    forall k :: 0 <= k < |es| ==> 1 <= es[k].u <= n && 1 <= es[k].v <= n && es[k].u != es[k].v
  }

  /** Endpoints of every edge index one of the n + 1 slots of a per-vertex vector. */
  ghost predicate EndpointsIn(n: int, es: seq<Edge>)
  {
    forall k :: 0 <= k < |es| ==> 0 <= es[k].u <= n && 0 <= es[k].v <= n
  }

  /**
   * At least one vertex, and every edge joins two different vertices of
   * 1..n.  The recorded edge count is not part of it: no algorithm reads it,
   * and it need not equal the length of the edge list.
   */
  ghost predicate WellFormed(g: Graph)
  {
    g.vertexCount >= 1 && EdgesWithin(g.vertexCount, g.edges)
  }

  ghost predicate NonNegativeWeights(es: seq<Edge>)
  {
    forall k :: 0 <= k < |es| ==> es[k].w >= 0
  }

  /** Sum of the weights of a list of edges. */
  function Weight(es: seq<Edge>): int
  {
    if es == [] then 0 else Weight(es[..|es| - 1]) + es[|es| - 1].w
  }

  // ---------------------------------------------------------------------------
  // Walks

  /**
   * One step of a walk: edge k of the list, followed from u to v, or from v
   * to u when the graph is undirected.
   */
  datatype Hop = Hop(k: int, forward: bool)

  ghost predicate ValidHop(g: Graph, h: Hop)
  {
    0 <= h.k < |g.edges| && (h.forward || !g.isDirected)
  }

  function Tail(g: Graph, h: Hop): int
    requires 0 <= h.k < |g.edges|
  {
    if h.forward then g.edges[h.k].u else g.edges[h.k].v
  }

  function Head(g: Graph, h: Hop): int
    requires 0 <= h.k < |g.edges|
  {
    if h.forward then g.edges[h.k].v else g.edges[h.k].u
  }

  /** `hops` leads from s to t and its edges weigh `weight` together. */
  ghost predicate Walk(g: Graph, hops: seq<Hop>, s: int, t: int, weight: int)
    decreases |hops|
  {
    if hops == [] then s == t && weight == 0
    else
      var h := hops[|hops| - 1];
      ValidHop(g, h) && Head(g, h) == t &&
      Walk(g, hops[..|hops| - 1], s, Tail(g, h), weight - g.edges[h.k].w)
  }

  /** A walk followed by one more hop out of its end is a walk. */
  lemma WalkExtend(g: Graph, hops: seq<Hop>, s: int, t: int, weight: int, h: Hop)
    requires Walk(g, hops, s, t, weight) && ValidHop(g, h) && Tail(g, h) == t
    ensures Walk(g, hops + [h], s, Head(g, h), weight + g.edges[h.k].w)
  {
    assert (hops + [h])[..|hops|] == hops;
  }

  /** One walk followed by another that starts where the first ends. */
  lemma {:induction false} WalkAppend(g: Graph, p: seq<Hop>, s: int, m: int, w1: int, q: seq<Hop>, t: int, w2: int)
    requires Walk(g, p, s, m, w1) && Walk(g, q, m, t, w2)
    ensures Walk(g, p + q, s, t, w1 + w2)
    decreases |q|
  {
    if q == [] {
      assert p + q == p;
    } else {
      var h := q[|q| - 1];
      WalkAppend(g, p, s, m, w1, q[..|q| - 1], Tail(g, h), w2 - g.edges[h.k].w);
      assert (p + q)[..|p + q| - 1] == p + q[..|q| - 1];
    }
  }

  /** The hops of a walk in the opposite order, each followed the other way. */
  function Reverse(hops: seq<Hop>): (r: seq<Hop>)
    ensures |r| == |hops|
  {
    if hops == [] then [] else [Hop(hops[|hops| - 1].k, !hops[|hops| - 1].forward)] + Reverse(hops[..|hops| - 1])
  }

  /** In an undirected graph every walk can be followed backwards at the same weight. */
  lemma {:induction false} WalkReverse(g: Graph, hops: seq<Hop>, s: int, t: int, w: int)
    requires !g.isDirected && Walk(g, hops, s, t, w)
    ensures Walk(g, Reverse(hops), t, s, w)
    decreases |hops|
  {
    if hops != [] {
      var h := hops[|hops| - 1];
      var x := Tail(g, h);
      var d := g.edges[h.k].w;
      WalkReverse(g, hops[..|hops| - 1], s, x, w - d);
      var f := Hop(h.k, !h.forward);
      OneHop(g, f);
      assert Tail(g, f) == t && Head(g, f) == x && g.edges[f.k].w == d;
      WalkAppend(g, [f], t, x, d, Reverse(hops[..|hops| - 1]), s, w - d);
      assert Reverse(hops) == [f] + Reverse(hops[..|hops| - 1]);
    }
  }

  /** A single hop is a walk from its tail to its head. */
  lemma OneHop(g: Graph, h: Hop)
    requires ValidHop(g, h)
    ensures Walk(g, [h], Tail(g, h), Head(g, h), g.edges[h.k].w)
  {
    assert [h][..0] == [];
  }

  /** A walk stays a walk when more edges are appended to the list. */
  lemma {:induction false} WalkWiden(g: Graph, g': Graph, hops: seq<Hop>, s: int, t: int, w: int)
    requires g'.isDirected == g.isDirected && |g.edges| <= |g'.edges| && g'.edges[..|g.edges|] == g.edges
    requires Walk(g, hops, s, t, w)
    ensures Walk(g', hops, s, t, w)
    decreases |hops|
  {
    if hops != [] {
      var h := hops[|hops| - 1];
      assert g'.edges[h.k] == g'.edges[..|g.edges|][h.k];
      WalkWiden(g, g', hops[..|hops| - 1], s, Tail(g, h), w - g.edges[h.k].w);
    }
  }

  /** Every vertex v < |dist| whose entry is below `bound` is the end of a walk from s weighing exactly dist[v]. */
  ghost predicate Witnessed(g: Graph, s: int, dist: seq<int>, bound: int)
  {
    forall v :: 0 <= v < |dist| && dist[v] < bound ==> exists hops :: Walk(g, hops, s, v, dist[v])
  }

  /** Lowering an entry to the weight of a walk keeps every entry witnessed. */
  lemma WitnessedUpdate(g: Graph, s: int, dist: seq<int>, bound: int, v: int, hops: seq<Hop>, d: int)
    requires Witnessed(g, s, dist, bound) && 0 <= v < |dist| && Walk(g, hops, s, v, d)
    ensures Witnessed(g, s, dist[v := d], bound)
  {
    var dist' := dist[v := d];
    forall x | 0 <= x < |dist'| && dist'[x] < bound
      ensures exists p :: Walk(g, p, s, x, dist'[x])
    {
      if x == v {
        assert Walk(g, hops, s, x, dist'[x]);
      }
    }
  }

  // ---------------------------------------------------------------------------
  // Adjacency lists

  /** An adjacency-list entry `(to, weight)`. */
  datatype Arc = Arc(to: int, w: int)

  /**
   * The lists Dijkstra and Prim build: every edge (u, v, w) appends (v, w) to
   * u's list and, unless the graph is directed, then (u, w) to v's list.
   */
  function Arcs(n: int, es: seq<Edge>, directed: bool): (adj: seq<seq<Arc>>)
    requires n >= 0 && EndpointsIn(n, es)
    ensures |adj| == n + 1
    decreases |es|
  {
    if es == [] then seq(n + 1, _ => [])
    else
      var e := es[|es| - 1];
      assert EndpointsIn(n, es[..|es| - 1]);
      var adj := Arcs(n, es[..|es| - 1], directed);
      var a := adj[e.u := adj[e.u] + [Arc(e.v, e.w)]];
      if directed then a else a[e.v := a[e.v] + [Arc(e.u, e.w)]]
  }

  ghost predicate Indexable(g: Graph)
  {
    g.vertexCount >= 0 && EndpointsIn(g.vertexCount, g.edges)
  }

  function Adjacency(g: Graph): seq<seq<Arc>>
    requires Indexable(g)
  {
    Arcs(g.vertexCount, g.edges, g.isDirected)
  }

  /** Every arc of the lists is a hop of the graph with the same ends and weight. */
  lemma {:induction false} ArcHop(g: Graph, u: int, j: int) returns (h: Hop)
    requires Indexable(g) && 0 <= u < |Adjacency(g)| && 0 <= j < |Adjacency(g)[u]|
    ensures ValidHop(g, h) && Tail(g, h) == u
    ensures Head(g, h) == Adjacency(g)[u][j].to && g.edges[h.k].w == Adjacency(g)[u][j].w
    decreases |g.edges|
  {
    var es := g.edges;
    var m := |es| - 1;
    var e := es[m];
    var g' := g.(edges := es[..m]);
    assert EndpointsIn(g.vertexCount, es[..m]);
    var adj := Adjacency(g');
    var a := adj[e.u := adj[e.u] + [Arc(e.v, e.w)]];
    if !g.isDirected && u == e.v && j == |a[e.v]| {
      h := Hop(m, false);
    } else if u == e.u && j == |adj[e.u]| {
      h := Hop(m, true);
    } else {
      h := ArcHop(g', u, j);
    }
  }

  /** Every hop of the graph appears as an arc of the lists. */
  lemma {:induction false} HopArc(g: Graph, h: Hop) returns (j: int)
    requires Indexable(g) && ValidHop(g, h)
    ensures 0 <= Tail(g, h) < |Adjacency(g)| && 0 <= j < |Adjacency(g)[Tail(g, h)]|
    ensures Adjacency(g)[Tail(g, h)][j] == Arc(Head(g, h), g.edges[h.k].w)
    decreases |g.edges|
  {
    var es := g.edges;
    var m := |es| - 1;
    var e := es[m];
    var g' := g.(edges := es[..m]);
    assert EndpointsIn(g.vertexCount, es[..m]);
    var adj := Adjacency(g');
    var a := adj[e.u := adj[e.u] + [Arc(e.v, e.w)]];
    if h.k == m {
      j := if h.forward then |adj[e.u]| else |a[e.v]|;
    } else {
      j := HopArc(g', h);
    }
  }

  /** Every arc points at a vertex inside the lists and, when no edge weighs less than 0, weighs at least 0. */
  lemma ArcsWellFormed(g: Graph)
    requires Indexable(g)
    ensures forall u, j :: 0 <= u < |Adjacency(g)| && 0 <= j < |Adjacency(g)[u]| ==>
      0 <= Adjacency(g)[u][j].to < |Adjacency(g)| && (NonNegativeWeights(g.edges) ==> Adjacency(g)[u][j].w >= 0)
  {
    forall u, j | 0 <= u < |Adjacency(g)| && 0 <= j < |Adjacency(g)[u]|
      ensures 0 <= Adjacency(g)[u][j].to < |Adjacency(g)| && (NonNegativeWeights(g.edges) ==> Adjacency(g)[u][j].w >= 0)
    {
      var h := ArcHop(g, u, j);
    }
  }

  /** The loop that builds the lists edge by edge, as Dijkstra and Prim both do. */
  method BuildAdjacency(g: Graph) returns (adj: seq<seq<Arc>>)
    requires Indexable(g)
    ensures adj == Adjacency(g)
  {
    var n := g.vertexCount;
    adj := seq(n + 1, _ => []);
    var k := 0;
    while k < |g.edges|
      invariant 0 <= k <= |g.edges| && EndpointsIn(n, g.edges[..k])
      invariant adj == Arcs(n, g.edges[..k], g.isDirected)
    {
      var e := g.edges[k];
      assert g.edges[..k + 1][..k] == g.edges[..k];
      adj := adj[e.u := adj[e.u] + [Arc(e.v, e.w)]];
      if !g.isDirected {
        adj := adj[e.v := adj[e.v] + [Arc(e.u, e.w)]];
      }
      k := k + 1;
    }
    assert g.edges[..k] == g.edges;
  }
}
