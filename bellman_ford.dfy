/**
 * Bellman-Ford single-source distances (BellmanFordAlgorithm.hpp): n - 1
 * rounds, each relaxing every edge of the list in order, u to v and, when the
 * graph is undirected, v to u.  A relaxation never starts from a vertex
 * still at INF_1 and only ever lowers an entry.
 */
module BellmanFord {
  import opened Graphs

  /** Distance of a vertex not reached yet. */
  const INF_1: int := 1_000_000_000

  /** The distances before the first round: 0 at the start vertex, INF_1 elsewhere. */
  function Initial(n: int, start: int): seq<int>
    requires 0 <= start <= n
  {
    seq(n + 1, _ => INF_1)[start := 0]
  }

  /** Relaxation of the arc x to y of weight w: only from a finite x, and only if it lowers y. */
  function RelaxArc(dist: seq<int>, x: int, y: int, w: int): (r: seq<int>)
    requires 0 <= x < |dist| && 0 <= y < |dist|
    ensures |r| == |dist|
  {
    if dist[x] < INF_1 && dist[y] > dist[x] + w then dist[y := dist[x] + w] else dist
  }

  /** One edge's relaxation: u to v, then, in an undirected graph, v to u. */
  function RelaxEdge(dist: seq<int>, e: Edge, directed: bool): seq<int>
    requires 0 <= e.u < |dist| && 0 <= e.v < |dist|
  {
    var d1 := RelaxArc(dist, e.u, e.v, e.w);
    if directed then d1 else RelaxArc(d1, e.v, e.u, e.w)
  }

  /** One round: the edges of es relaxed in order. */
  function Round(dist: seq<int>, es: seq<Edge>, directed: bool): (r: seq<int>)
    requires EndpointsIn(|dist| - 1, es)
    ensures |r| == |dist|
    decreases |es|
  {
    if es == [] then dist
    else
      assert EndpointsIn(|dist| - 1, es[..|es| - 1]);
      RelaxEdge(Round(dist, es[..|es| - 1], directed), es[|es| - 1], directed)
  }

  /** k rounds over the edge list of g. */
  function Rounds(dist: seq<int>, g: Graph, k: nat): (r: seq<int>)
    requires EndpointsIn(|dist| - 1, g.edges)
    ensures |r| == |dist|
  {
    if k == 0 then dist else Round(Rounds(dist, g, k - 1), g.edges, g.isDirected)
  }

  /** Number of rounds the outer loop runs: n - 1, or none for fewer than two vertices. */
  function RoundCount(n: int): nat
  {
    if n >= 1 then n - 1 else 0
  }

  /** The distances bellmanFord returns. */
  function Distances(g: Graph, start: int): seq<int>
    requires Indexable(g) && 0 <= start <= g.vertexCount
  {
    Rounds(Initial(g.vertexCount, start), g, RoundCount(g.vertexCount))
  }

  /** bellmanFord(graph, start) (BellmanFordAlgorithm.hpp:11-29). */
  method BellmanFord(g: Graph, start: int) returns (dist: seq<int>)
    requires Indexable(g) && 0 <= start <= g.vertexCount
    ensures dist == Distances(g, start)
  {
    var n := g.vertexCount;
    dist := seq(n + 1, _ => INF_1);
    dist := dist[start := 0];
    var i := 1;
    while i < n
      invariant 1 <= i <= if n >= 1 then n else 1
      invariant dist == Rounds(Initial(n, start), g, i - 1)
    {
      dist := RelaxAll(g, dist);
      i := i + 1;
    }
  }

  /** One round of the outer loop: the scan of the whole edge list (BellmanFordAlgorithm.hpp:17-26). */
  method RelaxAll(g: Graph, dist0: seq<int>) returns (dist: seq<int>)
    requires EndpointsIn(|dist0| - 1, g.edges)
    ensures dist == Round(dist0, g.edges, g.isDirected)
  {
    dist := dist0;
    var k := 0;
    while k < |g.edges|
      invariant 0 <= k <= |g.edges|
      invariant dist == Round(dist0, g.edges[..k], g.isDirected)
    {
      assert g.edges[..k + 1][..k] == g.edges[..k];
      dist := RelaxOne(dist, g.edges[k], g.isDirected);
      k := k + 1;
    }
    assert g.edges[..k] == g.edges;
  }

  /** The body of the edge scan: the two guarded updates of one edge (BellmanFordAlgorithm.hpp:18-25). */
  method RelaxOne(dist0: seq<int>, e: Edge, directed: bool) returns (dist: seq<int>)
    requires 0 <= e.u < |dist0| && 0 <= e.v < |dist0|
    ensures dist == RelaxEdge(dist0, e, directed)
  {
    var u, v, w := e.u, e.v, e.w;
    dist := dist0;
    if dist[u] < INF_1 && dist[v] > dist[u] + w {
      dist := dist[v := dist[u] + w];
    }
    if !directed && dist[v] < INF_1 && dist[u] > dist[v] + w {
      dist := dist[u := dist[v] + w];
    }
  }

  // ---------------------------------------------------------------------------
  // No entry ever rises

  /** A round lowers entries or leaves them alone. */
  lemma {:induction false} RoundLowers(dist: seq<int>, es: seq<Edge>, directed: bool)
    requires EndpointsIn(|dist| - 1, es)
    ensures forall x :: 0 <= x < |dist| ==> Round(dist, es, directed)[x] <= dist[x]
    decreases |es|
  {
    if es != [] {
      assert EndpointsIn(|dist| - 1, es[..|es| - 1]);
      RoundLowers(dist, es[..|es| - 1], directed);
    }
  }

  lemma {:induction false} RoundsLower(dist: seq<int>, g: Graph, k: nat)
    requires EndpointsIn(|dist| - 1, g.edges)
    ensures forall x :: 0 <= x < |dist| ==> Rounds(dist, g, k)[x] <= dist[x]
  {
    if k > 0 {
      RoundsLower(dist, g, k - 1);
      RoundLowers(Rounds(dist, g, k - 1), g.edges, g.isDirected);
    }
  }

  /** The result never exceeds the initial distances: at most 0 at the start, at most INF_1 elsewhere. */
  lemma NeverRaised(g: Graph, start: int)
    requires Indexable(g) && 0 <= start <= g.vertexCount
    ensures |Distances(g, start)| == g.vertexCount + 1
    ensures Distances(g, start)[start] <= 0
    ensures forall v :: 0 <= v <= g.vertexCount ==> Distances(g, start)[v] <= INF_1
  {
    RoundsLower(Initial(g.vertexCount, start), g, RoundCount(g.vertexCount));
  }

  // ---------------------------------------------------------------------------
  // Every finite entry is the weight of a walk

  /** Relaxing the arc behind hop h keeps every finite entry witnessed: a walk to its tail plus h reaches its head. */
  lemma HopWitnessed(g: Graph, s: int, dist: seq<int>, h: Hop)
    requires ValidHop(g, h) && 0 <= Tail(g, h) < |dist| && 0 <= Head(g, h) < |dist|
    requires Witnessed(g, s, dist, INF_1)
    ensures Witnessed(g, s, RelaxArc(dist, Tail(g, h), Head(g, h), g.edges[h.k].w), INF_1)
  {
    var x := Tail(g, h);
    if dist[x] < INF_1 && dist[Head(g, h)] > dist[x] + g.edges[h.k].w {
      var p :| Walk(g, p, s, x, dist[x]);
      WalkExtend(g, p, s, x, dist[x], h);
      WitnessedUpdate(g, s, dist, INF_1, Head(g, h), p + [h], dist[x] + g.edges[h.k].w);
    }
  }

  /** Relaxing edge k keeps every finite entry witnessed by a walk from s. */
  lemma RelaxEdgeWitnessed(g: Graph, s: int, dist: seq<int>, k: int)
    requires 0 <= k < |g.edges| && 0 <= g.edges[k].u < |dist| && 0 <= g.edges[k].v < |dist|
    requires Witnessed(g, s, dist, INF_1)
    ensures Witnessed(g, s, RelaxEdge(dist, g.edges[k], g.isDirected), INF_1)
  {
    var e := g.edges[k];
    HopWitnessed(g, s, dist, Hop(k, true));
    if !g.isDirected {
      HopWitnessed(g, s, RelaxArc(dist, e.u, e.v, e.w), Hop(k, false));
    }
  }

  lemma {:induction false} RoundWitnessed(g: Graph, s: int, dist: seq<int>, m: int)
    requires 0 <= m <= |g.edges| && EndpointsIn(|dist| - 1, g.edges)
    requires Witnessed(g, s, dist, INF_1)
    ensures EndpointsIn(|dist| - 1, g.edges[..m])
    ensures Witnessed(g, s, Round(dist, g.edges[..m], g.isDirected), INF_1)
  {
    if m > 0 {
      assert g.edges[..m][..m - 1] == g.edges[..m - 1];
      RoundWitnessed(g, s, dist, m - 1);
      RelaxEdgeWitnessed(g, s, Round(dist, g.edges[..m - 1], g.isDirected), m - 1);
    }
  }

  lemma {:induction false} RoundsWitnessed(g: Graph, s: int, dist: seq<int>, k: nat)
    requires EndpointsIn(|dist| - 1, g.edges) && Witnessed(g, s, dist, INF_1)
    ensures Witnessed(g, s, Rounds(dist, g, k), INF_1)
  {
    if k > 0 {
      RoundsWitnessed(g, s, dist, k - 1);
      RoundWitnessed(g, s, Rounds(dist, g, k - 1), |g.edges|);
      assert g.edges[..|g.edges|] == g.edges;
    }
  }

  /**
   * Every entry of the result below INF_1 is the weight of a walk from the
   * start vertex; in particular a vertex no walk reaches keeps INF_1.
   */
  lemma DistancesWitnessed(g: Graph, start: int)
    requires Indexable(g) && 0 <= start <= g.vertexCount
    ensures Witnessed(g, start, Distances(g, start), INF_1)
  {
    var init := Initial(g.vertexCount, start);
    assert Walk(g, [], start, start, 0);
    RoundsWitnessed(g, start, init, RoundCount(g.vertexCount));
  }

  lemma Unreached(g: Graph, start: int, v: int)
    requires Indexable(g) && 0 <= start <= g.vertexCount && 0 <= v <= g.vertexCount
    requires forall hops, w :: !Walk(g, hops, start, v, w)
    ensures Distances(g, start)[v] == INF_1
  {
    DistancesWitnessed(g, start);
    NeverRaised(g, start);
  }

  // ---------------------------------------------------------------------------
  // After k rounds no walk of at most k hops is lighter than its end's entry

  /**
   * A walk that the relaxation can follow: none of its proper prefixes
   * weighs INF_1 or more, so each of its hops starts from a finite entry.
   */
  ghost predicate ShortWalk(g: Graph, hops: seq<Hop>, s: int, t: int, weight: int)
    decreases |hops|
  {
    if hops == [] then s == t && weight == 0
    else
      var h := hops[|hops| - 1];
      ValidHop(g, h) && Head(g, h) == t && weight - g.edges[h.k].w < INF_1 &&
      ShortWalk(g, hops[..|hops| - 1], s, Tail(g, h), weight - g.edges[h.k].w)
  }

  /** Without negative weights every walk lighter than INF_1 is one the relaxation can follow. */
  lemma {:induction false} LightWalkIsShort(g: Graph, hops: seq<Hop>, s: int, t: int, weight: int)
    requires NonNegativeWeights(g.edges) && Walk(g, hops, s, t, weight) && weight < INF_1
    ensures ShortWalk(g, hops, s, t, weight)
    decreases |hops|
  {
    if hops != [] {
      var h := hops[|hops| - 1];
      LightWalkIsShort(g, hops[..|hops| - 1], s, Tail(g, h), weight - g.edges[h.k].w);
    }
  }

  /** Relaxing an edge lowers entries or leaves them alone. */
  lemma RelaxEdgeLowers(dist: seq<int>, e: Edge, directed: bool)
    requires 0 <= e.u < |dist| && 0 <= e.v < |dist|
    ensures |RelaxEdge(dist, e, directed)| == |dist|
    ensures forall x :: 0 <= x < |dist| ==> RelaxEdge(dist, e, directed)[x] <= dist[x]
  {
  }

  /** Relaxing edge k leaves the head of either of its hops no worse than its tail plus the weight. */
  lemma RelaxEdgeHop(g: Graph, dist: seq<int>, h: Hop)
    requires ValidHop(g, h) && 0 <= g.edges[h.k].u < |dist| && 0 <= g.edges[h.k].v < |dist|
    requires dist[Tail(g, h)] < INF_1
    ensures RelaxEdge(dist, g.edges[h.k], g.isDirected)[Head(g, h)] <= dist[Tail(g, h)] + g.edges[h.k].w
  {
    var e := g.edges[h.k];
    var d1 := RelaxArc(dist, e.u, e.v, e.w);
    if h.forward {
      assert d1[e.v] <= dist[e.u] + e.w;
    } else {
      assert d1[e.v] <= dist[e.v];
    }
  }

  /** After a round over edges es[..m], every hop over one of them leaves its head no worse than its tail plus the weight. */
  lemma {:induction false} RoundHop(g: Graph, dist: seq<int>, m: int, h: Hop)
    requires 0 <= m <= |g.edges| && EndpointsIn(|dist| - 1, g.edges)
    requires ValidHop(g, h) && h.k < m && dist[Tail(g, h)] < INF_1
    ensures EndpointsIn(|dist| - 1, g.edges[..m])
    ensures Round(dist, g.edges[..m], g.isDirected)[Head(g, h)] <= dist[Tail(g, h)] + g.edges[h.k].w
  {
    assert g.edges[..m][..m - 1] == g.edges[..m - 1];
    assert EndpointsIn(|dist| - 1, g.edges[..m - 1]);
    var p := Round(dist, g.edges[..m - 1], g.isDirected);
    var e := g.edges[m - 1];
    assert Round(dist, g.edges[..m], g.isDirected) == RelaxEdge(p, e, g.isDirected);
    RelaxEdgeLowers(p, e, g.isDirected);
    if h.k < m - 1 {
      RoundHop(g, dist, m - 1, h);
    } else {
      RoundLowers(dist, g.edges[..m - 1], g.isDirected);
      RelaxEdgeHop(g, p, h);
    }
  }

  /** k rounds bring every walk of at most k hops that the relaxation can follow down to its weight or below. */
  lemma {:induction false} RoundsBound(g: Graph, dist: seq<int>, s: int, hops: seq<Hop>, t: int, weight: int, k: nat)
    requires EndpointsIn(|dist| - 1, g.edges) && 0 <= s < |dist| && dist[s] <= 0
    requires ShortWalk(g, hops, s, t, weight) && |hops| <= k
    ensures 0 <= t < |dist| && Rounds(dist, g, k)[t] <= weight
    decreases k
  {
    RoundsLower(dist, g, k);
    if hops != [] {
      var h := hops[|hops| - 1];
      var x := Tail(g, h);
      var before := Rounds(dist, g, k - 1);
      RoundsBound(g, dist, s, hops[..|hops| - 1], x, weight - g.edges[h.k].w, k - 1);
      RoundHop(g, before, |g.edges|, h);
      assert g.edges[..|g.edges|] == g.edges;
    }
  }

  /**
   * The result is no heavier than any walk of at most n - 1 hops that the
   * relaxation can follow (every walk lighter than INF_1 when no weight is
   * negative).
   */
  lemma DistancesBound(g: Graph, start: int, hops: seq<Hop>, t: int, weight: int)
    requires Indexable(g) && 0 <= start <= g.vertexCount
    requires ShortWalk(g, hops, start, t, weight) && |hops| <= RoundCount(g.vertexCount)
    ensures 0 <= t <= g.vertexCount && Distances(g, start)[t] <= weight
  {
    RoundsBound(g, Initial(g.vertexCount, start), start, hops, t, weight, RoundCount(g.vertexCount));
  }

  /** Without negative weights the result is no heavier than any walk lighter than INF_1 of at most n - 1 hops. */
  lemma DistancesBoundNonNegative(g: Graph, start: int, hops: seq<Hop>, t: int, weight: int)
    requires Indexable(g) && 0 <= start <= g.vertexCount && NonNegativeWeights(g.edges)
    requires Walk(g, hops, start, t, weight) && weight < INF_1 && |hops| <= RoundCount(g.vertexCount)
    ensures 0 <= t <= g.vertexCount && Distances(g, start)[t] <= weight
  {
    LightWalkIsShort(g, hops, start, t, weight);
    DistancesBound(g, start, hops, t, weight);
  }
}
