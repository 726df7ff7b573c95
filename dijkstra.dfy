/**
 * Dijkstra's single-source shortest distances (DijkstraAlgorithm.hpp): the
 * adjacency lists are built from the edge list, `dist` starts at INF except
 * for the start vertex, and a min-heap of `(distance, vertex)` pairs drives
 * the relaxation.  Entries whose distance is no longer current are skipped
 * rather than removed from the heap.
 */
module Dijkstra {
  import opened Graphs
  import opened SeqUtil

  /** Distance of a vertex the search has not reached; Dinic also starts each phase with this much. */
  const INF: int := 1_000_000_000

  /** A heap entry `(distance, vertex)`. */
  type Entry = (int, int)

  /** The heap's order: by distance, then by vertex. */
  predicate EntryLeq(a: Entry, b: Entry)
  {
    a.0 < b.0 || (a.0 == b.0 && a.1 <= b.1)
  }

  /** Top and pop of the min-heap: its smallest entry and the entries left. */
  method PopMin(pq: seq<Entry>) returns (top: Entry, rest: seq<Entry>)
    requires pq != []
    ensures top in pq && forall e :: e in pq ==> EntryLeq(top, e)
    ensures multiset(rest) == multiset(pq) - multiset{top} && |rest| == |pq| - 1
  {
    var m := 0;
    var i := 1;
    while i < |pq|
      invariant 0 <= m < i <= |pq|
      invariant forall k :: 0 <= k < i ==> EntryLeq(pq[m], pq[k])
    {
      if !EntryLeq(pq[m], pq[i]) {
        m := i;
      }
      i := i + 1;
    }
    top := pq[m];
    rest := pq[..m] + pq[m + 1..];
    assert pq == pq[..m] + [top] + pq[m + 1..];
  }

  /** What a pop leaves: every other entry is still queued, and nothing new is. */
  lemma PopMembers(pq: seq<Entry>, top: Entry, rest: seq<Entry>)
    requires multiset(rest) == multiset(pq) - multiset{top}
    ensures forall e :: e in rest ==> e in pq
    ensures forall e :: e in pq && e != top ==> e in rest
  {
    forall e | e in rest ensures e in pq {
      assert multiset(rest)[e] > 0;
    }
    forall e | e in pq && e != top ensures e in rest {
      assert multiset{top}[e] == 0;
      assert multiset(rest)[e] == multiset(pq)[e] > 0;
    }
  }

  /** None of the first i arcs out of u offers its target a shorter distance through u. */
  ghost predicate RelaxedBelow(adj: seq<seq<Arc>>, dist: seq<int>, u: int, i: int)
    requires 0 <= u < |adj| && |dist| == |adj|
  {
    forall j :: 0 <= j < i && j < |adj[u]| && 0 <= adj[u][j].to < |dist| ==>
      dist[adj[u][j].to] <= dist[u] + adj[u][j].w
  }

  /** No arc out of u offers its target a shorter distance through u. */
  ghost predicate Relaxed(adj: seq<seq<Arc>>, dist: seq<int>, u: int)
    requires 0 <= u < |adj| && |dist| == |adj|
  {
    RelaxedBelow(adj, dist, u, |adj[u]|)
  }

  /** Lowering the entry of v keeps every other vertex relaxed. */
  lemma RelaxedKept(adj: seq<seq<Arc>>, dist: seq<int>, v: int, d: int)
    requires |dist| == |adj| && 0 <= v < |dist| && d <= dist[v]
    ensures forall x :: 0 <= x < |adj| && x != v && Relaxed(adj, dist, x) ==> Relaxed(adj, dist[v := d], x)
  {
    forall x | 0 <= x < |adj| && x != v && Relaxed(adj, dist, x) ensures Relaxed(adj, dist[v := d], x) {
      assert RelaxedBelow(adj, dist, x, |adj[x]|);
    }
  }

  /**
   * When every vertex is relaxed and the start vertex is at distance 0 or
   * less, no walk from the start is lighter than the entry of its end.
   */
  lemma {:induction false} RelaxedBound(g: Graph, dist: seq<int>, s: int, hops: seq<Hop>, t: int, w: int)
    requires Indexable(g) && |dist| == g.vertexCount + 1 && 0 <= s < |dist| && dist[s] <= 0
    requires forall x :: 0 <= x < |dist| ==> Relaxed(Adjacency(g), dist, x)
    requires Walk(g, hops, s, t, w)
    ensures 0 <= t < |dist| && dist[t] <= w
    decreases |hops|
  {
    if hops != [] {
      var h := hops[|hops| - 1];
      var x := Tail(g, h);
      RelaxedBound(g, dist, s, hops[..|hops| - 1], x, w - g.edges[h.k].w);
      var j := HopArc(g, h);
      assert Relaxed(Adjacency(g), dist, x);
    }
  }

  /** Every queued entry names a vertex and is no smaller than that vertex's distance. */
  ghost predicate Entries(dist: seq<int>, pq: seq<Entry>)
  {
    forall e :: e in pq ==> 0 <= e.1 < |dist| && dist[e.1] <= e.0
  }

  /** Every vertex other than `skip` is relaxed or still has its current entry queued. */
  ghost predicate Pending(adj: seq<seq<Arc>>, dist: seq<int>, pq: seq<Entry>, skip: int)
    requires |dist| == |adj|
  {
    forall x {:trigger Relaxed(adj, dist, x)} :: 0 <= x < |adj| && x != skip ==> (dist[x], x) in pq || Relaxed(adj, dist, x)
  }

  /** The distances during the scan of u's list: lowered only, witnessed, and lowered at all only if the sum fell. */
  ghost predicate ScanDist(g: Graph, adj: seq<seq<Arc>>, start: int, dist0: seq<int>, pq0: seq<Entry>, u: int, curDist: int,
                           dist: seq<int>, pq: seq<Entry>)
  {
    0 <= u < |adj| && |dist0| == |adj| && |dist| == |adj| && dist[u] == curDist &&
    (forall v :: 0 <= v < |dist| ==> 0 <= dist[v] <= dist0[v] <= INF) &&
    Witnessed(g, start, dist, INF) &&
    (Total(dist) < Total(dist0) || (Total(dist) == Total(dist0) && |pq| == |pq0|))
  }

  /** The queue during the scan of u's list once its first i arcs are done. */
  ghost predicate ScanQueue(adj: seq<seq<Arc>>, u: int, dist: seq<int>, pq: seq<Entry>, i: int)
  {
    0 <= u < |adj| && |dist| == |adj| && 0 <= i <= |adj[u]| &&
    Entries(dist, pq) && Pending(adj, dist, pq, u) && RelaxedBelow(adj, dist, u, i)
  }

  /** Arc i of u's list offers its target nothing better: the scan moves on. */
  lemma ScanKeep(adj: seq<seq<Arc>>, u: int, dist: seq<int>, pq: seq<Entry>, i: int)
    requires ScanQueue(adj, u, dist, pq, i) && i < |adj[u]|
    requires 0 <= adj[u][i].to < |dist| ==> dist[u] + adj[u][i].w >= dist[adj[u][i].to]
    ensures ScanQueue(adj, u, dist, pq, i + 1)
  {
  }

  /** The walk that reaches u, followed by the hop behind arc i of u's list, witnesses the lowered distance. */
  lemma WitnessRelax(g: Graph, start: int, dist: seq<int>, u: int, v: int, h: Hop)
    requires Witnessed(g, start, dist, INF) && 0 <= u < |dist| && 0 <= v < |dist|
    requires ValidHop(g, h) && Tail(g, h) == u && Head(g, h) == v
    requires g.edges[h.k].w >= 0 && dist[u] + g.edges[h.k].w < dist[v] <= INF
    ensures Witnessed(g, start, dist[v := dist[u] + g.edges[h.k].w], INF)
  {
    var hu :| Walk(g, hu, start, u, dist[u]);
    WalkExtend(g, hu, start, u, dist[u], h);
    WitnessedUpdate(g, start, dist, INF, v, hu + [h], dist[u] + g.edges[h.k].w);
  }

  /** Lowering v's distance and queueing the new entry leaves every vertex but u relaxed or queued. */
  lemma PendingRelax(adj: seq<seq<Arc>>, dist: seq<int>, pq: seq<Entry>, u: int, v: int, d: int)
    requires |dist| == |adj| && Pending(adj, dist, pq, u) && 0 <= v < |dist| && d <= dist[v]
    ensures Pending(adj, dist[v := d], pq + [(d, v)], u)
  {
    var dist', pq' := dist[v := d], pq + [(d, v)];
    RelaxedKept(adj, dist, v, d);
    forall x | 0 <= x < |adj| && x != u
      ensures (dist'[x], x) in pq' || Relaxed(adj, dist', x)
    {
      if x != v && (dist[x], x) !in pq {
        assert Relaxed(adj, dist, x);
      }
    }
  }

  /** Lowering the target of arc i of u's list to the distance through u relaxes the first i + 1 arcs. */
  lemma RelaxedBelowStep(adj: seq<seq<Arc>>, dist: seq<int>, u: int, i: int, d: int)
    requires 0 <= u < |adj| && |dist| == |adj| && 0 <= i < |adj[u]| && RelaxedBelow(adj, dist, u, i)
    requires var v := adj[u][i].to; 0 <= v < |dist| && v != u && d == dist[u] + adj[u][i].w && d <= dist[v]
    ensures RelaxedBelow(adj, dist[adj[u][i].to := d], u, i + 1)
  {
  }

  /** Lowering the target v of arc i of u's list to the distance through u keeps the distances' half of the scan state. */
  lemma DistRelax(g: Graph, adj: seq<seq<Arc>>, start: int, dist0: seq<int>, pq0: seq<Entry>, u: int, curDist: int,
                  dist: seq<int>, pq: seq<Entry>, i: int, v: int, weight: int, h: Hop)
    requires ScanDist(g, adj, start, dist0, pq0, u, curDist, dist, pq) && 0 <= i < |adj[u]|
    requires adj[u][i] == Arc(v, weight) && weight >= 0 && 0 <= v < |dist| && curDist + weight < dist[v]
    requires ValidHop(g, h) && Tail(g, h) == u && Head(g, h) == v && g.edges[h.k].w == weight
    ensures ScanDist(g, adj, start, dist0, pq0, u, curDist, dist[v := curDist + weight], pq + [(curDist + weight, v)])
  {
    WitnessRelax(g, start, dist, u, v, h);
    TotalUpdate(dist, v, curDist + weight);
  }

  /** ... and the queue's half, with the lowered distance queued. */
  lemma QueueRelax(adj: seq<seq<Arc>>, u: int, curDist: int, dist: seq<int>, pq: seq<Entry>, i: int, v: int, weight: int)
    requires ScanQueue(adj, u, dist, pq, i) && i < |adj[u]| && dist[u] == curDist
    requires adj[u][i] == Arc(v, weight) && weight >= 0 && 0 <= v < |dist| && curDist + weight < dist[v]
    ensures ScanQueue(adj, u, dist[v := curDist + weight], pq + [(curDist + weight, v)], i + 1)
  {
    PendingRelax(adj, dist, pq, u, v, curDist + weight);
    RelaxedBelowStep(adj, dist, u, i, curDist + weight);
  }

  /** The scan of u's list (DijkstraAlgorithm.hpp:47-54) after a current entry for u was popped. */
  method RelaxFrom(g: Graph, adj: seq<seq<Arc>>, start: int, dist0: seq<int>, pq0: seq<Entry>, u: int, curDist: int)
    returns (dist: seq<int>, pq: seq<Entry>)
    requires Indexable(g) && NonNegativeWeights(g.edges) && adj == Adjacency(g)
    requires |dist0| == |adj| && 0 <= u < |adj| && curDist == dist0[u]
    requires forall v :: 0 <= v < |dist0| ==> 0 <= dist0[v] <= INF
    requires Witnessed(g, start, dist0, INF) && Entries(dist0, pq0) && Pending(adj, dist0, pq0, u)
    ensures |dist| == |adj| && forall v :: 0 <= v < |dist| ==> 0 <= dist[v] <= dist0[v]
    ensures Witnessed(g, start, dist, INF) && Entries(dist, pq) && Pending(adj, dist, pq, -1)
    ensures Total(dist) < Total(dist0) || (Total(dist) == Total(dist0) && |pq| == |pq0|)
  {
    ArcsWellFormed(g);
    dist, pq := dist0, pq0;
    var i := 0;
    while i < |adj[u]|
      invariant ScanDist(g, adj, start, dist0, pq0, u, curDist, dist, pq)
      invariant ScanQueue(adj, u, dist, pq, i)
      decreases |adj[u]| - i
    {
      var v := adj[u][i].to;
      var weight := adj[u][i].w;
      if curDist + weight < dist[v] {
        ghost var h := ArcHop(g, u, i);
        DistRelax(g, adj, start, dist0, pq0, u, curDist, dist, pq, i, v, weight, h);
        QueueRelax(adj, u, curDist, dist, pq, i, v, weight);
        dist := dist[v := curDist + weight];
        pq := pq + [(curDist + weight, v)];
      } else {
        ScanKeep(adj, u, dist, pq, i);
      }
      i := i + 1;
    }
    assert Relaxed(adj, dist, u);
  }

  /**
   * dijkstra(graph, start) (DijkstraAlgorithm.hpp:15-57).  With no negative
   * weight the entries end up as exact distances: each finite entry is the
   * weight of some walk from the start, no walk is lighter than the entry of
   * its end, and vertices no walk reaches below INF keep INF.
   */
  method Dijkstra(g: Graph, start: int) returns (dist: seq<int>)
    requires Indexable(g) && NonNegativeWeights(g.edges) && 0 <= start <= g.vertexCount
    ensures |dist| == g.vertexCount + 1 && dist[start] == 0
    ensures forall v :: 0 <= v < |dist| ==> 0 <= dist[v] <= INF
    ensures Witnessed(g, start, dist, INF)
    ensures forall hops, t, w :: Walk(g, hops, start, t, w) ==> 0 <= t < |dist| && dist[t] <= w
  {
    var n := g.vertexCount;
    var adj := BuildAdjacency(g);
    ArcsWellFormed(g);
    dist := seq(n + 1, _ => INF);
    dist := dist[start := 0];
    var pq: seq<Entry> := [(0, start)];
    assert Walk(g, [], start, start, 0);
    while pq != []
      invariant |dist| == n + 1 && dist[start] == 0
      invariant forall v :: 0 <= v < |dist| ==> 0 <= dist[v] <= INF
      invariant Witnessed(g, start, dist, INF)
      invariant Entries(dist, pq) && Pending(adj, dist, pq, -1)
      decreases Total(dist), |pq|
    {
      TotalNonNegative(dist);
      var top, rest := PopMin(pq);
      PopMembers(pq, top, rest);
      pq := rest;
      var curDist := top.0;
      var u := top.1;
      if curDist != dist[u] {
        continue;
      }
      dist, pq := RelaxFrom(g, adj, start, dist, pq, u, curDist);
    }
    forall hops, t, w | Walk(g, hops, start, t, w)
      ensures 0 <= t < |dist| && dist[t] <= w
    {
      RelaxedBound(g, dist, start, hops, t, w);
    }
  }
}
