/**
 * Prim's minimum spanning tree (PrimAlgorithm.hpp) for undirected graphs:
 * the tree grows from vertex 1, a min-heap of `(weight, from, to)`
 * candidates offers the arcs leaving it, and a popped candidate whose far
 * end is already in the tree is skipped.  The search stops when the heap is
 * empty or the tree holds n vertices.
 */
module Prim {
  import opened Graphs

  /** A heap entry `(weight, from, to)`: the arc from `from` to `to` of that weight. */
  type Candidate = (int, int, int)

  /** The heap's order: lexicographic on the triple. */
  predicate CandidateLeq(a: Candidate, b: Candidate)
  {
    a.0 < b.0 || (a.0 == b.0 && (a.1 < b.1 || (a.1 == b.1 && a.2 <= b.2)))
  }

  /** Top and pop of the min-heap: its smallest candidate and the candidates left. */
  method PopMin(pq: seq<Candidate>) returns (top: Candidate, rest: seq<Candidate>)
    requires pq != []
    ensures top in pq && forall c :: c in pq ==> CandidateLeq(top, c)
    ensures multiset(rest) == multiset(pq) - multiset{top} && |rest| == |pq| - 1
  {
    var m := 0;
    var i := 1;
    while i < |pq|
      invariant 0 <= m < i <= |pq|
      invariant forall k :: 0 <= k < i ==> CandidateLeq(pq[m], pq[k])
    {
      if !CandidateLeq(pq[m], pq[i]) {
        m := i;
      }
      i := i + 1;
    }
    top := pq[m];
    rest := pq[..m] + pq[m + 1..];
    assert pq == pq[..m] + [top] + pq[m + 1..];
  }

  /** What a pop leaves: every other candidate is still queued, and nothing new is. */
  lemma PopMembers(pq: seq<Candidate>, top: Candidate, rest: seq<Candidate>)
    requires multiset(rest) == multiset(pq) - multiset{top}
    ensures forall c :: c in rest ==> c in pq
    ensures forall c :: c in pq && c != top ==> c in rest
  {
    forall c | c in rest ensures c in pq {
      assert multiset(rest)[c] > 0;
    }
    forall c | c in pq && c != top ensures c in rest {
      assert multiset{top}[c] == 0;
      assert multiset(rest)[c] == multiset(pq)[c] > 0;
    }
  }

  // ---------------------------------------------------------------------------
  // The tree

  /** The tree's vertices in the order they joined: the root, then the far end of each accepted edge. */
  function TreeVertices(root: int, mst: seq<Edge>): (vs: seq<int>)
    ensures |vs| == |mst| + 1 && vs[0] == root
    ensures forall i :: 0 <= i < |mst| ==> vs[i + 1] == mst[i].v
  {
    if mst == [] then [root] else TreeVertices(root, mst[..|mst| - 1]) + [mst[|mst| - 1].v]
  }

  /** Edge e is a hop of g: edge k followed either way (the graph is undirected). */
  ghost predicate IsEdgeOf(g: Graph, e: Edge)
  {
    exists h :: ValidHop(g, h) && Tail(g, h) == e.u && Head(g, h) == e.v && g.edges[h.k].w == e.w
  }

  /**
   * The accepted edges grow a tree from the root: each is an edge of g that
   * starts at a vertex already in the tree and ends at one that is not.
   */
  ghost predicate GrowsTree(g: Graph, root: int, mst: seq<Edge>)
    decreases |mst|
  {
    mst == [] ||
    (var e := mst[|mst| - 1];
     var vs := TreeVertices(root, mst[..|mst| - 1]);
     GrowsTree(g, root, mst[..|mst| - 1]) && e.u in vs && e.v !in vs && IsEdgeOf(g, e))
  }

  /** No vertex joins the tree twice. */
  lemma {:induction false} TreeVerticesDistinct(g: Graph, root: int, mst: seq<Edge>)
    requires GrowsTree(g, root, mst)
    ensures forall i, j :: 0 <= i < j < |mst| + 1 ==> TreeVertices(root, mst)[i] != TreeVertices(root, mst)[j]
    decreases |mst|
  {
    if mst != [] {
      var pre := mst[..|mst| - 1];
      TreeVerticesDistinct(g, root, pre);
      var vs := TreeVertices(root, mst);
      assert vs == TreeVertices(root, pre) + [mst[|mst| - 1].v];
      forall i, j | 0 <= i < j < |mst| + 1 ensures vs[i] != vs[j] {
        if j == |mst| {
          assert vs[i] in TreeVertices(root, pre);
        } else {
          assert vs[i] == TreeVertices(root, pre)[i] && vs[j] == TreeVertices(root, pre)[j];
        }
      }
    }
  }

  /** Every vertex of the tree is reached from the root by a walk of g. */
  lemma {:induction false} TreeReachable(g: Graph, root: int, mst: seq<Edge>, x: int)
    requires GrowsTree(g, root, mst) && x in TreeVertices(root, mst)
    ensures exists hops, w :: Walk(g, hops, root, x, w)
    decreases |mst|
  {
    if mst == [] {
      assert Walk(g, [], root, root, 0);
    } else {
      var pre := mst[..|mst| - 1];
      var e := mst[|mst| - 1];
      if x in TreeVertices(root, pre) {
        TreeReachable(g, root, pre, x);
      } else {
        assert x == e.v;
        TreeReachable(g, root, pre, e.u);
        var hops, w :| Walk(g, hops, root, e.u, w);
        var h :| ValidHop(g, h) && Tail(g, h) == e.u && Head(g, h) == e.v && g.edges[h.k].w == e.w;
        WalkExtend(g, hops, root, e.u, w, h);
      }
    }
  }

  /** No hop of g leaves the vertex set vs. */
  ghost predicate Closed(g: Graph, vs: seq<int>)
  {
    forall h :: ValidHop(g, h) && Tail(g, h) in vs ==> Head(g, h) in vs
  }

  /** A set of vertices closed under the hops of g holds every vertex a walk from one of them reaches. */
  lemma {:induction false} ClosedHoldsWalks(g: Graph, vs: seq<int>, s: int, hops: seq<Hop>, t: int, w: int)
    requires Closed(g, vs) && s in vs && Walk(g, hops, s, t, w)
    ensures t in vs
    decreases |hops|
  {
    if hops != [] {
      var h := hops[|hops| - 1];
      ClosedHoldsWalks(g, vs, s, hops[..|hops| - 1], Tail(g, h), w - g.edges[h.k].w);
    }
  }

  // ---------------------------------------------------------------------------
  // The loop's state

  /** Candidate c is an arc of the lists leaving a tree vertex. */
  ghost predicate ArcFromTree(adj: seq<seq<Arc>>, inMST: seq<bool>, c: Candidate)
  {
    0 <= c.1 < |adj| && c.1 < |inMST| && inMST[c.1] && Arc(c.2, c.0) in adj[c.1]
  }

  /** Every arc of x's list that leads out of the tree is queued as a candidate. */
  ghost predicate Offered(adj: seq<seq<Arc>>, inMST: seq<bool>, pq: seq<Candidate>, x: int)
    requires 0 <= x < |adj|
  {
    forall j :: 0 <= j < |adj[x]| && 0 <= adj[x][j].to < |inMST| && !inMST[adj[x][j].to] ==>
      (adj[x][j].w, x, adj[x][j].to) in pq
  }

  /** The heap holds arcs leaving the tree, and every arc that leaves it. */
  ghost predicate QueueState(adj: seq<seq<Arc>>, inMST: seq<bool>, pq: seq<Candidate>)
  {
    |inMST| == |adj| &&
    (forall c :: c in pq ==> ArcFromTree(adj, inMST, c)) &&
    (forall x {:trigger Offered(adj, inMST, pq, x)} :: 0 <= x < |adj| && inMST[x] ==> Offered(adj, inMST, pq, x))
  }

  /** The marks and the accepted edges describe the same tree, grown from vertex 1. */
  ghost predicate TreeState(g: Graph, adj: seq<seq<Arc>>, inMST: seq<bool>, mst: seq<Edge>)
    requires Indexable(g)
  {
    adj == Adjacency(g) && |inMST| == |adj| && GrowsTree(g, 1, mst) &&
    (forall i :: 0 <= i < |mst| + 1 ==> 0 <= TreeVertices(1, mst)[i] < |inMST|) &&
    (forall x :: 0 <= x < |inMST| ==> (inMST[x] <==> x in TreeVertices(1, mst)))
  }

  /** Popping a candidate whose far end is already in the tree keeps the heap's state. */
  lemma SkipStep(adj: seq<seq<Arc>>, inMST: seq<bool>, pq: seq<Candidate>, top: Candidate, rest: seq<Candidate>)
    requires QueueState(adj, inMST, pq) && top in pq && 0 <= top.2 < |inMST| && inMST[top.2]
    requires forall c :: c in rest ==> c in pq
    requires forall c :: c in pq && c != top ==> c in rest
    ensures QueueState(adj, inMST, rest)
  {
    forall x | 0 <= x < |adj| && inMST[x] ensures Offered(adj, inMST, rest, x) {
      assert Offered(adj, inMST, pq, x);
    }
  }

  /** Accepting candidate (w, u, v) with v outside the tree grows the tree by edge (u, v, w). */
  lemma AcceptTree(g: Graph, adj: seq<seq<Arc>>, inMST: seq<bool>, mst: seq<Edge>, pq: seq<Candidate>, top: Candidate)
    requires Indexable(g) && TreeState(g, adj, inMST, mst) && QueueState(adj, inMST, pq)
    requires top in pq && 0 <= top.2 < |inMST| && !inMST[top.2]
    ensures TreeState(g, adj, inMST[top.2 := true], mst + [Edge(top.1, top.2, top.0)])
  {
    var e := Edge(top.1, top.2, top.0);
    var mst' := mst + [e];
    assert mst'[..|mst'| - 1] == mst;
    assert ArcFromTree(adj, inMST, top);
    var j :| 0 <= j < |adj[top.1]| && adj[top.1][j] == Arc(top.2, top.0);
    var h := ArcHop(g, top.1, j);
    assert IsEdgeOf(g, e);
    assert TreeVertices(1, mst') == TreeVertices(1, mst) + [top.2];
  }

  /** After accepting v and offering v's arcs, the heap's state holds for the grown tree. */
  lemma AcceptQueue(adj: seq<seq<Arc>>, inMST: seq<bool>, pq: seq<Candidate>, top: Candidate, rest: seq<Candidate>,
                    pq': seq<Candidate>)
    requires QueueState(adj, inMST, pq) && top in pq && 0 <= top.2 < |inMST| && !inMST[top.2]
    requires forall c :: c in rest ==> c in pq
    requires forall c :: c in pq && c != top ==> c in rest
    requires forall c :: c in rest ==> c in pq'
    requires forall c :: c in pq' ==> c in rest || (c.1 == top.2 && Arc(c.2, c.0) in adj[top.2])
    requires Offered(adj, inMST[top.2 := true], pq', top.2)
    ensures QueueState(adj, inMST[top.2 := true], pq')
  {
    var v := top.2;
    var inMST' := inMST[v := true];
    forall x | 0 <= x < |adj| && inMST'[x] ensures Offered(adj, inMST', pq', x) {
      if x != v {
        assert Offered(adj, inMST, pq, x);
      }
    }
  }

  // ---------------------------------------------------------------------------
  // The algorithm

  /** The first pushes (PrimAlgorithm.hpp:32-36): every arc of the start vertex's list, in order. */
  method OfferStart(adj: seq<seq<Arc>>, start: int) returns (pq: seq<Candidate>)
    requires 0 <= start < |adj|
    ensures |pq| == |adj[start]|
    ensures forall j :: 0 <= j < |pq| ==> pq[j] == (adj[start][j].w, start, adj[start][j].to)
  {
    pq := [];
    var j := 0;
    while j < |adj[start]|
      invariant 0 <= j <= |adj[start]| && |pq| == j
      invariant forall k :: 0 <= k < j ==> pq[k] == (adj[start][k].w, start, adj[start][k].to)
    {
      pq := pq + [(adj[start][j].w, start, adj[start][j].to)];
      j := j + 1;
    }
  }

  /**
   * The pushes after v joins the tree (PrimAlgorithm.hpp:52-58): every arc of
   * v's list whose far end is outside the tree, and nothing else.
   */
  method OfferArcs(adj: seq<seq<Arc>>, inMST: seq<bool>, v: int, pq0: seq<Candidate>) returns (pq: seq<Candidate>)
    requires |inMST| == |adj| && 0 <= v < |adj|
    requires forall j :: 0 <= j < |adj[v]| ==> 0 <= adj[v][j].to < |inMST|
    ensures forall c :: c in pq0 ==> c in pq
    ensures forall c :: c in pq ==> c in pq0 || (c.1 == v && Arc(c.2, c.0) in adj[v] && 0 <= c.2 < |inMST| && !inMST[c.2])
    ensures Offered(adj, inMST, pq, v)
  {
    pq := pq0;
    var j := 0;
    while j < |adj[v]|
      invariant 0 <= j <= |adj[v]|
      invariant forall c :: c in pq0 ==> c in pq
      invariant forall c :: c in pq ==> c in pq0 || (c.1 == v && Arc(c.2, c.0) in adj[v] && 0 <= c.2 < |inMST| && !inMST[c.2])
      invariant forall k :: 0 <= k < j && !inMST[adj[v][k].to] ==> (adj[v][k].w, v, adj[v][k].to) in pq
    {
      var to := adj[v][j].to;
      var w := adj[v][j].w;
      if !inMST[to] {
        pq := pq + [(w, v, to)];
      }
      j := j + 1;
    }
  }

  /**
   * prim(graph) (PrimAlgorithm.hpp:8-62).  A directed graph is refused.
   * Otherwise the result's weight is the sum of its edges, which grow a tree
   * from vertex 1 over at most n vertices, and the tree either holds n
   * vertices or holds every vertex a walk from vertex 1 reaches.
   */
  method Prim(g: Graph) returns (r: Result<(int, seq<Edge>)>)
    requires Indexable(g) && g.vertexCount >= 1
    ensures r.Err? <==> g.isDirected
    ensures r.Ok? ==> r.value.0 == Weight(r.value.1)
    ensures r.Ok? ==> GrowsTree(g, 1, r.value.1) && |r.value.1| <= g.vertexCount - 1
    ensures r.Ok? && |r.value.1| < g.vertexCount - 1 ==>
      forall hops, t, w :: Walk(g, hops, 1, t, w) ==> t in TreeVertices(1, r.value.1)
  {
    if g.isDirected {
      return Err("Prim only for undirected!");
    }
    var n := g.vertexCount;
    var adj := BuildAdjacency(g);
    ArcsWellFormed(g);
    var mst: seq<Edge> := [];
    var totalWeight := 0;
    var inMST := seq(n + 1, _ => false);
    var start := 1;
    inMST := inMST[start := true];
    var pq := OfferStart(adj, start);
    var counter := 1;
    while pq != [] && counter < n
      invariant TreeState(g, adj, inMST, mst) && QueueState(adj, inMST, pq)
      invariant totalWeight == Weight(mst) && counter == |mst| + 1 <= n
      decreases n - counter, |pq|
    {
      var top, rest := PopMin(pq);
      PopMembers(pq, top, rest);
      assert ArcFromTree(adj, inMST, top);
      var weight, u, v := top.0, top.1, top.2;
      if inMST[v] {
        SkipStep(adj, inMST, pq, top, rest);
        pq := rest;
        continue;
      }
      AcceptTree(g, adj, inMST, mst, pq, top);
      var pq' := OfferArcs(adj, inMST[v := true], v, rest);
      AcceptQueue(adj, inMST, pq, top, rest, pq');
      inMST := inMST[v := true];
      totalWeight := totalWeight + weight;
      assert (mst + [Edge(u, v, weight)])[..|mst|] == mst;
      mst := mst + [Edge(u, v, weight)];
      counter := counter + 1;
      pq := pq';
    }
    if counter < n {
      TreeSpans(g, adj, inMST, mst, pq);
    }
    return Ok((totalWeight, mst));
  }

  /** Once the heap is empty no hop of g leaves the tree, so the tree holds every vertex a walk from vertex 1 reaches. */
  lemma TreeSpans(g: Graph, adj: seq<seq<Arc>>, inMST: seq<bool>, mst: seq<Edge>, pq: seq<Candidate>)
    requires Indexable(g) && TreeState(g, adj, inMST, mst) && QueueState(adj, inMST, pq) && pq == []
    ensures forall hops, t, w :: Walk(g, hops, 1, t, w) ==> t in TreeVertices(1, mst)
  {
    var vs := TreeVertices(1, mst);
    forall h | ValidHop(g, h) && Tail(g, h) in vs ensures Head(g, h) in vs {
      var j := HopArc(g, h);
      var x := Tail(g, h);
      var i :| 0 <= i < |vs| && vs[i] == x;
      assert Offered(adj, inMST, pq, x);
    }
    forall hops, t, w | Walk(g, hops, 1, t, w) ensures t in vs {
      ClosedHoldsWalks(g, vs, 1, hops, t, w);
    }
  }
}
