/**
 * Edmonds-Karp max-flow (FordFulkerson.hpp): repeat a breadth-first search for
 * a shortest augmenting path, take its bottleneck residual capacity, and push
 * that much flow along the path, until the sink is no longer reached.
 */
module FordFulkerson {
  import opened FlowNet
  import opened SeqUtil

  const INF_2: int := 1_000_000_000

  /** Smallest residual capacity on a non-empty path. */
  ghost function MinResidual(adj: Adj, p: seq<EdgeRef>): int
    requires |p| > 0 && forall k :: 0 <= k < |p| ==> ValidRef(adj, p[k])
    decreases |p|
  {
    var r := Residual(At(adj, p[0]));
    if |p| == 1 then r
    else
      var m := MinResidual(adj, p[1..]);
      if r < m then r else m
  }

  /**
   * The search tree a breadth-first search leaves in parent/parentEdge: the
   * source is its own parent, and every other reached vertex v was reached
   * from a reached vertex one level shallower through the edge
   * adj[parent[v]][parentEdge[v]], which ends at v and has positive residual.
   */
  ghost predicate SearchTree(adj: Adj, parent: seq<int>, parentEdge: seq<int>, depth: seq<int>, source: int)
  {
    |parent| == |adj| && |parentEdge| == |adj| && |depth| == |adj| &&
    0 <= source < |adj| && parent[source] == source && depth[source] == 0 &&
    (forall v :: 0 <= v < |adj| ==> depth[v] >= 0 && -1 <= parent[v] < |adj|) &&
    forall v {:trigger parentEdge[v]} :: 0 <= v < |adj| && v != source && parent[v] != -1 ==>
      0 <= parent[v] && parent[parent[v]] != -1 && 0 <= parentEdge[v] < |adj[parent[v]]| &&
      adj[parent[v]][parentEdge[v]].v == v && Residual(adj[parent[v]][parentEdge[v]]) > 0 &&
      depth[parent[v]] + 1 == depth[v]
  }

  /** Reaching a new vertex v from a reached vertex u keeps the search tree and the bookkeeping. */
  lemma Discover(adj: Adj, parent: seq<int>, parentEdge: seq<int>, depth: seq<int>, source: int,
                 q: seq<int>, done: set<int>, u: int, i: int)
    requires SearchTree(adj, parent, parentEdge, depth, source) && Frontier(adj, parent, q, done)
    requires 0 <= u < |adj| && parent[u] != -1 && 0 <= i < |adj[u]| && Paired(adj)
    requires PairedAt(adj, u, i) && parent[adj[u][i].v] == -1 && Residual(adj[u][i]) > 0
    ensures var v := adj[u][i].v;
      var parent' := parent[v := u];
      SearchTree(adj, parent', parentEdge[v := i], depth[v := depth[u] + 1], source) &&
      Frontier(adj, parent', q + [v], done)
  {
    var v := adj[u][i].v;
    var parent' := parent[v := u];
    var parentEdge' := parentEdge[v := i];
    var depth' := depth[v := depth[u] + 1];
    forall w | 0 <= w < |adj| && w != source && parent'[w] != -1
      ensures 0 <= parent'[w] && parent'[parent'[w]] != -1 && 0 <= parentEdge'[w] < |adj[parent'[w]]|
      ensures adj[parent'[w]][parentEdge'[w]].v == w && Residual(adj[parent'[w]][parentEdge'[w]]) > 0
      ensures depth'[parent'[w]] + 1 == depth'[w]
    {
      if w != v {
        assert parentEdge'[w] == parentEdge[w] && parent'[w] == parent[w] && parent[w] != v;
      }
    }
    forall x | x in done ensures Expanded(adj, parent', x) {
      MarkKeepsExpanded(adj, parent, x, |adj[x]|, v, u);
    }
  }

  /**
   * Breadth-first search from the source over edges with positive residual
   * capacity; it stops as soon as the sink has a parent.  If the sink is not
   * reached, no augmenting path exists; if it is, no augmenting path is
   * shorter than the sink's depth in the tree.
   */
  method FindPaths(adj: Adj, source: int, sink: int)
    returns (parent: seq<int>, parentEdge: seq<int>, ghost depth: seq<int>)
    requires Paired(adj) && 0 <= source < |adj| && 0 <= sink < |adj|
    ensures SearchTree(adj, parent, parentEdge, depth, source)
    ensures parent[sink] == -1 ==> NoAugmentingPath(adj, source, sink)
    ensures parent[sink] != -1 ==>
      forall p {:trigger AugmentingPath(adj, p, source, sink)} :: AugmentingPath(adj, p, source, sink) ==> depth[sink] <= |p|
  {
    parent := seq(|adj|, _ => -1);
    parentEdge := seq(|adj|, _ => -1);
    depth := seq(|adj|, _ => 0);
    var q := [source];
    parent := parent[source := source];
    SearchStart(adj, parent, parentEdge, depth, source);
    ghost var done: set<int> := {};
    while q != [] && parent[sink] == -1
      invariant Searching(adj, parent, parentEdge, depth, source, q, done)
      decreases CountNegative(parent), |q|
    {
      var u := q[0];
      assert [u] + q[1..] == q;
      parent, parentEdge, depth, q := Visit(adj, parent, parentEdge, depth, source, q[1..], done, u);
      done := done + {u};
    }
    SearchEnd(adj, parent, parentEdge, depth, source, sink, q, done);
  }

  /** The search starts with the source alone, as its own parent, in the queue. */
  lemma SearchStart(adj: Adj, parent: seq<int>, parentEdge: seq<int>, depth: seq<int>, source: int)
    requires 0 <= source < |adj| && |parent| == |adj| && |parentEdge| == |adj| && |depth| == |adj|
    requires forall x :: 0 <= x < |adj| ==> parent[x] == (if x == source then source else -1) && depth[x] == 0
    ensures Searching(adj, parent, parentEdge, depth, source, [source], {})
  {
  }

  /**
   * Where the search stops: with the queue empty and the sink unreached
   * there is no augmenting path; with the sink reached every augmenting path
   * has at least depth[sink] edges.
   */
  lemma SearchEnd(adj: Adj, parent: seq<int>, parentEdge: seq<int>, depth: seq<int>, source: int, sink: int,
                  q: seq<int>, done: set<int>)
    requires Paired(adj) && 0 <= sink < |adj| && Searching(adj, parent, parentEdge, depth, source, q, done)
    requires q == [] || parent[sink] != -1
    ensures parent[sink] == -1 ==> NoAugmentingPath(adj, source, sink)
    ensures parent[sink] != -1 ==>
      forall p {:trigger AugmentingPath(adj, p, source, sink)} :: AugmentingPath(adj, p, source, sink) ==> depth[sink] <= |p|
  {
    if parent[sink] == -1 {
      Exhausted(adj, parent, done);
      ClosedNoPath(adj, parent, source, sink);
    } else if source in done {
      forall p | AugmentingPath(adj, p, source, sink) ensures depth[sink] <= |p| {
        LayeredPath(adj, parent, depth, q, done, p, source, sink);
      }
    }
  }

  /**
   * The state of the search: a search tree in breadth-first order whose
   * queue and finished vertices cover every reached vertex, and the source
   * is finished unless it is the only reached vertex.
   */
  ghost predicate Searching(adj: Adj, parent: seq<int>, parentEdge: seq<int>, depth: seq<int>, source: int,
                            q: seq<int>, done: set<int>)
  {
    SearchTree(adj, parent, parentEdge, depth, source) && Frontier(adj, parent, q, done) &&
    Layered(adj, depth, q, done) &&
    (forall x :: 0 <= x < |adj| && parent[x] != -1 ==> x in done || x in q) &&
    (source in done || forall x :: 0 <= x < |adj| && parent[x] != -1 ==> x == source)
  }

  /**
   * One vertex u taken from the queue: every edge of adj[u], in order, whose
   * head has no parent yet and positive residual capacity gives the head the
   * parent u and appends it to the queue.  Afterwards u is expanded: every
   * positive-residual edge out of u leads to a vertex with a parent.
   */
  method Visit(adj: Adj, parent0: seq<int>, parentEdge0: seq<int>, ghost depth0: seq<int>, source: int,
               q0: seq<int>, ghost done: set<int>, u: int)
    returns (parent: seq<int>, parentEdge: seq<int>, ghost depth: seq<int>, q: seq<int>)
    requires Paired(adj) && Searching(adj, parent0, parentEdge0, depth0, source, [u] + q0, done)
    ensures Searching(adj, parent, parentEdge, depth, source, q, done + {u})
    ensures parent[u] != -1 && Expanded(adj, parent, u)
    ensures CountNegative(parent) + |q| == CountNegative(parent0) + |q0|
    ensures CountNegative(parent) <= CountNegative(parent0)
  {
    parent, parentEdge, depth, q := parent0, parentEdge0, depth0, q0;
    ScanStart(adj, parent0, parentEdge0, depth0, source, q0, done, u);
    var i := 0;
    while i < |adj[u]|
      invariant Scanning(adj, parent0, q0, parent, parentEdge, depth, source, q, done, u, i)
    {
      parent, parentEdge, depth, q := ScanEdge(adj, parent0, q0, parent, parentEdge, depth, source, q, done, u, i);
      i := i + 1;
    }
    ScanFinish(adj, parent0, parentEdge0, depth0, parent, parentEdge, depth, source, q0, q, done, u);
  }

  /** Taking u from the head of the queue starts its scan. */
  lemma ScanStart(adj: Adj, parent0: seq<int>, parentEdge0: seq<int>, depth0: seq<int>, source: int,
                  q0: seq<int>, done: set<int>, u: int)
    requires Paired(adj) && Searching(adj, parent0, parentEdge0, depth0, source, [u] + q0, done)
    ensures 0 <= u < |adj| && Scanning(adj, parent0, q0, parent0, parentEdge0, depth0, source, q0, done, u, 0)
  {
    var q := [u] + q0;
    assert q[0] == u && q[1..] == q0;
    assert forall k :: 0 <= k < |q0| ==> q0[k] == q[k + 1];
    LayerPop(adj, depth0, q, done);
  }

  /** With all of adj[u] scanned, u joins the finished vertices. */
  lemma ScanFinish(adj: Adj, parent0: seq<int>, parentEdge0: seq<int>, depth0: seq<int>,
                   parent: seq<int>, parentEdge: seq<int>, depth: seq<int>, source: int,
                   q0: seq<int>, q: seq<int>, done: set<int>, u: int)
    requires Paired(adj) && Searching(adj, parent0, parentEdge0, depth0, source, [u] + q0, done)
    requires 0 <= u < |adj| && Scanning(adj, parent0, q0, parent, parentEdge, depth, source, q, done, u, |adj[u]|)
    ensures Searching(adj, parent, parentEdge, depth, source, q, done + {u}) && Expanded(adj, parent, u)
  {
    assert ([u] + q0)[0] == u;
    FrontierAdd(adj, parent, q, done, u);
    LayerFinish(adj, depth, q, done, u);
  }

  /**
   * Edge i of adj[u]: if its head has no parent yet and it has positive
   * residual capacity, the head gets parent u through edge i and joins the
   * back of the queue; otherwise nothing changes.
   */
  method ScanEdge(adj: Adj, ghost parent0: seq<int>, ghost q0: seq<int>,
                  parent: seq<int>, parentEdge: seq<int>, ghost depth: seq<int>, ghost source: int,
                  q: seq<int>, ghost done: set<int>, u: int, i: int)
    returns (parent': seq<int>, parentEdge': seq<int>, ghost depth': seq<int>, q': seq<int>)
    requires Scanning(adj, parent0, q0, parent, parentEdge, depth, source, q, done, u, i) && i < |adj[u]|
    ensures Scanning(adj, parent0, q0, parent', parentEdge', depth', source, q', done, u, i + 1)
    ensures var v := adj[u][i].v;
      0 <= v < |parent| &&
      if parent[v] == -1 && Residual(adj[u][i]) > 0
      then parent' == parent[v := u] && parentEdge' == parentEdge[v := i] && q' == q + [v]
      else parent' == parent && parentEdge' == parentEdge && q' == q
  {
    var e := adj[u][i];
    assert PairedAt(adj, u, i);
    if parent[e.v] == -1 && e.capacity - e.flow > 0 {
      ScanLabel(adj, parent0, q0, parent, parentEdge, depth, source, q, done, u, i);
      parent', parentEdge', depth', q' := parent[e.v := u], parentEdge[e.v := i], depth[e.v := depth[u] + 1], q + [e.v];
    } else {
      ScanSkip(adj, parent0, q0, parent, parentEdge, depth, source, q, done, u, i);
      parent', parentEdge', depth', q' := parent, parentEdge, depth, q;
    }
  }

  /**
   * The state of Visit after the first i edges of adj[u]: the search tree
   * and its breadth-first order are kept, every vertex with a parent is
   * finished, queued or u, those i edges are expanded, and each vertex that
   * got a parent was appended to the queue.
   */
  ghost predicate Scanning(adj: Adj, parent0: seq<int>, q0: seq<int>,
                           parent: seq<int>, parentEdge: seq<int>, depth: seq<int>, source: int,
                           q: seq<int>, done: set<int>, u: int, i: int)
  {
    Paired(adj) && 0 <= u < |adj| && 0 <= i <= |adj[u]| &&
    SearchTree(adj, parent, parentEdge, depth, source) && Frontier(adj, parent, q, done) && parent[u] != -1 &&
    (forall x :: 0 <= x < |adj| && parent[x] != -1 ==> x in done || x in q || x == u) &&
    ExpandedUpTo(adj, parent, u, i) && ScanLayered(adj, depth, q, done, u, i) &&
    CountNegative(parent) + |q| == CountNegative(parent0) + |q0| && CountNegative(parent) <= CountNegative(parent0)
  }

  /** Scanning edge i of adj[u] when its head has no parent and it has positive residual. */
  lemma ScanLabel(adj: Adj, parent0: seq<int>, q0: seq<int>,
                  parent: seq<int>, parentEdge: seq<int>, depth: seq<int>, source: int,
                  q: seq<int>, done: set<int>, u: int, i: int)
    requires Scanning(adj, parent0, q0, parent, parentEdge, depth, source, q, done, u, i) && i < |adj[u]|
    requires 0 <= adj[u][i].v < |adj| && parent[adj[u][i].v] == -1 && Residual(adj[u][i]) > 0
    ensures var v := adj[u][i].v;
      Scanning(adj, parent0, q0, parent[v := u], parentEdge[v := i], depth[v := depth[u] + 1], source,
               q + [v], done, u, i + 1)
  {
    var v := adj[u][i].v;
    assert PairedAt(adj, u, i);
    LayerLabel(adj, parent, depth, q, done, u, i);
    CountNegativeMark(parent, v, u);
    MarkKeepsExpanded(adj, parent, u, i, v, u);
    Discover(adj, parent, parentEdge, depth, source, q, done, u, i);
    ExtendExpanded(adj, parent[v := u], u, i);
  }

  /** Scanning edge i of adj[u] when its head already has a parent or it has no residual. */
  lemma ScanSkip(adj: Adj, parent0: seq<int>, q0: seq<int>,
                 parent: seq<int>, parentEdge: seq<int>, depth: seq<int>, source: int,
                 q: seq<int>, done: set<int>, u: int, i: int)
    requires Scanning(adj, parent0, q0, parent, parentEdge, depth, source, q, done, u, i) && i < |adj[u]|
    requires 0 <= adj[u][i].v < |adj| && (parent[adj[u][i].v] != -1 || Residual(adj[u][i]) <= 0)
    ensures Scanning(adj, parent0, q0, parent, parentEdge, depth, source, q, done, u, i + 1)
  {
    assert PairedAt(adj, u, i);
    LayerKeep(adj, parent, depth, q, done, u, i);
    ExtendExpanded(adj, parent, u, i);
  }

  /**
   * First walk from the sink back to the source: the bottleneck is the
   * smallest residual capacity on the tree path (capped by INF_2), which is
   * at least 1.  The ghost result is that path, in source-to-sink order.
   */
  method Bottleneck(adj: Adj, parent: seq<int>, parentEdge: seq<int>, ghost depth: seq<int>, source: int, sink: int)
    returns (pathFlow: int, ghost p: seq<EdgeRef>)
    requires SearchTree(adj, parent, parentEdge, depth, source)
    requires 0 <= sink < |adj| && sink != source && parent[sink] != -1
    ensures AugmentingPath(adj, p, source, sink) && p != []
    ensures pathFlow == Min(INF_2, MinResidual(adj, p))
    ensures 1 <= pathFlow && CanCarry(adj, p, pathFlow)
    ensures TreePath(adj, parent, parentEdge, p) && |p| == depth[sink]
    ensures forall j, k :: 0 <= j < k < |p| ==> p[j].from != p[k].from
  {
    pathFlow := INF_2;
    var v := sink;
    p := [];
    while v != source
      invariant Chain(adj, parent, parentEdge, depth, p, v, sink, pathFlow)
      decreases depth[v]
    {
      var u := parent[v];
      var idx := parentEdge[v];
      ChainStep(adj, parent, parentEdge, depth, source, p, v, sink, pathFlow);
      var e := adj[u][idx];
      pathFlow := Min(pathFlow, e.capacity - e.flow);
      p := [EdgeRef(u, idx)] + p;
      v := u;
    }
  }

  /**
   * The state of the first walk at v: p is the tree path from v to the sink,
   * pathFlow its capped minimum residual, the tails on p lie deeper than v,
   * and p has as many edges as the sink lies deeper than v.
   */
  ghost predicate Chain(adj: Adj, parent: seq<int>, parentEdge: seq<int>, depth: seq<int>,
                        p: seq<EdgeRef>, v: int, sink: int, pathFlow: int)
  {
    0 <= v < |adj| && |parent| == |adj| && parent[v] != -1 &&
    AugmentingPath(adj, p, v, sink) && TreePath(adj, parent, parentEdge, p) &&
    pathFlow == (if p == [] then INF_2 else Min(INF_2, MinResidual(adj, p))) &&
    1 <= pathFlow && CanCarry(adj, p, pathFlow) && DepthOrdered(adj, depth, p, v) &&
    0 <= sink < |adj| && depth[v] + |p| == depth[sink]
  }

  /** One step of the first walk: the tree edge into v extends the chain to v's parent. */
  lemma ChainStep(adj: Adj, parent: seq<int>, parentEdge: seq<int>, depth: seq<int>, source: int,
                  p: seq<EdgeRef>, v: int, sink: int, pathFlow: int)
    requires SearchTree(adj, parent, parentEdge, depth, source)
    requires Chain(adj, parent, parentEdge, depth, p, v, sink, pathFlow) && v != source
    ensures 0 <= parent[v] < |adj| && 0 <= parentEdge[v] < |adj[parent[v]]|
    ensures depth[parent[v]] + 1 == depth[v]
    ensures var e := adj[parent[v]][parentEdge[v]];
      Chain(adj, parent, parentEdge, depth, [EdgeRef(parent[v], parentEdge[v])] + p, parent[v], sink,
            Min(pathFlow, e.capacity - e.flow))
  {
    var u := parent[v];
    var idx := parentEdge[v];
    TreeEdge(adj, parent, parentEdge, depth, source, v);
    WalkPath(adj, parent, parentEdge, EdgeRef(u, idx), v, sink, p);
    WalkMin(adj, depth, v, u, EdgeRef(u, idx), p, pathFlow);
  }

  /** The tails of the edges of p sit at depths increasing from depth[v]. */
  ghost predicate DepthOrdered(adj: Adj, depth: seq<int>, p: seq<EdgeRef>, v: int)
  {
    |depth| == |adj| && 0 <= v < |adj| &&
    (forall k :: 0 <= k < |p| ==> 0 <= p[k].from < |adj| && depth[v] <= depth[p[k].from]) &&
    forall j, k :: 0 <= j < k < |p| ==>
      (0 <= p[j].from < |adj| && 0 <= p[k].from < |adj| && depth[p[j].from] < depth[p[k].from])
  }

  /** The tree edge into a reached vertex other than the source. */
  lemma TreeEdge(adj: Adj, parent: seq<int>, parentEdge: seq<int>, depth: seq<int>, source: int, v: int)
    requires SearchTree(adj, parent, parentEdge, depth, source)
    requires 0 <= v < |adj| && v != source && parent[v] != -1
    ensures var r := EdgeRef(parent[v], parentEdge[v]);
      ValidRef(adj, r) && At(adj, r).v == v && Residual(At(adj, r)) > 0 &&
      parent[parent[v]] != -1 && depth[parent[v]] + 1 == depth[v]
  {
  }

  /** One step of the first walk: the tree edge into v extends the path backwards. */
  lemma WalkPath(adj: Adj, parent: seq<int>, parentEdge: seq<int>, r: EdgeRef, v: int, sink: int, p: seq<EdgeRef>)
    requires ValidRef(adj, r) && At(adj, r).v == v && Residual(At(adj, r)) > 0
    requires 0 <= v < |parent| && v < |parentEdge| && parent[v] == r.from && parentEdge[v] == r.idx
    requires AugmentingPath(adj, p, v, sink) && TreePath(adj, parent, parentEdge, p)
    ensures AugmentingPath(adj, [r] + p, r.from, sink) && TreePath(adj, parent, parentEdge, [r] + p)
  {
    var p' := [r] + p;
    assert forall k :: 1 <= k < |p'| ==> p'[k] == p[k - 1];
    PrependPath(adj, r, p, v, sink);
  }

  /** One step of the first walk: the running minimum and the depth order. */
  lemma WalkMin(adj: Adj, depth: seq<int>, v: int, u: int, r: EdgeRef, p: seq<EdgeRef>, pathFlow: int)
    requires ValidRef(adj, r) && r.from == u && 0 <= u < |adj| && Residual(At(adj, r)) > 0
    requires forall k :: 0 <= k < |p| ==> ValidRef(adj, p[k])
    requires pathFlow == (if p == [] then INF_2 else Min(INF_2, MinResidual(adj, p)))
    requires 1 <= pathFlow && CanCarry(adj, p, pathFlow)
    requires DepthOrdered(adj, depth, p, v) && depth[u] < depth[v]
    ensures var f := Min(pathFlow, Residual(At(adj, r)));
      f == Min(INF_2, MinResidual(adj, [r] + p)) && 1 <= f && CanCarry(adj, [r] + p, f) &&
      DepthOrdered(adj, depth, [r] + p, u)
  {
    var p' := [r] + p;
    assert p'[1..] == p;
    assert forall k :: 1 <= k < |p'| ==> p'[k] == p[k - 1];
  }

  /** Each edge of p is the tree edge into its own head. */
  ghost predicate TreePath(adj: Adj, parent: seq<int>, parentEdge: seq<int>, p: seq<EdgeRef>)
  {
    forall k :: 0 <= k < |p| ==>
      (ValidRef(adj, p[k]) && 0 <= At(adj, p[k]).v < |parent| && At(adj, p[k]).v < |parentEdge| &&
       parent[At(adj, p[k]).v] == p[k].from && parentEdge[At(adj, p[k]).v] == p[k].idx)
  }

  /**
   * The path Bottleneck returns is what FlowNet.AugmentFrame asks for:
   * every edge is the tree edge into its head, which is not the source, so
   * it climbs one level of depth, and its partner, running back down, is not
   * on the path.
   */
  lemma TreePathFrame(adj: Adj, parent: seq<int>, parentEdge: seq<int>, depth: seq<int>, source: int,
                      sink: int, p: seq<EdgeRef>)
    requires Paired(adj) && SearchTree(adj, parent, parentEdge, depth, source) && sink != source
    requires AugmentingPath(adj, p, source, sink) && TreePath(adj, parent, parentEdge, p)
    requires forall j, k :: 0 <= j < k < |p| ==> p[j].from != p[k].from
    ensures DistinctEdges(p) && forall k :: 0 <= k < |p| ==> Pair(adj, p[k]) !in p
  {
    forall k | 0 <= k < |p| ensures 0 <= At(adj, p[k]).v < |adj| && depth[At(adj, p[k]).v] == depth[p[k].from] + 1 {
      var v := At(adj, p[k]).v;
      if k < |p| - 1 {
        assert v == p[k + 1].from && p[0].from == source;
      }
      TreeEdge(adj, parent, parentEdge, depth, source, v);
    }
    ClimbingFrame(adj, depth, p);
  }

  /**
   * Second walk from the sink back to the source: raise each tree edge's flow
   * by pathFlow and lower its partner's flow by pathFlow.
   */
  method Augment(network: FlowNetwork, parent: seq<int>, parentEdge: seq<int>, source: int, sink: int,
                 pathFlow: int, ghost p: seq<EdgeRef>)
    requires network.Valid() && source != sink && 0 <= sink < |network.adj|
    requires |parent| == |network.adj| && |parentEdge| == |network.adj|
    requires AugmentingPath(network.adj, p, source, sink) && TreePath(network.adj, parent, parentEdge, p)
    requires forall j, k :: 0 <= j < k < |p| ==> p[j].from != p[k].from
    modifies network
    ensures network.n == old(network.n)
    ensures network.adj == AugmentPath(old(network.adj), p, pathFlow)
  {
    ghost var adj0 := network.adj;
    var v := sink;
    ghost var k := |p|;
    AugmentStep(adj0, parent, parentEdge, source, sink, p, k, pathFlow);
    while v != source
      invariant 0 <= k <= |p| && network.n == old(network.n)
      invariant v == if k == |p| then sink else p[k].from
      invariant 0 <= v < |parent| && (v == source <==> k == 0)
      invariant network.adj == AugmentPath(adj0, p[k..], pathFlow)
      decreases k
    {
      AugmentStep(adj0, parent, parentEdge, source, sink, p, k, pathFlow);
      var u := parent[v];
      var idx := parentEdge[v];
      network.adj := Push(network.adj, EdgeRef(u, idx), pathFlow);
      k := k - 1;
      v := u;
      AugmentStep(adj0, parent, parentEdge, source, sink, p, k, pathFlow);
    }
    assert p[0..] == p;
  }

  /**
   * The second walk at step k, standing at v (the sink when k == |p|, the
   * tail of p[k] otherwise): v is the source exactly when k == 0, and
   * otherwise the tree edge into v is p[k - 1], so pushing along it extends
   * the augmentation from p[k..] to p[k - 1..].
   */
  lemma AugmentStep(adj0: Adj, parent: seq<int>, parentEdge: seq<int>, source: int, sink: int,
                    p: seq<EdgeRef>, k: int, d: int)
    requires Paired(adj0) && source != sink && |parent| == |adj0| && |parentEdge| == |adj0|
    requires AugmentingPath(adj0, p, source, sink) && TreePath(adj0, parent, parentEdge, p)
    requires forall j, k :: 0 <= j < k < |p| ==> p[j].from != p[k].from
    requires 0 <= k <= |p|
    ensures var v := if k == |p| then sink else p[k].from;
      0 <= v < |parent| && (v == source <==> k == 0)
    ensures k > 0 ==>
      var v := if k == |p| then sink else p[k].from;
      var a := AugmentPath(adj0, p[k..], d);
      EdgeRef(parent[v], parentEdge[v]) == p[k - 1] && ValidRef(a, p[k - 1]) &&
      0 <= parent[v] < |parent| && Push(a, p[k - 1], d) == AugmentPath(adj0, p[k - 1..], d)
  {
    if k > 0 {
      assert p[k - 1..][1..] == p[k..];
    }
  }

  /**
   * The solver.  It stops exactly when no augmenting path is left; every round
   * keeps the network consistent, moves pathFlow >= 1 units from the source to the
   * sink and leaves every other vertex's net outflow unchanged, so
   * the returned total is the flow that left the source.
   */
  method EdmondsKarp(network: FlowNetwork, source: int, sink: int) returns (maxFlow: int)
    requires network.Valid()
    requires 0 <= source <= network.n && 0 <= sink <= network.n && source != sink
    modifies network
    ensures network.Valid() && network.n == old(network.n) && SameShape(old(network.adj), network.adj)
    ensures maxFlow >= 0
    ensures Excess(network.adj, source) == old(Excess(network.adj, source)) + maxFlow
    ensures Excess(network.adj, sink) == old(Excess(network.adj, sink)) - maxFlow
    ensures forall x :: 0 <= x < |network.adj| && x != source && x != sink ==>
      Excess(network.adj, x) == old(Excess(network.adj, x))
    ensures maxFlow <= CapacityOut(network.adj, source) - old(Excess(network.adj, source))
    ensures maxFlow <= CapacityIn(old(network.adj), sink) + old(Excess(network.adj, sink))
    ensures NoAugmentingPath(network.adj, source, sink)
    ensures NoAugmentingPath(old(network.adj), source, sink) ==> maxFlow == 0
  {
    ghost var adj0 := network.adj;
    maxFlow := 0;
    CarriesNothing(adj0, source, sink);
    while true
      invariant network.Valid() && network.n == old(network.n)
      invariant Carries(adj0, network.adj, source, sink, maxFlow)
      invariant maxFlow == 0 ==> network.adj == adj0
      invariant NoAugmentingPath(adj0, source, sink) ==> maxFlow == 0
      decreases CapacityOut(network.adj, source) - Excess(network.adj, source)
    {
      var parent, parentEdge, depth := FindPaths(network.adj, source, sink);
      if parent[sink] == -1 {
        break;
      }
      var pathFlow, p := Bottleneck(network.adj, parent, parentEdge, depth, source, sink);
      ghost var before := network.adj;
      assert maxFlow == 0 ==> AugmentingPath(adj0, p, source, sink);
      CarriesMore(adj0, before, p, source, sink, maxFlow, pathFlow);
      Augment(network, parent, parentEdge, source, sink, pathFlow, p);
      maxFlow := maxFlow + pathFlow;
    }
    CarriesBounds(adj0, network.adj, source, sink, maxFlow);
  }
}
