/**
 * Kruskal's minimum spanning forest (KruskalAlgorithm.hpp:36-58): the edges,
 * sorted by weight, are scanned once, and an edge is kept exactly when the
 * disjoint-set forest says its endpoints are still in different classes.
 *
 * The scan is specified by `Scan`, a fold over the sorted edges that keeps a
 * class label per vertex and the edges chosen so far.  The lemmas show that
 * the labels are the connected components of the chosen edges, so the
 * chosen edges form a forest that connects the endpoints of every input
 * edge.
 */
module Kruskal {
  import opened Graphs
  import opened DisjointSets

  // ---------------------------------------------------------------------------
  // Sorting by weight

  predicate SortedByWeight(es: seq<Edge>)
  {
    forall i, j :: 0 <= i < j < |es| ==> es[i].w <= es[j].w
  }

  /**
   * The sort of KruskalAlgorithm.hpp:41-45, by weight alone.  Which of two
   * edges of equal weight comes first is not fixed by the source; this
   * insertion keeps them in input order.
   */
  method SortByWeight(es: seq<Edge>) returns (sorted: seq<Edge>)
    ensures SortedByWeight(sorted) && multiset(sorted) == multiset(es)
  {
    sorted := [];
    var i := 0;
    while i < |es|
      invariant 0 <= i <= |es|
      invariant SortedByWeight(sorted) && multiset(sorted) == multiset(es[..i])
    {
      assert es[..i + 1] == es[..i] + [es[i]];
      sorted := InsertByWeight(sorted, es[i]);
      i := i + 1;
    }
    assert es[..i] == es;
  }

  /** One insertion step: e goes after every edge no heavier than it. */
  method InsertByWeight(sorted0: seq<Edge>, e: Edge) returns (sorted: seq<Edge>)
    requires SortedByWeight(sorted0)
    ensures SortedByWeight(sorted) && multiset(sorted) == multiset(sorted0) + multiset{e}
  {
    var j := 0;
    while j < |sorted0| && sorted0[j].w <= e.w
      invariant 0 <= j <= |sorted0|
      invariant forall k :: 0 <= k < j ==> sorted0[k].w <= e.w
    {
      j := j + 1;
    }
    assert sorted0 == sorted0[..j] + sorted0[j..];
    forall x | 0 <= x < |sorted0[j..]| ensures e.w <= sorted0[j..][x].w {
      assert sorted0[j].w <= sorted0[j + x].w;
    }
    SortedInsert(sorted0[..j], e, sorted0[j..]);
    sorted := sorted0[..j] + [e] + sorted0[j..];
  }

  /** Putting e between a lighter prefix and a heavier suffix of a sorted list keeps it sorted. */
  lemma SortedInsert(a: seq<Edge>, e: Edge, b: seq<Edge>)
    requires SortedByWeight(a + b)
    requires forall x :: 0 <= x < |a| ==> a[x].w <= e.w
    requires forall x :: 0 <= x < |b| ==> e.w <= b[x].w
    ensures SortedByWeight(a + [e] + b)
  {
    var s := a + [e] + b;
    forall i, k | 0 <= i < k < |s| ensures s[i].w <= s[k].w {
      if k < |a| {
        assert s[i] == (a + b)[i] && s[k] == (a + b)[k];
      } else if k == |a| {
        assert s[i] == a[i];
      } else if i < |a| {
        assert s[i] == a[i] && s[k] == b[k - |a| - 1];
      } else if i == |a| {
        assert s[k] == b[k - |a| - 1];
      } else {
        assert s[i] == (a + b)[i - 1] && s[k] == (a + b)[k - 1];
      }
    }
  }

  // ---------------------------------------------------------------------------
  // The scan

  /** The class labels of the vertices and the edges kept so far. */
  datatype Forest = Forest(lab: seq<int>, chosen: seq<Edge>)

  /** The loop of KruskalAlgorithm.hpp:49-56 over es: an edge between two classes is kept and the classes merged. */
  function Scan(lab0: seq<int>, es: seq<Edge>): (f: Forest)
    requires EndpointsIn(|lab0| - 1, es)
    ensures |f.lab| == |lab0|
    decreases |es|
  {
    if es == [] then Forest(lab0, [])
    else
      assert EndpointsIn(|lab0| - 1, es[..|es| - 1]);
      var f := Scan(lab0, es[..|es| - 1]);
      var e := es[|es| - 1];
      if f.lab[e.u] == f.lab[e.v] then f else Forest(Merge(f.lab, e.u, e.v), f.chosen + [e])
  }

  // ---------------------------------------------------------------------------
  // Connectivity over a list of edges

  /** The list es read as an undirected graph (the vertex count plays no part in walks). */
  function Undirected(es: seq<Edge>): Graph
  {
    Graph(0, |es|, false, es)
  }

  /** Some walk over the edges of es leads from x to y. */
  ghost predicate Linked(es: seq<Edge>, x: int, y: int)
  {
    exists hops, w :: Walk(Undirected(es), hops, x, y, w)
  }

  lemma LinkedRefl(es: seq<Edge>, x: int)
    ensures Linked(es, x, x)
  {
    assert Walk(Undirected(es), [], x, x, 0);
  }

  lemma LinkedSym(es: seq<Edge>, x: int, y: int)
    requires Linked(es, x, y)
    ensures Linked(es, y, x)
  {
    var hops, w :| Walk(Undirected(es), hops, x, y, w);
    WalkReverse(Undirected(es), hops, x, y, w);
  }

  lemma LinkedTrans(es: seq<Edge>, x: int, y: int, z: int)
    requires Linked(es, x, y) && Linked(es, y, z)
    ensures Linked(es, x, z)
  {
    var p, w1 :| Walk(Undirected(es), p, x, y, w1);
    var q, w2 :| Walk(Undirected(es), q, y, z, w2);
    WalkAppend(Undirected(es), p, x, y, w1, q, z, w2);
  }

  /** The endpoints of each edge of es are linked, either way round. */
  lemma LinkedEdge(es: seq<Edge>, k: int)
    requires 0 <= k < |es|
    ensures Linked(es, es[k].u, es[k].v) && Linked(es, es[k].v, es[k].u)
  {
    var g := Undirected(es);
    assert Walk(g, [], es[k].u, es[k].u, 0);
    WalkExtend(g, [], es[k].u, es[k].u, 0, Hop(k, true));
    assert Walk(g, [], es[k].v, es[k].v, 0);
    WalkExtend(g, [], es[k].v, es[k].v, 0, Hop(k, false));
  }

  /** Appending an edge keeps every pair linked. */
  lemma LinkedWiden(es: seq<Edge>, e: Edge, x: int, y: int)
    requires Linked(es, x, y)
    ensures Linked(es + [e], x, y)
  {
    var hops, w :| Walk(Undirected(es), hops, x, y, w);
    assert (es + [e])[..|es|] == es;
    WalkWiden(Undirected(es), Undirected(es + [e]), hops, x, y, w);
  }

  /** Every edge joins two vertices of one class: then so does every walk. */
  lemma {:induction false} WalkKeepsLabel(es: seq<Edge>, lab: seq<int>, hops: seq<Hop>, s: int, t: int, w: int)
    requires forall k :: 0 <= k < |es| ==> 0 <= es[k].u < |lab| && 0 <= es[k].v < |lab| && lab[es[k].u] == lab[es[k].v]
    requires 0 <= s < |lab| && Walk(Undirected(es), hops, s, t, w)
    ensures 0 <= t < |lab| && lab[t] == lab[s]
    decreases |hops|
  {
    if hops != [] {
      var h := hops[|hops| - 1];
      WalkKeepsLabel(es, lab, hops[..|hops| - 1], s, Tail(Undirected(es), h), w - es[h.k].w);
    }
  }

  /** The labels are exactly the connected components of the edges es. */
  ghost predicate Components(lab: seq<int>, es: seq<Edge>)
  {
    EndpointsIn(|lab| - 1, es) &&
    forall x, y :: 0 <= x < |lab| && 0 <= y < |lab| ==> (lab[x] == lab[y] <==> Linked(es, x, y))
  }

  /** Before any edge is kept, each vertex is alone: only the empty walk exists. */
  lemma ComponentsInitial(n: int)
    requires n >= 0
    ensures Components(Singletons(n), [])
  {
    forall x, y | 0 <= x <= n && 0 <= y <= n && Linked([], x, y) ensures x == y {
      var hops, w :| Walk(Undirected([]), hops, x, y, w);
    }
    forall x | 0 <= x <= n ensures Linked([], x, x) {
      LinkedRefl([], x);
    }
  }

  /** After merging the classes of e's endpoints, vertices with one label are linked by es + [e]. */
  lemma MergeLinks(lab: seq<int>, es: seq<Edge>, e: Edge, x: int, y: int)
    requires Components(lab, es) && 0 <= e.u < |lab| && 0 <= e.v < |lab|
    requires 0 <= x < |lab| && 0 <= y < |lab| && Merge(lab, e.u, e.v)[x] == Merge(lab, e.u, e.v)[y]
    ensures Linked(es + [e], x, y)
  {
    var es' := es + [e];
    LinkedEdge(es', |es|);
    if lab[x] == lab[y] {
      LinkedWiden(es, e, x, y);
    } else if lab[x] == lab[e.v] {
      LinkedWiden(es, e, x, e.v);
      LinkedWiden(es, e, e.u, y);
      LinkedTrans(es', x, e.v, e.u);
      LinkedTrans(es', x, e.u, y);
    } else {
      LinkedWiden(es, e, x, e.u);
      LinkedWiden(es, e, e.v, y);
      LinkedTrans(es', x, e.u, e.v);
      LinkedTrans(es', x, e.v, y);
    }
  }

  /** ... and vertices linked by es + [e] have one label after the merge. */
  lemma MergeSeparates(lab: seq<int>, es: seq<Edge>, e: Edge, x: int, y: int)
    requires Components(lab, es) && 0 <= e.u < |lab| && 0 <= e.v < |lab|
    requires 0 <= x < |lab| && Linked(es + [e], x, y)
    ensures 0 <= y < |lab| && Merge(lab, e.u, e.v)[x] == Merge(lab, e.u, e.v)[y]
  {
    var es', lab' := es + [e], Merge(lab, e.u, e.v);
    forall k | 0 <= k < |es'|
      ensures 0 <= es'[k].u < |lab'| && 0 <= es'[k].v < |lab'| && lab'[es'[k].u] == lab'[es'[k].v]
    {
      if k < |es| {
        assert es'[k] == es[k];
        LinkedEdge(es, k);
      }
    }
    var hops, w :| Walk(Undirected(es'), hops, x, y, w);
    WalkKeepsLabel(es', lab', hops, x, y, w);
  }

  /** Keeping an edge between two classes and merging them keeps the labels the components. */
  lemma ComponentsMerge(lab: seq<int>, es: seq<Edge>, e: Edge)
    requires Components(lab, es) && 0 <= e.u < |lab| && 0 <= e.v < |lab|
    ensures Components(Merge(lab, e.u, e.v), es + [e])
  {
    var lab' := Merge(lab, e.u, e.v);
    assert EndpointsIn(|lab'| - 1, es + [e]) by {
      forall k | 0 <= k < |es + [e]| ensures 0 <= (es + [e])[k].u < |lab'| && 0 <= (es + [e])[k].v < |lab'| {
        if k < |es| {
          assert (es + [e])[k] == es[k];
        }
      }
    }
    forall x, y | 0 <= x < |lab'| && 0 <= y < |lab'| ensures lab'[x] == lab'[y] <==> Linked(es + [e], x, y) {
      if lab'[x] == lab'[y] {
        MergeLinks(lab, es, e, x, y);
      }
      if Linked(es + [e], x, y) {
        MergeSeparates(lab, es, e, x, y);
      }
    }
  }

  /** Throughout the scan the labels are the components of the edges kept. */
  lemma {:induction false} ScanComponents(n: int, es: seq<Edge>)
    requires n >= 0 && EndpointsIn(n, es)
    ensures Components(Scan(Singletons(n), es).lab, Scan(Singletons(n), es).chosen)
    decreases |es|
  {
    if es == [] {
      ComponentsInitial(n);
    } else {
      assert EndpointsIn(n, es[..|es| - 1]);
      ScanComponents(n, es[..|es| - 1]);
      var f := Scan(Singletons(n), es[..|es| - 1]);
      var e := es[|es| - 1];
      if f.lab[e.u] != f.lab[e.v] {
        ComponentsMerge(f.lab, f.chosen, e);
      }
    }
  }

  // ---------------------------------------------------------------------------
  // What the scan keeps

  /** No kept edge closes a cycle: its endpoints were not linked by the edges kept before it. */
  ghost predicate Acyclic(es: seq<Edge>)
    decreases |es|
  {
    es == [] ||
    (Acyclic(es[..|es| - 1]) && !Linked(es[..|es| - 1], es[|es| - 1].u, es[|es| - 1].v))
  }

  /** The edges the scan keeps form a forest. */
  lemma {:induction false} ScanAcyclic(n: int, es: seq<Edge>)
    requires n >= 0 && EndpointsIn(n, es)
    ensures Acyclic(Scan(Singletons(n), es).chosen)
    decreases |es|
  {
    if es != [] {
      var pre := es[..|es| - 1];
      var e := es[|es| - 1];
      assert EndpointsIn(n, pre);
      ScanAcyclic(n, pre);
      ScanComponents(n, pre);
      var f := Scan(Singletons(n), pre);
      var c := f.chosen + [e];
      assert c[..|c| - 1] == f.chosen;
    }
  }

  /** The kept edges are scanned edges. */
  lemma {:induction false} ScanKept(n: int, es: seq<Edge>)
    requires n >= 0 && EndpointsIn(n, es)
    ensures multiset(Scan(Singletons(n), es).chosen) <= multiset(es)
    decreases |es|
  {
    if es != [] {
      var pre := es[..|es| - 1];
      var e := es[|es| - 1];
      assert EndpointsIn(n, pre);
      ScanKept(n, pre);
      var f := Scan(Singletons(n), pre);
      assert es == pre + [e];
      assert multiset(es) == multiset(pre) + multiset{e};
      assert Scan(Singletons(n), es).chosen == f.chosen || Scan(Singletons(n), es).chosen == f.chosen + [e];
    }
  }

  /** From edges sorted by weight the scan keeps edges sorted by weight. */
  lemma {:induction false} ScanSorted(n: int, es: seq<Edge>)
    requires n >= 0 && EndpointsIn(n, es) && SortedByWeight(es)
    ensures SortedByWeight(Scan(Singletons(n), es).chosen)
    decreases |es|
  {
    if es != [] {
      var pre := es[..|es| - 1];
      var e := es[|es| - 1];
      assert EndpointsIn(n, pre) && SortedByWeight(pre);
      ScanSorted(n, pre);
      ScanKept(n, pre);
      var f := Scan(Singletons(n), pre);
      if f.lab[e.u] != f.lab[e.v] {
        forall i | 0 <= i < |f.chosen| ensures f.chosen[i].w <= e.w {
          assert f.chosen[i] in multiset(pre);
          var k :| 0 <= k < |pre| && pre[k] == f.chosen[i];
          assert es[k] == pre[k];
        }
      }
    }
  }

  /** The kept edges link the endpoints of every scanned edge. */
  lemma {:induction false} ScanSpans(n: int, es: seq<Edge>)
    requires n >= 0 && EndpointsIn(n, es)
    ensures forall k :: 0 <= k < |es| ==> Linked(Scan(Singletons(n), es).chosen, es[k].u, es[k].v)
    decreases |es|
  {
    if es != [] {
      var pre := es[..|es| - 1];
      var e := es[|es| - 1];
      assert EndpointsIn(n, pre);
      ScanSpans(n, pre);
      ScanComponents(n, pre);
      var f := Scan(Singletons(n), pre);
      var c := Scan(Singletons(n), es).chosen;
      forall k | 0 <= k < |es| ensures Linked(c, es[k].u, es[k].v) {
        if k < |pre| {
          assert es[k] == pre[k];
          if c != f.chosen {
            LinkedWiden(f.chosen, e, es[k].u, es[k].v);
          }
        } else if c == f.chosen {
          assert f.lab[e.u] == f.lab[e.v];
        } else {
          LinkedEdge(c, |f.chosen|);
        }
      }
    }
  }

  /** The distinct labels in use. */
  function LabelSet(lab: seq<int>): set<int>
  {
    set x | 0 <= x < |lab| :: lab[x]
  }

  /** Merging two different classes leaves one label fewer. */
  lemma MergeLabels(lab: seq<int>, a: int, b: int)
    requires 0 <= a < |lab| && 0 <= b < |lab| && lab[a] != lab[b]
    ensures LabelSet(Merge(lab, a, b)) == LabelSet(lab) - {lab[b]}
    ensures |LabelSet(Merge(lab, a, b))| == |LabelSet(lab)| - 1
  {
    var lab' := Merge(lab, a, b);
    forall l | l in LabelSet(lab) - {lab[b]} ensures l in LabelSet(lab') {
      var x :| 0 <= x < |lab| && lab[x] == l;
      assert lab'[x] == l;
    }
    assert LabelSet(lab') == LabelSet(lab) - {lab[b]};
  }

  /** Every kept edge merges two classes: kept edges and classes always add up to n + 1. */
  lemma {:induction false} ScanCount(n: int, es: seq<Edge>)
    requires n >= 0 && EndpointsIn(n, es)
    ensures |Scan(Singletons(n), es).chosen| + |LabelSet(Scan(Singletons(n), es).lab)| == n + 1
    decreases |es|
  {
    if es == [] {
      SingletonLabels(n);
    } else {
      assert EndpointsIn(n, es[..|es| - 1]);
      ScanCount(n, es[..|es| - 1]);
      var f := Scan(Singletons(n), es[..|es| - 1]);
      var e := es[|es| - 1];
      if f.lab[e.u] != f.lab[e.v] {
        MergeLabels(f.lab, e.u, e.v);
      }
    }
  }

  lemma LabelSetAppend(lab: seq<int>, x: int)
    ensures LabelSet(lab + [x]) == LabelSet(lab) + {x}
  {
    var lab' := lab + [x];
    forall l | l in LabelSet(lab) ensures l in LabelSet(lab') {
      var y :| 0 <= y < |lab| && lab[y] == l;
      assert lab'[y] == l;
    }
    assert lab'[|lab|] == x;
  }

  /** The labels DisjointSet(n) starts with are n + 1 different ones. */
  lemma {:induction false} SingletonLabels(n: int)
    requires n >= 0
    ensures |LabelSet(Singletons(n))| == n + 1
  {
    if n == 0 {
      assert Singletons(0) == [] + [0];
      assert LabelSet([]) == {};
      LabelSetAppend([], 0);
    } else {
      SingletonLabels(n - 1);
      assert Singletons(n) == Singletons(n - 1) + [n];
      LabelSetAppend(Singletons(n - 1), n);
      assert n !in LabelSet(Singletons(n - 1));
    }
  }

  /** When no edge touches vertex 0, no walk leaves it. */
  lemma {:induction false} NoWalkFromZero(es: seq<Edge>, hops: seq<Hop>, t: int, w: int)
    requires forall k :: 0 <= k < |es| ==> es[k].u >= 1 && es[k].v >= 1
    requires Walk(Undirected(es), hops, 0, t, w)
    ensures t == 0 && hops == []
    decreases |hops|
  {
    if hops != [] {
      var h := hops[|hops| - 1];
      NoWalkFromZero(es, hops[..|hops| - 1], Tail(Undirected(es), h), w - es[h.k].w);
    }
  }

  /** Over the vertices 1..n of a generated graph the scan keeps at most n - 1 edges. */
  lemma ScanBound(n: int, es: seq<Edge>)
    requires n >= 1 && EdgesWithin(n, es)
    ensures |Scan(Singletons(n), es).chosen| <= n - 1
  {
    assert EndpointsIn(n, es);
    var f := Scan(Singletons(n), es);
    ScanComponents(n, es);
    ScanCount(n, es);
    ZeroAlone(n, es);
    TwoLabels(f.lab);
  }

  /** No kept edge touches vertex 0 when no scanned edge does, so nothing links 0 to 1. */
  lemma ZeroAlone(n: int, es: seq<Edge>)
    requires n >= 1 && EdgesWithin(n, es)
    ensures EndpointsIn(n, es) && !Linked(Scan(Singletons(n), es).chosen, 0, 1)
  {
    assert EndpointsIn(n, es);
    var c := Scan(Singletons(n), es).chosen;
    ScanKept(n, es);
    forall k | 0 <= k < |c| ensures c[k].u >= 1 && c[k].v >= 1 {
      assert c[k] in multiset(es);
      var i :| 0 <= i < |es| && es[i] == c[k];
    }
    if Linked(c, 0, 1) {
      var hops, w :| Walk(Undirected(c), hops, 0, 1, w);
      NoWalkFromZero(c, hops, 1, w);
    }
  }

  lemma TwoLabels(lab: seq<int>)
    requires |lab| >= 2 && lab[0] != lab[1]
    ensures |LabelSet(lab)| >= 2
  {
    var s := LabelSet(lab);
    var t := s - {lab[0]};
    assert lab[0] in s && lab[1] in t;
    assert |t| == |s| - 1;
    assert t != {};
  }

  // ---------------------------------------------------------------------------
  // The algorithm

  /**
   * kruskal(graph) (KruskalAlgorithm.hpp:36-58).  A directed graph is
   * refused.  Otherwise the edges are scanned in an order sorted by weight,
   * the result is what `Scan` keeps from them and its weight is the sum of
   * its edges.
   */
  method Kruskal(g: Graph) returns (r: Result<(int, seq<Edge>)>, ghost sorted: seq<Edge>)
    requires Indexable(g)
    ensures r.Err? <==> g.isDirected
    ensures r.Ok? ==> SortedByWeight(sorted) && multiset(sorted) == multiset(g.edges) && EndpointsIn(g.vertexCount, sorted)
    ensures r.Ok? ==> r.value.1 == Scan(Singletons(g.vertexCount), sorted).chosen
    ensures r.Ok? ==> r.value.0 == Weight(r.value.1)
  {
    sorted := [];
    if g.isDirected {
      return Err("Kruskal only for undirected!"), sorted;
    }
    var n := g.vertexCount;
    var edges := SortByWeight(g.edges);
    sorted := edges;
    SortedEndpoints(n, g.edges, edges);
    var ds := new DisjointSet(n);
    var totalWeight := 0;
    var result: seq<Edge> := [];
    var k := 0;
    while k < |edges|
      invariant 0 <= k <= |edges| && ds.Valid() && ds.parent.Length == n + 1
      invariant EndpointsIn(n, edges[..k])
      invariant Scan(Singletons(n), edges[..k]) == Forest(ds.repr, result)
      invariant totalWeight == Weight(result) && fresh(ds.parent)
    {
      var e := edges[k];
      ScanNext(n, edges, k);
      var merged := ds.UnionSets(e.u, e.v);
      if merged {
        WeightAppend(result, e);
        result := result + [e];
        totalWeight := totalWeight + e.w;
      }
      k := k + 1;
    }
    assert edges[..k] == edges;
    return Ok((totalWeight, result)), sorted;
  }

  /** The scan of es[..k + 1] is the scan of es[..k] followed by edge k. */
  lemma ScanNext(n: int, es: seq<Edge>, k: int)
    requires n >= 0 && 0 <= k < |es| && EndpointsIn(n, es[..k]) && 0 <= es[k].u <= n && 0 <= es[k].v <= n
    ensures EndpointsIn(n, es[..k + 1])
    ensures var f := Scan(Singletons(n), es[..k]);
      Scan(Singletons(n), es[..k + 1]) ==
        if f.lab[es[k].u] == f.lab[es[k].v] then f else Forest(Merge(f.lab, es[k].u, es[k].v), f.chosen + [es[k]])
  {
    assert es[..k + 1][..k] == es[..k];
  }

  lemma WeightAppend(es: seq<Edge>, e: Edge)
    ensures Weight(es + [e]) == Weight(es) + e.w
  {
    assert (es + [e])[..|es|] == es;
  }

  /** Sorting keeps every endpoint among the vertices. */
  lemma SortedEndpoints(n: int, es: seq<Edge>, sorted: seq<Edge>)
    requires EndpointsIn(n, es) && multiset(sorted) == multiset(es)
    ensures EndpointsIn(n, sorted)
  {
    forall k | 0 <= k < |sorted| ensures 0 <= sorted[k].u <= n && 0 <= sorted[k].v <= n {
      assert sorted[k] in multiset(es);
      var i :| 0 <= i < |es| && es[i] == sorted[k];
    }
  }

  /**
   * What kruskal returns, whatever order it gives to edges of equal weight:
   * a forest of input edges, in non-decreasing weight order, that links the
   * endpoints of every input edge, of at most n - 1 edges on a generated
   * graph, and whose weight is the sum of its edges.
   */
  method KruskalForest(g: Graph) returns (r: Result<(int, seq<Edge>)>)
    requires Indexable(g)
    ensures r.Err? <==> g.isDirected
    ensures r.Ok? ==> r.value.0 == Weight(r.value.1)
    ensures r.Ok? ==> Acyclic(r.value.1) && SortedByWeight(r.value.1) && multiset(r.value.1) <= multiset(g.edges)
    ensures r.Ok? ==> forall k :: 0 <= k < |g.edges| ==> Linked(r.value.1, g.edges[k].u, g.edges[k].v)
    ensures r.Ok? && WellFormed(g) ==> |r.value.1| <= g.vertexCount - 1
  {
    ghost var sorted;
    r, sorted := Kruskal(g);
    if r.Ok? {
      var n := g.vertexCount;
      ScanAcyclic(n, sorted);
      ScanKept(n, sorted);
      ScanSorted(n, sorted);
      ScanSpans(n, sorted);
      forall k | 0 <= k < |g.edges| ensures Linked(r.value.1, g.edges[k].u, g.edges[k].v) {
        assert g.edges[k] in multiset(sorted);
        var i :| 0 <= i < |sorted| && sorted[i] == g.edges[k];
      }
      if WellFormed(g) {
        SortedWithin(n, g.edges, sorted);
        ScanBound(n, sorted);
      }
    }
  }

  /** Sorting keeps every edge between two different vertices of 1..n. */
  lemma SortedWithin(n: int, es: seq<Edge>, sorted: seq<Edge>)
    requires EdgesWithin(n, es) && multiset(sorted) == multiset(es)
    ensures EdgesWithin(n, sorted)
  {
    forall k | 0 <= k < |sorted| ensures 1 <= sorted[k].u <= n && 1 <= sorted[k].v <= n && sorted[k].u != sorted[k].v {
      assert sorted[k] in multiset(es);
      var i :| 0 <= i < |es| && es[i] == sorted[k];
    }
  }
}
