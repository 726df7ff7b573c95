/**
 * The residual network used by both max-flow solvers (FlowEdge.hpp).
 *
 * Vertex x owns the ordered list adj[x] of residual edges leaving it.  Every
 * input edge becomes a pair of directed edges, and each edge stores in `rev`
 * the index of its partner inside the partner's own list.  Flow is pushed
 * along an edge by raising its flow and lowering its partner's flow by the
 * same amount, so partner flows always cancel and a lowered flow exposes
 * residual capacity for cancelling earlier pushes.
 */
module FlowNet {
  import opened Graphs

  datatype FlowEdge = FlowEdge(u: int, v: int, capacity: int, flow: int, rev: int)

  /** Names the edge adj[from][idx]. */
  datatype EdgeRef = EdgeRef(from: int, idx: int)

  type Adj = seq<seq<FlowEdge>>

  ghost predicate ValidRef(adj: Adj, r: EdgeRef)
  {
    0 <= r.from < |adj| && 0 <= r.idx < |adj[r.from]|
  }

  function At(adj: Adj, r: EdgeRef): FlowEdge
    requires ValidRef(adj, r)
  {
    adj[r.from][r.idx]
  }

  /** Residual capacity of an edge. */
  function Residual(e: FlowEdge): int
  {
    e.capacity - e.flow
  }

  // ---------------------------------------------------------------------------
  // Invariants of a residual network
  // ---------------------------------------------------------------------------

  /** Edge adj[x][j] starts at x, is not a self-loop, and its partner points back at it. */
  ghost predicate PairedAt(adj: Adj, x: int, j: int)
    requires 0 <= x < |adj| && 0 <= j < |adj[x]|
  {
    var e := adj[x][j];
    e.u == x && 0 <= e.v < |adj| && e.v != x && 0 <= e.rev < |adj[e.v]| &&
    adj[e.v][e.rev].v == x && adj[e.v][e.rev].rev == j
  }

  ghost predicate Paired(adj: Adj)
  {
    forall x, j :: 0 <= x < |adj| && 0 <= j < |adj[x]| ==> PairedAt(adj, x, j)
  }

  /** The partner of a paired edge. */
  function Pair(adj: Adj, r: EdgeRef): EdgeRef
    requires ValidRef(adj, r)
  {
    EdgeRef(At(adj, r).v, At(adj, r).rev)
  }

  /** Every edge has non-negative residual capacity. */
  ghost predicate WithinCapacity(adj: Adj)
  {
    forall x, j :: 0 <= x < |adj| && 0 <= j < |adj[x]| ==> adj[x][j].flow <= adj[x][j].capacity
  }

  /** The flows of two partner edges sum to zero. */
  ghost predicate SkewSymmetric(adj: Adj)
    requires Paired(adj)
  {
    forall x, j :: 0 <= x < |adj| && 0 <= j < |adj[x]| ==>
      PairedAt(adj, x, j) && adj[x][j].flow + adj[adj[x][j].v][adj[x][j].rev].flow == 0
  }

  ghost predicate Consistent(adj: Adj)
  {
    Paired(adj) && WithinCapacity(adj) && SkewSymmetric(adj)
  }

  /** a and b have the same edges, except possibly for their flows. */
  ghost predicate SameShape(a: Adj, b: Adj)
  {
    |a| == |b| &&
    (forall x :: 0 <= x < |a| ==> |a[x]| == |b[x]|) &&
    (forall x, j :: 0 <= x < |a| && 0 <= j < |a[x]| ==>
       a[x][j].u == b[x][j].u && a[x][j].v == b[x][j].v &&
       a[x][j].capacity == b[x][j].capacity && a[x][j].rev == b[x][j].rev)
  }

  lemma ShapeSymmetric(a: Adj, b: Adj)
    requires SameShape(a, b)
    ensures SameShape(b, a)
  {
  }

  lemma ShapeTransitive(a: Adj, b: Adj, c: Adj)
    requires SameShape(a, b) && SameShape(b, c)
    ensures SameShape(a, c)
  {
  }

  /** Pairing depends on the shape only. */
  lemma ShapeKeepsPaired(a: Adj, b: Adj)
    requires SameShape(a, b) && Paired(a)
    ensures Paired(b)
  {
    forall x, j | 0 <= x < |b| && 0 <= j < |b[x]|
      ensures PairedAt(b, x, j)
    {
      assert PairedAt(a, x, j);
    }
  }

  lemma PairInvolution(adj: Adj, r: EdgeRef)
    requires Paired(adj) && ValidRef(adj, r)
    ensures ValidRef(adj, Pair(adj, r)) && Pair(adj, r) != r && Pair(adj, Pair(adj, r)) == r
  {
    assert PairedAt(adj, r.from, r.idx);
  }

  // ---------------------------------------------------------------------------
  // Sums over one vertex's list
  // ---------------------------------------------------------------------------

  /** Net flow out of a vertex: the sum of the flows on its list. */
  function SumFlow(s: seq<FlowEdge>): int
  {
    if s == [] then 0 else SumFlow(s[..|s| - 1]) + s[|s| - 1].flow
  }

  function SumCapacity(s: seq<FlowEdge>): int
  {
    if s == [] then 0 else SumCapacity(s[..|s| - 1]) + s[|s| - 1].capacity
  }

  /**
   * Net flow out of x: the sum of the flows on x's own list, which by skew
   * symmetry is the flow x sends out minus the flow it receives (the
   * negative of the textbook inflow-minus-outflow excess).
   */
  function Excess(adj: Adj, x: int): int
    requires 0 <= x < |adj|
  {
    SumFlow(adj[x])
  }

  /** Capacity of the edges leaving x. */
  function CapacityOut(adj: Adj, x: int): int
    requires 0 <= x < |adj|
  {
    SumCapacity(adj[x])
  }

  /** Changing one flow by d changes the sum by d. */
  lemma {:induction false} SumFlowUpdate(s: seq<FlowEdge>, j: int, d: int)
    requires 0 <= j < |s|
    ensures SumFlow(s[j := s[j].(flow := s[j].flow + d)]) == SumFlow(s) + d
  {
    var t := s[j := s[j].(flow := s[j].flow + d)];
    if j == |s| - 1 {
      assert t[..|t| - 1] == s[..|s| - 1];
    } else {
      assert t[..|t| - 1] == s[..|s| - 1][j := s[j].(flow := s[j].flow + d)];
      SumFlowUpdate(s[..|s| - 1], j, d);
    }
  }

  /** Net outflow never exceeds the capacity out of a vertex. */
  lemma {:induction false} SumFlowBound(s: seq<FlowEdge>)
    requires forall j :: 0 <= j < |s| ==> s[j].flow <= s[j].capacity
    ensures SumFlow(s) <= SumCapacity(s)
  {
    if s != [] {
      SumFlowBound(s[..|s| - 1]);
    }
  }

  lemma {:induction false} SumCapacityShape(s: seq<FlowEdge>, t: seq<FlowEdge>)
    requires |s| == |t| && forall j :: 0 <= j < |s| ==> s[j].capacity == t[j].capacity
    ensures SumCapacity(s) == SumCapacity(t)
  {
    if s != [] {
      SumCapacityShape(s[..|s| - 1], t[..|t| - 1]);
    }
  }

  lemma {:induction false} SumFlowZero(s: seq<FlowEdge>)
    requires forall j :: 0 <= j < |s| ==> s[j].flow == 0
    ensures SumFlow(s) == 0
  {
    if s != [] {
      SumFlowZero(s[..|s| - 1]);
    }
  }

  lemma ExcessAtMostCapacity(adj: Adj, x: int)
    requires WithinCapacity(adj) && 0 <= x < |adj|
    ensures Excess(adj, x) <= CapacityOut(adj, x)
  {
    SumFlowBound(adj[x]);
  }

  lemma CapacityOutShape(a: Adj, b: Adj, x: int)
    requires SameShape(a, b) && 0 <= x < |a|
    ensures CapacityOut(a, x) == CapacityOut(b, x)
  {
    SumCapacityShape(a[x], b[x]);
  }

  /** Capacity of the partner of e: the edge that carries flow back into e's tail. */
  function PartnerCapacity(adj: Adj, e: FlowEdge): int
  {
    if 0 <= e.v < |adj| && 0 <= e.rev < |adj[e.v]| then adj[e.v][e.rev].capacity else 0
  }

  function SumPartnerCapacity(adj: Adj, s: seq<FlowEdge>): int
  {
    if s == [] then 0 else SumPartnerCapacity(adj, s[..|s| - 1]) + PartnerCapacity(adj, s[|s| - 1])
  }

  /** Capacity of the edges entering x: the partners of the edges on x's list. */
  function CapacityIn(adj: Adj, x: int): int
    requires 0 <= x < |adj|
  {
    SumPartnerCapacity(adj, adj[x])
  }

  lemma {:induction false} SumFlowAtLeast(adj: Adj, s: seq<FlowEdge>)
    requires forall j :: 0 <= j < |s| ==> -PartnerCapacity(adj, s[j]) <= s[j].flow
    ensures -SumPartnerCapacity(adj, s) <= SumFlow(s)
  {
    if s != [] {
      SumFlowAtLeast(adj, s[..|s| - 1]);
    }
  }

  /**
   * In a consistent network the net outflow of x is at least minus the
   * capacity entering x: each edge of x's list carries minus its partner's
   * flow, and the partner carries at most its capacity.
   */
  lemma ExcessAtLeastMinusCapacityIn(adj: Adj, x: int)
    requires Consistent(adj) && 0 <= x < |adj|
    ensures -CapacityIn(adj, x) <= Excess(adj, x)
  {
    forall j | 0 <= j < |adj[x]| ensures -PartnerCapacity(adj, adj[x][j]) <= adj[x][j].flow {
      assert PairedAt(adj, x, j);
    }
    SumFlowAtLeast(adj, adj[x]);
  }

  lemma {:induction false} SumPartnerShape(a: Adj, b: Adj, s: seq<FlowEdge>, t: seq<FlowEdge>)
    requires SameShape(a, b) && |s| == |t|
    requires forall j :: 0 <= j < |s| ==> s[j].v == t[j].v && s[j].rev == t[j].rev
    ensures SumPartnerCapacity(a, s) == SumPartnerCapacity(b, t)
  {
    if s != [] {
      SumPartnerShape(a, b, s[..|s| - 1], t[..|t| - 1]);
    }
  }

  lemma CapacityInShape(a: Adj, b: Adj, x: int)
    requires SameShape(a, b) && 0 <= x < |a|
    ensures CapacityIn(a, x) == CapacityIn(b, x)
  {
    SumPartnerShape(a, b, a[x], b[x]);
  }

  // ---------------------------------------------------------------------------
  // Pushing flow
  // ---------------------------------------------------------------------------

  /** Raise the flow of edge r by d and lower its partner's flow by d. */
  function Push(adj: Adj, r: EdgeRef, d: int): (res: Adj)
    requires Paired(adj) && ValidRef(adj, r)
    ensures SameShape(adj, res) && Paired(res)
  {
    var e := adj[r.from][r.idx];
    assert PairedAt(adj, r.from, r.idx);
    var a1 := adj[r.from := adj[r.from][r.idx := e.(flow := e.flow + d)]];
    var res := a1[e.v := a1[e.v][e.rev := a1[e.v][e.rev].(flow := a1[e.v][e.rev].flow - d)]];
    ShapeKeepsPaired(adj, res);
    res
  }

  /** What one push does to any edge. */
  lemma PushAt(adj: Adj, r: EdgeRef, d: int, q: EdgeRef)
    requires Paired(adj) && ValidRef(adj, r) && ValidRef(adj, q)
    ensures ValidRef(Push(adj, r, d), q)
    ensures At(Push(adj, r, d), q).flow ==
      At(adj, q).flow + (if q == r then d else 0) - (if q == Pair(adj, r) then d else 0)
  {
    assert PairedAt(adj, r.from, r.idx);
  }

  /** A push of d > 0 units within the residual capacity keeps the network consistent. */
  lemma PushConsistent(adj: Adj, r: EdgeRef, d: int)
    requires Consistent(adj) && ValidRef(adj, r)
    requires 0 <= d <= Residual(At(adj, r))
    ensures Consistent(Push(adj, r, d))
  {
    var res: Adj := Push(adj, r, d);
    var pr := Pair(adj, r);
    PairInvolution(adj, r);
    forall x, j | 0 <= x < |res| && 0 <= j < |res[x]|
      ensures res[x][j].flow <= res[x][j].capacity
      ensures PairedAt(res, x, j) && res[x][j].flow + res[res[x][j].v][res[x][j].rev].flow == 0
    {
      var q := EdgeRef(x, j);
      assert PairedAt(adj, x, j);
      PushAt(adj, r, d, q);
      PairInvolution(adj, q);
      var pq := Pair(adj, q);
      PushAt(adj, r, d, pq);
      assert res[res[x][j].v][res[x][j].rev] == At(res, pq);
      if q == r {
      } else if q == pr {
        assert pq == r;
      } else {
        assert pq != r;
        assert pq != pr by {
          if pq == pr {
            PairInvolution(adj, pq);
          }
        }
      }
    }
  }

  /** Excess changes by +d at the tail and -d at the head of the pushed edge. */
  lemma PushExcess(adj: Adj, r: EdgeRef, d: int, x: int)
    requires Paired(adj) && ValidRef(adj, r) && 0 <= x < |adj|
    ensures Excess(Push(adj, r, d), x) ==
      Excess(adj, x) + (if x == r.from then d else 0) - (if x == At(adj, r).v then d else 0)
  {
    assert PairedAt(adj, r.from, r.idx);
    var e := adj[r.from][r.idx];
    var a1 := adj[r.from := adj[r.from][r.idx := e.(flow := e.flow + d)]];
    SumFlowUpdate(adj[r.from], r.idx, d);
    SumFlowUpdate(a1[e.v], e.rev, -d);
    assert a1[e.v][e.rev].(flow := a1[e.v][e.rev].flow - d) == a1[e.v][e.rev].(flow := a1[e.v][e.rev].flow + -d);
  }

  // ---------------------------------------------------------------------------
  // Paths and augmentation along a path
  // ---------------------------------------------------------------------------

  /** p is a walk from s to t: consecutive edges share endpoints. */
  ghost predicate IsPath(adj: Adj, p: seq<EdgeRef>, s: int, t: int)
  {
    (forall k :: 0 <= k < |p| ==> ValidRef(adj, p[k])) &&
    (p == [] ==> s == t) &&
    (p != [] ==> p[0].from == s && At(adj, p[|p| - 1]).v == t) &&
    (forall k :: 0 <= k < |p| - 1 ==> At(adj, p[k]).v == p[k + 1].from)
  }

  /** No edge occurs twice in p. */
  ghost predicate DistinctEdges(p: seq<EdgeRef>)
  {
    forall j, k :: 0 <= j < k < |p| ==> p[j] != p[k]
  }

  /** Every edge of p has residual capacity at least d. */
  ghost predicate CanCarry(adj: Adj, p: seq<EdgeRef>, d: int)
  {
    forall k :: 0 <= k < |p| ==> ValidRef(adj, p[k]) && d <= Residual(At(adj, p[k]))
  }

  /** Push d along every edge of p, the edge nearest the end of p first. */
  ghost function AugmentPath(adj: Adj, p: seq<EdgeRef>, d: int): (res: Adj)
    requires Paired(adj) && forall k :: 0 <= k < |p| ==> ValidRef(adj, p[k])
    ensures SameShape(adj, res) && Paired(res)
    decreases |p|
  {
    if p == [] then adj
    else
      assert forall k :: 0 <= k < |p[1..]| ==> p[1..][k] == p[k + 1];
      var rest := AugmentPath(adj, p[1..], d);
      assert ValidRef(adj, p[0]);
      assert |rest[p[0].from]| == |adj[p[0].from]|;
      Push(rest, p[0], d)
  }

  /** An edge ending where p starts extends p backwards. */
  lemma PrependPath(adj: Adj, r: EdgeRef, p: seq<EdgeRef>, v: int, t: int)
    requires ValidRef(adj, r) && At(adj, r).v == v && IsPath(adj, p, v, t)
    ensures IsPath(adj, [r] + p, r.from, t)
  {
    var p' := [r] + p;
    assert forall k :: 1 <= k < |p'| ==> p'[k] == p[k - 1];
    forall k | 0 <= k < |p'| - 1 ensures At(adj, p'[k]).v == p'[k + 1].from {
      if k > 0 {
        assert p'[k] == p[k - 1] && p'[k + 1] == p[k];
      }
    }
  }

  lemma PathShape(a: Adj, b: Adj, p: seq<EdgeRef>, s: int, t: int)
    requires SameShape(a, b) && IsPath(a, p, s, t)
    ensures IsPath(b, p, s, t)
  {
  }

  /** Augmenting along a path from s to t by d raises the net outflow of s by d and lowers that of t by d. */
  lemma {:induction false} AugmentExcess(adj: Adj, p: seq<EdgeRef>, s: int, t: int, d: int, x: int)
    requires Paired(adj) && IsPath(adj, p, s, t) && 0 <= x < |adj|
    ensures Excess(AugmentPath(adj, p, d), x) ==
      Excess(adj, x) + (if x == s then d else 0) - (if x == t then d else 0)
  {
    if p != [] {
      var w := At(adj, p[0]).v;
      assert IsPath(adj, p[1..], w, t);
      AugmentExcess(adj, p[1..], w, t, d, x);
      var rest := AugmentPath(adj, p[1..], d);
      PushExcess(rest, p[0], d, x);
    }
  }

  /** Augmenting with d >= 0 never raises the flow of an edge outside the path. */
  lemma {:induction false} AugmentOffPath(adj: Adj, p: seq<EdgeRef>, d: int, q: EdgeRef)
    requires Paired(adj) && (forall k :: 0 <= k < |p| ==> ValidRef(adj, p[k])) && ValidRef(adj, q)
    requires d >= 0 && q !in p
    ensures ValidRef(AugmentPath(adj, p, d), q)
    ensures At(AugmentPath(adj, p, d), q).flow <= At(adj, q).flow
  {
    if p != [] {
      AugmentOffPath(adj, p[1..], d, q);
      PushAt(AugmentPath(adj, p[1..], d), p[0], d, q);
    }
  }

  /**
   * What an augmentation does to any edge q: q gains d for every occurrence
   * of q on p and loses d for every occurrence of its partner on p.
   */
  lemma {:induction false} AugmentAt(adj: Adj, p: seq<EdgeRef>, d: int, q: EdgeRef)
    requires Paired(adj) && (forall k :: 0 <= k < |p| ==> ValidRef(adj, p[k])) && ValidRef(adj, q)
    ensures ValidRef(AugmentPath(adj, p, d), q)
    ensures At(AugmentPath(adj, p, d), q).flow ==
      At(adj, q).flow + d * multiset(p)[q] - d * multiset(p)[Pair(adj, q)]
  {
    if p != [] {
      var rest := AugmentPath(adj, p[1..], d);
      assert AugmentPath(adj, p, d) == Push(rest, p[0], d);
      AugmentAt(adj, p[1..], d, q);
      PushAt(rest, p[0], d, q);
      var pq := Pair(adj, q);
      CountCons(p, q);
      CountCons(p, pq);
      var a, b := multiset(p[1..])[q], multiset(p[1..])[pq];
      PairInvolution(adj, q);
      PairInvolution(adj, p[0]);
      assert Pair(rest, p[0]) == Pair(adj, p[0]);
      if p[0] == q {
        Scale(d, a);
      } else if p[0] == pq {
        assert q == Pair(adj, p[0]);
        Scale(d, b);
      } else {
        assert q != Pair(adj, p[0]);
      }
    }
  }

  /** The occurrences of x in a non-empty sequence: at its head and in its tail. */
  lemma CountCons(p: seq<EdgeRef>, x: EdgeRef)
    requires p != []
    ensures multiset(p)[x] == (if p[0] == x then 1 else 0) + multiset(p[1..])[x]
  {
    assert p == [p[0]] + p[1..];
  }

  lemma Scale(d: int, a: int)
    ensures d * (a + 1) == d * a + d
  {
  }

  /** An edge occurs once on a path of distinct edges if it occurs at all. */
  lemma {:induction false} DistinctOnce(p: seq<EdgeRef>, q: EdgeRef)
    requires DistinctEdges(p)
    ensures multiset(p)[q] == if q in p then 1 else 0
  {
    if p != [] {
      var r := p[1..];
      forall j, k | 0 <= j < k < |r| ensures r[j] != r[k] {
        assert r[j] == p[j + 1] && r[k] == p[k + 1];
      }
      DistinctOnce(r, q);
      CountCons(p, q);
      forall k | 0 <= k < |r| ensures r[k] != p[0] {
        assert r[k] == p[k + 1];
      }
      assert p == [p[0]] + r;
    }
  }

  /**
   * On a path whose every edge climbs one step of dist, no edge's partner is
   * on the path: the partner runs back down that step.  Breadth-first depths
   * and Dinic's levels are such a dist for the paths the solvers augment.
   */
  lemma ClimbingFrame(adj: Adj, dist: seq<int>, p: seq<EdgeRef>)
    requires Paired(adj) && |dist| == |adj|
    requires forall k :: 0 <= k < |p| ==>
      ValidRef(adj, p[k]) && 0 <= At(adj, p[k]).v < |adj| && dist[At(adj, p[k]).v] == dist[p[k].from] + 1
    ensures forall k :: 0 <= k < |p| ==> Pair(adj, p[k]) !in p
  {
    forall k | 0 <= k < |p| ensures Pair(adj, p[k]) !in p {
      assert PairedAt(adj, p[k].from, p[k].idx);
    }
  }

  /**
   * Along distinct edges none of which is the partner of another, an
   * augmentation by d raises the flow of every path edge by d, lowers the
   * flow of every partner of a path edge by d, and leaves every other edge's
   * flow unchanged.
   */
  lemma AugmentFrame(adj: Adj, p: seq<EdgeRef>, d: int, q: EdgeRef)
    requires Paired(adj) && (forall k :: 0 <= k < |p| ==> ValidRef(adj, p[k])) && ValidRef(adj, q)
    requires DistinctEdges(p) && forall k :: 0 <= k < |p| ==> Pair(adj, p[k]) !in p
    ensures ValidRef(AugmentPath(adj, p, d), q)
    ensures q in p ==> At(AugmentPath(adj, p, d), q).flow == At(adj, q).flow + d
    ensures Pair(adj, q) in p ==> At(AugmentPath(adj, p, d), q).flow == At(adj, q).flow - d
    ensures q !in p && Pair(adj, q) !in p ==> At(AugmentPath(adj, p, d), q).flow == At(adj, q).flow
  {
    AugmentAt(adj, p, d, q);
    DistinctOnce(p, q);
    DistinctOnce(p, Pair(adj, q));
    PairInvolution(adj, q);
    if q in p {
      var k :| 0 <= k < |p| && p[k] == q;
    }
    if Pair(adj, q) in p {
      var k :| 0 <= k < |p| && p[k] == Pair(adj, q);
    }
  }

  /** Augmenting along distinct edges that can all carry d keeps the network consistent. */
  lemma {:induction false} AugmentConsistent(adj: Adj, p: seq<EdgeRef>, d: int)
    requires Consistent(adj) && CanCarry(adj, p, d) && DistinctEdges(p) && d >= 0
    ensures Consistent(AugmentPath(adj, p, d))
  {
    if p != [] {
      assert CanCarry(adj, p[1..], d);
      AugmentConsistent(adj, p[1..], d);
      var rest := AugmentPath(adj, p[1..], d);
      assert p[0] !in p[1..] by {
        forall k | 0 <= k < |p[1..]| ensures p[1..][k] != p[0] {
          assert p[1..][k] == p[k + 1];
        }
      }
      AugmentOffPath(adj, p[1..], d, p[0]);
      PushConsistent(rest, p[0], d);
    }
  }

  /**
   * One augmentation along a path from s to t with distinct tails, by d >= 1
   * units it can carry: the network stays consistent with the same edges and
   * capacities, the net outflow of s rises by d, that of t falls by d, and no
   * other vertex's changes.
   */
  lemma AugmentRound(adj: Adj, p: seq<EdgeRef>, s: int, t: int, d: int)
    requires Consistent(adj) && 0 <= s < |adj| && 0 <= t < |adj|
    requires AugmentingPath(adj, p, s, t) && CanCarry(adj, p, d) && d >= 1
    requires forall j, k :: 0 <= j < k < |p| ==> p[j].from != p[k].from
    ensures var a := AugmentPath(adj, p, d);
      Consistent(a) && SameShape(adj, a) &&
      Excess(a, s) == Excess(adj, s) + d - (if s == t then d else 0) &&
      Excess(a, t) == Excess(adj, t) - d + (if s == t then d else 0) &&
      (forall x :: 0 <= x < |adj| && x != s && x != t ==> Excess(a, x) == Excess(adj, x)) &&
      CapacityOut(a, s) == CapacityOut(adj, s) && Excess(a, s) <= CapacityOut(a, s)
  {
    var a := AugmentPath(adj, p, d);
    assert DistinctEdges(p);
    AugmentConsistent(adj, p, d);
    forall x | 0 <= x < |adj| ensures Excess(a, x) == Excess(adj, x) + (if x == s then d else 0) - (if x == t then d else 0) {
      AugmentExcess(adj, p, s, t, d, x);
    }
    CapacityOutShape(adj, a, s);
    ExcessAtMostCapacity(a, s);
  }

  // ---------------------------------------------------------------------------
  // Flow moved by a run of augmentations
  // ---------------------------------------------------------------------------

  /**
   * adj is a consistent network with the edges and capacities of adj0 that
   * carries total more units from s to t: the net outflow of s is total higher,
   * that of t total lower, every other vertex is unchanged, and s is within its capacity.
   */
  ghost predicate Carries(adj0: Adj, adj: Adj, s: int, t: int, total: int)
  {
    Consistent(adj) && SameShape(adj0, adj) && 0 <= s < |adj0| && 0 <= t < |adj0| && total >= 0 &&
    Excess(adj, s) == Excess(adj0, s) + total && Excess(adj, t) == Excess(adj0, t) - total &&
    (forall x :: 0 <= x < |adj0| && x != s && x != t ==> Excess(adj, x) == Excess(adj0, x)) &&
    CapacityOut(adj, s) == CapacityOut(adj0, s) && Excess(adj, s) <= CapacityOut(adj, s)
  }

  lemma CarriesNothing(adj0: Adj, s: int, t: int)
    requires Consistent(adj0) && 0 <= s < |adj0| && 0 <= t < |adj0|
    ensures Carries(adj0, adj0, s, t, 0)
  {
    ExcessAtMostCapacity(adj0, s);
  }

  /** One more augmentation by d along a path from s to t with distinct tails. */
  lemma CarriesMore(adj0: Adj, adj: Adj, p: seq<EdgeRef>, s: int, t: int, total: int, d: int)
    requires Carries(adj0, adj, s, t, total) && s != t
    requires AugmentingPath(adj, p, s, t) && CanCarry(adj, p, d) && d >= 1
    requires forall j, k :: 0 <= j < k < |p| ==> p[j].from != p[k].from
    ensures Carries(adj0, AugmentPath(adj, p, d), s, t, total + d)
  {
    AugmentRound(adj, p, s, t, d);
    ShapeTransitive(adj0, adj, AugmentPath(adj, p, d));
  }

  /**
   * What a flow of `total` from s to t is bounded by: the residual capacity
   * left out of s, and the capacity of the edges into t plus t's net outflow
   * at the start.
   */
  lemma CarriesBounds(adj0: Adj, adj: Adj, s: int, t: int, total: int)
    requires Carries(adj0, adj, s, t, total)
    ensures total <= CapacityOut(adj, s) - Excess(adj0, s)
    ensures total <= CapacityIn(adj0, t) + Excess(adj0, t)
  {
    ExcessAtLeastMinusCapacityIn(adj, t);
    CapacityInShape(adj0, adj, t);
  }

  /** Two runs of augmentations in a row carry the sum of their amounts. */
  lemma CarriesCompose(adj0: Adj, adj1: Adj, adj2: Adj, s: int, t: int, a: int, b: int)
    requires Carries(adj0, adj1, s, t, a) && Carries(adj1, adj2, s, t, b)
    ensures Carries(adj0, adj2, s, t, a + b)
  {
    ShapeTransitive(adj0, adj1, adj2);
  }

  // ---------------------------------------------------------------------------
  // Augmenting paths and breadth-first search bookkeeping
  // ---------------------------------------------------------------------------

  /** A path from s to t all of whose edges have positive residual capacity. */
  ghost predicate AugmentingPath(adj: Adj, p: seq<EdgeRef>, s: int, t: int)
  {
    IsPath(adj, p, s, t) && forall k :: 0 <= k < |p| ==> Residual(At(adj, p[k])) > 0
  }

  ghost predicate NoAugmentingPath(adj: Adj, s: int, t: int)
  {
    forall p :: !AugmentingPath(adj, p, s, t)
  }

  /**
   * The reached vertices are closed under edges of positive residual capacity.
   * A vertex x counts as reached when mark[x] != -1: it has a parent in
   * Edmonds-Karp's search and a level in Dinic's.
   */
  ghost predicate Closed(adj: Adj, mark: seq<int>)
    requires |mark| == |adj| && Paired(adj)
  {
    forall x, j :: 0 <= x < |adj| && mark[x] != -1 && 0 <= j < |adj[x]| && Residual(adj[x][j]) > 0 ==>
      PairedAt(adj, x, j) && mark[adj[x][j].v] != -1
  }

  /** Every positive-residual edge among the first i out of x leads to a reached vertex. */
  ghost predicate ExpandedUpTo(adj: Adj, mark: seq<int>, x: int, i: int)
    requires |mark| == |adj| && 0 <= x < |adj|
  {
    forall j :: 0 <= j < i && j < |adj[x]| && Residual(adj[x][j]) > 0 ==>
      PairedAt(adj, x, j) && mark[adj[x][j].v] != -1
  }

  ghost predicate Expanded(adj: Adj, mark: seq<int>, x: int)
    requires |mark| == |adj| && 0 <= x < |adj|
  {
    ExpandedUpTo(adj, mark, x, |adj[x]|)
  }

  lemma ExtendExpanded(adj: Adj, mark: seq<int>, x: int, i: int)
    requires |mark| == |adj| && 0 <= x < |adj| && 0 <= i < |adj[x]| && PairedAt(adj, x, i)
    requires ExpandedUpTo(adj, mark, x, i)
    requires Residual(adj[x][i]) <= 0 || mark[adj[x][i].v] != -1
    ensures ExpandedUpTo(adj, mark, x, i + 1)
  {
  }

  /** Reaching one more vertex keeps every vertex expanded as far as it was. */
  lemma MarkKeepsExpanded(adj: Adj, mark: seq<int>, x: int, i: int, v: int, u: int)
    requires |mark| == |adj| && 0 <= x < |adj| && 0 <= v < |adj| && u >= 0
    requires ExpandedUpTo(adj, mark, x, i)
    ensures ExpandedUpTo(adj, mark[v := u], x, i)
  {
  }

  /** The bookkeeping of the search: queued and finished vertices are reached. */
  ghost predicate Frontier(adj: Adj, mark: seq<int>, q: seq<int>, done: set<int>)
    requires |mark| == |adj|
  {
    (forall i :: 0 <= i < |q| ==> 0 <= q[i] < |adj| && mark[q[i]] != -1) &&
    forall x :: x in done ==> 0 <= x < |adj| && mark[x] != -1 && Expanded(adj, mark, x)
  }

  /** Taking the head of the queue leaves a frontier, and the head is reached. */
  lemma FrontierPop(adj: Adj, mark: seq<int>, q: seq<int>, done: set<int>)
    requires |mark| == |adj| && Frontier(adj, mark, q, done) && q != []
    ensures 0 <= q[0] < |adj| && mark[q[0]] != -1 && Frontier(adj, mark, q[1..], done)
  {
    assert forall k :: 0 <= k < |q[1..]| ==> q[1..][k] == q[k + 1];
  }

  /** A reached vertex that has been expanded can join the finished ones. */
  lemma FrontierAdd(adj: Adj, mark: seq<int>, q: seq<int>, done: set<int>, u: int)
    requires |mark| == |adj| && Frontier(adj, mark, q, done)
    requires 0 <= u < |adj| && mark[u] != -1 && Expanded(adj, mark, u)
    ensures Frontier(adj, mark, q, done + {u})
  {
  }

  // ---------------------------------------------------------------------------
  // Breadth-first order
  // ---------------------------------------------------------------------------

  /** Every positive-residual edge among the first i out of x leads at most one step further than x. */
  ghost predicate TightUpTo(adj: Adj, dist: seq<int>, x: int, i: int)
    requires |dist| == |adj| && 0 <= x < |adj|
  {
    forall j :: 0 <= j < i && j < |adj[x]| && Residual(adj[x][j]) > 0 && 0 <= adj[x][j].v < |adj| ==>
      dist[adj[x][j].v] <= dist[x] + 1
  }

  /**
   * The order a breadth-first search keeps, with dist[x] the distance it
   * gave x: along the queue the distances never decrease and span at most
   * one step, no finished vertex lies further than a queued one, and every
   * positive-residual edge out of a finished vertex leads at most one step
   * further.
   */
  ghost predicate Layered(adj: Adj, dist: seq<int>, q: seq<int>, done: set<int>)
    requires |dist| == |adj|
  {
    (forall k :: 0 <= k < |q| ==> 0 <= q[k] < |adj|) &&
    (forall j, k :: 0 <= j <= k < |q| ==> dist[q[j]] <= dist[q[k]] <= dist[q[j]] + 1) &&
    (forall x :: x in done ==> 0 <= x < |adj| && TightUpTo(adj, dist, x, |adj[x]|)) &&
    (forall x, k :: x in done && 0 <= k < |q| ==> dist[x] <= dist[q[k]])
  }

  /**
   * The same order while u, taken from the head of the queue, has had its
   * first i edges scanned: the queue lies between u's distance and one step
   * further, in order, and the finished vertices lie no further than u.
   */
  ghost predicate ScanLayered(adj: Adj, dist: seq<int>, q: seq<int>, done: set<int>, u: int, i: int)
    requires |dist| == |adj|
  {
    0 <= u < |adj| &&
    (forall k :: 0 <= k < |q| ==> 0 <= q[k] < |adj| && dist[u] <= dist[q[k]] <= dist[u] + 1) &&
    (forall j, k :: 0 <= j <= k < |q| ==> dist[q[j]] <= dist[q[k]]) &&
    (forall x :: x in done ==> 0 <= x < |adj| && dist[x] <= dist[u] && TightUpTo(adj, dist, x, |adj[x]|)) &&
    TightUpTo(adj, dist, u, i)
  }

  /** Taking the head of the queue starts its scan. */
  lemma LayerPop(adj: Adj, dist: seq<int>, q: seq<int>, done: set<int>)
    requires |dist| == |adj| && Layered(adj, dist, q, done) && q != []
    ensures ScanLayered(adj, dist, q[1..], done, q[0], 0)
  {
    assert forall k :: 0 <= k < |q[1..]| ==> q[1..][k] == q[k + 1];
  }

  /** Giving the unreached head v of u's i-th edge the distance dist[u] + 1 and queueing it keeps the order. */
  lemma LayerLabel(adj: Adj, mark: seq<int>, dist: seq<int>, q: seq<int>, done: set<int>, u: int, i: int)
    requires |mark| == |adj| && |dist| == |adj| && Frontier(adj, mark, q, done)
    requires ScanLayered(adj, dist, q, done, u, i) && mark[u] != -1 && ExpandedUpTo(adj, mark, u, i)
    requires 0 <= i < |adj[u]| && 0 <= adj[u][i].v < |adj| && mark[adj[u][i].v] == -1
    ensures var v := adj[u][i].v;
      ScanLayered(adj, dist[v := dist[u] + 1], q + [v], done, u, i + 1)
  {
    var v := adj[u][i].v;
    var dist' := dist[v := dist[u] + 1];
    forall x | x in done ensures TightUpTo(adj, dist', x, |adj[x]|) {
      assert Expanded(adj, mark, x);
    }
  }

  /** Scanning an edge that reaches no new vertex keeps the order. */
  lemma LayerKeep(adj: Adj, mark: seq<int>, dist: seq<int>, q: seq<int>, done: set<int>, u: int, i: int)
    requires |mark| == |adj| && |dist| == |adj| && ScanLayered(adj, dist, q, done, u, i)
    requires 0 <= i < |adj[u]| && PairedAt(adj, u, i)
    requires Residual(adj[u][i]) <= 0 || mark[adj[u][i].v] != -1
    requires forall x :: 0 <= x < |adj| && mark[x] != -1 ==> x in done || x in q || x == u
    ensures ScanLayered(adj, dist, q, done, u, i + 1)
  {
    var v := adj[u][i].v;
    if Residual(adj[u][i]) > 0 && v !in done && v in q {
      var k :| 0 <= k < |q| && q[k] == v;
    }
  }

  /** A fully scanned u joins the finished vertices. */
  lemma LayerFinish(adj: Adj, dist: seq<int>, q: seq<int>, done: set<int>, u: int)
    requires |dist| == |adj| && 0 <= u < |adj| && ScanLayered(adj, dist, q, done, u, |adj[u]|)
    ensures Layered(adj, dist, q, done + {u})
  {
  }

  /**
   * In breadth-first order, an augmenting path from a finished vertex x to a
   * finished or queued vertex t is at least as long as the distance t lies
   * beyond x.
   */
  lemma {:induction false} LayeredPath(adj: Adj, mark: seq<int>, dist: seq<int>, q: seq<int>, done: set<int>,
                                       p: seq<EdgeRef>, x: int, t: int)
    requires Paired(adj) && |mark| == |adj| && |dist| == |adj|
    requires Frontier(adj, mark, q, done) && Layered(adj, dist, q, done)
    requires forall y :: 0 <= y < |adj| && mark[y] != -1 ==> y in done || y in q
    requires x in done && (t in done || t in q) && AugmentingPath(adj, p, x, t)
    ensures dist[t] <= dist[x] + |p|
    decreases |p|
  {
    if p != [] {
      var e := p[0];
      assert PairedAt(adj, e.from, e.idx);
      var w := At(adj, e).v;
      assert Expanded(adj, mark, x);
      assert dist[w] <= dist[x] + 1;
      assert AugmentingPath(adj, p[1..], w, t);
      if w in done {
        LayeredPath(adj, mark, dist, q, done, p[1..], w, t);
      } else {
        // w is queued: t lies at most one step beyond it, and t != w needs at least one more edge
        var j :| 0 <= j < |q| && q[j] == w;
        if t !in done && t != w {
          var k :| 0 <= k < |q| && q[k] == t;
          assert |p[1..]| > 0;
        }
      }
    }
  }

  /** No augmenting path leaves a closed set of reached vertices. */
  lemma {:induction false} ClosedKeepsPaths(adj: Adj, mark: seq<int>, p: seq<EdgeRef>, s: int, t: int)
    requires Paired(adj) && |mark| == |adj| && Closed(adj, mark)
    requires AugmentingPath(adj, p, s, t) && 0 <= s < |adj| && 0 <= t < |adj| && mark[s] != -1
    ensures mark[t] != -1
  {
    if p != [] {
      var e := p[0];
      assert PairedAt(adj, e.from, e.idx);
      var w := At(adj, e).v;
      assert AugmentingPath(adj, p[1..], w, t);
      ClosedKeepsPaths(adj, mark, p[1..], w, t);
    }
  }

  /** A finished search: with the queue empty and every reached vertex expanded, the reached set is closed. */
  lemma Exhausted(adj: Adj, mark: seq<int>, done: set<int>)
    requires Paired(adj) && |mark| == |adj| && Frontier(adj, mark, [], done)
    requires forall x :: 0 <= x < |adj| && mark[x] != -1 ==> x in done
    ensures Closed(adj, mark)
  {
    forall x, j | 0 <= x < |adj| && mark[x] != -1 && 0 <= j < |adj[x]| && Residual(adj[x][j]) > 0
      ensures PairedAt(adj, x, j) && mark[adj[x][j].v] != -1
    {
      assert Expanded(adj, mark, x);
    }
  }

  /** A closed set of reached vertices that misses t leaves no augmenting path from a reached s to t. */
  lemma ClosedNoPath(adj: Adj, mark: seq<int>, s: int, t: int)
    requires Paired(adj) && |mark| == |adj| && Closed(adj, mark)
    requires 0 <= s < |adj| && 0 <= t < |adj| && mark[s] != -1 && mark[t] == -1
    ensures NoAugmentingPath(adj, s, t)
  {
    forall p | AugmentingPath(adj, p, s, t) ensures false {
      ClosedKeepsPaths(adj, mark, p, s, t);
    }
  }

  // ---------------------------------------------------------------------------
  // Construction
  // ---------------------------------------------------------------------------

  /** Everything the network's edges carry is zero flow. */
  ghost predicate ZeroFlow(adj: Adj)
  {
    forall x, j :: 0 <= x < |adj| && 0 <= j < |adj[x]| ==> adj[x][j].flow == 0
  }

  /** Total number of residual edges. */
  function EdgeCount(adj: Adj): nat
  {
    if adj == [] then 0 else EdgeCount(adj[..|adj| - 1]) + |adj[|adj| - 1]|
  }

  lemma {:induction false} EdgeCountGrow(a: Adj, b: Adj, i: int)
    requires |a| == |b| && 0 <= i < |a| && |b[i]| == |a[i]| + 1
    requires forall x :: 0 <= x < |a| && x != i ==> |b[x]| == |a[x]|
    ensures EdgeCount(b) == EdgeCount(a) + 1
  {
    if i < |a| - 1 {
      EdgeCountGrow(a[..|a| - 1], b[..|b| - 1], i);
    } else {
      EdgeCountSame(a[..|a| - 1], b[..|b| - 1]);
    }
  }

  lemma {:induction false} EdgeCountSame(a: Adj, b: Adj)
    requires |a| == |b| && forall x :: 0 <= x < |a| ==> |b[x]| == |a[x]|
    ensures EdgeCount(b) == EdgeCount(a)
  {
    if a != [] {
      EdgeCountSame(a[..|a| - 1], b[..|b| - 1]);
    }
  }

  /** The lists after `addEdge(u, v, c, directed)`. */
  function WithEdge(adj: Adj, u: int, v: int, c: int, directed: bool): Adj
    requires 0 <= u < |adj| && 0 <= v < |adj| && u != v
  {
    var a := FlowEdge(u, v, c, 0, |adj[v]|);
    var b := FlowEdge(v, u, if directed then 0 else c, 0, |adj[u]|);
    adj[u := adj[u] + [a]][v := adj[v] + [b]]
  }

  /** The two new edges are each other's partners and every old pairing survives. */
  lemma WithEdgePaired(adj: Adj, u: int, v: int, c: int, directed: bool)
    requires 0 <= u < |adj| && 0 <= v < |adj| && u != v && Paired(adj)
    ensures var r := WithEdge(adj, u, v, c, directed);
      Paired(r) &&
      r[v][r[u][|adj[u]|].rev] == r[v][|adj[v]|] &&
      r[u][r[v][|adj[v]|].rev] == r[u][|adj[u]|]
  {
    var r: Adj := WithEdge(adj, u, v, c, directed);
    forall x, j | 0 <= x < |r| && 0 <= j < |r[x]|
      ensures PairedAt(r, x, j)
    {
      if j < |adj[x]| {
        assert PairedAt(adj, x, j);
        assert r[x][j] == adj[x][j];
      }
    }
  }

  /**
   * Adding an edge pair of non-negative capacity keeps the network consistent
   * and leaves every net outflow as it was.
   */
  lemma WithEdgeConsistent(adj: Adj, u: int, v: int, c: int, directed: bool)
    requires 0 <= u < |adj| && 0 <= v < |adj| && u != v && c >= 0
    requires Consistent(adj)
    ensures var r := WithEdge(adj, u, v, c, directed);
      Consistent(r) && forall x :: 0 <= x < |adj| ==> Excess(r, x) == Excess(adj, x)
  {
    var r: Adj := WithEdge(adj, u, v, c, directed);
    WithEdgePaired(adj, u, v, c, directed);
    forall x, j | 0 <= x < |r| && 0 <= j < |r[x]|
      ensures r[x][j].flow <= r[x][j].capacity
      ensures PairedAt(r, x, j) && r[x][j].flow + r[r[x][j].v][r[x][j].rev].flow == 0
    {
      if j < |adj[x]| {
        assert PairedAt(adj, x, j);
        assert r[x][j] == adj[x][j];
        assert r[adj[x][j].v][adj[x][j].rev] == adj[adj[x][j].v][adj[x][j].rev];
      }
    }
    forall x | 0 <= x < |adj|
      ensures Excess(r, x) == Excess(adj, x)
    {
      if x == u || x == v {
        assert r[x][..|r[x]| - 1] == adj[x];
      }
    }
  }

  lemma WithEdgeZero(adj: Adj, u: int, v: int, c: int, directed: bool)
    requires 0 <= u < |adj| && 0 <= v < |adj| && u != v && ZeroFlow(adj)
    ensures ZeroFlow(WithEdge(adj, u, v, c, directed))
  {
    var r: Adj := WithEdge(adj, u, v, c, directed);
    forall x, j | 0 <= x < |r| && 0 <= j < |r[x]| ensures r[x][j].flow == 0 {
      if j < |adj[x]| {
        assert r[x][j] == adj[x][j];
      }
    }
  }

  lemma WithEdgeCount(adj: Adj, u: int, v: int, c: int, directed: bool)
    requires 0 <= u < |adj| && 0 <= v < |adj| && u != v
    ensures EdgeCount(WithEdge(adj, u, v, c, directed)) == EdgeCount(adj) + 2
  {
    var r1 := adj[u := adj[u] + [FlowEdge(u, v, c, 0, |adj[v]|)]];
    EdgeCountGrow(adj, r1, u);
    EdgeCountGrow(r1, WithEdge(adj, u, v, c, directed), v);
  }

  /**
   * What addEdge needs of each edge: both endpoints index one of the n + 1
   * adjacency lists, and they differ (see FlowNetwork.AddEdge).
   */
  ghost predicate Pairable(n: int, es: seq<Edge>)
  {
    forall k :: 0 <= k < |es| ==> 0 <= es[k].u <= n && 0 <= es[k].v <= n && es[k].u != es[k].v
  }

  /** The lists after adding the edges of `es`, in order, to a network of n vertices. */
  function Built(n: nat, es: seq<Edge>, directed: bool): (r: Adj)
    requires Pairable(n, es)
    ensures |r| == n + 1
  {
    if es == [] then seq(n + 1, _ => [])
    else
      var e := es[|es| - 1];
      assert Pairable(n, es[..|es| - 1]);
      WithEdge(Built(n, es[..|es| - 1], directed), e.u, e.v, e.w, directed)
  }

  /**
   * A freshly built network is consistent, carries no flow, has zero net outflow
   * everywhere and holds two residual edges per input edge.
   */
  lemma {:induction false} BuiltConsistent(n: nat, es: seq<Edge>, directed: bool)
    requires Pairable(n, es) && NonNegativeWeights(es)
    ensures var r := Built(n, es, directed);
      Consistent(r) && ZeroFlow(r) && EdgeCount(r) == 2 * |es| &&
      forall x :: 0 <= x < |r| ==> Excess(r, x) == 0
  {
    var r := Built(n, es, directed);
    BuiltCount(n, es, directed);
    if es != [] {
      var e := es[|es| - 1];
      assert Pairable(n, es[..|es| - 1]);
      BuiltConsistent(n, es[..|es| - 1], directed);
      WithEdgeConsistent(Built(n, es[..|es| - 1], directed), e.u, e.v, e.w, directed);
      WithEdgeZero(Built(n, es[..|es| - 1], directed), e.u, e.v, e.w, directed);
    }
    forall x | 0 <= x < |r| ensures Excess(r, x) == 0 {
      SumFlowZero(r[x]);
    }
  }

  lemma {:induction false} EmptyEdgeCount(m: nat)
    ensures EdgeCount(seq(m, _ => [])) == 0
  {
    if m > 0 {
      var a: Adj := seq(m, _ => []);
      assert a[..m - 1] == seq(m - 1, _ => []);
      EmptyEdgeCount(m - 1);
    }
  }

  // ---------------------------------------------------------------------------
  // The network object
  // ---------------------------------------------------------------------------

  class FlowNetwork {
    var n: int
    var adj: Adj

    ghost predicate Valid()
      reads this
    {
      n >= 0 && |adj| == n + 1 && Consistent(adj)
    }

    /** n + 1 empty lists, for the vertices 0..n. */
    constructor (n: int)
      requires n >= 0
      ensures this.n == n && |adj| == n + 1
      ensures forall x :: 0 <= x < |adj| ==> adj[x] == []
      ensures adj == seq(n + 1, _ => [])
    {
      this.n := n;
      adj := seq(n + 1, _ => []);
    }

    /** Append the edge u->v to adj[u] and its partner v->u to adj[v]. */
    method AddEdge(u: int, v: int, capacity: int, isDirected: bool)
      requires 0 <= u < |adj| && 0 <= v < |adj| && u != v
      modifies this
      ensures n == old(n) && |adj| == |old(adj)|
      ensures adj[u] == old(adj[u]) + [FlowEdge(u, v, capacity, 0, |old(adj[v])|)]
      ensures adj[v] == old(adj[v]) + [FlowEdge(v, u, if isDirected then 0 else capacity, 0, |old(adj[u])|)]
      ensures forall x :: 0 <= x < |adj| && x != u && x != v ==> adj[x] == old(adj[x])
      ensures adj == WithEdge(old(adj), u, v, capacity, isDirected)
    {
      var a, b;
      if isDirected {
        a := FlowEdge(u, v, capacity, 0, |adj[v]|);
        b := FlowEdge(v, u, 0, 0, |adj[u]|);
      } else {
        a := FlowEdge(u, v, capacity, 0, |adj[v]|);
        b := FlowEdge(v, u, capacity, 0, |adj[u]|);
      }
      adj := adj[u := adj[u] + [a]];
      adj := adj[v := adj[v] + [b]];
    }
  }

  /** One fresh network per solver run: add the graph's edges in order. */
  method BuildFlowNetwork(graph: Graph) returns (network: FlowNetwork)
    requires graph.vertexCount >= 0 && Pairable(graph.vertexCount, graph.edges)
    ensures fresh(network) && network.n == graph.vertexCount
    ensures network.adj == Built(graph.vertexCount, graph.edges, graph.isDirected)
    ensures NonNegativeWeights(graph.edges) ==> network.Valid() && ZeroFlow(network.adj)
    ensures EdgeCount(network.adj) == 2 * |graph.edges|
  {
    var n := graph.vertexCount;
    network := new FlowNetwork(n);
    var k := 0;
    BuiltPrefix(n, graph.edges, 0, graph.isDirected);
    while k < |graph.edges|
      invariant 0 <= k <= |graph.edges|
      invariant network.n == n
      invariant network.adj == Built(n, graph.edges[..k], graph.isDirected)
    {
      var e := graph.edges[k];
      BuiltPrefix(n, graph.edges, k, graph.isDirected);
      network.AddEdge(e.u, e.v, e.w, graph.isDirected);
      assert network.adj == Built(n, graph.edges[..k + 1], graph.isDirected);
      k := k + 1;
    }
    assert graph.edges[..k] == graph.edges;
    if NonNegativeWeights(graph.edges) {
      BuiltConsistent(n, graph.edges, graph.isDirected);
    }
    BuiltCount(n, graph.edges, graph.isDirected);
  }

  /** Building from one more edge of the list adds that edge to the network built so far. */
  lemma BuiltPrefix(n: nat, es: seq<Edge>, k: int, directed: bool)
    requires Pairable(n, es) && 0 <= k <= |es|
    ensures Pairable(n, es[..k])
    ensures k < |es| ==> 0 <= es[k].u <= n && 0 <= es[k].v <= n && es[k].u != es[k].v && Pairable(n, es[..k + 1])
    ensures k < |es| ==> Built(n, es[..k + 1], directed) == WithEdge(Built(n, es[..k], directed), es[k].u, es[k].v, es[k].w, directed)
  {
    if k < |es| {
      assert es[..k + 1][..k] == es[..k];
    }
  }

  /** Two residual edges per input edge, whatever the weights. */
  lemma {:induction false} BuiltCount(n: nat, es: seq<Edge>, directed: bool)
    requires Pairable(n, es)
    ensures EdgeCount(Built(n, es, directed)) == 2 * |es|
  {
    if es == [] {
      EmptyEdgeCount(n + 1);
    } else {
      var e := es[|es| - 1];
      assert Pairable(n, es[..|es| - 1]);
      BuiltCount(n, es[..|es| - 1], directed);
      WithEdgeCount(Built(n, es[..|es| - 1], directed), e.u, e.v, e.w, directed);
    }
  }
}
