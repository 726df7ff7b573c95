/**
 * Dinic's max-flow (DinicAlgorithm.hpp).  Each phase labels the vertices with
 * their breadth-first level over edges of positive residual capacity, then
 * repeatedly pushes flow along level paths (every edge climbs one level) with
 * a depth-first search that remembers, per vertex, the first edge it has not
 * yet found useless.  Phases repeat until the sink gets no level.
 */
module DinicAlgorithm {
  import opened FlowNet
  import opened SeqUtil
  import Dijkstra

  // ---------------------------------------------------------------------------
  // The level graph
  // ---------------------------------------------------------------------------

  /** adj[x][j] climbs one level and has positive residual capacity. */
  ghost predicate Eligible(adj: Adj, level: seq<int>, x: int, j: int)
    requires |level| == |adj| && 0 <= x < |adj| && 0 <= j < |adj[x]|
  {
    0 <= adj[x][j].v < |adj| && level[adj[x][j].v] == level[x] + 1 && Residual(adj[x][j]) > 0
  }

  /** t can be reached from x by eligible edges. */
  ghost predicate Reaches(adj: Adj, level: seq<int>, x: int, t: int)
    requires |level| == |adj| && |adj| > 0 && 0 <= x < |adj|
    decreases MaxOf(level) - level[x]
  {
    x == t ||
    exists j :: 0 <= j < |adj[x]| && Eligible(adj, level, x, j) && Reaches(adj, level, adj[x][j].v, t)
  }

  /** p is a path from x to t whose k-th edge leaves level level[x] + k by an eligible edge. */
  ghost predicate LevelPath(adj: Adj, level: seq<int>, p: seq<EdgeRef>, x: int, t: int)
    requires |level| == |adj|
  {
    0 <= x < |adj| && IsPath(adj, p, x, t) &&
    forall k :: 0 <= k < |p| ==>
      (ValidRef(adj, p[k]) && Eligible(adj, level, p[k].from, p[k].idx) && level[p[k].from] == level[x] + k)
  }

  /** An edge the depth-first search may skip for good: it is not eligible or leads nowhere. */
  ghost predicate Blocked(adj: Adj, level: seq<int>, x: int, j: int, t: int)
    requires |level| == |adj| && 0 <= x < |adj| && 0 <= j < |adj[x]|
  {
    !Eligible(adj, level, x, j) || !Reaches(adj, level, adj[x][j].v, t)
  }

  /** Every edge before a vertex's pointer is blocked. */
  ghost predicate PointerInv(adj: Adj, level: seq<int>, start: seq<int>, t: int)
    requires |level| == |adj| && |start| == |adj|
  {
    forall x, j {:trigger Blocked(adj, level, x, j, t)} ::
      0 <= x < |adj| && 0 <= j < start[x] && j < |adj[x]| ==> Blocked(adj, level, x, j, t)
  }

  /** A level path has distinct tails and is an augmenting path. */
  lemma LevelPathAugmenting(adj: Adj, level: seq<int>, p: seq<EdgeRef>, x: int, t: int)
    requires |level| == |adj| && LevelPath(adj, level, p, x, t)
    ensures AugmentingPath(adj, p, x, t)
    ensures forall j, k :: 0 <= j < k < |p| ==> p[j].from != p[k].from
  {
  }

  /**
   * A level path is what FlowNet.AugmentFrame asks for: distinct edges, none
   * the partner of another, so augmenting along it changes exactly its edges
   * and their partners.
   */
  lemma LevelPathFrame(adj: Adj, level: seq<int>, p: seq<EdgeRef>, x: int, t: int)
    requires Paired(adj) && |level| == |adj| && LevelPath(adj, level, p, x, t)
    ensures DistinctEdges(p) && forall k :: 0 <= k < |p| ==> Pair(adj, p[k]) !in p
  {
    LevelPathAugmenting(adj, level, p, x, t);
    ClimbingFrame(adj, level, p);
  }

  /** An eligible edge into the start of a level path extends it backwards. */
  lemma ExtendLevelPath(adj: Adj, level: seq<int>, u: int, i: int, p: seq<EdgeRef>, t: int)
    requires |level| == |adj| && 0 <= u < |adj| && 0 <= i < |adj[u]| && Eligible(adj, level, u, i)
    requires LevelPath(adj, level, p, adj[u][i].v, t)
    ensures LevelPath(adj, level, [EdgeRef(u, i)] + p, u, t)
  {
    var r := EdgeRef(u, i);
    var p' := [r] + p;
    PrependPath(adj, r, p, adj[u][i].v, t);
    assert forall k :: 1 <= k < |p'| ==> p'[k] == p[k - 1];
  }

  /** Reachability is witnessed by a level path. */
  lemma {:induction false} ReachesPath(adj: Adj, level: seq<int>, x: int, t: int) returns (p: seq<EdgeRef>)
    requires |level| == |adj| && |adj| > 0 && 0 <= x < |adj| && Reaches(adj, level, x, t)
    ensures LevelPath(adj, level, p, x, t) && 0 <= t < |adj| && |p| == level[t] - level[x]
    decreases MaxOf(level) - level[x]
  {
    if x == t {
      p := [];
    } else {
      var j :| 0 <= j < |adj[x]| && Eligible(adj, level, x, j) && Reaches(adj, level, adj[x][j].v, t);
      var rest := ReachesPath(adj, level, adj[x][j].v, t);
      ExtendLevelPath(adj, level, x, j, rest, t);
      p := [EdgeRef(x, j)] + rest;
    }
  }

  /** Edge r ends one level above where it starts. */
  ghost predicate Climbs(adj: Adj, level: seq<int>, r: EdgeRef)
    requires |level| == |adj|
  {
    ValidRef(adj, r) && 0 <= At(adj, r).v < |adj| && level[At(adj, r).v] == level[r.from] + 1
  }

  /** Pushing along an edge that climbs a level creates no eligible edge. */
  lemma EligibleAfterPush(adj: Adj, level: seq<int>, r: EdgeRef, d: int, x: int, j: int)
    requires Paired(adj) && ValidRef(adj, r) && |level| == |adj| && d >= 0
    requires Climbs(adj, level, r)
    requires 0 <= x < |adj| && 0 <= j < |adj[x]|
    ensures Eligible(Push(adj, r, d), level, x, j) ==> Eligible(adj, level, x, j)
  {
    var q := EdgeRef(x, j);
    PushAt(adj, r, d, q);
    assert PairedAt(adj, r.from, r.idx);
  }

  /** Pushing along an edge that climbs a level creates no reachability. */
  lemma {:induction false} ReachesAfterPush(adj: Adj, level: seq<int>, r: EdgeRef, d: int, x: int, t: int)
    requires Paired(adj) && ValidRef(adj, r) && |level| == |adj| && d >= 0
    requires Climbs(adj, level, r)
    requires 0 <= x < |adj| && Reaches(Push(adj, r, d), level, x, t)
    ensures Reaches(adj, level, x, t)
    decreases MaxOf(level) - level[x]
  {
    var a := Push(adj, r, d);
    if x != t {
      var j :| 0 <= j < |a[x]| && Eligible(a, level, x, j) && Reaches(a, level, a[x][j].v, t);
      EligibleAfterPush(adj, level, r, d, x, j);
      ReachesAfterPush(adj, level, r, d, a[x][j].v, t);
      assert Eligible(adj, level, x, j) && Reaches(adj, level, adj[x][j].v, t);
    }
  }

  /** A push along an edge that climbs a level keeps every blocked edge blocked. */
  lemma PointerInvPush(adj: Adj, level: seq<int>, start: seq<int>, t: int, r: EdgeRef, d: int)
    requires Paired(adj) && ValidRef(adj, r) && |level| == |adj| && |start| == |adj| && d >= 0
    requires Climbs(adj, level, r)
    requires PointerInv(adj, level, start, t)
    ensures PointerInv(Push(adj, r, d), level, start, t)
  {
    var a := Push(adj, r, d);
    forall x, j | 0 <= x < |a| && 0 <= j < start[x] && j < |a[x]| ensures Blocked(a, level, x, j, t) {
      assert Blocked(adj, level, x, j, t);
      EligibleAfterPush(adj, level, r, d, x, j);
      if Eligible(a, level, x, j) && Reaches(a, level, a[x][j].v, t) {
        ReachesAfterPush(adj, level, r, d, a[x][j].v, t);
      }
    }
  }

  /** Advancing a pointer past a blocked edge keeps PointerInv. */
  lemma SkipEdge(adj: Adj, level: seq<int>, start: seq<int>, t: int, u: int)
    requires |level| == |adj| && |start| == |adj| && 0 <= u < |adj| && 0 <= start[u] < |adj[u]|
    requires PointerInv(adj, level, start, t) && Blocked(adj, level, u, start[u], t)
    ensures PointerInv(adj, level, start[u := start[u] + 1], t)
  {
  }

  /** With every edge out of x blocked, t (other than x) is not reachable from x. */
  lemma AllBlocked(adj: Adj, level: seq<int>, x: int, t: int)
    requires |level| == |adj| && |adj| > 0 && 0 <= x < |adj| && x != t
    requires forall j :: 0 <= j < |adj[x]| ==> Blocked(adj, level, x, j, t)
    ensures !Reaches(adj, level, x, t)
  {
    forall j | 0 <= j < |adj[x]| && Eligible(adj, level, x, j)
      ensures !Reaches(adj, level, adj[x][j].v, t)
    {
      assert Blocked(adj, level, x, j, t);
    }
  }

  /**
   * One successful step of the depth-first search: the push along adj[u][i]
   * after the recursive call has augmented along p completes an augmentation
   * along the longer level path, which keeps the network consistent and the
   * pointers' blocked edges blocked.
   */
  lemma PushStep(adj0: Adj, adj1: Adj, adj2: Adj, level: seq<int>, start: seq<int>,
                 u: int, i: int, p: seq<EdgeRef>, d: int, t: int)
    requires Consistent(adj0) && |level| == |adj0| && |start| == |adj0|
    requires 0 <= u < |adj0| && 0 <= i < |adj0[u]| && Eligible(adj0, level, u, i)
    requires 1 <= d <= Residual(adj0[u][i])
    requires LevelPath(adj0, level, p, adj0[u][i].v, t) && CanCarry(adj0, p, d)
    requires adj1 == AugmentPath(adj0, p, d) && PointerInv(adj1, level, start, t)
    requires adj2 == Push(adj1, EdgeRef(u, i), d)
    ensures var q := [EdgeRef(u, i)] + p;
      LevelPath(adj0, level, q, u, t) && CanCarry(adj0, q, d) && adj2 == AugmentPath(adj0, q, d)
    ensures Consistent(adj2) && SameShape(adj0, adj2) && PointerInv(adj2, level, start, t)
  {
    var r := EdgeRef(u, i);
    var q := [r] + p;
    ExtendLevelPath(adj0, level, u, i, p, t);
    LevelPathAugmenting(adj0, level, q, u, t);
    assert q[1..] == p;
    assert CanCarry(adj0, q, d);
    assert DistinctEdges(q);
    AugmentConsistent(adj0, q, d);
    PointerInvPush(adj1, level, start, t, r, d);
  }

  // ---------------------------------------------------------------------------
  // The breadth-first search's level tree
  // ---------------------------------------------------------------------------

  /**
   * Every labelled vertex other than s got its level from a labelled vertex one
   * level lower through the edge adj[pred[v]][predEdge[v]], which has positive
   * residual capacity and ends at v.  Unlabelled vertices carry level -1.
   */
  ghost predicate LevelTree(adj: Adj, level: seq<int>, pred: seq<int>, predEdge: seq<int>, s: int)
  {
    |level| == |adj| && |pred| == |adj| && |predEdge| == |adj| &&
    0 <= s < |adj| && level[s] == 0 &&
    (forall x :: 0 <= x < |adj| ==> level[x] >= -1) &&
    forall v {:trigger pred[v]} :: 0 <= v < |adj| && v != s && level[v] != -1 ==>
      0 <= pred[v] < |adj| && level[pred[v]] == level[v] - 1 && level[pred[v]] >= 0 &&
      0 <= predEdge[v] < |adj[pred[v]]| && adj[pred[v]][predEdge[v]].v == v &&
      Residual(adj[pred[v]][predEdge[v]]) > 0
  }

  /** Labelling a new vertex v from a labelled vertex u keeps the tree and the bookkeeping. */
  lemma Label(adj: Adj, level: seq<int>, pred: seq<int>, predEdge: seq<int>, s: int,
              q: seq<int>, done: set<int>, u: int, i: int)
    requires LevelTree(adj, level, pred, predEdge, s) && Frontier(adj, level, q, done)
    requires 0 <= u < |adj| && level[u] != -1 && 0 <= i < |adj[u]| && Paired(adj)
    requires PairedAt(adj, u, i) && level[adj[u][i].v] < 0 && Residual(adj[u][i]) > 0
    ensures var v := adj[u][i].v;
      var level' := level[v := level[u] + 1];
      LevelTree(adj, level', pred[v := u], predEdge[v := i], s) &&
      Frontier(adj, level', q + [v], done)
  {
    var v := adj[u][i].v;
    var level' := level[v := level[u] + 1];
    var pred', predEdge' := pred[v := u], predEdge[v := i];
    assert v != s && level'[s] == 0;
    assert forall x :: 0 <= x < |adj| ==> level'[x] >= -1;
    forall w {:trigger pred'[w]} | 0 <= w < |adj| && w != s && level'[w] != -1
      ensures 0 <= pred'[w] < |adj| && level'[pred'[w]] == level'[w] - 1 && level'[pred'[w]] >= 0
      ensures 0 <= predEdge'[w] < |adj[pred'[w]]| && adj[pred'[w]][predEdge'[w]].v == w
      ensures Residual(adj[pred'[w]][predEdge'[w]]) > 0
    {
      if w != v {
        assert pred'[w] == pred[w] && predEdge'[w] == predEdge[w] && pred[w] != v;
      } else {
        assert u != v && pred'[w] == u && predEdge'[w] == i && level'[u] == level[u];
      }
    }
    assert LevelTree(adj, level', pred', predEdge', s);
    forall x | x in done ensures Expanded(adj, level', x) {
      MarkKeepsExpanded(adj, level, x, |adj[x]|, v, level[u] + 1);
    }
  }

  /** Walking the level tree back from a labelled v that reaches t shows that s reaches t. */
  lemma {:induction false} TreeReaches(adj: Adj, level: seq<int>, pred: seq<int>, predEdge: seq<int>, s: int, v: int, t: int)
    requires LevelTree(adj, level, pred, predEdge, s) && 0 <= v < |adj| && level[v] >= 0
    requires Reaches(adj, level, v, t)
    ensures Reaches(adj, level, s, t)
    decreases level[v]
  {
    if v != s {
      var u, j := pred[v], predEdge[v];
      assert Eligible(adj, level, u, j) && Reaches(adj, level, adj[u][j].v, t);
      TreeReaches(adj, level, pred, predEdge, s, u, t);
    }
  }

  /**
   * The labelling loop of the breadth-first search: every vertex starts at
   * level -1, s at level 0, and vertices are taken from the queue in order and
   * scanned (see Scan) until the queue is empty.  The labelled vertices are
   * then closed under edges of positive residual capacity, each of them is
   * reachable from s in the level graph, and each level is the length of a
   * shortest augmenting path from s: no positive-residual edge climbs more
   * than one level, and no augmenting path from s to t is shorter than
   * level[t].
   */
  method Levels(adj: Adj, s: int) returns (level: seq<int>)
    requires Paired(adj) && 0 <= s < |adj|
    ensures |level| == |adj| && level[s] == 0
    ensures forall x :: 0 <= x < |adj| ==> level[x] >= -1
    ensures Closed(adj, level)
    ensures forall t {:trigger Reaches(adj, level, s, t)} :: 0 <= t < |adj| && level[t] >= 0 ==> Reaches(adj, level, s, t)
    ensures Shortest(adj, level, s)
  {
    level := seq(|adj|, _ => -1);
    level := level[s := 0];
    ghost var pred: seq<int> := seq(|adj|, _ => -1);
    ghost var predEdge: seq<int> := seq(|adj|, _ => -1);
    var q := [s];
    ghost var done: set<int> := {};
    LevelsStart(adj, level, pred, predEdge, s);
    while q != []
      invariant Labelling(adj, level, pred, predEdge, s, q, done)
      decreases CountNegative(level), |q|
    {
      var u := q[0];
      assert [u] + q[1..] == q;
      level, q, pred, predEdge := Scan(adj, level, q[1..], u, pred, predEdge, s, done);
      done := done + {u};
    }
    LevelsEnd(adj, level, pred, predEdge, s, done);
  }

  /**
   * The levels are breadth-first distances from s: no edge of positive
   * residual capacity out of a labelled vertex climbs more than one level
   * (Closed adds that its head is labelled), and no augmenting path from s
   * to t is shorter than level[t].
   */
  ghost predicate Shortest(adj: Adj, level: seq<int>, s: int)
    requires |level| == |adj|
  {
    (forall x :: 0 <= x < |adj| && level[x] >= 0 ==> TightUpTo(adj, level, x, |adj[x]|)) &&
    forall t :: 0 <= t < |adj| ==> NoShorterPath(adj, level, s, t)
  }

  /** No augmenting path from s to t has fewer than level[t] edges (and t has a level if one exists). */
  ghost predicate NoShorterPath(adj: Adj, level: seq<int>, s: int, t: int)
    requires |level| == |adj| && 0 <= t < |adj|
  {
    forall p {:trigger AugmentingPath(adj, p, s, t)} :: AugmentingPath(adj, p, s, t) ==> 0 <= level[t] <= |p|
  }

  /**
   * The state of the labelling loop: a level tree in breadth-first order
   * whose queue and finished vertices cover every labelled vertex.
   */
  ghost predicate Labelling(adj: Adj, level: seq<int>, pred: seq<int>, predEdge: seq<int>, s: int,
                            q: seq<int>, done: set<int>)
  {
    LevelTree(adj, level, pred, predEdge, s) && Frontier(adj, level, q, done) && Layered(adj, level, q, done) &&
    forall x :: 0 <= x < |adj| && level[x] != -1 ==> x in done || x in q
  }

  /** The labelling starts with s alone, at level 0, in the queue. */
  lemma LevelsStart(adj: Adj, level: seq<int>, pred: seq<int>, predEdge: seq<int>, s: int)
    requires 0 <= s < |adj| && |level| == |adj| && |pred| == |adj| && |predEdge| == |adj|
    requires forall x :: 0 <= x < |adj| ==> level[x] == if x == s then 0 else -1
    ensures Labelling(adj, level, pred, predEdge, s, [s], {})
  {
  }

  /** What the finished labelling gives: closure, reachability and levels as shortest distances. */
  lemma LevelsEnd(adj: Adj, level: seq<int>, pred: seq<int>, predEdge: seq<int>, s: int, done: set<int>)
    requires Paired(adj) && Labelling(adj, level, pred, predEdge, s, [], done)
    ensures Closed(adj, level)
    ensures forall t {:trigger Reaches(adj, level, s, t)} :: 0 <= t < |adj| && level[t] >= 0 ==> Reaches(adj, level, s, t)
    ensures Shortest(adj, level, s)
  {
    Exhausted(adj, level, done);
    TreeReachesAll(adj, level, pred, predEdge, s);
    forall x | 0 <= x < |adj| && level[x] >= 0 ensures TightUpTo(adj, level, x, |adj[x]|) {
      assert x in done;
    }
    forall t | 0 <= t < |adj| ensures NoShorterPath(adj, level, s, t) {
      forall p | AugmentingPath(adj, p, s, t) ensures 0 <= level[t] <= |p| {
        ClosedKeepsPaths(adj, level, p, s, t);
        LayeredPath(adj, level, level, [], done, p, s, t);
      }
    }
  }

  /**
   * One vertex u taken from the head of the queue: every edge of adj[u], in
   * order, whose head has no level yet and whose flow is below capacity gives
   * the head level[u] + 1 and appends it to the queue (see LabelEdge).
   * Afterwards u is finished: every positive-residual edge out of it leads to
   * a labelled vertex at most one level higher.
   */
  method Scan(adj: Adj, level0: seq<int>, q0: seq<int>, u: int,
              ghost pred0: seq<int>, ghost predEdge0: seq<int>, ghost s: int, ghost done: set<int>)
    returns (level: seq<int>, q: seq<int>, ghost pred: seq<int>, ghost predEdge: seq<int>)
    requires Paired(adj) && Labelling(adj, level0, pred0, predEdge0, s, [u] + q0, done)
    ensures Labelling(adj, level, pred, predEdge, s, q, done + {u})
    ensures level[u] != -1 && Expanded(adj, level, u)
    ensures CountNegative(level) + |q| == CountNegative(level0) + |q0|
    ensures CountNegative(level) <= CountNegative(level0)
  {
    level, q, pred, predEdge := level0, q0, pred0, predEdge0;
    LabelStart(adj, level0, pred0, predEdge0, s, q0, done, u);
    var i := 0;
    while i < |adj[u]|
      invariant LabelScan(adj, level0, q0, level, pred, predEdge, s, q, done, u, i)
    {
      level, pred, predEdge, q := LabelEdge(adj, level0, q0, level, pred, predEdge, s, q, done, u, i);
      i := i + 1;
    }
    LabelFinish(adj, level0, pred0, predEdge0, level, pred, predEdge, s, q0, q, done, u);
  }

  /**
   * Edge i of adj[u]: if its head has no level yet and its flow is below its
   * capacity, the head gets level[u] + 1 and joins the back of the queue;
   * otherwise nothing changes.
   */
  method LabelEdge(adj: Adj, ghost level0: seq<int>, ghost q0: seq<int>, level: seq<int>,
                   ghost pred: seq<int>, ghost predEdge: seq<int>, ghost s: int,
                   q: seq<int>, ghost done: set<int>, u: int, i: int)
    returns (level': seq<int>, ghost pred': seq<int>, ghost predEdge': seq<int>, q': seq<int>)
    requires LabelScan(adj, level0, q0, level, pred, predEdge, s, q, done, u, i) && i < |adj[u]|
    ensures LabelScan(adj, level0, q0, level', pred', predEdge', s, q', done, u, i + 1)
    ensures var v := adj[u][i].v;
      0 <= v < |level| &&
      if level[v] < 0 && adj[u][i].flow < adj[u][i].capacity
      then level' == level[v := level[u] + 1] && q' == q + [v]
      else level' == level && q' == q
  {
    var e := adj[u][i];
    assert PairedAt(adj, u, i);
    if level[e.v] < 0 && e.flow < e.capacity {
      LabelStep(adj, level0, q0, level, pred, predEdge, s, q, done, u, i);
      level', pred', predEdge', q' := level[e.v := level[u] + 1], pred[e.v := u], predEdge[e.v := i], q + [e.v];
    } else {
      LabelSkip(adj, level0, q0, level, pred, predEdge, s, q, done, u, i);
      level', pred', predEdge', q' := level, pred, predEdge, q;
    }
  }

  /**
   * The state of Scan after the first i edges of adj[u]: the level tree and
   * its breadth-first order are kept, every labelled vertex is finished,
   * queued or u, those i edges are expanded, and each newly labelled vertex
   * was appended to the queue.
   */
  ghost predicate LabelScan(adj: Adj, level0: seq<int>, q0: seq<int>, level: seq<int>, pred: seq<int>, predEdge: seq<int>,
                            s: int, q: seq<int>, done: set<int>, u: int, i: int)
  {
    Paired(adj) && 0 <= u < |adj| && 0 <= i <= |adj[u]| &&
    LevelTree(adj, level, pred, predEdge, s) && Frontier(adj, level, q, done) && level[u] != -1 &&
    (forall x :: 0 <= x < |adj| && level[x] != -1 ==> x in done || x in q || x == u) &&
    ExpandedUpTo(adj, level, u, i) && ScanLayered(adj, level, q, done, u, i) &&
    CountNegative(level) + |q| == CountNegative(level0) + |q0| && CountNegative(level) <= CountNegative(level0)
  }

  /** Taking u from the head of the queue starts its scan. */
  lemma LabelStart(adj: Adj, level0: seq<int>, pred0: seq<int>, predEdge0: seq<int>, s: int,
                   q0: seq<int>, done: set<int>, u: int)
    requires Paired(adj) && Labelling(adj, level0, pred0, predEdge0, s, [u] + q0, done)
    ensures 0 <= u < |adj| && LabelScan(adj, level0, q0, level0, pred0, predEdge0, s, q0, done, u, 0)
  {
    var q := [u] + q0;
    assert q[0] == u && q[1..] == q0;
    LayerPop(adj, level0, q, done);
    FrontierPop(adj, level0, q, done);
    forall x | 0 <= x < |adj| && level0[x] != -1 ensures x in done || x in q0 || x == u {
      if x !in done {
        assert x in q;
      }
    }
  }

  /** Scanning edge i of adj[u] when its head has no level and it has positive residual. */
  lemma LabelStep(adj: Adj, level0: seq<int>, q0: seq<int>, level: seq<int>, pred: seq<int>, predEdge: seq<int>,
                  s: int, q: seq<int>, done: set<int>, u: int, i: int)
    requires LabelScan(adj, level0, q0, level, pred, predEdge, s, q, done, u, i) && i < |adj[u]|
    requires 0 <= adj[u][i].v < |adj| && level[adj[u][i].v] < 0 && Residual(adj[u][i]) > 0
    ensures var v := adj[u][i].v;
      LabelScan(adj, level0, q0, level[v := level[u] + 1], pred[v := u], predEdge[v := i], s, q + [v], done, u, i + 1)
  {
    var v := adj[u][i].v;
    assert PairedAt(adj, u, i);
    LayerLabel(adj, level, level, q, done, u, i);
    CountNegativeMark(level, v, level[u] + 1);
    MarkKeepsExpanded(adj, level, u, i, v, level[u] + 1);
    Label(adj, level, pred, predEdge, s, q, done, u, i);
    ExtendExpanded(adj, level[v := level[u] + 1], u, i);
  }

  /** Scanning edge i of adj[u] when its head already has a level or it has no residual. */
  lemma LabelSkip(adj: Adj, level0: seq<int>, q0: seq<int>, level: seq<int>, pred: seq<int>, predEdge: seq<int>,
                  s: int, q: seq<int>, done: set<int>, u: int, i: int)
    requires LabelScan(adj, level0, q0, level, pred, predEdge, s, q, done, u, i) && i < |adj[u]|
    requires 0 <= adj[u][i].v < |adj| && (level[adj[u][i].v] >= 0 || Residual(adj[u][i]) <= 0)
    ensures LabelScan(adj, level0, q0, level, pred, predEdge, s, q, done, u, i + 1)
  {
    assert PairedAt(adj, u, i);
    LayerKeep(adj, level, level, q, done, u, i);
    ExtendExpanded(adj, level, u, i);
  }

  /** With all of adj[u] scanned, u joins the finished vertices. */
  lemma LabelFinish(adj: Adj, level0: seq<int>, pred0: seq<int>, predEdge0: seq<int>,
                    level: seq<int>, pred: seq<int>, predEdge: seq<int>, s: int,
                    q0: seq<int>, q: seq<int>, done: set<int>, u: int)
    requires Paired(adj) && Labelling(adj, level0, pred0, predEdge0, s, [u] + q0, done)
    requires 0 <= u < |adj| && LabelScan(adj, level0, q0, level, pred, predEdge, s, q, done, u, |adj[u]|)
    ensures Labelling(adj, level, pred, predEdge, s, q, done + {u}) && Expanded(adj, level, u)
  {
    FrontierAdd(adj, level, q, done, u);
    LayerFinish(adj, level, q, done, u);
  }

  /** Every labelled vertex is reachable from s in the level graph. */
  lemma TreeReachesAll(adj: Adj, level: seq<int>, pred: seq<int>, predEdge: seq<int>, s: int)
    requires LevelTree(adj, level, pred, predEdge, s)
    ensures forall t {:trigger Reaches(adj, level, s, t)} :: 0 <= t < |adj| && level[t] >= 0 ==> Reaches(adj, level, s, t)
  {
    forall t | 0 <= t < |adj| && level[t] >= 0 ensures Reaches(adj, level, s, t) {
      TreeReaches(adj, level, pred, predEdge, s, t, t);
    }
  }

  /**
   * The depth-first search of one phase, on the residual network adj, the
   * levels and the per-vertex pointers start.  It delivers nothing when flow
   * is 0 and all of flow when u is t; otherwise it scans adj[u] (see Advance).
   *
   * The result is an augmentation along a level path that can carry it, the
   * skipped edges are blocked (PointerInv), only pointers of u and of higher
   * levels move, and nothing delivered means t is not reachable from u.
   */
  method Augment(adj0: Adj, level: seq<int>, start0: seq<int>, u: int, t: int, flow: int)
    returns (pushed: int, adj: Adj, start: seq<int>, ghost path: seq<EdgeRef>)
    requires Consistent(adj0) && |level| == |adj0| && |start0| == |adj0|
    requires forall x {:trigger start0[x]} :: 0 <= x < |adj0| ==> 0 <= start0[x] <= |adj0[x]|
    requires 0 <= u < |adj0| && 0 <= t < |adj0| && flow >= 0
    requires PointerInv(adj0, level, start0, t)
    ensures Consistent(adj) && SameShape(adj0, adj) && |start| == |adj0|
    ensures forall x {:trigger start[x]} :: 0 <= x < |adj0| ==> start0[x] <= start[x] <= |adj0[x]|
    ensures PointerInv(adj, level, start, t)
    ensures forall x {:trigger start[x]} :: 0 <= x < |adj0| && x != u && level[x] <= level[u] ==> start[x] == start0[x]
    ensures 0 <= pushed <= flow
    ensures pushed == 0 ==> adj == adj0
    ensures pushed == 0 && flow > 0 ==> !Reaches(adj, level, u, t)
    ensures pushed > 0 ==>
      LevelPath(adj0, level, path, u, t) && CanCarry(adj0, path, pushed) && adj == AugmentPath(adj0, path, pushed)
    ensures u == t ==> pushed == flow
    decreases MaxOf(level) - level[u], 2
  {
    if flow == 0 {
      return 0, adj0, start0, [];
    }
    if u == t {
      return flow, adj0, start0, [];
    }
    pushed, adj, start, path := Advance(adj0, level, start0, u, t, flow);
  }

  /**
   * The pointer loop of the depth-first search at u != t with flow > 0: the
   * edges of adj[u] are tried from start[u] on.  An edge that climbs a level
   * and has flow below capacity is followed with the smaller of flow and its
   * residual capacity; if the search from its head delivers some amount, that
   * amount is pushed along the edge and returned, and start[u] stays on the
   * edge.  Every other edge is skipped for good by advancing start[u].
   */
  method Advance(adj0: Adj, level: seq<int>, start0: seq<int>, u: int, t: int, flow: int)
    returns (pushed: int, adj: Adj, start: seq<int>, ghost path: seq<EdgeRef>)
    requires Consistent(adj0) && |level| == |adj0| && |start0| == |adj0|
    requires forall x {:trigger start0[x]} :: 0 <= x < |adj0| ==> 0 <= start0[x] <= |adj0[x]|
    requires 0 <= u < |adj0| && 0 <= t < |adj0| && flow > 0 && u != t
    requires PointerInv(adj0, level, start0, t)
    ensures Consistent(adj) && SameShape(adj0, adj) && |start| == |adj0|
    ensures forall x {:trigger start[x]} :: 0 <= x < |adj0| ==> start0[x] <= start[x] <= |adj0[x]|
    ensures PointerInv(adj, level, start, t)
    ensures forall x {:trigger start[x]} :: 0 <= x < |adj0| && x != u && level[x] <= level[u] ==> start[x] == start0[x]
    ensures 0 <= pushed <= flow
    ensures pushed == 0 ==> adj == adj0
    ensures pushed == 0 && flow > 0 ==> !Reaches(adj, level, u, t)
    ensures pushed > 0 ==>
      LevelPath(adj0, level, path, u, t) && CanCarry(adj0, path, pushed) && adj == AugmentPath(adj0, path, pushed)
    decreases MaxOf(level) - level[u], 1
  {
    start := start0;
    while start[u] < |adj0[u]|
      invariant |start| == |adj0|
      invariant forall x {:trigger start[x]} :: 0 <= x < |adj0| ==> start0[x] <= start[x] <= |adj0[x]|
      invariant PointerInv(adj0, level, start, t)
      invariant forall x {:trigger start[x]} :: 0 <= x < |adj0| && x != u && level[x] <= level[u] ==> start[x] == start0[x]
      decreases |adj0[u]| - start[u]
    {
      var i := start[u];
      var e := adj0[u][i];
      assert PairedAt(adj0, u, i);
      if level[e.v] == level[u] + 1 && e.flow < e.capacity {
        var tempFlow, adj1, start1, p := Follow(adj0, level, start, u, i, t, flow);
        start := start1;
        if tempFlow > 0 {
          return tempFlow, adj1, start, p;
        }
      }
      assert Blocked(adj0, level, u, i, t);
      SkipEdge(adj0, level, start, t, u);
      start := start[u := start[u] + 1];
    }
    AllBlocked(adj0, level, u, t);
    return 0, adj0, start, [];
  }

  /**
   * Following the eligible edge adj[u][i]: search from its head with the
   * smaller of flow and the edge's residual capacity, and if some amount
   * arrives, push it along the edge too.  Nothing arriving means the head does
   * not reach t, so the edge is blocked.
   */
  method Follow(adj0: Adj, level: seq<int>, start0: seq<int>, u: int, i: int, t: int, flow: int)
    returns (pushed: int, adj: Adj, start: seq<int>, ghost path: seq<EdgeRef>)
    requires Consistent(adj0) && |level| == |adj0| && |start0| == |adj0|
    requires forall x {:trigger start0[x]} :: 0 <= x < |adj0| ==> 0 <= start0[x] <= |adj0[x]|
    requires 0 <= u < |adj0| && 0 <= i < |adj0[u]| && Eligible(adj0, level, u, i)
    requires 0 <= t < |adj0| && flow > 0
    requires PointerInv(adj0, level, start0, t)
    ensures Consistent(adj) && SameShape(adj0, adj) && |start| == |adj0|
    ensures forall x {:trigger start[x]} :: 0 <= x < |adj0| ==> start0[x] <= start[x] <= |adj0[x]|
    ensures PointerInv(adj, level, start, t)
    ensures forall x {:trigger start[x]} :: 0 <= x < |adj0| && level[x] <= level[u] ==> start[x] == start0[x]
    ensures 0 <= pushed <= flow
    ensures pushed == 0 ==> adj == adj0 && Blocked(adj0, level, u, i, t)
    ensures pushed > 0 ==>
      LevelPath(adj0, level, path, u, t) && CanCarry(adj0, path, pushed) && adj == AugmentPath(adj0, path, pushed)
    decreases MaxOf(level) - level[u], 0
  {
    var e := adj0[u][i];
    var currFlow := Min(flow, e.capacity - e.flow);
    var tempFlow, adj1;
    ghost var p;
    tempFlow, adj1, start, p := Augment(adj0, level, start0, e.v, t, currFlow);
    if tempFlow > 0 {
      adj := Push(adj1, EdgeRef(u, i), tempFlow);
      path := [EdgeRef(u, i)] + p;
      PushStep(adj0, adj1, adj, level, start, u, i, p, tempFlow, t);
      pushed := tempFlow;
    } else {
      pushed, adj, path := 0, adj0, [];
    }
  }

  // ---------------------------------------------------------------------------
  // The solver object
  // ---------------------------------------------------------------------------

  class Dinic {
    const network: FlowNetwork
    const n: int
    var level: seq<int>
    var start: seq<int>

    ghost predicate Inv()
      reads this, network
    {
      network.Valid() && n == network.n && |level| == n + 1 && |start| == n + 1 &&
      forall x :: 0 <= x <= n ==> 0 <= start[x] <= |network.adj[x]|
    }

    /** Binds the solver to a network; level and start get one zero entry per vertex 0..n. */
    constructor (network: FlowNetwork)
      requires network.Valid()
      ensures this.network == network && n == network.n && Inv()
      ensures level == seq(n + 1, _ => 0) && start == seq(n + 1, _ => 0)
    {
      this.network := network;
      n := network.n;
      level := seq(network.n + 1, _ => 0);
      start := seq(network.n + 1, _ => 0);
    }

    /**
     * Breadth-first labelling from s (see Levels).  Vertices the search does
     * not reach keep level -1, and the labelled ones are closed under edges of
     * positive residual capacity; every labelled vertex is reachable from s in
     * the level graph, and its level is a shortest residual distance.  The sink
     * gets a level exactly when an augmenting path exists.
     */
    method Bfs(s: int, t: int) returns (reached: bool)
      requires Inv() && 0 <= s <= n && 0 <= t <= n
      modifies this`level
      ensures Inv() && level[s] == 0
      ensures forall x :: 0 <= x <= n ==> level[x] >= -1
      ensures reached == (level[t] >= 0)
      ensures reached ==> Reaches(network.adj, level, s, t)
      ensures reached <==> !NoAugmentingPath(network.adj, s, t)
      ensures Closed(network.adj, level)
      ensures forall x {:trigger Reaches(network.adj, level, s, x)} ::
        0 <= x <= n && level[x] >= 0 ==> Reaches(network.adj, level, s, x)
      ensures Shortest(network.adj, level, s)
    {
      level := Levels(network.adj, s);
      reached := level[t] >= 0;
      if reached {
        var p := ReachesPath(network.adj, level, s, t);
        LevelPathAugmenting(network.adj, level, p, s, t);
      } else {
        ClosedNoPath(network.adj, level, s, t);
      }
    }

    /**
     * Depth-first search from u for a level path to t that can carry up to
     * `flow` units (see Augment), on this solver's network and pointers.
     */
    method Dfs(u: int, t: int, flow: int) returns (pushed: int, ghost path: seq<EdgeRef>)
      requires Inv() && 0 <= u <= n && 0 <= t <= n && flow >= 0
      requires PointerInv(network.adj, level, start, t)
      modifies this`start, network
      ensures Inv() && PointerInv(network.adj, level, start, t)
      ensures forall x :: 0 <= x <= n ==> old(start)[x] <= start[x]
      ensures 0 <= pushed <= flow
      ensures u == t ==> pushed == flow
      ensures pushed == 0 ==> network.adj == old(network.adj)
      ensures pushed == 0 && flow > 0 ==> !Reaches(network.adj, level, u, t)
      ensures pushed > 0 ==>
        LevelPath(old(network.adj), level, path, u, t) && CanCarry(old(network.adj), path, pushed) &&
        network.adj == AugmentPath(old(network.adj), path, pushed)
    {
      var adj, st;
      pushed, adj, st, path := Augment(network.adj, level, start, u, t, flow);
      network.adj := adj;
      start := st;
    }

    /**
     * One phase after a successful Bfs: reset every pointer to the first edge,
     * then search from s with INF until a search delivers nothing.  The phase
     * delivers at least one unit, and all of it goes from s to t.
     */
    method BlockingFlow(s: int, t: int) returns (pushed: int)
      requires Inv() && 0 <= s <= n && 0 <= t <= n && s != t
      requires Reaches(network.adj, level, s, t)
      modifies this`start, network
      ensures Inv() && pushed >= 1
      ensures Carries(old(network.adj), network.adj, s, t, pushed)
    {
      ghost var adj1 := network.adj;
      start := seq(n + 1, _ => 0);
      pushed := 0;
      CarriesNothing(adj1, s, t);
      while true
        invariant Inv() && Carries(adj1, network.adj, s, t, pushed)
        invariant PointerInv(network.adj, level, start, t)
        invariant pushed > 0 || Reaches(network.adj, level, s, t)
        decreases CapacityOut(network.adj, s) - Excess(network.adj, s)
      {
        ghost var before := network.adj;
        var flow, p := Dfs(s, t, Dijkstra.INF);
        if flow == 0 {
          break;
        }
        LevelPathAugmenting(before, level, p, s, t);
        CarriesMore(adj1, before, p, s, t, pushed, flow);
        pushed := pushed + flow;
      }
    }

    /**
     * The solver: phases of Bfs and BlockingFlow while the sink gets a level.
     * Every augmentation keeps the network consistent and moves its amount of
     * flow from the source to the sink; every phase delivers at least one
     * unit, so the loop ends, and it ends exactly when no augmenting path is
     * left.
     */
    method MaxFlow(s: int, t: int) returns (total: int)
      requires Inv() && 0 <= s <= n && 0 <= t <= n && s != t
      modifies this, network
      ensures Inv() && SameShape(old(network.adj), network.adj)
      ensures total >= 0
      ensures Excess(network.adj, s) == old(Excess(network.adj, s)) + total
      ensures Excess(network.adj, t) == old(Excess(network.adj, t)) - total
      ensures forall x :: 0 <= x <= n && x != s && x != t ==> Excess(network.adj, x) == old(Excess(network.adj, x))
      ensures total <= CapacityOut(network.adj, s) - old(Excess(network.adj, s))
      ensures total <= CapacityIn(old(network.adj), t) + old(Excess(network.adj, t))
      ensures NoAugmentingPath(network.adj, s, t)
      ensures NoAugmentingPath(old(network.adj), s, t) ==> total == 0
    {
      ghost var adj0 := network.adj;
      total := 0;
      CarriesNothing(adj0, s, t);
      while true
        invariant Inv() && Carries(adj0, network.adj, s, t, total)
        invariant total == 0 ==> network.adj == adj0
        invariant NoAugmentingPath(adj0, s, t) ==> total == 0
        decreases CapacityOut(network.adj, s) - Excess(network.adj, s)
      {
        var reached := Bfs(s, t);
        if !reached {
          break;
        }
        ghost var before := network.adj;
        var flow := BlockingFlow(s, t);
        CarriesCompose(adj0, before, network.adj, s, t, total, flow);
        total := total + flow;
      }
      CarriesBounds(adj0, network.adj, s, t, total);
    }
  }
}
