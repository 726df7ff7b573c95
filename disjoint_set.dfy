/**
 * The disjoint-set forest of KruskalAlgorithm.hpp: a parent vector over the
 * elements 0..n, `find` with path compression and `unionSets`, which links
 * the root of b's tree under the root of a's.  The partition is described
 * by the ghost field `repr` (the root each element reaches); the ghost
 * field `rank` orders every tree so that parents outrank their children,
 * which is what makes `find` terminate.
 */
module DisjointSets {

  /** Each element whose representative is b's is moved to a's class. */
  function Merge(lab: seq<int>, a: int, b: int): (r: seq<int>)
    requires 0 <= a < |lab| && 0 <= b < |lab|
    ensures |r| == |lab|
    ensures forall y :: 0 <= y < |lab| ==> r[y] == if lab[y] == lab[b] then lab[a] else lab[y]
  {
    seq(|lab|, y requires 0 <= y < |lab| => if lab[y] == lab[b] then lab[a] else lab[y])
  }

  /** The labels a fresh forest over 0..n starts with: every element alone. */
  function Singletons(n: int): (lab: seq<int>)
    requires n >= 0
    ensures |lab| == n + 1 && forall x :: 0 <= x <= n ==> lab[x] == x
  {
    seq(n + 1, x => x)
  }

  /** Element x's links: its parent and root are elements, its root is a root, and its parent outranks it. */
  ghost predicate Node(parent: seq<int>, repr: seq<int>, rank: seq<int>, top: int, x: int)
    requires 0 <= x < |parent| && |repr| == |parent| && |rank| == |parent|
  {
    0 <= parent[x] < |parent| && 0 <= repr[x] < |parent| &&
    parent[repr[x]] == repr[x] && repr[parent[x]] == repr[x] &&
    (parent[x] == x ==> repr[x] == x) &&
    rank[x] <= top && (parent[x] != x ==> rank[x] < rank[parent[x]] && rank[x] < rank[repr[x]])
  }

  /** A parent vector whose trees reach the roots `repr` names, ranked by `rank`. */
  ghost predicate Ranked(parent: seq<int>, repr: seq<int>, rank: seq<int>, top: int)
  {
    |repr| == |parent| && |rank| == |parent| &&
    (forall x :: 0 <= x < |repr| ==> 0 <= repr[x] < |parent|) &&
    forall x :: 0 <= x < |parent| ==> Node(parent, repr, rank, top, x)
  }

  /** Repointing x at its root keeps the trees ranked and every element's root. */
  lemma Compress(parent: seq<int>, repr: seq<int>, rank: seq<int>, top: int, x: int)
    requires Ranked(parent, repr, rank, top) && 0 <= x < |parent|
    ensures Ranked(parent[x := repr[x]], repr, rank, top)
  {
    var p' := parent[x := repr[x]];
    assert Node(parent, repr, rank, top, x);
    assert Node(parent, repr, rank, top, repr[x]);
    forall y | 0 <= y < |parent| ensures Node(p', repr, rank, top, y) {
      assert Node(parent, repr, rank, top, y);
      assert Node(parent, repr, rank, top, repr[y]);
    }
  }

  /** Linking root rb under root ra moves rb's class into ra's and keeps the trees ranked. */
  lemma Link(parent: seq<int>, repr: seq<int>, rank: seq<int>, top: int, a: int, b: int, rank': seq<int>, top': int)
    requires Ranked(parent, repr, rank, top) && 0 <= a < |parent| && 0 <= b < |parent| && repr[a] != repr[b]
    requires rank' == rank[repr[a] := if rank[repr[a]] > rank[repr[b]] then rank[repr[a]] else rank[repr[b]] + 1]
    requires top' == if top > rank'[repr[a]] then top else rank'[repr[a]]
    ensures Ranked(parent[repr[b] := repr[a]], Merge(repr, a, b), rank', top')
  {
    var ra, rb := repr[a], repr[b];
    var p', repr' := parent[rb := ra], Merge(repr, a, b);
    assert Node(parent, repr, rank, top, a) && Node(parent, repr, rank, top, b);
    assert Node(parent, repr, rank, top, ra) && Node(parent, repr, rank, top, rb);
    forall y | 0 <= y < |parent| ensures Node(p', repr', rank', top', y) {
      assert Node(parent, repr, rank, top, y);
      assert Node(parent, repr, rank, top, parent[y]);
    }
  }

  class DisjointSet {
    var parent: array<int>
    /** The root each element reaches by following `parent`. */
    ghost var repr: seq<int>
    /** A ranking that rises strictly from every element to its parent, bounded by `top`. */
    ghost var rank: seq<int>
    ghost var top: int

    ghost predicate Valid()
      reads this, parent
    {
      Ranked(parent[..], repr, rank, top)
    }

    /** DisjointSet(n) (KruskalAlgorithm.hpp:8-12): every element 0..n is its own parent, so each is alone in its class. */
    constructor (n: int)
      requires n >= 0
      ensures Valid() && fresh(parent) && parent.Length == n + 1
      ensures forall x :: 0 <= x <= n ==> parent[x] == x
      ensures repr == Singletons(n)
    {
      parent := new int[n + 1];
      repr := Singletons(n);
      rank := seq(n + 1, _ => 0);
      top := 0;
      new;
      var i := 0;
      while i <= n
        invariant 0 <= i <= n + 1
        invariant forall x :: 0 <= x < i ==> parent[x] == x
        modifies parent
      {
        parent[i] := i;
        i := i + 1;
      }
      assert forall x :: 0 <= x < parent.Length ==> Node(parent[..], repr, rank, top, x);
    }

    /**
     * find(x) (KruskalAlgorithm.hpp:14-19): the root of x's tree.  Path
     * compression only repoints elements at their own root, so no element
     * changes class.
     */
    method Find(x: int) returns (r: int)
      requires Valid() && 0 <= x < parent.Length
      modifies parent
      ensures Valid()
      ensures r == repr[x] && parent[r] == r
      ensures forall y :: 0 <= y < parent.Length ==> parent[y] == old(parent[y]) || parent[y] == repr[y]
      decreases top - rank[x]
    {
      assert Node(parent[..], repr, rank, top, x);
      if parent[x] != x {
        var root := Find(parent[x]);
        Compress(parent[..], repr, rank, top, x);
        parent[x] := root;
      }
      r := parent[x];
      assert Node(parent[..], repr, rank, top, x);
    }

    /**
     * unionSets(a, b) (KruskalAlgorithm.hpp:21-29): false when a and b are
     * already in one class, which then stays as it was; otherwise b's root
     * is linked under a's and b's class joins a's.
     */
    method UnionSets(a: int, b: int) returns (merged: bool)
      requires Valid() && 0 <= a < parent.Length && 0 <= b < parent.Length
      modifies this, parent
      ensures Valid() && parent == old(parent)
      ensures merged <==> old(repr[a]) != old(repr[b])
      ensures !merged ==> repr == old(repr)
      ensures merged ==> repr == Merge(old(repr), a, b) && parent[old(repr[b])] == old(repr[a])
    {
      var ra := Find(a);
      var rb := Find(b);
      if ra == rb {
        return false;
      }
      var rank' := rank[ra := if rank[ra] > rank[rb] then rank[ra] else rank[rb] + 1];
      var top' := if top > rank'[ra] then top else rank'[ra];
      Link(parent[..], repr, rank, top, a, b, rank', top');
      parent[rb] := ra;
      rank, top := rank', top';
      repr := Merge(repr, a, b);
      merged := true;
    }
  }
}
