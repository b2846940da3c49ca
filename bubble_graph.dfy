/**
 * The bubble field as a value: an arena of bubbles numbered 0 .. N-1, each with a colour,
 * a list of neighbour indices (its `mEdges`) and a depth mark (its `mDepth`, -1 meaning
 * "unvisited"). This module holds the graph notions the booster's flood fill is judged
 * against: walks, reachability through an admissible set of bubbles, and closure.
 */
module BubbleGraph {

  /** A bubble colour; `Blank` is the empty-cell sentinel that never matches. */
  datatype Color = Blank | Tint(id: nat)

  /** The mark a bubble carries while no traversal has reached it. */
  const Unvisited: int := -1

  /** No index occurs twice in `s`. */
  ghost predicate NoDup(s: seq<int>)
  {
    forall i, j :: 0 <= i < j < |s| ==> s[i] != s[j]
  }

  /** Every index in `s` names a bubble of an arena of `n` bubbles. */
  ghost predicate InArena(s: seq<int>, n: int)
  {
    forall k :: 0 <= k < |s| ==> 0 <= s[k] < n
  }

  /** Every edge list names bubbles of the arena. */
  ghost predicate EdgesInArena(edges: seq<seq<int>>)
  {
    forall v, w :: 0 <= v < |edges| && w in edges[v] ==> 0 <= w < |edges|
  }

  /**
   * `p` is a walk along `edges` whose every bubble after the first belongs to `allowed`.
   * The first bubble is exempt: a traversal starts from its root whatever the root is.
   */
  ghost predicate IsWalk(edges: seq<seq<int>>, allowed: set<int>, p: seq<int>)
  {
    && |p| >= 1
    && InArena(p, |edges|)
    && (forall k :: 1 <= k < |p| ==> p[k] in edges[p[k - 1]])
    && (forall k :: 1 <= k < |p| ==> p[k] in allowed)
  }

  /** Some walk through `allowed` leads from `root` to `x`. */
  ghost predicate Reaches(edges: seq<seq<int>>, allowed: set<int>, root: int, x: int)
  {
    exists p :: IsWalk(edges, allowed, p) && p[0] == root && p[|p| - 1] == x
  }

  /** The bubbles of colour `c`: the ones a flood fill of colour `c` may step onto. */
  ghost function ColorSet(color: seq<Color>, c: Color): set<int>
  {
    set v | 0 <= v < |color| && color[v] == c
  }

  /**
   * The bubbles a flood fill of colour `c` may still enqueue when the marks are `depth`:
   * colour `c` and mark still `Unvisited`.
   */
  ghost function Admit(color: seq<Color>, depth: seq<int>, c: Color): set<int>
    requires |depth| == |color|
  {
    set v | 0 <= v < |color| && color[v] == c && depth[v] == Unvisited
  }

  /** `s` is closed under stepping along an edge onto an allowed bubble. */
  ghost predicate Closed(edges: seq<seq<int>>, allowed: set<int>, s: set<int>)
  {
    forall v, w :: v in s && 0 <= v < |edges| && w in edges[v] && w in allowed ==> w in s
  }

  /** The root reaches itself by the one-bubble walk. */
  lemma ReachesSelf(edges: seq<seq<int>>, allowed: set<int>, root: int)
    requires 0 <= root < |edges|
    ensures Reaches(edges, allowed, root, root)
  {
    assert IsWalk(edges, allowed, [root]);
  }

  /** A walk to `x` extends by one edge onto an allowed neighbour of `x`. */
  lemma ReachesStep(edges: seq<seq<int>>, allowed: set<int>, root: int, x: int, y: int)
    requires EdgesInArena(edges)
    requires Reaches(edges, allowed, root, x)
    requires 0 <= x < |edges| && y in edges[x] && y in allowed
    ensures Reaches(edges, allowed, root, y)
  {
    var p :| IsWalk(edges, allowed, p) && p[0] == root && p[|p| - 1] == x;
    var q := p + [y];
    assert q[|q| - 1] == y && q[|q| - 2] == x;
    assert IsWalk(edges, allowed, q);
  }

  /** Shrinking the admissible set can only lose walks. */
  lemma ReachesMono(edges: seq<seq<int>>, small: set<int>, large: set<int>, root: int, x: int)
    requires small <= large
    requires Reaches(edges, small, root, x)
    ensures Reaches(edges, large, root, x)
  {
    var p :| IsWalk(edges, small, p) && p[0] == root && p[|p| - 1] == x;
    assert IsWalk(edges, large, p);
  }

  /**
   * A walk that comes back to its root can be cut after its last visit to the root, so the
   * root itself never needs to be admissible.
   */
  lemma {:induction false} ReachesAvoidingRoot(edges: seq<seq<int>>, allowed: set<int>, root: int, x: int)
    requires Reaches(edges, allowed, root, x)
    ensures Reaches(edges, allowed - {root}, root, x)
  {
    var p :| IsWalk(edges, allowed, p) && p[0] == root && p[|p| - 1] == x;
    WalkAvoidingRoot(edges, allowed, p);
  }

  lemma {:induction false} WalkAvoidingRoot(edges: seq<seq<int>>, allowed: set<int>, p: seq<int>)
    requires IsWalk(edges, allowed, p)
    ensures Reaches(edges, allowed - {p[0]}, p[0], p[|p| - 1])
    decreases |p|
  {
    if i :| 1 <= i < |p| && p[i] == p[0] {
      var q := p[i..];
      assert IsWalk(edges, allowed, q);
      WalkAvoidingRoot(edges, allowed, q);
    } else {
      assert IsWalk(edges, allowed - {p[0]}, p);
    }
  }

  /** When no neighbour of the root is admissible, the root is all a walk can reach. */
  lemma IsolatedRoot(edges: seq<seq<int>>, allowed: set<int>, root: int, x: int)
    requires 0 <= root < |edges|
    requires forall w :: w in edges[root] ==> w !in allowed
    requires Reaches(edges, allowed, root, x)
    ensures x == root
  {
    ClosedReach(edges, allowed, {root}, root, x);
  }

  /** A set that holds the first bubble of a walk and is closed under its steps holds the whole walk. */
  lemma {:induction false} ClosedWalk(edges: seq<seq<int>>, allowed: set<int>, s: set<int>, p: seq<int>)
    requires IsWalk(edges, allowed, p) && p[0] in s
    requires Closed(edges, allowed, s)
    ensures p[|p| - 1] in s
    decreases |p|
  {
    if |p| > 1 {
      var q := p[..|p| - 1];
      assert IsWalk(edges, allowed, q);
      ClosedWalk(edges, allowed, s, q);
      assert p[|p| - 1] in edges[q[|q| - 1]];
    }
  }

  /** Everything reachable from a member of a closed set is in the set. */
  lemma ClosedReach(edges: seq<seq<int>>, allowed: set<int>, s: set<int>, root: int, x: int)
    requires root in s && Closed(edges, allowed, s)
    requires Reaches(edges, allowed, root, x)
    ensures x in s
  {
    var p :| IsWalk(edges, allowed, p) && p[0] == root && p[|p| - 1] == x;
    ClosedWalk(edges, allowed, s, p);
  }

  /**
   * A discovery order `order` with parent pointers `parent` (each later bubble is a neighbour
   * of an earlier one and is admissible) reaches every listed bubble from the first.
   */
  lemma {:induction false} TreeReaches(edges: seq<seq<int>>, allowed: set<int>, order: seq<int>, parent: seq<int>, k: int)
    requires EdgesInArena(edges)
    requires |order| == |parent| && 0 <= k < |order|
    requires InArena(order, |edges|)
    requires forall j :: 1 <= j < |order| ==>
      0 <= parent[j] < j && order[j] in edges[order[parent[j]]] && order[j] in allowed
    ensures Reaches(edges, allowed, order[0], order[k])
    decreases k
  {
    if k == 0 {
      ReachesSelf(edges, allowed, order[0]);
    } else {
      TreeReaches(edges, allowed, order, parent, parent[k]);
      ReachesStep(edges, allowed, order[0], order[parent[k]], order[k]);
    }
  }

  /** Pigeonhole: a duplicate-free list of arena indices is no longer than the arena. */
  lemma {:induction false} DistinctBound(s: seq<int>, n: nat)
    requires NoDup(s) && InArena(s, n)
    ensures |s| <= n
    decreases n
  {
    if s != [] {
      assert 0 <= s[0] < n;
      if i :| 0 <= i < |s| && s[i] == n - 1 {
        var rest := s[..i] + s[i + 1..];
        assert |rest| == |s| - 1;
        assert forall k :: 0 <= k < |rest| ==> rest[k] == (if k < i then s[k] else s[k + 1]);
        assert InArena(rest, n - 1) && NoDup(rest);
        DistinctBound(rest, n - 1);
      } else {
        assert InArena(s, n - 1);
        DistinctBound(s, n - 1);
      }
    }
  }
}
