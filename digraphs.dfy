/**
 * The algs4 `Digraph` the week-6 searches run on, as adjacency lists:
 * `G[v]` lists the heads of the edges leaving `v`, in the order `adj(v)`
 * returns them. Walks, reachability and acyclicity are stated over it, and
 * the breadth-first searches share the shape of the search tree they build.
 */
module Digraphs {
  /** Vertex `v`'s adjacency list is `G[v]`; the vertices are `0 .. |G| - 1`. */
  type Digraph = seq<seq<nat>>

  /** What the algs4 class guarantees: every edge ends at a vertex of the graph. */
  predicate WellFormed(G: Digraph) {
    forall v, k :: 0 <= v < |G| && 0 <= k < |G[v]| ==> G[v][k] < |G|
  }

  /** An edge from `u` to `v`. */
  predicate Edge(G: Digraph, u: int, v: int) {
    0 <= u < |G| && v in G[u]
  }

  /** `p` is a walk: a non-empty sequence of vertices, each joined to the next by an edge. */
  predicate Walk(G: Digraph, p: seq<int>) {
    |p| >= 1 && forall i :: 0 <= i < |p| - 1 ==> Edge(G, p[i], p[i + 1])
  }

  /** No walk of one edge or more comes back to where it started. */
  ghost predicate Acyclic(G: Digraph) {
    forall p :: Walk(G, p) && |p| >= 2 ==> p[0] != p[|p| - 1]
  }

  /** A walk from one of `starts` to `v` that takes `steps` edges. */
  predicate WalkFrom(G: Digraph, starts: seq<int>, p: seq<int>, v: int, steps: nat) {
    Walk(G, p) && p[0] in starts && p[|p| - 1] == v && |p| == steps + 1
  }

  /** A walk followed by an edge out of its last vertex is a walk. */
  lemma WalkSnoc(G: Digraph, p: seq<int>, v: int)
    requires Walk(G, p) && Edge(G, p[|p| - 1], v)
    ensures Walk(G, p + [v])
  {
    var q := p + [v];
    forall i | 0 <= i < |q| - 1
      ensures Edge(G, q[i], q[i + 1])
    {
      if i < |p| - 1 {
        assert q[i] == p[i] && q[i + 1] == p[i + 1];
      }
    }
  }

  /** An edge followed by a walk from its head is a walk. */
  lemma WalkCons(G: Digraph, u: int, p: seq<int>)
    requires Walk(G, p) && Edge(G, u, p[0])
    ensures Walk(G, [u] + p)
  {
    var q := [u] + p;
    forall i | 0 <= i < |q| - 1
      ensures Edge(G, q[i], q[i + 1])
    {
      if i > 0 {
        assert q[i] == p[i - 1] && q[i + 1] == p[i];
      }
    }
  }

  /** Every vertex on a walk of a well-formed graph with at least one edge is a vertex of the graph. */
  lemma WalkInRange(G: Digraph, p: seq<int>, i: int)
    requires WellFormed(G) && Walk(G, p) && |p| >= 2 && 0 <= i < |p|
    ensures 0 <= p[i] < |G|
  {
    if i == |p| - 1 {
      assert Edge(G, p[i - 1], p[i]);
      var k :| 0 <= k < |G[p[i - 1]]| && G[p[i - 1]][k] == p[i];
    } else {
      assert Edge(G, p[i], p[i + 1]);
    }
  }

  /**
   * Pigeonhole: more than `n` values below `n` hold a repeat. The two
   * positions of one are returned.
   */
  lemma {:induction false} Pigeonhole(s: seq<int>, n: nat) returns (i: nat, j: nat)
    requires |s| > n && forall k :: 0 <= k < |s| ==> 0 <= s[k] < n
    ensures i < j < |s| && s[i] == s[j]
    decreases n
  {
    assert s[0] < n;
    if exists a, b :: 0 <= a < b < |s| && s[a] == n - 1 && s[b] == n - 1 {
      i, j :| 0 <= i < j < |s| && s[i] == n - 1 && s[j] == n - 1;
      return;
    }
    // At most one position holds n - 1: drop it (or the last entry) and repeat below n - 1.
    var t: seq<int>;
    ghost var back: nat -> nat;
    if k :| 0 <= k < |s| && s[k] == n - 1 {
      t := s[..k] + s[k + 1..];
      back := x => if x < k then x else x + 1;
      forall x | 0 <= x < |t|
        ensures t[x] == s[back(x)] && back(x) < |s| && t[x] < n - 1
      {
        assert t[x] == s[back(x)];
        assert back(x) != k;
      }
    } else {
      t := s[..|s| - 1];
      back := x => x;
    }
    var a, b := Pigeonhole(t, n - 1);
    assert t[a] == s[back(a)] && t[b] == s[back(b)];
    i, j := back(a), back(b);
  }

  /** A walk longer than the graph has vertices revisits one of them, so the graph has a cycle. */
  lemma LongWalkCyclic(G: Digraph, p: seq<int>)
    requires WellFormed(G) && Walk(G, p) && |p| >= 2 && |p| > |G|
    ensures !Acyclic(G)
  {
    forall k | 0 <= k < |p|
      ensures 0 <= p[k] < |G|
    {
      WalkInRange(G, p, k);
    }
    var i, j := Pigeonhole(p, |G|);
    var c := p[i..j + 1];
    assert Walk(G, c) by {
      forall x | 0 <= x < |c| - 1
        ensures Edge(G, c[x], c[x + 1])
      {
        assert c[x] == p[i + x] && c[x + 1] == p[i + x + 1];
      }
    }
    assert c[0] == c[|c| - 1];
  }

  /**
   * The breadth-first search tree one side of a search has built: every
   * vertex it has seen has a recorded depth; a vertex it discovered has its
   * discoverer in `path`, one edge back and one level up; a vertex without
   * a discoverer is one of the start vertices, at depth 0.
   */
  ghost predicate Tree(G: Digraph, starts: seq<int>, seen: set<int>, path: map<int, int>, depth: map<int, nat>) {
    seen == depth.Keys
    && path.Keys <= seen
    && (forall v :: v in path ==> path[v] in seen && Edge(G, path[v], v) && depth[v] == depth[path[v]] + 1)
    && (forall v :: v in seen && v !in path ==> v in starts && depth[v] == 0)
  }

  /** Every vertex of a search tree is reached from a start vertex in exactly its depth's number of edges. */
  lemma {:induction false} TreeWalk(G: Digraph, starts: seq<int>, seen: set<int>, path: map<int, int>, depth: map<int, nat>, v: int)
    returns (p: seq<int>)
    requires Tree(G, starts, seen, path, depth) && v in seen
    ensures WalkFrom(G, starts, p, v, depth[v])
    decreases depth[v]
  {
    if v !in path {
      p := [v];
    } else {
      var u := path[v];
      var q := TreeWalk(G, starts, seen, path, depth, u);
      WalkSnoc(G, q, v);
      p := q + [v];
    }
  }

  /** `s` holds no value twice. */
  predicate Distinct(s: seq<int>) {
    forall i, j :: 0 <= i < j < |s| ==> s[i] != s[j]
  }
}
