/**
 * The search of `SAP`'s nested `MultiBFS` (SAP.java:112-156), as a
 * function: side A starts from the vertex list `A`, side B from `B`; while
 * either queue is non-empty, A expands a level and then B does, and the
 * first vertex one side discovers that the other has seen is the ancestor.
 * The start lists are not compared with each other, so a vertex both start
 * from is never reported (see `IsolatedSelfSearch`).
 */
module SapSearches {
  import opened Common
  import opened Digraphs
  import opened SearchLevels

  /** Where a search stopped: both sides, and the ancestor found (-1 when none). */
  datatype Meeting = Meeting(a: Side, b: Side, ancestor: int)

  /** The vertices of the graph a side has not seen. */
  function Unseen(G: Digraph, seen: set<int>): set<int> {
    set v | 0 <= v < |G| && v !in seen
  }

  /**
   * A level that meets nothing either discovers a vertex of the graph, so
   * fewer are unseen, or discovers none and empties the queue; the side
   * keeps every discoverer among its seen vertices.
   */
  lemma LevelProgress(G: Digraph, s: Side, other: set<int>)
    requires WellFormed(G) && s.path.Keys <= s.seen && Level(G, s, other).Through?
    ensures var t := Level(G, s, other).s;
      t.path.Keys <= t.seen && s.seen <= t.seen
      && (Unseen(G, t.seen) < Unseen(G, s.seen) || (Unseen(G, t.seen) == Unseen(G, s.seen) && t.q == []))
  {
    var t := Level(G, s, other).s;
    var added := ExpandGrows(G, |s.q|, s, other);
    assert Unseen(G, t.seen) <= Unseen(G, s.seen);
    if added == [] {
      assert t.seen == s.seen;
    } else {
      var w := added[0];
      assert w in t.seen && w !in s.seen;
      assert w in Unseen(G, s.seen) && w !in Unseen(G, t.seen);
    }
  }

  /** A level that meets the other side has discovered the met vertex, so fewer vertices are unseen. */
  lemma MetProgress(G: Digraph, s: Side, other: set<int>)
    requires WellFormed(G) && s.path.Keys <= s.seen && Level(G, s, other).Met?
    ensures var t := Level(G, s, other).s;
      t.path.Keys <= t.seen && Unseen(G, t.seen) < Unseen(G, s.seen) && 0 <= Level(G, s, other).v < |G|
  {
    var r := Level(G, s, other);
    assert r.v in Unseen(G, s.seen) && r.v !in Unseen(G, r.s.seen);
  }

  /**
   * The `while` loop of `bfs`. A meeting on either side clears both queues
   * and records the ancestor, which ends the loop; `adj` throwing ends the
   * search with IllegalArgumentException.
   */
  function SapLoop(G: Digraph, a: Side, b: Side): Result<Meeting>
    requires WellFormed(G) && a.path.Keys <= a.seen && b.path.Keys <= b.seen
    decreases Unseen(G, a.seen), Unseen(G, b.seen), |a.q| + |b.q|
  {
    if a.q == [] && b.q == [] then Ok(Meeting(a, b, -1))
    else
      var la := Level(G, a, b.seen);
      if la.Thrown? then Err(IllegalArgument)
      else if la.Met? then Ok(Meeting(la.s.(q := []), b.(q := []), la.v))
      else
        var lb := Level(G, b, la.s.seen);
        if lb.Thrown? then Err(IllegalArgument)
        else if lb.Met? then Ok(Meeting(la.s.(q := []), lb.s.(q := []), lb.v))
        else
          LevelProgress(G, a, b.seen);
          LevelProgress(G, b, la.s.seen);
          SapLoop(G, la.s, lb.s)
  }

  /** A side before its first level: its start vertices queued and seen, nothing discovered. */
  function Start(starts: seq<int>): Side {
    Side(starts, Elems(starts), map[])
  }

  /** `bfs(A, B)`. */
  function SapSearch(G: Digraph, A: seq<int>, B: seq<int>): Result<Meeting>
    requires WellFormed(G)
  {
    SapLoop(G, Start(A), Start(B))
  }

  /** The loop invariant of both sides: search trees from their start vertices, holding those vertices. */
  ghost predicate Sides(G: Digraph, A: seq<int>, B: seq<int>, a: Side, b: Side, da: map<int, nat>, db: map<int, nat>) {
    Searched(G, A, a, da) && Searched(G, B, b, db) && Elems(A) <= a.seen && Elems(B) <= b.seen
  }

  /** Discovering vertices keeps the start vertices seen and the tree shape. */
  lemma LevelSides(G: Digraph, starts: seq<int>, s: Side, other: set<int>, d: map<int, nat>) returns (d': map<int, nat>)
    requires WellFormed(G) && Searched(G, starts, s, d) && Elems(starts) <= s.seen
    requires !Level(G, s, other).Thrown?
    ensures Searched(G, starts, Level(G, s, other).s, d') && Elems(starts) <= Level(G, s, other).s.seen
  {
    d' := ExpandSearched(G, |s.q|, s, other, starts, d);
  }

  /**
   * The searched sides keep their tree shape; an ancestor, when one is found,
   * has been seen by both sides and newly discovered by one of them, so it
   * is never a vertex both start from.
   */
  lemma {:induction false} SapLoopTree(G: Digraph, A: seq<int>, B: seq<int>, a: Side, b: Side, da: map<int, nat>, db: map<int, nat>)
    returns (da': map<int, nat>, db': map<int, nat>)
    requires WellFormed(G) && Sides(G, A, B, a, b, da, db) && SapLoop(G, a, b).Ok?
    ensures var m := SapLoop(G, a, b).value;
      Searched(G, A, m.a, da') && Searched(G, B, m.b, db')
      && (m.ancestor != -1 ==> m.ancestor in m.a.seen && m.ancestor in m.b.seen && !(m.ancestor in A && m.ancestor in B))
    decreases Unseen(G, a.seen), Unseen(G, b.seen), |a.q| + |b.q|
  {
    if a.q == [] && b.q == [] {
      da', db' := da, db;
      return;
    }
    var la := Level(G, a, b.seen);
    var d1 := LevelSides(G, A, a, b.seen, da);
    if la.Met? {
      da', db' := d1, db;
      return;
    }
    var lb := Level(G, b, la.s.seen);
    var d2 := LevelSides(G, B, b, la.s.seen, db);
    if lb.Met? {
      da', db' := d1, d2;
      return;
    }
    LevelProgress(G, a, b.seen);
    LevelProgress(G, b, la.s.seen);
    assert SapLoop(G, a, b) == SapLoop(G, la.s, lb.s);
    da', db' := SapLoopTree(G, A, B, la.s, lb.s, d1, d2);
  }

  /** Two sides meet only at vertices both start from. */
  ghost predicate Apart(A: seq<int>, B: seq<int>, a: Side, b: Side) {
    forall v :: v in a.seen && v in b.seen ==> v in A && v in B
  }

  /** A level of each side that meets nothing keeps the sides apart and expanded. */
  lemma ThroughApart(G: Digraph, A: seq<int>, B: seq<int>, a: Side, b: Side)
    requires WellFormed(G) && a.path.Keys <= a.seen && b.path.Keys <= b.seen
    requires Apart(A, B, a, b) && Expanded(G, a) && Expanded(G, b)
    requires Level(G, a, b.seen).Through? && Level(G, b, Level(G, a, b.seen).s.seen).Through?
    ensures var a' := Level(G, a, b.seen).s; var b' := Level(G, b, a'.seen).s;
      Apart(A, B, a', b') && Expanded(G, a') && Expanded(G, b') && a'.path.Keys <= a'.seen && b'.path.Keys <= b'.seen
  {
    var a' := Level(G, a, b.seen).s;
    var b' := Level(G, b, a'.seen).s;
    var fa := ExpandGrows(G, |a.q|, a, b.seen);
    var fb := ExpandGrows(G, |b.q|, b, a'.seen);
    LevelExpanded(G, a, b.seen);
    LevelExpanded(G, b, a'.seen);
    forall v | v in a'.seen && v in b'.seen
      ensures v in A && v in B
    {
      assert v in b.seen;
      assert v in a.seen;
    }
  }

  /**
   * When the loop ends without an ancestor, both sides have been searched to
   * the end: neither seen set has an edge leaving it, and they share only
   * vertices both sides started from.
   */
  lemma {:induction false} SapLoopExhaust(G: Digraph, A: seq<int>, B: seq<int>, a: Side, b: Side)
    requires WellFormed(G) && a.path.Keys <= a.seen && b.path.Keys <= b.seen
    requires Apart(A, B, a, b) && Expanded(G, a) && Expanded(G, b)
    requires SapLoop(G, a, b).Ok? && SapLoop(G, a, b).value.ancestor == -1
    ensures var m := SapLoop(G, a, b).value;
      Closed(G, m.a.seen) && Closed(G, m.b.seen) && Apart(A, B, m.a, m.b)
      && a.seen <= m.a.seen && b.seen <= m.b.seen
    decreases Unseen(G, a.seen), Unseen(G, b.seen), |a.q| + |b.q|
  {
    if a.q == [] && b.q == [] {
      DrainedClosed(G, a);
      DrainedClosed(G, b);
      return;
    }
    var la := Level(G, a, b.seen);
    var lb := Level(G, b, la.s.seen);
    assert la.Through? && lb.Through?;
    ThroughApart(G, A, B, a, b);
    LevelProgress(G, a, b.seen);
    LevelProgress(G, b, la.s.seen);
    assert SapLoop(G, a, b) == SapLoop(G, la.s, lb.s);
    SapLoopExhaust(G, A, B, la.s, lb.s);
  }

  /** Every vertex of the set is a vertex of the graph. */
  ghost predicate InGraph(G: Digraph, seen: set<int>) {
    forall v :: v in seen ==> 0 <= v < |G|
  }

  /** With every seen vertex in the graph, `adj` never throws: the search returns. */
  lemma {:induction false} SapLoopTotal(G: Digraph, A: seq<int>, B: seq<int>, a: Side, b: Side, da: map<int, nat>, db: map<int, nat>)
    requires WellFormed(G) && Sides(G, A, B, a, b, da, db) && InGraph(G, a.seen) && InGraph(G, b.seen)
    ensures SapLoop(G, a, b).Ok?
    decreases Unseen(G, a.seen), Unseen(G, b.seen), |a.q| + |b.q|
  {
    if a.q == [] && b.q == [] {
      return;
    }
    var la := Level(G, a, b.seen);
    LevelInGraph(G, A, a, b.seen, da);
    if la.Met? {
      return;
    }
    var d1 := LevelSides(G, A, a, b.seen, da);
    var lb := Level(G, b, la.s.seen);
    LevelInGraph(G, B, b, la.s.seen, db);
    if lb.Met? {
      return;
    }
    var d2 := LevelSides(G, B, b, la.s.seen, db);
    LevelProgress(G, a, b.seen);
    LevelProgress(G, b, la.s.seen);
    assert SapLoop(G, a, b) == SapLoop(G, la.s, lb.s);
    SapLoopTotal(G, A, B, la.s, lb.s, d1, d2);
  }

  /** A level of a side whose seen vertices are all in the graph does not throw, and discovers only vertices of the graph. */
  lemma LevelInGraph(G: Digraph, starts: seq<int>, s: Side, other: set<int>, d: map<int, nat>)
    requires WellFormed(G) && Searched(G, starts, s, d) && InGraph(G, s.seen)
    ensures !Level(G, s, other).Thrown? && InGraph(G, Level(G, s, other).s.seen)
  {
  }

  /** The sides before the loop: the start vertices seen at depth 0, nothing discovered. */
  lemma StartSides(G: Digraph, A: seq<int>, B: seq<int>) returns (da: map<int, nat>, db: map<int, nat>)
    ensures Sides(G, A, B, Start(A), Start(B), da, db)
    ensures Expanded(G, Start(A)) && Expanded(G, Start(B))
  {
    da := map v | v in Elems(A) :: 0;
    db := map v | v in Elems(B) :: 0;
  }

  /**
   * An ancestral path of `len` edges through `x`: a walk from a vertex of
   * `A` to `x` and one from a vertex of `B` to `x`, their edges adding up
   * to `len`.
   */
  ghost predicate Ancestral(G: Digraph, A: seq<int>, B: seq<int>, x: int, len: int) {
    exists p, q :: Walk(G, p) && Walk(G, q) && p[0] in A && q[0] in B && p[|p| - 1] == x && q[|q| - 1] == x
      && (|p| - 1) + (|q| - 1) == len
  }

  /**
   * A found ancestor is reachable from a vertex of `A` and from a vertex of
   * `B`, along the walks the two sides' trees record; it is never a vertex
   * both lists hold.
   */
  lemma SapSearchMeets(G: Digraph, A: seq<int>, B: seq<int>) returns (p: seq<int>, q: seq<int>)
    requires WellFormed(G) && SapSearch(G, A, B).Ok? && SapSearch(G, A, B).value.ancestor != -1
    ensures var x := SapSearch(G, A, B).value.ancestor;
      |p| >= 1 && |q| >= 1 && WalkFrom(G, A, p, x, |p| - 1) && WalkFrom(G, B, q, x, |q| - 1)
      && !(x in A && x in B)
  {
    var da, db := SapSearchTree(G, A, B);
    var m := SapSearch(G, A, B).value;
    p := TreeWalk(G, A, m.a.seen, m.a.path, da, m.ancestor);
    q := TreeWalk(G, B, m.b.seen, m.b.path, db, m.ancestor);
  }

  /**
   * No ancestor is reported only when no vertex is reachable from both
   * lists, except vertices both lists hold.
   */
  lemma SapSearchExhaustive(G: Digraph, A: seq<int>, B: seq<int>, p: seq<int>, q: seq<int>)
    requires WellFormed(G) && SapSearch(G, A, B).Ok? && SapSearch(G, A, B).value.ancestor == -1
    requires Walk(G, p) && p[0] in A && Walk(G, q) && q[0] in B && p[|p| - 1] == q[|q| - 1]
    ensures p[|p| - 1] in A && p[|p| - 1] in B
  {
    var da, db := StartSides(G, A, B);
    SapLoopExhaust(G, A, B, Start(A), Start(B));
    var m := SapSearch(G, A, B).value;
    ClosedReach(G, m.a.seen, A, p);
    ClosedReach(G, m.b.seen, B, q);
  }

  /** The search throws only when a start vertex lies outside the graph. */
  lemma SapSearchTotal(G: Digraph, A: seq<int>, B: seq<int>)
    requires WellFormed(G)
    requires forall i :: 0 <= i < |A| ==> 0 <= A[i] < |G|
    requires forall i :: 0 <= i < |B| ==> 0 <= B[i] < |G|
    ensures SapSearch(G, A, B).Ok?
  {
    var da, db := StartSides(G, A, B);
    SapLoopTotal(G, A, B, Start(A), Start(B), da, db);
  }

  /** The search trees of a finished search, with their depths. */
  lemma SapSearchTree(G: Digraph, A: seq<int>, B: seq<int>) returns (da: map<int, nat>, db: map<int, nat>)
    requires WellFormed(G) && SapSearch(G, A, B).Ok?
    ensures var m := SapSearch(G, A, B).value;
      Searched(G, A, m.a, da) && Searched(G, B, m.b, db)
      && (m.ancestor != -1 ==> m.ancestor in m.a.seen && m.ancestor in m.b.seen && !(m.ancestor in A && m.ancestor in B))
  {
    var d0, e0 := StartSides(G, A, B);
    da, db := SapLoopTree(G, A, B, Start(A), Start(B), d0, e0);
  }

  /**
   * As written, `length(0, 0)` on the one-vertex graph without edges finds
   * no ancestor, although vertex 0 is its own ancestor at distance 0.
   */
  lemma IsolatedSelfSearch()
    ensures SapSearch([[]], [0], [0]) == Ok(Meeting(Side([], {0}, map[]), Side([], {0}, map[]), -1))
  {
    var G: Digraph := [[]];
    var s := Start([0]);
    assert Elems([0]) == {0};
    assert Visit(G, 0, [], Side([], {0}, map[]), {0}) == Through(Side([], {0}, map[]));
    assert Level(G, s, {0}) == Through(Side([], {0}, map[]));
    assert SapSearch(G, [0], [0]) == SapLoop(G, Side([], {0}, map[]), Side([], {0}, map[]));
  }

  /** The last vertex of `B` that `A` also holds, if the lists share one. */
  function LastShared(A: seq<int>, B: seq<int>): (x: Option<int>)
    ensures x.Some? ==> x.value in A && x.value in B
    ensures x.None? <==> forall i :: 0 <= i < |B| ==> B[i] !in A
  {
    if B == [] then None
    else if B[|B| - 1] in A then Some(B[|B| - 1])
    else
      var x := LastShared(A, B[..|B| - 1]);
      assert forall i :: 0 <= i < |B| - 1 ==> B[..|B| - 1][i] == B[i];
      x
  }

  /**
   * The search with the start lists compared first, as the separate
   * `MultiBFS` class does: a vertex both lists hold is the ancestor at
   * distance 0 and nothing is searched.
   */
  function SapSearchChecked(G: Digraph, A: seq<int>, B: seq<int>): Result<Meeting>
    requires WellFormed(G)
  {
    var x := LastShared(A, B);
    if x.Some? then Ok(Meeting(Start(A), Start(B), x.value)) else SapSearch(G, A, B)
  }

  /** The search trees of a finished checked search, with their depths. */
  lemma CheckedTree(G: Digraph, A: seq<int>, B: seq<int>) returns (da: map<int, nat>, db: map<int, nat>)
    requires WellFormed(G) && SapSearchChecked(G, A, B).Ok?
    ensures var m := SapSearchChecked(G, A, B).value;
      Tree(G, A, m.a.seen, m.a.path, da) && Tree(G, B, m.b.seen, m.b.path, db)
      && (m.ancestor > -1 ==> m.ancestor in m.a.seen && m.ancestor in m.b.seen)
  {
    if LastShared(A, B).Some? {
      da, db := StartSides(G, A, B);
    } else {
      da, db := SapSearchTree(G, A, B);
    }
  }

  /**
   * The checked search reports an ancestor exactly when some vertex is
   * reachable from both lists; a vertex both lists hold is reported with
   * no discoverer on either side, so its path length is 0.
   */
  lemma SapSearchCheckedExact(G: Digraph, A: seq<int>, B: seq<int>)
    requires WellFormed(G)
    requires forall i :: 0 <= i < |A| ==> 0 <= A[i] < |G|
    requires forall i :: 0 <= i < |B| ==> 0 <= B[i] < |G|
    ensures SapSearchChecked(G, A, B).Ok?
    ensures var m := SapSearchChecked(G, A, B).value;
      (m.ancestor == -1 <==> forall p, q :: Walk(G, p) && p[0] in A && Walk(G, q) && q[0] in B ==> p[|p| - 1] != q[|q| - 1])
    ensures var m := SapSearchChecked(G, A, B).value;
      (exists v :: v in A && v in B) ==> m.ancestor in A && m.ancestor in B && m.a.path == map[] && m.b.path == map[]
  {
    SapSearchTotal(G, A, B);
    var m := SapSearchChecked(G, A, B).value;
    var x := LastShared(A, B);
    if x.Some? {
      assert Walk(G, [x.value]);
      var p, q := [x.value], [x.value];
      assert p[0] in A && q[0] in B && p[|p| - 1] == q[|q| - 1];
    } else if m.ancestor != -1 {
      var p, q := SapSearchMeets(G, A, B);
      assert Walk(G, p) && p[0] in A && Walk(G, q) && q[0] in B && p[|p| - 1] == q[|q| - 1];
    } else {
      forall p, q | Walk(G, p) && p[0] in A && Walk(G, q) && q[0] in B
        ensures p[|p| - 1] != q[|q| - 1]
      {
        if p[|p| - 1] == q[|q| - 1] {
          SapSearchExhaustive(G, A, B, p, q);
          assert false;
        }
      }
    }
    if exists v :: v in A && v in B {
      var v :| v in A && v in B;
      var i :| 0 <= i < |B| && B[i] == v;
    }
  }
}
