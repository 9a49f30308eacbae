/**
 * `MultiBFS` (MultiBFS.java): the stand-alone two-sided search. Unlike the
 * copy nested in `SAP`, it compares the start lists first: a vertex of `B`
 * that `A` also holds becomes the ancestor and is not queued on B's side.
 * `bfsWorker` expands one level of a side and returns -1 on meeting the
 * other side (recording the ancestor), otherwise the new queue size;
 * `bfsMaster` alternates the two sides.
 *
 * The loop condition `aSize > 0 || bSize > 0 && ancestor < 0` parses as
 * `aSize > 0 || (bSize > 0 && ancestor < 0)`, so side A goes on after an
 * ancestor is known and may replace it. `Continue(false, ...)` is that
 * condition as written, `Continue(true, ...)` the one its comment
 * describes.
 */
module MultiBfses {
  import opened Common
  import opened Digraphs
  import opened SearchLevels
  import opened SapSearches

  /** Where a search stopped: both sides and the ancestor. */
  datatype Run = Run(a: Side, b: Side, ancestor: int)

  /**
   * `B.forEach(...)` in `bfsMaster`: the start vertices of B in order,
   * except those A holds; the last of those is the ancestor (-1 when none).
   */
  function LoadB(A: seq<int>, B: seq<int>): (r: (Side, int))
    ensures r.0.path == map[] && Elems(r.0.q) == r.0.seen
    ensures forall v :: v in r.0.seen <==> v in B && v !in A
    ensures r.1 == match LastShared(A, B) case Some(v) => v case None => -1
    ensures LastShared(A, B).None? ==> r.0 == Start(B)
    decreases |B|
  {
    if B == [] then (Side([], {}, map[]), -1)
    else
      var B' := B[..|B| - 1];
      var v := B[|B| - 1];
      assert B == B' + [v];
      var (s, anc) := LoadB(A, B');
      if v in A then (s, v) else (Side(s.q + [v], s.seen + {v}, map[]), anc)
  }

  /** The `while` condition of `bfsMaster`: as written when `fixed` is false, as its comment describes when true. */
  predicate Continue(fixed: bool, aSize: int, bSize: int, ancestor: int) {
    if fixed then (aSize > 0 || bSize > 0) && ancestor < 0
    else aSize > 0 || (bSize > 0 && ancestor < 0)
  }

  /** How many of the two sizes are positive. */
  function Flags(aSize: int, bSize: int): nat {
    (if aSize > 0 then 1 else 0) + (if bSize > 0 then 1 else 0)
  }

  /**
   * The loop of `bfsMaster`: a level of A (`bfsWorker` on A), then, while
   * no ancestor is known, a level of B. A meeting sets the ancestor and
   * makes that side's size -1; `adj` throwing ends the search with
   * IllegalArgumentException.
   */
  function MultiLoop(G: Digraph, fixed: bool, a: Side, b: Side, ancestor: int, aSize: int, bSize: int): Result<Run>
    requires WellFormed(G) && a.path.Keys <= a.seen && b.path.Keys <= b.seen
    decreases Unseen(G, a.seen), Unseen(G, b.seen), |a.q| + |b.q|, Flags(aSize, bSize)
  {
    if !Continue(fixed, aSize, bSize, ancestor) then Ok(Run(a, b, ancestor))
    else
      var la := Level(G, a, b.seen);
      if la.Thrown? then Err(IllegalArgument)
      else if la.Met? then
        MetProgress(G, a, b.seen);
        MultiLoop(G, fixed, la.s, b, la.v, -1, bSize)
      else
        LevelProgress(G, a, b.seen);
        if ancestor >= 0 then
          MultiLoop(G, fixed, la.s, b, ancestor, |la.s.q|, bSize)
        else
          var lb := Level(G, b, la.s.seen);
          if lb.Thrown? then Err(IllegalArgument)
          else if lb.Met? then
            MetProgress(G, b, la.s.seen);
            MultiLoop(G, fixed, la.s, lb.s, lb.v, |la.s.q|, -1)
          else
            LevelProgress(G, b, la.s.seen);
            MultiLoop(G, fixed, la.s, lb.s, ancestor, |la.s.q|, |lb.s.q|)
  }

  /** `new MultiBFS(A, B, DAG)`: load both sides, then loop from sizes 1 and 1. */
  function MultiSearch(G: Digraph, fixed: bool, A: seq<int>, B: seq<int>): Result<Run>
    requires WellFormed(G)
  {
    var (b, ancestor) := LoadB(A, B);
    MultiLoop(G, fixed, Start(A), b, ancestor, 1, 1)
  }

  /** An ancestor, once known, is only ever replaced by a vertex of the graph. */
  lemma {:induction false} AncestorKept(G: Digraph, fixed: bool, a: Side, b: Side, ancestor: int, aSize: int, bSize: int)
    requires WellFormed(G) && a.path.Keys <= a.seen && b.path.Keys <= b.seen
    requires MultiLoop(G, fixed, a, b, ancestor, aSize, bSize).Ok?
    ensures var x := MultiLoop(G, fixed, a, b, ancestor, aSize, bSize).value.ancestor;
      x == ancestor || 0 <= x < |G|
    decreases Unseen(G, a.seen), Unseen(G, b.seen), |a.q| + |b.q|, Flags(aSize, bSize)
  {
    if !Continue(fixed, aSize, bSize, ancestor) {
      return;
    }
    var la := Level(G, a, b.seen);
    if la.Met? {
      MetProgress(G, a, b.seen);
      AncestorKept(G, fixed, la.s, b, la.v, -1, bSize);
      return;
    }
    LevelProgress(G, a, b.seen);
    if ancestor >= 0 {
      AncestorKept(G, fixed, la.s, b, ancestor, |la.s.q|, bSize);
      return;
    }
    var lb := Level(G, b, la.s.seen);
    if lb.Met? {
      MetProgress(G, b, la.s.seen);
      AncestorKept(G, fixed, la.s, lb.s, lb.v, |la.s.q|, -1);
    } else {
      LevelProgress(G, b, la.s.seen);
      AncestorKept(G, fixed, la.s, lb.s, ancestor, |la.s.q|, |lb.s.q|);
    }
  }

  /** `x` is seen by both sides, or both sides start from it. */
  ghost predicate Found(A: seq<int>, B: seq<int>, a: Side, b: Side, x: int) {
    (x in a.seen && x in b.seen) || (x in A && x in B)
  }

  /**
   * The sides keep their search trees, and a non-negative ancestor is seen
   * by both sides or is a start vertex of both.
   */
  lemma {:induction false} MultiLoopTree(G: Digraph, fixed: bool, A: seq<int>, B: seq<int>, a: Side, b: Side,
                                         ancestor: int, aSize: int, bSize: int, da: map<int, nat>, db: map<int, nat>)
    returns (da': map<int, nat>, db': map<int, nat>)
    requires WellFormed(G) && Searched(G, A, a, da) && Searched(G, B, b, db)
    requires ancestor >= 0 ==> Found(A, B, a, b, ancestor)
    requires MultiLoop(G, fixed, a, b, ancestor, aSize, bSize).Ok?
    ensures var r := MultiLoop(G, fixed, a, b, ancestor, aSize, bSize).value;
      Searched(G, A, r.a, da') && Searched(G, B, r.b, db') && (r.ancestor >= 0 ==> Found(A, B, r.a, r.b, r.ancestor))
    decreases Unseen(G, a.seen), Unseen(G, b.seen), |a.q| + |b.q|, Flags(aSize, bSize)
  {
    if !Continue(fixed, aSize, bSize, ancestor) {
      da', db' := da, db;
      return;
    }
    var la := Level(G, a, b.seen);
    var d1 := ExpandSearched(G, |a.q|, a, b.seen, A, da);
    if la.Met? {
      MetProgress(G, a, b.seen);
      da', db' := MultiLoopTree(G, fixed, A, B, la.s, b, la.v, -1, bSize, d1, db);
      return;
    }
    LevelProgress(G, a, b.seen);
    if ancestor >= 0 {
      da', db' := MultiLoopTree(G, fixed, A, B, la.s, b, ancestor, |la.s.q|, bSize, d1, db);
      return;
    }
    var lb := Level(G, b, la.s.seen);
    var d2 := ExpandSearched(G, |b.q|, b, la.s.seen, B, db);
    if lb.Met? {
      MetProgress(G, b, la.s.seen);
      da', db' := MultiLoopTree(G, fixed, A, B, la.s, lb.s, lb.v, |la.s.q|, -1, d1, d2);
    } else {
      LevelProgress(G, b, la.s.seen);
      da', db' := MultiLoopTree(G, fixed, A, B, la.s, lb.s, ancestor, |la.s.q|, |lb.s.q|, d1, d2);
    }
  }

  /** The sides before the loop: A's start vertices, B's less those A holds, all at depth 0. */
  lemma LoadedSides(G: Digraph, A: seq<int>, B: seq<int>) returns (da: map<int, nat>, db: map<int, nat>)
    ensures Searched(G, A, Start(A), da) && Searched(G, B, LoadB(A, B).0, db)
    ensures LoadB(A, B).1 >= 0 ==> Found(A, B, Start(A), LoadB(A, B).0, LoadB(A, B).1)
    ensures Expanded(G, Start(A)) && Expanded(G, LoadB(A, B).0) && Apart(A, B, Start(A), LoadB(A, B).0)
  {
    var b := LoadB(A, B).0;
    da := StartSearched(G, A, Start(A));
    db := StartSearched(G, B, b);
  }

  /** A side holding only start vertices, each queued, nothing discovered, is a search tree of depth 0. */
  lemma StartSearched(G: Digraph, starts: seq<int>, s: Side) returns (d: map<int, nat>)
    requires s.path == map[] && Elems(s.q) == s.seen && s.seen <= Elems(starts)
    ensures Searched(G, starts, s, d) && Expanded(G, s)
  {
    d := map v | v in s.seen :: 0;
    forall i | 0 <= i < |s.q|
      ensures s.q[i] in s.seen
    {
      assert s.q[i] in Elems(s.q);
    }
  }

  /** A non-negative ancestor is reached from a start vertex of A and from one of B. */
  lemma MultiSearchMeets(G: Digraph, fixed: bool, A: seq<int>, B: seq<int>) returns (p: seq<int>, q: seq<int>)
    requires WellFormed(G) && MultiSearch(G, fixed, A, B).Ok? && MultiSearch(G, fixed, A, B).value.ancestor >= 0
    ensures var x := MultiSearch(G, fixed, A, B).value.ancestor;
      Walk(G, p) && p[0] in A && p[|p| - 1] == x && Walk(G, q) && q[0] in B && q[|q| - 1] == x
  {
    var (b, x) := LoadB(A, B);
    var da, db := LoadedSides(G, A, B);
    var da', db' := MultiLoopTree(G, fixed, A, B, Start(A), b, x, 1, 1, da, db);
    var r := MultiSearch(G, fixed, A, B).value;
    if r.ancestor in r.a.seen && r.ancestor in r.b.seen {
      p := TreeWalk(G, A, r.a.seen, r.a.path, da', r.ancestor);
      q := TreeWalk(G, B, r.b.seen, r.b.path, db', r.ancestor);
    } else {
      p, q := [r.ancestor], [r.ancestor];
    }
  }

  /**
   * Without an ancestor, the loop ends only when both sides are searched
   * to the end: neither seen set has an edge leaving it, and they share
   * only start vertices of both.
   */
  lemma {:induction false} MultiLoopExhaust(G: Digraph, fixed: bool, A: seq<int>, B: seq<int>, a: Side, b: Side, aSize: int, bSize: int)
    requires WellFormed(G) && a.path.Keys <= a.seen && b.path.Keys <= b.seen
    requires Apart(A, B, a, b) && Expanded(G, a) && Expanded(G, b)
    requires (aSize <= 0 ==> a.q == []) && (bSize <= 0 ==> b.q == [])
    requires MultiLoop(G, fixed, a, b, -1, aSize, bSize).Ok?
    ensures var r := MultiLoop(G, fixed, a, b, -1, aSize, bSize).value;
      r.ancestor == -1 ==> Closed(G, r.a.seen) && Closed(G, r.b.seen) && Apart(A, B, r.a, r.b) && a.seen <= r.a.seen && b.seen <= r.b.seen
    decreases Unseen(G, a.seen), Unseen(G, b.seen), |a.q| + |b.q|, Flags(aSize, bSize)
  {
    if !Continue(fixed, aSize, bSize, -1) {
      DrainedClosed(G, a);
      DrainedClosed(G, b);
      return;
    }
    var la := Level(G, a, b.seen);
    if la.Met? {
      MetProgress(G, a, b.seen);
      AncestorKept(G, fixed, la.s, b, la.v, -1, bSize);
      return;
    }
    LevelProgress(G, a, b.seen);
    var lb := Level(G, b, la.s.seen);
    if lb.Met? {
      MetProgress(G, b, la.s.seen);
      AncestorKept(G, fixed, la.s, lb.s, lb.v, |la.s.q|, -1);
      return;
    }
    LevelProgress(G, b, la.s.seen);
    ThroughApart(G, A, B, a, b);
    MultiLoopExhaust(G, fixed, A, B, la.s, lb.s, |la.s.q|, |lb.s.q|);
  }

  /**
   * With every vertex of B non-negative, no ancestor is reported only when
   * no vertex is reachable from both lists, whichever loop condition is used.
   */
  lemma MultiSearchExhaustive(G: Digraph, fixed: bool, A: seq<int>, B: seq<int>, p: seq<int>, q: seq<int>)
    requires WellFormed(G) && forall i :: 0 <= i < |B| ==> B[i] >= 0
    requires MultiSearch(G, fixed, A, B).Ok? && MultiSearch(G, fixed, A, B).value.ancestor == -1
    requires Walk(G, p) && p[0] in A && Walk(G, q) && q[0] in B
    ensures p[|p| - 1] != q[|q| - 1]
  {
    var (b, x) := LoadB(A, B);
    var da, db := LoadedSides(G, A, B);
    if LastShared(A, B).Some? {
      var i :| 0 <= i < |B| && B[i] == x;
      AncestorKept(G, fixed, Start(A), b, x, 1, 1);
      assert false;
    }
    MultiLoopExhaust(G, fixed, A, B, Start(A), b, 1, 1);
    var r := MultiSearch(G, fixed, A, B).value;
    ClosedReach(G, r.a.seen, A, p);
    ClosedReach(G, r.b.seen, B, q);
  }

  /** The two searches ended with the same ancestor, seen sets and discoverers. */
  predicate SameSearch(r: Run, m: Meeting) {
    r.ancestor == m.ancestor && r.a.seen == m.a.seen && r.a.path == m.a.path
    && r.b.seen == m.b.seen && r.b.path == m.b.path
  }

  /**
   * With the loop condition its comment describes, the standalone search
   * and the start-checked search nested in `SAP` report the same ancestor.
   */
  lemma {:induction false} MultiLoopAgree(G: Digraph, a: Side, b: Side, aSize: int, bSize: int)
    requires WellFormed(G) && a.path.Keys <= a.seen && b.path.Keys <= b.seen
    requires (aSize <= 0 ==> a.q == []) && (bSize <= 0 ==> b.q == [])
    ensures var r := MultiLoop(G, true, a, b, -1, aSize, bSize); var m := SapLoop(G, a, b);
      r.Ok? == m.Ok? && (r.Ok? ==> SameSearch(r.value, m.value))
    decreases Unseen(G, a.seen), Unseen(G, b.seen), |a.q| + |b.q|, Flags(aSize, bSize)
  {
    if !Continue(true, aSize, bSize, -1) {
      return;
    }
    if a.q == [] && b.q == [] {
      assert Level(G, a, b.seen) == Through(a);
      assert Level(G, b, a.seen) == Through(b);
      assert MultiLoop(G, true, a, b, -1, 0, 0) == Ok(Run(a, b, -1));
      return;
    }
    var la := Level(G, a, b.seen);
    if la.Thrown? {
      return;
    }
    if la.Met? {
      MetProgress(G, a, b.seen);
      assert MultiLoop(G, true, la.s, b, la.v, -1, bSize) == Ok(Run(la.s, b, la.v));
      return;
    }
    LevelProgress(G, a, b.seen);
    var lb := Level(G, b, la.s.seen);
    if lb.Thrown? {
      return;
    }
    if lb.Met? {
      MetProgress(G, b, la.s.seen);
      assert MultiLoop(G, true, la.s, lb.s, lb.v, |la.s.q|, -1) == Ok(Run(la.s, lb.s, lb.v));
      return;
    }
    LevelProgress(G, b, la.s.seen);
    assert SapLoop(G, a, b) == SapLoop(G, la.s, lb.s);
    MultiLoopAgree(G, la.s, lb.s, |la.s.q|, |lb.s.q|);
  }

  /**
   * With the corrected loop condition and non-negative vertices in B,
   * `MultiBFS` reports the ancestor the start-checked `SAP` search does;
   * its exactness carries over.
   */
  lemma MultiSearchAgree(G: Digraph, A: seq<int>, B: seq<int>)
    requires WellFormed(G) && forall i :: 0 <= i < |B| ==> B[i] >= 0
    ensures MultiSearch(G, true, A, B).Ok? == SapSearchChecked(G, A, B).Ok?
    ensures MultiSearch(G, true, A, B).Ok? ==> MultiSearch(G, true, A, B).value.ancestor == SapSearchChecked(G, A, B).value.ancestor
  {
    var x := LastShared(A, B);
    if x.Some? {
      var i :| 0 <= i < |B| && B[i] == x.value;
    } else {
      MultiLoopAgree(G, Start(A), Start(B), 1, 1);
    }
  }

  /**
   * As written, a meeting found by side A after a start vertex both lists
   * hold was taken as the ancestor replaces it: on the graph 0 -> 1 with
   * A = [0] and B = [0, 1], the ancestor 0 (distance 0) becomes 1.
   */
  lemma SharedStartReplaced()
    ensures LoadB([0], [0, 1]).1 == 0
    ensures MultiSearch([[1], []], false, [0], [0, 1]).Ok?
    ensures MultiSearch([[1], []], false, [0], [0, 1]).value.ancestor == 1
  {
    var G: Digraph := [[1], []];
    var b := Side([1], {1}, map[]);
    var m := Side([1], {0, 1}, map[1 := 0]);
    SharedStartLoaded();
    SharedStartLevel();
    assert MultiLoop(G, false, m, b, 1, -1, 1) == Ok(Run(m, b, 1));
  }

  /** Loading B = [0, 1] against A = [0]: 1 is queued, and 0, held by both, is the ancestor. */
  lemma SharedStartLoaded()
    ensures LoadB([0], [0, 1]) == (Side([1], {1}, map[]), 0)
  {
    assert [0, 1][..1] == [0] && [0][..0] == [];
    assert LoadB([0], []) == (Side([], {}, map[]), -1);
    assert LoadB([0], [0]) == (Side([], {}, map[]), 0);
    assert [0, 1][1] == 1 && 1 !in [0];
    assert [] + [1] == [1] && {} + {1} == {1};
  }

  /** The first level of A = [0] on the graph 0 -> 1 meets 1, which B has seen. */
  lemma SharedStartLevel()
    ensures Level([[1], []], Start([0]), {1}) == Met(Side([1], {0, 1}, map[1 := 0]), 1)
  {
    var G: Digraph := [[1], []];
    var a := Start([0]);
    assert Elems([0]) == {0};
    assert Visit(G, 0, [1], a.(q := []), {1}) == Met(Side([1], {0, 1}, map[1 := 0]), 1);
  }

  /** With the corrected condition, a start vertex both lists hold ends the search before any level. */
  lemma SharedStartKept(G: Digraph, A: seq<int>, B: seq<int>)
    requires WellFormed(G) && LastShared(A, B).Some? && LastShared(A, B).value >= 0
    ensures MultiSearch(G, true, A, B) == Ok(Run(Start(A), LoadB(A, B).0, LastShared(A, B).value))
  {
  }

  /** Loading one more vertex of B. */
  lemma LoadBStep(A: seq<int>, B: seq<int>, i: int)
    requires 0 <= i < |B|
    ensures var (s, anc) := LoadB(A, B[..i]);
      LoadB(A, B[..i + 1]) == if B[i] in A then (s, B[i]) else (Side(s.q + [B[i]], s.seen + {B[i]}, map[]), anc)
  {
    assert B[..i + 1][..i] == B[..i];
  }

  /** `A.forEach(v -> { aQ.add(v); aSeen.add(v); })`: A's side before the loop. */
  method QueueStarts(A: seq<int>) returns (a: Side)
    ensures a == Start(A)
  {
    a := Side([], {}, map[]);
    for i := 0 to |A|
      invariant a == Side(A[..i], Elems(A[..i]), map[])
    {
      assert A[..i + 1] == A[..i] + [A[i]];
      a := Side(a.q + [A[i]], a.seen + {A[i]}, map[]);
    }
    assert A[..|A|] == A;
  }

  /**
   * `MultiBFS`: the graph, the ancestor and the two discoverer maps. The
   * loop runs with the condition as written, not the one its comment
   * describes.
   */
  class MultiBfs {
    const dag: Digraph
    var ancestor: int
    var aPath: map<int, int>
    var bPath: map<int, int>

    /** The field initialisation of the constructor: `ancestor = -1`. */
    constructor (dag: Digraph)
      ensures this.dag == dag && ancestor == -1 && aPath == map[] && bPath == map[]
    {
      this.dag := dag;
      ancestor := -1;
      aPath, bPath := map[], map[];
    }

    /**
     * `bfsWorker`: one level of a side. A meeting records the ancestor and
     * gives -1; otherwise the new queue size. `adj` throws
     * IllegalArgumentException for a popped vertex outside the graph.
     */
    method BfsWorker(s: Side, other: set<int>) returns (r: Result<(int, Side)>)
      requires WellFormed(dag)
      modifies this
      ensures var l := Level(dag, s, other);
        (r.Err? <==> l.Thrown?) && (r.Err? ==> r.error == IllegalArgument)
        && (r.Ok? ==> r.value.1 == l.s && r.value.0 == if l.Met? then -1 else |l.s.q|)
        && ancestor == if l.Met? then l.v else old(ancestor)
      ensures aPath == old(aPath) && bPath == old(bPath)
    {
      var l := PopLevel(dag, s, other);
      match l
      case Thrown => r := Err(IllegalArgument);
      case Met(t, v) =>
        ancestor := v;
        r := Ok((-1, t));
      case Through(t) => r := Ok((|t.q|, t));
    }

    /**
     * `A.forEach` and `B.forEach` of `bfsMaster`: A's vertices are queued
     * and seen; a vertex of B that A holds becomes the ancestor, any other
     * is queued and seen on B's side.
     */
    method Load(A: seq<int>, B: seq<int>) returns (a: Side, b: Side)
      requires ancestor == -1
      modifies this
      ensures a == Start(A) && (b, ancestor) == LoadB(A, B)
      ensures aPath == old(aPath) && bPath == old(bPath)
    {
      a := QueueStarts(A);
      var anc := ancestor;
      b := Side([], {}, map[]);
      for i := 0 to |B|
        invariant (b, anc) == LoadB(A, B[..i])
        invariant aPath == old(aPath) && bPath == old(bPath)
      {
        LoadBStep(A, B, i);
        if B[i] in a.seen {
          anc := B[i];
        } else {
          b := Side(b.q + [B[i]], b.seen + {B[i]}, map[]);
        }
      }
      assert B[..|B|] == B;
      ancestor := anc;
    }

    /**
     * `bfsMaster`: load the start vertices, then a level of A and, while no
     * ancestor is known, a level of B, under the guard as written: `&&`
     * binds first, so A keeps expanding while its queue is non-empty even
     * after an ancestor is known.
     */
    method BfsMaster(A: seq<int>, B: seq<int>) returns (thrown: Option<Exception>)
      requires WellFormed(dag) && ancestor == -1
      modifies this
      ensures var m := MultiSearch(dag, false, A, B);
        (thrown.Some? <==> m.Err?) && (thrown.Some? ==> thrown.value == IllegalArgument)
        && (m.Ok? ==> ancestor == m.value.ancestor && aPath == m.value.a.path && bPath == m.value.b.path)
    {
      var a, b := Load(A, B);
      var aSize, bSize := 1, 1;
      while aSize > 0 || (bSize > 0 && ancestor < 0)
        invariant a.path.Keys <= a.seen && b.path.Keys <= b.seen
        invariant MultiLoop(dag, false, a, b, ancestor, aSize, bSize) == MultiSearch(dag, false, A, B)
        decreases Unseen(dag, a.seen), Unseen(dag, b.seen), |a.q| + |b.q|, Flags(aSize, bSize)
      {
        var ra := BfsWorker(a, b.seen);
        if ra.Err? {
          return Some(ra.error);
        }
        if ra.value.0 == -1 {
          MetProgress(dag, a, b.seen);
        } else {
          LevelProgress(dag, a, b.seen);
        }
        a, aSize := ra.value.1, ra.value.0;
        if ancestor < 0 {
          var rb := BfsWorker(b, a.seen);
          if rb.Err? {
            return Some(rb.error);
          }
          if rb.value.0 == -1 {
            MetProgress(dag, b, a.seen);
          } else {
            LevelProgress(dag, b, a.seen);
          }
          b, bSize := rb.value.1, rb.value.0;
        }
      }
      aPath, bPath := a.path, b.path;
      thrown := None;
    }

    /** `new MultiBFS(A, B, DAG)`: the search, or the exception `adj` threw. */
    static method Make(A: seq<int>, B: seq<int>, dag: Digraph) returns (r: Result<MultiBfs>)
      requires WellFormed(dag)
      ensures (r.Err? <==> MultiSearch(dag, false, A, B).Err?) && (r.Err? ==> r.error == IllegalArgument)
      ensures r.Ok? ==> fresh(r.value) && r.value.dag == dag
      ensures r.Ok? ==> var m := MultiSearch(dag, false, A, B).value;
        r.value.ancestor == m.ancestor && r.value.aPath == m.a.path && r.value.bPath == m.b.path
    {
      var search := new MultiBfs(dag);
      var thrown := search.BfsMaster(A, B);
      if thrown.Some? {
        return Err(thrown.value);
      }
      r := Ok(search);
    }
  }
}
