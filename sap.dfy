/**
 * `SAP` (SAP.java): shortest ancestral paths in a digraph that must be
 * acyclic. The constructor rejects a missing graph and, through
 * `ErrorOnCycle`, a graph with a cycle; `length` and `ancestor` run the
 * nested `MultiBFS` from two vertex lists and report the vertex where the
 * two searches met and the length of the path through it.
 */
module Saps {
  import opened Common
  import opened Digraphs
  import opened SearchLevels
  import opened SapSearches

  /**
   * What one `ErrorOnCycle.dfs` call does: returns false, returns true (a
   * walk back to the origin), or recurses forever, which the JVM ends with
   * StackOverflowError.
   */
  datatype Search = NoCycle | CycleFound | Overflow

  /**
   * `dfs(v, origin)`, `v` being `depth` edges away from the origin along the
   * current chain of calls. `seen` is never written, so its test never
   * fires and every walk from `v` that avoids the origin is explored. A
   * chain of `|G| + 1` calls below the origin repeats a vertex, and a call
   * repeating an ancestor call repeats it forever: that is the overflow.
   */
  function Dfs(G: Digraph, v: nat, origin: nat, depth: nat): Search
    requires WellFormed(G) && v < |G| && depth <= |G| + 1
    decreases |G| + 1 - depth, 1
  {
    if depth > |G| then Overflow else DfsAdj(G, G[v], origin, depth)
  }

  /** The loop over `adj(v)` in `dfs`: the first neighbour that is the origin, or whose call finds it or overflows, decides. */
  function DfsAdj(G: Digraph, ws: seq<nat>, origin: nat, depth: nat): Search
    requires WellFormed(G) && depth <= |G| && forall k :: 0 <= k < |ws| ==> ws[k] < |G|
    decreases |G| + 1 - depth, 0, |ws|
  {
    if ws == [] then NoCycle
    else if ws[0] == origin then CycleFound
    else
      match Dfs(G, ws[0], origin, depth + 1)
      case NoCycle => DfsAdj(G, ws[1..], origin, depth)
      case r => r
  }

  /** The neighbours of a vertex of a well-formed graph are vertices. */
  lemma AdjInGraph(G: Digraph, v: nat)
    requires WellFormed(G) && v < |G|
    ensures forall k :: 0 <= k < |G[v]| ==> G[v][k] < |G|
  {
  }

  /** A found cycle is a walk of one edge or more from `v` back to the origin. */
  lemma {:induction false} DfsFinds(G: Digraph, v: nat, origin: nat, depth: nat) returns (p: seq<int>)
    requires WellFormed(G) && v < |G| && depth <= |G| + 1 && Dfs(G, v, origin, depth) == CycleFound
    ensures Walk(G, p) && |p| >= 2 && p[0] == v && p[|p| - 1] == origin
    decreases |G| + 1 - depth, 1
  {
    var q := DfsAdjFinds(G, G[v], origin, depth);
    WalkCons(G, v, q);
    p := [v] + q;
  }

  /** A found cycle from the loop over `ws` is a walk from one of `ws` to the origin. */
  lemma {:induction false} DfsAdjFinds(G: Digraph, ws: seq<nat>, origin: nat, depth: nat) returns (p: seq<int>)
    requires WellFormed(G) && depth <= |G| && forall k :: 0 <= k < |ws| ==> ws[k] < |G|
    requires DfsAdj(G, ws, origin, depth) == CycleFound
    ensures Walk(G, p) && p[0] in ws && p[|p| - 1] == origin
    decreases |G| + 1 - depth, 0, |ws|
  {
    if ws[0] == origin {
      p := [origin];
    } else if Dfs(G, ws[0], origin, depth + 1) == NoCycle {
      p := DfsAdjFinds(G, ws[1..], origin, depth);
      assert p[0] in ws[1..];
    } else {
      p := DfsFinds(G, ws[0], origin, depth + 1);
    }
  }

  /** An overflow follows a walk from `v` with at least `|G| + 2 - depth` vertices. */
  lemma {:induction false} DfsOverflows(G: Digraph, v: nat, origin: nat, depth: nat) returns (p: seq<int>)
    requires WellFormed(G) && v < |G| && depth <= |G| + 1 && Dfs(G, v, origin, depth) == Overflow
    ensures Walk(G, p) && p[0] == v && |p| >= |G| + 2 - depth
    decreases |G| + 1 - depth, 1
  {
    if depth > |G| {
      p := [v];
    } else {
      var q := DfsAdjOverflows(G, G[v], origin, depth);
      WalkCons(G, v, q);
      p := [v] + q;
    }
  }

  /** An overflow from the loop over `ws` follows a walk from one of `ws` with at least `|G| + 1 - depth` vertices. */
  lemma {:induction false} DfsAdjOverflows(G: Digraph, ws: seq<nat>, origin: nat, depth: nat) returns (p: seq<int>)
    requires WellFormed(G) && depth <= |G| && forall k :: 0 <= k < |ws| ==> ws[k] < |G|
    requires DfsAdj(G, ws, origin, depth) == Overflow
    ensures Walk(G, p) && p[0] in ws && |p| >= |G| + 1 - depth
    decreases |G| + 1 - depth, 0, |ws|
  {
    if Dfs(G, ws[0], origin, depth + 1) == NoCycle {
      p := DfsAdjOverflows(G, ws[1..], origin, depth);
      assert p[0] in ws[1..];
    } else {
      p := DfsOverflows(G, ws[0], origin, depth + 1);
    }
  }

  /** When `dfs` returns false, no walk of one edge or more leads from `v` to the origin. */
  lemma {:induction false} DfsMisses(G: Digraph, v: nat, origin: nat, depth: nat, p: seq<int>)
    requires WellFormed(G) && v < |G| && depth <= |G| + 1 && Dfs(G, v, origin, depth) == NoCycle
    requires Walk(G, p) && |p| >= 2 && p[0] == v
    ensures p[|p| - 1] != origin
    decreases |G| + 1 - depth, 1
  {
    assert Edge(G, p[0], p[1]);
    var q := p[1..];
    assert Walk(G, q) by {
      forall i | 0 <= i < |q| - 1
        ensures Edge(G, q[i], q[i + 1])
      {
        assert q[i] == p[i + 1] && q[i + 1] == p[i + 2];
      }
    }
    AdjInGraph(G, v);
    DfsAdjMisses(G, G[v], origin, depth, q);
  }

  /** When the loop over `ws` returns false, no walk from one of `ws` ends at the origin. */
  lemma {:induction false} DfsAdjMisses(G: Digraph, ws: seq<nat>, origin: nat, depth: nat, p: seq<int>)
    requires WellFormed(G) && depth <= |G| && forall k :: 0 <= k < |ws| ==> ws[k] < |G|
    requires DfsAdj(G, ws, origin, depth) == NoCycle
    requires Walk(G, p) && p[0] in ws
    ensures p[|p| - 1] != origin
    decreases |G| + 1 - depth, 0, |ws|
  {
    if ws[0] != p[0] {
      assert p[0] in ws[1..];
      DfsAdjMisses(G, ws[1..], origin, depth, p);
    } else if |p| >= 2 {
      DfsMisses(G, ws[0], origin, depth + 1, p);
    }
  }

  /** The exception a `dfs` call that does not return false ends the constructor with. */
  function Raised(r: Search): Exception {
    if r == Overflow then StackOverflow else IllegalArgument
  }

  /**
   * The loop of the `ErrorOnCycle` constructor from vertex `i` on: the
   * exception of the first vertex whose `dfs(v, v)` does not return false,
   * or none.
   */
  function CycleCheck(G: Digraph, i: nat): Option<Exception>
    requires WellFormed(G) && i <= |G|
    decreases |G| - i
  {
    if i == |G| then None
    else if Dfs(G, i, i, 0) != NoCycle then Some(Raised(Dfs(G, i, i, 0)))
    else CycleCheck(G, i + 1)
  }

  /** The loop ends quietly exactly when every `dfs(v, v)` from `i` on returns false. */
  lemma {:induction false} CycleCheckQuiet(G: Digraph, i: nat)
    requires WellFormed(G) && i <= |G|
    ensures CycleCheck(G, i).None? ==> forall v: nat :: i <= v < |G| ==> Dfs(G, v, v, 0) == NoCycle
    ensures CycleCheck(G, i).Some? ==> exists v: nat :: i <= v < |G| && Dfs(G, v, v, 0) != NoCycle
    decreases |G| - i
  {
    if i < |G| {
      CycleCheckQuiet(G, i + 1);
    }
  }

  /** `ErrorOnCycle` throws exactly when the graph has a cycle. */
  lemma CycleCheckAcyclic(G: Digraph)
    requires WellFormed(G)
    ensures CycleCheck(G, 0).None? <==> Acyclic(G)
  {
    CycleCheckQuiet(G, 0);
    if CycleCheck(G, 0).None? {
      forall p | Walk(G, p) && |p| >= 2
        ensures p[0] != p[|p| - 1]
      {
        assert Edge(G, p[0], p[1]);
        DfsMisses(G, p[0] as nat, p[0] as nat, 0, p);
      }
    } else {
      var v: nat :| v < |G| && Dfs(G, v, v, 0) != NoCycle;
      if Dfs(G, v, v, 0) == CycleFound {
        var p := DfsFinds(G, v, v, 0);
      } else {
        var p := DfsOverflows(G, v, v, 0);
        LongWalkCyclic(G, p);
      }
    }
  }

  /**
   * The `ErrorOnCycle` constructor: `dfs(i, i)` for every vertex in turn;
   * the first that finds a cycle raises IllegalArgumentException, the first
   * that recurses forever StackOverflowError.
   */
  method ErrorOnCycle(G: Digraph) returns (thrown: Option<Exception>)
    requires WellFormed(G)
    ensures thrown == CycleCheck(G, 0)
    ensures thrown.None? <==> Acyclic(G)
  {
    CycleCheckAcyclic(G);
    var i := 0;
    while i < |G|
      invariant 0 <= i <= |G| && CycleCheck(G, i) == CycleCheck(G, 0)
    {
      var r := Dfs(G, i, i, 0);
      if r != NoCycle {
        return Some(Raised(r));
      }
      i := i + 1;
    }
    thrown := None;
  }

  /** `A.forEach(v -> { aQ.add(v); aSeen.add(v); })`: every start vertex queued in order and marked seen. */
  method Enqueue(A: seq<int>) returns (q: seq<int>, seen: set<int>)
    ensures q == A && seen == Elems(A)
  {
    q, seen := [], {};
    for i := 0 to |A|
      invariant q == A[..i] && seen == Elems(A[..i])
    {
      assert A[..i + 1] == A[..i] + [A[i]];
      q := q + [A[i]];
      seen := seen + {A[i]};
    }
    assert A[..|A|] == A;
  }

  /** Both search trees, and an ancestor seen by both sides. */
  ghost predicate Trees(G: Digraph, A: seq<int>, B: seq<int>, ancestor: int, aPath: map<int, int>, bPath: map<int, int>,
                        da: map<int, nat>, db: map<int, nat>) {
    Tree(G, A, da.Keys, aPath, da) && Tree(G, B, db.Keys, bPath, db)
    && (ancestor > -1 ==> ancestor in da && ancestor in db)
  }

  /** The search trees of a finished search, as the fields of `MultiBfs` hold them. */
  lemma SearchTrees(G: Digraph, A: seq<int>, B: seq<int>) returns (da: map<int, nat>, db: map<int, nat>)
    requires WellFormed(G) && SapSearch(G, A, B).Ok?
    ensures var m := SapSearch(G, A, B).value;
      da.Keys == m.a.seen && db.Keys == m.b.seen && Trees(G, A, B, m.ancestor, m.a.path, m.b.path, da, db)
  {
    da, db := SapSearchTree(G, A, B);
  }

  /**
   * The `while` loop of the nested `MultiBFS.bfs`: a level of A, then a
   * level of B, until both queues are empty; a meeting records the
   * ancestor and clears both queues.
   */
  method MeetLoop(dag: Digraph, a0: Side, b0: Side) returns (r: Result<Meeting>)
    requires WellFormed(dag) && a0.path.Keys <= a0.seen && b0.path.Keys <= b0.seen
    ensures r == SapLoop(dag, a0, b0)
    ensures r.Err? ==> r.error == IllegalArgument
  {
    var a, b, ancestor := a0, b0, -1;
    while a.q != [] || b.q != []
      invariant a.path.Keys <= a.seen && b.path.Keys <= b.seen
      invariant SapLoop(dag, a0, b0) == if ancestor == -1 then SapLoop(dag, a, b) else Ok(Meeting(a, b, ancestor))
      invariant ancestor != -1 ==> a.q == [] && b.q == []
      decreases Unseen(dag, a.seen), Unseen(dag, b.seen), |a.q| + |b.q|
    {
      ghost var a1, b1 := a, b;
      var la := PopLevel(dag, a, b.seen);
      if la.Thrown? {
        return Err(IllegalArgument);
      }
      if la.Met? {
        assert la.v in Unseen(dag, a1.seen) && la.v !in Unseen(dag, la.s.seen);
        ancestor := la.v;
        a, b := la.s.(q := []), b.(q := []);
      } else {
        LevelProgress(dag, a, b.seen);
        a := la.s;
      }
      var lb := PopLevel(dag, b, a.seen);
      if lb.Thrown? {
        return Err(IllegalArgument);
      }
      if lb.Met? {
        assert lb.v in Unseen(dag, b1.seen) && lb.v !in Unseen(dag, lb.s.seen);
        ancestor := lb.v;
        a, b := a.(q := []), lb.s.(q := []);
      } else {
        LevelProgress(dag, b, a.seen);
        b := lb.s;
      }
    }
    r := Ok(Meeting(a, b, ancestor));
  }

  /** The body of the nested `bfs(A, B)`: both start lists queued and seen, then the level loop. */
  method NestedSearch(dag: Digraph, A: seq<int>, B: seq<int>) returns (r: Result<Meeting>)
    requires WellFormed(dag)
    ensures r == SapSearch(dag, A, B)
    ensures r.Err? ==> r.error == IllegalArgument
  {
    var aQ, aSeen := Enqueue(A);
    var bQ, bSeen := Enqueue(B);
    assert Side(aQ, aSeen, map[]) == Start(A) && Side(bQ, bSeen, map[]) == Start(B);
    r := MeetLoop(dag, Side(aQ, aSeen, map[]), Side(bQ, bSeen, map[]));
  }

  /**
   * The nested `MultiBFS` of SAP.java: one search from two vertex lists,
   * the ancestor where it stopped, the discoverer maps of both sides and
   * the length of the path through the ancestor. The search is the one
   * written in SAP.java (`SapSearch`): the start lists are not compared
   * with each other, so a vertex held by both is not an ancestor unless a
   * later level discovers it.
   */
  class MultiBfs {
    const dag: Digraph
    var ancestor: int
    var length: int
    var aPath: map<int, int>
    var bPath: map<int, int>
    /** The start lists and the depth of every seen vertex, for the proofs. */
    ghost var aStarts: seq<int>
    ghost var bStarts: seq<int>
    ghost var aDepth: map<int, nat>
    ghost var bDepth: map<int, nat>

    /** Both search trees, and an ancestor seen by both sides. */
    ghost predicate Traced()
      reads this
    {
      Trees(dag, aStarts, bStarts, ancestor, aPath, bPath, aDepth, bDepth)
    }

    /** `ancestor = -1`, before the search. */
    constructor (dag: Digraph)
      ensures this.dag == dag && ancestor == -1
    {
      this.dag := dag;
      ancestor := -1;
      length := 0;
      aPath, bPath := map[], map[];
      aStarts, bStarts := [], [];
      aDepth, bDepth := map[], map[];
    }

    /**
     * `bfs(A, B)`: queue and mark the start vertices of both lists, then
     * expand a level of A and a level of B in turn until both queues are
     * empty or one side discovers a vertex the other has seen.
     */
    method Bfs(A: seq<int>, B: seq<int>) returns (thrown: Option<Exception>)
      requires WellFormed(dag) && ancestor == -1
      modifies this
      ensures (thrown.Some? <==> SapSearch(dag, A, B).Err?) && (thrown.Some? ==> thrown.value == IllegalArgument)
      ensures thrown.None? ==>
        var m := SapSearch(dag, A, B).value;
        ancestor == m.ancestor && aPath == m.a.path && bPath == m.b.path
        && aStarts == A && bStarts == B && aDepth.Keys == m.a.seen && bDepth.Keys == m.b.seen && Traced()
    {
      var r := NestedSearch(dag, A, B);
      if r.Err? {
        return Some(IllegalArgument);
      }
      ghost var da, db := SearchTrees(dag, A, B);
      Install(A, B, r.value, da, db);
      thrown := None;
    }

    /** The fields `bfs(A, B)` leaves: the ancestor and both discoverer maps of a finished search. */
    method Install(A: seq<int>, B: seq<int>, m: Meeting, ghost da: map<int, nat>, ghost db: map<int, nat>)
      requires da.Keys == m.a.seen && db.Keys == m.b.seen && Trees(dag, A, B, m.ancestor, m.a.path, m.b.path, da, db)
      modifies this
      ensures ancestor == m.ancestor && aPath == m.a.path && bPath == m.b.path
      ensures aStarts == A && bStarts == B && aDepth == da && bDepth == db && Traced()
    {
      ancestor, aPath, bPath := m.ancestor, m.a.path, m.b.path;
      aStarts, bStarts, aDepth, bDepth := A, B, da, db;
    }

    /**
     * `followPath()`: with an ancestor, the number of discoverer links from
     * it back to a start vertex in `aPath`, plus the same in `bPath`;
     * otherwise -1.
     */
    method FollowPath()
      requires Traced()
      modifies this
      ensures ancestor == old(ancestor) && aPath == old(aPath) && bPath == old(bPath)
      ensures aStarts == old(aStarts) && bStarts == old(bStarts) && aDepth == old(aDepth) && bDepth == old(bDepth)
      ensures length == if ancestor > -1 then aDepth[ancestor] + bDepth[ancestor] else -1
    {
      var len: int := -1;
      if ancestor > -1 {
        len := 0;
        var nxt := ancestor;
        while nxt in aPath
          invariant nxt in aDepth && len + aDepth[nxt] == aDepth[ancestor]
          decreases aDepth[nxt]
        {
          len := len + 1;
          nxt := aPath[nxt];
        }
        nxt := ancestor;
        while nxt in bPath
          invariant nxt in bDepth && len + bDepth[nxt] == aDepth[ancestor] + bDepth[ancestor]
          decreases bDepth[nxt]
        {
          len := len + 1;
          nxt := bPath[nxt];
        }
      }
      length := len;
    }

    /**
     * The `MultiBFS(A, B)` constructor: search, then follow the paths. The
     * length is -1 exactly when there is no ancestor, and otherwise the
     * number of edges of an ancestral path through it.
     */
    static method Run(dag: Digraph, A: seq<int>, B: seq<int>) returns (r: Result<MultiBfs>)
      requires WellFormed(dag)
      ensures r.Err? <==> SapSearch(dag, A, B).Err?
      ensures r.Err? ==> r.error == IllegalArgument
      ensures r.Ok? ==> fresh(r.value) && r.value.ancestor == SapSearch(dag, A, B).value.ancestor
      ensures r.Ok? ==> (r.value.length == -1 <==> r.value.ancestor <= -1)
      ensures r.Ok? && r.value.length != -1 ==> Ancestral(dag, A, B, r.value.ancestor, r.value.length)
    {
      var m := new MultiBfs(dag);
      var thrown := m.Bfs(A, B);
      if thrown.Some? {
        return Err(thrown.value);
      }
      m.FollowPath();
      if m.ancestor > -1 {
        var p := TreeWalk(dag, A, m.aDepth.Keys, m.aPath, m.aDepth, m.ancestor);
        var q := TreeWalk(dag, B, m.bDepth.Keys, m.bPath, m.bDepth, m.ancestor);
        assert Walk(dag, p) && Walk(dag, q);
      }
      r := Ok(m);
    }
  }

  /** `SAP`: the graph, which the constructor has checked to be acyclic. */
  class Sap {
    const dag: Digraph

    ghost predicate Valid() {
      WellFormed(dag) && Acyclic(dag)
    }

    constructor (G: Digraph)
      requires WellFormed(G) && Acyclic(G)
      ensures dag == G && Valid()
    {
      dag := G;
    }

    /**
     * `new SAP(G)`: a missing graph and a graph with a cycle are rejected
     * with the exception `ErrorOnCycle` raised; the copy taken is the same
     * graph.
     */
    static method Make(G: Option<Digraph>) returns (r: Result<Sap>)
      requires G.Some? ==> WellFormed(G.value)
      ensures G.None? ==> r == Err(IllegalArgument)
      ensures G.Some? ==> (r.Err? <==> !Acyclic(G.value))
      ensures G.Some? && r.Err? ==> Some(r.error) == CycleCheck(G.value, 0)
      ensures r.Ok? ==> fresh(r.value) && r.value.dag == G.value && r.value.Valid()
    {
      if G.None? {
        return Err(IllegalArgument);
      }
      var thrown := ErrorOnCycle(G.value);
      if thrown.Some? {
        return Err(thrown.value);
      }
      var s := new Sap(G.value);
      r := Ok(s);
    }

    /** `length(v, w)` for vertex lists: -1 when no ancestor is found, else the length of an ancestral path. */
    method LengthAll(A: seq<int>, B: seq<int>) returns (r: Result<int>)
      requires Valid()
      ensures r.Err? <==> SapSearch(dag, A, B).Err?
      ensures r.Ok? ==> (r.value == -1 <==> SapSearch(dag, A, B).value.ancestor <= -1)
      ensures r.Ok? && r.value != -1 ==> r.value >= 0 && Ancestral(dag, A, B, SapSearch(dag, A, B).value.ancestor, r.value)
    {
      var m := MultiBfs.Run(dag, A, B);
      if m.Err? {
        return Err(m.error);
      }
      r := Ok(m.value.length);
    }

    /** `ancestor(v, w)` for vertex lists: the vertex where the two searches met, -1 when they did not. */
    method AncestorAll(A: seq<int>, B: seq<int>) returns (r: Result<int>)
      requires Valid()
      ensures r.Err? <==> SapSearch(dag, A, B).Err?
      ensures r.Ok? ==> r.value == SapSearch(dag, A, B).value.ancestor
    {
      var m := MultiBfs.Run(dag, A, B);
      if m.Err? {
        return Err(m.error);
      }
      r := Ok(m.value.ancestor);
    }

    /** `length(v, w)`: the list version on `[v]` and `[w]`. */
    method Length(v: int, w: int) returns (r: Result<int>)
      requires Valid()
      ensures r.Err? <==> SapSearch(dag, [v], [w]).Err?
      ensures r.Ok? ==> (r.value == -1 <==> SapSearch(dag, [v], [w]).value.ancestor <= -1)
      ensures r.Ok? && r.value != -1 ==> r.value >= 0 && Ancestral(dag, [v], [w], SapSearch(dag, [v], [w]).value.ancestor, r.value)
    {
      r := LengthAll([v], [w]);
    }

    /** `ancestor(v, w)`: the list version on `[v]` and `[w]`. */
    method Ancestor(v: int, w: int) returns (r: Result<int>)
      requires Valid()
      ensures r.Err? <==> SapSearch(dag, [v], [w]).Err?
      ensures r.Ok? ==> r.value == SapSearch(dag, [v], [w]).value.ancestor
    {
      r := AncestorAll([v], [w]);
    }
  }
}
