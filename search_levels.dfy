/**
 * One level of the breadth-first searches of `SAP`, `MultiBFS` and `BFS`:
 * the vertices queued when the level starts are popped in order, and each
 * neighbour of a popped vertex that the side has not seen yet is enqueued,
 * marked seen and recorded in `path` as discovered from the popped vertex.
 * The searches that look for a meeting point stop at the first discovered
 * vertex the other side has already seen.
 */
module SearchLevels {
  import opened Digraphs

  /** One side of a search: its FIFO queue, the vertices it has seen, and each discovered vertex's discoverer. */
  datatype Side = Side(q: seq<int>, seen: set<int>, path: map<int, int>)

  /**
   * How (part of) a level ends: it ran through, it met a vertex the other
   * side has seen (the side as it was right then, and the vertex), or
   * `Digraph.adj` threw IllegalArgumentException on a popped vertex outside
   * the graph.
   */
  datatype Outcome = Through(s: Side) | Met(s: Side, v: int) | Thrown

  /** `seen.add(w)` succeeded: `w` is appended to the queue and its discoverer `cur` recorded. */
  function Discover(s: Side, cur: int, w: int): Side {
    Side(s.q + [w], s.seen + {w}, s.path[w := cur])
  }

  /** The values of a sequence, as a set. */
  function Elems(s: seq<int>): set<int> {
    set x | x in s
  }

  /**
   * The loop over `adj(cur)`: the neighbours `ws` not seen yet are
   * discovered in order; the first of them the other side has seen ends it.
   */
  function Visit(G: Digraph, cur: int, ws: seq<nat>, s: Side, other: set<int>): (r: Outcome)
    requires forall k :: 0 <= k < |ws| ==> ws[k] < |G|
    ensures !r.Thrown? && s.seen <= r.s.seen
    ensures forall v :: v in r.s.seen && v !in s.seen ==> 0 <= v < |G|
    ensures |s.q| <= |r.s.q| && r.s.q[..|s.q|] == s.q
    ensures r.Through? && r.s.seen == s.seen ==> r.s.q == s.q
    ensures r.Met? ==> r.v in other && r.v in r.s.seen && r.v !in s.seen
    ensures s.path.Keys <= s.seen ==> r.s.path.Keys <= r.s.seen
    decreases |ws|
  {
    if ws == [] then Through(s)
    else if ws[0] in s.seen then Visit(G, cur, ws[1..], s, other)
    else if ws[0] in other then Met(Discover(s, cur, ws[0]), ws[0])
    else Visit(G, cur, ws[1..], Discover(s, cur, ws[0]), other)
  }

  /**
   * `n` pops of a level: each popped vertex's neighbours are visited, until
   * a meeting ends the level early or `adj` throws on a popped vertex.
   */
  function Expand(G: Digraph, n: nat, s: Side, other: set<int>): (r: Outcome)
    requires WellFormed(G) && n <= |s.q|
    ensures !r.Thrown? ==> s.seen <= r.s.seen
    ensures !r.Thrown? ==> forall v :: v in r.s.seen && v !in s.seen ==> 0 <= v < |G|
    ensures r.Through? && r.s.seen == s.seen ==> r.s.q == s.q[n..]
    ensures r.Met? ==> r.v in other && r.v in r.s.seen && r.v !in s.seen
    ensures (forall i :: 0 <= i < n ==> 0 <= s.q[i] < |G|) ==> !r.Thrown?
    ensures !r.Thrown? && s.path.Keys <= s.seen ==> r.s.path.Keys <= r.s.seen
    decreases n
  {
    if n == 0 then Through(s)
    else
      var cur := s.q[0];
      if cur < 0 || cur >= |G| then Thrown
      else
        var v := Visit(G, cur, G[cur], s.(q := s.q[1..]), other);
        if v.Through? then Expand(G, n - 1, v.s, other) else v
  }

  /** A whole level: every vertex queued when it starts is popped. */
  function Level(G: Digraph, s: Side, other: set<int>): (r: Outcome)
    requires WellFormed(G)
  {
    Expand(G, |s.q|, s, other)
  }

  /**
   * `t` is `s` after some vertices were discovered: its queue is `rest`
   * followed by `added`, the discovered vertices, each new to `s`, each
   * once; they are now seen and have a discoverer, and no earlier
   * discoverer changed.
   */
  ghost predicate Grows(s: Side, t: Side, rest: seq<int>, added: seq<int>) {
    t.q == rest + added
    && Distinct(added)
    && (forall i :: 0 <= i < |added| ==> added[i] !in s.seen)
    && t.seen == s.seen + Elems(added)
    && t.path.Keys == s.path.Keys + Elems(added)
    && (forall v :: v in s.path ==> t.path[v] == s.path[v])
  }

  /** Two rounds of discovery, the second starting from the first's queue less `j` pops, are one. */
  lemma GrowsTrans(s: Side, t: Side, u: Side, rest: seq<int>, j: nat, f1: seq<int>, f2: seq<int>)
    requires Grows(s, t, rest, f1) && j <= |rest| && Grows(t, u, t.q[j..], f2)
    requires s.path.Keys <= s.seen
    ensures Grows(s, u, rest[j..], f1 + f2)
  {
    assert t.q[j..] == rest[j..] + f1;
    assert u.q == rest[j..] + (f1 + f2);
    var f := f1 + f2;
    forall a, b | 0 <= a < b < |f|
      ensures f[a] != f[b]
    {
      if b < |f1| {
        assert f[a] == f1[a] && f[b] == f1[b];
      } else if a >= |f1| {
        assert f[a] == f2[a - |f1|] && f[b] == f2[b - |f1|];
      } else {
        assert f[a] == f1[a] && f1[a] in t.seen;
        assert f[b] == f2[b - |f1|];
      }
    }
    forall i | 0 <= i < |f|
      ensures f[i] !in s.seen
    {
      if i < |f1| {
        assert f[i] == f1[i];
      } else {
        assert f[i] == f2[i - |f1|];
      }
    }
    assert Elems(f) == Elems(f1) + Elems(f2) by {
      forall x | x in Elems(f) ensures x in Elems(f1) + Elems(f2) {
        var i :| 0 <= i < |f| && f[i] == x;
        if i >= |f1| { assert f2[i - |f1|] == x; }
      }
      forall x | x in Elems(f1) ensures x in Elems(f) {
        var i :| 0 <= i < |f1| && f1[i] == x;
        assert f[i] == x;
      }
      forall x | x in Elems(f2) ensures x in Elems(f) {
        var i :| 0 <= i < |f2| && f2[i] == x;
        assert f[i + |f1|] == x;
      }
    }
  }

  /**
   * The loop over `adj(cur)` enqueues exactly the neighbours it discovers,
   * each once, and records `cur` as their discoverer; when it runs through,
   * every neighbour in `ws` has been seen.
   */
  lemma {:induction false} VisitGrows(G: Digraph, cur: int, ws: seq<nat>, s: Side, other: set<int>) returns (added: seq<int>)
    requires forall k :: 0 <= k < |ws| ==> ws[k] < |G|
    requires s.path.Keys <= s.seen
    ensures Grows(s, Visit(G, cur, ws, s, other).s, s.q, added)
    ensures forall i :: 0 <= i < |added| ==> Visit(G, cur, ws, s, other).s.path[added[i]] == cur
    ensures forall i :: 0 <= i < |added| ==> added[i] in ws
    ensures Visit(G, cur, ws, s, other).Through? ==> forall k :: 0 <= k < |ws| ==> ws[k] in Visit(G, cur, ws, s, other).s.seen
    ensures Visit(G, cur, ws, s, other).Through? ==> forall i :: 0 <= i < |added| ==> added[i] !in other
    decreases |ws|, 1
  {
    if ws == [] {
      added := [];
      assert Elems(added) == {};
      assert Visit(G, cur, ws, s, other).s == s;
    } else if ws[0] in s.seen {
      var r := Visit(G, cur, ws, s, other);
      assert r == Visit(G, cur, ws[1..], s, other);
      added := VisitGrows(G, cur, ws[1..], s, other);
      if r.Through? {
        SkipSeen(ws, r.s.seen, s.seen);
      }
    } else {
      added := VisitGrowsDiscover(G, cur, ws, s, other);
    }
  }

  /** `VisitGrows` when the first neighbour is new. */
  lemma {:induction false} VisitGrowsDiscover(G: Digraph, cur: int, ws: seq<nat>, s: Side, other: set<int>) returns (added: seq<int>)
    requires forall k :: 0 <= k < |ws| ==> ws[k] < |G|
    requires s.path.Keys <= s.seen && ws != [] && ws[0] !in s.seen
    ensures Grows(s, Visit(G, cur, ws, s, other).s, s.q, added)
    ensures forall i :: 0 <= i < |added| ==> Visit(G, cur, ws, s, other).s.path[added[i]] == cur
    ensures forall i :: 0 <= i < |added| ==> added[i] in ws
    ensures Visit(G, cur, ws, s, other).Through? ==> forall k :: 0 <= k < |ws| ==> ws[k] in Visit(G, cur, ws, s, other).s.seen
    ensures Visit(G, cur, ws, s, other).Through? ==> forall i :: 0 <= i < |added| ==> added[i] !in other
    decreases |ws|, 0
  {
    var r := Visit(G, cur, ws, s, other);
    var w := ws[0];
    var d := Discover(s, cur, w);
    DiscoverGrows(s, cur, w);
    if w in other {
      assert r == Met(d, w);
      added := [w];
    } else {
      assert r == Visit(G, cur, ws[1..], d, other);
      var f2 := VisitGrows(G, cur, ws[1..], d, other);
      added := DiscoverRest(s, d, r.s, r.Through?, cur, ws, other, f2);
    }
  }

  /** `VisitGrowsDiscover` once the rest of the loop, from the side `d` that discovered `ws[0]`, is known to discover `f2` and end in `t`. */
  lemma DiscoverRest(s: Side, d: Side, t: Side, through: bool, cur: int, ws: seq<nat>, other: set<int>, f2: seq<int>) returns (added: seq<int>)
    requires s.path.Keys <= s.seen && ws != [] && ws[0] !in s.seen && ws[0] !in other
    requires d == Discover(s, cur, ws[0]) && Grows(d, t, d.q, f2)
    requires forall i :: 0 <= i < |f2| ==> t.path[f2[i]] == cur && f2[i] in ws[1..]
    requires through ==> forall k :: 0 <= k < |ws[1..]| ==> ws[1..][k] in t.seen
    requires through ==> forall i :: 0 <= i < |f2| ==> f2[i] !in other
    ensures Grows(s, t, s.q, added)
    ensures forall i :: 0 <= i < |added| ==> t.path[added[i]] == cur && added[i] in ws
    ensures through ==> forall k :: 0 <= k < |ws| ==> ws[k] in t.seen
    ensures through ==> forall i :: 0 <= i < |added| ==> added[i] !in other
  {
    DiscoverGrows(s, cur, ws[0]);
    added := GrowsAfterDiscover(s, d, t, ws[0], f2);
    forall i | 0 <= i < |added|
      ensures added[i] in ws && t.path[added[i]] == cur
      ensures through ==> added[i] !in other
    {
      if i > 0 { assert added[i] == f2[i - 1]; }
    }
    if through {
      SkipSeen(ws, t.seen, d.seen);
    }
  }

  /** The first neighbour, when already seen, stays seen; the rest are the recursive call's. */
  lemma SkipSeen(ws: seq<nat>, after: set<int>, before: set<int>)
    requires |ws| > 0 && ws[0] in before && before <= after
    requires forall k :: 0 <= k < |ws[1..]| ==> ws[1..][k] in after
    ensures forall k :: 0 <= k < |ws| ==> ws[k] in after
  {
    forall k | 0 < k < |ws|
      ensures ws[k] in after
    {
      assert ws[k] == ws[1..][k - 1];
    }
  }

  /** Discovering one new vertex is a growth by that vertex. */
  lemma DiscoverGrows(s: Side, cur: int, w: int)
    requires w !in s.seen && s.path.Keys <= s.seen
    ensures Grows(s, Discover(s, cur, w), s.q, [w])
    ensures Discover(s, cur, w).path[w] == cur
  {
    assert Elems([w]) == {w};
  }

  /** A discovery followed by the rest of the loop is one growth. */
  lemma GrowsAfterDiscover(s: Side, d: Side, t: Side, w: int, f2: seq<int>) returns (added: seq<int>)
    requires s.path.Keys <= s.seen
    requires Grows(s, d, s.q, [w]) && Grows(d, t, d.q, f2)
    ensures added == [w] + f2 && Grows(s, t, s.q, added)
  {
    assert s.q[0..] == s.q && d.q[0..] == d.q;
    GrowsTrans(s, d, t, s.q, 0, [w], f2);
    added := [w] + f2;
  }

  /**
   * A level that runs through pops exactly the `n` vertices queued first:
   * the queue left is the rest of the old one followed by the discovered
   * vertices, each once; and every neighbour of a popped vertex has been seen.
   */
  lemma {:induction false} ExpandGrows(G: Digraph, n: nat, s: Side, other: set<int>) returns (added: seq<int>)
    requires WellFormed(G) && n <= |s.q| && s.path.Keys <= s.seen
    requires Expand(G, n, s, other).Through?
    ensures Grows(s, Expand(G, n, s, other).s, s.q[n..], added)
    ensures forall i :: 0 <= i < n ==> 0 <= s.q[i] < |G|
    ensures forall i, k :: 0 <= i < n && 0 <= s.q[i] < |G| && 0 <= k < |G[s.q[i]]| ==> G[s.q[i]][k] in Expand(G, n, s, other).s.seen
    ensures forall i :: 0 <= i < |added| ==> added[i] !in other
    decreases n
  {
    if n == 0 {
      added := [];
      assert Elems(added) == {};
      assert s.q[0..] == s.q && Expand(G, n, s, other).s == s;
    } else {
      var v := Visit(G, s.q[0], G[s.q[0]], s.(q := s.q[1..]), other);
      assert v.Through? && Expand(G, n, s, other) == Expand(G, n - 1, v.s, other);
      var f2 := ExpandGrows(G, n - 1, v.s, other);
      added := PopExpand(G, n, s, other, Expand(G, n - 1, v.s, other).s, f2);
    }
  }

  /** `ExpandGrows` for the head pop, given what the remaining `n - 1` pops discover. */
  lemma PopExpand(G: Digraph, n: nat, s: Side, other: set<int>, t: Side, f2: seq<int>) returns (added: seq<int>)
    requires WellFormed(G) && 0 < n <= |s.q| && s.path.Keys <= s.seen && 0 <= s.q[0] < |G|
    requires Visit(G, s.q[0], G[s.q[0]], s.(q := s.q[1..]), other).Through?
    requires var vs := Visit(G, s.q[0], G[s.q[0]], s.(q := s.q[1..]), other).s;
      n - 1 <= |vs.q| && Grows(vs, t, vs.q[n - 1..], f2)
      && (forall i :: 0 <= i < n - 1 ==> 0 <= vs.q[i] < |G|)
      && (forall i, k :: 0 <= i < n - 1 && 0 <= vs.q[i] < |G| && 0 <= k < |G[vs.q[i]]| ==> G[vs.q[i]][k] in t.seen)
      && (forall i :: 0 <= i < |f2| ==> f2[i] !in other)
    ensures Grows(s, t, s.q[n..], added)
    ensures forall i :: 0 <= i < n ==> 0 <= s.q[i] < |G|
    ensures forall i, k :: 0 <= i < n && 0 <= s.q[i] < |G| && 0 <= k < |G[s.q[i]]| ==> G[s.q[i]][k] in t.seen
    ensures forall i :: 0 <= i < |added| ==> added[i] !in other
  {
    var cur := s.q[0];
    var s1 := s.(q := s.q[1..]);
    var vs := Visit(G, cur, G[cur], s1, other).s;
    var f1 := VisitGrows(G, cur, G[cur], s1, other);
    added := PopGrows(s, s1, vs, t, n, f1, f2, other);
    PopComplete(G, n, s, vs, t);
  }

  /** Popping the head, discovering `f1`, then `n - 1` more pops discovering `f2`, is `n` pops discovering both. */
  lemma PopGrows(s: Side, s1: Side, vs: Side, t: Side, n: nat, f1: seq<int>, f2: seq<int>, other: set<int>) returns (added: seq<int>)
    requires 0 < n <= |s.q| && s.path.Keys <= s.seen && s1 == s.(q := s.q[1..])
    requires Grows(s1, vs, s1.q, f1) && Grows(vs, t, vs.q[n - 1..], f2)
    requires forall i :: 0 <= i < |f1| ==> f1[i] !in other
    requires forall i :: 0 <= i < |f2| ==> f2[i] !in other
    ensures added == f1 + f2 && Grows(s, t, s.q[n..], added)
    ensures forall i :: 0 <= i < |added| ==> added[i] !in other
  {
    assert Grows(s, vs, s.q[1..], f1);
    GrowsTrans(s, vs, t, s.q[1..], n - 1, f1, f2);
    assert s.q[1..][n - 1..] == s.q[n..];
    added := f1 + f2;
    forall i | 0 <= i < |added|
      ensures added[i] !in other
    {
      if i >= |f1| { assert added[i] == f2[i - |f1|]; }
    }
  }

  /** Every neighbour of the `n` popped vertices is seen once the pops are done. */
  lemma PopComplete(G: Digraph, n: nat, s: Side, vs: Side, t: Side)
    requires 0 < n <= |s.q| && 0 <= s.q[0] < |G|
    requires |s.q| - 1 <= |vs.q| && vs.q[..|s.q| - 1] == s.q[1..] && vs.seen <= t.seen
    requires forall k :: 0 <= k < |G[s.q[0]]| ==> G[s.q[0]][k] in vs.seen
    requires forall i, k :: 0 <= i < n - 1 && 0 <= vs.q[i] < |G| && 0 <= k < |G[vs.q[i]]| ==> G[vs.q[i]][k] in t.seen
    requires forall i :: 0 <= i < n - 1 ==> 0 <= vs.q[i] < |G|
    ensures forall i, k :: 0 <= i < n && 0 <= s.q[i] < |G| && 0 <= k < |G[s.q[i]]| ==> G[s.q[i]][k] in t.seen
    ensures forall i :: 0 <= i < n ==> 0 <= s.q[i] < |G|
  {
    forall i | 0 < i < n
      ensures s.q[i] == vs.q[i - 1]
    {
      assert s.q[i] == s.q[1..][i - 1];
    }
    forall i, k | 0 <= i < n && 0 <= s.q[i] < |G| && 0 <= k < |G[s.q[i]]|
      ensures G[s.q[i]][k] in t.seen
    {
      if i > 0 {
        assert s.q[i] == s.q[1..][i - 1] == vs.q[i - 1];
      }
    }
  }

  /**
   * The shape a search side keeps: its search tree (`Tree`), with every
   * queued vertex already seen.
   */
  ghost predicate Searched(G: Digraph, starts: seq<int>, s: Side, depth: map<int, nat>) {
    Tree(G, starts, s.seen, s.path, depth) && forall i :: 0 <= i < |s.q| ==> s.q[i] in s.seen
  }

  /** Discovering neighbours of a seen vertex keeps the tree shape; the depths already recorded stay. */
  lemma {:induction false} VisitSearched(G: Digraph, cur: int, ws: seq<nat>, s: Side, other: set<int>,
                                         starts: seq<int>, depth: map<int, nat>) returns (depth': map<int, nat>)
    requires forall k :: 0 <= k < |ws| ==> ws[k] < |G| && Edge(G, cur, ws[k])
    requires cur in s.seen && Searched(G, starts, s, depth)
    ensures Searched(G, starts, Visit(G, cur, ws, s, other).s, depth')
    ensures forall v :: v in depth ==> v in depth' && depth'[v] == depth[v]
    decreases |ws|
  {
    if ws == [] {
      depth' := depth;
    } else if ws[0] in s.seen {
      depth' := VisitSearched(G, cur, ws[1..], s, other, starts, depth);
    } else {
      var w := ws[0];
      var d := Discover(s, cur, w);
      var dd := depth[w := depth[cur] + 1];
      assert Searched(G, starts, d, dd) by {
        forall i | 0 <= i < |d.q|
          ensures d.q[i] in d.seen
        {
          if i < |s.q| { assert d.q[i] == s.q[i]; }
        }
      }
      if w in other {
        depth' := dd;
      } else {
        depth' := VisitSearched(G, cur, ws[1..], d, other, starts, dd);
      }
    }
  }

  /** A level, or the part of it before a meeting, keeps the tree shape. */
  lemma {:induction false} ExpandSearched(G: Digraph, n: nat, s: Side, other: set<int>,
                                          starts: seq<int>, depth: map<int, nat>) returns (depth': map<int, nat>)
    requires WellFormed(G) && n <= |s.q| && Searched(G, starts, s, depth)
    requires !Expand(G, n, s, other).Thrown?
    ensures Searched(G, starts, Expand(G, n, s, other).s, depth')
    ensures forall v :: v in depth ==> v in depth' && depth'[v] == depth[v]
    decreases n
  {
    if n == 0 {
      depth' := depth;
    } else {
      var cur := s.q[0];
      var s1 := s.(q := s.q[1..]);
      assert Searched(G, starts, s1, depth) by {
        forall i | 0 <= i < |s1.q| ensures s1.q[i] in s1.seen {
          assert s1.q[i] == s.q[i + 1];
        }
      }
      assert cur in s1.seen;
      forall k | 0 <= k < |G[cur]|
        ensures G[cur][k] < |G| && Edge(G, cur, G[cur][k])
      {
      }
      var d1 := VisitSearched(G, cur, G[cur], s1, other, starts, depth);
      var v := Visit(G, cur, G[cur], s1, other);
      if v.Through? {
        depth' := ExpandSearched(G, n - 1, v.s, other, starts, d1);
      } else {
        depth' := d1;
      }
    }
  }

  /**
   * Every seen vertex that has left the queue has been expanded: it is a
   * vertex of the graph and all its neighbours are seen.
   */
  ghost predicate Expanded(G: Digraph, s: Side) {
    forall v :: v in s.seen && v !in s.q ==> 0 <= v < |G| && forall k :: 0 <= k < |G[v]| ==> G[v][k] in s.seen
  }

  /** No edge leaves `seen`. */
  ghost predicate Closed(G: Digraph, seen: set<int>) {
    forall v :: v in seen ==> 0 <= v < |G| && forall k :: 0 <= k < |G[v]| ==> G[v][k] in seen
  }

  /** A whole level that runs through leaves every seen vertex outside the new queue expanded. */
  lemma LevelExpanded(G: Digraph, s: Side, other: set<int>)
    requires WellFormed(G) && s.path.Keys <= s.seen && Expanded(G, s)
    requires Level(G, s, other).Through?
    ensures Expanded(G, Level(G, s, other).s)
  {
    var t := Level(G, s, other).s;
    var added := ExpandGrows(G, |s.q|, s, other);
    assert s.q[|s.q|..] == [];
    forall v | v in t.seen && v !in t.q
      ensures 0 <= v < |G| && forall k :: 0 <= k < |G[v]| ==> G[v][k] in t.seen
    {
      assert v !in Elems(added);
      if v in s.q {
        var i :| 0 <= i < |s.q| && s.q[i] == v;
      }
    }
  }

  /** With both queues empty, an expanded side is closed. */
  lemma DrainedClosed(G: Digraph, s: Side)
    requires Expanded(G, s) && s.q == []
    ensures Closed(G, s.seen)
  {
  }

  /** A closed set holding the start vertices holds every vertex reachable from them. */
  lemma {:induction false} ClosedReach(G: Digraph, seen: set<int>, starts: seq<int>, p: seq<int>)
    requires Closed(G, seen) && Elems(starts) <= seen && Walk(G, p) && p[0] in starts
    ensures p[|p| - 1] in seen
    decreases |p|
  {
    if |p| > 1 {
      var q := p[..|p| - 1];
      assert Walk(G, q) by {
        forall i | 0 <= i < |q| - 1 ensures Edge(G, q[i], q[i + 1]) {
          assert q[i] == p[i] && q[i + 1] == p[i + 1];
        }
      }
      ClosedReach(G, seen, starts, q);
      var u := p[|p| - 2];
      assert Edge(G, u, p[|p| - 1]);
      var k :| 0 <= k < |G[u]| && G[u][k] == p[|p| - 1];
    } else {
      assert p[0] in Elems(starts);
    }
  }

  /**
   * The loop over `adj(cur)` (SAP.java:126-137, MultiBFS.java:25-34):
   * `seen.add(nbr)` succeeding enqueues `nbr` and records `cur` as its
   * discoverer; a discovered vertex the other side has seen ends the level.
   */
  method VisitAdj(G: Digraph, cur: int, s: Side, other: set<int>) returns (r: Outcome)
    requires WellFormed(G) && 0 <= cur < |G|
    ensures r == Visit(G, cur, G[cur], s, other)
  {
    var ws := G[cur];
    var t := s;
    for k := 0 to |ws|
      invariant Visit(G, cur, ws[k..], t, other) == Visit(G, cur, ws, s, other)
    {
      var nbr := ws[k];
      assert ws[k..][0] == nbr && ws[k..][1..] == ws[k + 1..];
      if nbr !in t.seen {
        t := Discover(t, cur, nbr);
        if nbr in other {
          return Met(t, nbr);
        }
      }
    }
    assert ws[|ws|..] == [];
    return Through(t);
  }

  /**
   * One level (SAP.java:123-138, MultiBFS.java:22-35): `size` is the queue
   * length when the level starts, and that many vertices are popped and
   * expanded. `adj` throws for a popped vertex outside the graph.
   */
  method PopLevel(G: Digraph, s: Side, other: set<int>) returns (r: Outcome)
    requires WellFormed(G)
    ensures r == Level(G, s, other)
  {
    var size := |s.q|;
    var t := s;
    for i := 0 to size
      invariant size - i <= |t.q|
      invariant Expand(G, size - i, t, other) == Level(G, s, other)
    {
      var cur := t.q[0];
      if cur < 0 || cur >= |G| {
        return Thrown;
      }
      var v := VisitAdj(G, cur, t.(q := t.q[1..]), other);
      if v.Met? {
        return v;
      }
      t := v.s;
    }
    return Through(t);
  }
}
