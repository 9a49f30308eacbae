/**
 * `BFS` (BFS.java): one side of a multi-source breadth-first search that
 * another side can be linked to. The `HashSet`s are objects (`VertexSet`)
 * because `sync` makes each side hold a reference to the other's `seen`,
 * and the `ancestors` set is shared with whoever created the search.
 *
 * Unlike `bfsWorker` of `MultiBFS`, `step` does not stop at a meeting: it
 * expands the whole level and adds every newly discovered vertex the other
 * side has seen to `ancestors`. `StepIsLevel` states that it discovers
 * exactly what a level of the two-sided search that never meets does.
 */
module BreadthFirst {
  import opened Common
  import opened Digraphs
  import opened SearchLevels
  import opened MultiBfses

  /** A `HashSet<Integer>` that several objects may refer to. */
  class VertexSet {
    var elems: set<int>

    constructor ()
      ensures elems == {}
    {
      elems := {};
    }
  }

  /** What `otherSeen` refers to when `step` runs: nothing, another side's set, or this side's own `seen`. */
  datatype Other = Missing | Set(o: set<int>) | Own

  /** `otherSeen.contains(w)` just after `seen.add(w)`: null throws, the own set holds `w` by now. */
  function Contains(other: Other, w: int): (r: Result<bool>)
    ensures r.Err? <==> other.Missing?
    ensures r.Err? ==> r.error == NullPointer
    ensures r.Ok? ==> (r.value <==> other.Own? || (other.Set? && w in other.o))
  {
    match other
    case Missing => Err(NullPointer)
    case Set(o) => Ok(w in o)
    case Own => Ok(true)
  }

  /** The side after some pops, with the vertices added to `ancestors` so far. */
  datatype Stepped = Stepped(s: Side, found: set<int>)

  /**
   * The loop over `adj(cur)` in `step`: each neighbour not seen yet is
   * discovered, and added to `found` when the other side has seen it.
   */
  function StepVisit(G: Digraph, cur: int, ws: seq<nat>, t: Stepped, other: Other): (r: Result<Stepped>)
    ensures r.Ok? ==> |t.s.q| <= |r.value.s.q|
    decreases |ws|
  {
    if ws == [] then Ok(t)
    else if ws[0] in t.s.seen then StepVisit(G, cur, ws[1..], t, other)
    else
      match Contains(other, ws[0])
      case Err(e) => Err(e)
      case Ok(hit) =>
        StepVisit(G, cur, ws[1..], Stepped(Discover(t.s, cur, ws[0]), if hit then t.found + {ws[0]} else t.found), other)
  }

  /** `n` pops of `step`; `adj` throws IllegalArgumentException for a popped vertex outside the graph. */
  function StepPop(G: Digraph, n: nat, t: Stepped, other: Other): Result<Stepped>
    requires WellFormed(G) && n <= |t.s.q|
    decreases n
  {
    if n == 0 then Ok(t)
    else
      var cur := t.s.q[0];
      if cur < 0 || cur >= |G| then Err(IllegalArgument)
      else
        match StepVisit(G, cur, G[cur], t.(s := t.s.(q := t.s.q[1..])), other)
        case Err(e) => Err(e)
        case Ok(t') => StepPop(G, n - 1, t', other)
  }

  /** The newly seen vertices that `step` adds to `ancestors`. */
  function Hits(added: set<int>, other: Other): set<int> {
    match other
    case Missing => {}
    case Set(o) => added * o
    case Own => added
  }

  /** The hits among two batches of discoveries are the hits of each. */
  lemma HitsUnion(x: set<int>, y: set<int>, other: Other)
    ensures Hits(x + y, other) == Hits(x, other) + Hits(y, other)
  {
  }

  /**
   * Visiting neighbours in `step` discovers what `Visit` discovers when the
   * other side has seen nothing; the found vertices are those of them the
   * other side has seen. With no other side, the first discovery throws.
   */
  lemma {:induction false} VisitStep(G: Digraph, cur: int, ws: seq<nat>, s: Side, found: set<int>, other: Other)
    requires forall k :: 0 <= k < |ws| ==> ws[k] < |G|
    ensures var e := Visit(G, cur, ws, s, {}); var r := StepVisit(G, cur, ws, Stepped(s, found), other);
      e.Through?
      && (other.Missing? && e.s.seen != s.seen ==> r == Err(NullPointer))
      && (!(other.Missing? && e.s.seen != s.seen) ==> r == Ok(Stepped(e.s, found + Hits(e.s.seen - s.seen, other))))
    decreases |ws|
  {
    if ws == [] {
      assert s.seen - s.seen == {} && Hits({}, other) == {} && found + {} == found;
      return;
    }
    if ws[0] in s.seen {
      VisitStep(G, cur, ws[1..], s, found, other);
      return;
    }
    var w := ws[0];
    var d := Discover(s, cur, w);
    var e := Visit(G, cur, ws[1..], d, {});
    assert Visit(G, cur, ws, s, {}) == e;
    assert w in e.s.seen;
    if other.Missing? {
      return;
    }
    var found' := found + Hits({w}, other);
    assert (if Contains(other, w).value then found + {w} else found) == found';
    assert StepVisit(G, cur, ws, Stepped(s, found), other) == StepVisit(G, cur, ws[1..], Stepped(d, found'), other);
    VisitStep(G, cur, ws[1..], d, found', other);
    assert e.s.seen - s.seen == {w} + (e.s.seen - d.seen);
    HitsUnion({w}, e.s.seen - d.seen, other);
    assert StepVisit(G, cur, ws[1..], Stepped(d, found'), other) == Ok(Stepped(e.s, found' + Hits(e.s.seen - d.seen, other)));
    assert found' + Hits(e.s.seen - d.seen, other) == found + Hits(e.s.seen - s.seen, other);
  }

  /**
   * Popping `n` vertices in `step` discovers what `Expand` does for a
   * side that meets nothing; it throws when `Expand` throws, and on the
   * first discovery when there is no other side.
   */
  lemma {:induction false} PopStep(G: Digraph, n: nat, s: Side, found: set<int>, other: Other)
    requires WellFormed(G) && n <= |s.q|
    ensures var e := Expand(G, n, s, {}); var r := StepPop(G, n, Stepped(s, found), other);
      !e.Met?
      && (e.Thrown? ==> r.Err?)
      && (e.Through? && other.Missing? && e.s.seen != s.seen ==> r == Err(NullPointer))
      && (e.Through? && !(other.Missing? && e.s.seen != s.seen) ==> r == Ok(Stepped(e.s, found + Hits(e.s.seen - s.seen, other))))
    decreases n
  {
    if n == 0 {
      assert s.seen - s.seen == {} && Hits({}, other) == {} && found + {} == found;
      return;
    }
    var cur := s.q[0];
    if cur < 0 || cur >= |G| {
      return;
    }
    var v := Visit(G, cur, G[cur], s.(q := s.q[1..]), {});
    PopHead(G, n, s, found, other);
    if other.Missing? && v.s.seen != s.seen {
      return;
    }
    var found' := found + Hits(v.s.seen - s.seen, other);
    PopStep(G, n - 1, v.s, found', other);
    var e := Expand(G, n - 1, v.s, {});
    if e.Through? {
      HitsStep(found, s.seen, v.s.seen, e.s.seen, other);
    }
  }

  /** The first pop of `PopStep`: `step` visits the head's neighbours as `Visit` does, then goes on with the rest. */
  lemma PopHead(G: Digraph, n: nat, s: Side, found: set<int>, other: Other)
    requires WellFormed(G) && 0 < n <= |s.q| && 0 <= s.q[0] < |G|
    ensures var v := Visit(G, s.q[0], G[s.q[0]], s.(q := s.q[1..]), {});
      v.Through? && s.seen <= v.s.seen && n - 1 <= |v.s.q|
      && Expand(G, n, s, {}) == Expand(G, n - 1, v.s, {})
      && (other.Missing? && v.s.seen != s.seen ==> StepPop(G, n, Stepped(s, found), other) == Err(NullPointer))
      && (!(other.Missing? && v.s.seen != s.seen) ==>
            StepPop(G, n, Stepped(s, found), other) == StepPop(G, n - 1, Stepped(v.s, found + Hits(v.s.seen - s.seen, other)), other))
  {
    var cur := s.q[0];
    var s1 := s.(q := s.q[1..]);
    forall k | 0 <= k < |G[cur]|
      ensures G[cur][k] < |G|
    {
    }
    VisitStep(G, cur, G[cur], s1, found, other);
  }

  /** The hits of two rounds of discovery, added one after the other, are those of both at once. */
  lemma HitsStep(found: set<int>, s0: set<int>, s1: set<int>, s2: set<int>, other: Other)
    requires s0 <= s1 <= s2
    ensures found + Hits(s1 - s0, other) + Hits(s2 - s1, other) == found + Hits(s2 - s0, other)
  {
    assert s2 - s0 == (s1 - s0) + (s2 - s1);
    HitsUnion(s1 - s0, s2 - s1, other);
  }

  /**
   * `step` as a whole: it never throws where a level would not; when it
   * returns, the side is the one a level that meets nothing leaves, and the
   * vertices added to `ancestors` are the newly seen ones the other side
   * has seen (all of them when the other side's set is this side's own).
   */
  lemma StepIsLevel(G: Digraph, s: Side, found: set<int>, other: Other)
    requires WellFormed(G)
    ensures var e := Level(G, s, {}); var r := StepPop(G, |s.q|, Stepped(s, found), other);
      (r.Ok? <==> e.Through? && (other.Missing? ==> e.s.seen == s.seen))
      && (r.Ok? ==> r.value == Stepped(e.s, found + Hits(e.s.seen - s.seen, other)))
      && (r.Err? && e.Through? ==> r.error == NullPointer)
  {
    PopStep(G, |s.q|, s, found, other);
  }

  /**
   * The first position of `order` holding an element of `s`, or `|order|`
   * when none does: the element `sync`'s loop stops at.
   */
  function FirstHit(order: seq<int>, s: set<int>): (i: nat)
    ensures i <= |order|
    ensures forall j :: 0 <= j < i ==> order[j] !in s
    ensures i < |order| ==> order[i] in s
  {
    if order == [] then 0
    else if order[0] in s then 0
    else 1 + FirstHit(order[1..], s)
  }

  /**
   * `BFS`: the graph, the queue, the discoverer map, its own `seen`, the
   * other side's `seen` once linked, and the shared `ancestors`.
   */
  class Bfs {
    const G: Digraph
    var Q: seq<int>
    const seen: VertexSet
    var otherSeen: VertexSet?
    const ancestors: VertexSet
    var path: map<int, int>

    /** `BFS(G, startNodes, ancestors)`: the start vertices queued and seen in order; not linked yet. */
    constructor (G: Digraph, startNodes: seq<int>, ancestors: VertexSet)
      ensures this.G == G && Q == startNodes && fresh(seen) && seen.elems == Elems(startNodes)
      ensures path == map[] && otherSeen == null && this.ancestors == ancestors
    {
      this.G := G;
      var start := QueueStarts(startNodes);
      var s := new VertexSet();
      s.elems := start.seen;
      seen := s;
      Q := start.q;
      path := map[];
      otherSeen := null;
      this.ancestors := ancestors;
    }

    /** What `otherSeen` refers to. */
    function OtherSet(): Other
      reads this, otherSeen
    {
      if otherSeen == null then Missing
      else if otherSeen == seen then Own
      else Set(otherSeen.elems)
    }

    /**
     * `sync(other)`: link the two sides both ways, then add to
     * `ancestors` the first vertex of this side's `seen`, in the iteration
     * order `order`, that the other side has seen. Both branches of the
     * size comparison pick this side's `seen` to iterate over.
     */
    method Sync(other: Bfs, order: seq<int>)
      requires Elems(order) == seen.elems
      modifies this, other, ancestors
      ensures otherSeen == other.seen && other.otherSeen == seen
      ensures var i := FirstHit(order, old(other.seen.elems));
        ancestors.elems == old(ancestors.elems) + if i < |order| then {order[i]} else {}
      ensures seen.elems == old(seen.elems) && other.seen.elems == old(other.seen.elems)
      ensures Q == old(Q) && path == old(path) && other.Q == old(other.Q) && other.path == old(other.path)
    {
      otherSeen := other.seen;
      other.otherSeen := seen;
      var large: VertexSet, small: VertexSet;
      if |other.seen.elems| > |seen.elems| {
        small := seen;
        large := other.seen;
      } else {
        large := other.seen;
        small := seen;
      }
      for i := 0 to |order|
        invariant forall j :: 0 <= j < i ==> order[j] !in large.elems
        invariant ancestors.elems == old(ancestors.elems)
        invariant otherSeen == other.seen && other.otherSeen == seen
        invariant seen.elems == old(seen.elems) && other.seen.elems == old(other.seen.elems)
        invariant Q == old(Q) && path == old(path) && other.Q == old(other.Q) && other.path == old(other.path)
      {
        if order[i] in large.elems {
          assert order[i] in seen.elems;
          ancestors.elems := ancestors.elems + {order[i]};
          return;
        }
      }
    }

    /**
     * `step()`: pop and expand every vertex queued when it starts; a newly
     * discovered vertex the other side has seen goes into `ancestors`.
     * Returns the new queue size. A vertex outside the graph makes `adj`
     * throw, and a discovery before `sync` dereferences a null `otherSeen`.
     */
    method Step() returns (r: Result<int>)
      requires WellFormed(G) && ancestors != seen
      modifies this, seen, ancestors
      ensures var st := StepPop(G, |old(Q)|, Stepped(Side(old(Q), old(seen.elems), old(path)), old(ancestors.elems)), old(OtherSet()));
        (r.Err? <==> st.Err?) && (r.Err? ==> r.error == st.error)
        && (r.Ok? ==> Q == st.value.s.q && seen.elems == st.value.s.seen && path == st.value.s.path
                      && ancestors.elems == st.value.found && r.value == |Q|)
      ensures otherSeen == old(otherSeen)
    {
      var other := OtherSet();
      var size := |Q|;
      var t := Stepped(Side(Q, seen.elems, path), ancestors.elems);
      ghost var t0 := t;
      for i := 0 to size
        invariant size - i <= |t.s.q|
        invariant StepPop(G, size - i, t, other) == StepPop(G, size, t0, other)
        invariant otherSeen == old(otherSeen)
      {
        var cur := t.s.q[0];
        if cur < 0 || cur >= |G| {
          return Err(IllegalArgument);
        }
        var v := StepAdj(G, cur, t.(s := t.s.(q := t.s.q[1..])), other);
        if v.Err? {
          return Err(v.error);
        }
        t := v.value;
      }
      Q, path := t.s.q, t.s.path;
      seen.elems := t.s.seen;
      ancestors.elems := t.found;
      r := Ok(|Q|);
    }
  }

  /** The loop over `adj(cur)` in `step`. */
  method StepAdj(G: Digraph, cur: int, t: Stepped, other: Other) returns (r: Result<Stepped>)
    requires WellFormed(G) && 0 <= cur < |G|
    ensures r == StepVisit(G, cur, G[cur], t, other)
  {
    var u := t;
    for k := 0 to |G[cur]|
      invariant StepVisit(G, cur, G[cur][k..], u, other) == StepVisit(G, cur, G[cur], t, other)
    {
      var nbr := G[cur][k];
      assert G[cur][k..][1..] == G[cur][k + 1..];
      if nbr !in u.s.seen {
        var hit := Contains(other, nbr);
        if hit.Err? {
          return Err(hit.error);
        }
        u := Stepped(Discover(u.s, cur, nbr), if hit.value then u.found + {nbr} else u.found);
      }
    }
    assert G[cur][|G[cur]|..] == [];
    r := Ok(u);
  }
}
