/**
 * `Percolation`: an n-by-n grid of sites, each open or blocked, with
 * 1-based coordinates. Open sites are joined to their open orthogonal
 * neighbours in a union-find over `n*n + 2` elements: the sites in
 * row-major order, a virtual start `n*n` joined to the top row and a
 * virtual finish `n*n + 1` joined to the bottom row. The system
 * percolates when start and finish are connected.
 */
module Percolations {
  import opened Common

  /** `flatten(row, col)`: the union-find element of a site. */
  function Flatten(n: int, row: int, col: int): int {
    (row - 1) * n + col - 1
  }

  /** The site of element `k`, the inverse of `Flatten`. */
  function Unflatten(n: int, k: int): (int, int)
    requires n > 0
  {
    (k / n + 1, k % n + 1)
  }

  /** `valid(row, col, _)`: both coordinates lie in `1..n`. */
  predicate InGrid(n: int, row: int, col: int) {
    1 <= row <= n && 1 <= col <= n
  }

  /** A multiple of a positive `n` other than `0 * n` is at least `n` away from zero. */
  lemma MulAway(d: int, n: int)
    requires n > 0
    ensures d >= 1 ==> d * n >= n
    ensures d <= -1 ==> d * n <= -n
  {
    if d >= 1 {
      assert d * n == (d - 1) * n + n;
      assert (d - 1) * n >= 0;
    } else if d <= -1 {
      assert d * n == (d + 1) * n - n;
      assert (d + 1) * n <= 0;
    }
  }

  lemma DivUnique(q: int, r: int, n: int)
    requires n > 0 && 0 <= r < n
    ensures (q * n + r) / n == q && (q * n + r) % n == r
  {
    var k := q * n + r;
    var d := k / n - q;
    assert d * n == r - k % n by {
      assert k == (k / n) * n + k % n;
    }
    MulAway(d, n);
  }

  /** `flatten` maps the grid one-to-one onto `0 .. n*n - 1`, and `Unflatten` undoes it. */
  lemma FlattenBijective(n: int, row: int, col: int)
    requires n > 0 && InGrid(n, row, col)
    ensures 0 <= Flatten(n, row, col) < n * n
    ensures Unflatten(n, Flatten(n, row, col)) == (row, col)
  {
    DivUnique(row - 1, col - 1, n);
    assert (row - 1) * n <= (n - 1) * n;
  }

  /** Every element below `n*n` is the element of a site in the grid. */
  lemma FlattenOnto(n: int, k: int)
    requires n > 0 && 0 <= k < n * n
    ensures InGrid(n, Unflatten(n, k).0, Unflatten(n, k).1)
    ensures Flatten(n, Unflatten(n, k).0, Unflatten(n, k).1) == k
  {
    assert k == (k / n) * n + k % n;
    MulMono(k / n, n, n);
  }

  lemma MulMono(a: int, b: int, n: int)
    requires n >= 0
    ensures a >= b ==> a * n >= b * n
  {
    assert a * n - b * n == (a - b) * n;
  }

  /** Elements of two different sites differ, so the virtual elements are distinct from all sites. */
  lemma FlattenInjective(n: int, r1: int, c1: int, r2: int, c2: int)
    requires n > 0 && InGrid(n, r1, c1) && InGrid(n, r2, c2)
    requires Flatten(n, r1, c1) == Flatten(n, r2, c2)
    ensures r1 == r2 && c1 == c2
  {
    FlattenBijective(n, r1, c1);
    FlattenBijective(n, r2, c2);
  }

  /** Two sites one row or one column apart. */
  predicate Adjacent(s: (int, int), t: (int, int)) {
    (s.0 == t.0 && (s.1 == t.1 + 1 || t.1 == s.1 + 1))
    || (s.1 == t.1 && (s.0 == t.0 + 1 || t.0 == s.0 + 1))
  }

  /** The four orthogonal neighbours of a site, in the order `open` visits them. */
  function Neighbors(row: int, col: int): (r: seq<(int, int)>)
    ensures |r| == 4 && forall k :: 0 <= k < 4 ==> Adjacent((row, col), r[k])
  {
    [(row + 1, col), (row - 1, col), (row, col + 1), (row, col - 1)]
  }

  /** Every adjacent site is one of the four neighbours `open` visits. */
  lemma AdjacentNeighbor(s: (int, int), t: (int, int)) returns (k: nat)
    requires Adjacent(s, t)
    ensures k < 4 && Neighbors(s.0, s.1)[k] == t
  {
    if t.0 == s.0 + 1 { k := 0; }
    else if s.0 == t.0 + 1 { k := 1; }
    else if t.1 == s.1 + 1 { k := 2; }
    else { k := 3; }
  }

  /** The union-find: a quick-find label array, `p` and `q` connected when their labels agree. */
  class QuickFind {
    var id: array<int>

    /** `p` and `q` are elements and are connected. */
    ghost predicate Joined(p: int, q: int)
      reads this, id
    {
      0 <= p < id.Length && 0 <= q < id.Length && id[p] == id[q]
    }

    /**
     * The connections a percolation grid of side `n` with the open sites
     * `sites` keeps: every top-row site is joined to the start, every
     * bottom-row site to the finish, and adjacent open sites to each other.
     */
    ghost predicate Links(n: int, sites: set<(int, int)>)
      reads this, id
    {
      id.Length == n * n + 2
      && (forall c :: 1 <= c <= n ==> Joined(Flatten(n, 1, c), n * n) && Joined(Flatten(n, n, c), n * n + 1))
      && (forall s, t :: s in sites && t in sites && Adjacent(s, t) ==>
            Joined(Flatten(n, s.0, s.1), Flatten(n, t.0, t.1)))
    }

    /** Every element on its own. */
    constructor (size: nat)
      ensures fresh(id) && id.Length == size
      ensures forall k :: 0 <= k < size ==> id[k] == k
    {
      id := new int[size](k => k);
    }

    /** `find(p)`: the label of `p`'s component. */
    method Find(p: int) returns (root: int)
      requires 0 <= p < id.Length
      ensures root == id[p]
    {
      root := id[p];
    }

    /** `union(p, q)`: relabels `p`'s component with `q`'s label, merging the two. */
    method Union(p: int, q: int)
      requires 0 <= p < id.Length && 0 <= q < id.Length
      modifies id
      ensures forall k :: 0 <= k < id.Length ==> id[k] == if old(id[k]) == old(id[p]) then old(id[q]) else old(id[k])
      ensures Joined(p, q)
      ensures forall a, b {:trigger Joined(a, b)} :: old(Joined(a, b)) ==> Joined(a, b)
    {
      var pid, qid := id[p], id[q];
      for i := 0 to id.Length
        invariant forall k :: 0 <= k < i ==> id[k] == if old(id[k]) == pid then qid else old(id[k])
        invariant forall k :: i <= k < id.Length ==> id[k] == old(id[k])
      {
        if id[i] == pid {
          id[i] := qid;
        }
      }
    }

    /** The constructor's loop: joins the top row to the start and the bottom row to the finish. */
    method JoinEnds(n: int)
      requires n > 0 && id.Length == n * n + 2
      modifies id
      ensures Links(n, {})
      ensures n == 1 ==> Joined(n * n, n * n + 1)
    {
      var start, finish := n * n, n * n + 1;
      var fRow := n * (n - 1);
      EndRows(n);
      for col := 0 to n
        invariant forall c :: 0 <= c < col ==> Joined(c, start)
        invariant forall c :: fRow <= c < fRow + col ==> Joined(c, finish)
      {
        label Before:
        JoinEnd(col, start, fRow + col, finish);
        forall c | 0 <= c < col
          ensures Joined(c, start)
        {
          assert old@Before(Joined(c, start));
        }
        forall c | fRow <= c < fRow + col
          ensures Joined(c, finish)
        {
          assert old@Before(Joined(c, finish));
        }
      }
      forall c | 1 <= c <= n
        ensures Joined(Flatten(n, 1, c), start) && Joined(Flatten(n, n, c), finish)
      {
        EndSites(n, c);
      }
      if n == 1 {
        assert Joined(0, start) && Joined(0, finish);
      }
    }

    /** One pass of that loop. */
    method JoinEnd(top: int, start: int, bottom: int, finish: int)
      requires 0 <= top < id.Length && 0 <= start < id.Length && 0 <= bottom < id.Length && 0 <= finish < id.Length
      modifies id
      ensures Joined(top, start) && Joined(bottom, finish)
      ensures forall a, b {:trigger Joined(a, b)} :: old(Joined(a, b)) ==> Joined(a, b)
    {
      Union(top, start);
      Union(bottom, finish);
    }
  }

  /** The first site of the bottom row is `n * (n - 1)`, and both end rows lie below `n * n`. */
  lemma EndRows(n: int)
    requires n > 0
    ensures n <= n * n && n * (n - 1) + n == n * n
  {
    MulMono(n, 1, n);
  }

  /** The elements of column `c` in the top and the bottom row. */
  lemma EndSites(n: int, c: int)
    ensures Flatten(n, 1, c) == c - 1 && Flatten(n, n, c) == n * (n - 1) + c - 1
  {
  }

  class Percolation {
    var uf: QuickFind
    var oGrid: array2<bool>
    var start: int
    var finish: int
    var n: int
    var numOpen: int

    /** The open sites, as 1-based coordinates. */
    ghost var openSites: set<(int, int)>

    /** `oGrid` marks exactly the open sites and `numOpen` counts them. */
    ghost predicate Shape()
      reads this, uf, oGrid
    {
      n > 0 && oGrid.Length0 == n && oGrid.Length1 == n
      && uf.id.Length == n * n + 2 && start == n * n && finish == n * n + 1
      && (forall s :: s in openSites ==> InGrid(n, s.0, s.1))
      && (forall r, c :: 0 <= r < n && 0 <= c < n ==> (oGrid[r, c] <==> (r + 1, c + 1) in openSites))
      && numOpen == |openSites|
    }

    ghost predicate Valid()
      reads this, uf, uf.id, oGrid
    {
      Shape() && uf.Links(n, openSites)
    }

    /** `Percolation(n)`: an n-by-n grid with every site blocked; `n <= 0` throws. */
    static method Make(n: int) returns (r: Result<Percolation>)
      ensures n <= 0 ==> r == Err(IllegalArgument)
      ensures n > 0 ==> r.Ok? && fresh(r.value) && fresh(r.value.oGrid) && fresh(r.value.uf) && fresh(r.value.uf.id)
      ensures n > 0 ==> r.value.Valid() && r.value.n == n && r.value.openSites == {}
      ensures n == 1 ==> r.value.uf.Joined(r.value.start, r.value.finish)
    {
      if n <= 0 {
        return Err(IllegalArgument);
      }
      var p := new Percolation(n);
      r := Ok(p);
    }

    constructor (n: int)
      requires n > 0
      ensures fresh(oGrid) && fresh(uf) && fresh(uf.id)
      ensures Valid() && this.n == n && openSites == {}
      ensures n == 1 ==> uf.Joined(start, finish)
    {
      this.n := n;
      var u := new QuickFind(n * n + 2);
      u.JoinEnds(n);
      uf := u;
      oGrid := new bool[n, n]((r, c) => false);
      start := n * n;
      finish := n * n + 1;
      numOpen := 0;
      openSites := {};
    }

    /** `isOpen(row, col)`: throws outside the grid. */
    method IsOpen(row: int, col: int) returns (r: Result<bool>)
      requires Shape()
      ensures !InGrid(n, row, col) ==> r == Err(IllegalArgument)
      ensures InGrid(n, row, col) ==> r == Ok((row, col) in openSites)
    {
      if !InGrid(n, row, col) {
        return Err(IllegalArgument);
      }
      r := Ok(oGrid[row - 1, col - 1]);
    }

    /** `isOpen(row, col, true)`: false outside the grid instead of throwing. */
    method IsOpenSilent(row: int, col: int) returns (b: bool)
      requires Shape()
      ensures b <==> InGrid(n, row, col) && (row, col) in openSites
    {
      b := InGrid(n, row, col) && oGrid[row - 1, col - 1];
    }

    /** `isFull(row, col)`: open and connected to the virtual start; throws outside the grid. */
    method IsFull(row: int, col: int) returns (r: Result<bool>)
      requires Valid()
      ensures !InGrid(n, row, col) ==> r == Err(IllegalArgument)
      ensures InGrid(n, row, col) ==> r.Ok? && (r.value <==> (row, col) in openSites && uf.Joined(start, Flatten(n, row, col)))
      ensures r == Ok(true) ==> (row, col) in openSites
    {
      var o := IsOpen(row, col);
      if o.Err? {
        return Err(IllegalArgument);
      }
      if !o.value {
        return Ok(false);
      }
      FlattenBijective(n, row, col);
      var a := uf.Find(start);
      var b := uf.Find(Flatten(n, row, col));
      r := Ok(a == b);
    }

    /** `numberOfOpenSites()`. */
    method NumberOfOpenSites() returns (k: int)
      requires Valid()
      ensures k == |openSites|
    {
      k := numOpen;
    }

    /** `percolates()`: start and finish connected. */
    method Percolates() returns (b: bool)
      requires Valid()
      ensures b <==> uf.Joined(start, finish)
    {
      var a := uf.Find(start);
      var c := uf.Find(finish);
      b := a == c;
    }

    /**
     * `open(row, col)`: throws outside the grid; does nothing to an open
     * site; otherwise opens it, counts it once and joins it to each open
     * neighbour, keeping every connection made before.
     */
    method Open(row: int, col: int) returns (thrown: Option<Exception>)
      requires Valid()
      modifies this, oGrid, uf.id
      ensures Valid() && n == old(n) && uf == old(uf)
      ensures !InGrid(n, row, col) ==> thrown == Some(IllegalArgument) && openSites == old(openSites)
      ensures InGrid(n, row, col) ==> thrown == None && openSites == old(openSites) + {(row, col)}
      ensures InGrid(n, row, col) && (row, col) in old(openSites) ==> uf.id[..] == old(uf.id[..])
      ensures forall a, b {:trigger uf.Joined(a, b)} :: old(uf.Joined(a, b)) ==> uf.Joined(a, b)
    {
      var o := IsOpen(row, col);
      if o.Err? {
        return Some(IllegalArgument);
      }
      thrown := None;
      if o.value {
        return;
      }
      MarkOpen(row, col);
      assert openSites - {(row, col)} == old(openSites);
      JoinNeighbors(row, col);
    }

    /** Marks a blocked site open and counts it. */
    method MarkOpen(row: int, col: int)
      requires Shape() && InGrid(n, row, col) && (row, col) !in openSites
      modifies this, oGrid
      ensures Shape() && n == old(n) && uf == old(uf) && openSites == old(openSites) + {(row, col)}
    {
      oGrid[row - 1, col - 1] := true;
      numOpen := numOpen + 1;
      openSites := openSites + {(row, col)};
    }

    /** One round of the loop of `open`: joins the new site to the neighbour `nbr` when that is open. */
    method JoinIfOpen(row: int, col: int, nbr: (int, int))
      requires Shape() && (row, col) in openSites && uf.Links(n, openSites - {(row, col)})
      modifies uf.id
      ensures uf.Links(n, openSites - {(row, col)})
      ensures nbr in openSites ==> uf.Joined(Flatten(n, nbr.0, nbr.1), Flatten(n, row, col))
      ensures forall a, b {:trigger uf.Joined(a, b)} :: old(uf.Joined(a, b)) ==> uf.Joined(a, b)
    {
      FlattenBijective(n, row, col);
      var isOpen := IsOpenSilent(nbr.0, nbr.1);
      if isOpen {
        FlattenBijective(n, nbr.0, nbr.1);
        uf.Union(Flatten(n, nbr.0, nbr.1), Flatten(n, row, col));
      }
    }

    /**
     * The loop of `open`: joins a newly opened site to each of its open
     * neighbours, keeping every connection made before.
     */
    method JoinNeighbors(row: int, col: int)
      requires Shape() && (row, col) in openSites && uf.Links(n, openSites - {(row, col)})
      modifies uf.id
      ensures uf.Links(n, openSites)
      ensures forall k :: 0 <= k < 4 && Neighbors(row, col)[k] in openSites ==>
                uf.Joined(Flatten(n, Neighbors(row, col)[k].0, Neighbors(row, col)[k].1), Flatten(n, row, col))
      ensures forall a, b {:trigger uf.Joined(a, b)} :: old(uf.Joined(a, b)) ==> uf.Joined(a, b)
    {
      FlattenBijective(n, row, col);
      var site := Flatten(n, row, col);
      var neighbors := Neighbors(row, col);
      for i := 0 to 4
        invariant uf.Links(n, openSites - {(row, col)})
        invariant forall k :: 0 <= k < i && neighbors[k] in openSites ==>
                    uf.Joined(Flatten(n, neighbors[k].0, neighbors[k].1), site)
        invariant forall a, b {:trigger uf.Joined(a, b)} :: old(uf.Joined(a, b)) ==> uf.Joined(a, b)
      {
        JoinIfOpen(row, col, neighbors[i]);
      }
      forall s, t | s in openSites && t in openSites && Adjacent(s, t)
        ensures uf.Joined(Flatten(n, s.0, s.1), Flatten(n, t.0, t.1))
      {
        if s == (row, col) {
          var k := AdjacentNeighbor(s, t);
        } else if t == (row, col) {
          var k := AdjacentNeighbor(t, s);
        }
      }
    }
  }
}
