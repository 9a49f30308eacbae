/**
 * `VertexWeightedSP`: the lowest-weight left-to-right path across a weight
 * matrix, one vertex per column, each step moving to the same row or a
 * neighbouring one. It is a column-by-column dynamic programme over two 2-D
 * arrays: `weightTo`, the weight of the best path found so far to each
 * vertex, and `lastVert`, the row it came from. Weights are integers;
 * `Double.POSITIVE_INFINITY` is the explicit `Inf`.
 */
module VertexWeightedSPs {
  import opened Common
  import SeamCarvers

  /** A path weight: finite, or positive infinity. */
  datatype Weight = Fin(v: int) | Inf

  /** `a < b` on doubles, for the weights that occur here. */
  predicate Less(a: Weight, b: Weight) {
    a.Fin? && (b.Inf? || a.v < b.v)
  }

  /** `a + c` on doubles: infinity absorbs a finite addend. */
  function Plus(a: Weight, c: int): Weight {
    if a.Fin? then Fin(a.v + c) else Inf
  }

  /** The lowest row `adj(y)` yields. */
  function Lo(y: int): int {
    if y == 0 then y else y - 1
  }

  /** The highest row `adj(y)` yields in a matrix of height `h`. */
  function Hi(y: int, h: int): int {
    if y == h - 1 then y else y + 1
  }

  /** The rows `adj(y)` yields are the rows of the matrix within one of `y`, in increasing order. */
  lemma AdjRows(y: int, h: int, v: int)
    requires 0 <= y < h
    ensures 0 <= Lo(y) <= y <= Hi(y, h) < h
    ensures Lo(y) <= v <= Hi(y, h) <==> 0 <= v < h && -1 <= v - y <= 1
  {
  }

  /** A weight matrix of columns of height `h`: `wm[x][y]` is `wMatrix.get(x, y)`. */
  predicate Grid(wm: seq<seq<int>>, h: nat) {
    forall x :: 0 <= x < |wm| ==> |wm[x]| == h
  }

  /** The first row in `[lo, hi]` at which `col` is smallest. */
  function FirstMin(col: seq<int>, lo: int, hi: int): (r: int)
    requires 0 <= lo <= hi < |col|
    ensures lo <= r <= hi
    decreases hi - lo
  {
    if lo == hi then lo
    else
      var m := FirstMin(col, lo, hi - 1);
      if col[hi] < col[m] then hi else m
  }

  /** `FirstMin` is a least entry of the range, and every entry before it is larger. */
  lemma {:induction false} FirstMinFacts(col: seq<int>, lo: int, hi: int)
    requires 0 <= lo <= hi < |col|
    ensures forall i :: lo <= i <= hi ==> col[FirstMin(col, lo, hi)] <= col[i]
    ensures forall i :: lo <= i < FirstMin(col, lo, hi) ==> col[FirstMin(col, lo, hi)] < col[i]
    decreases hi - lo
  {
    if lo < hi {
      FirstMinFacts(col, lo, hi - 1);
    }
  }

  /** The weight of the lightest path to each row of column `x`; column 0 weighs nothing. */
  function Dist(wm: seq<seq<int>>, h: nat, x: nat): (col: seq<int>)
    requires Grid(wm, h) && x < |wm|
    ensures |col| == h
  {
    if x == 0 then seq(h, _ => 0)
    else
      var prev := Dist(wm, h, x - 1);
      seq(h, y requires 0 <= y < h => wm[x][y] + prev[FirstMin(prev, Lo(y), Hi(y, h))])
  }

  /** The row the lightest path to `(x, y)` comes from: the first lightest one in reach. */
  function Pred(wm: seq<seq<int>>, h: nat, x: nat, y: int): (p: int)
    requires Grid(wm, h) && 0 < x < |wm| && 0 <= y < h
    ensures 0 <= p < h && -1 <= p - y <= 1
  {
    FirstMin(Dist(wm, h, x - 1), Lo(y), Hi(y, h))
  }

  /**
   * Each column's weight is the vertex weight plus the least weight of the
   * previous column within reach of `y`, which `Pred` attains.
   */
  lemma DistStep(wm: seq<seq<int>>, h: nat, x: nat, y: int, v: int)
    requires Grid(wm, h) && 0 < x < |wm| && 0 <= y < h
    ensures Dist(wm, h, x)[y] == wm[x][y] + Dist(wm, h, x - 1)[Pred(wm, h, x, y)]
    ensures 0 <= v < h && -1 <= v - y <= 1 ==> Dist(wm, h, x)[y] <= wm[x][y] + Dist(wm, h, x - 1)[v]
  {
    AdjRows(y, h, v);
    FirstMinFacts(Dist(wm, h, x - 1), Lo(y), Hi(y, h));
  }

  /** The weight of path `p` over columns `1..x`: column 0 adds nothing, as in the programme. */
  function Cost(wm: seq<seq<int>>, h: nat, p: seq<int>, x: nat): int
    requires Grid(wm, h) && x < |p| <= |wm| && forall i :: 0 <= i < |p| ==> 0 <= p[i] < h
  {
    if x == 0 then 0 else Cost(wm, h, p, x - 1) + wm[x][p[x]]
  }

  /** No path that moves by at most one row per column weighs less than `Dist` at its end. */
  lemma {:induction false} DistIsLeast(wm: seq<seq<int>>, h: nat, q: seq<int>, x: nat)
    requires Grid(wm, h) && x < |q| <= |wm| && SeamCarvers.Admissible(q, h)
    ensures Dist(wm, h, x)[q[x]] <= Cost(wm, h, q, x)
  {
    if x > 0 {
      assert -1 <= q[x] - q[x - 1] <= 1;
      DistIsLeast(wm, h, q, x - 1);
      DistStep(wm, h, x, q[x], q[x - 1]);
      assert Cost(wm, h, q, x) == Cost(wm, h, q, x - 1) + wm[x][q[x]];
    }
  }

  /**
   * `p` follows `Pred` back from its last entry, entry `j` lying in column
   * `off + j`: every entry is a row and each is the predecessor of the next.
   */
  predicate Chain(wm: seq<seq<int>>, h: nat, p: seq<int>, off: nat)
    requires Grid(wm, h) && off + |p| <= |wm|
  {
    (forall j :: 0 <= j < |p| ==> 0 <= p[j] < h)
    && forall i, j :: 0 <= i < |p| && 0 <= j < |p| && j == i + 1 ==> p[i] == Pred(wm, h, off + j, p[j])
  }

  /** A path traced back through `Pred` weighs exactly `Dist` at its end. */
  lemma {:induction false} TracedCost(wm: seq<seq<int>>, h: nat, p: seq<int>, x: nat)
    requires Grid(wm, h) && x < |p| <= |wm| && Chain(wm, h, p, 0)
    ensures Cost(wm, h, p, x) == Dist(wm, h, x)[p[x]]
  {
    if x > 0 {
      TracedCost(wm, h, p, x - 1);
      DistStep(wm, h, x, p[x], p[x - 1]);
      assert Cost(wm, h, p, x) == Cost(wm, h, p, x - 1) + wm[x][p[x]];
    }
  }

  /** A path that follows `Pred` moves by at most one row per column. */
  lemma ChainAdmissible(wm: seq<seq<int>>, h: nat, p: seq<int>)
    requires Grid(wm, h) && |p| <= |wm| && Chain(wm, h, p, 0)
    ensures SeamCarvers.Admissible(p, h)
  {
    forall i, j | 0 <= i < |p| && 0 <= j < |p| && j == i + 1
      ensures -1 <= p[j] - p[i] <= 1
    {
      assert p[i] == Pred(wm, h, j, p[j]);
    }
  }

  /**
   * A path across the whole matrix that ends at the first lightest row of the
   * last column and follows `Pred` back weighs no more than any seam (it is
   * one itself, by `ChainAdmissible`).
   */
  lemma {:induction false} ShortestIsLeast(wm: seq<seq<int>>, h: nat, p: seq<int>, q: seq<int>)
    requires Grid(wm, h) && |wm| > 0 && h > 0 && |p| == |wm| && Chain(wm, h, p, 0)
    requires p[|wm| - 1] == FirstMin(Dist(wm, h, |wm| - 1), 0, h - 1)
    requires |q| == |wm| && SeamCarvers.Admissible(q, h)
    ensures Cost(wm, h, p, |wm| - 1) <= Cost(wm, h, q, |wm| - 1)
  {
    TracedEnd(wm, h, p);
    SeamBound(wm, h, q);
  }

  /** `TracedCost` at the last column. */
  lemma {:induction false} TracedEnd(wm: seq<seq<int>>, h: nat, p: seq<int>)
    requires Grid(wm, h) && |wm| > 0 && |p| == |wm| && Chain(wm, h, p, 0)
    ensures Cost(wm, h, p, |wm| - 1) == Dist(wm, h, |wm| - 1)[p[|wm| - 1]]
  {
    TracedCost(wm, h, p, |wm| - 1);
  }

  /** No seam across the whole matrix weighs less than the least entry of the last column of `Dist`. */
  lemma {:induction false} SeamBound(wm: seq<seq<int>>, h: nat, q: seq<int>)
    requires Grid(wm, h) && |wm| > 0 && h > 0 && |q| == |wm| && SeamCarvers.Admissible(q, h)
    ensures Dist(wm, h, |wm| - 1)[FirstMin(Dist(wm, h, |wm| - 1), 0, h - 1)] <= Cost(wm, h, q, |wm| - 1)
  {
    EndIsLeast(wm, h, q);
    FirstIsLeast(Dist(wm, h, |wm| - 1), 0, h - 1, q[|wm| - 1]);
  }

  /** `DistIsLeast` at the last column. */
  lemma {:induction false} EndIsLeast(wm: seq<seq<int>>, h: nat, q: seq<int>)
    requires Grid(wm, h) && |wm| > 0 && h > 0 && |q| == |wm| && SeamCarvers.Admissible(q, h)
    ensures Dist(wm, h, |wm| - 1)[q[|wm| - 1]] <= Cost(wm, h, q, |wm| - 1)
  {
    DistIsLeast(wm, h, q, |wm| - 1);
  }

  /** `FirstMin` is no larger than any one entry of its range. */
  lemma FirstIsLeast(col: seq<int>, lo: int, hi: int, i: int)
    requires 0 <= lo <= i <= hi < |col|
    ensures col[FirstMin(col, lo, hi)] <= col[i]
  {
    FirstMinFacts(col, lo, hi);
  }

  /**
   * The relaxations of vertex `(x, toY)` by the rows `0..k-1` of the column
   * before, whose weights are `col`, in the order `calcPath` performs them:
   * row `k-1` relaxes `toY` when `toY` is in `adj(k-1)`. The cell starts at
   * `+Inf` with predecessor 0. `c` is the weight of the vertex.
   */
  function Partial(col: seq<int>, c: int, toY: int, k: nat, h: nat): (Weight, int)
    requires |col| == h && k <= h
  {
    if k == 0 then (Inf, 0)
    else
      var p := Partial(col, c, toY, k - 1, h);
      var fy := k - 1;
      if Lo(fy) <= toY <= Hi(fy, h) && Less(Fin(col[fy] + c), p.0) then (Fin(col[fy] + c), fy) else p
  }

  /** After the rows below `k`, the cell holds the first minimum over the rows seen that reach it. */
  lemma {:induction false} PartialFacts(col: seq<int>, c: int, toY: int, k: nat, h: nat)
    requires |col| == h && k <= h && 0 <= toY < h
    ensures k <= Lo(toY) ==> Partial(col, c, toY, k, h) == (Inf, 0)
    ensures Lo(toY) < k ==>
      var m := FirstMin(col, Lo(toY), if k - 1 < Hi(toY, h) then k - 1 else Hi(toY, h));
      Partial(col, c, toY, k, h) == (Fin(col[m] + c), m)
  {
    if k > 0 {
      PartialFacts(col, c, toY, k - 1, h);
      AdjRows(toY, h, k - 1);
      AdjRows(k - 1, h, toY);
    }
  }

  /** After every row of the previous column, the cell holds the weight and predecessor of the DP. */
  lemma PartialComplete(wm: seq<seq<int>>, h: nat, x: nat, y: int)
    requires Grid(wm, h) && 0 < x < |wm| && 0 <= y < h
    ensures Partial(Dist(wm, h, x - 1), wm[x][y], y, h, h) == (Fin(Dist(wm, h, x)[y]), Pred(wm, h, x, y))
  {
    PartialFacts(Dist(wm, h, x - 1), wm[x][y], y, h, h);
    AdjRows(y, h, y);
  }

  class VertexWeightedSP {
    const W: nat
    const H: nat
    /** The weight matrix, `wMatrix`. */
    const wm: seq<seq<int>>
    const weightTo: array2<Weight>
    const lastVert: array2<int>

    ghost predicate Shaped()
      reads this
    {
      |wm| == W && Grid(wm, H)
      && weightTo.Length0 == W && weightTo.Length1 == H && lastVert.Length0 == W && lastVert.Length1 == H
    }

    /** Column `x` holds the results of the DP. */
    ghost predicate ColumnSolved(x: nat)
      reads this, weightTo, lastVert
      requires Shaped() && x < W
    {
      forall y :: 0 <= y < H ==>
        weightTo[x, y] == Fin(Dist(wm, H, x)[y]) && lastVert[x, y] == if x == 0 then -1 else Pred(wm, H, x, y)
    }

    /** Every column holds the results of the DP. */
    ghost predicate Solved()
      reads this, weightTo, lastVert
    {
      Shaped() && forall x :: 0 <= x < W ==> ColumnSolved(x)
    }

    /** The cells of column `toX` after the rows `0..k-1` of the previous column, of weights `col`, relaxed them. */
    ghost predicate AtStage(toX: nat, col: seq<int>, k: nat)
      reads this, weightTo, lastVert
      requires Shaped() && toX < W && |col| == H && k <= H
    {
      forall toY :: 0 <= toY < H ==> (weightTo[toX, toY], lastVert[toX, toY]) == Partial(col, wm[toX][toY], toY, k, H)
    }

    /**
     * `VertexWeightedSP(wMatrix)`: the arrays are created and `calcPath` runs.
     * `createLastVert` writes column 0, so a matrix of no columns but some
     * rows is refused by `Create`.
     */
    constructor (wm: seq<seq<int>>, h: nat)
      requires Grid(wm, h) && (|wm| > 0 || h == 0)
      ensures this.wm == wm && W == |wm| && H == h && Solved()
    {
      W := |wm|;
      H := h;
      this.wm := wm;
      var wt := CreateWeightTo(|wm|, h);
      var lv := CreateLastVert(|wm|, h);
      weightTo := wt;
      lastVert := lv;
      new;
      CalcPath();
    }

    /** `new VertexWeightedSP(wMatrix)`: `lastVert[0][y]` is out of bounds when there is no column but some row. */
    static method Create(wm: seq<seq<int>>, h: nat) returns (r: Result<VertexWeightedSP>)
      requires Grid(wm, h)
      ensures r.Err? <==> |wm| == 0 && h > 0
      ensures r.Err? ==> r.error == IndexOutOfBounds
      ensures r.Ok? ==> fresh(r.value) && r.value.wm == wm && r.value.H == h && r.value.Solved()
    {
      if |wm| == 0 && h > 0 {
        return Err(IndexOutOfBounds);
      }
      var sp := new VertexWeightedSP(wm, h);
      r := Ok(sp);
    }

    /** `createWeightTo()`: 0 in column 0, `+Inf` everywhere else. */
    static method CreateWeightTo(w: nat, h: nat) returns (a: array2<Weight>)
      ensures fresh(a) && a.Length0 == w && a.Length1 == h
      ensures forall x, y :: 0 <= x < w && 0 <= y < h ==> a[x, y] == if x == 0 then Fin(0) else Inf
    {
      a := new Weight[w, h]((_, _) => Fin(0));
      for x := 1 to if w == 0 then 1 else w
        invariant forall i, j :: 0 <= i < w && 0 <= j < h ==> a[i, j] == if 0 < i < x then Inf else Fin(0)
      {
        for y := 0 to h
          invariant forall i, j :: 0 <= i < w && 0 <= j < h ==> a[i, j] == if 0 < i < x || (i == x && j < y) then Inf else Fin(0)
        {
          a[x, y] := Inf;
        }
      }
    }

    /** `createLastVert()`: -1 in column 0, 0 everywhere else. */
    static method CreateLastVert(w: nat, h: nat) returns (a: array2<int>)
      requires w > 0 || h == 0
      ensures fresh(a) && a.Length0 == w && a.Length1 == h
      ensures forall x, y :: 0 <= x < w && 0 <= y < h ==> a[x, y] == if x == 0 then -1 else 0
    {
      a := new int[w, h]((_, _) => 0);
      for y := 0 to h
        invariant forall i, j :: 0 <= i < w && 0 <= j < h ==> a[i, j] == if i == 0 && j < y then -1 else 0
      {
        a[0, y] := -1;
      }
    }

    /**
     * `adj(y)`: the rows within one of `y`, in increasing order; a row outside
     * the matrix throws.
     */
    method Adj(y: int) returns (r: Result<seq<int>>)
      ensures r.Ok? <==> 0 <= y < H
      ensures r.Err? ==> r.error == IllegalArgument
      ensures r.Ok? ==> |r.value| == Hi(y, H) - Lo(y) + 1 && forall i :: 0 <= i < |r.value| ==> r.value[i] == Lo(y) + i
      ensures r.Ok? ==> forall v :: v in r.value <==> 0 <= v < H && -1 <= v - y <= 1
    {
      if y < 0 || y >= H {
        return Err(IllegalArgument);
      }
      var loY := if y == 0 then y else y - 1;
      var hiY := if y == H - 1 then y else y + 1;
      var n := hiY - loY + 1;
      var adj := new int[n];
      for i := 0 to n
        invariant forall j :: 0 <= j < i ==> adj[j] == loY + j
      {
        adj[i] := loY + i;
      }
      r := Ok(adj[..]);
      forall v
        ensures v in r.value <==> 0 <= v < H && -1 <= v - y <= 1
      {
        AdjRows(y, H, v);
        if 0 <= v < H && -1 <= v - y <= 1 {
          assert r.value[v - loY] == v;
        }
      }
    }

    /**
     * `relax(fromY, fromWeight, toX, toY)`: the path through `fromY` replaces
     * the cell's when it is strictly lighter; nothing else changes, and the
     * weight of the cell never grows.
     */
    method Relax(fromY: int, fromWeight: Weight, toX: int, toY: int)
      requires Shaped() && 0 <= toX < W && 0 <= toY < H
      modifies weightTo, lastVert
      ensures var pathWeight := Plus(fromWeight, wm[toX][toY]);
        (weightTo[toX, toY], lastVert[toX, toY])
        == if Less(pathWeight, old(weightTo[toX, toY])) then (pathWeight, fromY) else (old(weightTo[toX, toY]), old(lastVert[toX, toY]))
      ensures !Less(old(weightTo[toX, toY]), weightTo[toX, toY])
      ensures forall x, y :: 0 <= x < W && 0 <= y < H && (x != toX || y != toY) ==>
        weightTo[x, y] == old(weightTo[x, y]) && lastVert[x, y] == old(lastVert[x, y])
    {
      var pathWeight := Plus(fromWeight, wm[toX][toY]);
      if Less(pathWeight, weightTo[toX, toY]) {
        weightTo[toX, toY] := pathWeight;
        lastVert[toX, toY] := fromY;
      }
    }

    /**
     * `for (int toY : adj(fromY)) relax(...)`: row `fromY` of column `toX - 1`
     * relaxes the cells of column `toX` it reaches.
     */
    method RelaxFrom(fromY: int, toX: nat, ghost col: seq<int>)
      requires Shaped() && 0 < toX < W && |col| == H && 0 <= fromY < H
      requires forall y :: 0 <= y < H ==> weightTo[toX - 1, y] == Fin(col[y])
      requires AtStage(toX, col, fromY)
      modifies weightTo, lastVert
      ensures AtStage(toX, col, fromY + 1)
      ensures forall x, y :: 0 <= x < W && 0 <= y < H && x != toX ==>
        weightTo[x, y] == old(weightTo[x, y]) && lastVert[x, y] == old(lastVert[x, y])
    {
      var fromWeight := weightTo[toX - 1, fromY];
      var adj := Adj(fromY);
      var ys := adj.value;
      AdjRows(fromY, H, fromY);
      for i := 0 to |ys|
        invariant Staged(toX, col, fromY, Lo(fromY) + i)
        invariant forall x, y :: 0 <= x < W && 0 <= y < H && x != toX ==>
          weightTo[x, y] == old(weightTo[x, y]) && lastVert[x, y] == old(lastVert[x, y])
      {
        RelaxNext(fromY, fromWeight, toX, ys[i], col);
      }
    }

    /**
     * The cells of column `toX` once row `k` of the previous column has
     * relaxed the rows of `adj(k)` below `bound`.
     */
    ghost predicate Staged(toX: nat, col: seq<int>, k: nat, bound: int)
      reads this, weightTo, lastVert
      requires Shaped() && toX < W && |col| == H && k < H
    {
      forall toY :: 0 <= toY < H ==>
        (weightTo[toX, toY], lastVert[toX, toY])
        == Partial(col, wm[toX][toY], toY, if Lo(k) <= toY < bound then k + 1 else k, H)
    }

    /** One `relax(fromY, fromWeight, toX, toY)` of the loop over `adj(fromY)`. */
    method RelaxNext(fromY: int, fromWeight: Weight, toX: nat, toY: int, ghost col: seq<int>)
      requires Shaped() && 0 < toX < W && |col| == H && 0 <= fromY < H && Lo(fromY) <= toY <= Hi(fromY, H)
      requires fromWeight == Fin(col[fromY]) && Staged(toX, col, fromY, toY)
      modifies weightTo, lastVert
      ensures Staged(toX, col, fromY, toY + 1)
      ensures forall x, y :: 0 <= x < W && 0 <= y < H && x != toX ==>
        weightTo[x, y] == old(weightTo[x, y]) && lastVert[x, y] == old(lastVert[x, y])
    {
      AdjRows(fromY, H, toY);
      Relax(fromY, fromWeight, toX, toY);
    }

    /** The rows of column `toX - 1`, in order, relax column `toX`, which ends up solved. */
    method RelaxColumn(toX: nat)
      requires Shaped() && 0 < toX < W && ColumnSolved(toX - 1)
      requires forall y :: 0 <= y < H ==> weightTo[toX, y] == Inf && lastVert[toX, y] == 0
      modifies weightTo, lastVert
      ensures ColumnSolved(toX)
      ensures forall x, y :: 0 <= x < W && 0 <= y < H && x != toX ==>
        weightTo[x, y] == old(weightTo[x, y]) && lastVert[x, y] == old(lastVert[x, y])
    {
      ghost var col := Dist(wm, H, toX - 1);
      for fromY := 0 to H
        invariant AtStage(toX, col, fromY)
        invariant forall x, y :: 0 <= x < W && 0 <= y < H && x != toX ==>
          weightTo[x, y] == old(weightTo[x, y]) && lastVert[x, y] == old(lastVert[x, y])
      {
        RelaxFrom(fromY, toX, col);
      }
      forall y | 0 <= y < H
        ensures weightTo[toX, y] == Fin(Dist(wm, H, toX)[y]) && lastVert[toX, y] == Pred(wm, H, toX, y)
      {
        PartialComplete(wm, H, toX, y);
      }
    }

    /** `calcPath()`: the columns are relaxed from left to right. */
    method CalcPath()
      requires Shaped()
      requires forall x, y :: 0 <= x < W && 0 <= y < H ==>
        weightTo[x, y] == (if x == 0 then Fin(0) else Inf) && lastVert[x, y] == if x == 0 then -1 else 0
      modifies weightTo, lastVert
      ensures Solved()
    {
      var fromX := 0;
      while fromX < W - 1
        invariant 0 <= fromX <= if W == 0 then 0 else W - 1
        invariant forall x :: 0 <= x <= fromX && x < W ==> ColumnSolved(x)
        invariant forall x, y :: fromX < x < W && 0 <= y < H ==> weightTo[x, y] == Inf && lastVert[x, y] == 0
      {
        label before:
        RelaxColumn(fromX + 1);
        forall x | 0 <= x <= fromX
          ensures ColumnSolved(x)
        {
          assert old@before(ColumnSolved(x));
        }
        fromX := fromX + 1;
      }
    }

    /** `findTail()`: the first row of the last column of least weight; -1 for a matrix of no rows. */
    method FindTail() returns (minY: int)
      requires Solved() && W > 0
      ensures H == 0 ==> minY == -1
      ensures H > 0 ==> minY == FirstMin(Dist(wm, H, W - 1), 0, H - 1)
    {
      var endX := W - 1;
      var minWt := Inf;
      minY := -1;
      ghost var col := Dist(wm, H, endX);
      assert ColumnSolved(endX);
      for y := 0 to H
        invariant y == 0 ==> minWt == Inf && minY == -1
        invariant y > 0 ==> minY == FirstMin(col, 0, y - 1) && minWt == Fin(col[minY])
      {
        if Less(weightTo[endX, y], minWt) {
          minWt := weightTo[endX, y];
          minY := y;
        }
      }
    }

    /** A cell of `lastVert` once the DP is done. */
    lemma LastVertAt(x: nat, y: int)
      requires Solved() && x < W && 0 <= y < H
      ensures lastVert[x, y] == if x == 0 then -1 else Pred(wm, H, x, y)
    {
      assert ColumnSolved(x);
    }

    /**
     * `shortestPath()`: the tail, then the predecessors back to column 0.
     * With columns but no rows, `lastVert[W-1][-1]` is out of bounds.
     */
    method ShortestPath() returns (r: Result<seq<int>>)
      requires Solved()
      ensures r.Err? <==> W > 0 && H == 0
      ensures r.Err? ==> r.error == IndexOutOfBounds
      ensures r.Ok? ==> |r.value| == W && Chain(wm, H, r.value, 0)
      ensures r.Ok? && W > 0 ==> r.value[W - 1] == FirstMin(Dist(wm, H, W - 1), 0, H - 1)
    {
      if W == 0 {
        return Ok([]);
      }
      var tailY := FindTail();
      if H == 0 {
        return Err(IndexOutOfBounds);
      }
      SolvedLinks();
      var path := Trace(tailY);
      LinkedIsChain(path);
      r := Ok(path);
    }

    /** The loop of `shortestPath`: from the tail in the last column back to column 0 through `lastVert`. */
    method Trace(tail: int) returns (p: seq<int>)
      requires Shaped() && LinksInRange() && W > 0 && 0 <= tail < H
      ensures |p| == W && Linked(p, 0) && p[W - 1] == tail
    {
      var tailY := tail;
      var path := new int[W];
      ghost var ps: seq<int> := [];
      var x := W - 1;
      while x >= 0
        invariant Traced(path, x, tailY, ps, tail)
        decreases x + 1
      {
        tailY, ps := TraceStep(path, x, tailY, ps, tail);
        x := x - 1;
      }
      TracedAll(path, tailY, ps, tail);
      p := path[..];
    }

    /** When the loop of `shortestPath` ends, the whole array is the traced path. */
    lemma TracedAll(path: array<int>, tailY: int, ps: seq<int>, tail: int)
      requires Shaped() && W > 0 && Traced(path, -1, tailY, ps, tail)
      ensures path[..] == ps && |ps| == W && Linked(ps, 0) && ps[W - 1] == tail
    {
      assert path[..] == path[0..];
    }

    /**
     * The state of the loop of `shortestPath` before it writes column `x`:
     * `path[x+1..]` holds `ps`, which ends at `tail` and is linked through
     * `lastVert`, and `tailY` is the `lastVert` of its first entry.
     */
    ghost predicate Traced(path: array<int>, x: int, tailY: int, ps: seq<int>, tail: int)
      reads this, lastVert, path
      requires Shaped()
    {
      -1 <= x < W && |ps| == W - 1 - x && path.Length == W && path[x + 1..] == ps
      && Linked(ps, x + 1)
      && (x >= 0 ==> 0 <= tailY < H)
      && (ps == [] ==> tailY == tail)
      && (ps != [] ==> ps[|ps| - 1] == tail && (x >= 0 ==> tailY == lastVert[x + 1, ps[0]]))
    }

    /** One iteration of the loop of `shortestPath`: `path[x] = tailY; tailY = lastVert[x][tailY]`. */
    method TraceStep(path: array<int>, x: int, tailY: int, ghost ps: seq<int>, ghost tail: int) returns (next: int, ghost ps': seq<int>)
      requires Shaped() && LinksInRange() && 0 <= x && Traced(path, x, tailY, ps, tail)
      modifies path
      ensures Traced(path, x - 1, next, ps', tail)
    {
      path[x] := tailY;
      assert path[x..] == [tailY] + path[x + 1..];
      LinkedCons(ps, x, tailY);
      ps' := [tailY] + ps;
      next := lastVert[x, tailY];
    }

    /** Every `lastVert` entry outside column 0 is a row. */
    ghost predicate LinksInRange()
      reads this, lastVert
      requires Shaped()
    {
      forall x, y :: 0 < x < W && 0 <= y < H ==> 0 <= lastVert[x, y] < H
    }

    lemma SolvedLinks()
      requires Solved()
      ensures LinksInRange()
    {
      forall x, y | 0 < x < W && 0 <= y < H
        ensures 0 <= lastVert[x, y] < H
      {
        LastVertAt(x, y);
      }
    }

    /** Entry `j` of `p` is a row of column `off + j`, and each entry is the `lastVert` of the next. */
    ghost predicate Linked(p: seq<int>, off: nat)
      reads this, lastVert
      requires Shaped() && off + |p| <= W
    {
      (forall j :: 0 <= j < |p| ==> 0 <= p[j] < H)
      && forall i, j :: 0 <= i < |p| && 0 <= j < |p| && j == i + 1 ==> p[i] == lastVert[off + j, p[j]]
    }

    lemma LinkedCons(p: seq<int>, off: nat, y: int)
      requires Shaped() && off + 1 + |p| <= W && Linked(p, off + 1) && 0 <= y < H
      requires p != [] ==> y == lastVert[off + 1, p[0]]
      ensures Linked([y] + p, off)
    {
      var q := [y] + p;
      forall i, j | 0 <= i < |q| && 0 <= j < |q| && j == i + 1
        ensures q[i] == lastVert[off + j, q[j]]
      {
        assert q[j] == p[i];
        if i > 0 {
          assert q[i] == p[i - 1];
        }
      }
    }

    /** Once the DP is done, a path linked through `lastVert` follows `Pred`. */
    lemma LinkedIsChain(p: seq<int>)
      requires Solved() && |p| <= W && Linked(p, 0)
      ensures Chain(wm, H, p, 0)
    {
      forall i, j | 0 <= i < |p| && 0 <= j < |p| && j == i + 1
        ensures p[i] == Pred(wm, H, j, p[j])
      {
        LastVertAt(j, p[j]);
      }
    }
  }
}
