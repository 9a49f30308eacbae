/**
 * The Boggle board as `BoggleSolver.WordSearch` sees it: `R` rows of `C`
 * tiles flattened row by row into indices `0 .. R*C`, the eight directions a
 * path may step in, and `move`, which steps from a tile index or reports -1
 * when the step leaves the board.
 */
module BoggleGrid {
  import opened Common
  import opened HashAlgs

  /** `Directions`, in the source's declaration order; `DRow`/`DCol` are its fields `r` and `c`. */
  datatype Direction = S | N | SE | NW | E | W | NE | SW
  {
    function DRow(): int {
      match this
      case S => 1
      case N => -1
      case SE => 1
      case NW => -1
      case E => 0
      case W => 0
      case NE => -1
      case SW => 1
    }

    function DCol(): int {
      match this
      case S => 0
      case N => 0
      case SE => 1
      case NW => -1
      case E => 1
      case W => -1
      case NE => 1
      case SW => -1
    }
  }

  /** `Directions.values()`. */
  const DIRECTIONS: seq<Direction> := [S, N, SE, NW, E, W, NE, SW]

  /** A step to one of the eight tiles around a tile: both offsets in -1..1, not both 0. */
  predicate NeighbourOffset(dr: int, dc: int) {
    -1 <= dr <= 1 && -1 <= dc <= 1 && (dr != 0 || dc != 0)
  }

  /** The directions are the eight neighbour offsets, each exactly once. */
  lemma DirectionsAreNeighbours()
    ensures |DIRECTIONS| == 8
    ensures forall k :: 0 <= k < 8 ==> NeighbourOffset(DIRECTIONS[k].DRow(), DIRECTIONS[k].DCol())
    ensures forall k, l :: 0 <= k < l < 8 ==>
              DIRECTIONS[k].DRow() != DIRECTIONS[l].DRow() || DIRECTIONS[k].DCol() != DIRECTIONS[l].DCol()
    ensures forall dr, dc :: NeighbourOffset(dr, dc) ==>
              exists k :: 0 <= k < 8 && DIRECTIONS[k].DRow() == dr && DIRECTIONS[k].DCol() == dc
  {
    forall dr, dc | NeighbourOffset(dr, dc)
      ensures exists k :: 0 <= k < 8 && DIRECTIONS[k].DRow() == dr && DIRECTIONS[k].DCol() == dc
    {
      var k := if dc == 0 then (if dr == 1 then 0 else 1)
               else if dr == dc then (if dr == 1 then 2 else 3)
               else if dr == 0 then (if dc == 1 then 4 else 5)
               else if dr == -1 then 6 else 7;
      assert DIRECTIONS[k].DRow() == dr && DIRECTIONS[k].DCol() == dc;
    }
  }

  lemma Distrib(a: int, b: int, C: int)
    ensures (a - b) * C == a * C - b * C
  {
  }

  lemma MulAtLeast(k: int, C: int)
    requires k >= 1 && C >= 0
    ensures k * C >= C
  {
    assert k * C == (k - 1) * C + C;
    assert (k - 1) * C >= 0;
  }

  lemma DivDef(x: int, C: int)
    requires C > 0
    ensures x == (x / C) * C + x % C && 0 <= x % C < C
  {
  }

  /** Row-major coordinates: `r*C + c` has row `r` and column `c`. */
  lemma RowMajor(C: int, r: int, c: int)
    requires 0 <= c < C
    ensures (r * C + c) / C == r && (r * C + c) % C == c
  {
    var x := r * C + c;
    var q := x / C;
    DivDef(x, C);
    Distrib(r, q, C);
    if r > q {
      MulAtLeast(r - q, C);
    } else if r < q {
      MulAtLeast(q - r, C);
      Distrib(q, r, C);
    }
  }

  /** `getBoardIndex(r, c)`. */
  function BoardIndex(C: int, r: int, c: int): (i: int)
    requires 0 <= c < C
    ensures i / C == r && i % C == c
  {
    RowMajor(C, r, c);
    r * C + c
  }

  /** An index on a board of `R` rows is below `R*C` exactly when its row is below `R`. */
  lemma IndexBelow(R: int, C: int, r: int, c: int)
    requires 0 <= c < C && 0 <= r
    ensures r * C + c < R * C <==> r < R
  {
    if r < R {
      MulAtLeast(R - r, C);
      Distrib(R, r, C);
    } else {
      assert (r - R) * C >= 0;
      Distrib(r, R, C);
    }
  }

  /**
   * `move(i, d)` on a board of `R` rows and `C` columns: the index of the
   * tile one step in direction `d`, or -1 when that step leaves the board.
   * The new tile is in the row and column `d` leads to.
   */
  function Move(R: nat, C: int, i: int, d: Direction): (j: int)
    requires C > 0 && i >= 0
    ensures j == -1 <==> !(0 <= i / C + d.DRow() < R && 0 <= i % C + d.DCol() < C)
    ensures j != -1 ==> 0 <= j < Mul(R, C) && j / C == i / C + d.DRow() && j % C == i % C + d.DCol()
  {
    var r := i / C + d.DRow();
    var c := i % C + d.DCol();
    if r < 0 || r >= R || c < 0 || c >= C then -1
    else
      IndexBelow(R, C, r, c);
      MulIsProduct(R, C);
      BoardIndex(C, r, c)
  }

  /** Two distinct tiles whose rows and columns differ by at most one. */
  predicate Adjacent(C: int, i: int, j: int)
    requires C > 0
  {
    i != j && -1 <= j / C - i / C <= 1 && -1 <= j % C - i % C <= 1
  }

  /** What `move` reaches is adjacent. */
  lemma MoveIsAdjacent(R: nat, C: int, i: int, d: Direction)
    requires C > 0 && i >= 0 && Move(R, C, i, d) != -1 && d in DIRECTIONS
    ensures Adjacent(C, i, Move(R, C, i, d))
  {
    DirectionsAreNeighbours();
  }

  /** A tile below `R*C` lies in one of the `R` rows. */
  lemma RowBelow(R: nat, C: int, j: int)
    requires C > 0 && 0 <= j < R * C
    ensures 0 <= j / C < R
  {
    DivDef(j, C);
    IndexBelow(R, C, j / C, j % C);
  }

  /** A tile is determined by its row and column. */
  lemma SameTile(C: int, x: int, y: int)
    requires C > 0 && x / C == y / C && x % C == y % C
    ensures x == y
  {
    DivDef(x, C);
    DivDef(y, C);
  }

  /** Every tile adjacent to `i` is reached from `i` by some direction. */
  lemma AdjacentIsMove(R: nat, C: int, i: int, j: int) returns (k: nat)
    requires C > 0 && 0 <= i < R * C && 0 <= j < R * C && Adjacent(C, i, j)
    ensures k < 8 && Move(R, C, i, DIRECTIONS[k]) == j
  {
    RowBelow(R, C, j);
    var dr, dc := j / C - i / C, j % C - i % C;
    if dr == 0 && dc == 0 {
      SameTile(C, i, j);
    }
    k := DirectionOf(dr, dc);
    var m := Move(R, C, i, DIRECTIONS[k]);
    assert m != -1;
    SameTile(C, m, j);
  }

  /** The direction with the given offsets. */
  lemma DirectionOf(dr: int, dc: int) returns (k: nat)
    requires NeighbourOffset(dr, dc)
    ensures k < 8 && DIRECTIONS[k].DRow() == dr && DIRECTIONS[k].DCol() == dc
  {
    DirectionsAreNeighbours();
    k :| 0 <= k < 8 && DIRECTIONS[k].DRow() == dr && DIRECTIONS[k].DCol() == dc;
  }

  /** Tiles each adjacent to the one before, none of them twice. */
  predicate Chain(C: int, p: seq<int>)
    requires C > 0
    decreases |p|
  {
    |p| <= 1
    || (var m := |p| - 1; Chain(C, p[..m]) && p[m] !in p[..m] && Adjacent(C, p[m - 1], p[m]))
  }

  /** A chain is exactly a sequence of pairwise distinct tiles, each adjacent to the one before. */
  lemma {:induction false} ChainIff(C: int, p: seq<int>)
    requires C > 0
    ensures Chain(C, p) <==>
              (forall k, l :: 0 <= k < l < |p| ==> p[k] != p[l])
              && (forall k :: 0 < k < |p| ==> Adjacent(C, p[k - 1], p[k]))
    decreases |p|
  {
    if |p| > 1 {
      var m := |p| - 1;
      ChainIff(C, p[..m]);
      var distinct := forall k, l :: 0 <= k < l < |p| ==> p[k] != p[l];
      var adjacent := forall k :: 0 < k < |p| ==> Adjacent(C, p[k - 1], p[k]);
      if Chain(C, p) {
        forall k, l | 0 <= k < l < |p|
          ensures p[k] != p[l]
        {
          if l == m {
            assert p[k] == p[..m][k];
          } else {
            assert p[k] == p[..m][k] && p[l] == p[..m][l];
          }
        }
        forall k | 0 < k < |p|
          ensures Adjacent(C, p[k - 1], p[k])
        {
          if k < m {
            assert p[k - 1] == p[..m][k - 1] && p[k] == p[..m][k];
          }
        }
      }
      if distinct && adjacent {
        forall k, l | 0 <= k < l < m
          ensures p[..m][k] != p[..m][l]
        {
          assert p[k] != p[l];
        }
        forall k | 0 < k < m
          ensures Adjacent(C, p[..m][k - 1], p[..m][k])
        {
          assert Adjacent(C, p[k - 1], p[k]);
        }
        assert Chain(C, p[..m]);
        assert p[m] !in p[..m] by {
          forall k | 0 <= k < m
            ensures p[..m][k] != p[m]
          {
            assert p[k] != p[m];
          }
        }
      }
    }
  }

  /**
   * A path of tiles: at least one tile, all on a board of `n` tiles, no tile
   * twice, and each tile adjacent to the one before.
   */
  predicate TilePath(n: int, C: int, p: seq<int>)
    requires C > 0
  {
    |p| >= 1 && (forall k :: 0 <= k < |p| ==> 0 <= p[k] < n) && Chain(C, p)
  }

  /** A path extends by a new tile adjacent to its last one. */
  lemma TilePathSnoc(n: int, C: int, p: seq<int>, j: int)
    requires C > 0 && TilePath(n, C, p) && 0 <= j < n && j !in p && Adjacent(C, p[|p| - 1], j)
    ensures TilePath(n, C, p + [j])
  {
    assert (p + [j])[..|p|] == p;
  }

  /** The letters on the tiles of a path, in path order. */
  function Letters(board: seq<JInt>, p: seq<int>): (w: seq<JInt>)
    requires forall k :: 0 <= k < |p| ==> 0 <= p[k] < |board|
    ensures |w| == |p| && forall k :: 0 <= k < |p| ==> w[k] == board[p[k]]
  {
    seq(|p|, k requires 0 <= k < |p| => board[p[k]])
  }

  lemma LettersSnoc(board: seq<JInt>, p: seq<int>, j: int)
    requires forall k :: 0 <= k < |p| ==> 0 <= p[k] < |board|
    requires 0 <= j < |board|
    ensures Letters(board, p + [j]) == Letters(board, p) + [board[j]]
  {
  }

  /** `BoggleBoard`: `rows` rows of `cols` letters; a 'Q' tile stands for "Qu". */
  datatype BoggleBoard = BoggleBoard(rows: nat, cols: nat, letters: seq<seq<Char16>>)
  {
    predicate Valid() {
      |letters| == rows && forall r :: 0 <= r < rows ==> |letters[r]| == cols
    }
  }

  /** The rows of a grid laid end to end. */
  function Flatten(g: seq<seq<Char16>>): seq<Char16>
    decreases |g|
  {
    if g == [] then [] else Flatten(g[..|g| - 1]) + g[|g| - 1]
  }

  /** A grid of rows of `C` letters flattens to `C` letters per row. */
  lemma {:induction false} FlattenLength(g: seq<seq<Char16>>, C: int)
    requires forall r :: 0 <= r < |g| ==> |g[r]| == C
    ensures |Flatten(g)| == |g| * C
    decreases |g|
  {
    if g != [] {
      FlattenLength(g[..|g| - 1], C);
      Distrib(|g|, 1, C);
    }
  }

  /** Flattening puts the letter of row `r`, column `c` at `getBoardIndex(r, c)`. */
  lemma {:induction false} FlattenAt(g: seq<seq<Char16>>, C: int, r: int, c: int)
    requires C > 0 && forall r :: 0 <= r < |g| ==> |g[r]| == C
    requires 0 <= r < |g| && 0 <= c < C
    ensures BoardIndex(C, r, c) < |Flatten(g)| && Flatten(g)[BoardIndex(C, r, c)] == g[r][c]
    decreases |g|
  {
    var m := |g| - 1;
    var prefix := Flatten(g[..m]);
    FlattenLength(g[..m], C);
    assert Flatten(g) == prefix + g[m];
    if r < m {
      IndexBelow(m, C, r, c);
      FlattenAt(g[..m], C, r, c);
      assert g[..m][r] == g[r];
    } else {
      assert BoardIndex(C, r, c) == |prefix| + c;
    }
  }
}
