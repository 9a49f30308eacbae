/**
 * `BoggleSolver.WordSearch`: imports a board and searches it depth first
 * with an explicit stack of `DFSHash`es. Each stack entry is either
 * pending (pushed, not yet expanded) or visited (its tile is marked in
 * `seen` and its children have been pushed above it); a visited entry is
 * popped, and its mark cleared, when it is on top again. Here the stack is
 * a sequence whose last entry is the top. Ghost state gives each entry the
 * path of tiles its hash was built along (`paths`) and whether it has been
 * visited (`marks`).
 */
module BoggleSearch {
  import opened Common
  import opened HashAlgs
  import opened WordHashes
  import opened WordMaps
  import opened BoggleGrid
  import opened SearchStacks

  /** The two loops of `importBoard`: the letters row by row, column by column. */
  method CopyRows(b: BoggleBoard, board: array<JInt>)
    requires b.Valid() && b.cols > 0 && board.Length == b.rows * b.cols
    modifies board
    ensures board[..] == Flatten(b.letters)
  {
    var R, C := b.rows, b.cols;
    var i := 0;
    for r := 0 to R
      invariant i == r * C && i <= board.Length
      invariant board[..i] == Flatten(b.letters[..r])
    {
      IndexBelow(R, C, r, 0);
      for c := 0 to C
        invariant i == r * C + c && i <= board.Length
        invariant board[..i] == Flatten(b.letters[..r]) + b.letters[r][..c]
      {
        IndexBelow(R, C, r, c);
        board[i] := b.letters[r][c];
        assert b.letters[r][..c + 1] == b.letters[r][..c] + [b.letters[r][c]];
        i := i + 1;
      }
      Distrib(r + 1, 1, C);
      assert b.letters[..r + 1][..r] == b.letters[..r];
      assert b.letters[r][..C] == b.letters[r];
    }
    assert b.letters[..R] == b.letters;
    assert board[..] == board[..i];
  }

  class WordSearch {
    const R: nat
    const C: nat
    const N: nat
    const board: array<JInt>
    /** The letters `importBoard` puts in `board`, row by row. */
    ghost const tiles: seq<JInt>
    /** The enclosing solver's `WM`. */
    const WM: WordMap
    /** `found`, most recent first: `push` adds at the front. */
    var found: seq<seq<Char16>>
    /** The key each found word was matched under, and the tile path whose letters hash to it. */
    ghost var foundKeys: seq<Hashes>
    ghost var foundPaths: seq<seq<int>>

    /**
     * A board that is searched: at least one column, `N` tiles, and `move`
     * from any of them never leaves the `N` tiles.
     */
    ghost predicate Searchable() {
      C > 0 && board.Length == N && |tiles| == N
      && forall i, d :: 0 <= i < N && Move(R, C, i, d) != -1 ==> Move(R, C, i, d) < N
    }

    /** `board` holds the imported letters. */
    ghost predicate Loaded()
      reads board
    {
      board[..] == tiles
    }

    /** What the search has found, as `SearchStacks.FoundOk` states it. */
    ghost predicate FoundOk()
      reads this, WM
    {
      SearchStacks.FoundOk(WM.fn, C, tiles, WM.dict, found, foundKeys, foundPaths)
    }

    /** `foundSet` holds exactly the keys of the found words. */
    ghost predicate Tracks(foundSet: set<Hashes>)
      reads this
    {
      SearchStacks.Tracks(foundSet, foundKeys)
    }

    /**
     * `WordSearch(board)`: a board of fewer than `MIN_WORD_LEN` tiles gets
     * an empty tile array and is not searched; otherwise the tiles are
     * imported and searched.
     */
    constructor (WM: WordMap, b: BoggleBoard)
      requires b.Valid()
      ensures this.WM == WM && R == b.rows && C == b.cols && N == R * C
      ensures N < MIN_WORD_LEN ==> board.Length == 0 && found == []
      ensures N >= MIN_WORD_LEN ==> Searchable() && tiles == Flatten(b.letters) && Loaded() && FoundOk()
    {
      R, C, N := b.rows, b.cols, b.rows * b.cols;
      MulIsProduct(b.rows, b.cols);
      if b.rows * b.cols >= MIN_WORD_LEN {
        FlattenLength(b.letters, b.cols);
        tiles := Flatten(b.letters);
      } else {
        tiles := [];
      }
      this.WM := WM;
      found, foundKeys, foundPaths := [], [], [];
      if b.rows * b.cols >= MIN_WORD_LEN {
        board := new JInt[b.rows * b.cols](_ => 0);
      } else {
        board := new JInt[0];
      }
      new;
      if N >= MIN_WORD_LEN {
        ImportBoard(b);
        Dfs();
      }
    }

    /** `importBoard(board)`: the letters row by row, so that row `r`, column `c` lands at `getBoardIndex(r, c)`. */
    method ImportBoard(b: BoggleBoard)
      requires b.Valid() && b.rows == R && b.cols == C && N == R * C && Searchable() && tiles == Flatten(b.letters)
      modifies board
      ensures Loaded()
    {
      CopyRows(b, board);
    }

    /** The stack entries, as `SearchStacks.StackOk` states them for this board. */
    ghost predicate StackOk(stack: seq<DFSHash>, paths: seq<seq<int>>, marks: seq<bool>)
      requires Searchable()
    {
      SearchStacks.StackOk(WM.fn, C, tiles, stack, paths, marks)
    }

    /** What `k` children of an entry with path `p` weigh together. */
    ghost function Children(k: nat, p: seq<int>): int {
      Mul(k, ChildShare(N, p))
    }

    /** One more child adds one child's weight. */
    lemma ChildrenSucc(k: nat, p: seq<int>)
      ensures Children(k + 1, p) == Children(k, p) + ChildShare(N, p)
    {
    }

    /** `dfs()`: one `dfsWorker` run from each tile in turn, sharing `seen` and `foundSet`. */
    method Dfs()
      requires Searchable() && Loaded() && found == [] && foundKeys == [] && foundPaths == []
      modifies this
      ensures FoundOk()
    {
      var seen := new bool[N](_ => false);
      var foundSet: set<Hashes> := {};
      for i := 0 to N
        invariant seen.Length == N && forall x :: 0 <= x < N ==> !seen[x]
        invariant Loaded() && FoundOk() && Tracks(foundSet)
      {
        assert board[i] == tiles[i];
        var parent := new DFSHash(WM.fn, i, board[i]);
        foundSet := DfsWorker([parent], foundSet, seen);
      }
    }

    /**
     * `dfsWorker(stack, foundSet, seen)`, started as `dfs` starts it: every
     * entry a single tile and nothing marked. It runs until the stack is
     * empty and leaves `seen` all unmarked again.
     */
    method DfsWorker(stack0: seq<DFSHash>, foundSet0: set<Hashes>, seen: array<bool>) returns (foundSet: set<Hashes>)
      requires Searchable() && Loaded() && seen.Length == N
      requires forall x :: 0 <= x < N ==> !seen[x]
      requires forall k :: 0 <= k < |stack0| ==>
                 0 <= stack0[k].index < N
                 && stack0[k].value == Fold(WM.fn, HashAlgs.Init(WM.fn), [tiles[stack0[k].index]])
      requires FoundOk() && Tracks(foundSet0)
      modifies this, seen
      ensures forall x :: 0 <= x < N ==> !seen[x]
      ensures FoundOk() && Tracks(foundSet)
    {
      var stack := stack0;
      ghost var paths, marks := StartStack(WM.fn, C, tiles, stack0);
      foundSet := foundSet0;
      CountTrueNone(seen[..]);
      assert Marks(seen[..], Cur(paths, marks));
      while stack != []
        invariant StackOk(stack, paths, marks) && Marks(seen[..], Cur(paths, marks))
        invariant Loaded() && FoundOk() && Tracks(foundSet)
        decreases 10 * Weight(N, paths, marks) + |stack|
      {
        ghost var before := 10 * Weight(N, paths, marks) + |stack|;
        var cur := stack[|stack| - 1];
        var i := cur.index;
        TopMark(WM.fn, C, tiles, stack, paths, marks, seen[..]);
        assert seen[..][i] == seen[i];
        if seen[i] {
          stack, paths, marks := Backtrack(stack, paths, marks, seen);
          assert 10 * Weight(N, paths, marks) + |stack| < before;
        } else {
          assert !marks[|marks| - 1];
          stack, paths, marks, foundSet := Descend(cur, stack, paths, marks, seen, foundSet);
          assert 10 * Weight(N, paths, marks) + |stack| < before;
        }
      }
    }

    /** A pending top entry is visited and its children pushed, which lowers the search's measure. */
    method Descend(cur: DFSHash, stack: seq<DFSHash>, ghost paths: seq<seq<int>>, ghost marks: seq<bool>,
                   seen: array<bool>, foundSet0: set<Hashes>)
      returns (stack': seq<DFSHash>, ghost paths': seq<seq<int>>, ghost marks': seq<bool>, foundSet: set<Hashes>)
      requires Searchable() && Loaded() && seen.Length == N && StackOk(stack, paths, marks) && Marks(seen[..], Cur(paths, marks))
      requires stack != [] && cur == stack[|stack| - 1] && !marks[|marks| - 1]
      requires FoundOk() && Tracks(foundSet0)
      modifies this, seen
      ensures StackOk(stack', paths', marks') && Marks(seen[..], Cur(paths', marks'))
      ensures 10 * Weight(N, paths', marks') + |stack'| < 10 * Weight(N, paths, marks) + |stack|
      ensures FoundOk() && Tracks(foundSet)
    {
      ghost var top := paths[|paths| - 1];
      ghost var big, small := Share(N, top), ChildShare(N, top);
      var marks1 := Visit(stack, paths, marks, seen);
      ghost var pushed;
      stack', paths', marks', foundSet, pushed := Expand(cur, stack, paths, marks1, seen, foundSet0);
      if pushed > 0 {
        ShareSplit(N, top);
      }
      ExpandBudget(Weight(N, paths, marks), Weight(N, paths, marks1), Weight(N, paths', marks'),
                   pushed, small, big, |stack|, |stack'|);
    }

    /** The visited top entry is popped and its tile unmarked. */
    method Backtrack(stack: seq<DFSHash>, ghost paths: seq<seq<int>>, ghost marks: seq<bool>, seen: array<bool>)
      returns (stack': seq<DFSHash>, ghost paths': seq<seq<int>>, ghost marks': seq<bool>)
      requires Searchable() && seen.Length == N && StackOk(stack, paths, marks) && Marks(seen[..], Cur(paths, marks))
      requires stack != [] && marks[|marks| - 1]
      modifies seen
      ensures StackOk(stack', paths', marks') && Marks(seen[..], Cur(paths', marks'))
      ensures stack' == stack[..|stack| - 1] && Weight(N, paths', marks') == Weight(N, paths, marks)
    {
      var i := stack[|stack| - 1].index;
      PopOk(WM.fn, C, tiles, stack, paths, marks, seen[..]);
      seen[i] := false;
      stack', paths', marks' := stack[..|stack| - 1], paths[..|paths| - 1], marks[..|marks| - 1];
    }

    /** The pending top entry is visited: its tile is marked. */
    method Visit(stack: seq<DFSHash>, ghost paths: seq<seq<int>>, ghost marks: seq<bool>, seen: array<bool>)
      returns (ghost marks': seq<bool>)
      requires Searchable() && seen.Length == N && StackOk(stack, paths, marks) && Marks(seen[..], Cur(paths, marks))
      requires stack != [] && !marks[|marks| - 1]
      modifies seen
      ensures marks' == marks[|marks| - 1 := true]
      ensures StackOk(stack, paths, marks') && Marks(seen[..], paths[|paths| - 1]) && Cur(paths, marks') == paths[|paths| - 1]
      ensures Weight(N, paths, marks') + Share(N, paths[|paths| - 1]) == Weight(N, paths, marks)
    {
      var i := stack[|stack| - 1].index;
      ghost var s := seen[..];
      VisitOk(WM.fn, C, tiles, stack, paths, marks, s);
      seen[i] := true;
      assert seen[..] == s[i := true];
      marks' := marks[|marks| - 1 := true];
    }

    /**
     * The loop over `Directions.values()` in `dfsWorker` for the visited top
     * entry `cur`, one direction at a time.
     */
    method Expand(cur: DFSHash, stack: seq<DFSHash>, ghost paths: seq<seq<int>>, ghost marks: seq<bool>,
                  seen: array<bool>, foundSet0: set<Hashes>)
      returns (stack': seq<DFSHash>, ghost paths': seq<seq<int>>, ghost marks': seq<bool>, foundSet: set<Hashes>,
               ghost pushed: nat)
      requires Searchable() && Loaded() && StackOk(stack, paths, marks) && stack != [] && marks[|marks| - 1]
      requires cur == stack[|stack| - 1] && seen.Length == N && Marks(seen[..], paths[|paths| - 1])
      requires Cur(paths, marks) == paths[|paths| - 1]
      requires FoundOk() && Tracks(foundSet0)
      modifies this
      ensures StackOk(stack', paths', marks') && Cur(paths', marks') == paths[|paths| - 1]
      ensures |stack'| == |stack| + pushed && pushed <= 8
      ensures Weight(N, paths', marks') == Weight(N, paths, marks) + Children(pushed, paths[|paths| - 1])
      ensures pushed > 0 ==> |paths[|paths| - 1]| < N
      ensures FoundOk() && Tracks(foundSet)
    {
      ghost var top := paths[|paths| - 1];
      ghost var w := Weight(N, paths, marks);
      stack', paths', marks', foundSet, pushed := stack, paths, marks, foundSet0, 0;
      for t := 0 to 8
        invariant StackOk(stack', paths', marks') && Cur(paths', marks') == top
        invariant |stack'| == |stack| + pushed && pushed <= t
        invariant Weight(N, paths', marks') == w + Children(pushed, top) && (pushed > 0 ==> |top| < N)
        invariant Marks(seen[..], top) && Loaded() && FoundOk() && Tracks(foundSet)
      {
        stack', paths', marks', foundSet, pushed :=
          Step(cur, top, DIRECTIONS[t], stack', paths', marks', seen, foundSet, w, |stack|, pushed);
      }
    }

    /**
     * One direction `d` from the visited entry `cur` with path `top`: a step
     * that stays on the board and reaches an unmarked tile builds the
     * child's hashes; the child is pushed when it is the prefix of some
     * word, and its word is added when it is one and its key is not yet in
     * `foundSet`.
     */
    method Step(cur: DFSHash, ghost top: seq<int>, d: Direction, stack: seq<DFSHash>, ghost paths: seq<seq<int>>,
                ghost marks: seq<bool>, seen: array<bool>, foundSet0: set<Hashes>, ghost w: int, ghost base: nat,
                ghost pushed: nat)
      returns (stack': seq<DFSHash>, ghost paths': seq<seq<int>>, ghost marks': seq<bool>, foundSet: set<Hashes>,
               ghost pushed': nat)
      requires Searchable() && Loaded() && StackOk(stack, paths, marks) && Cur(paths, marks) == top && d in DIRECTIONS
      requires TilePath(N, C, top) && cur.index == Last(top)
      requires cur.value == PathHash(WM.fn, tiles, top)
      requires seen.Length == N && Marks(seen[..], top)
      requires FoundOk() && Tracks(foundSet0)
      requires |stack| == base + pushed
      requires Weight(N, paths, marks) == w + Children(pushed, top) && (pushed > 0 ==> |top| < N)
      modifies this
      ensures StackOk(stack', paths', marks') && Cur(paths', marks') == top
      ensures |stack'| == base + pushed' && pushed' <= pushed + 1
      ensures Weight(N, paths', marks') == w + Children(pushed', top) && (pushed' > 0 ==> |top| < N)
      ensures FoundOk() && Tracks(foundSet)
    {
      stack', paths', marks', foundSet, pushed' := stack, paths, marks, foundSet0, pushed;
      var nextI := Move(R, C, cur.index, d);
      if nextI == -1 || seen[nextI] {
        return;
      }
      MoveIsAdjacent(R, C, cur.index, d);
      ghost var p := top + [nextI];
      TilePathSnoc(N, C, top, nextI);
      ChildHash(WM.fn, tiles, top, nextI);
      assert board[nextI] == tiles[nextI];
      var nextH := new DFSHash.Extend(WM.fn, cur, nextI, board[nextI]);
      assert nextH.index == Last(p) && nextH.value == PathHash(WM.fn, tiles, p);
      if WM.ValidSub(nextH.value) {
        CountTrueMissing(seen[..], nextI);
        stack', paths', marks' := Push(nextH, top, nextI, stack, paths, marks);
        ChildrenSucc(pushed, top);
        pushed' := pushed + 1;
      }
      var word := WM.ValidWord(nextH.value);
      if word != None && nextH.value !in foundSet {
        foundSet := Record(nextH.value, word.value, p, foundSet);
      }
    }

    /** `stack.push(nextH)`: a pending entry one tile beyond the marked path. */
    method Push(e: DFSHash, ghost top: seq<int>, ghost j: int, stack: seq<DFSHash>, ghost paths: seq<seq<int>>,
                ghost marks: seq<bool>)
      returns (stack': seq<DFSHash>, ghost paths': seq<seq<int>>, ghost marks': seq<bool>)
      requires Searchable() && StackOk(stack, paths, marks) && Cur(paths, marks) == top
      requires TilePath(N, C, top + [j]) && e.index == j && e.value == PathHash(WM.fn, tiles, top + [j])
      ensures stack' == stack + [e] && StackOk(stack', paths', marks') && Cur(paths', marks') == top
      ensures Weight(N, paths', marks') == Weight(N, paths, marks) + ChildShare(N, top)
    {
      ghost var p := top + [j];
      assert Parent(p) == top;
      PushOk(WM.fn, C, tiles, stack, paths, marks, e, p);
      WeightPush(N, paths, marks, top, p);
      stack', paths', marks' := stack + [e], paths + [p], marks + [false];
    }

    /** `found.push(word)` after `foundSet.add(key)` succeeded. */
    method Record(key: Hashes, word: seq<Char16>, ghost p: seq<int>, foundSet0: set<Hashes>) returns (foundSet: set<Hashes>)
      requires Searchable() && FoundOk() && Tracks(foundSet0)
      requires key !in foundSet0 && key in WM.dict && word == WM.dict[key]
      requires |p| >= 2 && TilePath(N, C, p) && PathHash(WM.fn, tiles, p) == key
      modifies this
      ensures found == [word] + old(found) && foundKeys == [key] + old(foundKeys)
      ensures FoundOk() && Tracks(foundSet) && foundSet == foundSet0 + {key}
    {
      RecordOk(WM.fn, C, tiles, WM.dict, found, foundKeys, foundPaths, key, word, p);
      foundSet := foundSet0 + {key};
      found := [word] + found;
      foundKeys := [key] + foundKeys;
      foundPaths := [p] + foundPaths;
    }

    /** `found()`. */
    method Found() returns (words: seq<seq<Char16>>)
      ensures words == found
    {
      words := found;
    }
  }
}
