/**
 * The ghost bookkeeping of `WordSearch`'s depth-first search. The stack is a
 * sequence whose last entry is the top. Each entry is either pending
 * (pushed, not yet expanded) or visited (its tile is marked in `seen` and
 * its children have been pushed above it); each has the path of tiles its
 * hashes were built along (`paths`) and whether it has been visited
 * (`marks`).
 */
module SearchStacks {
  import opened Common
  import opened HashAlgs
  import opened WordHashes
  import opened BoggleGrid
  import Seqs

  function Last(p: seq<int>): int
    requires |p| > 0
  {
    p[|p| - 1]
  }

  /** A path without its last tile: the path of the entry that pushed it. */
  function Parent(p: seq<int>): seq<int>
    requires |p| > 0
  {
    p[..|p| - 1]
  }

  /** The marked tiles an entry leaves for the entries above it: its own path once visited, else its parent's. */
  function Trail(p: seq<int>, visited: bool): seq<int> {
    if visited || p == [] then p else Parent(p)
  }

  /** The tiles marked in `seen`: the trail of the top entry. */
  ghost function Cur(paths: seq<seq<int>>, marks: seq<bool>): seq<int>
    requires |paths| == |marks|
  {
    if paths == [] then [] else Trail(paths[|paths| - 1], marks[|marks| - 1])
  }

  /** The hashes of the letters along a path: what a `DFSHash` built along it holds. */
  function PathHash(fn: HashFn, board: seq<JInt>, p: seq<int>): Hashes
    requires forall k :: 0 <= k < |p| ==> 0 <= p[k] < |board|
  {
    Fold(fn, HashAlgs.Init(fn), Letters(board, p))
  }

  lemma ParentLast(p: seq<int>)
    requires |p| > 0
    ensures Parent(p) + [Last(p)] == p
  {
  }

  /** A path never holds its last tile twice. */
  lemma LastNotInParent(n: int, C: int, p: seq<int>)
    requires C > 0 && TilePath(n, C, p)
    ensures Last(p) !in Parent(p)
  {
  }

  /** `9^e`, and 1 for `e <= 0`. */
  function Pow9(e: int): (r: nat)
    ensures r >= 1
    decreases e
  {
    if e <= 0 then 1 else 9 * Pow9(e - 1)
  }

  /** What a pending entry with path `p` weighs: `9^(n - |p|)`. */
  ghost function Share(n: int, p: seq<int>): nat {
    Pow9(n - |p|)
  }

  /** What each child of an entry with path `p` weighs: a ninth of the entry's own weight. */
  ghost function ChildShare(n: int, p: seq<int>): nat {
    Pow9(n - |p| - 1)
  }

  /** An entry with fewer than `n` tiles weighs nine of its children. */
  lemma ShareSplit(n: int, p: seq<int>)
    requires |p| < n
    ensures Share(n, p) == 9 * ChildShare(n, p)
  {
  }

  /**
   * The termination measure of the search: a pending entry whose path has
   * `|p|` tiles weighs `9^(n - |p|)`, a visited entry nothing. Expanding an
   * entry replaces its weight by at most eight children of a ninth of it.
   */
  ghost function Weight(n: int, paths: seq<seq<int>>, marks: seq<bool>): nat
    requires |paths| == |marks|
  {
    SumWeights(n, paths, marks)
  }

  /** `Weight`, summed entry by entry from the bottom of the stack. */
  ghost function SumWeights(n: int, paths: seq<seq<int>>, marks: seq<bool>): nat
    requires |paths| == |marks|
    decreases |paths|
  {
    if paths == [] then 0
    else
      var m := |paths| - 1;
      SumWeights(n, paths[..m], marks[..m]) + (if marks[m] then 0 else Share(n, paths[m]))
  }

  lemma WeightPush(n: int, paths: seq<seq<int>>, marks: seq<bool>, top: seq<int>, p: seq<int>)
    requires |paths| == |marks| && |p| == |top| + 1
    ensures Weight(n, paths + [p], marks + [false]) == Weight(n, paths, marks) + ChildShare(n, top)
  {
    assert (paths + [p])[..|paths|] == paths && (marks + [false])[..|marks|] == marks;
  }

  lemma WeightVisit(n: int, paths: seq<seq<int>>, marks: seq<bool>)
    requires |paths| == |marks| && |paths| > 0 && !marks[|marks| - 1]
    ensures Weight(n, paths, marks[|marks| - 1 := true]) + Share(n, paths[|paths| - 1]) == Weight(n, paths, marks)
  {
    var m := |marks| - 1;
    assert marks[m := true][..m] == marks[..m];
  }

  lemma WeightPop(n: int, paths: seq<seq<int>>, marks: seq<bool>)
    requires |paths| == |marks| && |paths| > 0 && marks[|marks| - 1]
    ensures Weight(n, paths[..|paths| - 1], marks[..|marks| - 1]) == Weight(n, paths, marks)
  {
  }

  /** The budget of one expansion: at most eight children of weight `P` replace a weight of `9 * P`. */
  lemma ExpandBudget(before: nat, w: nat, after: nat, m: nat, p: nat, q: nat, size: nat, size': nat)
    requires m <= 8 && p >= 1 && q >= 1 && (m > 0 ==> q == 9 * p)
    requires before == w + q && after == w + Mul(m, p) && size' == size + m
    ensures 10 * after + size' < 10 * before + size
  {
    MulIsProduct(m, p);
    if m > 0 {
      assert (8 - m) * p >= 0;
      assert m * p <= 8 * p;
    }
  }

  /** The number of marked tiles. */
  function CountTrue(s: seq<bool>): (r: nat)
    ensures r <= |s|
    decreases |s|
  {
    if s == [] then 0 else CountTrue(s[..|s| - 1]) + (if s[|s| - 1] then 1 else 0)
  }

  lemma {:induction false} CountTrueSet(s: seq<bool>, i: nat, b: bool)
    requires i < |s|
    ensures CountTrue(s[i := b]) == CountTrue(s) - (if s[i] then 1 else 0) + (if b then 1 else 0)
    decreases |s|
  {
    var m := |s| - 1;
    if i < m {
      assert s[i := b][..m] == s[..m][i := b];
      CountTrueSet(s[..m], i, b);
    } else {
      assert s[i := b][..m] == s[..m];
    }
  }

  lemma {:induction false} CountTrueNone(s: seq<bool>)
    requires forall k :: 0 <= k < |s| ==> !s[k]
    ensures CountTrue(s) == 0
    decreases |s|
  {
    if s != [] {
      CountTrueNone(s[..|s| - 1]);
    }
  }

  /** An unmarked tile leaves fewer marks than tiles. */
  lemma {:induction false} CountTrueMissing(s: seq<bool>, i: nat)
    requires i < |s| && !s[i]
    ensures CountTrue(s) < |s|
    decreases |s|
  {
    var m := |s| - 1;
    if i < m {
      CountTrueMissing(s[..m], i);
    }
  }

  /** `seen` marks exactly the tiles of `marked`, and counts them. */
  predicate Marks(seen: seq<bool>, marked: seq<int>) {
    (forall x :: 0 <= x < |seen| ==> (seen[x] <==> x in marked))
    && CountTrue(seen) == |marked|
  }

  /** Marking a tile outside the marked path extends it by that tile. */
  lemma MarkTile(seen: seq<bool>, marked: seq<int>, i: int)
    requires Marks(seen, marked) && 0 <= i < |seen| && i !in marked
    ensures Marks(seen[i := true], marked + [i])
  {
    CountTrueSet(seen, i, true);
  }

  /** Unmarking the last tile of a path with no tile twice leaves its parent marked. */
  lemma UnmarkTile(seen: seq<bool>, marked: seq<int>)
    requires Marks(seen, marked) && |marked| > 0 && Last(marked) !in Parent(marked)
    requires 0 <= Last(marked) < |seen|
    ensures Marks(seen[Last(marked) := false], Parent(marked))
  {
    ParentLast(marked);
    CountTrueSet(seen, Last(marked), false);
  }

  /** One more tile on a path: the hashes of the letters along it, one `append` later. */
  lemma ChildHash(fn: HashFn, board: seq<JInt>, p: seq<int>, j: int)
    requires forall k :: 0 <= k < |p| ==> 0 <= p[k] < |board|
    requires 0 <= j < |board|
    ensures HashAlgs.Append(fn, PathHash(fn, board, p), board[j]) == PathHash(fn, board, p + [j])
  {
    FoldSnoc(fn, HashAlgs.Init(fn), Letters(board, p), board[j]);
    LettersSnoc(board, p, j);
  }

  /**
   * A well-formed depth-first stack, entry by entry from the bottom: each
   * entry's path is a tile path extending the trail of the entries below it
   * (so the bottom entry is a single tile), and the entry holds the path's
   * last tile and the hashes of its letters.
   */
  ghost predicate StackOk(fn: HashFn, C: int, board: seq<JInt>, stack: seq<DFSHash>, paths: seq<seq<int>>, marks: seq<bool>)
    requires C > 0
    decreases |stack|
  {
    |stack| == |paths| == |marks|
    && (stack != [] ==>
          var m := |stack| - 1;
          StackOk(fn, C, board, stack[..m], paths[..m], marks[..m])
          && TilePath(|board|, C, paths[m])
          && Parent(paths[m]) == Cur(paths[..m], marks[..m])
          && stack[m].index == Last(paths[m])
          && stack[m].value == PathHash(fn, board, paths[m]))
  }

  /** Pushing an entry for a pending path one tile beyond the marked path keeps the stack well formed. */
  lemma PushOk(fn: HashFn, C: int, board: seq<JInt>, stack: seq<DFSHash>, paths: seq<seq<int>>, marks: seq<bool>,
               e: DFSHash, p: seq<int>)
    requires C > 0 && StackOk(fn, C, board, stack, paths, marks)
    requires TilePath(|board|, C, p) && Parent(p) == Cur(paths, marks)
    requires e.index == Last(p) && e.value == PathHash(fn, board, p)
    ensures StackOk(fn, C, board, stack + [e], paths + [p], marks + [false])
    ensures Cur(paths + [p], marks + [false]) == Cur(paths, marks)
  {
    assert (stack + [e])[..|stack|] == stack;
    assert (paths + [p])[..|paths|] == paths;
    assert (marks + [false])[..|marks|] == marks;
  }

  /** `dfs`'s stack for one `dfsWorker` run: each entry pending, its path its own tile. */
  lemma {:induction false} StartStack(fn: HashFn, C: int, board: seq<JInt>, stack0: seq<DFSHash>)
    returns (paths: seq<seq<int>>, marks: seq<bool>)
    requires C > 0
    requires forall k :: 0 <= k < |stack0| ==>
               0 <= stack0[k].index < |board|
               && stack0[k].value == Fold(fn, HashAlgs.Init(fn), [board[stack0[k].index]])
    ensures StackOk(fn, C, board, stack0, paths, marks) && Cur(paths, marks) == []
    decreases |stack0|
  {
    if stack0 == [] {
      paths, marks := [], [];
    } else {
      var m := |stack0| - 1;
      var e := stack0[m];
      var before, marks0 := StartStack(fn, C, board, stack0[..m]);
      assert Letters(board, [e.index]) == [board[e.index]];
      PushOk(fn, C, board, stack0[..m], before, marks0, e, [e.index]);
      Seqs.SplitLast(stack0);
      paths, marks := before + [[e.index]], marks0 + [false];
    }
  }

  /** The top entry's tile is on the board, and it is marked exactly when the top entry has been visited. */
  lemma TopMark(fn: HashFn, C: int, board: seq<JInt>, stack: seq<DFSHash>, paths: seq<seq<int>>, marks: seq<bool>,
                seen: seq<bool>)
    requires C > 0 && StackOk(fn, C, board, stack, paths, marks) && stack != []
    requires |seen| == |board| && Marks(seen, Cur(paths, marks))
    ensures 0 <= stack[|stack| - 1].index < |seen|
    ensures seen[stack[|stack| - 1].index] <==> marks[|marks| - 1]
  {
    LastNotInParent(|board|, C, paths[|paths| - 1]);
  }

  /** Popping the visited top entry and unmarking its tile keeps the stack and the marks in step. */
  lemma PopOk(fn: HashFn, C: int, board: seq<JInt>, stack: seq<DFSHash>, paths: seq<seq<int>>, marks: seq<bool>,
              seen: seq<bool>)
    requires C > 0 && StackOk(fn, C, board, stack, paths, marks) && stack != [] && marks[|marks| - 1]
    requires |seen| == |board| && Marks(seen, Cur(paths, marks))
    ensures 0 <= stack[|stack| - 1].index < |seen|
    ensures StackOk(fn, C, board, stack[..|stack| - 1], paths[..|paths| - 1], marks[..|marks| - 1])
    ensures Marks(seen[stack[|stack| - 1].index := false], Cur(paths[..|paths| - 1], marks[..|marks| - 1]))
    ensures Weight(|board|, paths[..|paths| - 1], marks[..|marks| - 1]) == Weight(|board|, paths, marks)
  {
    var top := paths[|paths| - 1];
    LastNotInParent(|board|, C, top);
    UnmarkTile(seen, top);
  }

  /** Visiting the pending top entry and marking its tile: the marked path becomes the entry's own. */
  lemma VisitOk(fn: HashFn, C: int, board: seq<JInt>, stack: seq<DFSHash>, paths: seq<seq<int>>, marks: seq<bool>,
                seen: seq<bool>)
    requires C > 0 && StackOk(fn, C, board, stack, paths, marks) && stack != [] && !marks[|marks| - 1]
    requires |seen| == |board| && Marks(seen, Cur(paths, marks))
    ensures 0 <= stack[|stack| - 1].index < |seen|
    ensures StackOk(fn, C, board, stack, paths, marks[|marks| - 1 := true])
    ensures Cur(paths, marks[|marks| - 1 := true]) == paths[|paths| - 1]
    ensures Marks(seen[stack[|stack| - 1].index := true], paths[|paths| - 1])
    ensures Weight(|board|, paths, marks[|marks| - 1 := true]) + Share(|board|, paths[|paths| - 1])
            == Weight(|board|, paths, marks)
  {
    var m := |marks| - 1;
    var top := paths[m];
    assert marks[m := true][..m] == marks[..m];
    WeightVisit(|board|, paths, marks);
    LastNotInParent(|board|, C, top);
    ParentLast(top);
    MarkTile(seen, Parent(top), Last(top));
  }

  /**
   * What the search has found, most recent first: each word is the
   * dictionary entry of a key found nowhere later in the list, and each key
   * is the hash of the letters along a tile path of at least two tiles.
   */
  ghost predicate FoundOk(fn: HashFn, C: int, board: seq<JInt>, dict: map<Hashes, seq<Char16>>,
                          found: seq<seq<Char16>>, keys: seq<Hashes>, fpaths: seq<seq<int>>)
    decreases |found|
  {
    |keys| == |found| && |fpaths| == |found|
    && (found != [] ==>
          FoundOk(fn, C, board, dict, found[1..], keys[1..], fpaths[1..])
          && keys[0] !in keys[1..] && keys[0] in dict && found[0] == dict[keys[0]]
          && C > 0 && |fpaths[0]| >= 2 && TilePath(|board|, C, fpaths[0])
          && PathHash(fn, board, fpaths[0]) == keys[0])
  }

  /** A word found under a new key along a path of at least two tiles keeps `FoundOk`. */
  lemma RecordOk(fn: HashFn, C: int, board: seq<JInt>, dict: map<Hashes, seq<Char16>>,
                 found: seq<seq<Char16>>, keys: seq<Hashes>, fpaths: seq<seq<int>>,
                 key: Hashes, word: seq<Char16>, p: seq<int>)
    requires FoundOk(fn, C, board, dict, found, keys, fpaths) && key !in keys
    requires key in dict && word == dict[key]
    requires C > 0 && |p| >= 2 && TilePath(|board|, C, p) && PathHash(fn, board, p) == key
    ensures FoundOk(fn, C, board, dict, [word] + found, [key] + keys, [p] + fpaths)
  {
    assert ([word] + found)[1..] == found;
    assert ([key] + keys)[1..] == keys;
    assert ([p] + fpaths)[1..] == fpaths;
  }

  /**
   * `FoundOk` word by word: the words are dictionary entries under pairwise
   * distinct keys, each the hash of the letters along a tile path of at
   * least two tiles.
   */
  lemma {:induction false} FoundFacts(fn: HashFn, C: int, board: seq<JInt>, dict: map<Hashes, seq<Char16>>,
                                      found: seq<seq<Char16>>, keys: seq<Hashes>, fpaths: seq<seq<int>>)
    requires FoundOk(fn, C, board, dict, found, keys, fpaths)
    ensures |keys| == |found| && |fpaths| == |found|
    ensures forall j, k :: 0 <= j < k < |keys| ==> keys[j] != keys[k]
    ensures forall k :: 0 <= k < |found| ==> keys[k] in dict && found[k] == dict[keys[k]]
    ensures forall k :: 0 <= k < |found| ==>
              C > 0 && |fpaths[k]| >= 2 && TilePath(|board|, C, fpaths[k]) && PathHash(fn, board, fpaths[k]) == keys[k]
    decreases |found|
  {
    if found != [] {
      FoundFacts(fn, C, board, dict, found[1..], keys[1..], fpaths[1..]);
      forall j, k | 0 <= j < k < |keys|
        ensures keys[j] != keys[k]
      {
        assert keys[k] == keys[1..][k - 1];
        if j > 0 {
          assert keys[j] == keys[1..][j - 1];
        }
      }
      forall k | 0 < k < |found|
        ensures keys[k] in dict && found[k] == dict[keys[k]]
        ensures C > 0 && |fpaths[k]| >= 2 && TilePath(|board|, C, fpaths[k]) && PathHash(fn, board, fpaths[k]) == keys[k]
      {
        assert keys[k] == keys[1..][k - 1] && found[k] == found[1..][k - 1] && fpaths[k] == fpaths[1..][k - 1];
      }
    }
  }

  /** `foundSet` holds exactly the keys of the found words. */
  ghost predicate Tracks(foundSet: set<Hashes>, keys: seq<Hashes>) {
    forall h :: h in foundSet <==> h in keys
  }
}
