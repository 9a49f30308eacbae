/**
 * `BoggleSolver`: the public face of the Boggle solver. It builds a
 * `WordMap` from the dictionary once, answers `getAllValidWords(board)`
 * with a fresh `WordSearch`, and scores words by length. Two copies of the
 * class exist: the packaged one checks the dictionary in `scoreOf`; the
 * other installs FNV-1a as the global hash function and scores by length
 * alone. A Java `null` argument is `None`.
 */
module BoggleSolvers {
  import opened Common
  import opened HashAlgs
  import opened WordHashes
  import opened WordMaps
  import opened BoggleGrid
  import opened SearchStacks
  import opened BoggleSearch

  /** `score`: the points for a word, indexed by its length. */
  const SCORE: seq<int> := [0, 0, 0, 1, 1, 2, 3, 5, 11]

  /**
   * The points of the game's rules, stated on their own: nothing below three
   * letters, then 1, 1, 2, 3 and 5 points for three to seven letters, and 11
   * for eight or more.
   */
  function RuleScore(n: nat): nat {
    if n < 3 then 0
    else if n < 5 then 1
    else if n == 5 then 2
    else if n == 6 then 3
    else if n == 7 then 5
    else 11
  }

  /** The table look-up of `scoreOf`: `score[n]`, and the last entry for longer words. */
  function TableScore(n: nat): (p: int)
    ensures p == RuleScore(n)
  {
    if n < |SCORE| then SCORE[n] else SCORE[|SCORE| - 1]
  }

  /** A longer word never scores less. */
  lemma {:induction false} ScoreMonotone(m: nat, n: nat)
    requires m <= n
    ensures TableScore(m) <= TableScore(n)
  {
    assert TableScore(m) == RuleScore(m) && TableScore(n) == RuleScore(n);
  }

  /**
   * A word the board spells, as far as hashes can tell: some path of at
   * least two adjacent, distinct tiles whose letters hash to the word's key.
   */
  ghost predicate OnBoard(fn: HashFn, b: BoggleBoard, w: seq<Char16>) {
    b.cols > 0
    && exists p :: |p| >= 2 && TilePath(|Flatten(b.letters)|, b.cols, p) && PathHash(fn, Flatten(b.letters), p) == Key(fn, w)
  }

  /** The guarantees of a search result: dictionary words, none twice, each spelled on the board. */
  ghost predicate Solution(fn: HashFn, words: seq<seq<Char16>>, b: BoggleBoard, found: seq<seq<Char16>>) {
    (forall k :: 0 <= k < |found| ==> found[k] in words && Accepted(found[k]) && OnBoard(fn, b, found[k]))
    && (forall j, k :: 0 <= j < k < |found| ==> found[j] != found[k])
  }

  /** The words a finished search holds, from what `SearchStacks.FoundOk` records about them. */
  lemma SolutionOf(fn: HashFn, words: seq<seq<Char16>>, b: BoggleBoard, found: seq<seq<Char16>>,
                   keys: seq<Hashes>, fpaths: seq<seq<int>>)
    requires b.cols > 0
    requires FoundOk(fn, b.cols, Flatten(b.letters), DictOf(fn, words), found, keys, fpaths)
    ensures Solution(fn, words, b, found)
  {
    var dict := DictOf(fn, words);
    FoundFacts(fn, b.cols, Flatten(b.letters), dict, found, keys, fpaths);
    DictEntries(fn, words);
    forall k | 0 <= k < |found|
      ensures found[k] in words && Accepted(found[k]) && OnBoard(fn, b, found[k])
    {
      assert keys[k] in dict;
      assert Key(fn, found[k]) == keys[k];
      var p := fpaths[k];
      assert |p| >= 2 && TilePath(|Flatten(b.letters)|, b.cols, p) && PathHash(fn, Flatten(b.letters), p) == Key(fn, found[k]);
    }
    forall j, k | 0 <= j < k < |found|
      ensures found[j] != found[k]
    {
      assert Key(fn, found[j]) == keys[j] && Key(fn, found[k]) == keys[k];
    }
  }

  class BoggleSolver {
    const WM: WordMap
    /** The dictionary the solver was built from. */
    ghost const words: seq<seq<Char16>>

    ghost predicate Valid()
      reads this, WM
    {
      WM.dict == DictOf(WM.fn, words) && WM.subs == SubsOf(WM.fn, words)
    }

    /** `BoggleSolver(dictionary)` for a non-null `dictionary`, with `fn` the global hash function. */
    constructor (fn: HashFn, dictionary: seq<seq<Char16>>)
      ensures Valid() && words == dictionary && WM.fn == fn && fresh(WM)
    {
      words := dictionary;
      WM := new WordMap(fn, dictionary);
    }

    /** `BoggleSolver(dictionary)`: a null dictionary throws, from the `WordMap` constructor. */
    static method Make(fn: HashFn, dictionary: Option<seq<seq<Char16>>>) returns (r: Result<BoggleSolver>)
      ensures dictionary == None ==> r == Err(IllegalArgument)
      ensures dictionary != None ==> r.Ok? && fresh(r.value) && r.value.Valid() && r.value.words == dictionary.value
    {
      if dictionary == None {
        return Err(IllegalArgument);
      }
      var s := new BoggleSolver(fn, dictionary.value);
      r := Ok(s);
    }

    /**
     * `getAllValidWords(board)`: a null board throws; a board of fewer than
     * three tiles yields nothing; otherwise the words are dictionary words a
     * search found on the board, none of them twice.
     */
    method GetAllValidWords(board: Option<BoggleBoard>) returns (r: Result<seq<seq<Char16>>>)
      requires Valid() && (board != None ==> board.value.Valid())
      ensures board == None ==> r == Err(IllegalArgument)
      ensures board != None && board.value.rows * board.value.cols < MIN_WORD_LEN ==> r == Ok([])
      ensures board != None ==> r.Ok? && Solution(WM.fn, words, board.value, r.value)
    {
      if board == None {
        return Err(IllegalArgument);
      }
      var b := board.value;
      var search := new WordSearch(WM, b);
      var ws := search.Found();
      if search.N >= MIN_WORD_LEN {
        SolutionOf(WM.fn, words, b, ws, search.foundKeys, search.foundPaths);
      }
      r := Ok(ws);
    }

    /**
     * `scoreOf(word)`: a null word throws; a word of more than two letters
     * that is not in the dictionary scores 0. `validWord(word)` is the
     * dictionary look-up of the word's key.
     */
    function ScoreOf(word: Option<seq<Char16>>): (r: Result<int>)
      reads this, WM
      requires Valid()
      ensures word == None ==> r == Err(IllegalArgument)
      ensures word != None && word.value in words && Accepted(word.value) ==> r == Ok(RuleScore(|word.value|))
      ensures word != None && |word.value| > 2 && Key(WM.fn, word.value) !in DictOf(WM.fn, words) ==> r == Ok(0)
      ensures word != None && |word.value| <= 2 ==> r == Ok(0)
      ensures r.Ok? ==> r.value == 0 || r.value == RuleScore(|word.value|)
    {
      match word
      case None => Err(IllegalArgument)
      case Some(w) =>
        DictHasKeys(WM.fn, words);
        if |w| > 2 && WM.ValidWord(Key(WM.fn, w)) == None then Ok(0)
        else Ok(TableScore(|w|))
    }
  }

  /** The other copy of `BoggleSolver`: FNV-1a as the hash function, and scores by length alone. */
  class FnvBoggleSolver {
    const WM: WordMap
    ghost const words: seq<seq<Char16>>

    ghost predicate Valid()
      reads this, WM
    {
      WM.fn == FNV1a && WM.dict == DictOf(FNV1a, words) && WM.subs == SubsOf(FNV1a, words)
    }

    /** `BoggleSolver(dictionary)`: `WordHash.hashFn = new HashAlgs.FNV1a()`, then the `WordMap`. */
    constructor (dictionary: seq<seq<Char16>>)
      ensures Valid() && words == dictionary && fresh(WM)
    {
      words := dictionary;
      WM := new WordMap(FNV1a, dictionary);
    }

    /** A null dictionary throws, from the `WordMap` constructor. */
    static method Make(dictionary: Option<seq<seq<Char16>>>) returns (r: Result<FnvBoggleSolver>)
      ensures dictionary == None ==> r == Err(IllegalArgument)
      ensures dictionary != None ==> r.Ok? && fresh(r.value) && r.value.Valid() && r.value.words == dictionary.value
    {
      if dictionary == None {
        return Err(IllegalArgument);
      }
      var s := new FnvBoggleSolver(dictionary.value);
      r := Ok(s);
    }

    /** `getAllValidWords(board)`, as in the packaged copy, with FNV-1a keys. */
    method GetAllValidWords(board: Option<BoggleBoard>) returns (r: Result<seq<seq<Char16>>>)
      requires Valid() && (board != None ==> board.value.Valid())
      ensures board == None ==> r == Err(IllegalArgument)
      ensures board != None && board.value.rows * board.value.cols < MIN_WORD_LEN ==> r == Ok([])
      ensures board != None ==> r.Ok? && Solution(FNV1a, words, board.value, r.value)
    {
      if board == None {
        return Err(IllegalArgument);
      }
      var b := board.value;
      var search := new WordSearch(WM, b);
      var ws := search.Found();
      if search.N >= MIN_WORD_LEN {
        SolutionOf(FNV1a, words, b, ws, search.foundKeys, search.foundPaths);
      }
      r := Ok(ws);
    }

    /** `scoreOf(word)`: a null word throws; every other word scores by its length, dictionary or not. */
    function ScoreOf(word: Option<seq<Char16>>): (r: Result<int>)
      ensures word == None ==> r == Err(IllegalArgument)
      ensures word != None ==> r == Ok(RuleScore(|word.value|))
    {
      match word
      case None => Err(IllegalArgument)
      case Some(w) => Ok(TableScore(|w|))
    }
  }

  /** On dictionary words the two copies award the same points. */
  lemma ScoresAgree(s: BoggleSolver, t: FnvBoggleSolver, w: seq<Char16>)
    requires s.Valid() && w in s.words && Accepted(w)
    ensures s.ScoreOf(Some(w)) == t.ScoreOf(Some(w))
  {
  }
}
