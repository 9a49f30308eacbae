/**
 * `WordHash`: a word kept only as its two hashes under the global hash
 * function, which is the parameter `fn` here; `DFSHash` adds the board
 * index of the word's last letter. `intArray` turns a word into the codes
 * the hashes are built from, collapsing "QU" to "Q".
 */
module WordHashes {
  import opened Common
  import opened HashAlgs
  import Seqs

  /** A word's codes up to, but not including, the first 0. */
  function UntilZero(word: seq<JInt>): (r: seq<JInt>)
    ensures |r| <= |word| && r == word[..|r|] && 0 !in r
    ensures |r| < |word| ==> word[|r|] == 0
  {
    if word == [] || word[0] == 0 then []
    else
      assert word[1..][..|UntilZero(word[1..])|] == word[1..1 + |UntilZero(word[1..])|];
      [word[0]] + UntilZero(word[1..])
  }

  /** `UntilZero` stops at the first 0, or at the end. */
  lemma {:induction false} UntilZeroAt(word: seq<JInt>, k: nat)
    requires k <= |word| && (k == |word| || word[k] == 0)
    requires 0 !in word[..k]
    ensures UntilZero(word) == word[..k]
  {
    if k > 0 {
      assert word[..k][1..] == word[1..][..k - 1];
      UntilZeroAt(word[1..], k - 1);
      assert word[..k] == [word[0]] + word[1..][..k - 1];
    }
  }

  class WordHash {
    var hash32: JInt
    var hash64: JLong

    /** The two hashes, as a value. */
    function Value(): Hashes
      reads this
    {
      Hashes(hash32, hash64)
    }

    /** `WordHash(that)` for a non-null `that`: both hashes copied. */
    constructor Copy(that: WordHash)
      ensures Value() == that.Value()
    {
      hash32, hash64 := that.hash32, that.hash64;
    }

    /** `WordHash()`: the hashes of the empty word. */
    constructor (fn: HashFn)
      ensures Value() == Fold(fn, HashAlgs.Init(fn), [])
    {
      hash32, hash64 := 0, 0;
      new;
      Init(fn);
    }

    /** `WordHash(c)`: `init` followed by one `append(c)`. */
    constructor Single(fn: HashFn, c: JInt)
      ensures Value() == HashAlgs.Append(fn, HashAlgs.Init(fn), c)
      ensures Value() == Fold(fn, HashAlgs.Init(fn), [c])
    {
      hash32, hash64 := 0, 0;
      new;
      Init(fn);
      Append(fn, c);
      assert Fold(fn, HashAlgs.Init(fn), [c]) == Fold(fn, HashAlgs.Append(fn, HashAlgs.Init(fn), c), []);
    }

    /** `WordHash(int[] word)`: the hashes of the codes before the first 0. */
    constructor OfWord(fn: HashFn, word: array<JInt>)
      ensures Value() == Fold(fn, HashAlgs.Init(fn), UntilZero(word[..]))
    {
      hash32, hash64 := 0, 0;
      new;
      Hash(fn, word);
    }

    /** `hashFn.init(this)`. */
    method Init(fn: HashFn)
      modifies this
      ensures Value() == HashAlgs.Init(fn)
    {
      var h := HashAlgs.Init(fn);
      hash32, hash64 := h.hash32, h.hash64;
    }

    /** `append(c)`: `hashFn.append(c, this)`. */
    method Append(fn: HashFn, c: JInt)
      modifies this
      ensures Value() == HashAlgs.Append(fn, old(Value()), c)
    {
      var h := HashAlgs.Append(fn, Value(), c);
      hash32, hash64 := h.hash32, h.hash64;
    }

    /** `append(c)` on the hashes of `cs`: the hashes of `cs + [c]`. */
    method AppendCode(fn: HashFn, ghost cs: seq<JInt>, c: JInt, ghost next: seq<JInt>)
      requires Value() == Fold(fn, HashAlgs.Init(fn), cs) && next == cs + [c]
      modifies this
      ensures Value() == Fold(fn, HashAlgs.Init(fn), next)
    {
      FoldSnoc(fn, HashAlgs.Init(fn), cs, c);
      Append(fn, c);
    }

    /** `hash(word)`: `init`, then `append` each code until the first 0. */
    method Hash(fn: HashFn, word: array<JInt>)
      modifies this
      ensures Value() == Fold(fn, HashAlgs.Init(fn), UntilZero(word[..]))
    {
      Init(fn);
      ghost var w := word[..];
      var k := 0;
      while k < word.Length
        invariant k <= word.Length && word[..] == w
        invariant 0 !in w[..k]
        invariant Value() == Fold(fn, HashAlgs.Init(fn), w[..k])
      {
        if word[k] == 0 {
          break;
        }
        assert w[..k + 1] == w[..k] + [w[k]];
        AppendCode(fn, w[..k], word[k], w[..k + 1]);
        k := k + 1;
      }
      UntilZeroAt(w, k);
    }

    /** `hashCode()`. */
    function HashCode(): (h: JInt)
      reads this
      ensures h == Value().hash32
    {
      hash32
    }

    /**
     * `equals(o)`, where `that == null` stands for a null or for an object
     * that is not a `WordHash`: equal iff both hashes match.
     */
    function Equals(that: WordHash?): (b: bool)
      reads this, that
      ensures b <==> that != null && Value() == that.Value()
    {
      that != null && hash32 == that.hash32 && hash64 == that.hash64
    }
  }

  /** `WordHash(that)`: a null `that` throws. */
  method CopyOf(that: WordHash?) returns (r: Result<WordHash>)
    ensures that == null ==> r == Err(IllegalArgument)
    ensures that != null ==> r.Ok? && fresh(r.value) && r.value.Value() == that.Value()
  {
    if that == null {
      return Err(IllegalArgument);
    }
    var copy := new WordHash.Copy(that);
    r := Ok(copy);
  }

  /**
   * `equals` is an equivalence relation and `hashCode` agrees with it, as
   * `HashMap` and `HashSet` require of their keys.
   */
  lemma EqualsContract(a: WordHash, b: WordHash, c: WordHash)
    ensures a.Equals(a)
    ensures a.Equals(b) ==> b.Equals(a)
    ensures a.Equals(b) && b.Equals(c) ==> a.Equals(c)
    ensures a.Equals(b) ==> a.HashCode() == b.HashCode()
  {
  }

  /** A Java `char` as an `int`. */
  const Q: Char16 := 0x51
  const U: Char16 := 0x55

  /**
   * What `intArray(word)` returns, stated by the first 'Q': no 'Q' gives the
   * codes unchanged; a 'Q' at the end reads past the string and throws; a
   * 'Q' before anything but 'U' gives an empty array; otherwise that one 'U'
   * is dropped and the last slot stays 0. Later 'Q's are never checked.
   */
  function IntArrayOf(word: seq<Char16>): (r: Result<seq<int>>)
  {
    if Q !in word then Ok(word)
    else
      var q := Seqs.IndexOf(word, Q);
      if q == |word| - 1 then Err(IndexOutOfBounds)
      else if word[q + 1] != U then Ok([])
      else Ok(word[..q + 1] + word[q + 2..] + [0])
  }

  /** The array, when one is returned, has one slot per character or none at all. */
  lemma IntArrayLength(word: seq<Char16>)
    ensures IntArrayOf(word).Ok? ==> IntArrayOf(word).value == [] || |IntArrayOf(word).value| == |word|
    ensures IntArrayOf(word).Ok? && Q !in word ==> IntArrayOf(word).value == word
  {
  }

  /**
   * `intArray(word)`: copies codes with a read index `w` and a write index
   * `i`, skipping the character after a checked 'Q'. The check reads
   * `intWord[w]`, which after the first skip is a slot not yet written, so
   * only the first 'Q' is ever checked.
   */
  method IntArray(word: seq<Char16>) returns (r: Result<seq<int>>)
    ensures r == IntArrayOf(word)
  {
    var n := |word|;
    var intWord := new int[n](_ => 0);
    var i, w := 0, 0;
    ghost var q := -1;
    while w < n
      invariant 0 <= i <= w <= n && w <= i + 1
      invariant forall k :: i <= k < n ==> intWord[k] == 0
      invariant i == w ==> Q !in word[..w] && intWord[..w] == word[..w]
      invariant i < w ==> 0 <= q < i && q + 1 < n && word[q] == Q && Q !in word[..q] && word[q + 1] == U
      invariant i < w ==> intWord[..i] == word[..q + 1] + word[q + 2..w]
    {
      ghost var written := intWord[..i];
      intWord[i] := word[w];
      assert intWord[..i + 1] == written + [word[w]];
      if intWord[w] == Q {
        q := w;
        w := w + 1;
        if w >= n {
          IntArrayThrows(word, q);
          return Err(IndexOutOfBounds);
        }
        if word[w] != U {
          IntArrayEmpty(word, q);
          return Ok([]);
        }
        assert word[q + 2..w + 1] == [];
      } else if i == w {
        assert word[..w + 1] == word[..w] + [word[w]];
      } else {
        assert word[q + 2..w + 1] == word[q + 2..w] + [word[w]];
      }
      i, w := i + 1, w + 1;
    }
    if i == w {
      assert word[..w] == word && intWord[..] == intWord[..w];
      IntArrayPlain(word);
      r := Ok(intWord[..]);
    } else {
      assert intWord[..] == intWord[..i] + [intWord[i]];
      assert word[q + 2..w] == word[q + 2..];
      IntArraySkip(word, q);
      r := Ok(intWord[..]);
    }
  }

  /** No 'Q': the codes as they are. */
  lemma IntArrayPlain(word: seq<Char16>)
    requires Q !in word
    ensures IntArrayOf(word) == Ok(word)
  {
  }

  /** The first 'Q' is the last character: reading past the array throws. */
  lemma IntArrayThrows(word: seq<Char16>, q: nat)
    requires q + 1 == |word| && word[q] == Q && Q !in word[..q]
    ensures IntArrayOf(word) == Err(IndexOutOfBounds)
  {
    Seqs.IndexOfAt(word, Q, q);
  }

  /** The first 'Q' is followed by something other than 'U': the empty array. */
  lemma IntArrayEmpty(word: seq<Char16>, q: nat)
    requires q + 1 < |word| && word[q] == Q && Q !in word[..q] && word[q + 1] != U
    ensures IntArrayOf(word) == Ok([])
  {
    Seqs.IndexOfAt(word, Q, q);
  }

  /** The first 'Q' is followed by 'U': that 'U' is dropped and a 0 appended. */
  lemma IntArraySkip(word: seq<Char16>, q: nat)
    requires q + 1 < |word| && word[q] == Q && Q !in word[..q] && word[q + 1] == U
    ensures IntArrayOf(word) == Ok(word[..q + 1] + word[q + 2..] + [0])
  {
    Seqs.IndexOfAt(word, Q, q);
  }



  /**
   * `DFSHash`: a `WordHash` with the fixed board index of its last letter.
   * Its hashes are set by its constructors and nothing appends to a
   * `DFSHash` afterwards, so here they are constants. Equality is that of
   * `WordHash`, on the hashes alone: the index plays no part in it.
   */
  class DFSHash {
    const index: int
    const value: Hashes

    /** `DFSHash(index, c)`: `super()`, then `append(c)`: the hashes of the one-letter word `c`. */
    constructor (fn: HashFn, index: int, c: JInt)
      ensures this.index == index
      ensures value == Fold(fn, HashAlgs.Init(fn), [c])
    {
      this.index := index;
      var h := new WordHash(fn);
      h.Append(fn, c);
      assert Fold(fn, HashAlgs.Init(fn), [c]) == Fold(fn, HashAlgs.Append(fn, HashAlgs.Init(fn), c), []);
      value := h.Value();
    }

    /** `DFSHash(parent, index, c)`: `super(parent)`, then `append(c)`: the parent's hashes extended by `c`. */
    constructor Extend(fn: HashFn, parent: DFSHash, index: int, c: JInt)
      ensures this.index == index
      ensures value == HashAlgs.Append(fn, parent.value, c)
    {
      this.index := index;
      value := HashAlgs.Append(fn, parent.value, c);
    }

    /** `hashCode()`, inherited. */
    function HashCode(): (h: JInt)
      ensures h == value.hash32
    {
      value.hash32
    }

    /** `equals(o)`, inherited: equal iff both hashes match. */
    function Equals(that: DFSHash?): (b: bool)
      ensures b <==> that != null && value == that.value
    {
      that != null && value.hash32 == that.value.hash32 && value.hash64 == that.value.hash64
    }
  }

  /** Two `DFSHash`es for the same letter after the same parent are equal whatever their indices. */
  method IndexIgnored(fn: HashFn, parent: DFSHash, i: int, j: int, c: JInt) returns (a: DFSHash, b: DFSHash)
    ensures a.index == i && b.index == j
    ensures a.Equals(b) && b.Equals(a) && a.HashCode() == b.HashCode()
  {
    a := new DFSHash.Extend(fn, parent, i, c);
    b := new DFSHash.Extend(fn, parent, j, c);
  }
}
