/**
 * `WordMap`: the Boggle dictionary as hashes. `dict` maps the hashes of
 * each acceptable word, with every "QU" collapsed to "Q" (the letter a
 * Boggle "Qu" tile shows), to the word; `subs` holds the hashes of all
 * proper non-empty prefixes of the collapsed words, so that a search can
 * stop at a prefix no word starts with. A `HashMap`/`HashSet` keyed by
 * `WordHash` compares keys by their hashes, so the keys here are `Hashes`.
 */
module WordMaps {
  import opened Common
  import opened HashAlgs
  import opened WordHashes
  import Seqs

  const MIN_WORD_LEN := 3

  /**
   * The words `makeMaps` keeps: at least three letters, not ending in 'Q',
   * and every 'Q' immediately followed by 'U'.
   */
  predicate Accepted(word: seq<Char16>) {
    |word| >= MIN_WORD_LEN && word[|word| - 1] != Q
    && forall j :: 0 <= j < |word| && word[j] == Q ==> j + 1 < |word| && word[j + 1] == U
  }

  /** The word with the letter after each 'Q' (in a kept word, a 'U') dropped. */
  function Collapse(w: seq<Char16>): (r: seq<Char16>)
    ensures |r| <= |w|
    decreases |w|
  {
    if |w| <= 1 then w
    else if w[0] == Q then [Q] + Collapse(w[2..])
    else [w[0]] + Collapse(w[1..])
  }

  /** How `Collapse` takes the letters from position `i` on. */
  lemma CollapseFrom(w: seq<Char16>, i: nat)
    requires i < |w|
    ensures i == |w| - 1 ==> Collapse(w[i..]) == [w[i]]
    ensures i == |w| - 2 && w[i] == Q ==> Collapse(w[i..]) == [Q]
    ensures i < |w| - 2 && w[i] == Q ==> Collapse(w[i..]) == [Q] + Collapse(w[i + 2..])
    ensures i < |w| - 1 && w[i] != Q ==> Collapse(w[i..]) == [w[i]] + Collapse(w[i + 1..])
  {
    assert w[i..][1..] == w[i + 1..];
    if i < |w| - 1 {
      assert w[i..][2..] == w[i + 2..];
    }
  }

  /** A word without 'Q' is its own collapsed form. */
  lemma {:induction false} CollapseNoQ(w: seq<Char16>)
    requires Q !in w
    ensures Collapse(w) == w
    decreases |w|
  {
    if |w| > 1 {
      assert w[0] != Q && Q !in w[1..];
      CollapseNoQ(w[1..]);
      assert [w[0]] + w[1..] == w;
    }
  }

  /** The key of a word in `dict`: the hashes of its collapsed form. */
  function Key(fn: HashFn, w: seq<Char16>): Hashes {
    Fold(fn, HashAlgs.Init(fn), Collapse(w))
  }

  /** The entries of `subs` that a word contributes: its collapsed form's proper non-empty prefixes. */
  function Prefixes(fn: HashFn, w: seq<Char16>): set<Hashes> {
    set k | 1 <= k < |Collapse(w)| :: Fold(fn, HashAlgs.Init(fn), Collapse(w)[..k])
  }

  /** The hashes of the first `p` non-empty prefixes of `cw`. */
  function FirstPrefixes(fn: HashFn, cw: seq<JInt>, p: nat): set<Hashes>
    requires p <= |cw|
  {
    set k | 1 <= k <= p :: Fold(fn, HashAlgs.Init(fn), cw[..k])
  }

  lemma FirstPrefixesSnoc(fn: HashFn, cw: seq<JInt>, p: nat)
    requires p < |cw|
    ensures FirstPrefixes(fn, cw, p + 1) == FirstPrefixes(fn, cw, p) + {Fold(fn, HashAlgs.Init(fn), cw[..p + 1])}
  {
  }

  /** Where the loop of `add` stops, all prefixes but the word itself are recorded. */
  lemma LastLetter(fn: HashFn, word: seq<Char16>, i: nat, p: nat)
    requires i < |word| && p <= |Collapse(word)| && Collapse(word[i..]) == Collapse(word)[p..]
    requires i == |word| - 1 || (i == |word| - 2 && word[i] == Q)
    ensures p < |Collapse(word)| && Collapse(word) == Collapse(word)[..p] + [word[i]]
    ensures FirstPrefixes(fn, Collapse(word), p) == Prefixes(fn, word)
  {
    CollapseFrom(word, i);
    Seqs.LastOf(Collapse(word), p, word[i]);
  }

  /** `dict` after `makeMaps` over `ws`: later words overwrite earlier ones with the same key. */
  function DictOf(fn: HashFn, ws: seq<seq<Char16>>): map<Hashes, seq<Char16>>
    decreases |ws|
  {
    if ws == [] then map[]
    else
      var d := DictOf(fn, ws[..|ws| - 1]);
      var w := ws[|ws| - 1];
      if Accepted(w) then d[Key(fn, w) := w] else d
  }

  /** `subs` after `makeMaps` over `ws`. */
  function SubsOf(fn: HashFn, ws: seq<seq<Char16>>): set<Hashes>
    decreases |ws|
  {
    if ws == [] then {}
    else
      var w := ws[|ws| - 1];
      SubsOf(fn, ws[..|ws| - 1]) + (if Accepted(w) then Prefixes(fn, w) else {})
  }

  /** Every kept word of the dictionary has its key in `dict`. */
  lemma {:induction false} DictHasKeys(fn: HashFn, ws: seq<seq<Char16>>)
    ensures forall w :: w in ws && Accepted(w) ==> Key(fn, w) in DictOf(fn, ws)
    decreases |ws|
  {
    if ws != [] {
      var init, last := ws[..|ws| - 1], ws[|ws| - 1];
      DictHasKeys(fn, init);
      assert ws == init + [last];
      assert forall w :: w in ws ==> w in init || w == last;
    }
  }

  /** Every entry of `dict` maps a key to a kept word of the dictionary whose key it is. */
  lemma {:induction false} DictEntries(fn: HashFn, ws: seq<seq<Char16>>)
    ensures forall h :: h in DictOf(fn, ws) ==>
              DictOf(fn, ws)[h] in ws && Accepted(DictOf(fn, ws)[h]) && Key(fn, DictOf(fn, ws)[h]) == h
    decreases |ws|
  {
    if ws != [] {
      var init := ws[..|ws| - 1];
      DictEntries(fn, init);
      assert forall w :: w in init ==> w in ws;
    }
  }

  /**
   * `subs` holds exactly the prefix hashes of the kept words: each one's
   * proper prefixes are in it, and each entry is such a prefix.
   */
  lemma {:induction false} SubsEntries(fn: HashFn, ws: seq<seq<Char16>>)
    ensures forall w, k :: w in ws && Accepted(w) && 1 <= k < |Collapse(w)| ==>
              Fold(fn, HashAlgs.Init(fn), Collapse(w)[..k]) in SubsOf(fn, ws)
    ensures forall h :: h in SubsOf(fn, ws) ==> exists w :: w in ws && Accepted(w) && h in Prefixes(fn, w)
    decreases |ws|
  {
    if ws != [] {
      var init := ws[..|ws| - 1];
      SubsEntries(fn, init);
      assert ws == init + [ws[|ws| - 1]];
    }
  }

  class WordMap {
    /** The hash function the keys were made with (the global `WordHash.hashFn`). */
    const fn: HashFn
    var dict: map<Hashes, seq<Char16>>
    var subs: set<Hashes>

    /** `WordMap(dictionary)` for a non-null dictionary. */
    constructor (fn: HashFn, dictionary: seq<seq<Char16>>)
      ensures this.fn == fn
      ensures dict == DictOf(fn, dictionary) && subs == SubsOf(fn, dictionary)
    {
      this.fn := fn;
      dict, subs := map[], {};
      new;
      MakeMaps(dictionary);
    }

    /** `WordMap(dictionary)`: a null dictionary throws. */
    static method Make(fn: HashFn, dictionary: Option<seq<seq<Char16>>>) returns (r: Result<WordMap>)
      ensures dictionary == None ==> r == Err(IllegalArgument)
      ensures dictionary != None ==> r.Ok? && fresh(r.value) && r.value.fn == fn
                                     && r.value.dict == DictOf(fn, dictionary.value)
                                     && r.value.subs == SubsOf(fn, dictionary.value)
    {
      if dictionary == None {
        return Err(IllegalArgument);
      }
      var m := new WordMap(fn, dictionary.value);
      r := Ok(m);
    }

    /** `validSub(sub)`. */
    function ValidSub(sub: Hashes): (b: bool)
      reads this
      ensures b <==> sub in subs
    {
      sub in subs
    }

    /** `validWord(word)`: the dictionary word stored under the key, or null. */
    function ValidWord(word: Hashes): (r: Option<seq<Char16>>)
      reads this
      ensures r == None <==> word !in dict
      ensures r != None ==> r.value == dict[word]
    {
      if word in dict then Some(dict[word]) else None
    }

    /** `makeMaps(dictionary)`: `add` every word that passes the checks. */
    method MakeMaps(dictionary: seq<seq<Char16>>)
      requires dict == map[] && subs == {}
      modifies this
      ensures dict == DictOf(fn, dictionary) && subs == SubsOf(fn, dictionary)
    {
      for t := 0 to |dictionary|
        invariant dict == DictOf(fn, dictionary[..t]) && subs == SubsOf(fn, dictionary[..t])
      {
        assert dictionary[..t + 1][..t] == dictionary[..t];
        var ok := Admits(dictionary[t]);
        if ok {
          Add(dictionary[t]);
        }
      }
      assert dictionary[..|dictionary|] == dictionary;
    }

    /**
     * `add(word)`: append the codes one by one, skipping the letter after a
     * 'Q' and recording each prefix in `subs`; the full hash keys the word.
     */
    method Add(word: seq<Char16>)
      requires |word| > 0
      modifies this
      ensures dict == old(dict)[Key(fn, word) := word]
      ensures subs == old(subs) + Prefixes(fn, word)
    {
      var wHash := new WordHash(fn);
      ghost var cw := Collapse(word);
      var i;
      ghost var p;
      i, p := AddPrefixes(word, wHash);
      FoldSnoc(fn, HashAlgs.Init(fn), cw[..p], word[i]);
      wHash.Append(fn, word[i]);
      dict := dict[wHash.Value() := word];
    }

    /**
     * The loop of `add`: every letter but the last kept one is appended and
     * its prefix recorded; `i` is left at the last kept letter.
     */
    method AddPrefixes(word: seq<Char16>, wHash: WordHash) returns (i: nat, ghost p: nat)
      requires |word| > 0 && wHash.Value() == Fold(fn, HashAlgs.Init(fn), [])
      modifies this, wHash
      ensures i < |word| && p < |Collapse(word)| && Collapse(word) == Collapse(word)[..p] + [word[i]]
      ensures wHash.Value() == Fold(fn, HashAlgs.Init(fn), Collapse(word)[..p])
      ensures subs == old(subs) + Prefixes(fn, word) && dict == old(dict)
    {
      var n := |word|;
      ghost var cw := Collapse(word);
      p := 0;
      i := 0;
      assert word[0..] == word && cw[0..] == cw && FirstPrefixes(fn, cw, 0) == {};
      while i < n - 1
        invariant 0 <= i <= n - 1 && p <= |cw|
        invariant Collapse(word[i..]) == cw[p..]
        invariant wHash.Value() == Fold(fn, HashAlgs.Init(fn), cw[..p])
        invariant subs == old(subs) + FirstPrefixes(fn, cw, p)
        invariant dict == old(dict)
        decreases n - i
      {
        var next, stop := AddStep(word, wHash, cw, i, p);
        if stop {
          break;
        }
        FirstPrefixesSnoc(fn, cw, p);
        i, p := next, p + 1;
      }
      LastLetter(fn, word, i, p);
    }

    /**
     * One round of the loop of `add`: a 'Q' just before the last letter
     * stops it; otherwise the letter is appended, a following 'U' after a
     * 'Q' skipped, and the position of the next letter returned.
     */
    method AddStep(word: seq<Char16>, wHash: WordHash, ghost cw: seq<Char16>, i: nat, ghost p: nat)
      returns (next: nat, stop: bool)
      requires i < |word| - 1 && cw == Collapse(word) && p <= |cw| && Collapse(word[i..]) == cw[p..]
      requires wHash.Value() == Fold(fn, HashAlgs.Init(fn), cw[..p])
      modifies this, wHash
      ensures dict == old(dict)
      ensures stop ==> word[i] == Q && i == |word| - 2 && subs == old(subs) && wHash.Value() == old(wHash.Value())
      ensures !stop ==> i < next <= |word| - 1 && p < |cw| && Collapse(word[next..]) == cw[p + 1..]
                        && wHash.Value() == Fold(fn, HashAlgs.Init(fn), cw[..p + 1])
                        && subs == old(subs) + {Fold(fn, HashAlgs.Init(fn), cw[..p + 1])}
    {
      var c := word[i];
      CollapseFrom(word, i);
      if c != Q {
        Seqs.ConsTail(cw, p, c, Collapse(word[i + 1..]));
        AddLetter(wHash, cw, p, c);
        return i + 1, false;
      } else if i < |word| - 2 {
        Seqs.ConsTail(cw, p, c, Collapse(word[i + 2..]));
        AddLetter(wHash, cw, p, c);
        return i + 2, false;
      } else {
        return 0, true;
      }
    }

    /** One letter of `add`: append it, then put a copy of the prefix hash into `subs`. */
    method AddLetter(wHash: WordHash, ghost cw: seq<Char16>, ghost p: nat, c: Char16)
      requires p < |cw| && cw[p] == c
      requires wHash.Value() == Fold(fn, HashAlgs.Init(fn), cw[..p])
      modifies this, wHash
      ensures wHash.Value() == Fold(fn, HashAlgs.Init(fn), cw[..p + 1])
      ensures subs == old(subs) + {Fold(fn, HashAlgs.Init(fn), cw[..p + 1])} && dict == old(dict)
    {
      FoldSnoc(fn, HashAlgs.Init(fn), cw[..p], c);
      assert cw[..p + 1] == cw[..p] + [c];
      wHash.Append(fn, c);
      var copy := new WordHash.Copy(wHash);
      subs := subs + {copy.Value()};
    }

    /** The checks of `makeMaps`: a word is added iff it passes them. */
    method Admits(word: seq<Char16>) returns (ok: bool)
      ensures ok <==> Accepted(word)
    {
      var n := |word|;
      if n < MIN_WORD_LEN || word[n - 1] == Q {
        return false;
      }
      var j := 0;
      while j < n
        invariant 0 <= j <= n
        invariant forall k :: 0 <= k < j && word[k] == Q ==> k + 1 < n && word[k + 1] == U
      {
        if word[j] == Q {
          j := j + 1;
          if word[j] != U {
            assert word[j - 1] == Q;
            break;
          }
        }
        j := j + 1;
      }
      ok := j == n;
    }
  }
}
