/**
 * The move-to-front coding on values: the symbol list that `cypher` holds,
 * the promotion that `encodeChar` applies to it, and whole-message encoding
 * and decoding as left folds over the message, with their round trips.
 */
module MtfSpec {
  import opened Common
  import Seqs
  import Perms

  /** The alphabet: `cypher` and `index` have one entry per byte value. */
  const R: nat := 256

  /** `initArray()`: the identity list `0, 1, ..., R-1`. */
  function Identity(): (r: seq<int>)
    ensures |r| == R && forall i :: 0 <= i < R ==> r[i] == i
  {
    seq(R, i requires 0 <= i < R => i)
  }

  /** A symbol list: every symbol once, in some order. */
  ghost predicate IsList(list: seq<int>) {
    |list| == R
    && (forall p :: 0 <= p < R ==> 0 <= list[p] < R)
    && (forall p, q :: 0 <= p < q < R ==> list[p] != list[q])
  }

  /** `index` is the inverse of `cypher`: each names the other's position. */
  ghost predicate Inverse(cypher: seq<int>, index: seq<int>) {
    |cypher| == R && |index| == R
    && (forall p :: 0 <= p < R ==> 0 <= cypher[p] < R && index[cypher[p]] == p)
    && (forall c :: 0 <= c < R ==> 0 <= index[c] < R && cypher[index[c]] == c)
  }

  /** A pair of inverse arrays holds a symbol list, and `index` gives its positions. */
  lemma InverseList(cypher: seq<int>, index: seq<int>)
    requires Inverse(cypher, index)
    ensures IsList(cypher)
    ensures forall c :: 0 <= c < R ==> c in cypher && index[c] == Seqs.IndexOf(cypher, c)
  {
    forall c | 0 <= c < R ensures c in cypher && index[c] == Seqs.IndexOf(cypher, c) {
      assert cypher[index[c]] == c;
      var k := Seqs.IndexOf(cypher, c);
      assert index[cypher[k]] == k;
    }
  }

  /** Every value of the alphabet is in a symbol list. */
  lemma ListCovers(list: seq<int>, c: int)
    requires IsList(list) && 0 <= c < R
    ensures c in list
  {
    var nats := seq(R, p requires 0 <= p < R => list[p] as nat);
    Perms.InjectiveIsPermutation(nats);
    Perms.PermutationCovers(nats, c);
    var p :| 0 <= p < R && nats[p] == c;
    assert list[p] == c;
  }

  /** The position of symbol `c` in the list: `index[c]`. */
  function Pos(list: seq<int>, c: int): (p: nat)
    requires IsList(list) && 0 <= c < R
    ensures p < R && list[p] == c
    ensures forall q :: 0 <= q < R && list[q] == c ==> q == p
  {
    ListCovers(list, c);
    Seqs.IndexOf(list, c)
  }

  /** The list after the symbol at position `p` moves to the front. */
  function Promote(list: seq<int>, p: nat): (r: seq<int>)
    requires p < |list|
    ensures |r| == |list|
  {
    [list[p]] + list[..p] + list[p + 1..]
  }

  /** Promotion moves the entries before `p` one place down and leaves those after it. */
  lemma PromoteAt(list: seq<int>, p: nat, q: nat)
    requires p < |list| && q < |list|
    ensures Promote(list, p)[q] == if q == 0 then list[p] else if q <= p then list[q - 1] else list[q]
  {
  }

  /** Promotion keeps a symbol list a symbol list. */
  lemma PromoteList(list: seq<int>, p: nat)
    requires IsList(list) && p < R
    ensures IsList(Promote(list, p))
  {
    var r := Promote(list, p);
    forall a, b | 0 <= a < b < R ensures r[a] != r[b] {
      PromoteAt(list, p, a);
      PromoteAt(list, p, b);
    }
    forall a | 0 <= a < R ensures 0 <= r[a] < R {
      PromoteAt(list, p, a);
    }
  }

  /** The `index` array after promoting `c`: `c` goes to 0, the symbols in front of it move back one. */
  function Reindex(index: seq<int>, c: int): (r: seq<int>)
    requires |index| == R && 0 <= c < R
    ensures |r| == R
  {
    seq(R, d requires 0 <= d < R => if d == c then 0 else if index[d] < index[c] then index[d] + 1 else index[d])
  }

  /** Promoting a symbol in both arrays keeps them inverse. */
  lemma PromoteInverse(cypher: seq<int>, index: seq<int>, c: int)
    requires Inverse(cypher, index) && 0 <= c < R
    ensures Inverse(Promote(cypher, index[c]), Reindex(index, c))
  {
    var p := index[c];
    var cy, ix := Promote(cypher, p), Reindex(index, c);
    forall q | 0 <= q < R ensures 0 <= cy[q] < R && ix[cy[q]] == q {
      PromoteAt(cypher, p, q);
    }
    forall d | 0 <= d < R ensures 0 <= ix[d] < R && cy[ix[d]] == d {
      PromoteAt(cypher, p, ix[d]);
    }
  }

  /**
   * Encoding `xs` from `list`: the final list and the codes, one per
   * symbol, or the exception `index[x]` raises for a symbol outside the
   * alphabet.
   */
  function EncodeRun(list: seq<int>, xs: seq<Char16>): (r: Result<(seq<int>, seq<Char16>)>)
    requires IsList(list)
    ensures r.Ok? <==> forall i :: 0 <= i < |xs| ==> xs[i] < R
    ensures r.Err? ==> r.error == IndexOutOfBounds
    ensures r.Ok? ==> IsList(r.value.0) && |r.value.1| == |xs|
    ensures r.Ok? ==> forall i :: 0 <= i < |xs| ==> r.value.1[i] < R
    decreases |xs|
  {
    if xs == [] then Ok((list, []))
    else
      var n := |xs| - 1;
      var prev := EncodeRun(list, xs[..n]);
      assert forall i :: 0 <= i < n ==> xs[..n][i] == xs[i];
      if prev.Err? then Err(prev.error)
      else if xs[n] >= R then Err(IndexOutOfBounds)
      else
        var (l, codes) := prev.value;
        var p := Pos(l, xs[n]);
        PromoteList(l, p);
        Ok((Promote(l, p), codes + [p]))
  }

  /**
   * Decoding `codes` from `list`: each code picks the symbol at that
   * position, which is then promoted, or `cypher[pos]` raises for a code
   * outside the alphabet.
   */
  function DecodeRun(list: seq<int>, codes: seq<Char16>): (r: Result<(seq<int>, seq<Char16>)>)
    requires IsList(list)
    ensures r.Ok? <==> forall i :: 0 <= i < |codes| ==> codes[i] < R
    ensures r.Err? ==> r.error == IndexOutOfBounds
    ensures r.Ok? ==> IsList(r.value.0) && |r.value.1| == |codes|
    ensures r.Ok? ==> forall i :: 0 <= i < |codes| ==> r.value.1[i] < R
    decreases |codes|
  {
    if codes == [] then Ok((list, []))
    else
      var n := |codes| - 1;
      var prev := DecodeRun(list, codes[..n]);
      assert forall i :: 0 <= i < n ==> codes[..n][i] == codes[i];
      if prev.Err? then Err(prev.error)
      else if codes[n] >= R then Err(IndexOutOfBounds)
      else
        var (l, xs) := prev.value;
        var c := l[codes[n]];
        PromoteList(l, codes[n]);
        Ok((Promote(l, codes[n]), xs + [c]))
  }

  /** One symbol more: the symbol's position is appended and the symbol promoted. */
  lemma EncodeRunSnoc(list: seq<int>, xs: seq<Char16>, l: seq<int>, codes: seq<Char16>)
    requires IsList(list) && |xs| > 0 && xs[|xs| - 1] < R
    requires EncodeRun(list, xs[..|xs| - 1]) == Ok((l, codes))
    ensures IsList(l)
    ensures EncodeRun(list, xs) == Ok((Promote(l, Pos(l, xs[|xs| - 1])), codes + [Pos(l, xs[|xs| - 1]) as Char16]))
  {
  }

  /** `encode(chars)`: the codes from a fresh identity list. */
  function Encode(xs: seq<Char16>): (r: Result<seq<Char16>>)
  {
    match EncodeRun(Identity(), xs)
    case Err(e) => Err(e)
    case Ok((_, codes)) => Ok(codes)
  }

  /** `decode(chars)`: the symbols from a fresh identity list. */
  function Decode(codes: seq<Char16>): (r: Result<seq<Char16>>)
  {
    match DecodeRun(Identity(), codes)
    case Err(e) => Err(e)
    case Ok((_, xs)) => Ok(xs)
  }

  lemma IdentityList()
    ensures IsList(Identity())
  {
  }

  /** One code more: the symbol at the code's position is appended and promoted. */
  lemma DecodeRunSnoc(list: seq<int>, codes: seq<Char16>, l: seq<int>, xs: seq<Char16>)
    requires IsList(list) && |codes| > 0 && codes[|codes| - 1] < R
    requires DecodeRun(list, codes[..|codes| - 1]) == Ok((l, xs))
    ensures IsList(l)
    ensures DecodeRun(list, codes) == Ok((Promote(l, codes[|codes| - 1]), xs + [l[codes[|codes| - 1]] as Char16]))
  {
  }

  /** Decoding the codes of `xs` walks through the same lists and gives back `xs`. */
  lemma {:induction false} DecodeEncodeRun(list: seq<int>, xs: seq<Char16>)
    requires IsList(list) && EncodeRun(list, xs).Ok?
    ensures DecodeRun(list, EncodeRun(list, xs).value.1) == Ok((EncodeRun(list, xs).value.0, xs))
    decreases |xs|
  {
    if xs != [] {
      var n := |xs| - 1;
      var ys, x := xs[..n], xs[n];
      var prev := EncodeRun(list, ys);
      assert prev.Ok? by {
        assert forall i :: 0 <= i < n ==> ys[i] == xs[i];
      }
      var (l, codes) := prev.value;
      DecodeEncodeRun(list, ys);
      EncodeRunSnoc(list, xs, l, codes);
      DecodeEncodeStep(list, l, codes, ys, x);
      Seqs.SplitLast(xs);
    }
  }

  /** Appending a symbol's position to the codes appends the symbol to what they decode to. */
  lemma DecodeEncodeStep(list: seq<int>, l: seq<int>, codes: seq<Char16>, ys: seq<Char16>, x: Char16)
    requires IsList(list) && IsList(l) && x < R
    requires DecodeRun(list, codes) == Ok((l, ys))
    ensures DecodeRun(list, codes + [Pos(l, x) as Char16]) == Ok((Promote(l, Pos(l, x)), ys + [x]))
  {
    var p := Pos(l, x);
    var codes' := codes + [p as Char16];
    assert codes'[..|codes|] == codes;
    DecodeRunSnoc(list, codes', l, ys);
  }

  /** Encoding the symbols that `codes` decode to gives back `codes`. */
  lemma {:induction false} EncodeDecodeRun(list: seq<int>, codes: seq<Char16>)
    requires IsList(list) && DecodeRun(list, codes).Ok?
    ensures EncodeRun(list, DecodeRun(list, codes).value.1) == Ok((DecodeRun(list, codes).value.0, codes))
    decreases |codes|
  {
    if codes != [] {
      var n := |codes| - 1;
      var prev := DecodeRun(list, codes[..n]);
      assert prev.Ok? by {
        assert forall i :: 0 <= i < n ==> codes[..n][i] == codes[i];
      }
      EncodeDecodeRun(list, codes[..n]);
      EncodeDecodeStep(list, codes, prev.value.0, prev.value.1);
    }
  }

  /** The inductive step of `EncodeDecodeRun`, for the last code of `codes`. */
  lemma {:induction false} EncodeDecodeStep(list: seq<int>, codes: seq<Char16>, l: seq<int>, xs: seq<Char16>)
    requires IsList(list) && |codes| > 0 && codes[|codes| - 1] < R
    requires DecodeRun(list, codes[..|codes| - 1]) == Ok((l, xs))
    requires EncodeRun(list, xs) == Ok((l, codes[..|codes| - 1]))
    ensures DecodeRun(list, codes).Ok?
    ensures EncodeRun(list, DecodeRun(list, codes).value.1) == Ok((DecodeRun(list, codes).value.0, codes))
  {
    var n := |codes| - 1;
    var k := codes[n];
    var pre := codes[..n];
    DecodeRunSnoc(list, codes, l, xs);
    var x := l[k] as Char16;
    var xs' := xs + [x];
    assert DecodeRun(list, codes) == Ok((Promote(l, k), xs'));
    SnocPrefix(xs, x);
    EncodeRunSnoc(list, xs', l, pre);
    assert Pos(l, x) == k;
    Seqs.SplitLast(codes);
  }

  /** The prefix and the last element of a sequence extended by one. */
  lemma SnocPrefix<T>(s: seq<T>, x: T)
    ensures (s + [x])[..|s|] == s && (s + [x])[|s|] == x && |s + [x]| - 1 == |s|
  {
  }

  /** `decode(encode(x)) == x` for every message of symbols below 256. */
  lemma DecodeEncode(xs: seq<Char16>)
    requires forall i :: 0 <= i < |xs| ==> xs[i] < R
    ensures Encode(xs).Ok? && Decode(Encode(xs).value) == Ok(xs)
  {
    DecodeEncodeRun(Identity(), xs);
  }

  /** `encode(decode(c)) == c` for every sequence of codes below 256. */
  lemma EncodeDecode(codes: seq<Char16>)
    requires forall i :: 0 <= i < |codes| ==> codes[i] < R
    ensures Decode(codes).Ok? && Encode(Decode(codes).value) == Ok(codes)
  {
    EncodeDecodeRun(Identity(), codes);
  }
}
