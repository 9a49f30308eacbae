/**
 * An independent description of the move-to-front list: after a message
 * has been encoded from the identity list, the list holds the message's
 * distinct symbols, most recently seen first, followed by every other
 * symbol in ascending order. A symbol's code is its place among the recent
 * symbols, or, for a symbol not yet seen, the number of recent symbols plus
 * the number of unseen symbols below it.
 */
module MtfRecency {
  import opened Common
  import Seqs
  import opened MtfSpec

  /** No symbol twice. */
  ghost predicate Distinct(f: seq<int>) {
    forall i, j :: 0 <= i < j < |f| ==> f[i] != f[j]
  }

  /** `f` without `x`. */
  function Remove(f: seq<int>, x: int): (r: seq<int>)
    ensures forall v :: v in r <==> v in f && v != x
    ensures |r| <= |f|
    ensures Distinct(f) ==> Distinct(r)
  {
    if f == [] then []
    else
      var rest := Remove(f[1..], x);
      assert forall v :: v in f[1..] ==> v in f;
      assert Distinct(f) ==> Distinct(f[1..]) && f[0] !in f[1..];
      if f[0] == x then rest else [f[0]] + rest
  }

  /** How many entries of `f` are below `x`. */
  function Below(f: seq<int>, x: int): (n: nat)
    ensures n <= |f|
  {
    if f == [] then 0 else (if f[0] < x then 1 else 0) + Below(f[1..], x)
  }

  /** The symbols `w .. R-1` that are not in `f`, ascending. */
  function Rest(f: seq<int>, w: nat): seq<int>
    decreases R - w
  {
    if w >= R then [] else (if w in f then [] else [w]) + Rest(f, w + 1)
  }

  /** The distinct symbols of `xs`, most recently seen first. */
  function Recent(xs: seq<Char16>): (f: seq<int>)
    ensures Distinct(f)
    ensures forall v :: v in f <==> v in xs
    decreases |xs|
  {
    if xs == [] then []
    else
      var n := |xs| - 1;
      assert forall v :: v in xs <==> v in xs[..n] || v == xs[n] by {
        assert xs == xs[..n] + [xs[n]];
      }
      var f := [xs[n] as int] + Remove(Recent(xs[..n]), xs[n]);
      assert Distinct(f) by {
        forall i, j | 0 <= i < j < |f| ensures f[i] != f[j] {
          if i == 0 {
            assert f[j] in Remove(Recent(xs[..n]), xs[n]);
          }
        }
      }
      f
  }

  /** The code of `x` when the recent symbols are `f`. */
  function Code(f: seq<int>, x: Char16): (p: nat)
  {
    if x in f then Seqs.IndexOf(f, x) else |f| + x - Below(f, x)
  }

  /** The codes of `xs`, each computed from the recent symbols before it. */
  function RecencyCodes(xs: seq<Char16>): (r: seq<int>)
    ensures |r| == |xs|
    decreases |xs|
  {
    if xs == [] then []
    else
      var n := |xs| - 1;
      RecencyCodes(xs[..n]) + [Code(Recent(xs[..n]), xs[n])]
  }

  /** With no symbol twice, `w` adds one to the count below `w + 1` exactly when it is present. */
  lemma {:induction false} BelowStep(f: seq<int>, w: int)
    requires Distinct(f)
    ensures Below(f, w + 1) == Below(f, w) + if w in f then 1 else 0
    decreases |f|
  {
    if f != [] {
      assert Distinct(f[1..]);
      BelowStep(f[1..], w);
      assert f == [f[0]] + f[1..];
      assert w in f <==> f[0] == w || w in f[1..];
    }
  }

  /** Nothing in `f` is negative, so nothing is below 0. */
  lemma {:induction false} BelowZero(f: seq<int>)
    requires forall i :: 0 <= i < |f| ==> 0 <= f[i]
    ensures Below(f, 0) == 0
    decreases |f|
  {
    if f != [] {
      BelowZero(f[1..]);
    }
  }

  /** An unseen symbol `x` sits in `Rest(f, w)` after the unseen symbols `w .. x-1`. */
  lemma {:induction false} RestIndex(f: seq<int>, w: nat, x: int)
    requires Distinct(f) && w <= x < R && x !in f
    ensures 0 <= x - w - (Below(f, x) - Below(f, w)) < |Rest(f, w)|
    ensures Rest(f, w)[x - w - (Below(f, x) - Below(f, w))] == x
    decreases R - w
  {
    BelowStep(f, w);
    if w < x {
      RestIndex(f, w + 1, x);
    }
  }

  /** With nothing seen, the unseen symbols from `w` are `w, w+1, ..., R-1`. */
  lemma {:induction false} RestEmpty(w: nat)
    requires w <= R
    ensures |Rest([], w)| == R - w
    ensures forall i :: 0 <= i < R - w ==> Rest([], w)[i] == w + i
    decreases R - w
  {
    if w < R {
      RestEmpty(w + 1);
    }
  }

  /** The list with nothing seen is the identity list. */
  lemma IdentityRest()
    ensures ListOf([]) == Identity()
  {
    RestEmpty(0);
    assert ListOf([]) == Rest([], 0);
  }

  /** Removing a symbol that is absent changes nothing. */
  lemma {:induction false} RemoveAbsent(s: seq<int>, x: int)
    requires x !in s
    ensures Remove(s, x) == s
    decreases |s|
  {
    if s != [] {
      assert x !in s[1..] by {
        assert forall v :: v in s[1..] ==> v in s;
      }
      RemoveAbsent(s[1..], x);
    }
  }

  /** Removing a symbol that occurs once, at `p`, cuts out position `p`. */
  lemma {:induction false} RemoveOnce(s: seq<int>, x: int, p: nat)
    requires p < |s| && s[p] == x
    requires forall q :: 0 <= q < |s| && s[q] == x ==> q == p
    ensures Remove(s, x) == s[..p] + s[p + 1..]
    decreases |s|
  {
    if p == 0 {
      assert x !in s[1..];
      RemoveAbsent(s[1..], x);
    } else {
      assert s[0] != x;
      RemoveOnce(s[1..], x, p - 1);
      assert Remove(s, x) == [s[0]] + Remove(s[1..], x);
      assert s[..p] == [s[0]] + s[1..][..p - 1];
      assert s[p + 1..] == s[1..][p..];
      Seqs.ConcatAssoc([s[0]], s[1..][..p - 1], s[1..][p..]);
    }
  }

  lemma {:induction false} RemoveConcat(a: seq<int>, b: seq<int>, x: int)
    ensures Remove(a + b, x) == Remove(a, x) + Remove(b, x)
    decreases |a|
  {
    if a == [] {
      assert a + b == b;
    } else {
      assert (a + b)[0] == a[0] && (a + b)[1..] == a[1..] + b;
      RemoveConcat(a[1..], b, x);
      if a[0] != x {
        assert Remove(a + b, x) == [a[0]] + Remove(a[1..] + b, x);
        assert Remove(a, x) == [a[0]] + Remove(a[1..], x);
      }
    }
  }

  /** Seeing `x` takes it out of the unseen symbols. */
  lemma {:induction false} RestSeen(f: seq<int>, w: nat, x: int)
    ensures Rest([x] + Remove(f, x), w) == Remove(Rest(f, w), x)
    decreases R - w
  {
    if w >= R {
      assert Rest(f, w) == [];
    } else {
      RestSeen(f, w + 1, x);
      RestSeenStep(f, w, x);
    }
  }

  /** One symbol more of `RestSeen`. */
  lemma RestSeenStep(f: seq<int>, w: nat, x: int)
    requires w < R
    requires Rest([x] + Remove(f, x), w + 1) == Remove(Rest(f, w + 1), x)
    ensures Rest([x] + Remove(f, x), w) == Remove(Rest(f, w), x)
  {
    var f' := [x] + Remove(f, x);
    var h := if w in f then [] else [w];
    var h' := if w in f' then [] else [w];
    var tail := Rest(f, w + 1);
    assert Rest(f, w) == h + tail;
    assert Rest(f', w) == h' + Rest(f', w + 1);
    RemoveConcat(h, tail, x);
    RestSeenHead(f, w, x);
    assert Rest(f', w) == Remove(h, x) + Remove(tail, x);
  }

  /** The head of `Rest(f, w)`, once `x` is seen. */
  lemma RestSeenHead(f: seq<int>, w: nat, x: int)
    ensures Remove(if w in f then [] else [w], x) == if w in [x] + Remove(f, x) then [] else [w]
  {
    assert w in [x] + Remove(f, x) <==> w == x || w in f;
  }

  /** The list built from recent symbols `f`. */
  function ListOf(f: seq<int>): (l: seq<int>)
  {
    f + Rest(f, 0)
  }

  /** A symbol's position is the only place it occupies in a symbol list. */
  lemma PosAt(l: seq<int>, x: int, k: nat)
    requires IsList(l) && 0 <= x < R && k < |l| && l[k] == x
    ensures Pos(l, x) == k
  {
  }

  /** The position of `x` in that list is its code. */
  lemma PosIsCode(f: seq<int>, x: int)
    requires Distinct(f) && (forall i :: 0 <= i < |f| ==> 0 <= f[i] < R)
    requires IsList(ListOf(f)) && 0 <= x < R
    ensures Pos(ListOf(f), x) == Code(f, x)
  {
    if x in f {
      var k := Seqs.IndexOf(f, x);
      assert ListOf(f)[k] == x;
      PosAt(ListOf(f), x, k);
    } else {
      BelowZero(f);
      RestIndex(f, 0, x);
      var k := x - Below(f, x);
      assert ListOf(f)[|f| + k] == Rest(f, 0)[k];
      PosAt(ListOf(f), x, |f| + k);
    }
  }

  /** Promoting `x` gives the list whose recent symbols start with `x`. */
  lemma PromoteRecent(f: seq<int>, x: int)
    requires Distinct(f) && (forall i :: 0 <= i < |f| ==> 0 <= f[i] < R)
    requires IsList(ListOf(f)) && 0 <= x < R
    ensures Promote(ListOf(f), Pos(ListOf(f), x)) == ListOf([x] + Remove(f, x))
  {
    var l := ListOf(f);
    var p := Pos(l, x);
    PromoteCut(l, p);
    RemoveOnce(l, x, p);
    RemoveConcat(f, Rest(f, 0), x);
    RestSeen(f, 0, x);
    Seqs.ConcatAssoc([x], Remove(f, x), Remove(Rest(f, 0), x));
  }

  /** Promotion puts the promoted symbol before the list with its position cut out. */
  lemma PromoteCut(l: seq<int>, p: nat)
    requires p < |l|
    ensures Promote(l, p) == [l[p]] + (l[..p] + l[p + 1..])
  {
  }

  /**
   * Encoding from the identity list keeps the list equal to the recent
   * symbols followed by the unseen ones, and produces the recency codes.
   */
  lemma {:induction false} EncodeRecency(xs: seq<Char16>)
    requires forall i :: 0 <= i < |xs| ==> xs[i] < R
    ensures IsList(Identity())
    ensures EncodeRun(Identity(), xs) == Ok((ListOf(Recent(xs)), RecencyCodes(xs)))
    decreases |xs|
  {
    IdentityList();
    if xs == [] {
      IdentityRest();
    } else {
      var n := |xs| - 1;
      EncodeRecency(xs[..n]);
      RecencyStep(xs, Recent(xs[..n]), RecencyCodes(xs[..n]));
    }
  }

  /** The inductive step of `EncodeRecency`, for the last symbol of `xs`. */
  lemma RecencyStep(xs: seq<Char16>, f: seq<int>, codes: seq<int>)
    requires |xs| > 0 && xs[|xs| - 1] < R && IsList(Identity())
    requires f == Recent(xs[..|xs| - 1]) && codes == RecencyCodes(xs[..|xs| - 1])
    requires EncodeRun(Identity(), xs[..|xs| - 1]) == Ok((ListOf(f), codes))
    ensures EncodeRun(Identity(), xs) == Ok((ListOf(Recent(xs)), RecencyCodes(xs)))
  {
    var n := |xs| - 1;
    var x := xs[n];
    assert forall i :: 0 <= i < |f| ==> 0 <= f[i] < R by {
      forall i | 0 <= i < |f| ensures 0 <= f[i] < R {
        assert f[i] in xs[..n];
      }
    }
    EncodeRunSnoc(Identity(), xs, ListOf(f), codes);
    PosIsCode(f, x);
    PromoteRecent(f, x);
    assert Recent(xs) == [x as int] + Remove(f, x);
    assert RecencyCodes(xs) == codes + [Code(f, x)];
  }

  /** The codes `encode` produces are the recency codes. */
  lemma EncodeCodes(xs: seq<Char16>)
    requires forall i :: 0 <= i < |xs| ==> xs[i] < R
    ensures MtfSpec.Encode(xs) == Ok(RecencyCodes(xs))
  {
    EncodeRecency(xs);
  }

  /** The recency codes of `ys` read front to back, starting from the recent symbols `f`. */
  function Replay(f: seq<int>, ys: seq<Char16>): (r: seq<int>)
    ensures |r| == |ys|
    decreases |ys|
  {
    if ys == [] then [] else [Code(f, ys[0])] + Replay([ys[0] as int] + Remove(f, ys[0]), ys[1..])
  }

  /** One symbol more, on the reference side: its code is appended and it becomes the most recent. */
  lemma Snoc(p: seq<Char16>, x: Char16)
    ensures Recent(p + [x]) == [x as int] + Remove(Recent(p), x)
    ensures RecencyCodes(p + [x]) == RecencyCodes(p) + [Code(Recent(p), x)]
  {
    assert (p + [x])[..|p|] == p;
  }

  /** Reading the rest of a message front to back continues the codes of its beginning. */
  lemma {:induction false} ReplayCodes(p: seq<Char16>, ys: seq<Char16>)
    ensures RecencyCodes(p + ys) == RecencyCodes(p) + Replay(Recent(p), ys)
    decreases |ys|
  {
    if ys == [] {
      assert p + ys == p;
    } else {
      var y, rest := ys[0], ys[1..];
      assert ys == [y] + rest;
      ReplayCodes(p + [y], rest);
      ReplayStep(p, y, rest);
    }
  }

  /** The inductive step of `ReplayCodes`: the symbol `y` moves from the replayed part into the prefix. */
  lemma ReplayStep(p: seq<Char16>, y: Char16, rest: seq<Char16>)
    requires RecencyCodes(p + [y] + rest) == RecencyCodes(p + [y]) + Replay(Recent(p + [y]), rest)
    ensures RecencyCodes(p + ([y] + rest)) == RecencyCodes(p) + Replay(Recent(p), [y] + rest)
  {
    var f := Recent(p);
    Snoc(p, y);
    Seqs.ConcatAssoc(p, [y], rest);
    var ys := [y] + rest;
    assert ys[0] == y && ys[1..] == rest;
    var tail := Replay([y as int] + Remove(f, y), rest);
    assert Replay(f, ys) == [Code(f, y)] + tail;
    Seqs.ConcatAssoc(RecencyCodes(p), [Code(f, y)], tail);
  }

  /**
   * Step `k` of a written-out trace `fs` of recent symbols: a symbol seen
   * before moves from its code's position to the front, a new one is put
   * in front and its code counts the unseen symbols below it.
   */
  ghost predicate Moves(fs: seq<seq<int>>, xs: seq<Char16>, codes: seq<int>, k: nat)
    requires k < |xs| && |fs| == |xs| + 1 && |codes| == |xs|
  {
    var f, x, c := fs[k], xs[k], codes[k];
    if 0 <= c < |f| && f[c] == x then fs[k + 1] == [x as int] + f[..c] + f[c + 1..]
    else x !in f && fs[k + 1] == [x as int] + f && c == |f| + x - Below(f, x)
  }

  lemma MovesSeen(f: seq<int>, x: Char16, c: nat, f': seq<int>)
    requires Distinct(f) && c < |f| && f[c] == x && f' == [x as int] + f[..c] + f[c + 1..]
    ensures f' == [x as int] + Remove(f, x) && c == Code(f, x)
  {
    RemoveOnce(f, x, c);
    Seqs.ConcatAssoc([x as int], f[..c], f[c + 1..]);
  }

  lemma MovesNew(f: seq<int>, x: Char16, c: int, f': seq<int>)
    requires x !in f && f' == [x as int] + f && c == |f| + x - Below(f, x)
    ensures f' == [x as int] + Remove(f, x) && c == Code(f, x)
  {
    RemoveAbsent(f, x);
  }

  /** One step of a trace, seen or new, is the reference step and keeps the list free of repeats. */
  lemma MovesStep(f: seq<int>, x: Char16, c: int, f': seq<int>)
    requires Distinct(f)
    requires if 0 <= c < |f| && f[c] == x then f' == [x as int] + f[..c] + f[c + 1..]
      else x !in f && f' == [x as int] + f && c == |f| + x - Below(f, x)
    ensures f' == [x as int] + Remove(f, x) && c == Code(f, x) && Distinct(f')
  {
    if 0 <= c < |f| && f[c] == x {
      MovesSeen(f, x, c, f');
    } else {
      MovesNew(f, x, c, f');
    }
    var r := Remove(f, x);
    forall i, j | 0 <= i < j < |f'| ensures f'[i] != f'[j] {
      assert f'[j] == r[j - 1];
      if i > 0 {
        assert f'[i] == r[i - 1];
      }
    }
  }

  /** The steps after the first of a trace are a trace of the remaining symbols. */
  lemma MovesTail(fs: seq<seq<int>>, xs: seq<Char16>, codes: seq<int>)
    requires |fs| == |xs| + 1 && |codes| == |xs| && xs != []
    requires forall k :: 0 <= k < |xs| ==> Moves(fs, xs, codes, k)
    ensures forall k :: 0 <= k < |xs| - 1 ==> Moves(fs[1..], xs[1..], codes[1..], k)
  {
    forall k | 0 <= k < |xs| - 1 ensures Moves(fs[1..], xs[1..], codes[1..], k) {
      assert Moves(fs, xs, codes, k + 1);
    }
  }

  /** A trace whose every step moves correctly gives the replayed codes. */
  lemma {:induction false} TraceReplay(fs: seq<seq<int>>, xs: seq<Char16>, codes: seq<int>)
    requires |fs| == |xs| + 1 && |codes| == |xs| && Distinct(fs[0])
    requires forall k :: 0 <= k < |xs| ==> Moves(fs, xs, codes, k)
    ensures Replay(fs[0], xs) == codes
    decreases |xs|
  {
    if xs != [] {
      assert Moves(fs, xs, codes, 0);
      MovesStep(fs[0], xs[0], codes[0], fs[1]);
      MovesTail(fs, xs, codes);
      assert fs[1..][0] == fs[1];
      TraceReplay(fs[1..], xs[1..], codes[1..]);
      assert Replay(fs[0], xs) == [codes[0]] + Replay(fs[1], xs[1..]);
      assert codes == [codes[0]] + codes[1..];
    }
  }

  /** The move-to-front codes of `ABRACADABRA`, and the recent symbols before each one and after the last. */
  const ABRA_CODES: seq<int> := [0x41, 0x42, 0x52, 0x02, 0x44, 0x01, 0x45, 0x01, 0x04, 0x04, 0x02, 0x26]
  const ABRA_TRACE: seq<seq<int>> := [[], [0x41], [0x42, 0x41], [0x52, 0x42, 0x41], [0x41, 0x52, 0x42], [0x43, 0x41, 0x52, 0x42], [0x41, 0x43, 0x52, 0x42], [0x44, 0x41, 0x43, 0x52, 0x42], [0x41, 0x44, 0x43, 0x52, 0x42], [0x42, 0x41, 0x44, 0x43, 0x52], [0x52, 0x42, 0x41, 0x44, 0x43], [0x41, 0x52, 0x42, 0x44, 0x43], [0x21, 0x41, 0x52, 0x42, 0x44, 0x43]]

  lemma AbraMovesLow()
    ensures forall k :: 0 <= k < 6 ==> Moves(ABRA_TRACE, ABRACADABRA, ABRA_CODES, k)
  {
    forall k | 0 <= k < 6 ensures Moves(ABRA_TRACE, ABRACADABRA, ABRA_CODES, k) {
      if k == 0 {}
      else if k == 1 {}
      else if k == 2 {}
      else if k == 3 {}
      else if k == 4 {}
      else if k == 5 {}
    }
  }

  lemma AbraMovesHigh()
    ensures forall k :: 6 <= k < 12 ==> Moves(ABRA_TRACE, ABRACADABRA, ABRA_CODES, k)
  {
    forall k | 6 <= k < 12 ensures Moves(ABRA_TRACE, ABRACADABRA, ABRA_CODES, k) {
      if k == 6 {}
      else if k == 7 {}
      else if k == 8 {}
      else if k == 9 {}
      else if k == 10 {}
      else if k == 11 {}
    }
  }

  /** Every symbol of the example is below 256. */
  lemma AbraSymbols()
    ensures forall k :: 0 <= k < |ABRACADABRA| ==> ABRACADABRA[k] < R
  {
    forall k | 0 <= k < |ABRACADABRA| ensures ABRACADABRA[k] < R {
      if k == 0 {}
      else if k == 1 {}
      else if k == 2 {}
      else if k == 3 {}
      else if k == 4 {}
      else if k == 5 {}
      else if k == 6 {}
      else if k == 7 {}
      else if k == 8 {}
      else if k == 9 {}
      else if k == 10 {}
      else if k == 11 {}
    }
  }

  /** Read front to back from nothing seen, the reference gives the recency codes. */
  lemma RecencyReplay(xs: seq<Char16>)
    ensures RecencyCodes(xs) == Replay([], xs)
  {
    ReplayCodes([], xs);
    assert [] + xs == xs;
  }

  /** `encode("ABRACADABRA!")` gives the documented codes. */
  lemma AbracadabraCodes()
    ensures MtfSpec.Encode(ABRACADABRA) == Ok(ABRA_CODES)
  {
    AbraMovesLow();
    AbraMovesHigh();
    assert ABRA_TRACE[0] == [];
    TraceReplay(ABRA_TRACE, ABRACADABRA, ABRA_CODES);
    RecencyReplay(ABRACADABRA);
    AbraSymbols();
    EncodeCodes(ABRACADABRA);
  }

  /** `decode` of those codes gives back `"ABRACADABRA!"`. */
  lemma AbracadabraDecode()
    ensures MtfSpec.Decode(ABRA_CODES) == Ok(ABRACADABRA)
  {
    AbracadabraCodes();
    AbraSymbols();
    DecodeEncode(ABRACADABRA);
  }
}
