/**
 * The inverse transform undoes the forward transform: walking `next` from
 * the sorted position of the unrotated string reads the string back.
 *
 * The argument works on whole rotations. Among the sorted rotations, those
 * starting with character `c`, each rotated left by one place, are exactly
 * the sorted rotations ending with `c`, in the same order (both lists are
 * sorted and hold the same multiset). So `next` maps the `t`-th rotation
 * that starts with `c` to the `t`-th rotation that ends with `c`, which is
 * its left rotation by one place.
 */
module BwtTheory {
  import opened Common
  import Lex
  import Seqs
  import Perms
  import opened CircularSuffixes
  import opened SuffixOrder
  import opened BwtSpec

  function Head(r: seq<int>): int { if |r| > 0 then r[0] else 0 }

  function Last(r: seq<int>): int { if |r| > 0 then r[|r| - 1] else 0 }

  /** Rotation left by one place. */
  function Shift(r: seq<int>): seq<int> { if |r| > 0 then r[1..] + [r[0]] else r }

  /** Rotation right by one place. */
  function Unshift(r: seq<int>): seq<int> { if |r| > 0 then [r[|r| - 1]] + r[..|r| - 1] else r }

  lemma ShiftInjective()
    ensures forall u, v :: Shift(u) == Shift(v) ==> u == v
  {
    forall u, v | Shift(u) == Shift(v) ensures u == v {
      assert |u| == |Shift(u)| == |Shift(v)| == |v|;
      if |u| > 0 {
        assert u == [Shift(u)[|u| - 1]] + Shift(u)[..|u| - 1];
        assert v == [Shift(v)[|v| - 1]] + Shift(v)[..|v| - 1];
      }
    }
  }

  lemma ShiftUnshift(r: seq<int>)
    ensures Shift(Unshift(r)) == r
  {
    if |r| > 0 {
      assert Unshift(r)[1..] == r[..|r| - 1];
    }
  }

  lemma LastShift(u: seq<int>)
    ensures Last(Shift(u)) == Head(u)
  {
  }

  lemma RotateShift(x: seq<Char16>, k: nat)
    requires k < |x|
    ensures Shift(Rotate(x, k)) == Rotate(x, if k + 1 < |x| then k + 1 else 0)
  {
    if k + 1 < |x| {
      assert x[k..] == [x[k]] + x[k + 1..];
      assert x[..k + 1] == x[..k] + [x[k]];
      assert Rotate(x, k)[1..] == x[k + 1..] + x[..k];
    } else {
      assert x[..k] + [x[k]] == x;
      assert Rotate(x, k)[1..] == x[..k];
    }
  }

  ghost function AllRots(x: seq<Char16>): (r: seq<seq<int>>)
    ensures |r| == |x|
  {
    seq(|x|, k requires 0 <= k < |x| => Rotate(x, k))
  }

  /** The rotations of `x` in sorted-suffix order. */
  ghost function SortedRots(x: seq<Char16>): (r: seq<seq<int>>)
    ensures |r| == |x|
  {
    var o := Order(x);
    seq(|x|, i requires 0 <= i < |x| => Rotate(x, o[i]))
  }

  lemma SortedRotsPerm(x: seq<Char16>)
    ensures multiset(SortedRots(x)) == multiset(AllRots(x))
  {
    Perms.PermuteMultiset(AllRots(x), SortedRots(x), Order(x));
  }

  lemma AllRotsShiftInvariant(x: seq<Char16>)
    requires |x| > 0
    ensures multiset(Seqs.MapSeq(AllRots(x), Shift)) == multiset(AllRots(x))
  {
    var a := AllRots(x);
    forall k | 0 <= k < |a| ensures Shift(a[k]) == (a[1..] + [a[0]])[k] {
      RotateShift(x, k);
    }
    assert Seqs.MapSeq(a, Shift) == a[1..] + [a[0]];
    assert a == [a[0]] + a[1..];
  }

  /** The multiset of sorted rotations does not change under rotating each by one place. */
  lemma ShiftCount(x: seq<Char16>, u: seq<int>)
    requires |x| > 0
    ensures multiset(SortedRots(x))[Shift(u)] == multiset(SortedRots(x))[u]
  {
    ShiftInjective();
    Seqs.MapSeqInjective(AllRots(x), Shift, u);
    AllRotsShiftInvariant(x);
    SortedRotsPerm(x);
  }

  lemma SortedRotsSorted(x: seq<Char16>)
    ensures Lex.Sorted(SortedRots(x))
  {
    OrderSorted(x);
  }

  lemma LastColumnIsLasts(x: seq<Char16>)
    ensures LastColumn(x) == Seqs.MapSeq(SortedRots(x), Last)
  {
  }

  lemma HeadsOfAll(x: seq<Char16>)
    ensures Seqs.MapSeq(AllRots(x), Head) == x
  {
  }

  lemma LastsOfShifted(x: seq<Char16>)
    requires |x| > 0
    ensures Seqs.MapSeq(Seqs.MapSeq(AllRots(x), Shift), Last) == x
  {
    var a := AllRots(x);
    var shifted := Seqs.MapSeq(a, Shift);
    forall k | 0 <= k < |a| ensures Last(shifted[k]) == x[k] {
      LastShift(a[k]);
    }
  }

  /** The last column holds the characters of `x`. */
  lemma LastColumnMultiset(x: seq<Char16>)
    requires |x| > 0
    ensures multiset(LastColumn(x)) == multiset(x)
  {
    var a := AllRots(x);
    var shifted := Seqs.MapSeq(a, Shift);
    LastColumnIsLasts(x);
    SortedRotsPerm(x);
    Seqs.MapSeqMultiset(SortedRots(x), a, Last);
    AllRotsShiftInvariant(x);
    Seqs.MapSeqMultiset(shifted, a, Last);
    LastsOfShifted(x);
  }

  /** Selecting the sorted entries with one key keeps them sorted. */
  lemma SelectSorted(rs: seq<seq<int>>, keys: seq<int>, c: int)
    requires |keys| == |rs| && Lex.Sorted(rs)
    ensures Lex.Sorted(Seqs.Select(rs, keys, c))
  {
    var ys := Seqs.Select(rs, keys, c);
    var pl := Seqs.Positions(keys, c);
    forall a, b | 0 <= a < b < |ys| ensures Lex.LessEq(ys[a], ys[b]) {
      assert pl[a] < pl[b];
    }
  }

  /** Sorted entries sharing their first element stay sorted when each is rotated by one place. */
  lemma SelectHeadShiftSorted(rs: seq<seq<int>>, c: int)
    requires Lex.Sorted(rs)
    requires forall i :: 0 <= i < |rs| ==> |rs[i]| == |rs[0]| > 0
    ensures Lex.Sorted(Seqs.MapSeq(Seqs.Select(rs, Seqs.MapSeq(rs, Head), c), Shift))
  {
    var f := Seqs.MapSeq(rs, Head);
    var pf := Seqs.Positions(f, c);
    var xs := Seqs.MapSeq(Seqs.Select(rs, f, c), Shift);
    forall a, b | 0 <= a < b < |xs| ensures Lex.LessEq(xs[a], xs[b]) {
      assert pf[a] < pf[b];
      assert rs[pf[a]][0] == f[pf[a]] == c == f[pf[b]] == rs[pf[b]][0];
      Lex.RotateKeepsLessEq(rs[pf[a]], rs[pf[b]]);
    }
  }

  /**
   * When the multiset of `rs` is closed under rotating by one place, the
   * entries starting with `c`, rotated, form the same multiset as the
   * entries ending with `c`.
   */
  lemma SelectShiftMultiset(rs: seq<seq<int>>, c: int)
    requires forall u :: multiset(rs)[Shift(u)] == multiset(rs)[u]
    ensures multiset(Seqs.MapSeq(Seqs.Select(rs, Seqs.MapSeq(rs, Head), c), Shift))
         == multiset(Seqs.Select(rs, Seqs.MapSeq(rs, Last), c))
  {
    var sf := Seqs.Select(rs, Seqs.MapSeq(rs, Head), c);
    var xs := Seqs.MapSeq(sf, Shift);
    var ys := Seqs.Select(rs, Seqs.MapSeq(rs, Last), c);
    ShiftInjective();
    forall u: seq<int> ensures multiset(xs)[Shift(u)] == multiset(ys)[Shift(u)] {
      Seqs.MapSeqInjective(sf, Shift, u);
      Seqs.SelectMultiset(rs, Head, c, u);
      Seqs.SelectMultiset(rs, Last, c, Shift(u));
      LastShift(u);
    }
    forall r: seq<int> ensures multiset(xs)[r] == multiset(ys)[r] {
      ShiftUnshift(r);
      assert multiset(xs)[Shift(Unshift(r))] == multiset(ys)[Shift(Unshift(r))];
    }
    assert multiset(xs) == multiset(ys);
  }

  /** Counting the last column recovers the first characters of the sorted rotations. */
  lemma FirstColumnIsHeads(x: seq<Char16>)
    requires Extended(x) && |x| > 0
    ensures FirstColumn(LastColumn(x)) == Seqs.MapSeq(SortedRots(x), Head)
  {
    var rs := SortedRots(x);
    var heads := Seqs.MapSeq(rs, Head);
    FirstColumnFacts(LastColumn(x));
    LastColumnMultiset(x);
    SortedRotsPerm(x);
    Seqs.MapSeqMultiset(rs, AllRots(x), Head);
    HeadsOfAll(x);
    SortedRotsSorted(x);
    forall i, j | 0 <= i < j < |heads| ensures heads[i] <= heads[j] {
      Lex.FirstLessEq(rs[i], rs[j]);
    }
    Lex.SortedIntsUnique(FirstColumn(LastColumn(x)), heads);
  }

  lemma SortedRotsShape(x: seq<Char16>)
    requires |x| > 0
    ensures forall i :: 0 <= i < |x| ==> |SortedRots(x)[i]| == |SortedRots(x)[0]| > 0
    ensures forall u :: multiset(SortedRots(x))[Shift(u)] == multiset(SortedRots(x))[u]
  {
    forall u ensures multiset(SortedRots(x))[Shift(u)] == multiset(SortedRots(x))[u] {
      ShiftCount(x, u);
    }
  }

  /** `next` leads from each sorted rotation to its left rotation by one place. */
  lemma NextStep(x: seq<Char16>, i: nat)
    requires Extended(x) && |x| > 0 && i < |x|
    ensures SortedRots(x)[NextArray(LastColumn(x))[i]] == Shift(SortedRots(x)[i])
  {
    var rs := SortedRots(x);
    var l := LastColumn(x);
    var f := FirstColumn(l);
    LastColumnIsLasts(x);
    FirstColumnIsHeads(x);
    FirstColumnFacts(l);
    var c: int := f[i];
    var t := Seqs.Rank(f, i);
    Seqs.PositionsAtRank(f, i);
    var xs := Seqs.MapSeq(Seqs.Select(rs, f, c), Shift);
    var ys := Seqs.Select(rs, l, c);
    SortedRotsSorted(x);
    SortedRotsShape(x);
    SelectSorted(rs, l, c);
    SelectHeadShiftSorted(rs, c);
    SelectShiftMultiset(rs, c);
    Lex.SortedUnique(xs, ys);
    assert xs[t] == Shift(rs[i]);
    assert NextArray(l)[i] == Seqs.Positions(l, c)[t];
  }

  /** Walking a successor map that rotates by one place, from the unrotated string. */
  lemma {:induction false} WalkShifts(x: seq<Char16>, rs: seq<seq<int>>, next: seq<nat>, start: nat, j: nat)
    requires |rs| == |next| == |x| && start < |x| && Closed(next) && j < |x|
    requires rs[start] == Rotate(x, 0)
    requires forall i :: 0 <= i < |x| ==> rs[next[i]] == Shift(rs[i])
    ensures rs[Cursor(next, start, j)] == Rotate(x, j)
  {
    if j > 0 {
      WalkShifts(x, rs, next, start, j - 1);
      RotateShift(x, j - 1);
    }
  }

  /** After `j` steps from the sorted position of the unrotated string, the walk is at rotation `j`. */
  lemma WalkRotations(x: seq<Char16>, j: nat)
    requires Extended(x) && |x| > 0 && j < |x|
    ensures SortedRots(x)[Cursor(NextArray(LastColumn(x)), Position0(x), j)] == Rotate(x, j)
  {
    var next := NextArray(LastColumn(x));
    var rs := SortedRots(x);
    assert rs[Position0(x)] == Rotate(x, 0);
    forall i | 0 <= i < |x| ensures rs[next[i]] == Shift(rs[i]) {
      NextStep(x, i);
    }
    WalkShifts(x, rs, next, Position0(x), j);
  }

  /**
   * Round trip: inverting the last column of `x` from the sorted position
   * of its unrotated form gives back `x`.
   */
  lemma InverseTransformsBack(x: seq<Char16>)
    requires Extended(x)
    ensures InverseSpec(LastColumn(x), if |x| == 0 then 0 else Position0(x)) == x
  {
    if |x| > 0 {
      var l := LastColumn(x);
      var r := InverseSpec(l, Position0(x));
      FirstColumnIsHeads(x);
      forall j | 0 <= j < |x| ensures r[j] == x[j] {
        WalkRotations(x, j);
      }
    }
  }
}
