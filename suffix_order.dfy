/**
 * The order in which the circular suffix array leaves the rotations of a
 * string: `Arrays.sort` is a stable sort comparing suffixes by `compareTo`,
 * and the suffixes are created in offset order, so the result is ordered
 * by rotation and, among equal rotations, by offset. This module defines
 * that order, computes the arrangement with a functional insertion sort,
 * and proves that it is the only arrangement of the offsets so ordered.
 */
module SuffixOrder {
  import opened Common
  import Lex
  import Seqs
  import opened CircularSuffixes

  predicate InRange(s: seq<Char16>, xs: seq<nat>) {
    forall i :: 0 <= i < |xs| ==> xs[i] < |s|
  }

  ghost predicate Distinct(xs: seq<nat>) {
    forall i, j :: 0 <= i < j < |xs| ==> xs[i] != xs[j]
  }

  /** Offset `a` comes before offset `b`: a smaller rotation, or an equal rotation and a smaller offset. */
  predicate Before(s: seq<Char16>, a: nat, b: nat)
    requires a < |s| && b < |s|
  {
    Lex.Less(Rotate(s, a), Rotate(s, b)) || (Rotate(s, a) == Rotate(s, b) && a < b)
  }

  lemma BeforeIrreflexive(s: seq<Char16>, a: nat)
    requires a < |s|
    ensures !Before(s, a, a)
  {
    Lex.Irreflexive(Rotate(s, a));
  }

  lemma BeforeAsymmetric(s: seq<Char16>, a: nat, b: nat)
    requires a < |s| && b < |s| && Before(s, a, b)
    ensures !Before(s, b, a)
  {
    if Lex.Less(Rotate(s, a), Rotate(s, b)) {
      Lex.Asymmetric(Rotate(s, a), Rotate(s, b));
      Lex.Irreflexive(Rotate(s, a));
    } else {
      Lex.Irreflexive(Rotate(s, a));
    }
  }

  lemma BeforeTransitive(s: seq<Char16>, a: nat, b: nat, c: nat)
    requires a < |s| && b < |s| && c < |s|
    requires Before(s, a, b) && Before(s, b, c)
    ensures Before(s, a, c)
  {
    if Lex.Less(Rotate(s, a), Rotate(s, b)) && Lex.Less(Rotate(s, b), Rotate(s, c)) {
      Lex.Transitive(Rotate(s, a), Rotate(s, b), Rotate(s, c));
    }
  }

  lemma BeforeTotal(s: seq<Char16>, a: nat, b: nat)
    requires a < |s| && b < |s| && a != b
    ensures Before(s, a, b) || Before(s, b, a)
  {
    Lex.Total(Rotate(s, a), Rotate(s, b));
  }

  ghost predicate StrictlySorted(s: seq<Char16>, xs: seq<nat>)
    requires InRange(s, xs)
  {
    forall i, j :: 0 <= i < j < |xs| ==> Before(s, xs[i], xs[j])
  }

  /** Inserts `o` in front of the first element it comes before. */
  function Insert(s: seq<Char16>, o: nat, xs: seq<nat>): (r: seq<nat>)
    requires o < |s| && InRange(s, xs)
    ensures |r| == |xs| + 1 && InRange(s, r)
    ensures multiset(r) == multiset(xs) + multiset{o}
  {
    if xs == [] then [o]
    else if Before(s, o, xs[0]) then [o] + xs
    else
      assert xs == [xs[0]] + xs[1..];
      [xs[0]] + Insert(s, o, xs[1..])
  }

  function Sort(s: seq<Char16>, xs: seq<nat>): (r: seq<nat>)
    requires InRange(s, xs)
    ensures |r| == |xs| && InRange(s, r)
    ensures multiset(r) == multiset(xs)
  {
    if xs == [] then []
    else
      assert xs == [xs[0]] + xs[1..];
      Insert(s, xs[0], Sort(s, xs[1..]))
  }

  /** The offsets of `s` in sorted-suffix order. */
  function Order(s: seq<Char16>): (r: seq<nat>)
    ensures |r| == |s| && InRange(s, r)
    ensures multiset(r) == multiset(Seqs.Range(|s|))
  {
    Sort(s, Seqs.Range(|s|))
  }

  lemma {:induction false} InsertSorted(s: seq<Char16>, o: nat, xs: seq<nat>)
    requires o < |s| && InRange(s, xs) && StrictlySorted(s, xs) && o !in multiset(xs)
    ensures StrictlySorted(s, Insert(s, o, xs))
    decreases |xs|
  {
    if xs != [] {
      if Before(s, o, xs[0]) {
        InsertFront(s, o, xs);
      } else {
        assert xs == [xs[0]] + xs[1..];
        InsertSorted(s, o, xs[1..]);
        InsertBehind(s, o, xs);
      }
    }
  }

  /** Inserting in front of a sorted sequence whose head `o` comes before. */
  lemma InsertFront(s: seq<Char16>, o: nat, xs: seq<nat>)
    requires o < |s| && InRange(s, xs) && StrictlySorted(s, xs) && xs != [] && Before(s, o, xs[0])
    ensures StrictlySorted(s, Insert(s, o, xs))
  {
    forall j | 0 < j < |xs| ensures Before(s, o, xs[j]) {
      BeforeTransitive(s, o, xs[0], xs[j]);
    }
  }

  /** Inserting behind the head keeps the head first once the rest is sorted. */
  lemma InsertBehind(s: seq<Char16>, o: nat, xs: seq<nat>)
    requires o < |s| && InRange(s, xs) && StrictlySorted(s, xs) && xs != [] && !Before(s, o, xs[0])
    requires o != xs[0] && StrictlySorted(s, Insert(s, o, xs[1..]))
    ensures StrictlySorted(s, Insert(s, o, xs))
  {
    BeforeTotal(s, o, xs[0]);
    var ys := xs[1..];
    assert forall k :: 0 <= k < |ys| ==> ys[k] == xs[k + 1];
    InsertAfter(s, xs[0], o, ys);
    var rest := Insert(s, o, ys);
    var r := Insert(s, o, xs);
    assert r == [xs[0]] + rest;
    forall i, j | 0 <= i < j < |r| ensures Before(s, r[i], r[j]) {
      if i > 0 {
        assert r[i] == rest[i - 1] && r[j] == rest[j - 1];
      } else {
        assert r[j] == rest[j - 1];
      }
    }
  }

  /** What comes after `x` still comes after it once `o`, which also comes after it, is inserted. */
  lemma InsertAfter(s: seq<Char16>, x: nat, o: nat, ys: seq<nat>)
    requires x < |s| && o < |s| && InRange(s, ys) && Before(s, x, o)
    requires forall k :: 0 <= k < |ys| ==> Before(s, x, ys[k])
    ensures forall j :: 0 <= j < |ys| + 1 ==> Before(s, x, Insert(s, o, ys)[j])
  {
    var r := Insert(s, o, ys);
    forall j | 0 <= j < |r| ensures Before(s, x, r[j]) {
      assert r[j] in multiset(r);
      if r[j] != o {
        assert r[j] in multiset(ys);
        var k :| 0 <= k < |ys| && ys[k] == r[j];
      }
    }
  }

  lemma {:induction false} SortSorted(s: seq<Char16>, xs: seq<nat>)
    requires InRange(s, xs) && Distinct(xs)
    ensures StrictlySorted(s, Sort(s, xs))
    decreases |xs|
  {
    if xs != [] {
      assert xs == [xs[0]] + xs[1..];
      SortSorted(s, xs[1..]);
      assert xs[0] !in multiset(xs[1..]);
      InsertSorted(s, xs[0], Sort(s, xs[1..]));
    }
  }

  /** The sorted-suffix order is strictly increasing under `Before`. */
  lemma OrderSorted(s: seq<Char16>)
    ensures StrictlySorted(s, Order(s))
  {
    SortSorted(s, Seqs.Range(|s|));
  }

  /** Offsets each coming before the next are strictly sorted. */
  lemma AdjacentSorted(s: seq<Char16>, xs: seq<nat>)
    requires InRange(s, xs)
    requires forall i :: 0 <= i < |xs| - 1 ==> Before(s, xs[i], xs[i + 1])
    ensures StrictlySorted(s, xs)
  {
    forall i, j | 0 <= i < j < |xs| ensures Before(s, xs[i], xs[j]) {
      BeforeChain(s, xs, i, j);
    }
  }

  lemma {:induction false} BeforeChain(s: seq<Char16>, xs: seq<nat>, i: nat, j: nat)
    requires InRange(s, xs) && i < j < |xs|
    requires forall k :: 0 <= k < |xs| - 1 ==> Before(s, xs[k], xs[k + 1])
    ensures Before(s, xs[i], xs[j])
    decreases j - i
  {
    if i + 1 < j {
      BeforeChain(s, xs, i + 1, j);
      BeforeTransitive(s, xs[i], xs[i + 1], xs[j]);
    }
  }

  /** Two arrangements of the same offsets, both strictly sorted, coincide. */
  lemma {:induction false} SortedUnique(s: seq<Char16>, xs: seq<nat>, ys: seq<nat>)
    requires InRange(s, xs) && InRange(s, ys)
    requires StrictlySorted(s, xs) && StrictlySorted(s, ys)
    requires multiset(xs) == multiset(ys)
    ensures xs == ys
    decreases |xs|
  {
    if xs == [] {
      assert |ys| == |multiset(ys)| == 0;
    } else {
      assert |ys| == |multiset(ys)| == |xs|;
      assert xs[0] in multiset(ys) && ys[0] in multiset(xs);
      var i :| 0 <= i < |ys| && ys[i] == xs[0];
      var j :| 0 <= j < |xs| && xs[j] == ys[0];
      if xs[0] != ys[0] {
        assert i > 0 && j > 0;
        BeforeAsymmetric(s, xs[0], ys[0]);
        assert false;
      }
      Lex.TailMultiset(xs, ys);
      SortedUnique(s, xs[1..], ys[1..]);
      assert xs == [xs[0]] + xs[1..] && ys == [ys[0]] + ys[1..];
    }
  }

  /** Any strictly sorted arrangement of the offsets `0 .. |s|-1` is `Order(s)`. */
  lemma OrderUnique(s: seq<Char16>, xs: seq<nat>)
    requires InRange(s, xs) && StrictlySorted(s, xs)
    requires multiset(xs) == multiset(Seqs.Range(|s|))
    ensures xs == Order(s)
  {
    OrderSorted(s);
    SortedUnique(s, xs, Order(s));
  }
}
