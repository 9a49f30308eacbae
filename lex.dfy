/**
 * Lexicographic order on sequences of character codes, the order that
 * `CircularSuffix.compareTo` realises on rotations, and the facts about
 * sorted sequences that the Burrows-Wheeler inversion rests on.
 */
module Lex {

  /** `a` is smaller than `b` at the first position where the two differ. */
  predicate Less(a: seq<int>, b: seq<int>)
  {
    |a| > 0 && |b| > 0 && (a[0] < b[0] || (a[0] == b[0] && Less(a[1..], b[1..])))
  }

  predicate LessEq(a: seq<int>, b: seq<int>)
  {
    a == b || Less(a, b)
  }

  /** `Less` on suffixes unfolds one position at a time. */
  lemma LessAt(a: seq<int>, b: seq<int>, i: nat)
    requires |a| == |b| && i < |a|
    ensures Less(a[i..], b[i..]) <==> a[i] < b[i] || (a[i] == b[i] && Less(a[i + 1..], b[i + 1..]))
    ensures a[i..] == b[i..] <==> a[i] == b[i] && a[i + 1..] == b[i + 1..]
  {
    assert a[i..][1..] == a[i + 1..] && b[i..][1..] == b[i + 1..];
    assert a[i..] == [a[i]] + a[i + 1..] && b[i..] == [b[i]] + b[i + 1..];
  }

  lemma {:induction false} Irreflexive(a: seq<int>)
    ensures !Less(a, a)
  {
    if |a| > 0 {
      Irreflexive(a[1..]);
    }
  }

  lemma {:induction false} Asymmetric(a: seq<int>, b: seq<int>)
    requires Less(a, b)
    ensures !Less(b, a)
  {
    if a[0] == b[0] {
      Asymmetric(a[1..], b[1..]);
    }
  }

  lemma {:induction false} Transitive(a: seq<int>, b: seq<int>, c: seq<int>)
    requires Less(a, b) && Less(b, c)
    ensures Less(a, c)
  {
    if a[0] == b[0] && b[0] == c[0] {
      Transitive(a[1..], b[1..], c[1..]);
    }
  }

  lemma LessEqTransitive(a: seq<int>, b: seq<int>, c: seq<int>)
    requires LessEq(a, b) && LessEq(b, c)
    ensures LessEq(a, c)
  {
    if a != b && b != c {
      Transitive(a, b, c);
    }
  }

  /** On sequences of one length, any two are comparable. */
  lemma {:induction false} Total(a: seq<int>, b: seq<int>)
    requires |a| == |b|
    ensures Less(a, b) || a == b || Less(b, a)
  {
    if |a| > 0 && a[0] == b[0] {
      Total(a[1..], b[1..]);
      if a[1..] == b[1..] {
        assert a == [a[0]] + a[1..] && b == [b[0]] + b[1..];
      }
    }
  }

  lemma Antisymmetric(a: seq<int>, b: seq<int>)
    requires LessEq(a, b) && LessEq(b, a)
    ensures a == b
  {
    if a != b {
      Asymmetric(a, b);
    }
  }

  /** Appending anything to two sequences of equal length keeps a strict order between them. */
  lemma {:induction false} AppendKeepsLess(a: seq<int>, b: seq<int>, x: seq<int>, y: seq<int>)
    requires |a| == |b| && Less(a, b)
    ensures Less(a + x, b + y)
  {
    assert (a + x)[0] == a[0] && (b + y)[0] == b[0];
    if a[0] == b[0] {
      assert (a + x)[1..] == a[1..] + x && (b + y)[1..] == b[1..] + y;
      AppendKeepsLess(a[1..], b[1..], x, y);
    }
  }

  /** Agreeing before position `k` and smaller at `k` is smaller. */
  lemma {:induction false} LessFrom(a: seq<int>, b: seq<int>, k: nat)
    requires k < |a| && k < |b| && a[k] < b[k]
    requires forall j :: 0 <= j < k ==> a[j] == b[j]
    ensures Less(a, b)
  {
    if k > 0 {
      LessFrom(a[1..], b[1..], k - 1);
    }
  }

  /** Order of non-empty sequences is decided by the first element unless it is shared. */
  lemma FirstLessEq(a: seq<int>, b: seq<int>)
    requires |a| > 0 && |b| > 0 && LessEq(a, b)
    ensures a[0] <= b[0]
  {
  }

  /**
   * Moving a shared first element to the back keeps the order: the key step
   * by which sorted rotations that start with one character stay sorted once
   * rotated one further place.
   */
  lemma RotateKeepsLessEq(a: seq<int>, b: seq<int>)
    requires |a| == |b| > 0 && a[0] == b[0] && LessEq(a, b)
    ensures LessEq(a[1..] + [a[0]], b[1..] + [b[0]])
  {
    if a != b {
      AppendKeepsLess(a[1..], b[1..], [a[0]], [b[0]]);
    }
  }

  /** Non-decreasing under `LessEq`. */
  ghost predicate Sorted(xs: seq<seq<int>>)
  {
    forall i, j :: 0 <= i < j < |xs| ==> LessEq(xs[i], xs[j])
  }

  /** Removing equal heads from two sequences with equal multisets leaves equal multisets. */
  lemma TailMultiset<T>(xs: seq<T>, ys: seq<T>)
    requires |xs| > 0 && |ys| > 0 && xs[0] == ys[0] && multiset(xs) == multiset(ys)
    ensures multiset(xs[1..]) == multiset(ys[1..])
  {
    assert xs == [xs[0]] + xs[1..] && ys == [ys[0]] + ys[1..];
    assert multiset(xs[1..]) == multiset(xs) - multiset{xs[0]};
    assert multiset(ys[1..]) == multiset(ys) - multiset{ys[0]};
  }

  lemma SortedTail(xs: seq<seq<int>>)
    requires Sorted(xs) && |xs| > 0
    ensures Sorted(xs[1..])
  {
    var xt := xs[1..];
    forall i, j | 0 <= i < j < |xt| ensures LessEq(xt[i], xt[j]) {
      assert xt[i] == xs[i + 1] && xt[j] == xs[j + 1];
    }
  }

  /** In a sorted sequence the first element is below every element. */
  lemma SortedHeadLeast(xs: seq<seq<int>>, y: seq<int>)
    requires Sorted(xs) && y in xs
    ensures LessEq(xs[0], y)
  {
    var k :| 0 <= k < |xs| && xs[k] == y;
    assert k == 0 || LessEq(xs[0], xs[k]);
  }

  /**
   * A multiset of sequences has exactly one arrangement that is sorted.
   */
  lemma {:induction false} SortedUnique(xs: seq<seq<int>>, ys: seq<seq<int>>)
    requires Sorted(xs) && Sorted(ys) && multiset(xs) == multiset(ys)
    ensures xs == ys
    decreases |xs|
  {
    assert |ys| == |multiset(ys)| == |xs|;
    if xs != [] {
      assert xs[0] in multiset(ys) && ys[0] in multiset(xs);
      SortedHeadLeast(ys, xs[0]);
      SortedHeadLeast(xs, ys[0]);
      Antisymmetric(xs[0], ys[0]);
      TailMultiset(xs, ys);
      SortedTail(xs);
      SortedTail(ys);
      SortedUnique(xs[1..], ys[1..]);
      assert xs == [xs[0]] + xs[1..] && ys == [ys[0]] + ys[1..];
    }
  }

  /** Non-decreasing sequence of integers. */
  ghost predicate SortedInts(xs: seq<int>)
  {
    forall i, j :: 0 <= i < j < |xs| ==> xs[i] <= xs[j]
  }

  lemma SortedIntsTail(xs: seq<int>)
    requires SortedInts(xs) && |xs| > 0
    ensures SortedInts(xs[1..])
  {
    var xt := xs[1..];
    forall i, j | 0 <= i < j < |xt| ensures xt[i] <= xt[j] {
      assert xt[i] == xs[i + 1] && xt[j] == xs[j + 1];
    }
  }

  lemma SortedIntsHeadLeast(xs: seq<int>, y: int)
    requires SortedInts(xs) && y in xs
    ensures xs[0] <= y
  {
    var k :| 0 <= k < |xs| && xs[k] == y;
    assert k == 0 || xs[0] <= xs[k];
  }

  /** A multiset of integers has exactly one sorted arrangement. */
  lemma {:induction false} SortedIntsUnique(xs: seq<int>, ys: seq<int>)
    requires SortedInts(xs) && SortedInts(ys) && multiset(xs) == multiset(ys)
    ensures xs == ys
    decreases |xs|
  {
    assert |ys| == |multiset(ys)| == |xs|;
    if xs != [] {
      assert xs[0] in multiset(ys) && ys[0] in multiset(xs);
      SortedIntsHeadLeast(ys, xs[0]);
      SortedIntsHeadLeast(xs, ys[0]);
      TailMultiset(xs, ys);
      SortedIntsTail(xs);
      SortedIntsTail(ys);
      SortedIntsUnique(xs[1..], ys[1..]);
      assert xs == [xs[0]] + xs[1..] && ys == [ys[0]] + ys[1..];
    }
  }
}
