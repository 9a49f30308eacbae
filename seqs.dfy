/**
 * Sequence facts used by the suffix-sorting and Burrows-Wheeler proofs:
 * maps, the positions of a value, and selecting entries by a key, each with
 * how it acts on multisets.
 */
module Seqs {

  function Range(n: nat): (r: seq<nat>)
    ensures |r| == n && forall i :: 0 <= i < n ==> r[i] == i
  {
    seq(n, i => i)
  }

  /** One more index at the end. */
  lemma RangeSnoc(n: nat)
    ensures Range(n + 1) == Range(n) + [n]
    ensures multiset(Range(n + 1)) == multiset(Range(n)) + multiset{n}
  {
    assert Range(n + 1) == Range(n) + [n];
  }

  function MapSeq<A, B>(a: seq<A>, f: A -> B): (r: seq<B>)
    ensures |r| == |a| && forall i :: 0 <= i < |a| ==> r[i] == f(a[i])
  {
    seq(|a|, i requires 0 <= i < |a| => f(a[i]))
  }

  lemma MapSeqConcat<A, B>(a: seq<A>, b: seq<A>, f: A -> B)
    ensures MapSeq(a + b, f) == MapSeq(a, f) + MapSeq(b, f)
  {
  }

  /** Mapping sequences with equal multisets gives sequences with equal multisets. */
  lemma {:induction false} MapSeqMultiset<A, B>(a: seq<A>, b: seq<A>, f: A -> B)
    requires multiset(a) == multiset(b)
    ensures multiset(MapSeq(a, f)) == multiset(MapSeq(b, f))
    decreases |a|
  {
    if a == [] {
      assert |b| == |multiset(b)| == 0;
    } else {
      assert a[0] in multiset(b);
      var k :| 0 <= k < |b| && b[k] == a[0];
      var rest := b[..k] + b[k + 1..];
      assert b == b[..k] + [a[0]] + b[k + 1..];
      assert a == [a[0]] + a[1..];
      assert multiset(rest) == multiset(a[1..]) by {
        assert multiset(b) == multiset(b[..k]) + multiset{a[0]} + multiset(b[k + 1..]);
        assert multiset(rest) == multiset(b[..k]) + multiset(b[k + 1..]);
        assert multiset(a) == multiset{a[0]} + multiset(a[1..]);
        assert multiset(a[1..]) == multiset(a) - multiset{a[0]};
        assert multiset(b) - multiset{a[0]} == multiset(b[..k]) + multiset(b[k + 1..]);
      }
      MapSeqMultiset(a[1..], rest, f);
      MapSeqConcat(b[..k], [a[0]], f);
      MapSeqConcat(b[..k] + [a[0]], b[k + 1..], f);
      MapSeqConcat(b[..k], b[k + 1..], f);
      MapSeqConcat([a[0]], a[1..], f);
    }
  }

  /** An injective map keeps the multiplicity of every element. */
  lemma {:induction false} MapSeqInjective<A, B>(a: seq<A>, f: A -> B, x: A)
    requires forall u, v :: f(u) == f(v) ==> u == v
    ensures multiset(MapSeq(a, f))[f(x)] == multiset(a)[x]
    decreases |a|
  {
    if a != [] {
      MapSeqInjective(a[1..], f, x);
      MapSeqConcat([a[0]], a[1..], f);
      assert a == [a[0]] + a[1..];
      assert multiset(a)[x] == multiset{a[0]}[x] + multiset(a[1..])[x];
      assert MapSeq([a[0]], f) == [f(a[0])];
      assert multiset(MapSeq(a, f))[f(x)] == multiset{f(a[0])}[f(x)] + multiset(MapSeq(a[1..], f))[f(x)];
      assert multiset{f(a[0])}[f(x)] == multiset{a[0]}[x] by {
        if a[0] != x {
          assert f(a[0]) != f(x);
        }
      }
    }
  }

  /** The positions at which `c` occurs in `s`, in increasing order. */
  function Positions(s: seq<int>, c: int): (r: seq<nat>)
    ensures |r| == multiset(s)[c]
    ensures forall t :: 0 <= t < |r| ==> r[t] < |s| && s[r[t]] == c
    ensures forall t, u :: 0 <= t < u < |r| ==> r[t] < r[u]
  {
    if s == [] then []
    else
      var init := s[..|s| - 1];
      var x := s[|s| - 1];
      assert s == init + [x];
      assert multiset(s)[c] == multiset(init)[c] + (if x == c then 1 else 0);
      var p := Positions(init, c);
      assert forall t :: 0 <= t < |p| ==> s[p[t]] == init[p[t]];
      p + (if x == c then [|s| - 1] else [])
  }

  /** One position more: it is listed under its own value and counted once more there. */
  lemma PositionsSnoc(s: seq<int>, i: nat, c: int)
    requires i < |s|
    ensures Positions(s[..i + 1], c) == Positions(s[..i], c) + (if s[i] == c then [i] else [])
    ensures multiset(s[..i + 1])[c] == multiset(s[..i])[c] + (if s[i] == c then 1 else 0)
  {
    PrefixSnoc(s, i);
    assert s[..i + 1][..i] == s[..i];
  }

  /** How many occurrences of `s[i]` precede position `i`. */
  function Rank(s: seq<int>, i: nat): nat
    requires i < |s|
  {
    multiset(s[..i])[s[i]]
  }

  /** An entry is preceded by fewer copies of itself than the whole sequence holds. */
  lemma RankBelow(s: seq<int>, i: nat)
    requires i < |s|
    ensures Rank(s, i) < multiset(s)[s[i]]
  {
    assert s == s[..i] + [s[i]] + s[i + 1..];
  }

  lemma {:induction false} PositionsPrefix(s: seq<int>, c: int, n: nat)
    requires n <= |s|
    ensures |Positions(s[..n], c)| <= |Positions(s, c)|
    ensures Positions(s[..n], c) == Positions(s, c)[..|Positions(s[..n], c)|]
    decreases |s|
  {
    if n < |s| {
      var init := s[..|s| - 1];
      assert init[..n] == s[..n];
      PositionsPrefix(init, c, n);
      assert Positions(s, c)[..|Positions(init, c)|] == Positions(init, c);
    } else {
      assert s[..n] == s;
    }
  }

  /** Position `i` is the `Rank(s, i)`-th occurrence of `s[i]`. */
  lemma PositionsAtRank(s: seq<int>, i: nat)
    requires i < |s|
    ensures Rank(s, i) < |Positions(s, s[i])|
    ensures Positions(s, s[i])[Rank(s, i)] == i
  {
    var c := s[i];
    PositionsPrefix(s, c, i + 1);
    assert s[..i + 1][..i] == s[..i];
    assert s[..i + 1][i] == c;
    assert Positions(s[..i + 1], c) == Positions(s[..i], c) + [i];
    assert Rank(s, i) == |Positions(s[..i], c)|;
  }

  /** The entries of `rs` whose key is `c`, in order. */
  function Select<T>(rs: seq<T>, keys: seq<int>, c: int): (r: seq<T>)
    requires |keys| == |rs|
    ensures |r| == |Positions(keys, c)|
    ensures forall t :: 0 <= t < |r| ==> r[t] == rs[Positions(keys, c)[t]]
  {
    if rs == [] then []
    else
      var n := |rs| - 1;
      SplitLast(keys);
      Select(rs[..n], keys[..n], c) + (if keys[n] == c then [rs[n]] else [])
  }

  /**
   * When the key is a function of the entry, selecting by key `c` keeps
   * exactly the entries whose key is `c`, with their multiplicities.
   */
  lemma {:induction false} SelectMultiset<T>(rs: seq<T>, key: T -> int, c: int, r: T)
    ensures multiset(Select(rs, MapSeq(rs, key), c))[r] == if key(r) == c then multiset(rs)[r] else 0
    decreases |rs|
  {
    if rs != [] {
      var n := |rs| - 1;
      SelectMultiset(rs[..n], key, c, r);
      SelectSnoc(rs, key, c);
      SplitLast(rs);
    }
  }

  /** A non-empty sequence is its prefix followed by its last element. */
  lemma SplitLast<T>(s: seq<T>)
    requires |s| > 0
    ensures s == s[..|s| - 1] + [s[|s| - 1]]
    ensures multiset(s) == multiset(s[..|s| - 1]) + multiset{s[|s| - 1]}
  {
    assert s == s[..|s| - 1] + [s[|s| - 1]];
  }

  /** Concatenation is associative. */
  lemma ConcatAssoc<T>(a: seq<T>, b: seq<T>, c: seq<T>)
    ensures a + (b + c) == (a + b) + c
  {
  }

  /** Two sequences that agree before and after a cut are equal. */
  lemma SplitEqual<T>(a: seq<T>, b: seq<T>, k: nat)
    requires k <= |a| == |b| && a[..k] == b[..k] && a[k..] == b[k..]
    ensures a == b
  {
    assert a == a[..k] + a[k..];
    assert b == b[..k] + b[k..];
  }

  /** A prefix one longer counts one more of the next element and nothing else. */
  lemma PrefixSnoc<T>(s: seq<T>, i: nat)
    requires i < |s|
    ensures s[..i + 1] == s[..i] + [s[i]]
    ensures multiset(s[..i + 1]) == multiset(s[..i]) + multiset{s[i]}
  {
    assert s[..i + 1] == s[..i] + [s[i]];
  }

  lemma SelectSnoc<T>(rs: seq<T>, key: T -> int, c: int)
    requires |rs| > 0
    ensures Select(rs, MapSeq(rs, key), c)
         == Select(rs[..|rs| - 1], MapSeq(rs[..|rs| - 1], key), c) + if key(rs[|rs| - 1]) == c then [rs[|rs| - 1]] else []
  {
    var n := |rs| - 1;
    assert MapSeq(rs, key)[..n] == MapSeq(rs[..n], key);
  }

  /** How many entries of `s` lie in `0 .. c-1`. */
  function CountBelow(s: seq<int>, c: nat): nat
  {
    if c == 0 then 0 else CountBelow(s, c - 1) + multiset(s)[c - 1]
  }

  lemma {:induction false} CountBelowMono(s: seq<int>, c: nat, d: nat)
    requires c <= d
    ensures CountBelow(s, c) <= CountBelow(s, d)
    decreases d
  {
    if c < d {
      CountBelowMono(s, c, d - 1);
    }
  }

  lemma {:induction false} CountBelowSnoc(s: seq<int>, v: int, c: nat)
    ensures CountBelow(s + [v], c) == CountBelow(s, c) + if 0 <= v < c then 1 else 0
    decreases c
  {
    if c > 0 {
      CountBelowSnoc(s, v, c - 1);
      assert multiset(s + [v]) == multiset(s) + multiset{v};
    }
  }

  /** When every entry lies in `0 .. c-1`, all of them are counted. */
  lemma {:induction false} CountBelowAll(s: seq<int>, c: nat)
    requires forall i :: 0 <= i < |s| ==> 0 <= s[i] < c
    ensures CountBelow(s, c) == |s|
    decreases |s|
  {
    if s == [] {
      CountBelowEmpty(c);
    } else {
      var n := |s| - 1;
      assert s == s[..n] + [s[n]];
      CountBelowAll(s[..n], c);
      CountBelowSnoc(s[..n], s[n], c);
    }
  }

  lemma {:induction false} CountBelowEmpty(c: nat)
    ensures CountBelow([], c) == 0
    decreases c
  {
    if c > 0 {
      CountBelowEmpty(c - 1);
    }
  }

  /** The first position of `v` in `xs`. */
  function IndexOf<T(==)>(xs: seq<T>, v: T): (i: nat)
    requires v in xs
    ensures i < |xs| && xs[i] == v && v !in xs[..i]
  {
    if xs[0] == v then 0
    else
      assert xs[1..][..IndexOf(xs[1..], v)] == xs[1..1 + IndexOf(xs[1..], v)];
      1 + IndexOf(xs[1..], v)
  }

  /** A suffix that starts with `c` and goes on with `rest`. */
  lemma ConsTail<T>(s: seq<T>, p: nat, c: T, rest: seq<T>)
    requires p <= |s| && s[p..] == [c] + rest
    ensures p < |s| && s[p] == c && s[p + 1..] == rest
  {
    assert s[p..][0] == c;
    assert s[p..][1..] == s[p + 1..];
  }

  /** A position holding `v` with no `v` before it is the first position of `v`. */
  /** A suffix that is a single entry is the last entry. */
  lemma LastOf<T>(s: seq<T>, p: nat, c: T)
    requires p <= |s| && s[p..] == [c]
    ensures p == |s| - 1 && s == s[..p] + [c]
  {
    assert s[p..][0] == c;
  }

  lemma IndexOfAt<T>(xs: seq<T>, v: T, k: nat)
    requires k < |xs| && xs[k] == v && v !in xs[..k]
    ensures IndexOf(xs, v) == k
  {
    if k > 0 {
      assert xs[..k][0] == xs[0];
      assert xs[1..][..k - 1] == xs[..k][1..];
      IndexOfAt(xs[1..], v, k - 1);
    }
  }

  /**
   * `x` part way through moving `x[j..i]` one place right, as an insertion
   * or a move to the front does from the top down: `x[j]` is still in
   * place and also copied to `j + 1`.
   */
  function Shifted<T>(x: seq<T>, i: nat, j: nat): (r: seq<T>)
    requires j <= i < |x|
    ensures |r| == |x|
  {
    x[..j + 1] + x[j..i] + x[i + 1..]
  }

  lemma ShiftedAt<T>(x: seq<T>, i: nat, j: nat, k: nat)
    requires j <= i < |x| && k < |x|
    ensures Shifted(x, i, j)[k] == if k <= j || i < k then x[k] else x[k - 1]
  {
  }

  /** `x[i]` moved to position `j`, the entries from `j` to `i - 1` each one place right. */
  lemma MovedAt<T>(x: seq<T>, i: nat, j: nat, after: seq<T>)
    requires j <= i < |x| && after == Shifted(x, i, j)[j := x[i]]
    ensures |after| == |x|
    ensures forall k {:trigger after[k]} :: 0 <= k < |after| ==> after[k] == if k < j || i < k then x[k] else if k == j then x[i] else x[k - 1]
  {
    forall k | 0 <= k < |after|
      ensures after[k] == if k < j || i < k then x[k] else if k == j then x[i] else x[k - 1]
    {
      ShiftedAt(x, i, j, k);
    }
  }

  /** Moving `x[j-1]` one place right extends the shifted block by one. */
  lemma ShiftStep<T>(x: seq<T>, i: nat, j: nat)
    requires 0 < j <= i < |x|
    ensures Shifted(x, i, j)[j := x[j - 1]] == Shifted(x, i, j - 1)
  {
    var l, r := Shifted(x, i, j)[j := x[j - 1]], Shifted(x, i, j - 1);
    forall k | 0 <= k < |x| ensures l[k] == r[k] {
      ShiftedAt(x, i, j, k);
      ShiftedAt(x, i, j - 1, k);
    }
  }
}
