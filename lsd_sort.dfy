/**
 * `CircularSuffix.sort`: an LSD string sort of circular suffixes. For each
 * character position `d` from `N-1` down to `0` it runs one key-indexed
 * counting pass on `charAt(d)`: count every key, turn the counts into the
 * start of each key's bucket, deal every suffix into its bucket in input
 * order, and copy the result back.
 */
module LsdSort {
  import opened Common
  import Seqs
  import Perms
  import Lex
  import opened CircularSuffixes

  // ---------------------------------------------------------------------
  // Key-indexed counting on an abstract sequence of keys
  // ---------------------------------------------------------------------

  /** Every key lies in `0 .. r-1`. */
  ghost predicate InRadix(keys: seq<int>, r: nat) {
    forall i :: 0 <= i < |keys| ==> 0 <= keys[i] < r
  }

  /** The entries of `xs` whose key is `c`, in input order: one bucket of a counting pass. */
  function Bucket<T>(xs: seq<T>, keys: seq<int>, c: int): seq<T>
    requires |keys| == |xs|
  {
    if xs == [] then []
    else
      var n := |xs| - 1;
      Bucket(xs[..n], keys[..n], c) + if keys[n] == c then [xs[n]] else []
  }

  /** A bucket holds as many entries as there are keys equal to `c`. */
  lemma {:induction false} BucketLength<T>(xs: seq<T>, keys: seq<int>, c: int)
    requires |keys| == |xs|
    ensures |Bucket(xs, keys, c)| == multiset(keys)[c]
    decreases |xs|
  {
    if xs != [] {
      var n := |xs| - 1;
      BucketLength(xs[..n], keys[..n], c);
      Seqs.SplitLast(keys);
    }
  }

  /** Entry `i` is the `Rank(keys, i)`-th entry of the bucket of its key. */
  lemma {:induction false} BucketAt<T>(xs: seq<T>, keys: seq<int>, i: nat)
    requires |keys| == |xs| && i < |xs|
    ensures Seqs.Rank(keys, i) < |Bucket(xs, keys, keys[i])|
    ensures Bucket(xs, keys, keys[i])[Seqs.Rank(keys, i)] == xs[i]
    decreases |xs|
  {
    var n := |xs| - 1;
    BucketLength(xs[..n], keys[..n], keys[i]);
    if i == n {
      assert keys[..n] == keys[..i];
    } else {
      BucketAt(xs[..n], keys[..n], i);
      assert keys[..n][..i] == keys[..i];
    }
  }

  /** The first `c` buckets of a counting pass: the entries with key `0`, then key `1`, and so on. */
  function Gather<T>(xs: seq<T>, keys: seq<int>, c: nat): seq<T>
    requires |keys| == |xs|
  {
    if c == 0 then [] else Gather(xs, keys, c - 1) + Bucket(xs, keys, c - 1)
  }

  /** The first `c` buckets hold the entries with keys below `c`. */
  lemma {:induction false} GatherLength<T>(xs: seq<T>, keys: seq<int>, c: nat)
    requires |keys| == |xs|
    ensures |Gather(xs, keys, c)| == Seqs.CountBelow(keys, c)
    decreases c
  {
    if c > 0 {
      GatherLength(xs, keys, c - 1);
      BucketLength(xs, keys, c - 1);
      assert Gather(xs, keys, c) == Gather(xs, keys, c - 1) + Bucket(xs, keys, c - 1);
      assert Seqs.CountBelow(keys, c) == Seqs.CountBelow(keys, c - 1) + multiset(keys)[c - 1];
    }
  }

  /**
   * Where a counting pass puts entry `i`: after every entry with a smaller
   * key and after the entries with the same key that come before it.
   */
  function Dest(keys: seq<int>, i: nat): (p: nat)
    requires i < |keys| && 0 <= keys[i]
  {
    Seqs.CountBelow(keys, keys[i]) + Seqs.Rank(keys, i)
  }

  /** The destinations of all entries. */
  function Dests(keys: seq<int>, r: nat): (p: seq<nat>)
    requires InRadix(keys, r)
    ensures |p| == |keys| && forall i :: 0 <= i < |keys| ==> p[i] == Dest(keys, i)
  {
    seq(|keys|, i requires 0 <= i < |keys| => Dest(keys, i))
  }

  /** Entry `i` lands inside its own bucket, so before the end of the output. */
  lemma DestBelow(keys: seq<int>, r: nat, i: nat)
    requires InRadix(keys, r) && i < |keys|
    ensures Dest(keys, i) < Seqs.CountBelow(keys, keys[i] + 1) <= |keys|
  {
    Seqs.RankBelow(keys, i);
    assert Seqs.CountBelow(keys, keys[i] + 1) == Seqs.CountBelow(keys, keys[i]) + multiset(keys)[keys[i]];
    Seqs.CountBelowMono(keys, keys[i] + 1, r);
    Seqs.CountBelowAll(keys, r);
  }

  /** Of two entries with one key, the earlier one has the smaller rank. */
  lemma RankOrder(keys: seq<int>, i: nat, j: nat)
    requires i < j < |keys| && keys[i] == keys[j]
    ensures Seqs.Rank(keys, i) < Seqs.Rank(keys, j)
  {
    assert keys[..j] == keys[..i] + [keys[i]] + keys[i + 1..j];
  }

  /** A counting pass orders by key first and, for equal keys, by input position. */
  lemma DestOrder(keys: seq<int>, r: nat, i: nat, j: nat)
    requires InRadix(keys, r) && i < |keys| && j < |keys|
    requires keys[i] < keys[j] || (keys[i] == keys[j] && i < j)
    ensures Dest(keys, i) < Dest(keys, j)
  {
    if keys[i] < keys[j] {
      DestBelow(keys, r, i);
      Seqs.CountBelowMono(keys, keys[i] + 1, keys[j]);
    } else {
      RankOrder(keys, i, j);
    }
  }

  /** Different entries land in different places. */
  lemma DestInjective(keys: seq<int>, r: nat, i: nat, j: nat)
    requires InRadix(keys, r) && i < |keys| && j < |keys| && i != j
    ensures Dest(keys, i) != Dest(keys, j)
  {
    if keys[i] < keys[j] || (keys[i] == keys[j] && i < j) {
      DestOrder(keys, r, i, j);
    } else {
      DestOrder(keys, r, j, i);
    }
  }

  /** The destinations are a permutation of the output positions. */
  lemma DestsPermutation(keys: seq<int>, r: nat)
    requires InRadix(keys, r)
    ensures Perms.IsPermutation(Dests(keys, r))
  {
    var p := Dests(keys, r);
    forall i, j | 0 <= i < j < |p| ensures p[i] != p[j] {
      DestInjective(keys, r, i, j);
    }
    forall i | 0 <= i < |p| ensures p[i] < |p| {
      DestBelow(keys, r, i);
    }
    Perms.InjectiveIsPermutation(p);
  }

  /** Every output position receives some entry. */
  lemma DestCovers(keys: seq<int>, r: nat, p: nat) returns (i: nat)
    requires InRadix(keys, r) && p < |keys|
    ensures i < |keys| && Dest(keys, i) == p
  {
    DestsPermutation(keys, r);
    Perms.PermutationCovers(Dests(keys, r), p);
    i :| 0 <= i < |keys| && Dests(keys, r)[i] == p;
  }

  /** Entry `i` is found at its destination in the buckets. */
  lemma {:induction false} GatherAt<T>(xs: seq<T>, keys: seq<int>, c: nat, i: nat)
    requires |xs| == |keys| && i < |keys| && 0 <= keys[i] < c
    ensures Dest(keys, i) < |Gather(xs, keys, c)|
    ensures Gather(xs, keys, c)[Dest(keys, i)] == xs[i]
    decreases c
  {
    if keys[i] == c - 1 {
      GatherAtLast(xs, keys, c, i);
    } else {
      GatherAt(xs, keys, c - 1, i);
      GatherAtEarlier(xs, keys, c, Dest(keys, i));
    }
  }

  /** An entry of the last bucket, after all the earlier ones. */
  lemma GatherAtLast<T>(xs: seq<T>, keys: seq<int>, c: nat, i: nat)
    requires |xs| == |keys| && i < |keys| && 0 < c && keys[i] == c - 1
    ensures Dest(keys, i) < |Gather(xs, keys, c)|
    ensures Gather(xs, keys, c)[Dest(keys, i)] == xs[i]
  {
    var g, b := Gather(xs, keys, c - 1), Bucket(xs, keys, c - 1);
    var k := Seqs.Rank(keys, i);
    GatherLength(xs, keys, c - 1);
    BucketAt(xs, keys, i);
    assert Dest(keys, i) == |g| + k;
    GatherSucc(xs, keys, c);
    Concat2(g, b, k);
  }

  /** The first `c` buckets are the first `c - 1` followed by bucket `c - 1`. */
  lemma GatherSucc<T>(xs: seq<T>, keys: seq<int>, c: nat)
    requires |xs| == |keys| && 0 < c
    ensures Gather(xs, keys, c) == Gather(xs, keys, c - 1) + Bucket(xs, keys, c - 1)
  {
  }

  /** Adding a bucket leaves the earlier entries in place. */
  lemma GatherAtEarlier<T>(xs: seq<T>, keys: seq<int>, c: nat, p: nat)
    requires |xs| == |keys| && 0 < c && p < |Gather(xs, keys, c - 1)|
    ensures p < |Gather(xs, keys, c)| && Gather(xs, keys, c)[p] == Gather(xs, keys, c - 1)[p]
  {
    assert Gather(xs, keys, c) == Gather(xs, keys, c - 1) + Bucket(xs, keys, c - 1);
    Concat1(Gather(xs, keys, c - 1), Bucket(xs, keys, c - 1), p);
  }

  lemma Concat1<T>(a: seq<T>, b: seq<T>, k: nat)
    requires k < |a|
    ensures k < |a + b| && (a + b)[k] == a[k]
  {
  }

  lemma Concat2<T>(a: seq<T>, b: seq<T>, k: nat)
    requires k < |b|
    ensures |a| + k < |a + b| && (a + b)[|a| + k] == b[k]
  {
  }

  // ---------------------------------------------------------------------
  // One pass on a character position of the suffixes
  // ---------------------------------------------------------------------

  /** Every character of `s` is below `r`. */
  ghost predicate CharsBelow(s: seq<Char16>, r: nat) {
    forall k :: 0 <= k < |s| ==> s[k] < r
  }

  /** What `sort(suffixes, N, R)` expects: suffixes of strings of length `n`, every character below `r`. */
  ghost predicate Fits(xs: seq<CircularSuffix>, n: nat, r: nat) {
    forall i :: 0 <= i < |xs| ==> |xs[i].s| == n && CharsBelow(xs[i].s, r)
  }

  /** The key of a pass on position `d`: `charAt(d)`. */
  function Key(x: CircularSuffix, d: nat): (k: int)
    ensures 0 <= k
  {
    if |x.s| > 0 then x.CharAt(d) else 0
  }

  lemma KeyBelow(x: CircularSuffix, d: nat, r: nat)
    requires |x.s| > 0 && CharsBelow(x.s, r)
    ensures Key(x, d) < r
  {
    assert x.CharAt(d) == x.s[(d + x.offset) % |x.s|];
  }

  function Keys(xs: seq<CircularSuffix>, d: nat): (k: seq<int>)
    ensures |k| == |xs| && forall i :: 0 <= i < |xs| ==> k[i] == Key(xs[i], d)
  {
    seq(|xs|, i requires 0 <= i < |xs| => Key(xs[i], d))
  }

  lemma KeysInRadix(xs: seq<CircularSuffix>, n: nat, r: nat, d: nat)
    requires Fits(xs, n, r) && n > 0
    ensures InRadix(Keys(xs, d), r)
  {
    forall i | 0 <= i < |xs| ensures Key(xs[i], d) < r {
      KeyBelow(xs[i], d, r);
    }
  }

  /** One counting pass on position `d`: the suffixes, stably ordered by `charAt(d)`. */
  function Pass(xs: seq<CircularSuffix>, d: nat, r: nat): seq<CircularSuffix>
  {
    Gather(xs, Keys(xs, d), r)
  }

  /** A pass on position `d` puts suffix `i` at `Dest`, and every position is filled so. */
  lemma PassAt(xs: seq<CircularSuffix>, n: nat, r: nat, d: nat, i: nat)
    requires Fits(xs, n, r) && n > 0 && i < |xs|
    ensures InRadix(Keys(xs, d), r) && |Pass(xs, d, r)| == |xs|
    ensures Dest(Keys(xs, d), i) < |xs| && Pass(xs, d, r)[Dest(Keys(xs, d), i)] == xs[i]
  {
    var keys := Keys(xs, d);
    KeysInRadix(xs, n, r, d);
    Seqs.CountBelowAll(keys, r);
    GatherLength(xs, keys, r);
    GatherAt(xs, keys, r, i);
  }

  /**
   * A pass is stable: two suffixes with the same key at `d` keep their
   * relative order.
   */
  lemma PassStable(xs: seq<CircularSuffix>, n: nat, r: nat, d: nat, i: nat, j: nat)
    requires Fits(xs, n, r) && n > 0 && i < j < |xs| && Key(xs[i], d) == Key(xs[j], d)
    ensures Dest(Keys(xs, d), i) < Dest(Keys(xs, d), j) < |Pass(xs, d, r)|
    ensures Pass(xs, d, r)[Dest(Keys(xs, d), i)] == xs[i] && Pass(xs, d, r)[Dest(Keys(xs, d), j)] == xs[j]
  {
    PassAt(xs, n, r, d, i);
    PassAt(xs, n, r, d, j);
    DestOrder(Keys(xs, d), r, i, j);
  }

  /** The output of a pass is ordered by the key. */
  lemma PassByKey(xs: seq<CircularSuffix>, n: nat, r: nat, d: nat, p: nat, q: nat)
    requires Fits(xs, n, r) && n > 0 && p < q < |xs|
    ensures |Pass(xs, d, r)| == |xs| && Key(Pass(xs, d, r)[p], d) <= Key(Pass(xs, d, r)[q], d)
  {
    var keys := Keys(xs, d);
    KeysInRadix(xs, n, r, d);
    var i := DestCovers(keys, r, p);
    var j := DestCovers(keys, r, q);
    PassAt(xs, n, r, d, i);
    PassAt(xs, n, r, d, j);
    if keys[j] < keys[i] {
      DestOrder(keys, r, j, i);
    }
  }

  /** A pass rearranges its input. */
  lemma PassMultiset(xs: seq<CircularSuffix>, n: nat, r: nat, d: nat)
    requires Fits(xs, n, r) && n > 0
    ensures multiset(Pass(xs, d, r)) == multiset(xs)
  {
    var keys := Keys(xs, d);
    var out := Pass(xs, d, r);
    var p := Dests(keys, r);
    KeysInRadix(xs, n, r, d);
    DestsPermutation(keys, r);
    PassLength(xs, n, r, d);
    forall i | 0 <= i < |xs| ensures p[i] < |out| && xs[i] == out[p[i]] {
      PassAt(xs, n, r, d, i);
    }
    Perms.PermuteMultiset(out, xs, p);
  }

  /** A pass keeps what `sort` expects of its input. */
  lemma PassFits(xs: seq<CircularSuffix>, n: nat, r: nat, d: nat)
    requires Fits(xs, n, r) && n > 0
    ensures Fits(Pass(xs, d, r), n, r)
  {
    var out := Pass(xs, d, r);
    PassLength(xs, n, r, d);
    forall p | 0 <= p < |out| ensures |out[p].s| == n && CharsBelow(out[p].s, r) {
      KeysInRadix(xs, n, r, d);
      var i := DestCovers(Keys(xs, d), r, p);
      PassAt(xs, n, r, d, i);
    }
  }

  /** A pass keeps the number of suffixes. */
  lemma PassLength(xs: seq<CircularSuffix>, n: nat, r: nat, d: nat)
    requires Fits(xs, n, r) && n > 0
    ensures |Pass(xs, d, r)| == |xs|
  {
    KeysInRadix(xs, n, r, d);
    Seqs.CountBelowAll(Keys(xs, d), r);
    GatherLength(xs, Keys(xs, d), r);
  }

  // ---------------------------------------------------------------------
  // The whole sort
  // ---------------------------------------------------------------------

  /** The characters of the rotation from position `d` on. */
  function Tail(x: CircularSuffix, d: nat): seq<Char16>
  {
    var t := x.ToString();
    if d <= |t| then t[d..] else []
  }

  /** The suffixes are in order on their rotations' characters from position `d` on. */
  ghost predicate SortedFrom(xs: seq<CircularSuffix>, d: nat) {
    forall p, q :: 0 <= p < q < |xs| ==> Lex.LessEq(Tail(xs[p], d), Tail(xs[q], d))
  }

  /** The passes on positions `n-1` down to `d`. */
  function Lsd(xs: seq<CircularSuffix>, n: nat, r: nat, d: nat): seq<CircularSuffix>
    decreases n - d
  {
    if d >= n then xs else Pass(Lsd(xs, n, r, d + 1), d, r)
  }

  /** Comparing from `d` on: the character at `d` decides, then the rest. */
  lemma TailStep(x: CircularSuffix, y: CircularSuffix, d: nat)
    requires |x.s| == |y.s| && d < |x.s|
    ensures Tail(x, d) == [Key(x, d)] + Tail(x, d + 1) && Tail(y, d) == [Key(y, d)] + Tail(y, d + 1)
    ensures Key(x, d) < Key(y, d) ==> Lex.Less(Tail(x, d), Tail(y, d))
    ensures Key(x, d) == Key(y, d) && Lex.LessEq(Tail(x, d + 1), Tail(y, d + 1)) ==> Lex.LessEq(Tail(x, d), Tail(y, d))
  {
    var a, b := x.ToString(), y.ToString();
    assert a[d..] == [a[d]] + a[d + 1..];
    assert b[d..] == [b[d]] + b[d + 1..];
    Lex.LessAt(a, b, d);
  }

  /** Two output positions of a pass, taken back to the entries that landed there. */
  lemma PassPair(xs: seq<CircularSuffix>, n: nat, r: nat, d: nat, p: nat, q: nat)
    requires Fits(xs, n, r) && d < n && SortedFrom(xs, d + 1) && p < q < |xs|
    ensures |Pass(xs, d, r)| == |xs| && Lex.LessEq(Tail(Pass(xs, d, r)[p], d), Tail(Pass(xs, d, r)[q], d))
  {
    var keys := Keys(xs, d);
    KeysInRadix(xs, n, r, d);
    var i := DestCovers(keys, r, p);
    var j := DestCovers(keys, r, q);
    PassAt(xs, n, r, d, i);
    PassAt(xs, n, r, d, j);
    SourceOrder(keys, r, i, j);
    if keys[i] == keys[j] {
      assert Lex.LessEq(Tail(xs[i], d + 1), Tail(xs[j], d + 1));
    }
    TailStep(xs[i], xs[j], d);
  }

  /** Entries landing in order had smaller keys or, with equal keys, came first. */
  lemma SourceOrder(keys: seq<int>, r: nat, i: nat, j: nat)
    requires InRadix(keys, r) && i < |keys| && j < |keys| && Dest(keys, i) < Dest(keys, j)
    ensures keys[i] < keys[j] || (keys[i] == keys[j] && i < j)
  {
    if keys[j] < keys[i] || (keys[i] == keys[j] && j < i) {
      DestOrder(keys, r, j, i);
    }
  }

  /** A stable pass on `d` over input sorted from `d + 1` leaves it sorted from `d`. */
  lemma PassSorts(xs: seq<CircularSuffix>, n: nat, r: nat, d: nat)
    requires Fits(xs, n, r) && d < n && SortedFrom(xs, d + 1)
    ensures SortedFrom(Pass(xs, d, r), d)
  {
    PassLength(xs, n, r, d);
    forall p, q | 0 <= p < q < |Pass(xs, d, r)|
      ensures Lex.LessEq(Tail(Pass(xs, d, r)[p], d), Tail(Pass(xs, d, r)[q], d))
    {
      PassPair(xs, n, r, d, p, q);
    }
  }

  /** Before any pass, every tail from position `n` on is empty. */
  lemma SortedFromEnd(xs: seq<CircularSuffix>, n: nat, r: nat)
    requires Fits(xs, n, r)
    ensures SortedFrom(xs, n)
  {
    forall p, q | 0 <= p < q < |xs| ensures Lex.LessEq(Tail(xs[p], n), Tail(xs[q], n)) {
      assert Tail(xs[p], n) == [] == Tail(xs[q], n);
    }
  }

  /**
   * The passes on `n-1` down to `d` rearrange the input and sort it on
   * the characters from `d` on.
   */
  lemma {:induction false} LsdSorts(xs: seq<CircularSuffix>, n: nat, r: nat, d: nat)
    requires Fits(xs, n, r) && d <= n
    ensures multiset(Lsd(xs, n, r, d)) == multiset(xs)
    ensures Fits(Lsd(xs, n, r, d), n, r)
    ensures SortedFrom(Lsd(xs, n, r, d), d)
    decreases n - d
  {
    if d == n {
      SortedFromEnd(xs, n, r);
    } else {
      var prev := Lsd(xs, n, r, d + 1);
      LsdSorts(xs, n, r, d + 1);
      PassMultiset(prev, n, r, d);
      PassFits(prev, n, r, d);
      PassSorts(prev, n, r, d);
    }
  }

  /**
   * After all passes the suffixes are a rearrangement of the input in
   * non-decreasing order of their rotations, so consecutive `compareTo`s
   * are never positive.
   */
  lemma SortOrdersRotations(xs: seq<CircularSuffix>, n: nat, r: nat)
    requires Fits(xs, n, r)
    ensures multiset(Lsd(xs, n, r, 0)) == multiset(xs)
    ensures forall p, q :: 0 <= p < q < |Lsd(xs, n, r, 0)| ==>
      Lex.LessEq(Lsd(xs, n, r, 0)[p].ToString(), Lsd(xs, n, r, 0)[q].ToString())
    ensures forall p :: 0 < p < |Lsd(xs, n, r, 0)| ==>
      Lsd(xs, n, r, 0)[p - 1].CompareTo(Lsd(xs, n, r, 0)[p]).Ok?
      && Lsd(xs, n, r, 0)[p - 1].CompareTo(Lsd(xs, n, r, 0)[p]).value <= 0
  {
    var out := Lsd(xs, n, r, 0);
    LsdSorts(xs, n, r, 0);
    forall p | 0 <= p < |out| ensures Tail(out[p], 0) == out[p].ToString() {
      assert out[p].ToString()[0..] == out[p].ToString();
    }
    forall p | 0 < p < |out|
      ensures out[p - 1].CompareTo(out[p]).Ok? && out[p - 1].CompareTo(out[p]).value <= 0
    {
      var a, b := out[p - 1].ToString(), out[p].ToString();
      assert Lex.LessEq(a, b);
      if Lex.Less(a, b) {
        Lex.Asymmetric(a, b);
      } else {
        Lex.Irreflexive(a);
      }
    }
  }

  // ---------------------------------------------------------------------
  // The method
  // ---------------------------------------------------------------------

  /** One pass more of the whole sort. */
  lemma LsdStep(xs: seq<CircularSuffix>, n: nat, r: nat, d: nat)
    requires d < n
    ensures Lsd(xs, n, r, d) == Pass(Lsd(xs, n, r, d + 1), d, r)
  {
  }

  /**
   * `sort(suffixes, N, R)`. `N` is both the number of suffixes and the
   * length of their strings; every character must be below `R`, the size
   * of the count table less one.
   */
  method Sort(suffixes: array<CircularSuffix>, n: nat, r: nat)
    requires suffixes.Length == n && Fits(suffixes[..], n, r)
    modifies suffixes
    ensures suffixes[..] == Lsd(old(suffixes[..]), n, r, 0)
  {
    ghost var orig := suffixes[..];
    var aux := Scratch(n);
    var d: nat := n;
    while d > 0
      invariant d <= n
      invariant suffixes[..] == Lsd(orig, n, r, d) && Fits(suffixes[..], n, r)
    {
      d := d - 1;
      SortPass(suffixes, aux, orig, n, r, d);
    }
  }

  /** The auxiliary array `aux`, whose initial contents are never read. */
  method Scratch(n: nat) returns (aux: array<CircularSuffix>)
    ensures fresh(aux) && aux.Length == n
  {
    aux := new CircularSuffix[n](_ => CircularSuffix(0, []));
  }

  /** One pass of the outer loop, on position `d`. */
  method SortPass(suffixes: array<CircularSuffix>, aux: array<CircularSuffix>, ghost orig: seq<CircularSuffix>, n: nat, r: nat, d: nat)
    requires suffixes.Length == aux.Length == n && d < n && suffixes != aux
    requires suffixes[..] == Lsd(orig, n, r, d + 1) && Fits(suffixes[..], n, r)
    modifies suffixes, aux
    ensures suffixes[..] == Lsd(orig, n, r, d) && Fits(suffixes[..], n, r)
  {
    LsdStep(orig, n, r, d);
    CountingPass(suffixes, aux, n, r, d);
  }

  /** The body of the outer loop: one counting pass on position `d`, written to `aux` and copied back. */
  method CountingPass(suffixes: array<CircularSuffix>, aux: array<CircularSuffix>, n: nat, r: nat, d: nat)
    requires suffixes.Length == aux.Length == n && d < n && suffixes != aux
    requires Fits(suffixes[..], n, r)
    modifies suffixes, aux
    ensures suffixes[..] == Pass(old(suffixes[..]), d, r)
    ensures Fits(suffixes[..], n, r)
  {
    ghost var xs := suffixes[..];
    var count := Histogram(suffixes, n, r, d);
    Cumulate(count, Keys(xs, d), r);
    Distribute(suffixes, aux, count, n, r, d);
    ArrayCopy(aux, suffixes);
    PassFits(xs, n, r, d);
  }

  /** `System.arraycopy(aux, 0, suffixes, 0, N)`. */
  method ArrayCopy(aux: array<CircularSuffix>, suffixes: array<CircularSuffix>)
    requires aux.Length == suffixes.Length && aux != suffixes
    modifies suffixes
    ensures suffixes[..] == aux[..]
  {
    forall k | 0 <= k < suffixes.Length {
      suffixes[k] := aux[k];
    }
  }

  /** After `i` suffixes of the first loop: `count[c + 1]` counts key `c` among them. */
  ghost predicate Counted(count: seq<int>, keys: seq<int>, r: nat, i: nat) {
    i <= |keys| && |count| == r + 1 && count[0] == 0
    && forall c :: 0 <= c < r ==> count[c + 1] == multiset(keys[..i])[c]
  }

  /** The first loop: `count[c + 1]` is the number of suffixes whose key at `d` is `c`. */
  method Histogram(suffixes: array<CircularSuffix>, n: nat, r: nat, d: nat) returns (count: array<int>)
    requires suffixes.Length == n && d < n && Fits(suffixes[..], n, r)
    ensures fresh(count) && Counted(count[..], Keys(suffixes[..], d), r, n)
  {
    ghost var keys := Keys(suffixes[..], d);
    count := new int[r + 1](_ => 0);
    for i := 0 to n
      invariant Counted(count[..], keys, r, i)
    {
      CountOne(suffixes, count, keys, n, r, d, i);
    }
  }

  /** One pass of the first loop: `count[s.charAt(d) + 1]++`. */
  method CountOne(suffixes: array<CircularSuffix>, count: array<int>, ghost keys: seq<int>, n: nat, r: nat, d: nat, i: nat)
    requires suffixes.Length == n && i < n && Fits(suffixes[..], n, r) && keys == Keys(suffixes[..], d)
    requires Counted(count[..], keys, r, i)
    modifies count
    ensures Counted(count[..], keys, r, i + 1)
  {
    KeyBelow(suffixes[i], d, r);
    var k := suffixes[i].CharAt(d) + 1;
    assert k - 1 == keys[i];
    count[k] := count[k] + 1;
    Seqs.PrefixSnoc(keys, i);
  }

  /** The second loop: the counts become the start of each key's bucket. */
  method Cumulate(count: array<int>, ghost keys: seq<int>, r: nat)
    requires Counted(count[..], keys, r, |keys|)
    modifies count
    ensures forall c :: 0 <= c <= r ==> count[c] == Seqs.CountBelow(keys, c)
  {
    assert keys[..|keys|] == keys;
    for i := 1 to r + 1
      invariant forall c :: 0 <= c < i ==> count[c] == Seqs.CountBelow(keys, c)
      invariant forall c :: i <= c <= r ==> count[c] == multiset(keys)[c - 1]
    {
      assert Seqs.CountBelow(keys, i) == Seqs.CountBelow(keys, i - 1) + multiset(keys)[i - 1];
      count[i] := count[i] + count[i - 1];
    }
  }

  /** After `i` suffixes of the third loop: each has been put at its destination, and `count` is the next free slot per key. */
  ghost predicate Dealt(aux: seq<CircularSuffix>, count: seq<int>, xs: seq<CircularSuffix>, keys: seq<int>, r: nat, i: nat)
    requires InRadix(keys, r) && i <= |keys| == |xs|
  {
    |count| == r + 1
    && (forall c :: 0 <= c < r ==> count[c] == Seqs.CountBelow(keys, c) + multiset(keys[..i])[c])
    && forall j :: 0 <= j < i ==> Dest(keys, j) < |aux| && aux[Dest(keys, j)] == xs[j]
  }

  /** The third loop: every suffix in input order goes to the next free slot of its bucket. */
  method Distribute(suffixes: array<CircularSuffix>, aux: array<CircularSuffix>, count: array<int>, n: nat, r: nat, d: nat)
    requires suffixes.Length == aux.Length == n && d < n && count.Length == r + 1
    requires suffixes != aux && Fits(suffixes[..], n, r)
    requires forall c :: 0 <= c <= r ==> count[c] == Seqs.CountBelow(Keys(suffixes[..], d), c)
    modifies aux, count
    ensures aux[..] == Pass(suffixes[..], d, r)
  {
    ghost var xs := suffixes[..];
    ghost var keys := Keys(xs, d);
    KeysInRadix(xs, n, r, d);
    assert keys[..0] == [];
    for i := 0 to n
      invariant Dealt(aux[..], count[..], xs, keys, r, i)
    {
      DealOne(suffixes, aux, count, xs, keys, n, r, d, i);
    }
    DealtAll(aux[..], count[..], xs, n, r, d);
  }

  /** Once every suffix is dealt, `aux` is the pass. */
  lemma DealtAll(aux: seq<CircularSuffix>, count: seq<int>, xs: seq<CircularSuffix>, n: nat, r: nat, d: nat)
    requires |aux| == |xs| == n > 0 && Fits(xs, n, r) && InRadix(Keys(xs, d), r)
    requires Dealt(aux, count, xs, Keys(xs, d), r, n)
    ensures aux == Pass(xs, d, r)
  {
    PassAt(xs, n, r, d, 0);
    forall p | 0 <= p < n ensures aux[p] == Pass(xs, d, r)[p] {
      var i := DestCovers(Keys(xs, d), r, p);
      PassAt(xs, n, r, d, i);
    }
  }

  /** One pass of the third loop: `aux[count[c]] = s; count[c]++` with `c` the key of suffix `i`. */
  method DealOne(suffixes: array<CircularSuffix>, aux: array<CircularSuffix>, count: array<int>,
                 ghost xs: seq<CircularSuffix>, ghost keys: seq<int>, n: nat, r: nat, d: nat, i: nat)
    requires suffixes.Length == aux.Length == n && i < n && count.Length == r + 1 && suffixes != aux
    requires suffixes[..] == xs && Fits(xs, n, r) && keys == Keys(xs, d) && InRadix(keys, r)
    requires Dealt(aux[..], count[..], xs, keys, r, i)
    modifies aux, count
    ensures Dealt(aux[..], count[..], xs, keys, r, i + 1)
  {
    ghost var aux0, count0 := aux[..], count[..];
    var s := suffixes[i];
    var c := s.CharAt(d);
    assert c == keys[i];
    DestBelow(keys, r, i);
    var pos := count[c];
    aux[pos] := s;
    count[c] := count[c] + 1;
    DealStep(aux0, count0, xs, keys, r, i);
  }

  /** The state after dealing suffix `i` to its destination. */
  lemma DealStep(aux: seq<CircularSuffix>, count: seq<int>, xs: seq<CircularSuffix>, keys: seq<int>, r: nat, i: nat)
    requires InRadix(keys, r) && i < |keys| == |xs| && Dealt(aux, count, xs, keys, r, i)
    requires Dest(keys, i) < |aux|
    ensures count[keys[i]] == Dest(keys, i)
    ensures Dealt(aux[Dest(keys, i) := xs[i]], count[keys[i] := count[keys[i]] + 1], xs, keys, r, i + 1)
  {
    var aux', count' := aux[Dest(keys, i) := xs[i]], count[keys[i] := count[keys[i]] + 1];
    forall j | 0 <= j < i ensures Dest(keys, j) < |aux'| && aux'[Dest(keys, j)] == xs[j] {
      DestInjective(keys, r, j, i);
    }
    Seqs.PrefixSnoc(keys, i);
    forall c | 0 <= c < r ensures count'[c] == Seqs.CountBelow(keys, c) + multiset(keys[..i + 1])[c] {
    }
  }
}
