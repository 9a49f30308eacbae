/**
 * The circular suffix array: all rotations of a string, sorted.
 */
module CircularSuffixArrays {
  import opened Common
  import Lex
  import Seqs
  import opened CircularSuffixes
  import opened SuffixOrder

  /** The offsets of a sequence of suffixes. */
  function Offsets(a: seq<CircularSuffix>): (r: seq<nat>)
    ensures |r| == |a| && forall i :: 0 <= i < |a| ==> r[i] == a[i].offset
  {
    seq(|a|, i requires 0 <= i < |a| => a[i].offset)
  }

  /** Every entry is a suffix of `s` at a valid offset. */
  ghost predicate SuffixesOf(s: seq<Char16>, a: seq<CircularSuffix>) {
    forall k :: 0 <= k < |a| ==> a[k].s == s && a[k].offset < |s|
  }

  /**
   * `Arrays.sort(suffixes)`: a stable sort comparing by `compareTo`. It is
   * modelled by an insertion sort that moves an entry left past the entries
   * that compare strictly greater. Since the suffixes arrive in offset
   * order, the result is the sorted-suffix order `Order(s)`; stability makes
   * every stable sort give this same arrangement.
   */
  method SortSuffixes(a: array<CircularSuffix>, ghost s: seq<Char16>)
    requires a.Length == |s|
    requires forall k :: 0 <= k < a.Length ==> a[k] == CircularSuffix(k, s)
    modifies a
    ensures SuffixesOf(s, a[..])
    ensures Offsets(a[..]) == Order(s)
  {
    var n := a.Length;
    for i := 0 to n
      invariant SuffixesOf(s, a[..])
      invariant forall k :: i <= k < n ==> a[k] == CircularSuffix(k, s)
      invariant InRange(s, Offsets(a[..i])) && StrictlySorted(s, Offsets(a[..i]))
      invariant multiset(Offsets(a[..i])) == multiset(Seqs.Range(i))
    {
      InsertOne(a, s, i);
    }
    assert a[..] == a[..n];
    OrderUnique(s, Offsets(a[..]));
  }

  /** One step of the insertion sort: moves `a[i]` left past the entries greater than it. */
  method InsertOne(a: array<CircularSuffix>, ghost s: seq<Char16>, i: nat)
    requires a.Length == |s| && i < |s|
    requires SuffixesOf(s, a[..])
    requires forall k :: i <= k < a.Length ==> a[k] == CircularSuffix(k, s)
    requires InRange(s, Offsets(a[..i])) && StrictlySorted(s, Offsets(a[..i]))
    requires multiset(Offsets(a[..i])) == multiset(Seqs.Range(i))
    modifies a
    ensures SuffixesOf(s, a[..])
    ensures forall k :: i < k < a.Length ==> a[k] == CircularSuffix(k, s)
    ensures InRange(s, Offsets(a[..i + 1])) && StrictlySorted(s, Offsets(a[..i + 1]))
    ensures multiset(Offsets(a[..i + 1])) == multiset(Seqs.Range(i + 1))
  {
    ghost var orig := a[..];
    ghost var prefix := Offsets(a[..i]);
    var key := a[i];
    var j := ShiftGreater(a, s, i, prefix);
    a[j] := key;
    InsertedShape(orig, a[..], s, i, j);
    InsertStep(s, prefix, i, j);
  }

  /** The array after the insertion, entry by entry. */
  lemma InsertedShape(orig: seq<CircularSuffix>, after: seq<CircularSuffix>, s: seq<Char16>, i: nat, j: nat)
    requires j <= i < |orig| == |s| && SuffixesOf(s, orig)
    requires forall k :: i <= k < |orig| ==> orig[k] == CircularSuffix(k, s)
    requires after == Seqs.Shifted(orig, i, j)[j := orig[i]]
    ensures SuffixesOf(s, after)
    ensures forall k :: i < k < |after| ==> after[k] == CircularSuffix(k, s)
    ensures Offsets(after[..i + 1]) == Offsets(orig[..i])[..j] + [i] + Offsets(orig[..i])[j..]
  {
    Seqs.MovedAt(orig, i, j, after);
    InsertedOffsets(orig, after, s, i, j);
  }

  /** The offsets of the first `i + 1` entries after the insertion. */
  lemma InsertedOffsets(orig: seq<CircularSuffix>, after: seq<CircularSuffix>, s: seq<Char16>, i: nat, j: nat)
    requires j <= i < |orig| == |after| && orig[i].offset == i
    requires forall k {:trigger after[k]} :: 0 <= k < |after| ==> after[k] == if k < j || i < k then orig[k] else if k == j then orig[i] else orig[k - 1]
    ensures Offsets(after[..i + 1]) == Offsets(orig[..i])[..j] + [i] + Offsets(orig[..i])[j..]
  {
    var prefix := Offsets(orig[..i]);
    var r := prefix[..j] + [i] + prefix[j..];
    InsertedAt(prefix, i, j);
    forall k | 0 <= k <= i ensures after[k].offset == r[k] {
      if k < j {
        assert after[k] == orig[k] && r[k] == prefix[k] == orig[..i][k].offset;
      } else if j < k {
        assert after[k] == orig[k - 1] && r[k] == prefix[k - 1] == orig[..i][k - 1].offset;
      } else {
        assert after[k] == orig[i] && r[k] == i;
      }
    }
    assert Offsets(after[..i + 1]) == r;
  }

  /**
   * The inner loop of the insertion: moves one place right the entries
   * left of `i` whose rotation compares greater than the rotation at offset
   * `i`, and returns the slot left free.
   */
  method ShiftGreater(a: array<CircularSuffix>, ghost s: seq<Char16>, i: nat, ghost prefix: seq<nat>) returns (j: nat)
    requires a.Length == |s| && i < |s| && |prefix| == i
    requires SuffixesOf(s, a[..])
    requires a[i] == CircularSuffix(i, s)
    requires forall k :: 0 <= k < i ==> a[k].offset == prefix[k]
    modifies a
    ensures j <= i
    ensures a[..] == Seqs.Shifted(old(a[..]), i, j)
    ensures forall k :: j <= k < i ==> Lex.Less(Rotate(s, i), Rotate(s, prefix[k]))
    ensures j > 0 ==> !Lex.Less(Rotate(s, i), Rotate(s, prefix[j - 1]))
  {
    ghost var orig := a[..];
    var key := a[i];
    j := i;
    while j > 0
      invariant j <= i
      invariant a[..] == Seqs.Shifted(orig, i, j)
      invariant forall k :: j <= k < i ==> Lex.Less(Rotate(s, i), Rotate(s, prefix[k]))
    {
      var moved := ShiftOne(a, s, i, j, key, orig, prefix);
      if !moved {
        break;
      }
      j := j - 1;
    }
  }

  /**
   * One pass of the inner loop: when the entry at `j - 1` compares greater
   * than `key`, it moves right into slot `j`.
   */
  method ShiftOne(a: array<CircularSuffix>, ghost s: seq<Char16>, i: nat, j: nat, key: CircularSuffix,
                  ghost orig: seq<CircularSuffix>, ghost prefix: seq<nat>) returns (moved: bool)
    requires 0 < j <= i < |s| == |orig| && |prefix| == i
    requires SuffixesOf(s, orig) && key == CircularSuffix(i, s)
    requires forall k :: 0 <= k < i ==> orig[k].offset == prefix[k]
    requires a[..] == Seqs.Shifted(orig, i, j)
    modifies a
    ensures moved <==> Lex.Less(Rotate(s, i), Rotate(s, prefix[j - 1]))
    ensures moved ==> a[..] == Seqs.Shifted(orig, i, j - 1)
    ensures !moved ==> a[..] == old(a[..])
  {
    Seqs.ShiftedAt(orig, i, j, j - 1);
    moved := Greater(a[j - 1], key);
    if moved {
      Seqs.ShiftStep(orig, i, j);
      a[j] := a[j - 1];
    }
  }

  /** `x.compareTo(key) > 0`: the rotation of `x` is the larger one. */
  method Greater(x: CircularSuffix, key: CircularSuffix) returns (g: bool)
    requires |x.s| == |key.s| && x.offset < |x.s| && key.offset < |key.s|
    ensures g <==> Lex.Less(Rotate(key.s, key.offset), Rotate(x.s, x.offset))
  {
    g := x.CompareTo(key).value > 0;
  }

  /** The entries of `xs` with `o` inserted at position `j`. */
  lemma InsertedAt(xs: seq<nat>, o: nat, j: nat)
    requires j <= |xs|
    ensures |xs[..j] + [o] + xs[j..]| == |xs| + 1
    ensures forall k :: 0 <= k < j ==> (xs[..j] + [o] + xs[j..])[k] == xs[k]
    ensures (xs[..j] + [o] + xs[j..])[j] == o
    ensures forall k :: j < k <= |xs| ==> (xs[..j] + [o] + xs[j..])[k] == xs[k - 1]
  {
  }

  /** Offsets below `i` make up the prefix. */
  lemma PrefixBelow(prefix: seq<nat>, i: nat)
    requires |prefix| == i && multiset(prefix) == multiset(Seqs.Range(i))
    ensures forall k :: 0 <= k < i ==> prefix[k] < i
  {
    forall k | 0 <= k < i ensures prefix[k] < i {
      assert prefix[k] in multiset(Seqs.Range(i));
    }
  }

  /** Where the insertion stops, offset `i` comes after everything to its left and before everything to its right. */
  lemma InsertPlace(s: seq<Char16>, prefix: seq<nat>, i: nat, j: nat)
    requires i < |s| && j <= i == |prefix| && InRange(s, prefix) && StrictlySorted(s, prefix)
    requires forall k :: 0 <= k < i ==> prefix[k] < i
    requires j > 0 ==> !Lex.Less(Rotate(s, i), Rotate(s, prefix[j - 1]))
    requires forall k :: j <= k < i ==> Lex.Less(Rotate(s, i), Rotate(s, prefix[k]))
    ensures forall k :: 0 <= k < j ==> Before(s, prefix[k], i)
    ensures forall k :: j <= k < i ==> Before(s, i, prefix[k])
  {
    if j > 0 {
      Lex.Total(Rotate(s, i), Rotate(s, prefix[j - 1]));
      assert Before(s, prefix[j - 1], i);
      forall k | 0 <= k < j - 1 ensures Before(s, prefix[k], i) {
        BeforeTransitive(s, prefix[k], prefix[j - 1], i);
      }
    }
  }

  /** Inserting an element that fits between its neighbours keeps a sequence strictly sorted. */
  lemma InsertSortedAt(s: seq<Char16>, prefix: seq<nat>, o: nat, j: nat)
    requires o < |s| && j <= |prefix| && InRange(s, prefix) && StrictlySorted(s, prefix)
    requires forall k :: 0 <= k < j ==> Before(s, prefix[k], o)
    requires forall k :: j <= k < |prefix| ==> Before(s, o, prefix[k])
    ensures InRange(s, prefix[..j] + [o] + prefix[j..])
    ensures StrictlySorted(s, prefix[..j] + [o] + prefix[j..])
  {
    var r := prefix[..j] + [o] + prefix[j..];
    forall a, b | 0 <= a < b < |r| ensures Before(s, r[a], r[b]) {
      if b < j {
        assert r[a] == prefix[a] && r[b] == prefix[b];
      } else if a > j {
        assert r[a] == prefix[a - 1] && r[b] == prefix[b - 1];
      } else if a == j {
        assert r[b] == prefix[b - 1];
      } else if b == j {
        assert r[a] == prefix[a];
      } else {
        assert r[a] == prefix[a] && r[b] == prefix[b - 1];
      }
    }
  }

  /** Placing offset `i` after the entries not greater than it keeps the prefix sorted. */
  lemma InsertStep(s: seq<Char16>, prefix: seq<nat>, i: nat, j: nat)
    requires i < |s| && j <= i == |prefix| && InRange(s, prefix) && StrictlySorted(s, prefix)
    requires multiset(prefix) == multiset(Seqs.Range(i))
    requires j > 0 ==> !Lex.Less(Rotate(s, i), Rotate(s, prefix[j - 1]))
    requires forall k :: j <= k < i ==> Lex.Less(Rotate(s, i), Rotate(s, prefix[k]))
    ensures InRange(s, prefix[..j] + [i] + prefix[j..])
    ensures StrictlySorted(s, prefix[..j] + [i] + prefix[j..])
    ensures multiset(prefix[..j] + [i] + prefix[j..]) == multiset(Seqs.Range(i + 1))
  {
    PrefixBelow(prefix, i);
    InsertPlace(s, prefix, i, j);
    InsertSortedAt(s, prefix, i, j);
    assert prefix == prefix[..j] + prefix[j..];
    Seqs.RangeSnoc(i);
  }

  class CircularSuffixArray {
    const n: nat
    const s: seq<Char16>
    const suffixes: array<CircularSuffix>

    /** `suffixes` holds the suffixes of `s` in sorted-suffix order. */
    ghost predicate Valid()
      reads this, suffixes
    {
      n == |s| && suffixes.Length == n && |Order(s)| == n
      && forall k :: 0 <= k < n ==> suffixes[k] == CircularSuffix(Order(s)[k], s)
    }

    /** Creates the suffixes in offset order, then sorts them. */
    constructor(s: seq<Char16>)
      ensures this.s == s && n == |s| && Valid()
    {
      this.s := s;
      n := |s|;
      var a := new CircularSuffix[|s|](k => CircularSuffix(k, s));
      for i := 0 to |s|
        invariant forall k :: 0 <= k < |s| ==> a[k] == CircularSuffix(k, s)
      {
        a[i] := CircularSuffix(i, s);
      }
      SortSuffixes(a, s);
      suffixes := a;
      assert forall k :: 0 <= k < |s| ==> a[k].offset == Offsets(a[..])[k];
    }

    /** `length()`: the length of the string. */
    function Length(): (r: nat)
      reads this, suffixes
      requires Valid()
      ensures r == |s|
    {
      n
    }

    /** `index(i)`: the offset of the `i`-th smallest rotation; out-of-range positions throw. */
    function Index(i: int): (r: Result<nat>)
      reads this, suffixes
      requires Valid()
      ensures r.Err? <==> i < 0 || i >= |s|
      ensures r.Err? ==> r.error == IllegalArgument
      ensures r.Ok? ==> r.value == Order(s)[i]
    {
      if i < 0 || i >= n then Err(IllegalArgument) else Ok(suffixes[i].offset)
    }
  }

  /** A null string (`None`) is rejected. */
  method New(s: Option<seq<Char16>>) returns (r: Result<CircularSuffixArray>)
    ensures s.None? <==> r.Err?
    ensures r.Err? ==> r.error == IllegalArgument
    ensures r.Ok? ==> r.value.s == s.value && r.value.Valid() && fresh(r.value)
  {
    if s.None? {
      return Err(IllegalArgument);
    }
    var csa := new CircularSuffixArray(s.value);
    return Ok(csa);
  }

  /** The indices are a permutation of the offsets `0 .. N-1`. */
  lemma IndexPermutation(s: seq<Char16>)
    ensures multiset(Order(s)) == multiset(Seqs.Range(|s|))
  {
  }

  /** Consecutive sorted rotations are non-decreasing under `compareTo`. */
  lemma IndexNonDecreasing(s: seq<Char16>, i: nat)
    requires i + 1 < |s|
    ensures CircularSuffix(Order(s)[i], s).CompareTo(CircularSuffix(Order(s)[i + 1], s)).value <= 0
  {
    OrderSorted(s);
  }

  /** Equal rotations appear in ascending offset order. */
  lemma IndexStable(s: seq<Char16>, i: nat, j: nat)
    requires i < j < |s| && Rotate(s, Order(s)[i]) == Rotate(s, Order(s)[j])
    ensures Order(s)[i] < Order(s)[j]
  {
    OrderSorted(s);
    Lex.Irreflexive(Rotate(s, Order(s)[i]));
  }
}
