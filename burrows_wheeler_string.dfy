/**
 * `BurrowsWheelerString`: the Burrows-Wheeler transform and its inverse on
 * strings, as the loops over arrays and per-character FIFO queues that the
 * Java code runs. Each method is proved to compute its specification in
 * `BwtSpec`; `BwtTheory.InverseTransformsBack` shows the two undo each other.
 */
module BurrowsWheelerString {
  import opened Common
  import Seqs
  import Perms
  import opened CircularSuffixes
  import opened SuffixOrder
  import opened CircularSuffixArrays
  import opened BwtSpec

  /**
   * `transform(s)`: four header characters holding the sorted position of
   * the unrotated string, then the last character of every sorted rotation.
   * The array starts zeroed, so an empty input gives four `'\0'`s.
   */
  method Transform(s: seq<Char16>) returns (r: seq<Char16>)
    ensures r == TransformSpec(s)
  {
    var csa := new CircularSuffixArray(s);
    r := TransformWith(csa, s);
  }

  /** The body of `transform` once the suffixes of `s` are sorted in `csa`. */
  method TransformWith(csa: CircularSuffixArray, s: seq<Char16>) returns (r: seq<Char16>)
    requires csa.Valid() && csa.s == s
    ensures r == TransformSpec(s)
  {
    var transform := Blank(s);
    EmitAll(csa, transform, s);
    r := transform[..];
    TransformAssembled(s, r);
  }

  /** The loop of `transform`: one row per sorted suffix. */
  method EmitAll(csa: CircularSuffixArray, transform: array<Char16>, s: seq<Char16>)
    requires csa.Valid() && csa.s == s
    requires Emitted(transform[..], if |s| > 0 then Position0(s) else 0, LastColumn(s), 0)
    modifies transform
    ensures Emitted(transform[..], if |s| > 0 then Position0(s) else 0, LastColumn(s), |s|)
  {
    if |s| == 0 {
      return;
    }
    ghost var first, last := Position0(s), LastColumn(s);
    for i := 0 to |s|
      invariant Emitted(transform[..], first, last, i)
    {
      EmitSorted(csa, transform, s, i);
    }
  }

  /** `new char[s.length() + 4]`: all zero, so nothing is written yet. */
  method Blank(s: seq<Char16>) returns (transform: array<Char16>)
    ensures fresh(transform)
    ensures Emitted(transform[..], if |s| > 0 then Position0(s) else 0, LastColumn(s), 0)
  {
    transform := new Char16[|s| + HEADER](_ => 0);
    assert transform[..HEADER] == [0, 0, 0, 0];
  }

  /**
   * What the loop has written after `i` passes: the header once the
   * unrotated string has been met, and the first `i` characters of the
   * last column.
   */
  ghost predicate Emitted(t: seq<Char16>, first: nat, last: seq<Char16>, i: nat)
  {
    |t| == |last| + HEADER && i <= |last|
    && t[..HEADER] == (if first < i then Header(first) else [0, 0, 0, 0])
    && t[HEADER..HEADER + i] == last[..i]
  }

  /** Extending two equal slices by equal elements keeps them equal. */
  lemma SliceExtend(x: seq<Char16>, y: seq<Char16>, lo: nat, i: nat)
    requires lo + i < |x| && i < |y| && x[lo..lo + i] == y[..i] && x[lo + i] == y[i]
    ensures x[lo..lo + i + 1] == y[..i + 1]
  {
    assert x[lo..lo + i + 1] == x[lo..lo + i] + [x[lo + i]];
    assert y[..i + 1] == y[..i] + [y[i]];
  }

  /** The output of the finished loop is `TransformSpec(s)`. */
  lemma TransformAssembled(s: seq<Char16>, r: seq<Char16>)
    requires Emitted(r, if |s| > 0 then Position0(s) else 0, LastColumn(s), |s|)
    ensures r == TransformSpec(s)
  {
    var t := TransformSpec(s);
    assert r[HEADER..] == r[HEADER..HEADER + |s|];
    assert LastColumn(s)[..|s|] == LastColumn(s);
    assert r[..HEADER] == t[..HEADER];
    Seqs.SplitEqual(r, t, HEADER);
  }

  /** `csa.index(i)`: the offset of the `i`-th smallest suffix. */
  method SortedOffset(csa: CircularSuffixArray, s: seq<Char16>, i: nat) returns (offset: nat)
    requires csa.Valid() && csa.s == s && i < |s|
    ensures offset == Order(s)[i]
  {
    offset := csa.Index(i).value;
  }

  /** One pass of the loop: the offset of the suffix at sorted position `i`, then its row. */
  method EmitSorted(csa: CircularSuffixArray, transform: array<Char16>, s: seq<Char16>, i: nat)
    requires csa.Valid() && csa.s == s && i < |s|
    requires Emitted(transform[..], Position0(s), LastColumn(s), i)
    modifies transform
    ensures Emitted(transform[..], Position0(s), LastColumn(s), i + 1)
  {
    var offset := SortedOffset(csa, s, i);
    EmitRow(transform, s, i, offset);
  }

  /**
   * One pass of the loop: the suffix at sorted position `i` writes the
   * header when it is the unrotated string, and its last character.
   */
  method EmitRow(transform: array<Char16>, s: seq<Char16>, i: nat, offset: nat)
    requires i < |s| && offset == Order(s)[i] && Emitted(transform[..], Position0(s), LastColumn(s), i)
    modifies transform
    ensures Emitted(transform[..], Position0(s), LastColumn(s), i + 1)
  {
    ghost var before := transform[..];
    var suffix := CircularSuffix(offset, s);
    if suffix.offset == 0 {
      WriteHeader(transform, i);
    }
    LastColumnAt(s, i);
    transform[i + HEADER] := suffix.CharAt(|s| - 1);
    assert transform[..HEADER] == if Position0(s) < i + 1 then Header(Position0(s)) else [0, 0, 0, 0] by {
      if offset == 0 {
        Position0Unique(s, i);
      } else {
        assert i != Position0(s);
        assert transform[..HEADER] == before[..HEADER];
      }
    }
    assert transform[HEADER..HEADER + i + 1] == LastColumn(s)[..i + 1] by {
      assert transform[HEADER..HEADER + i] == before[HEADER..HEADER + i];
      SliceExtend(transform[..], LastColumn(s), HEADER, i);
    }
  }

  /** The header loop: character `j` of the output is `(char) (i >> (3 - j) * 8)`. */
  method WriteHeader(transform: array<Char16>, i: nat)
    requires transform.Length >= HEADER
    modifies transform
    ensures transform[..HEADER] == Header(i)
    ensures forall k :: HEADER <= k < transform.Length ==> transform[k] == old(transform[k])
  {
    for j := 0 to HEADER
      invariant forall k :: 0 <= k < j ==> transform[k] == HeaderChar(i, k)
      invariant forall k :: HEADER <= k < transform.Length ==> transform[k] == old(transform[k])
    {
      var shiftBy := (HEADER - 1 - j) * 8;
      transform[j] := ShiftRight(i, shiftBy) % 0x1_0000;
    }
  }

  /**
   * `inverseTransform(s, offset)`. A character of 256 or more overflows the
   * `buckets` table, a null `offset` fails when it is unboxed (even for an
   * empty string), and for a non-empty string an offset outside `0 .. N-1`
   * is an out-of-range index into `suffixB`.
   */
  method InverseTransform(s: seq<Char16>, offset: Option<int>) returns (r: Result<seq<Char16>>)
    ensures !Extended(s) ==> r == Err(IndexOutOfBounds)
    ensures Extended(s) && offset.None? ==> r == Err(NullPointer)
    ensures Extended(s) && offset.Some? && |s| > 0 && !(0 <= offset.value < |s|) ==> r == Err(IndexOutOfBounds)
    ensures r.Ok? <==> Extended(s) && offset.Some? && (|s| == 0 || 0 <= offset.value < |s|)
    ensures r.Ok? ==> r.value == InverseSpec(s, if |s| == 0 then 0 else offset.value)
  {
    var n := |s|;
    if !Extended(s) {
      return Err(IndexOutOfBounds);
    }
    var buckets, queues := CountChars(s);
    var suffixB := LayOut(s, buckets);
    var next := LinkNext(s, suffixB, queues);
    if offset.None? {
      return Err(NullPointer);
    }
    if n > 0 && !(0 <= offset.value < n) {
      return Err(IndexOutOfBounds);
    }
    if n == 0 {
      return Ok([]);
    }
    var message := FollowNext(suffixB, next, offset.value);
    FirstColumnFacts(s);
    r := Ok(message);
  }

  /**
   * The first loop: `buckets[c]` counts the occurrences of `c`, and the
   * queue of `c` lists its positions in increasing order.
   */
  method CountChars(s: seq<Char16>) returns (buckets: array<nat>, queues: seq<seq<nat>>)
    requires Extended(s)
    ensures fresh(buckets) && buckets.Length == RADIX && |queues| == RADIX
    ensures forall c :: 0 <= c < RADIX ==> buckets[c] == multiset(s)[c]
    ensures forall c :: 0 <= c < RADIX ==> queues[c] == Seqs.Positions(s, c)
  {
    buckets := new nat[RADIX](_ => 0);
    queues := seq(RADIX, _ => []);
    for i := 0 to |s|
      invariant |queues| == RADIX
      invariant forall c :: 0 <= c < RADIX ==> buckets[c] == multiset(s[..i])[c]
      invariant forall c :: 0 <= c < RADIX ==> queues[c] == Seqs.Positions(s[..i], c)
    {
      queues := CountNext(s, i, buckets, queues);
    }
    assert s[..|s|] == s;
  }

  /** One pass of the first loop: `buckets[c]++` and `queues[c].addLast(i)` for `c = s[i]`. */
  method CountNext(s: seq<Char16>, i: nat, buckets: array<nat>, queues: seq<seq<nat>>) returns (queues': seq<seq<nat>>)
    requires Extended(s) && i < |s| && buckets.Length == RADIX && |queues| == RADIX
    requires forall c :: 0 <= c < RADIX ==> buckets[c] == multiset(s[..i])[c]
    requires forall c :: 0 <= c < RADIX ==> queues[c] == Seqs.Positions(s[..i], c)
    modifies buckets
    ensures |queues'| == RADIX
    ensures forall c :: 0 <= c < RADIX ==> buckets[c] == multiset(s[..i + 1])[c]
    ensures forall c :: 0 <= c < RADIX ==> queues'[c] == Seqs.Positions(s[..i + 1], c)
  {
    var c := s[i];
    buckets[c] := buckets[c] + 1;
    queues' := queues[c := queues[c] + [i]];
    forall d | 0 <= d < RADIX
      ensures buckets[d] == multiset(s[..i + 1])[d] && queues'[d] == Seqs.Positions(s[..i + 1], d)
    {
      Seqs.PositionsSnoc(s, i, d);
    }
  }

  /** The second loop: `suffixB`, the characters of `s` in ascending order, laid out bucket by bucket. */
  method LayOut(s: seq<Char16>, buckets: array<nat>) returns (suffixB: array<Char16>)
    requires Extended(s) && buckets.Length == RADIX
    requires forall c :: 0 <= c < RADIX ==> buckets[c] == multiset(s)[c]
    ensures fresh(suffixB) && suffixB[..] == FirstColumn(s)
  {
    suffixB := new Char16[|s|](_ => 0);
    var suffixI := 0;
    Seqs.CountBelowAll(s, RADIX);
    for i := 0 to RADIX
      invariant suffixI == Seqs.CountBelow(s, i) <= |s|
      invariant suffixB[..suffixI] == Layout(s, i)
    {
      Seqs.CountBelowMono(s, i + 1, RADIX);
      var end := suffixI + buckets[i];
      ghost var start := suffixI;
      while suffixI < end
        invariant start <= suffixI <= end
        invariant suffixB[..suffixI] == Layout(s, i) + Repeat(i, suffixI - start)
      {
        suffixB[suffixI] := i;
        assert Repeat(i, suffixI + 1 - start) == Repeat(i, suffixI - start) + [i];
        suffixI := suffixI + 1;
        assert suffixB[..suffixI] == suffixB[..suffixI - 1] + [i];
      }
    }
    assert suffixB[..] == suffixB[..suffixI];
  }

  /**
   * The third loop: `next[i]` is taken from the front of the queue of
   * `suffixB[i]`, so the `k`-th occurrence of a character in the first
   * column is matched with its `k`-th occurrence in `s`.
   */
  method LinkNext(s: seq<Char16>, suffixB: array<Char16>, queues: seq<seq<nat>>) returns (next: array<nat>)
    requires Extended(s) && suffixB[..] == FirstColumn(s) && |queues| == RADIX
    requires forall c :: 0 <= c < RADIX ==> queues[c] == Seqs.Positions(s, c)
    ensures fresh(next) && next[..] == NextArray(s)
  {
    FirstColumnFacts(s);
    var n := |s|;
    next := new nat[n](_ => 0);
    var queues := queues;
    PendingStart(s, queues);
    for i := 0 to n
      invariant queues == Pending(s, i)
      invariant forall k :: 0 <= k < i ==> next[k] == NextArray(s)[k]
    {
      queues := TakeNext(s, suffixB, next, i, queues);
    }
  }

  /** One pass of the third loop: `next[i] = queues[suffixB[i]].dequeue()`. */
  method TakeNext(s: seq<Char16>, suffixB: array<Char16>, next: array<nat>, i: nat, queues: seq<seq<nat>>)
    returns (queues': seq<seq<nat>>)
    requires Extended(s) && i < |s| == next.Length && suffixB[..] == FirstColumn(s)
    requires queues == Pending(s, i)
    requires forall k :: 0 <= k < i ==> next[k] == NextArray(s)[k]
    modifies next
    ensures queues' == Pending(s, i + 1)
    ensures forall k :: 0 <= k < i + 1 ==> next[k] == NextArray(s)[k]
  {
    PendingStep(s, i);
    var c := suffixB[i];
    next[i] := queues[c][0];
    queues' := queues[c := queues[c][1..]];
  }

  /** Before the third loop every queue holds all positions of its character. */
  lemma PendingStart(s: seq<Char16>, queues: seq<seq<nat>>)
    requires Extended(s) && |queues| == RADIX
    requires forall c :: 0 <= c < RADIX ==> queues[c] == Seqs.Positions(s, c)
    ensures queues == Pending(s, 0)
  {
    assert queues == Pending(s, 0);
  }

  /**
   * The queues after `i` passes of the third loop: for each character `c`,
   * the positions of `c` in `s` not yet handed out, which are those after
   * the first `multiset(f[..i])[c]`.
   */
  ghost function Pending(s: seq<Char16>, i: nat): (r: seq<seq<nat>>)
    requires Extended(s) && i <= |s|
    ensures |r| == RADIX
  {
    seq(RADIX, c requires 0 <= c < RADIX => Queue(s, i, c))
  }

  /** The queue of character `c` after `i` passes. */
  ghost function Queue(s: seq<Char16>, i: nat, c: Char16): seq<nat>
    requires Extended(s) && i <= |s|
  {
    FirstColumnFacts(s);
    var taken := multiset(FirstColumn(s)[..i])[c];
    var p := Seqs.Positions(s, c);
    if taken <= |p| then p[taken..] else []
  }

  /** Pass `i` takes the front of the queue of `f[i]`, which is `next[i]`. */
  lemma QueueTaken(s: seq<Char16>, i: nat)
    requires Extended(s) && i < |s|
    ensures |FirstColumn(s)| == |s|
    ensures |Queue(s, i, FirstColumn(s)[i])| > 0
    ensures Queue(s, i, FirstColumn(s)[i])[0] == NextArray(s)[i]
    ensures Queue(s, i + 1, FirstColumn(s)[i]) == Queue(s, i, FirstColumn(s)[i])[1..]
  {
    FirstColumnFacts(s);
    var f := FirstColumn(s);
    var c := f[i];
    var p := Seqs.Positions(s, c);
    Seqs.PositionsAtRank(f, i);
    assert |Seqs.Positions(f, c)| == |p|;
    Seqs.PrefixSnoc(f, i);
    assert multiset(f[..i + 1])[c] == multiset(f[..i])[c] + 1;
    assert NextAt(s, i) == NextArray(s)[i];
  }

  /** The queues of the other characters are left as they are. */
  lemma QueueOther(s: seq<Char16>, i: nat, d: Char16)
    requires Extended(s) && i < |s|
    ensures |FirstColumn(s)| == |s|
    ensures d != FirstColumn(s)[i] ==> Queue(s, i + 1, d) == Queue(s, i, d)
  {
    var f := FirstColumn(s);
    Seqs.PrefixSnoc(f, i);
    assert d != f[i] ==> multiset(f[..i + 1])[d] == multiset(f[..i])[d];
  }

  /** One pass of the third loop seen on all queues at once. */
  lemma PendingStep(s: seq<Char16>, i: nat)
    requires Extended(s) && i < |s|
    ensures |FirstColumn(s)| == |s|
    ensures |Pending(s, i)[FirstColumn(s)[i]]| > 0
    ensures Pending(s, i)[FirstColumn(s)[i]][0] == NextArray(s)[i]
    ensures Pending(s, i + 1) == Pending(s, i)[FirstColumn(s)[i] := Pending(s, i)[FirstColumn(s)[i]][1..]]
  {
    QueueTaken(s, i);
    var c := FirstColumn(s)[i];
    var before, after := Pending(s, i), Pending(s, i + 1);
    forall d | 0 <= d < RADIX
      ensures after[d] == before[c := before[c][1..]][d]
    {
      QueueOther(s, i, d);
    }
  }

  /** The last loop: `N` characters of `suffixB`, read while following `next` from `offset`. */
  method FollowNext(suffixB: array<Char16>, next: array<nat>, offset: nat) returns (message: seq<Char16>)
    requires suffixB.Length == next.Length && offset < next.Length && Closed(next[..])
    ensures message == Walk(suffixB[..], next[..], offset, next.Length)
  {
    var curSuffix := offset;
    message := [];
    for i := 0 to next.Length
      invariant curSuffix == Cursor(next[..], offset, i)
      invariant message == Walk(suffixB[..], next[..], offset, i)
    {
      message := message + [suffixB[curSuffix]];
      curSuffix := next[curSuffix];
    }
  }
}
