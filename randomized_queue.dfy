/**
 * `RandomizedQueue`: a bag over a resizing array. The items occupy
 * `rq[0..N)`; the array doubles when an `enqueue` fills it and halves
 * when a `dequeue` leaves it a quarter full. The uniform random index
 * that `dequeue`, `sample` and the iterator draw is a parameter here
 * (`pick`), in range as `StdRandom.uniform` guarantees. A Java `null`
 * slot or item is `None`.
 */
module RandomizedQueues {
  import opened Common

  /** `s` without entry `k`, whose place is taken by the last entry. */
  function RemoveAt<T>(s: seq<T>, k: nat): seq<T>
    requires k < |s|
  {
    s[k := s[|s| - 1]][..|s| - 1]
  }

  /** Removing entry `k` that way takes exactly that one item out of the bag. */
  lemma RemoveAtMultiset<T>(s: seq<T>, k: nat)
    requires k < |s|
    ensures |RemoveAt(s, k)| == |s| - 1
    ensures multiset(RemoveAt(s, k)) + multiset{s[k]} == multiset(s)
  {
    var m := |s| - 1;
    var t := s[k := s[m]];
    assert s == s[..m] + [s[m]];
    if k < m {
      assert s[..m] == s[..m][k := s[k]];
      assert t[..m] == s[..m][k := s[m]];
      assert multiset(t[..m]) == multiset(s[..m]) - multiset{s[k]} + multiset{s[m]};
    }
  }

  predicate PowerOfTwo(c: nat)
    decreases c
  {
    c == 1 || (c > 1 && c % 2 == 0 && PowerOfTwo(c / 2))
  }

  /** `needsResize()`: the new array length, or -1 when the array stays. */
  function NewLength(n: int, length: int): int {
    if n >= length then length * 2
    else if n * 4 == length then length / 2
    else -1
  }

  /**
   * The sizing invariant: the array has a power-of-two length, always a
   * free slot, and once longer than 2 is more than a quarter full.
   */
  ghost predicate Sized(n: int, length: int) {
    length >= 1 && PowerOfTwo(length) && 0 <= n < length && (length <= 2 || length < 4 * n)
  }

  /** The array length after an `enqueue` that raises the count to `n`. */
  function LengthAfter(n: int, length: int): int {
    var l := NewLength(n, length);
    if l == -1 then length else l
  }

  lemma {:induction false} PowerOfTwoHalves(c: nat)
    requires PowerOfTwo(c) && c >= 4
    ensures c % 4 == 0 && PowerOfTwo(c / 2)
  {
    assert c % 2 == 0 && PowerOfTwo(c / 2);
    assert c / 2 >= 2;
    assert c / 2 % 2 == 0;
  }

  /** `enqueue` keeps the invariant; it only ever doubles, never halves. */
  lemma EnqueueSized(n: int, length: int)
    requires Sized(n, length)
    ensures Sized(n + 1, LengthAfter(n + 1, length))
    ensures LengthAfter(n + 1, length) == if n + 1 == length then 2 * length else length
  {
    assert PowerOfTwo(2 * length);
  }

  /** `dequeue` keeps the invariant; it only ever halves, never doubles. */
  lemma DequeueSized(n: int, length: int)
    requires Sized(n, length) && n > 0
    ensures Sized(n - 1, LengthAfter(n - 1, length))
    ensures LengthAfter(n - 1, length) == if 4 * (n - 1) == length then length / 2 else length
  {
    if length >= 4 {
      PowerOfTwoHalves(length);
    }
  }

  /** Slots `a[0..n)` hold the items `c` in order and every later slot is empty. */
  ghost predicate Holds<T>(a: seq<Option<T>>, n: int, c: seq<T>) {
    0 <= n <= |a| && |c| == n
    && (forall k :: 0 <= k < n ==> a[k] == Some(c[k]))
    && (forall k :: n <= k < |a| ==> a[k] == None)
  }

  /** Moving the last item into slot `i` and clearing the last slot takes item `i` out. */
  lemma SlotsRemove<T>(a: seq<Option<T>>, m: int, c: seq<T>, i: int)
    requires Holds(a, m, c) && 0 <= i < m
    ensures Holds(a[i := a[m - 1]][m - 1 := None], m - 1, RemoveAt(c, i))
  {
  }

  /** Copying the filled slots into another array with empty slots beyond keeps the items. */
  lemma SlotsCopied<T>(a: seq<Option<T>>, b: seq<Option<T>>, n: int, c: seq<T>)
    requires Holds(a, n, c) && n <= |b| && b[..n] == a[..n]
    requires forall k :: n <= k < |b| ==> b[k] == None
    ensures Holds(b, n, c)
  {
    forall k | 0 <= k < n
      ensures b[k] == Some(c[k])
    {
      assert b[k] == b[..n][k];
    }
  }

  class RandomizedQueue<T> {
    var rq: array<Option<T>>
    var n: int

    /** The items, in slot order. */
    ghost var Contents: seq<T>

    ghost predicate Valid()
      reads this, rq
    {
      Sized(n, rq.Length) && Holds(rq[..], n, Contents)
    }

    /** `RandomizedQueue()`: an empty bag over an array of length 1. */
    constructor ()
      ensures Valid() && fresh(rq) && Contents == []
    {
      rq := new Option<T>[1](_ => None);
      n := 0;
      Contents := [];
    }

    /** `isEmpty()`. */
    method IsEmpty() returns (b: bool)
      requires Valid()
      ensures b <==> Contents == []
    {
      b := n == 0;
    }

    /** `size()`. */
    method Size() returns (size: int)
      requires Valid()
      ensures size == |Contents|
    {
      size := n;
    }

    /** `resize(len)`: a new array of length `len` holding the first `n` slots. */
    method Resize(len: int)
      requires 0 <= n <= rq.Length && n <= len
      modifies this
      ensures n == old(n) && Contents == old(Contents)
      ensures fresh(rq) && rq.Length == len && rq[..n] == old(rq[..n])
      ensures forall k :: n <= k < len ==> rq[k] == None
    {
      var tmp := new Option<T>[len](_ => None);
      for i := 0 to n
        invariant unchanged(this)
        invariant tmp[..i] == rq[..i]
        invariant forall k :: i <= k < len ==> tmp[k] == None
      {
        tmp[i] := rq[i];
      }
      rq := tmp;
    }

    /** `enqueue(item)`: a null item throws; otherwise it goes into the slot after the others. */
    method Enqueue(item: Option<T>) returns (thrown: Option<Exception>)
      requires Valid()
      modifies this, rq
      ensures Valid()
      ensures item == None ==> thrown == Some(IllegalArgument) && Contents == old(Contents) && rq == old(rq)
      ensures item != None ==> thrown == None && Contents == old(Contents) + [item.value]
      ensures rq.Length == if item != None && old(n) + 1 == old(rq.Length) then 2 * old(rq.Length) else old(rq.Length)
    {
      if item == None {
        return Some(IllegalArgument);
      }
      EnqueueSized(n, rq.Length);
      n := n + 1;
      var len := NewLength(n, rq.Length);
      if len != -1 {
        Resize(len);
      }
      rq[n - 1] := item;
      Contents := Contents + [item.value];
      thrown := None;
    }

    /**
     * `dequeue()` with the random slot `pick`: throws on an empty bag, else
     * returns the item in slot `pick` and moves the last item into that slot.
     */
    method Dequeue(pick: int) returns (r: Result<T>)
      requires Valid() && (Contents != [] ==> 0 <= pick < |Contents|)
      modifies this, rq
      ensures Valid()
      ensures old(Contents) == [] ==> r == Err(NoSuchElement) && Contents == []
      ensures old(Contents) != [] ==> r == Ok(old(Contents)[pick]) && Contents == RemoveAt(old(Contents), pick)
      ensures rq.Length == if old(Contents) != [] && 4 * (old(n) - 1) == old(rq.Length) then old(rq.Length) / 2 else old(rq.Length)
    {
      if n == 0 {
        return Err(NoSuchElement);
      }
      DequeueSized(n, rq.Length);
      ghost var a := rq[..];
      ghost var oldLength := rq.Length;
      var i := pick;
      n := n - 1;
      var elem := rq[i];
      assert elem == a[i];
      rq[i] := rq[n];
      rq[n] := None;
      assert rq[..] == a[i := a[n]][n := None];
      SlotsRemove(a, n + 1, Contents, i);
      Contents := RemoveAt(Contents, i);
      var len := NewLength(n, rq.Length);
      if len != -1 {
        ghost var b := rq[..];
        Resize(len);
        SlotsCopied(b, rq[..], n, Contents);
      }
      assert rq.Length == LengthAfter(n, oldLength);
      assert Sized(n, rq.Length) && Holds(rq[..], n, Contents);
      r := Ok(elem.value);
    }

    /** `sample()` with the random slot `pick`: the item in that slot, the bag unchanged. */
    method Sample(pick: int) returns (r: Result<T>)
      requires Valid() && (Contents != [] ==> 0 <= pick < |Contents|)
      ensures Contents == [] ==> r == Err(NoSuchElement)
      ensures Contents != [] ==> r == Ok(Contents[pick])
    {
      if n == 0 {
        return Err(NoSuchElement);
      }
      r := Ok(rq[pick].value);
    }

    /** `randomClone()`: a fresh array of exactly the items. */
    method RandomClone() returns (copy: array<Option<T>>)
      requires Valid()
      ensures fresh(copy) && copy.Length == |Contents|
      ensures forall k :: 0 <= k < copy.Length ==> copy[k] == Some(Contents[k])
    {
      copy := new Option<T>[n](_ => None);
      for i := 0 to n
        invariant forall k :: 0 <= k < i ==> copy[k] == rq[k]
      {
        copy[i] := rq[i];
      }
    }

    /**
     * A for-each loop over the bag, where `picks[t]` is the random index the
     * iterator draws at step `t`: every item comes out exactly once.
     */
    method Items(picks: seq<int>) returns (out: seq<T>)
      requires Valid() && |picks| >= |Contents|
      requires forall t :: 0 <= t < |Contents| ==> 0 <= picks[t] < |Contents| - t
      ensures multiset(out) == multiset(Contents)
    {
      var it := new RandomizedQueueIterator(this);
      out := [];
      var t := 0;
      while true
        invariant fresh(it) && fresh(it.copy)
        invariant it.Valid() && it.items == Contents && out == it.yielded
        invariant t == |out| && t + |it.rest| == |Contents|
        decreases |it.rest|
      {
        var more := it.HasNext();
        if !more {
          break;
        }
        var r := it.Next(picks[t]);
        out := out + [r.value];
        t := t + 1;
      }
    }
  }

  /**
   * `RandomizedQueueIterator`: works on its own copy of the items; each
   * `next` takes the item at a random index below `i + 1` and moves entry
   * `i` into its slot.
   */
  class RandomizedQueueIterator<T> {
    var copy: array<Option<T>>
    var i: int

    /** The queue's items when the iterator was made, those still to come, and those already returned. */
    ghost var items: seq<T>
    ghost var rest: seq<T>
    ghost var yielded: seq<T>

    ghost predicate Valid()
      reads this, copy
    {
      -1 <= i < copy.Length && Holds(copy[..], i + 1, rest)
      && multiset(yielded) + multiset(rest) == multiset(items)
    }

    constructor (q: RandomizedQueue<T>)
      requires q.Valid()
      ensures Valid() && fresh(copy) && items == q.Contents && rest == q.Contents && yielded == []
    {
      var c := q.RandomClone();
      copy := c;
      i := c.Length - 1;
      items, rest, yielded := q.Contents, q.Contents, [];
    }

    /** `hasNext()`; once it is false, every item has been returned exactly once. */
    method HasNext() returns (b: bool)
      requires Valid()
      ensures b <==> rest != []
      ensures !b ==> multiset(yielded) == multiset(items)
    {
      b := i >= 0;
    }

    /** `next()` with the random index `pick`: throws past the end. */
    method Next(pick: int) returns (r: Result<T>)
      requires Valid() && (rest != [] ==> 0 <= pick < |rest|)
      modifies this, copy
      ensures Valid() && items == old(items) && copy == old(copy)
      ensures old(rest) == [] ==> r == Err(NoSuchElement) && rest == [] && yielded == old(yielded)
      ensures old(rest) != [] ==> r == Ok(old(rest)[pick]) && rest == RemoveAt(old(rest), pick)
                                  && yielded == old(yielded) + [old(rest)[pick]]
    {
      if i < 0 {
        return Err(NoSuchElement);
      }
      var randI := pick;
      ghost var a := copy[..];
      var out := copy[randI];
      assert out == a[randI];
      copy[randI] := copy[i];
      copy[i] := None;
      assert copy[..] == a[randI := a[i]][i := None];
      SlotsRemove(a, i + 1, rest, randI);
      i := i - 1;
      RemoveAtMultiset(rest, randI);
      rest, yielded := RemoveAt(rest, randI), yielded + [out.value];
      r := Ok(out.value);
    }

    /** `remove()` is not supported. */
    method Remove() returns (thrown: Exception)
      ensures thrown == UnsupportedOperation
    {
      thrown := UnsupportedOperation;
    }
  }
}
