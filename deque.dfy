/**
 * `Deque`: a double-ended queue over doubly linked nodes. `first` is the
 * front; from every node `prev` leads one step towards the back (`last`)
 * and `next` one step towards the front, so the ends have `first.next ==
 * null` and `last.prev == null`. A Java `null` item is `None`.
 */
module Deques {
  import opened Common

  /** A node of the list. */
  class Node<T> {
    var prev: Node?<T>
    var next: Node?<T>
    var val: T

    constructor (val: T, prev: Node?<T>, next: Node?<T>)
      ensures this.val == val && this.prev == prev && this.next == next
    {
      this.val := val;
      this.prev := prev;
      this.next := next;
    }
  }

  class Deque<T> {
    var first: Node?<T>
    var last: Node?<T>
    var n: int

    /** The items from front to back, and the node holding each. */
    ghost var Contents: seq<T>
    ghost var nodes: seq<Node<T>>
    ghost var Repr: set<object>

    /**
     * The list invariant: `nodes` are distinct, chained by `prev` from
     * `first` to `last` and by `next` back again, and `n` counts them.
     */
    ghost predicate Valid()
      reads this, Repr
    {
      this in Repr
      && n == |nodes| == |Contents|
      && (forall i :: 0 <= i < |nodes| ==> nodes[i] in Repr && nodes[i].val == Contents[i])
      && (forall i, j :: 0 <= i < j < |nodes| ==> nodes[i] != nodes[j])
      && (n == 0 ==> first == null && last == null)
      && (n > 0 ==> first == nodes[0] && last == nodes[n - 1] && first.next == null && last.prev == null)
      && (forall i :: 0 <= i < |nodes| - 1 ==> nodes[i].prev == nodes[i + 1] && nodes[i + 1].next == nodes[i])
    }

    /** `Deque()`: an empty deque. */
    constructor ()
      ensures Valid() && fresh(Repr) && Contents == []
    {
      first, last, n := null, null, 0;
      Contents, nodes, Repr := [], [], {this};
    }

    /** `isEmpty()`. */
    method IsEmpty() returns (b: bool)
      requires Valid()
      ensures b <==> Contents == []
    {
      b := n == 0;
    }

    /** `size()`. */
    method Size() returns (size: int)
      requires Valid()
      ensures size == |Contents|
    {
      size := n;
    }

    /** `addFirst(item)`: a null item throws and changes nothing; otherwise the item becomes the front. */
    method AddFirst(item: Option<T>) returns (thrown: Option<Exception>)
      requires Valid()
      modifies Repr
      ensures Valid() && fresh(Repr - old(Repr))
      ensures item == None ==> thrown == Some(IllegalArgument) && Contents == old(Contents)
      ensures item != None ==> thrown == None && Contents == [item.value] + old(Contents)
    {
      if item == None {
        return Some(IllegalArgument);
      }
      if n == 0 {
        FirstItem(item.value);
      } else {
        var node := new Node(item.value, first, null);
        first.next := node;
        first := node;
        nodes, Contents := [node] + nodes, [item.value] + Contents;
        Repr := Repr + {node};
      }
      n := n + 1;
      thrown := None;
    }

    /** `addLast(item)`: a null item throws and changes nothing; otherwise the item becomes the back. */
    method AddLast(item: Option<T>) returns (thrown: Option<Exception>)
      requires Valid()
      modifies Repr
      ensures Valid() && fresh(Repr - old(Repr))
      ensures item == None ==> thrown == Some(IllegalArgument) && Contents == old(Contents)
      ensures item != None ==> thrown == None && Contents == old(Contents) + [item.value]
    {
      if item == None {
        return Some(IllegalArgument);
      }
      if n == 0 {
        FirstItem(item.value);
      } else {
        var node := new Node(item.value, null, last);
        last.prev := node;
        last := node;
        nodes, Contents := nodes + [node], Contents + [item.value];
        Repr := Repr + {node};
      }
      n := n + 1;
      thrown := None;
    }

    /** `firstItem(item)`: the one node of a deque that was empty; the caller counts it. */
    method FirstItem(item: T)
      requires Valid() && n == 0
      modifies this
      ensures first != null && first == last && fresh(first) && first.val == item
      ensures first.prev == null && first.next == null
      ensures n == 0 && nodes == [first] && Contents == [item] && Repr == old(Repr) + {first}
    {
      first := new Node(item, null, null);
      last := first;
      nodes, Contents := [first], [item];
      Repr := Repr + {first};
    }

    /** `removeFirst()`: throws on an empty deque, else removes and returns the front item. */
    method RemoveFirst() returns (r: Result<T>)
      requires Valid()
      modifies Repr
      ensures Valid() && Repr <= old(Repr)
      ensures old(Contents) == [] ==> r == Err(NoSuchElement) && Contents == []
      ensures old(Contents) != [] ==> r == Ok(old(Contents)[0]) && Contents == old(Contents)[1..]
    {
      if n == 0 {
        return Err(NoSuchElement);
      }
      n := n - 1;
      if n == 0 {
        var v := LastItem();
        return Ok(v);
      }
      var v := first.val;
      assert first.prev == nodes[1];
      first := first.prev;
      first.next := null;
      nodes, Contents := nodes[1..], Contents[1..];
      r := Ok(v);
    }

    /** `removeLast()`: throws on an empty deque, else removes and returns the back item. */
    method RemoveLast() returns (r: Result<T>)
      requires Valid()
      modifies Repr
      ensures Valid() && Repr <= old(Repr)
      ensures old(Contents) == [] ==> r == Err(NoSuchElement) && Contents == []
      ensures old(Contents) != [] ==> r == Ok(old(Contents)[|old(Contents)| - 1]) && Contents == old(Contents)[..|old(Contents)| - 1]
    {
      if n == 0 {
        return Err(NoSuchElement);
      }
      n := n - 1;
      if n == 0 {
        var v := LastItem();
        return Ok(v);
      }
      var v := last.val;
      assert last.next == nodes[n - 1];
      last := last.next;
      last.prev := null;
      nodes, Contents := nodes[..n], Contents[..n];
      r := Ok(v);
    }

    /**
     * `lastItem()`: removing the only item, after the caller has already
     * counted it out; both ends become null.
     */
    method LastItem() returns (v: T)
      requires this in Repr && n == 0 && |nodes| == |Contents| == 1
      requires nodes[0] in Repr && nodes[0].val == Contents[0]
      requires first == last == nodes[0] && first.next == null
      modifies this
      ensures Valid() && Repr == old(Repr)
      ensures v == old(Contents)[0] && Contents == []
      ensures first == null && last == null
    {
      first := first.next;
      v := last.val;
      last := null;
      nodes, Contents := [], [];
    }

    /** `iterator()`: an iterator positioned at the front. */
    method Iterator() returns (it: DequeIterator<T>)
      requires Valid()
      ensures fresh(it) && it.Valid() && it.owner == this && it.pos == 0
    {
      it := new DequeIterator(this);
    }

    /** A for-each loop over the deque visits the items front to back. */
    method Items() returns (items: seq<T>)
      requires Valid()
      ensures items == Contents
    {
      var it := Iterator();
      items := [];
      while true
        invariant it.Valid() && it.owner == this && items == Contents[..it.pos]
        decreases |Contents| - it.pos
      {
        var more := it.HasNext();
        if !more {
          break;
        }
        var r := it.Next();
        items := items + [r.value];
      }
      assert Contents[..|Contents|] == Contents;
    }
  }

  /** `DequeueIterator`: walks from `first` along `prev`. */
  class DequeIterator<T> {
    var iterNext: Node?<T>
    ghost var owner: Deque<T>
    ghost var pos: nat

    /** `iterNext` is the node at position `pos`, or null past the back. */
    ghost predicate Valid()
      reads this, owner, owner.Repr
    {
      owner.Valid() && this !in owner.Repr && pos <= |owner.Contents|
      && iterNext == (if pos < |owner.nodes| then owner.nodes[pos] else null)
    }

    constructor (owner: Deque<T>)
      requires owner.Valid()
      ensures Valid() && this.owner == owner && pos == 0
    {
      this.owner := owner;
      iterNext := owner.first;
      pos := 0;
    }

    /** `hasNext()`. */
    method HasNext() returns (b: bool)
      requires Valid()
      ensures b <==> pos < |owner.Contents|
    {
      b := iterNext != null;
    }

    /** `next()`: the item at the current position, or NoSuchElementException past the back. */
    method Next() returns (r: Result<T>)
      requires Valid()
      modifies this
      ensures Valid() && owner == old(owner)
      ensures old(pos) < |owner.Contents| ==> r == Ok(owner.Contents[old(pos)]) && pos == old(pos) + 1
      ensures old(pos) == |owner.Contents| ==> r == Err(NoSuchElement) && pos == old(pos)
    {
      if iterNext == null {
        return Err(NoSuchElement);
      }
      r := Ok(iterNext.val);
      iterNext := iterNext.prev;
      pos := pos + 1;
    }

    /** `remove()` is not supported. */
    method Remove() returns (thrown: Exception)
      ensures thrown == UnsupportedOperation
    {
      thrown := UnsupportedOperation;
    }
  }

  /** Adding at one end and removing from the same end gives the item back and restores the deque. */
  method AddRemoveFirst<T>(d: Deque<T>, x: T) returns (r: Result<T>)
    requires d.Valid()
    modifies d.Repr
    ensures d.Valid() && r == Ok(x) && d.Contents == old(d.Contents)
  {
    var _ := d.AddFirst(Some(x));
    r := d.RemoveFirst();
    assert ([x] + old(d.Contents))[1..] == old(d.Contents);
  }

  /** Adding at the back and removing from the front behaves as a queue. */
  method AddLastRemoveFirst<T>(d: Deque<T>, x: T, y: T) returns (r: Result<T>, s: Result<T>)
    requires d.Valid() && d.Contents == []
    modifies d.Repr
    ensures d.Valid() && r == Ok(x) && s == Ok(y) && d.Contents == []
  {
    var _ := d.AddLast(Some(x));
    var _ := d.AddLast(Some(y));
    r := d.RemoveFirst();
    s := d.RemoveFirst();
  }
}
