/**
 * A circular suffix: the rotation of a string `s` that starts at `offset`.
 */
module CircularSuffixes {
  import opened Common
  import Lex

  /** Each pass of the radix sort distinguishes this many character values. */
  const RADIX: nat := 256

  /** The left rotation of `s` by `k` positions. */
  function Rotate(s: seq<Char16>, k: nat): (r: seq<Char16>)
    requires k <= |s|
    ensures |r| == |s|
  {
    s[k..] + s[..k]
  }

  lemma RotateAt(s: seq<Char16>, k: nat, i: nat)
    requires k <= |s| && i < |s|
    ensures Rotate(s, k)[i] == if i < |s| - k then s[k + i] else s[i - (|s| - k)]
  {
  }

  /** `%` on a value below twice the modulus subtracts it at most once. */
  lemma ModRange(x: int, n: int)
    requires 0 < n && 0 <= x < 2 * n
    ensures x % n == if x < n then x else x - n
  {
    if x >= n {
      assert x == n * 1 + (x - n);
    }
  }

  lemma SliceCons<T>(a: seq<T>, i: nat, k: nat)
    requires i < k <= |a|
    ensures a[i..k] == [a[i]] + a[i + 1..k]
  {
  }

  /**
   * The loop of `compareTo` from position `i` on, over the two rotations
   * (`a[i]` is `this.charAt(i)`, `b[i]` is `that.charAt(i)`): the
   * difference of the first pair of characters that differ, or 0 when all
   * agree. `Character.compare(x, y)` is the difference `x - y`.
   */
  function CompareFrom(a: seq<Char16>, b: seq<Char16>, i: nat): (r: int)
    requires |a| == |b| && i <= |a|
    ensures r < 0 <==> Lex.Less(a[i..], b[i..])
    ensures r > 0 <==> Lex.Less(b[i..], a[i..])
    ensures r == 0 <==> a[i..] == b[i..]
    ensures r != 0 ==> exists k :: i <= k < |a| && a[i..k] == b[i..k] && r == a[k] as int - b[k] as int
    decreases |a| - i
  {
    if i == |a| then 0
    else
      Lex.LessAt(a, b, i);
      Lex.LessAt(b, a, i);
      if a[i] != b[i] then
        assert a[i..i] == b[i..i];
        a[i] as int - b[i] as int
      else
        var r := CompareFrom(a, b, i + 1);
        assert r != 0 ==> exists k :: i <= k < |a| && a[i..k] == b[i..k] && r == a[k] as int - b[k] as int by {
          if r != 0 {
            var k :| i + 1 <= k < |a| && a[i + 1..k] == b[i + 1..k] && r == a[k] as int - b[k] as int;
            SliceCons(a, i, k);
            SliceCons(b, i, k);
          }
        }
        r
  }

  datatype CircularSuffix = CircularSuffix(offset: nat, s: seq<Char16>) {

    /** `charAt(i)`: the character `i` places after `offset`, wrapping round. */
    function CharAt(i: nat): (c: Char16)
      requires |s| > 0
      ensures i < |s| && offset < |s| ==> c == Rotate(s, offset)[i]
    {
      if i < |s| && offset < |s| then
        RotateAt(s, offset, i);
        ModRange(i + offset, |s|);
        s[(i + offset) % |s|]
      else
        s[(i + offset) % |s|]
    }

    /** `toString`: the characters `CharAt(0) .. CharAt(N-1)`, the rotation itself. */
    function ToString(): (r: seq<Char16>)
      ensures |r| == |s|
      ensures offset < |s| ==> r == Rotate(s, offset)
    {
      seq(|s|, i requires 0 <= i < |s| => CharAt(i))
    }

    /**
     * `compareTo`: rotations of strings of different lengths cannot be
     * compared; otherwise the sign gives their lexicographic order.
     */
    function CompareTo(that: CircularSuffix): (r: Result<int>)
      ensures r.Err? <==> |s| != |that.s|
      ensures r.Err? ==> r.error == IllegalArgument
      ensures r.Ok? ==> (r.value < 0 <==> Lex.Less(ToString(), that.ToString()))
      ensures r.Ok? ==> (r.value > 0 <==> Lex.Less(that.ToString(), ToString()))
      ensures r.Ok? ==> (r.value == 0 <==> ToString() == that.ToString())
      ensures r.Ok? && r.value != 0 ==>
        exists k :: 0 <= k < |s| && ToString()[..k] == that.ToString()[..k]
                 && r.value == ToString()[k] as int - that.ToString()[k] as int
    {
      if |s| != |that.s| then Err(IllegalArgument)
      else
        var r := CompareFrom(ToString(), that.ToString(), 0);
        assert ToString()[0..] == ToString() && that.ToString()[0..] == that.ToString();
        assert r != 0 ==>
          exists k :: 0 <= k < |s| && ToString()[..k] == that.ToString()[..k] && r == ToString()[k] as int - that.ToString()[k] as int
        by {
          if r != 0 {
            var k :| 0 <= k < |s| && ToString()[0..k] == that.ToString()[0..k]
                  && r == ToString()[k] as int - that.ToString()[k] as int;
            assert ToString()[..k] == ToString()[0..k];
          }
        }
        Ok(r)
    }

    /**
     * `equals`: `None` stands for an argument that is not a circular
     * suffix (including null). Equal offsets defer to `compareTo`, which
     * throws when the lengths differ.
     */
    function Equals(o: Option<CircularSuffix>): (r: Result<bool>)
      ensures o.None? ==> r == Ok(false)
      ensures o.Some? && o.value.offset != offset ==> r == Ok(false)
      ensures o.Some? && o.value.offset == offset ==> (r.Err? <==> |s| != |o.value.s|)
      ensures r == Ok(true) <==>
        o.Some? && o.value.offset == offset && |s| == |o.value.s| && ToString() == o.value.ToString()
    {
      match o
      case None => Ok(false)
      case Some(that) =>
        if offset == that.offset then
          match CompareTo(that)
          case Err(e) => Err(e)
          case Ok(c) => Ok(c == 0)
        else Ok(false)
    }
  }

  /** Two suffixes of one string at the same offset are equal. */
  lemma EqualsReflexive(x: CircularSuffix)
    ensures x.Equals(Some(x)) == Ok(true)
  {
  }
}
