/**
 * `BurrowsWheeler`: the stream form of the transform. The input and output
 * streams are byte sequences; reading a string reads one character per
 * byte, the sorted position of the unrotated string is written as a 32-bit
 * big-endian int, and each character is written back as one byte. The
 * loops are those of `BurrowsWheelerString`, reused.
 */
module BurrowsWheelerStream {
  import opened Common
  import opened CircularSuffixes
  import opened SuffixOrder
  import opened CircularSuffixArrays
  import opened BwtSpec
  import BwtTheory
  import BurrowsWheelerString

  /** `BinaryStdIn.readString()`: every byte becomes one character. */
  function Chars(b: seq<Byte>): (r: seq<Char16>)
    ensures |r| == |b| && Extended(r)
    ensures forall i :: 0 <= i < |b| ==> r[i] == b[i]
  {
    seq(|b|, i requires 0 <= i < |b| => b[i] as Char16)
  }

  /** `BinaryStdOut.write(char)` of characters below 256: one byte each. */
  function Bytes(s: seq<Char16>): (r: seq<Byte>)
    requires Extended(s)
    ensures |r| == |s|
    ensures forall i :: 0 <= i < |s| ==> r[i] == s[i]
  {
    seq(|s|, i requires 0 <= i < |s| => s[i] as Byte)
  }

  lemma CharsBytes(s: seq<Char16>)
    requires Extended(s)
    ensures Chars(Bytes(s)) == s
  {
  }

  lemma BytesChars(b: seq<Byte>)
    ensures Bytes(Chars(b)) == b
  {
  }

  /** `BinaryStdOut.write(int)`: the two's-complement value as four bytes, most significant first. */
  function IntBytes(x: int): (r: seq<Byte>)
    ensures |r| == 4
  {
    var u := x % 0x1_0000_0000;
    [u / 0x100_0000, (u / 0x1_0000) % 0x100, (u / 0x100) % 0x100, u % 0x100]
  }

  /** `BinaryStdIn.readInt()`: four bytes, most significant first, read as a signed 32-bit int. */
  function ReadInt(b: seq<Byte>): (x: int)
    requires |b| == 4
    ensures -0x8000_0000 <= x < 0x8000_0000
  {
    var u := b[0] as int * 0x100_0000 + b[1] as int * 0x1_0000 + b[2] as int * 0x100 + b[3] as int;
    if u >= 0x8000_0000 then u - 0x1_0000_0000 else u
  }

  /** Division by 2^8, 2^16 and 2^24 is determined by quotient and remainder. */
  lemma DivUnique(u: int, q: int, r: int, d: int)
    requires d == 0x100 || d == 0x1_0000 || d == 0x100_0000
    requires 0 <= r < d && u == q * d + r
    ensures u / d == q && u % d == r
  {
    if d == 0x100 {
      assert u == q * 0x100 + r;
    } else if d == 0x1_0000 {
      assert u == q * 0x1_0000 + r;
    } else {
      assert u == q * 0x100_0000 + r;
    }
  }

  /** The four bytes of `u` read back as its digits in base 256. */
  lemma Digits(u: int)
    requires 0 <= u < 0x1_0000_0000
    ensures u == (u / 0x100_0000) * 0x100_0000 + ((u / 0x1_0000) % 0x100) * 0x1_0000
               + ((u / 0x100) % 0x100) * 0x100 + u % 0x100
    ensures u / 0x100_0000 < 0x100
  {
    var q1, r1 := u / 0x100, u % 0x100;
    var q2, r2 := q1 / 0x100, q1 % 0x100;
    var q3, r3 := q2 / 0x100, q2 % 0x100;
    DivUnique(u, q2, r2 * 0x100 + r1, 0x1_0000);
    DivUnique(u, q3, r3 * 0x1_0000 + r2 * 0x100 + r1, 0x100_0000);
  }

  /** Reading back a written int gives the int. */
  lemma ReadIntBytes(x: int)
    requires -0x8000_0000 <= x < 0x8000_0000
    ensures ReadInt(IntBytes(x)) == x
  {
    var u := x % 0x1_0000_0000;
    assert u == (if x < 0 then x + 0x1_0000_0000 else x);
    Digits(u);
  }

  /** Writing a read int gives back the four bytes. */
  lemma IntBytesRead(b: seq<Byte>)
    requires |b| == 4
    ensures IntBytes(ReadInt(b)) == b
  {
    var u := b[0] as int * 0x100_0000 + b[1] as int * 0x1_0000 + b[2] as int * 0x100 + b[3] as int;
    var x := ReadInt(b);
    assert x % 0x1_0000_0000 == u;
    DivUnique(u, b[0] as int * 0x1_0000 + b[1] as int * 0x100 + b[2] as int, b[3] as int, 0x100);
    DivUnique(u, b[0] as int * 0x100 + b[1] as int, b[2] as int * 0x100 + b[3] as int, 0x1_0000);
    DivUnique(u, b[0] as int, b[1] as int * 0x1_0000 + b[2] as int * 0x100 + b[3] as int, 0x100_0000);
    DivUnique(b[0] as int * 0x1_0000 + b[1] as int * 0x100 + b[2] as int, b[0] as int * 0x100 + b[1] as int, b[2] as int, 0x100);
    DivUnique(b[0] as int * 0x100 + b[1] as int, b[0] as int, b[1] as int, 0x100);
  }

  /** What `transform()` writes: nothing for an empty input, else the int position of the unrotated string and the last column. */
  function TransformOut(x: seq<Byte>): (r: seq<Byte>)
    ensures |x| == 0 ==> r == []
    ensures |x| > 0 ==> |r| == |x| + 4
  {
    if |x| == 0 then []
    else
      var s := Chars(x);
      IntBytes(Position0(s)) + Bytes(LastColumn(s))
  }

  /**
   * What `inverseTransform()` does: fewer than four bytes leave `readInt`
   * without input; otherwise the rest are the last column, and a walk that
   * starts outside it fails on its first step.
   */
  function InverseOut(input: seq<Byte>): (r: Result<seq<Byte>>)
    ensures r.Err? <==> |input| < 4 || (|input| > 4 && !(0 <= ReadInt(input[..4]) < |input| - 4))
    ensures |input| < 4 ==> r == Err(NoSuchElement)
    ensures r.Err? && |input| >= 4 ==> r == Err(IndexOutOfBounds)
    ensures r.Ok? ==> |r.value| == |input| - 4
  {
    if |input| < 4 then Err(NoSuchElement)
    else
      var offset := ReadInt(input[..4]);
      var s := Chars(input[4..]);
      if |s| == 0 then Ok([])
      else if !(0 <= offset < |s|) then Err(IndexOutOfBounds)
      else
        InverseExtended(s, offset);
        Ok(Bytes(InverseSpec(s, offset)))
  }

  /** The inverse only emits characters of the first column, which are below 256. */
  lemma InverseExtended(s: seq<Char16>, offset: nat)
    requires Extended(s) && 0 <= offset < |s|
    ensures Extended(InverseSpec(s, offset))
  {
    FirstColumnFacts(s);
    var f := FirstColumn(s);
    assert forall i :: 0 <= i < |f| ==> f[i] < RADIX;
  }

  /**
   * `transform()` without the early return for an empty input: the
   * sentinel position -1 and an empty last column are written, so every
   * input, the empty one included, has a header to read back.
   */
  function TransformFixed(x: seq<Byte>): (r: seq<Byte>)
    ensures |r| == |x| + 4
    ensures |x| > 0 ==> r == TransformOut(x)
  {
    if |x| == 0 then IntBytes(-1) else TransformOut(x)
  }

  /** `transform()`: nothing for an empty input, otherwise the loop's results written out. */
  method Transform(input: seq<Byte>) returns (output: seq<Byte>)
    ensures output == TransformOut(input)
  {
    if |input| == 0 {
      return [];
    }
    var s := Chars(input);
    var csa := new CircularSuffixArray(s);
    var first, transform := SortedLasts(csa, s);
    output := IntBytes(first) + transform;
  }

  /** The loop of `transform()` over the sorted suffixes, with `first` starting at the sentinel -1. */
  method SortedLasts(csa: CircularSuffixArray, s: seq<Char16>) returns (first: int, transform: seq<Byte>)
    requires csa.Valid() && csa.s == s && |s| > 0 && Extended(s)
    ensures first == Position0(s) && transform == Bytes(LastColumn(s))
  {
    var n := |s|;
    first := -1;
    transform := [];
    n := n - 1;
    ghost var p, last := Position0(s), Bytes(LastColumn(s));
    for i := 0 to n + 1
      invariant csa.Valid() && csa.s == s
      invariant first == if p < i then p else -1
      invariant transform == last[..i]
    {
      var offset := BurrowsWheelerString.SortedOffset(csa, s, i);
      first, transform := VisitSuffix(s, i, offset, first, transform);
    }
    assert transform == last;
  }

  /** One pass of the loop: the suffix at sorted position `i` records `first` if unrotated, and appends its last character. */
  method VisitSuffix(s: seq<Char16>, i: nat, offset: nat, first: int, transform: seq<Byte>)
    returns (first': int, transform': seq<Byte>)
    requires Extended(s) && i < |s| && offset == Order(s)[i]
    requires first == (if Position0(s) < i then Position0(s) else -1)
    requires transform == Bytes(LastColumn(s))[..i]
    ensures first' == (if Position0(s) < i + 1 then Position0(s) else -1)
    ensures transform' == Bytes(LastColumn(s))[..i + 1]
  {
    var suffix := CircularSuffix(offset, s);
    first' := first;
    if suffix.offset == 0 {
      Position0Unique(s, i);
      first' := i;
    } else {
      assert i != Position0(s);
    }
    LastColumnAt(s, i);
    transform' := transform + [suffix.CharAt(|s| - 1)];
    assert transform' == Bytes(LastColumn(s))[..i + 1];
  }

  /** `inverseTransform()`: the counting, layout, linking and walking loops of the string form. */
  method InverseTransform(input: seq<Byte>) returns (r: Result<seq<Byte>>)
    ensures r == InverseOut(input)
  {
    if |input| < 4 {
      return Err(NoSuchElement);
    }
    var offset := ReadInt(input[..4]);
    var s := Chars(input[4..]);
    var buckets, queues := BurrowsWheelerString.CountChars(s);
    var n := |s|;
    var suffixB := BurrowsWheelerString.LayOut(s, buckets);
    var next := BurrowsWheelerString.LinkNext(s, suffixB, queues);
    if n == 0 {
      return Ok([]);
    }
    if !(0 <= offset < n) {
      return Err(IndexOutOfBounds);
    }
    var message := BurrowsWheelerString.FollowNext(suffixB, next, offset);
    FirstColumnFacts(s);
    InverseExtended(s, offset);
    r := Ok(Bytes(message));
  }

  /** The inverse undoes the transform on every non-empty input whose length fits a Java int. */
  lemma RoundTrip(x: seq<Byte>)
    requires 0 < |x| < 0x8000_0000
    ensures InverseOut(TransformOut(x)) == Ok(x)
  {
    var s := Chars(x);
    var p, l := Position0(s), LastColumn(s);
    var out := TransformOut(x);
    assert out[..4] == IntBytes(p) && out[4..] == Bytes(l);
    ReadIntBytes(p);
    CharsBytes(l);
    BwtTheory.InverseTransformsBack(s);
    BytesChars(x);
  }

  /** The empty input is written as nothing, and nothing cannot be read back: `readInt` runs out of input. */
  lemma EmptyRoundTrip()
    ensures TransformOut([]) == []
    ensures InverseOut(TransformOut([])) == Err(NoSuchElement)
  {
  }

  /** With the header always written, the inverse undoes the transform on every input whose length fits a Java int. */
  lemma RoundTripAll(x: seq<Byte>)
    requires |x| < 0x8000_0000
    ensures InverseOut(TransformFixed(x)) == Ok(x)
  {
    if |x| == 0 {
      var out := TransformFixed(x);
      assert |out[4..]| == 0 && Chars(out[4..]) == [];
    } else {
      RoundTrip(x);
    }
  }
}
