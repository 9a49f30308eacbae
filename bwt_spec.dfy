/**
 * What the Burrows-Wheeler transform computes, as functions of its input:
 * the header holding the sorted position of the unrotated string, the last
 * column of the sorted rotations, and, for the inverse, the first column
 * laid out by counting, the `next` array and the walk along it.
 */
module BwtSpec {
  import opened Common
  import Lex
  import Seqs
  import Perms
  import opened CircularSuffixes
  import opened SuffixOrder

  /** `Integer.SIZE / 8`: the number of header characters. */
  const HEADER: nat := 4

  /** Every character fits the 256-slot count tables. */
  predicate Extended(s: seq<Char16>) {
    forall i :: 0 <= i < |s| ==> s[i] < RADIX
  }

  /**
   * Output character `i`: the last character of the `i`-th sorted rotation,
   * which `LastColumnAt` shows is `charAt(N-1)` of its suffix.
   */
  function LastColumn(s: seq<Char16>): (r: seq<Char16>)
    ensures |r| == |s|
    ensures Extended(s) ==> Extended(r)
  {
    var o := Order(s);
    seq(|s|, i requires 0 <= i < |s| => Rotate(s, o[i])[|s| - 1])
  }

  lemma LastColumnAt(s: seq<Char16>, i: nat)
    requires i < |s|
    ensures LastColumn(s)[i] == CircularSuffix(Order(s)[i], s).CharAt(|s| - 1)
    ensures LastColumn(s)[i] == Rotate(s, Order(s)[i])[|s| - 1]
  {
  }

  /** The sorted position of the unrotated string (the rotation at offset 0). */
  function Position0(s: seq<Char16>): (i: nat)
    requires |s| > 0
    ensures i < |s| && Order(s)[i] == 0
  {
    Perms.PermutationCovers(Order(s), 0);
    Seqs.IndexOf(Order(s), 0)
  }

  /** Only the sorted position of the unrotated string holds offset 0. */
  lemma Position0Unique(s: seq<Char16>, i: nat)
    requires i < |s| && Order(s)[i] == 0
    ensures i == Position0(s)
  {
    var p := Position0(s);
    if i != p {
      var lo, hi := if i < p then i else p, if i < p then p else i;
      Perms.PermutationInjective(Order(s), lo, hi);
    }
  }

  function Pow2(k: nat): (r: nat)
    ensures r >= 1
  {
    if k == 0 then 1 else 2 * Pow2(k - 1)
  }

  lemma Pow2Bytes()
    ensures Pow2(8) == 0x100 && Pow2(16) == 0x1_0000 && Pow2(24) == 0x100_0000
  {
    assert Pow2(2) == 4;
    assert Pow2(4) == 16 by { assert Pow2(3) == 8; }
    assert Pow2(6) == 64 by { assert Pow2(5) == 32; }
    assert Pow2(8) == 0x100 by { assert Pow2(7) == 128; }
    assert Pow2(12) == 0x1000 by { assert Pow2(9) == 0x200 && Pow2(10) == 0x400 && Pow2(11) == 0x800; }
    assert Pow2(16) == 0x1_0000 by { assert Pow2(13) == 0x2000 && Pow2(14) == 0x4000 && Pow2(15) == 0x8000; }
    assert Pow2(20) == 0x10_0000 by { assert Pow2(17) == 0x2_0000 && Pow2(18) == 0x4_0000 && Pow2(19) == 0x8_0000; }
    assert Pow2(24) == 0x100_0000 by { assert Pow2(21) == 0x20_0000 && Pow2(22) == 0x40_0000 && Pow2(23) == 0x80_0000; }
  }

  /** `x >> k` on a non-negative Java `int`: `k` halvings, each rounding down. */
  function ShiftRight(x: nat, k: nat): (r: nat)
  {
    if k == 0 then x else ShiftRight(x / 2, k - 1)
  }

  /** Shifting out at least as many bits as `x` has leaves 0. */
  lemma {:induction false} ShiftRightSmall(x: nat, k: nat)
    requires x < Pow2(k)
    ensures ShiftRight(x, k) == 0
  {
    if k > 0 {
      ShiftRightSmall(x / 2, k - 1);
    }
  }

  /** Header character `j` for sorted position `i`: `(char) (i >> 8 * (3 - j))`, the cast keeping the low 16 bits. */
  function HeaderChar(i: nat, j: nat): (c: Char16)
    requires j < HEADER
  {
    ShiftRight(i, 8 * (HEADER - 1 - j)) % 0x1_0000
  }

  /**
   * The four header characters for sorted position `i`. Only below 256 are
   * they the big-endian bytes of `i`: the cast keeps 16 bits, not 8.
   */
  function Header(i: nat): (r: seq<Char16>)
    ensures |r| == HEADER
    ensures forall j :: 0 <= j < HEADER ==> r[j] == HeaderChar(i, j)
    ensures i < 0x100 ==> r == [0, 0, 0, i]
    ensures r[HEADER - 1] == i % 0x1_0000
  {
    assert i < 0x100 ==> ShiftRight(i, 8) == ShiftRight(i, 16) == ShiftRight(i, 24) == 0 by {
      if i < 0x100 {
        Pow2Bytes();
        ShiftRightSmall(i, 8);
        ShiftRightSmall(i, 16);
        ShiftRightSmall(i, 24);
      }
    }
    [HeaderChar(i, 0), HeaderChar(i, 1), HeaderChar(i, 2), HeaderChar(i, 3)]
  }

  /** Position 256 already gives a last header character that is not a byte. */
  lemma HeaderNotBytes()
    ensures Header(0x100) == [0, 0, 1, 0x100]
  {
    assert ShiftRight(0x100, 8) == 1 by {
      assert ShiftRight(2, 1) == 1;
      assert ShiftRight(8, 3) == ShiftRight(4, 2) == 1;
      assert ShiftRight(32, 5) == ShiftRight(16, 4) == 1;
      assert ShiftRight(128, 7) == ShiftRight(64, 6) == 1;
    }
    ShiftRightSmall(0x100, 16) by { Pow2Bytes(); }
    ShiftRightSmall(0x100, 24) by { Pow2Bytes(); }
  }

  /** What `transform` returns: the header, then the last column. */
  function TransformSpec(s: seq<Char16>): (r: seq<Char16>)
    ensures |r| == |s| + HEADER
    ensures r[HEADER..] == LastColumn(s)
    ensures |s| == 0 ==> r == [0, 0, 0, 0]
    ensures |s| > 0 ==> r[..HEADER] == Header(Position0(s))
  {
    Header(if |s| == 0 then 0 else Position0(s)) + LastColumn(s)
  }

  /** `m` copies of `c`. */
  function Repeat(c: Char16, m: nat): (r: seq<Char16>)
    ensures |r| == m && forall i :: 0 <= i < m ==> r[i] == c
  {
    seq(m, _ => c)
  }

  lemma RepeatMultiset(c: Char16, m: nat, v: int)
    ensures multiset(Repeat(c, m))[v] == if v == c then m else 0
  {
    if m > 0 {
      assert Repeat(c, m) == Repeat(c, m - 1) + [c];
      RepeatMultiset(c, m - 1, v);
    }
  }

  /** The characters below `c` of `s`, in ascending order, as the bucket loop lays them out. */
  function Layout(s: seq<Char16>, c: nat): (r: seq<Char16>)
    requires c <= RADIX
    ensures |r| == Seqs.CountBelow(s, c)
    ensures forall i :: 0 <= i < |r| ==> r[i] < c
  {
    if c == 0 then [] else Layout(s, c - 1) + Repeat(c - 1, multiset(s)[c - 1])
  }

  /** The first column of the sorted rotations, recovered from any column by counting. */
  function FirstColumn(s: seq<Char16>): (r: seq<Char16>)
    ensures Extended(s) ==> |r| == |s|
  {
    var r := Layout(s, RADIX);
    assert Extended(s) ==> |r| == |s| by {
      if Extended(s) {
        Seqs.CountBelowAll(s, RADIX);
      }
    }
    r
  }

  lemma {:induction false} LayoutSorted(s: seq<Char16>, c: nat)
    requires c <= RADIX
    ensures Lex.SortedInts(Layout(s, c))
    decreases c
  {
    if c > 0 {
      LayoutSorted(s, c - 1);
    }
  }

  lemma {:induction false} LayoutMultiset(s: seq<Char16>, c: nat, v: int)
    requires c <= RADIX
    ensures multiset(Layout(s, c))[v] == if 0 <= v < c then multiset(s)[v] else 0
    decreases c
  {
    if c > 0 {
      LayoutMultiset(s, c - 1, v);
      RepeatMultiset(c - 1, multiset(s)[c - 1], v);
    }
  }

  /** The first column holds the characters of `s` in ascending order. */
  lemma FirstColumnFacts(s: seq<Char16>)
    requires Extended(s)
    ensures |FirstColumn(s)| == |s|
    ensures multiset(FirstColumn(s)) == multiset(s)
    ensures Lex.SortedInts(FirstColumn(s))
  {
    Seqs.CountBelowAll(s, RADIX);
    LayoutSorted(s, RADIX);
    forall v ensures multiset(FirstColumn(s))[v] == multiset(s)[v] {
      LayoutMultiset(s, RADIX, v);
      if !(0 <= v < RADIX) {
        assert forall i :: 0 <= i < |s| ==> s[i] != v;
        assert v !in multiset(s);
      }
    }
  }

  /** `next[i]`: the position in `s` of the occurrence of `FirstColumn(s)[i]` with the same rank. */
  function NextAt(s: seq<Char16>, i: nat): (r: nat)
    requires Extended(s) && i < |s|
    ensures r < |s| && s[r] == FirstColumn(s)[i]
  {
    FirstColumnFacts(s);
    var f := FirstColumn(s);
    Seqs.PositionsAtRank(f, i);
    Seqs.Positions(s, f[i])[Seqs.Rank(f, i)]
  }

  function NextArray(s: seq<Char16>): (r: seq<nat>)
    requires Extended(s)
    ensures |r| == |s|
    ensures forall i :: 0 <= i < |s| ==> r[i] < |s| && s[r[i]] == FirstColumn(s)[i]
  {
    seq(|s|, i requires 0 <= i < |s| => NextAt(s, i))
  }

  /** `next` is a permutation: equal characters are matched in left-to-right order. */
  lemma NextIsPermutation(s: seq<Char16>)
    requires Extended(s)
    ensures Perms.IsPermutation(NextArray(s))
  {
    var f := FirstColumn(s);
    var nx := NextArray(s);
    forall i, j | 0 <= i < j < |nx| ensures nx[i] != nx[j] {
      FirstColumnFacts(s);
      if f[i] == f[j] {
        Seqs.PositionsAtRank(f, i);
        Seqs.PositionsAtRank(f, j);
        assert Seqs.Rank(f, i) != Seqs.Rank(f, j);
      }
    }
    Perms.InjectiveIsPermutation(nx);
  }

  ghost predicate Closed(next: seq<nat>) {
    forall i :: 0 <= i < |next| ==> next[i] < |next|
  }

  /** The sorted position reached after `j` steps along `next` from `start`. */
  function Cursor(next: seq<nat>, start: nat, j: nat): (r: nat)
    requires start < |next| && Closed(next)
    ensures r < |next|
  {
    if j == 0 then start else next[Cursor(next, start, j - 1)]
  }

  /** The `k` characters read from `first` while walking `next` from `start`. */
  function Walk(first: seq<Char16>, next: seq<nat>, start: nat, k: nat): (r: seq<Char16>)
    requires |first| == |next| && start < |next| && Closed(next)
    ensures |r| == k
  {
    seq(k, j requires 0 <= j < k => first[Cursor(next, start, j)])
  }

  /** What `inverseTransform(s, offset)` returns when it does not throw. */
  function InverseSpec(s: seq<Char16>, offset: nat): (r: seq<Char16>)
    requires Extended(s) && (|s| == 0 || offset < |s|)
    ensures |r| == |s|
  {
    if |s| == 0 then []
    else
      FirstColumnFacts(s);
      Walk(FirstColumn(s), NextArray(s), offset, |s|)
  }
}
