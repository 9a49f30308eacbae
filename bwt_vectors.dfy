/**
 * The Burrows-Wheeler examples of the tests: "ABRACADABRA!" is sent to the
 * header `00 00 00 03` followed by the last column "ARD!RCAAAABB", and that
 * last column with offset 3 is sent back to "ABRACADABRA!".
 */
module BwtVectors {
  import opened Common
  import Lex
  import Perms
  import opened CircularSuffixes
  import opened SuffixOrder
  import opened BwtSpec
  import BwtTheory

  /** The offsets of the rotations of "ABRACADABRA!" in sorted order, "!ABRACADABRA" first. */
  const ABRA_ORDER: seq<nat> := [11, 10, 7, 0, 3, 5, 8, 1, 4, 6, 9, 2]

  /** "ARD!RCAAAABB": the last characters of the sorted rotations. */
  const ABRA_LAST: seq<Char16> := [0x41, 0x52, 0x44, 0x21, 0x52, 0x43, 0x41, 0x41, 0x41, 0x41, 0x42, 0x42]

  /** The rotations at `a` and `b` share their `j`-th character, neither wrapping around. */
  predicate Agree(s: seq<Char16>, a: nat, b: nat, j: nat) {
    a + j < |s| && b + j < |s| && s[a + j] == s[b + j]
  }

  /** Rotations agreeing for `k` characters and then smaller come in that order. */
  lemma BeforeAt(s: seq<Char16>, a: nat, b: nat, k: nat)
    requires a + k < |s| && b + k < |s| && s[a + k] < s[b + k]
    requires forall j :: 0 <= j < k ==> Agree(s, a, b, j)
    ensures Before(s, a, b)
  {
    var x, y := Rotate(s, a), Rotate(s, b);
    forall j | 0 <= j < k ensures x[j] == y[j] {
      assert Agree(s, a, b, j);
      RotateAt(s, a, j);
      RotateAt(s, b, j);
    }
    RotateAt(s, a, k);
    RotateAt(s, b, k);
    Lex.LessFrom(x, y, k);
  }

  lemma AbraAdjacentLow(i: nat)
    requires i < 4
    ensures Before(ABRACADABRA, ABRA_ORDER[i], ABRA_ORDER[i + 1])
  {
    var s := ABRACADABRA;
    if i == 0 { BeforeAt(s, 11, 10, 0); }
    else if i == 1 { assert Agree(s, 10, 7, 0); BeforeAt(s, 10, 7, 1); }
    else if i == 2 {
      assert Agree(s, 7, 0, 0) && Agree(s, 7, 0, 1) && Agree(s, 7, 0, 2) && Agree(s, 7, 0, 3);
      BeforeAt(s, 7, 0, 4);
    }
    else { assert Agree(s, 0, 3, 0); BeforeAt(s, 0, 3, 1); }
  }

  lemma AbraAdjacentHigh(i: nat)
    requires 4 <= i < 8
    ensures Before(ABRACADABRA, ABRA_ORDER[i], ABRA_ORDER[i + 1])
  {
    var s := ABRACADABRA;
    if i == 4 { assert Agree(s, 3, 5, 0); BeforeAt(s, 3, 5, 1); }
    else if i == 5 { BeforeAt(s, 5, 8, 0); }
    else if i == 6 {
      assert Agree(s, 8, 1, 0) && Agree(s, 8, 1, 1) && Agree(s, 8, 1, 2);
      BeforeAt(s, 8, 1, 3);
    }
    else { BeforeAt(s, 1, 4, 0); }
  }

  lemma AbraAdjacentTop(i: nat)
    requires 8 <= i < 11
    ensures Before(ABRACADABRA, ABRA_ORDER[i], ABRA_ORDER[i + 1])
  {
    var s := ABRACADABRA;
    if i == 8 { BeforeAt(s, 4, 6, 0); }
    else if i == 9 { BeforeAt(s, 6, 9, 0); }
    else { assert Agree(s, 9, 2, 0) && Agree(s, 9, 2, 1); BeforeAt(s, 9, 2, 2); }
  }

  lemma AbraOffsets()
    ensures Perms.Injective(ABRA_ORDER) && forall i :: 0 <= i < 12 ==> ABRA_ORDER[i] < 12
  {
    var inv := [3, 7, 11, 4, 8, 5, 9, 2, 6, 10, 1, 0];
    assert forall i :: 0 <= i < 12 ==> ABRA_ORDER[i] < 12 && inv[ABRA_ORDER[i]] == i;
  }

  /** The sorted-suffix order of "ABRACADABRA!". */
  lemma AbraOrder()
    ensures Order(ABRACADABRA) == ABRA_ORDER
  {
    var s, xs := ABRACADABRA, ABRA_ORDER;
    AbraOffsets();
    forall i | 0 <= i < |xs| - 1 ensures Before(s, xs[i], xs[i + 1]) {
      if i < 4 { AbraAdjacentLow(i); } else if i < 8 { AbraAdjacentHigh(i); } else { AbraAdjacentTop(i); }
    }
    AdjacentSorted(s, xs);
    Perms.InjectiveIsPermutation(xs);
    OrderUnique(s, xs);
  }

  lemma AbraLast()
    ensures forall i :: 0 <= i < |ABRACADABRA| ==> Rotate(ABRACADABRA, ABRA_ORDER[i])[|ABRACADABRA| - 1] == ABRA_LAST[i]
  {
    forall i | 0 <= i < 12 ensures Rotate(ABRACADABRA, ABRA_ORDER[i])[11] == ABRA_LAST[i] {
      if i == 0 {} else if i == 1 {} else if i == 2 {} else if i == 3 {} else if i == 4 {} else if i == 5 {}
      else if i == 6 {} else if i == 7 {} else if i == 8 {} else if i == 9 {} else if i == 10 {}
    }
  }

  /** The last column, read off a known sorted-suffix order. */
  lemma LastOf(s: seq<Char16>, order: seq<nat>, last: seq<Char16>)
    requires Order(s) == order && |last| == |s|
    requires forall i :: 0 <= i < |s| ==> Rotate(s, order[i])[|s| - 1] == last[i]
    ensures LastColumn(s) == last
  {
    forall i | 0 <= i < |s| ensures LastColumn(s)[i] == last[i] {
      LastColumnAt(s, i);
    }
  }

  /** The sorted position of the unrotated string, read off a known sorted-suffix order. */
  lemma Position0Of(s: seq<Char16>, order: seq<nat>, p: nat)
    requires Order(s) == order && p < |s| && order[p] == 0
    ensures Position0(s) == p
  {
    Position0Unique(s, p);
  }

  /*
   * The facts about the literals are established before the order is: once
   * `Order(ABRACADABRA)` equals a literal, the solver evaluates the sort.
   */

  /** The unrotated "ABRACADABRA!" sorts at position 3. */
  lemma AbraPosition0()
    ensures Position0(ABRACADABRA) == 3
  {
    assert ABRA_ORDER[3] == 0;
    AbraOrder();
    Position0Of(ABRACADABRA, ABRA_ORDER, 3);
  }

  /** The last column of "ABRACADABRA!" is "ARD!RCAAAABB". */
  lemma AbraLastColumn()
    ensures LastColumn(ABRACADABRA) == ABRA_LAST
  {
    AbraLast();
    AbraOrder();
    LastOf(ABRACADABRA, ABRA_ORDER, ABRA_LAST);
  }

  /** `transform("ABRACADABRA!")`: the header `00 00 00 03`, then "ARD!RCAAAABB". */
  lemma AbracadabraTransform()
    ensures TransformSpec(ABRACADABRA) == [0, 0, 0, 3] + ABRA_LAST
  {
    AbraPosition0();
    AbraLastColumn();
    var r := TransformSpec(ABRACADABRA);
    assert r == r[..HEADER] + r[HEADER..];
  }

  /** `inverseTransform("ARD!RCAAAABB", 3)` is "ABRACADABRA!". */
  lemma AbracadabraInverse()
    ensures Extended(ABRA_LAST) && InverseSpec(ABRA_LAST, 3) == ABRACADABRA
  {
    assert forall i :: 0 <= i < |ABRACADABRA| ==> ABRACADABRA[i] < RADIX;
    AbraPosition0();
    AbraLastColumn();
    InverseOf(ABRACADABRA, ABRA_LAST, 3);
  }

  /** The round trip, for a string whose last column and position of offset 0 are known. */
  lemma InverseOf(s: seq<Char16>, last: seq<Char16>, p: nat)
    requires |s| > 0 && LastColumn(s) == last && Position0(s) == p
    requires forall i :: 0 <= i < |s| ==> s[i] < RADIX
    ensures Extended(last) && InverseSpec(last, p) == s
  {
    assert Extended(s);
    BwtTheory.InverseTransformsBack(s);
  }
}
