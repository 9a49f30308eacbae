/**
 * `MoveToFrontData`: the pair of 256-entry arrays behind the move-to-front
 * coder. `cypher` is the symbol list, front first, and `index` is its
 * inverse; `encodeChar` reports a symbol's position and moves it to the
 * front, updating both arrays in place.
 */
module MoveToFrontData {
  import opened Common
  import Seqs
  import opened MtfSpec

  /** `initArray()`: a fresh array holding the identity list. */
  method InitArray() returns (arr: array<int>)
    ensures fresh(arr) && arr[..] == Identity()
  {
    arr := new int[R];
    for i := 0 to R
      invariant forall k :: 0 <= k < i ==> arr[k] == k
    {
      arr[i] := i;
    }
  }

  /** `cypher.clone()`: a fresh array with the same entries. */
  method CloneArray(a: array<int>) returns (b: array<int>)
    ensures fresh(b) && b[..] == a[..]
  {
    b := new int[a.Length](i reads a requires 0 <= i < a.Length => a[i]);
  }

  /**
   * The `index` array part way through the loop of `encodeChar`: the
   * symbols at positions `lo..hi-1` have been pushed one place back.
   */
  ghost function Bumped(index: seq<int>, lo: int, hi: int): (r: seq<int>)
    requires |index| == R
    ensures |r| == R
  {
    seq(R, d requires 0 <= d < R => if lo <= index[d] < hi then index[d] + 1 else index[d])
  }

  /** One pass of the loop pushes back the symbol at position `j - 1`. */
  lemma BumpStep(cypher: seq<int>, index: seq<int>, j: int, hi: int)
    requires Inverse(cypher, index) && 0 < j <= hi <= R
    ensures Bumped(index, j, hi)[cypher[j - 1] := Bumped(index, j, hi)[cypher[j - 1]] + 1] == Bumped(index, j - 1, hi)
  {
    var c := cypher[j - 1];
    assert index[c] == j - 1;
    var lhs, rhs := Bumped(index, j, hi)[c := Bumped(index, j, hi)[c] + 1], Bumped(index, j - 1, hi);
    forall d | 0 <= d < R ensures lhs[d] == rhs[d] {
      if d != c {
        assert index[d] != j - 1 by {
          assert cypher[index[d]] == d;
        }
      }
    }
  }

  /** Once every symbol in front of `c` is pushed back, placing `c` at 0 is the reindexing. */
  lemma BumpedReindex(cypher: seq<int>, index: seq<int>, c: int)
    requires Inverse(cypher, index) && 0 <= c < R
    ensures Bumped(index, 0, index[c])[c := 0] == Reindex(index, c)
  {
  }

  /** With the entries before `p` shifted down, placing the symbol at the front is the promotion. */
  lemma ShiftedPromote(list: seq<int>, p: nat)
    requires p < |list|
    ensures Seqs.Shifted(list, p, 0)[0 := list[p]] == Promote(list, p)
  {
    var a, b := Seqs.Shifted(list, p, 0)[0 := list[p]], Promote(list, p);
    forall q | 0 <= q < |list| ensures a[q] == b[q] {
      Seqs.ShiftedAt(list, p, 0, q);
      PromoteAt(list, p, q);
    }
  }

  /**
   * The loop of `encodeChar`: from position `charPos - 1` down to 0, each
   * symbol moves one place back in `cypher` and its `index` entry grows.
   */
  method PushBack(cypher: array<int>, index: array<int>, charPos: int, ghost list: seq<int>, ghost inv: seq<int>)
    requires cypher != index && Inverse(list, inv) && 0 <= charPos < R
    requires cypher[..] == list && index[..] == inv
    modifies cypher, index
    ensures cypher[..] == Seqs.Shifted(list, charPos, 0)
    ensures index[..] == Bumped(inv, 0, charPos)
  {
    var pos := charPos - 1;
    while pos >= 0
      invariant -1 <= pos < charPos
      invariant cypher[..] == Seqs.Shifted(list, charPos, pos + 1)
      invariant index[..] == Bumped(inv, pos + 1, charPos)
    {
      Seqs.ShiftedAt(list, charPos, pos + 1, pos);
      var c := cypher[pos];
      assert c == list[pos];
      Seqs.ShiftStep(list, charPos, pos + 1);
      cypher[pos + 1] := c;
      BumpStep(list, inv, pos + 1, charPos);
      ghost var bumped := index[..];
      index[c] := index[c] + 1;
      assert index[..] == bumped[c := bumped[c] + 1];
      pos := pos - 1;
    }
    assert pos + 1 == 0;
  }

  /**
   * `encodeChar(encChar, cypher, index)`: a symbol outside the alphabet
   * makes `index[encChar]` throw before anything changes; otherwise the
   * result is the symbol's position in the list, the symbol is promoted to
   * the front and the two arrays stay inverse.
   */
  method EncodeChar(encChar: int, cypher: array<int>, index: array<int>) returns (r: Result<Char16>)
    requires cypher != index && Inverse(cypher[..], index[..])
    modifies cypher, index
    ensures r.Err? <==> !(0 <= encChar < R)
    ensures r.Err? ==> r.error == IndexOutOfBounds && unchanged(cypher, index)
    ensures r.Ok? ==> r.value == old(index[encChar]) == Pos(old(cypher[..]), encChar)
    ensures r.Ok? ==> cypher[..] == Promote(old(cypher[..]), old(index[encChar]))
    ensures r.Ok? ==> index[..] == Reindex(old(index[..]), encChar)
    ensures Inverse(cypher[..], index[..])
  {
    if !(0 <= encChar < index.Length) {
      return Err(IndexOutOfBounds);
    }
    ghost var list, inv := cypher[..], index[..];
    InverseList(list, inv);
    var charPos := index[encChar];
    PushBack(cypher, index, charPos, list, inv);
    ShiftedPromote(list, charPos);
    cypher[0] := encChar;
    BumpedReindex(list, inv, encChar);
    index[encChar] := 0;
    PromoteInverse(list, inv, encChar);
    r := Ok(charPos);
  }
}
