/**
 * `MoveToFrontChar`: move-to-front encoding and decoding of a whole `char[]`
 * from a fresh identity state, one `encodeChar` per character.
 */
module MoveToFrontChar {
  import opened Common
  import opened MtfSpec
  import opened MoveToFrontData

  /** A fresh identity pair: `cypher = initArray()` and `index = cypher.clone()`. */
  method Fresh() returns (cypher: array<int>, index: array<int>)
    ensures fresh(cypher) && fresh(index) && cypher != index
    ensures cypher[..] == Identity() && index[..] == Identity()
    ensures Inverse(cypher[..], index[..])
  {
    cypher := InitArray();
    index := CloneArray(cypher);
  }

  /** The state after encoding the first `i` characters: the arrays hold the list, `out` the codes. */
  ghost predicate Encoded(chars: seq<Char16>, i: nat, cypher: seq<int>, index: seq<int>, codes: seq<Char16>) {
    i <= |chars| && Inverse(cypher, index) && IsList(Identity())
    && EncodeRun(Identity(), chars[..i]) == Ok((cypher, codes))
  }

  /**
   * `encode(chars)`: the codes of the characters, or the exception
   * `index[chars[i]]` raises at the first character outside the alphabet.
   */
  method Encode(chars: seq<Char16>) returns (r: Result<seq<Char16>>)
    ensures r == MtfSpec.Encode(chars)
  {
    var n := |chars|;
    var cypher, index := Fresh();
    var out := new Char16[n];
    IdentityList();
    for i := 0 to n
      invariant cypher != index
      invariant Encoded(chars, i, cypher[..], index[..], out[..i])
    {
      var ok := EncodeNext(chars, i, cypher, index, out);
      if !ok {
        EncodeRejects(chars, i);
        return Err(IndexOutOfBounds);
      }
    }
    assert chars[..n] == chars && out[..n] == out[..];
    r := Ok(out[..]);
  }

  /** One pass of the loop of `encode`: `out[i] = encodeChar(chars[i], cypher, index)`. */
  method EncodeNext(chars: seq<Char16>, i: nat, cypher: array<int>, index: array<int>, out: array<Char16>)
    returns (ok: bool)
    requires i < |chars| == out.Length && cypher != index
    requires Encoded(chars, i, cypher[..], index[..], out[..i])
    modifies cypher, index, out
    ensures ok <==> chars[i] < R
    ensures ok ==> Encoded(chars, i + 1, cypher[..], index[..], out[..i + 1])
  {
    ghost var list := cypher[..];
    ghost var codes := out[..i];
    var code := EncodeChar(chars[i], cypher, index);
    if code.Err? {
      return false;
    }
    out[i] := code.value;
    EncodeStep(chars, i, list, codes, cypher[..], out[..i + 1]);
    ok := true;
  }

  /** A character outside the alphabet makes the whole encoding fail. */
  lemma EncodeRejects(chars: seq<Char16>, i: nat)
    requires i < |chars| && chars[i] >= R
    ensures MtfSpec.Encode(chars) == Err(IndexOutOfBounds)
  {
    IdentityList();
  }

  /** One character more of the encoding: the new list is the promotion, the new code the position. */
  lemma EncodeStep(chars: seq<Char16>, i: nat, list: seq<int>, codes: seq<Char16>, list': seq<int>, codes': seq<Char16>)
    requires i < |chars| && chars[i] < R && IsList(list)
    requires EncodeRun(Identity(), chars[..i]) == Ok((list, codes))
    requires list' == Promote(list, Pos(list, chars[i])) && codes' == codes + [Pos(list, chars[i]) as Char16]
    ensures EncodeRun(Identity(), chars[..i + 1]) == Ok((list', codes'))
  {
    assert chars[..i + 1][..i] == chars[..i];
  }

  /** The state after decoding the first `i` codes: the arrays hold the list, `out` the symbols. */
  ghost predicate Decoded(chars: seq<Char16>, i: nat, cypher: seq<int>, index: seq<int>, xs: seq<Char16>) {
    i <= |chars| && Inverse(cypher, index) && IsList(Identity())
    && DecodeRun(Identity(), chars[..i]) == Ok((cypher, xs))
  }

  /**
   * `decode(chars)`: each code picks the symbol at that position of the
   * list, which `encodeChar` then promotes; a code outside the alphabet
   * makes `cypher[pos]` throw.
   */
  method Decode(chars: seq<Char16>) returns (r: Result<seq<Char16>>)
    ensures r == MtfSpec.Decode(chars)
  {
    var n := |chars|;
    var cypher, index := Fresh();
    var out := new Char16[n];
    IdentityList();
    for i := 0 to n
      invariant cypher != index
      invariant Decoded(chars, i, cypher[..], index[..], out[..i])
    {
      var ok := DecodeNext(chars, i, cypher, index, out);
      if !ok {
        DecodeRejects(chars, i);
        return Err(IndexOutOfBounds);
      }
    }
    assert chars[..n] == chars && out[..n] == out[..];
    r := Ok(out[..]);
  }

  /** One pass of the loop of `decode`: `c = cypher[chars[i]]`, `out[i] = c`, then `encodeChar(c, ...)`. */
  method DecodeNext(chars: seq<Char16>, i: nat, cypher: array<int>, index: array<int>, out: array<Char16>)
    returns (ok: bool)
    requires i < |chars| == out.Length && cypher != index
    requires Decoded(chars, i, cypher[..], index[..], out[..i])
    modifies cypher, index, out
    ensures ok <==> chars[i] < R
    ensures ok ==> Decoded(chars, i + 1, cypher[..], index[..], out[..i + 1])
  {
    ghost var list := cypher[..];
    ghost var xs := out[..i];
    var pos := chars[i] as int;
    if pos >= cypher.Length {
      return false;
    }
    var c := cypher[pos];
    assert index[c] == pos;
    out[i] := c as Char16;
    var _ := EncodeChar(c, cypher, index);
    DecodeStep(chars, i, list, xs, cypher[..], out[..i + 1]);
    ok := true;
  }

  /** A code outside the alphabet makes the whole decoding fail. */
  lemma DecodeRejects(chars: seq<Char16>, i: nat)
    requires i < |chars| && chars[i] >= R
    ensures MtfSpec.Decode(chars) == Err(IndexOutOfBounds)
  {
    IdentityList();
  }

  /** One code more of the decoding: the symbol at the code's position is emitted and promoted. */
  lemma DecodeStep(chars: seq<Char16>, i: nat, list: seq<int>, xs: seq<Char16>, list': seq<int>, xs': seq<Char16>)
    requires i < |chars| && chars[i] < R && IsList(list)
    requires DecodeRun(Identity(), chars[..i]) == Ok((list, xs))
    requires list' == Promote(list, chars[i]) && xs' == xs + [list[chars[i]] as Char16]
    ensures DecodeRun(Identity(), chars[..i + 1]) == Ok((list', xs'))
  {
    assert chars[..i + 1][..i] == chars[..i];
  }
}
