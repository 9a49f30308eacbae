/**
 * `MoveToFront`: the stream forms of the coder. Standard input and output
 * are byte sequences; `readChar` reads one byte and `write(char)` writes
 * one, so every symbol and every code is below 256 and neither direction
 * can fail.
 */
module MoveToFrontStream {
  import opened Common
  import opened MtfSpec
  import opened MoveToFrontData
  import MoveToFrontChar

  /** Bytes read as symbols or codes. */
  function Widen(b: seq<Byte>): (r: seq<Char16>)
    ensures |r| == |b| && forall i :: 0 <= i < |b| ==> r[i] == b[i] as int
  {
    seq(|b|, i requires 0 <= i < |b| => b[i] as Char16)
  }

  /** The state after `i` bytes of input: the arrays hold the list and `output` what was written. */
  ghost predicate Written(input: seq<Byte>, i: nat, cypher: seq<int>, index: seq<int>, output: seq<Byte>) {
    i <= |input| && Inverse(cypher, index) && IsList(Identity())
    && EncodeRun(Identity(), Widen(input)[..i]) == Ok((cypher, Widen(output)))
  }

  /** `encode()`: each byte read is written as its code. */
  method Encode(input: seq<Byte>) returns (output: seq<Byte>)
    ensures MtfSpec.Encode(Widen(input)) == Ok(Widen(output))
    ensures |output| == |input|
  {
    var cypher, index := MoveToFrontChar.Fresh();
    IdentityList();
    output := [];
    for i := 0 to |input|
      invariant cypher != index
      invariant Written(input, i, cypher[..], index[..], output)
    {
      output := WriteCode(input, i, cypher, index, output);
    }
    assert Widen(input)[..|input|] == Widen(input);
  }

  /** One pass of the loop of `encode()`: `write(encodeChar(readChar(), cypher, index))`. */
  method WriteCode(input: seq<Byte>, i: nat, cypher: array<int>, index: array<int>, output: seq<Byte>)
    returns (output': seq<Byte>)
    requires i < |input| && cypher != index
    requires Written(input, i, cypher[..], index[..], output)
    modifies cypher, index
    ensures Written(input, i + 1, cypher[..], index[..], output')
  {
    ghost var list := cypher[..];
    var cur := input[i];
    var code := EncodeChar(cur as int, cypher, index);
    output' := output + [code.value as Byte];
    assert Widen(input)[..i + 1][..i] == Widen(input)[..i];
    assert Widen(output') == Widen(output) + [Pos(list, cur as int) as Char16];
  }

  /** The state after `i` codes of input: the arrays hold the list and `output` the symbols written. */
  ghost predicate Restored(input: seq<Byte>, i: nat, cypher: seq<int>, index: seq<int>, output: seq<Byte>) {
    i <= |input| && Inverse(cypher, index) && IsList(Identity())
    && DecodeRun(Identity(), Widen(input)[..i]) == Ok((cypher, Widen(output)))
  }

  /** `decode()`: each code read is written as the symbol at that position, which is then promoted. */
  method Decode(input: seq<Byte>) returns (output: seq<Byte>)
    ensures MtfSpec.Decode(Widen(input)) == Ok(Widen(output))
    ensures |output| == |input|
  {
    var cypher, index := MoveToFrontChar.Fresh();
    IdentityList();
    output := [];
    for i := 0 to |input|
      invariant cypher != index
      invariant Restored(input, i, cypher[..], index[..], output)
    {
      output := WriteSymbol(input, i, cypher, index, output);
    }
    assert Widen(input)[..|input|] == Widen(input);
  }

  /** One pass of the loop of `decode()`: `c = cypher[readChar()]`, `encodeChar(c, ...)`, `write((char) c)`. */
  method WriteSymbol(input: seq<Byte>, i: nat, cypher: array<int>, index: array<int>, output: seq<Byte>)
    returns (output': seq<Byte>)
    requires i < |input| && cypher != index
    requires Restored(input, i, cypher[..], index[..], output)
    modifies cypher, index
    ensures Restored(input, i + 1, cypher[..], index[..], output')
  {
    ghost var list := cypher[..];
    var pos := input[i] as int;
    var c := cypher[pos];
    assert index[c] == pos;
    var _ := EncodeChar(c, cypher, index);
    output' := output + [c as Byte];
    assert Widen(input)[..i + 1][..i] == Widen(input)[..i];
    assert Widen(output') == Widen(output) + [list[pos] as Char16];
  }

  /** Decoding what `encode()` wrote gives back the input. */
  lemma RoundTrip(input: seq<Byte>, codes: seq<Byte>, output: seq<Byte>)
    requires MtfSpec.Encode(Widen(input)) == Ok(Widen(codes))
    requires MtfSpec.Decode(Widen(codes)) == Ok(Widen(output))
    ensures output == input
  {
    DecodeEncode(Widen(input));
    assert Widen(output) == Widen(input);
    assert forall i :: 0 <= i < |input| ==> output[i] == Widen(output)[i];
  }
}
