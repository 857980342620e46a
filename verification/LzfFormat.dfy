/** The LZF stream format, read octet by octet with the tests lzf_decompress makes. */
module LzfFormat {
  import opened Bytes

  const MAX_LIT := 32
  const MAX_OFF := 8192
  const MAX_REF := 264

  /** The decompressed octets, or one of the two ways the decoder gives up. */
  datatype Decoded = Decoded(output: seq<byte>) | TooBig | Invalid

  /** Head of a stream: a literal run; a copy of `len` octets from `offset` back; or cut short. */
  datatype Step = Run(literals: seq<byte>, rest: seq<byte>) | Copy(offset: nat, len: nat, rest: seq<byte>)
                | LongRun(n: nat) | Cut

  function ReadStep(input: seq<byte>): (r: Step)
    requires |input| > 0
    ensures r.Run? || r.Copy? ==> |r.rest| < |input|
    ensures r.Copy? ==> r.offset > 0
  {
    var ctrl := input[0] as int;
    if ctrl < 32 then
      if 1 + (ctrl + 1) > |input| then LongRun(ctrl + 1) else Run(input[1..ctrl + 2], input[ctrl + 2..])
    else if |input| < 2 then Cut
    else if ctrl / 32 < 7 then
      Copy(ctrl % 32 * 256 + 1 + input[1] as int, ctrl / 32 + 2, input[2..])
    else if |input| < 3 then Cut
    else Copy(ctrl % 32 * 256 + 1 + input[2] as int, 7 + input[1] as int + 2, input[3..])
  }

  function Decode(input: seq<byte>, out: seq<byte>, size: nat): (r: Decoded)
    requires |out| <= size
    ensures r.Decoded? ==> |out| <= |r.output| <= size
    decreases |input|
  {
    if input == [] then Decoded(out)
    else
      match ReadStep(input)
      case Run(literals, rest) =>
        if |out| + |literals| > size then TooBig else Decode(rest, out + literals, size)
      case LongRun(n) => if |out| + n > size then TooBig else Invalid
      case Cut => Invalid
      case Copy(offset, len, rest) =>
        if |out| + len > size then TooBig
        else if offset > |out| then Invalid
        else Decode(rest, CopyMatch(out, offset, len), size)
  }

  lemma DecodeNothing(out: seq<byte>, size: nat)
    requires |out| <= size
    ensures Decode([], out, size) == Decoded(out)
  {
  }

  // ---------- Writing ----------

  function RunBytes(literals: seq<byte>): seq<byte>
    requires 1 <= |literals| <= MAX_LIT
  {
    [|literals| - 1] + literals
  }

  /** A copy of `octets` from `off + 1` back. */
  function CopyBytes(off: nat, octets: nat): (r: seq<byte>)
    requires off < MAX_OFF && 3 <= octets <= MAX_REF
    ensures |r| == if octets < 9 then 2 else 3
  {
    if octets < 9 then [off / 256 + (octets - 2) * 32, off % 256]
    else [off / 256 + 7 * 32, octets - 9, off % 256]
  }

  /** `block` is a stream that has produced `out`, whatever follows it. */
  ghost predicate Produces(block: seq<byte>, out: seq<byte>, size: nat)
  {
    && |out| <= size
    && forall rest: seq<byte> :: Decode(block + rest, [], size) == Decode(rest, out, size)
  }

  lemma DecodeRun(literals: seq<byte>, rest: seq<byte>, out: seq<byte>, size: nat)
    requires 1 <= |literals| <= MAX_LIT && |out| + |literals| <= size
    ensures Decode(RunBytes(literals) + rest, out, size) == Decode(rest, out + literals, size)
  {
    var input := RunBytes(literals) + rest;
    assert input[1..|literals| + 1] == literals && input[|literals| + 1..] == rest;
  }

  lemma ReadCopyBytes(off: nat, octets: nat, rest: seq<byte>)
    requires off < MAX_OFF && 3 <= octets <= MAX_REF
    ensures ReadStep(CopyBytes(off, octets) + rest) == Copy(off + 1, octets, rest)
  {
    var input := CopyBytes(off, octets) + rest;
    if octets < 9 {
      assert input[2..] == rest;
      assert input[0] as int / 32 == octets - 2 && input[0] as int % 32 == off / 256;
    } else {
      assert input[3..] == rest;
      assert input[0] as int / 32 == 7 && input[0] as int % 32 == off / 256;
    }
  }

  lemma ProducesRun(block: seq<byte>, out: seq<byte>, size: nat, literals: seq<byte>)
    requires Produces(block, out, size) && 1 <= |literals| <= MAX_LIT && |out| + |literals| <= size
    ensures Produces(block + RunBytes(literals), out + literals, size)
  {
    hide RunBytes, Decode;
    var s := RunBytes(literals);
    forall rest: seq<byte> ensures Decode(block + s + rest, [], size) == Decode(rest, out + literals, size) {
      Assoc(block, s, rest);
      DecodeRun(literals, rest, out, size);
    }
  }

  lemma DecodeCopy(off: nat, octets: nat, rest: seq<byte>, out: seq<byte>, size: nat)
    requires off < MAX_OFF && 3 <= octets <= MAX_REF && off + 1 <= |out| && |out| + octets <= size
    ensures Decode(CopyBytes(off, octets) + rest, out, size) == Decode(rest, CopyMatch(out, off + 1, octets), size)
  {
    hide CopyBytes, CopyMatch, ReadStep;
    ReadCopyBytes(off, octets, rest);
  }

  lemma ProducesCopy(block: seq<byte>, out: seq<byte>, size: nat, off: nat, octets: nat)
    requires Produces(block, out, size)
    requires off < MAX_OFF && 3 <= octets <= MAX_REF && off + 1 <= |out| && |out| + octets <= size
    ensures Produces(block + CopyBytes(off, octets), CopyMatch(out, off + 1, octets), size)
  {
    hide CopyBytes, CopyMatch, Decode;
    var s := CopyBytes(off, octets);
    forall rest: seq<byte>
      ensures Decode(block + s + rest, [], size) == Decode(rest, CopyMatch(out, off + 1, octets), size)
    {
      Assoc(block, s, rest);
      DecodeCopy(off, octets, rest, out, size);
    }
  }

  lemma ProducesNothing(size: nat)
    ensures Produces([], [], size)
  {
    forall rest: seq<byte> ensures Decode([] + rest, [], size) == Decode(rest, [], size) {
      assert [] + rest == rest;
    }
  }

  lemma ProducesDecodes(block: seq<byte>, out: seq<byte>, size: nat)
    requires Produces(block, out, size)
    ensures Decode(block, [], size) == Decoded(out)
  {
    assert block + [] == block;
    assert Decode(block + [], [], size) == Decode([], out, size);
  }

  /** A stream that fits in `size` decodes to the same octets in any larger buffer. */
  lemma {:induction false} MoreRoom(input: seq<byte>, out: seq<byte>, size: nat, more: nat)
    requires |out| <= size <= more && Decode(input, out, size).Decoded?
    ensures Decode(input, out, more) == Decode(input, out, size)
    decreases |input|
  {
    if input != [] {
      match ReadStep(input)
      case Run(literals, rest) => MoreRoom(rest, out + literals, size, more);
      case Copy(offset, len, rest) => MoreRoom(rest, CopyMatch(out, offset, len), size, more);
      case _ =>
    }
  }

  /** Two literals and a copy of five octets from two back. */
  lemma KnownStream()
    ensures Decode([0x01, 97, 98, 0x60, 1], [], 7) == Decoded([97, 98, 97, 98, 97, 98, 97])
  {
    hide CopyMatch;
    var text := [97, 98, 97, 98, 97, 98, 97];
    assert ReadStep([0x01, 97, 98, 0x60, 1]) == Run([97, 98], [0x60, 1]);
    assert ReadStep([0x60, 1]) == Copy(2, 5, []);
    CopyMatchIs(text, 2, 2, 5);
    assert text[..2] == [] + [97, 98] && text[..7] == text;
    DecodeNothing(text, 7);
  }

  /** A copy of 2 + 7 + 255 octets, and the farthest offset. */
  lemma KnownCopy(rest: seq<byte>)
    ensures CopyBytes(8191, 264) == [0xFF, 255, 255] && ReadStep([0xFF, 255, 255] + rest) == Copy(8192, 264, rest)
  {
    assert ([0xFF, 255, 255] + rest)[3..] == rest;
  }
}
