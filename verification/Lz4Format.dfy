/** The LZ4 block format: what a block means, stated octet by octet.

    `Decode` is the reference reading of a block. It makes the same acceptance tests as
    LZ4_decompress_generic (endOnInput, noPrefix, full) but copies one octet at a time. */
module Lz4Format {
  import opened Bytes

  const MINMATCH := 4
  const LASTLITERALS := 5
  const MFLIMIT := 12
  const ML_MASK := 15
  const RUN_MASK := 15

  // ---------- Meaning ----------

  /** What a block decodes to. An offset of zero is outside the format: the decoder does not
      reject it, and the octets it then produces depend on what the buffer held before. */
  datatype Decoded = Decoded(output: seq<byte>) | Malformed | ZeroOffset

  /** The continuation of a length: octets are summed up to and including the first that is
      not 255, reading no further than `stop`. Returns the sum and the octets consumed. */
  function ReadRun(input: seq<byte>, stop: int): (r: (nat, nat))
    requires stop <= |input|
    ensures r.1 <= |input| && (0 <= stop ==> r.1 <= stop)
    decreases |input|
  {
    if stop <= 0 then (0, 0)
    else if input[0] < 255 then (input[0], 1)
    else
      var (n, used) := ReadRun(input[1..], stop - 1);
      (n + 255, used + 1)
  }

  /** A length held in four bits of the token, continued after it when they are all set. */
  function ReadLength(nibble: nat, input: seq<byte>, stop: int): (r: (nat, nat))
    requires stop <= |input|
    ensures r.1 <= |input| && (0 <= stop ==> r.1 <= stop)
  {
    if nibble == 15 then
      var (n, used) := ReadRun(input, stop);
      (n + 15, used)
    else (nibble, 0)
  }

  /** The head of a block, read when `have` of `size` octets have been produced: the last run of
      literals, or literals followed by a match (its length less MINMATCH). */
  datatype Step = Last(literals: seq<byte>) | Copy(literals: seq<byte>, offset: nat, len: nat, rest: seq<byte>) | Broken

  function ReadStep(input: seq<byte>, have: nat, size: nat): (r: Step)
    requires |input| > 0
    ensures r.Last? ==> have + |r.literals| <= size
    ensures r.Copy? ==> 0 < |r.rest| < |input| && have + |r.literals| <= size - MFLIMIT
  {
    var body := input[1..];
    var (run, skip) := ReadLength(input[0] / 16, body, |body|);
    if have + run > size - MFLIMIT || skip + run > |body| - (2 + 1 + LASTLITERALS) then
      if skip + run != |body| || have + run > size then Broken else Last(body[skip..])
    else
      ReadMatch(body[skip..skip + run], input[0] % 16, body[skip + run..])
  }

  /** The offset and match length that follow the literals. */
  function ReadMatch(literals: seq<byte>, nibble: nat, tail: seq<byte>): (r: Step)
    requires |tail| >= 2 + 1 + LASTLITERALS
    ensures r.Copy? && r.literals == literals && 0 < |r.rest| < |tail|
  {
    var after := tail[2..];
    var (len, used) := ReadLength(nibble, after, |after| - (LASTLITERALS + 1));
    Copy(literals, tail[0] as int + 256 * tail[1] as int, len, after[used..])
  }

  function Decode(input: seq<byte>, out: seq<byte>, size: nat): (r: Decoded)
    requires |input| > 0 && |out| <= size
    ensures r.Decoded? ==> |r.output| <= size
    decreases |input|
  {
    match ReadStep(input, |out|, size)
    case Broken => Malformed
    case Last(literals) => Decoded(out + literals)
    case Copy(literals, offset, len, rest) =>
      var start := out + literals;
      if offset > |start| then Malformed
      else if offset == 0 then ZeroOffset
      else if |start| + len + MINMATCH > size - LASTLITERALS then Malformed
      else Decode(rest, CopyMatch(start, offset, len + MINMATCH), size)
  }

  /** What a whole block decodes to. An empty output buffer admits only the one-octet empty block. */
  function DecodeBlock(input: seq<byte>, size: nat): (r: Decoded)
    ensures r.Decoded? ==> |r.output| <= size
  {
    if input == [] then Malformed
    else if size > 0 then Decode(input, [], size)
    else if input == [0] then Decoded([]) else Malformed
  }

  /** How many octets a block produces, or -1: this much is defined for zero offsets too. */
  function Produced(input: seq<byte>, have: nat, size: nat): (r: int)
    requires |input| > 0 && have <= size
    ensures -1 <= r <= size
    decreases |input|
  {
    match ReadStep(input, have, size)
    case Broken => -1
    case Last(literals) => have + |literals|
    case Copy(literals, offset, len, rest) =>
      var next := have + |literals| + len + MINMATCH;
      if offset > have + |literals| || next > size - LASTLITERALS then -1 else Produced(rest, next, size)
  }

  function BlockProduced(input: seq<byte>, size: nat): int
  {
    if input == [] then -1 else if size > 0 then Produced(input, 0, size) else if input == [0] then 0 else -1
  }

  lemma {:induction false} ProducedIs(input: seq<byte>, out: seq<byte>, size: nat)
    requires |input| > 0 && |out| <= size
    ensures match Decode(input, out, size)
      case Decoded(output) => Produced(input, |out|, size) == |output|
      case Malformed => Produced(input, |out|, size) == -1
      case ZeroOffset => true
    decreases |input|
  {
    hide ReadStep, CopyMatch;
    match ReadStep(input, |out|, size)
    case Copy(literals, offset, len, rest) =>
      var start := out + literals;
      if 0 < offset <= |start| && |start| + len + MINMATCH <= size - LASTLITERALS {
        ProducedIs(rest, CopyMatch(start, offset, len + MINMATCH), size);
      }
    case _ =>
  }

  // ---------- Writing ----------

  function Nibble(n: nat): (r: nat) ensures r <= 15 { if n < 15 then n else 15 }

  function Extension(n: nat): (r: seq<byte>)
    ensures |r| == n / 255 + 1
  {
    if n < 255 then [n] else [255] + Extension(n - 255)
  }

  function LengthBytes(n: nat): (r: seq<byte>)
    ensures |r| == (n + 240) / 255
  {
    if n < 15 then [] else Extension(n - 15)
  }

  /** A token that announces `n` literals and no match. */
  function RunBytes(n: nat): (r: seq<byte>)
    ensures |r| == 1 + (n + 240) / 255
  {
    [Nibble(n) * 16] + LengthBytes(n)
  }

  /** One sequence: token, literals, offset, match length (less MINMATCH). */
  function SequenceBytes(literals: seq<byte>, offset: nat, len: nat): seq<byte>
    requires offset < 65536
  {
    [Nibble(|literals|) * 16 + Nibble(len)] + LengthBytes(|literals|) + literals
    + [offset % 256, offset / 256] + LengthBytes(len)
  }

  function LastBytes(literals: seq<byte>): seq<byte>
  {
    RunBytes(|literals|) + literals
  }

  // ---------- Reading back what was written ----------

  lemma {:induction false} ReadExtension(n: nat, rest: seq<byte>, stop: nat)
    requires |Extension(n)| <= stop <= |Extension(n)| + |rest|
    ensures ReadRun(Extension(n) + rest, stop) == (n, |Extension(n)|)
  {
    if n >= 255 {
      assert (Extension(n) + rest)[1..] == Extension(n - 255) + rest;
      ReadExtension(n - 255, rest, stop - 1);
    }
  }

  lemma ReadLengthBytes(n: nat, rest: seq<byte>, stop: nat)
    requires |LengthBytes(n)| <= stop <= |LengthBytes(n)| + |rest|
    ensures ReadLength(Nibble(n), LengthBytes(n) + rest, stop) == (n, |LengthBytes(n)|)
  {
    if n >= 15 { ReadExtension(n - 15, rest, stop); }
  }

  lemma SequenceParts(literals: seq<byte>, offset: nat, len: nat, rest: seq<byte>)
    requires offset < 65536
    ensures SequenceBytes(literals, offset, len) + rest
         == [Nibble(|literals|) * 16 + Nibble(len)]
          + (LengthBytes(|literals|) + (literals + ([offset % 256, offset / 256] + (LengthBytes(len) + rest))))
  {
  }

  lemma ReadWrittenMatch(literals: seq<byte>, offset: nat, len: nat, rest: seq<byte>)
    requires offset < 65536 && |rest| > LASTLITERALS
    ensures ReadMatch(literals, Nibble(len), [offset % 256, offset / 256] + (LengthBytes(len) + rest))
         == Copy(literals, offset, len, rest)
  {
    var mb := LengthBytes(len);
    var tail := [offset % 256, offset / 256] + (mb + rest);
    assert tail[2..] == mb + rest;
    ReadLengthBytes(len, rest, |mb| + |rest| - 6);
    Split(mb, rest);
  }

  lemma ReadLiterals(literals: seq<byte>, nibble: nat, tail: seq<byte>, have: nat, size: nat)
    requires nibble < 16 && |tail| >= 2 + 1 + LASTLITERALS
    requires have + |literals| <= size - MFLIMIT
    ensures ReadStep([Nibble(|literals|) * 16 + nibble] + (LengthBytes(|literals|) + (literals + tail)), have, size)
         == ReadMatch(literals, nibble, tail)
  {
    hide LengthBytes, ReadLength, ReadMatch;
    var lb := LengthBytes(|literals|);
    var body := lb + (literals + tail);
    var input := [Nibble(|literals|) * 16 + nibble] + body;
    assert input[1..] == body;
    ReadLengthBytes(|literals|, literals + tail, |body|);
    assert body[|lb|..|lb| + |literals|] == literals;
    assert body[|lb| + |literals|..] == tail;
  }

  /** A written sequence is read back as itself, whatever follows it, provided the match starts at
      least MFLIMIT before the end and more than LASTLITERALS octets follow. */
  lemma ReadSequence(literals: seq<byte>, offset: nat, len: nat, rest: seq<byte>, have: nat, size: nat)
    requires offset < 65536 && |rest| > LASTLITERALS
    requires have + |literals| <= size - MFLIMIT
    ensures ReadStep(SequenceBytes(literals, offset, len) + rest, have, size) == Copy(literals, offset, len, rest)
  {
    hide *;
    SequenceParts(literals, offset, len, rest);
    ReadWrittenMatch(literals, offset, len, rest);
    ReadLiterals(literals, Nibble(len), [offset % 256, offset / 256] + (LengthBytes(len) + rest), have, size);
  }

  lemma DecodeSequence(literals: seq<byte>, offset: nat, len: nat, rest: seq<byte>, out: seq<byte>, size: nat)
    requires |out| + |literals| <= size - MFLIMIT
    requires 0 < offset < 65536 && offset <= |out| + |literals|
    requires |out| + |literals| + len + MINMATCH <= size - LASTLITERALS
    requires |rest| > LASTLITERALS
    ensures Decode(SequenceBytes(literals, offset, len) + rest, out, size)
         == Decode(rest, CopyMatch(out + literals, offset, len + MINMATCH), size)
  {
    hide ReadStep, SequenceBytes, CopyMatch;
    ReadSequence(literals, offset, len, rest, |out|, size);
  }

  lemma DecodeLast(literals: seq<byte>, out: seq<byte>, size: nat)
    requires |out| + |literals| == size
    ensures Decode(LastBytes(literals), out, size) == Decoded(out + literals)
  {
    var body := LastBytes(literals)[1..];
    assert body == LengthBytes(|literals|) + literals;
    ReadLengthBytes(|literals|, literals, |body|);
  }

  /** `block` is a prefix of a block for `size` octets that has produced `out`, whatever follows. */
  ghost predicate Produces(block: seq<byte>, out: seq<byte>, size: nat)
  {
    && |out| <= size
    && forall rest: seq<byte> | |rest| > LASTLITERALS :: Decode(block + rest, [], size) == Decode(rest, out, size)
  }

  lemma ProducesSequence(block: seq<byte>, out: seq<byte>, size: nat, literals: seq<byte>, offset: nat, len: nat)
    requires Produces(block, out, size)
    requires |out| + |literals| <= size - MFLIMIT
    requires 0 < offset < 65536 && offset <= |out| + |literals|
    requires |out| + |literals| + len + MINMATCH <= size - LASTLITERALS
    ensures Produces(block + SequenceBytes(literals, offset, len), CopyMatch(out + literals, offset, len + MINMATCH), size)
  {
    hide SequenceBytes, CopyMatch, Decode;
    var s := SequenceBytes(literals, offset, len);
    forall rest: seq<byte> | |rest| > LASTLITERALS
      ensures Decode(block + s + rest, [], size) == Decode(rest, CopyMatch(out + literals, offset, len + MINMATCH), size)
    {
      Assoc(block, s, rest);
      DecodeSequence(literals, offset, len, rest, out, size);
    }
  }

  lemma ProducesAll(block: seq<byte>, out: seq<byte>, literals: seq<byte>)
    requires Produces(block, out, |out + literals|)
    requires |literals| >= LASTLITERALS || (block == [] && out == [])
    ensures Decode(block + LastBytes(literals), [], |out + literals|) == Decoded(out + literals)
  {
    DecodeLast(literals, out, |out + literals|);
    if block == [] && out == [] {
      assert block + LastBytes(literals) == LastBytes(literals);
    }
  }

  /** A sequence of one literal and a match of eight octets, and a last run of five literals. */
  lemma KnownSequence(x: byte, low: byte, high: byte, rest: seq<byte>, have: nat, size: nat)
    requires |rest| >= 6 && have + 13 <= size
    ensures ReadStep([0x14, x, low, high] + rest, have, size) == Copy([x], low as int + 256 * high as int, 8 - 4, rest)
  {
    var input := [0x14, x, low, high] + rest;
    assert input[1..] == [x, low, high] + rest;
    assert ([x, low, high] + rest)[0..1] == [x] && ([x, low, high] + rest)[1..] == [low, high] + rest;
    assert ([low, high] + rest)[2..] == rest && rest[0..] == rest;
  }

  lemma KnownLast(literals: seq<byte>, size: nat)
    requires |literals| == 5 <= size
    ensures ReadStep([0x50] + literals, size - 5, size) == Last(literals)
  {
    assert ([0x50] + literals)[1..] == literals && literals[0..] == literals;
  }
}
