/** Both codecs end to end: the encoder's output through the decoder, in buffers of their own. */
module RoundTrips {
  import opened Bytes
  import Lz4Format
  import Lz4Encoder
  import Lz4Decoder
  import LzfFormat
  import LzfEncoder
  import LzfDecoder

  /** LZ4: every input below the 64 KB limit, any room. What was compressed decodes, into a buffer of the original size,
      to the original size and octets; and LZ4_COMPRESSBOUND is room enough. */
  method Lz4(src: seq<byte>, table: array<nat>, room: nat) returns (n: nat, r: int, back: seq<byte>)
    requires |src| < Lz4Encoder.LIMIT_64K && table.Length == Lz4Encoder.HASH_CELLS
    modifies table
    ensures n <= room && (n > 0 ==> r == |src| && back == src)
    ensures room >= |src| + |src| / 255 + 16 ==> n > 0
  {
    hide Lz4Format.DecodeBlock;
    var dest := new byte[room];
    n := Lz4Encoder.Compress(src, table, dest, 0, room);
    r, back := -1, [];
    if n == 0 { return; }
    var out := new byte[|src|];
    r := Lz4Decoder.Decompress(dest[..n], out, |src|);
    assert dest[..n] == dest[0..n];
    back := out[..];
    assert back == out[..|src|];
  }

  /** LZF: every input, any content of the hash table, any room to compress into and any buffer
      at least as long as the input to decompress into. */
  method Lzf(src: seq<byte>, htab: array<nat>, room: nat, size: nat) returns (n: nat, r: nat, back: seq<byte>)
    requires |src| < 0x1_0000_0000 && htab.Length == LzfEncoder.HSIZE && |src| <= size
    modifies htab
    ensures n <= room && n <= |src| + |src| / 32 + 1 && (n > 0 ==> r == |src| && back == src)
    ensures |src| >= 1 && room >= |src| + |src| / 32 + 4 ==> n > 0
  {
    hide LzfFormat.Decode;
    var dest := new byte[room];
    n := LzfEncoder.Compress(src, htab, dest, 0, room);
    r, back := 0, [];
    if n == 0 { return; }
    var out := new byte[size];
    assert dest[..n] == dest[0..n];
    LzfFormat.MoreRoom(dest[..n], [], |src|, size);
    r := LzfDecoder.Decompress(dest[..n], out, size);
    back := out[..r];
  }
}
