/** Pages on their way to disk and back: compression with a two-octet header, the size class kept in
    the block address, and decompression (qs_deflate_block, qs_inflate_block). */
module PagePipeline {
  import opened Arithmetic
  import opened Bytes
  import Lz4Format
  import Lz4Encoder
  import Lz4Decoder
  import LzfFormat
  import LzfEncoder
  import LzfDecoder

  const LBA_SIZE := 4096
  const ROOM := LBA_SIZE - 1026
  const COMP_ALG_UNIT := 0x4000                  // 1 << COMP_ALG_SHIFT

  datatype Algorithm = LZF | LZ4

  // ---------- Block addresses ----------

  const BLOCKNRS := 0x40_0000_0000              // 1 << BLOCK_BLOCKNR_BITS
  const BIDS := 0x200                           // 1 << BLOCK_BID_BITS
  const SIZE_UNIT := BLOCKNRS * BIDS            // the size code starts at bit 47

  /** SET_BLOCK followed by SET_BLOCK_SIZE. */
  function BlockAddress(blocknr: nat, bid: nat, size: nat): (block: nat)
  {
    blocknr + bid * BLOCKNRS + (if size != LBA_SIZE then size / 512 * SIZE_UNIT else 0)
  }

  function BlockNumber(block: nat): nat { block % BLOCKNRS }
  function BlockDisk(block: nat): nat { block / BLOCKNRS % BIDS }

  /** lba_block_size: size code zero stands for a whole page. */
  function BlockSize(block: nat): (size: nat)
  {
    var code := block / SIZE_UNIT % 8;
    if code != 0 then code * 512 else LBA_SIZE
  }

  /** All three parts of an address are recovered from it, for every size a block can have. */
  lemma AddressParts(blocknr: nat, bid: nat, size: nat)
    requires blocknr < BLOCKNRS && bid < BIDS && 0 < size <= LBA_SIZE && size % 512 == 0
    ensures BlockNumber(BlockAddress(blocknr, bid, size)) == blocknr
    ensures BlockDisk(BlockAddress(blocknr, bid, size)) == bid
    ensures BlockSize(BlockAddress(blocknr, bid, size)) == size
    ensures BlockAddress(blocknr, bid, size) < 0x4_0000_0000_0000
  {
    var code := if size != LBA_SIZE then size / 512 else 0;
    var low := blocknr + bid * BLOCKNRS;
    Parts(low, code, SIZE_UNIT);
    Parts(blocknr, bid + code * BIDS, BLOCKNRS);
    Parts(bid, code, BIDS);
  }

  /** Where the parts are: 38 bits of block number, 9 of disk, 3 of size in units of 512, none for a whole page. */
  lemma AddressLayout(blocknr: nat, bid: nat, code: nat)
    requires blocknr < 0x40_0000_0000 && bid < 0x200 && code < 8
    ensures BlockAddress(blocknr, bid, if code == 0 then 4096 else 512 * code)
      == blocknr + 0x40_0000_0000 * bid + 0x8000_0000_0000 * code
  {
  }

  // ---------- Compressed pages ----------

  /** align_size to a power of two. */
  function AlignSize(size: nat, boundary: nat): (r: nat)
    requires boundary > 0
  {
    (size + boundary - 1) / boundary * boundary
  }

  /** The least multiple of the boundary that is not below the size. */
  lemma AlignLeast(size: nat, boundary: nat, k: nat)
    requires boundary > 0
    ensures AlignSize(size, boundary) % boundary == 0 && size <= AlignSize(size, boundary) < size + boundary
    ensures k * boundary >= size ==> AlignSize(size, boundary) <= k * boundary
  {
    var q, r := (size + boundary - 1) / boundary, (size + boundary - 1) % boundary;
    Parts(0, q, boundary);
    assert size + boundary - 1 == q * boundary + r;
    if k < q { Times(k, q - 1, boundary); } else { Times(q, k, boundary); }
  }

  lemma Times(a: int, b: int, unit: nat)
    requires a <= b
    ensures a * unit <= b * unit
  {
  }

  function StoredSize(page: seq<byte>): (n: nat)
    requires |page| >= 2
    ensures n < COMP_ALG_UNIT
  {
    (page[0] as int + 256 * page[1] as int) % COMP_ALG_UNIT
  }

  function StoredAlgorithm(page: seq<byte>): (a: nat)
    requires |page| >= 2
  {
    (page[0] as int + 256 * page[1] as int) / COMP_ALG_UNIT
  }

  /** What a stored page of which `length` octets were read expands to. */
  datatype Expansion = Page(content: seq<byte>) | Rejected | Unspecified

  function Expand(page: seq<byte>, length: nat): (r: Expansion)
    requires |page| >= 2 && Readable(page, length)
  {
    var n := StoredSize(page);
    if n > length then Rejected
    else if StoredAlgorithm(page) == 0 then
      match LzfFormat.Decode(page[2..2 + n], [], LBA_SIZE)
      case Decoded(output) => if |output| == LBA_SIZE then Page(output) else Rejected
      case _ => Rejected
    else if StoredAlgorithm(page) == 1 then
      match Lz4Format.DecodeBlock(page[2..2 + n], LBA_SIZE)
      case Decoded(output) => if |output| == LBA_SIZE then Page(output) else Rejected
      case Malformed => Rejected
      case ZeroOffset => Unspecified
    else Rejected
  }

  /** The stored size, when it passes the length test, stays inside the page. */
  predicate Readable(page: seq<byte>, length: nat)
    requires |page| >= 2
  {
    StoredSize(page) <= length ==> StoredSize(page) <= |page| - 2
  }

  /** `out` holds a header and a compressed form of `page`, `n` octets in all. */
  ghost predicate Deflated(page: seq<byte>, out: seq<byte>, n: nat, algo: Algorithm)
  {
    && 2 < n <= ROOM + 2 <= |out| && StoredSize(out) == n - 2
    && match algo
       case LZF => StoredAlgorithm(out) == 0 && LzfFormat.Decode(out[2..n], [], LBA_SIZE) == LzfFormat.Decoded(page)
       case LZ4 => StoredAlgorithm(out) == 1 && Lz4Format.DecodeBlock(out[2..n], LBA_SIZE) == Lz4Format.Decoded(page)
  }

  /** The octets stored on disk, followed by anything, expand to the page. */
  lemma Restored(page: seq<byte>, out: seq<byte>, n: nat, algo: Algorithm, size: nat, read: seq<byte>)
    requires |page| == LBA_SIZE && Deflated(page, out, n, algo)
    requires n <= size <= |out| && size <= |read| && read[..size] == out[..size]
    ensures Readable(read, size) && Expand(read, size) == Page(page)
  {
    hide Lz4Format.DecodeBlock, LzfFormat.Decode;
    assert forall i :: 0 <= i < size ==> read[i] == read[..size][i];
    assert read[2..n] == out[2..n];
  }

  /** qs_deflate_block. The work memory is shared by both algorithms and holds anything. */
  method Deflate(page: seq<byte>, out: array<byte>, wrkmem: array<nat>, algo: Algorithm) returns (ok: bool, compSize: nat)
    requires |page| == LBA_SIZE == out.Length && wrkmem.Length == 8192
    modifies out, wrkmem
    ensures ok ==> Deflated(page, out[..], compSize, algo)
    ensures ok ==> out[0] as int + 256 * out[1] as int == compSize - 2 + if algo == LZ4 then 0x4000 else 0
    ensures Constant(page) ==> ok && compSize <= 58
  {
    hide LzfFormat.Decode, Lz4Format.DecodeBlock, Lz4Encoder.Enough, Constant;
    var retval: nat;
    match algo {
      case LZF => retval := LzfEncoder.Compress(page, wrkmem, out, 2, ROOM);
      case LZ4 => retval := Lz4Encoder.Compress(page, wrkmem, out, 2, ROOM);
    }
    if retval == 0 { return false, 0; }
    ghost var body := out[2..2 + retval];
    var header := retval + (if algo.LZF? then 0 else COMP_ALG_UNIT);
    out[0], out[1] := header % 256, header / 256;
    assert out[..][2..2 + retval] == body;
    return true, retval + 2;
  }

  /** qs_inflate_block: success exactly when the page expands to LBA_SIZE octets, which are then left
      in `out`. */
  method Inflate(page: seq<byte>, length: nat, out: array<byte>) returns (ok: bool)
    requires |page| >= 2 && Readable(page, length) && out.Length == LBA_SIZE
    modifies out
    ensures match Expand(page, length)
      case Page(content) => ok && out[..] == content
      case Rejected => !ok
      case Unspecified => true
  {
    hide LzfFormat.Decode, Lz4Format.DecodeBlock;
    var n, algo := StoredSize(page), StoredAlgorithm(page);
    if n > length { return false; }
    var retval: int := 0;
    LzfFormat.DecodeNothing([], LBA_SIZE);
    if algo == 0 {
      retval := LzfDecoder.Decompress(page[2..2 + n], out, LBA_SIZE);
    } else if algo == 1 {
      retval := Lz4Decoder.Decompress(page[2..2 + n], out, LBA_SIZE);
    }
    ok := retval == LBA_SIZE;
    assert ok ==> out[..retval] == out[..];
  }

  /** Rounded up to kilobytes, a compressed page is below the size of a page. */
  lemma DeflatedSize(page: seq<byte>, out: seq<byte>, n: nat, algo: Algorithm)
    requires Deflated(page, out, n, algo)
    ensures n <= AlignSize(n, 1024) && AlignSize(n, 1024) in {1024, 2048, 3072}
  {
    hide Lz4Format.DecodeBlock, LzfFormat.Decode, StoredSize;
  }

  /** A page, through compression, the block address and whatever the disk returned beyond the stored
      octets, comes back as itself; the stored size is a whole number of kilobytes below a page. */
  method RoundTrip(page: seq<byte>, algo: Algorithm, wrkmem: array<nat>, blocknr: nat, bid: nat, garbage: seq<byte>)
      returns (compressed: bool, same: bool, block: nat)
    requires |page| == LBA_SIZE && wrkmem.Length == 8192 && |garbage| == LBA_SIZE
    requires blocknr < BLOCKNRS && bid < BIDS
    modifies wrkmem
    ensures compressed ==> same && BlockSize(block) in {1024, 2048, 3072}
    ensures compressed ==> BlockNumber(block) == blocknr && BlockDisk(block) == bid
    ensures Constant(page) ==> compressed
  {
    hide Constant, Deflated, AlignSize, StoredSize, Expand, Readable, BlockAddress, BlockSize, BlockNumber, BlockDisk;
    var stored := new byte[LBA_SIZE];
    var n;
    compressed, n := Deflate(page, stored, wrkmem, algo);
    if !compressed { return false, false, 0; }
    DeflatedSize(page, stored[..], n, algo);
    var size := AlignSize(n, 1024);
    block := BlockAddress(blocknr, bid, size);
    AddressParts(blocknr, bid, size);
    var read := stored[..size] + garbage[size..];
    assert read[..size] == stored[..][..size];
    Restored(page, stored[..], n, algo, size, read);
    var out := new byte[LBA_SIZE];
    var ok := Inflate(read, BlockSize(block), out);
    same := ok && out[..] == page;
  }
}
