/** LZ4_compress_limitedOutput for inputs below the 64 KB limit (byU16 table, no prefix).

    Pointers are indices: `ip`, `anchor` and `ref` into the input, `op` and `token` into `dest`.
    The method that matters is `Compress`; the others are its inner loops. */
module Lz4Encoder {
  import opened Bytes
  import opened Lz4Format

  const LIMIT_64K := 65536 + MFLIMIT - 1
  const MIN_LENGTH := MFLIMIT + 1
  const MAX_DISTANCE := 65535
  const HASH_CELLS := 8192

  /** Multiplicative hash of four octets: the product wraps at 32 bits, its top 13 bits are kept. */
  function HashPosition(src: seq<byte>, p: nat): (h: nat)
    requires p + 4 <= |src|
    ensures h < HASH_CELLS
  {
    (Read32(src, p) * 2654435761) % 0x1_0000_0000 / 0x8_0000
  }

  lemma HashOfOne(src: seq<byte>, p: nat)
    requires p + 4 <= |src| && src[p..p + 4] == [1, 0, 0, 0]
    ensures HashPosition(src, p) == 5062
  {
    var four := src[p..p + 4];
    assert src[p] == four[0] && src[p + 1] == four[1] && src[p + 2] == four[2] && src[p + 3] == four[3];
  }

  lemma SameHash(src: seq<byte>, ref: nat, ip: nat)
    requires ref < ip && ip + 4 <= |src| && Same(src, ref, ip, 4)
    ensures HashPosition(src, ref) == HashPosition(src, ip)
  {
    var d := ip - ref;
    assert src[ip] == src[ip - d] && src[ip + 1] == src[ip + 1 - d] && src[ip + 2] == src[ip + 2 - d] && src[ip + 3] == src[ip + 3 - d];
  }

  /** Every position in the table lies before `limit`. */
  ghost predicate Below(table: array<nat>, limit: nat)
    reads table
  {
    forall h :: 0 <= h < table.Length ==> table[h] < limit
  }

  /** The table knows an earlier place with the four octets at `p`. */
  predicate Hit(src: seq<byte>, ref: nat, p: nat)
    requires p + 4 <= |src|
  {
    ref < p <= ref + MAX_DISTANCE && Same(src, ref, p, 4)
  }

  /** The four octets at `p` are those one place before it. */
  predicate Repeats(src: seq<byte>, p: nat) { 0 < p && p + 4 <= |src| && Same(src, p - 1, p, 4) }

  /** The search loop: steps grow with the number of attempts; gives up near the end of the input. */
  method FindMatch(src: seq<byte>, table: array<nat>, start: nat) returns (found: bool, ip: nat, ref: nat)
    requires MIN_LENGTH <= |src| < LIMIT_64K && start + 4 <= |src|
    requires table.Length == HASH_CELLS && Below(table, start)
    modifies table
    ensures found ==> start <= ip < |src| - MFLIMIT && Below(table, ip + 1)
    ensures found ==> ref < ip <= ref + MAX_DISTANCE && Same(src, ref, ip, 4)
    ensures var known := old(table[HashPosition(src, start)]);
      start + 1 <= |src| - MFLIMIT && Hit(src, known, start) ==> found && ip == start && ref == known
    ensures forall p :: start < p <= start + 60 && p + 1 <= |src| - MFLIMIT && Repeats(src, p) ==> found && ip <= p
  {
    hide HashPosition;
    var forwardIp := start;
    var forwardH := HashPosition(src, start);
    var attempts := 64 + 3;
    ip, ref := start, 0;
    while true
      invariant start <= forwardIp && forwardIp + 4 <= |src| && attempts >= 64
      invariant 0 <= forwardH < HASH_CELLS && Below(table, forwardIp) && forwardH == HashPosition(src, forwardIp)
      invariant 67 <= attempts && (attempts <= 128 ==> forwardIp == start + attempts - 67) && (attempts > 128 ==> forwardIp > start + 61)
      invariant start < forwardIp && attempts <= 128 ==> table[HashPosition(src, forwardIp - 1)] == forwardIp - 1
      invariant forall p :: start < p < forwardIp && p <= start + 60 && p + 1 <= |src| - MFLIMIT ==> !Repeats(src, p)
      invariant forwardIp == start ==> attempts == 67 && forwardH == HashPosition(src, start) && table[forwardH] == old(table[forwardH])
      invariant forwardIp > start && start + 1 <= |src| - MFLIMIT ==> !Hit(src, old(table[HashPosition(src, start)]), start)
      decreases |src| - forwardIp
    {
      var h := forwardH;
      if start < forwardIp && Repeats(src, forwardIp) { SameHash(src, forwardIp - 1, forwardIp); }
      var step := attempts / 64;
      attempts := attempts + 1;
      ip := forwardIp;
      forwardIp := ip + step;
      if forwardIp > |src| - MFLIMIT { return false, ip, ref; }
      forwardH := HashPosition(src, forwardIp);
      ref := table[h];
      table[h] := ip % 65536;
      if ref + MAX_DISTANCE >= ip && Same(src, ref, ip, 4) {
        return true, ip, ref;
      }
    }
  }

  /** Extend a match backwards over equal octets, down to the anchor. */
  method CatchUp(src: seq<byte>, anchor: nat, ip0: nat, ref0: nat) returns (ip: nat, ref: nat)
    requires anchor <= ip0 && ref0 < ip0 && ip0 + 4 <= |src| && Same(src, ref0, ip0, 4)
    ensures anchor <= ip <= ip0 && ip - ref == ip0 - ref0
    ensures Same(src, ref, ip, ip0 + 4 - ip)
    ensures ip > anchor && ref > 0 ==> src[ip - 1] != src[ref - 1]
  {
    ip, ref := ip0, ref0;
    while ip > anchor && ref > 0 && src[ip - 1] == src[ref - 1]
      invariant anchor <= ip <= ip0 && ip - ref == ip0 - ref0
      invariant Same(src, ref, ip, ip0 + 4 - ip)
    {
      ip, ref := ip - 1, ref - 1;
    }
  }

  /** Octets that two different 8-octet words have in common before they first differ. */
  method CommonBytes(src: seq<byte>, ref: nat, ip: nat) returns (n: nat)
    requires ref < ip && ip + 8 <= |src| && !Same(src, ref, ip, 8)
    ensures n < 8 && Same(src, ref, ip, n) && src[ip + n] != src[ref + n]
  {
    n := 0;
    while src[ref + n] == src[ip + n]
      invariant n < 8 && Same(src, ref, ip, n)
      decreases 8 - n
    {
      n := n + 1;
    }
  }

  /** Count how far the input repeats itself: by eights, then by four, two and one.
      The result is exactly the first mismatch before `limit`. */
  method CountMatch(src: seq<byte>, ref0: nat, ip0: nat, limit: nat) returns (ip: nat)
    requires ref0 < ip0 <= limit <= |src|
    ensures ip0 <= ip <= limit && Same(src, ref0, ip0, ip - ip0)
    ensures ip < limit ==> src[ip] != src[ip - (ip0 - ref0)]
  {
    var ref := ref0;
    ip := ip0;
    while ip < limit - 7
      invariant ip0 <= ip <= limit && ip - ref == ip0 - ref0 && Same(src, ref0, ip0, ip - ip0)
    {
      if !Same(src, ref, ip, 8) {
        var n := CommonBytes(src, ref, ip);
        ip := ip + n;
        return;
      }
      ip, ref := ip + 8, ref + 8;
    }
    ip := CountTail(src, ref, ip, limit);
  }

  /** The last seven octets at most: by four, two and one. */
  method CountTail(src: seq<byte>, ref0: nat, ip0: nat, limit: nat) returns (ip: nat)
    requires ref0 < ip0 <= limit <= |src| && ip0 >= limit - 7
    ensures ip0 <= ip <= limit && Same(src, ref0, ip0, ip - ip0)
    ensures ip < limit ==> src[ip] != src[ip - (ip0 - ref0)]
  {
    ghost var m := FirstMismatch(src, ref0, ip0, limit);
    var ref := ref0;
    ip := ip0;
    if ip < limit - 3 && Same(src, ref, ip, 4) { ip, ref := ip + 4, ref + 4; }
    if ip < limit - 1 && Same(src, ref, ip, 2) { ip, ref := ip + 2, ref + 2; }
    if ip < limit && src[ref] == src[ip] { ip := ip + 1; }
    assert ip == m;
  }

  lemma FirstMismatch(src: seq<byte>, ref: nat, ip: nat, limit: nat) returns (m: nat)
    requires ref < ip <= limit <= |src|
    ensures ip <= m <= limit && Same(src, ref, ip, m - ip)
    ensures m < limit ==> src[m] != src[m - (ip - ref)]
  {
    m := ip;
    while m < limit && src[m] == src[m - (ip - ref)]
      invariant ip <= m <= limit && Same(src, ref, ip, m - ip)
    {
      m := m + 1;
    }
  }

  // ---------- Output ----------

  /** Length continuation, one octet at a time. */
  method PutExtension(dest: array<byte>, op0: nat, n: nat, oend: nat) returns (op: nat)
    requires op0 + |Extension(n)| <= oend <= dest.Length
    modifies dest
    ensures op == op0 + |Extension(n)| && dest[..op] == old(dest[..op0]) + Extension(n)
    ensures dest[oend..] == old(dest[oend..])
  {
    hide Extension;
    var len := n;
    op := op0;
    while len >= 255
      invariant len >= 0 && op0 <= op && op + |Extension(len)| == op0 + |Extension(n)|
      invariant dest[..op] + Extension(len) == old(dest[..op0]) + Extension(n)
      invariant dest[oend..] == old(dest[oend..])
    {
      ExtensionStep(len);
      Assoc(dest[..op], [255], Extension(len - 255));
      dest[op] := 255;
      assert dest[..op + 1] == dest[..op] + [255];
      op, len := op + 1, len - 255;
    }
    ExtensionStep(len);
    dest[op] := len;
    op := op + 1;
  }

  /** Length continuation of a match: pairs of 255 while more than 509 remain. */
  method PutMatchExtension(dest: array<byte>, op0: nat, n: nat, oend: nat) returns (op: nat)
    requires op0 + |Extension(n)| <= oend <= dest.Length
    modifies dest
    ensures op == op0 + |Extension(n)| && dest[..op] == old(dest[..op0]) + Extension(n)
    ensures dest[oend..] == old(dest[oend..])
  {
    hide Extension;
    var length := n;
    op := op0;
    while length > 509
      invariant length >= 0 && op0 <= op && op + |Extension(length)| == op0 + |Extension(n)|
      invariant dest[..op] + Extension(length) == old(dest[..op0]) + Extension(n)
      invariant dest[oend..] == old(dest[oend..])
    {
      ExtensionPair(length);
      Assoc(dest[..op], [255, 255], Extension(length - 510));
      dest[op], dest[op + 1] := 255, 255;
      assert dest[..op + 2] == dest[..op] + [255, 255];
      op, length := op + 2, length - 510;
    }
    ExtensionStep(length);
    if length >= 255 {
      Assoc(dest[..op], [255], Extension(length - 255));
      length := length - 255;
      dest[op] := 255;
      op := op + 1;
      ExtensionStep(length);
    }
    dest[op] := length;
    op := op + 1;
  }

  lemma ExtensionStep(n: nat)
    ensures Extension(n) == if n < 255 then [n] else [255] + Extension(n - 255)
  {
  }

  lemma ExtensionPair(n: nat)
    requires n > 509
    ensures Extension(n) == [255, 255] + Extension(n - 510)
  {
    ExtensionStep(n);
    ExtensionStep(n - 255);
  }

  /** Token and run length. */
  method PutRun(dest: array<byte>, token: nat, length: nat, oend: nat) returns (op: nat)
    requires token + |RunBytes(length)| <= oend <= dest.Length
    modifies dest
    ensures op == token + |RunBytes(length)| && dest[..op] == old(dest[..token]) + RunBytes(length)
    ensures dest[oend..] == old(dest[oend..])
  {
    op := token + 1;
    if length >= RUN_MASK {
      dest[token] := RUN_MASK * 16;
      op := PutExtension(dest, op, length - RUN_MASK, oend);
    } else {
      dest[token] := length * 16;
    }
  }

  /** Token, run length and literals of a sequence. Fails when the limit is too close. */
  method PutLiterals(src: seq<byte>, anchor: nat, ip: nat, dest: array<byte>, token: nat, oend: nat)
      returns (ok: bool, op: nat)
    requires anchor <= ip <= |src| - MFLIMIT && token <= oend <= dest.Length
    modifies dest
    ensures dest[..token] == old(dest[..token]) && dest[oend..] == old(dest[oend..])
    ensures ok <==> token + 1 + (ip - anchor) + (2 + 1 + LASTLITERALS) + (ip - anchor) / 255 <= oend
    ensures ok ==> token < op == token + |LastBytes(src[anchor..ip])| && op + 7 <= oend
    ensures ok ==> dest[..op] == old(dest[..token]) + LastBytes(src[anchor..ip])
  {
    var length := ip - anchor;
    op := token + 1;
    if op + length + (2 + 1 + LASTLITERALS) + length / 255 > oend { return false, op; }
    op := PutRun(dest, token, length, oend);
    CopyWords(src, anchor, dest, op, op + length, oend);
    op := op + length;
    ok := true;
    Assoc(old(dest[..token]), RunBytes(length), src[anchor..ip]);
  }

  /** Offset and match length of a sequence whose literals end at `op0`; completes the token. */
  method PutMatch(offset: nat, len: nat, dest: array<byte>, token: nat, op0: nat, oend: nat)
      returns (ok: bool, op: nat)
    requires token < op0 && op0 + 2 <= oend <= dest.Length
    requires 0 < offset < 65536 && len < LIMIT_64K && dest[token] <= 240
    modifies dest
    ensures dest[..token] == old(dest[..token]) && dest[oend..] == old(dest[oend..])
    ensures ok <==> op0 + 2 + (1 + LASTLITERALS) + len / 256 <= oend
    ensures ok ==> op == op0 + 2 + |LengthBytes(len)| && op + 3 <= oend
    ensures ok ==> dest[..op] == old(dest[..op0])[token := old(dest[token]) + Nibble(len)]
                                 + [offset % 256, offset / 256] + LengthBytes(len)
  {
    hide Extension;
    dest[op0], dest[op0 + 1] := offset % 256, offset / 256;
    op := op0 + 2;
    assert dest[..op] == old(dest[..op0]) + [offset % 256, offset / 256];
    if op + (1 + LASTLITERALS) + len / 256 > oend { return false, op; }
    ok := true;
    ghost var tok: byte := old(dest[token]) + Nibble(len);
    UpdateLeft(old(dest[..op0]), [offset % 256, offset / 256], token, tok);
    ghost var before := dest[..op];
    if len >= ML_MASK {
      dest[token] := dest[token] + ML_MASK;
      assert dest[..op] == before[token := tok];
      op := PutMatchExtension(dest, op, len - ML_MASK, oend);
    } else {
      dest[token] := dest[token] + len;
      assert dest[..op] == before[token := tok];
    }
  }

  lemma UpdateLeft(a: seq<byte>, b: seq<byte>, i: nat, v: byte)
    requires i < |a|
    ensures (a + b)[i := v] == a[i := v] + b
  {
  }

  /** The final run. Fails exactly when the block would not fit. */
  method PutLast(src: seq<byte>, anchor: nat, dest: array<byte>, op0: nat, oend: nat) returns (ok: bool, op: nat)
    requires anchor <= |src| && op0 <= oend <= dest.Length
    modifies dest
    ensures dest[..op0] == old(dest[..op0]) && dest[oend..] == old(dest[oend..])
    ensures ok <==> op0 + |LastBytes(src[anchor..])| <= oend
    ensures ok ==> op == op0 + |LastBytes(src[anchor..])|
    ensures ok ==> dest[..op] == old(dest[..op0]) + LastBytes(src[anchor..])
  {
    hide RunBytes;
    var lastRun := |src| - anchor;
    op := op0;
    if op + lastRun + 1 + (lastRun + 255 - RUN_MASK) / 255 > oend { return false, op; }
    ok := true;
    op := PutRun(dest, op, lastRun, oend);
    forall i | 0 <= i < lastRun { dest[op + i] := src[anchor + i]; }
    op := op + lastRun;
    assert dest[..op] == old(dest[..op0]) + RunBytes(lastRun) + src[anchor..];
    Assoc(old(dest[..op0]), RunBytes(lastRun), src[anchor..]);
  }

  // ---------- Compression ----------

  /** The output so far, from `base`, is a block prefix that has produced the input up to `anchor`;
      it has grown by at most one octet in 255; and what remains is long enough to be a last run. */
  ghost predicate Written(src: seq<byte>, anchor: nat, block: seq<byte>)
  {
    && anchor <= |src|
    && Produces(block, src[..anchor], |src|)
    && 255 * |block| <= 256 * anchor
    && (anchor <= |src| - LASTLITERALS || block == [])
    && (block == [] ==> anchor == 0)
  }

  /** A room of LZ4_COMPRESSBOUND octets. */
  predicate Enough(src: seq<byte>, room: nat) { room >= |src| + |src| / 255 + 16 }

  lemma TokenCompleted(block: seq<byte>, literals: seq<byte>, offset: nat, len: nat)
    requires offset < 65536
    ensures (block + LastBytes(literals))[|block| := Nibble(|literals|) * 16 + Nibble(len)]
            + [offset % 256, offset / 256] + LengthBytes(len)
         == block + SequenceBytes(literals, offset, len)
  {
    hide LengthBytes, Nibble;
    var tok, lb := Nibble(|literals|) * 16 + Nibble(len), LengthBytes(|literals|);
    assert (block + LastBytes(literals))[|block| := tok] == block + ([tok] + lb + literals);
  }

  /** Appending the sequence for a match found at `ip` extends what has been produced to `next`. */
  lemma WrittenSequence(src: seq<byte>, anchor: nat, ip: nat, offset: nat, next: nat, block: seq<byte>)
    requires Written(src, anchor, block) && anchor <= ip <= |src| - MFLIMIT
    requires 0 < offset < 65536 && offset <= ip && ip + 4 <= next <= |src| - LASTLITERALS
    requires forall k :: ip <= k < next ==> src[k] == src[k - offset]
    ensures Written(src, next, block + SequenceBytes(src[anchor..ip], offset, next - ip - 4))
  {
    hide SequenceBytes, Produces, CopyMatch;
    ProducesSequence(block, src[..anchor], |src|, src[anchor..ip], offset, next - ip - 4);
    assert src[..anchor] + src[anchor..ip] == src[..ip];
    CopyMatchIs(src, ip, offset, next - ip);
    SequenceSize(src[anchor..ip], offset, next - ip - 4);
  }

  lemma SequenceSize(literals: seq<byte>, offset: nat, len: nat)
    requires offset < 65536
    ensures 0 < |SequenceBytes(literals, offset, len)|
    ensures 255 * |SequenceBytes(literals, offset, len)| <= 256 * (|literals| + len + 4)
  {
  }

  /** From `_next_match`: offset, match count and match length of the sequence begun at `token`. */
  method EncodeMatch(src: seq<byte>, ghost anchor: nat, ip: nat, ref: nat,
                     dest: array<byte>, base: nat, token: nat, op0: nat, oend: nat)
      returns (ok: bool, op: nat, next: nat)
    requires base <= token < op0 && op0 + 2 <= oend <= dest.Length && |src| < LIMIT_64K
    requires anchor <= ip <= |src| - MFLIMIT && ref < ip <= ref + MAX_DISTANCE && Same(src, ref, ip, 4)
    requires Written(src, anchor, dest[base..token])
    requires dest[base..op0] == dest[base..token] + LastBytes(src[anchor..ip])
    modifies dest
    ensures dest[..base] == old(dest[..base]) && dest[oend..] == old(dest[oend..])
    ensures ip + 4 <= next <= |src| - LASTLITERALS && Same(src, ref, ip, next - ip)
    ensures next < |src| - LASTLITERALS ==> src[next] != src[next - (ip - ref)]
    ensures ok <==> op0 + 8 + (next - ip - 4) / 256 <= oend
    ensures ok ==> op == op0 + 2 + |LengthBytes(next - ip - 4)|
    ensures !ok ==> !Enough(src, oend - base)
    ensures ok ==> base < op && op + 3 <= oend && Written(src, next, dest[base..op])
  {
    hide SequenceBytes, LastBytes, LengthBytes, Written;
    ghost var block, literals := dest[base..token], src[anchor..ip];
    next := CountMatch(src, ref + MINMATCH, ip + MINMATCH, |src| - LASTLITERALS);
    var len := next - (ip + MINMATCH);
    TokenByte(dest[base..op0], block, literals);
    ok, op := PutMatch(ip - ref, len, dest, token, op0, oend);
    if ok {
      var tok := Nibble(|literals|) * 16 + Nibble(len);
      assert dest[base..op] == old(dest[base..op0])[token - base := tok] + [(ip - ref) % 256, (ip - ref) / 256] + LengthBytes(len);
      TokenCompleted(block, literals, ip - ref, len);
      WrittenSequence(src, anchor, ip, ip - ref, next, block);
    } else {
      MatchFits(src, anchor, ip, next, block);
    }
  }

  lemma MatchFits(src: seq<byte>, anchor: nat, ip: nat, next: nat, block: seq<byte>)
    requires Written(src, anchor, block) && anchor <= ip && ip + 4 <= next <= |src|
    ensures |block| + |LastBytes(src[anchor..ip])| + 8 + (next - ip - 4) / 256 <= |src| + |src| / 255 + 16
  {
    hide Produces;
  }

  lemma TokenByte(all: seq<byte>, block: seq<byte>, literals: seq<byte>)
    requires all == block + LastBytes(literals)
    ensures |all| > |block| && all[|block|] == Nibble(|literals|) * 16
  {
  }

  datatype Outcome = NoMatch | NoRoom | Done

  /** Find the next match, extend it backwards and write the literals before it. */
  method BeginSequence(src: seq<byte>, table: array<nat>, anchor: nat, start: nat,
                       dest: array<byte>, base: nat, token: nat, oend: nat)
      returns (r: Outcome, ip: nat, ref: nat, op: nat, ghost at: nat)
    requires MIN_LENGTH <= |src| < LIMIT_64K && anchor <= start && start + 4 <= |src|
    requires table.Length == HASH_CELLS && Below(table, start)
    requires base <= token <= oend <= dest.Length && Written(src, anchor, dest[base..token])
    modifies table, dest
    ensures dest[..token] == old(dest[..token]) && dest[oend..] == old(dest[oend..])
    ensures r.NoRoom? ==> !Enough(src, oend - base)
    ensures r.Done? ==> anchor <= ip <= at <= |src| - MFLIMIT && Below(table, at + 1)
    ensures r.Done? ==> ref < ip <= ref + MAX_DISTANCE && Same(src, ref, ip, at + 4 - ip)
    ensures r.Done? ==> token < op && op + 7 <= oend && op - token == |LastBytes(src[anchor..ip])|
    ensures r.Done? ==> dest[base..op] == dest[base..token] + LastBytes(src[anchor..ip])
    ensures var known := old(table[HashPosition(src, start)]);
      start + 1 <= |src| - MFLIMIT && known == 0 && Hit(src, 0, start) && token + 10 + 2 * (start - anchor) <= oend ==>
      r.Done? && ip == start && ref == 0
  {
    hide LastBytes, Produces, HashPosition;
    var ok;
    op := token;
    ok, ip, ref := FindMatch(src, table, start);
    at := ip;
    if !ok { return NoMatch, ip, ref, op, at; }
    ip, ref := CatchUp(src, anchor, ip, ref);
    ok, op := PutLiterals(src, anchor, ip, dest, token, oend);
    r := if ok then Done else NoRoom;
  }

  lemma ConstantHit(src: seq<byte>)
    requires Constant(src) && 14 <= |src|
    ensures Hit(src, 0, 1)
  {
  }

  /** What is written for such an input before its last five octets: a literal, and one match with it. */
  function ConstantHead(n: nat): nat
    requires n >= 14
  {
    4 + (n + 230) / 255
  }

  /** The search for the first match of such an input, with room for it. */
  predicate FirstOf(src: seq<byte>, anchor: nat, ip: nat, chained: bool, room: int) {
    Constant(src) && 14 <= |src| && !chained && anchor == 0 && ip == 1 && 12 + |src| / 256 <= room
  }

  lemma ConstantRun(src: seq<byte>)
    requires |src| >= 1
    ensures |LastBytes(src[0..1])| == 2
  {
  }

  /** One sequence: from a fresh search, or with no literals at a match already known. */
  method EncodeSequence(src: seq<byte>, table: array<nat>, anchor: nat, ip0: nat, ref0: nat, chained: bool,
                        dest: array<byte>, base: nat, token: nat, oend: nat)
      returns (r: Outcome, op: nat, next: nat)
    requires MIN_LENGTH <= |src| < LIMIT_64K && anchor <= ip0 && ip0 + 4 <= |src| && table.Length == HASH_CELLS
    requires base <= token <= oend <= dest.Length && Written(src, anchor, dest[base..token])
    requires chained ==> anchor == ip0 <= |src| - MFLIMIT && token + 3 <= oend && Below(table, ip0 + 1)
    requires chained ==> ref0 < ip0 <= ref0 + MAX_DISTANCE && Same(src, ref0, ip0, 4)
    requires !chained ==> Below(table, ip0)
    modifies table, dest
    ensures dest[..base] == old(dest[..base]) && dest[oend..] == old(dest[oend..])
    ensures r.NoMatch? ==> op == token && dest[base..op] == old(dest[base..op])
    ensures r.NoRoom? ==> !Enough(src, oend - base)
    ensures r.Done? ==> base < op && op + 3 <= oend && Written(src, next, dest[base..op])
    ensures r.Done? ==> anchor + 4 <= next <= |src| - LASTLITERALS && Below(table, next)
    ensures FirstOf(src, anchor, ip0, chained, oend - token) && old(table[HashPosition(src, 1)]) == 0 ==>
      r.Done? && next == |src| - LASTLITERALS && op == token + ConstantHead(|src|)
  {
    hide Written, LastBytes, LengthBytes, HashPosition, Constant;
    if Constant(src) && 14 <= |src| {
      ConstantHit(src);
      ConstantRun(src);
    }
    var ip, ref := ip0, ref0;
    ghost var at, block := ip, dest[base..token];
    if chained {
      dest[token] := 0;
      op := token + 1;
      EmptyRun(src, ip);
      assert dest[base..op] == block + [0] && dest[base..token] == block;
    } else {
      r, ip, ref, op, at := BeginSequence(src, table, anchor, ip, dest, base, token, oend);
      assert dest[base..token] == dest[..token][base..] == block;
      if r != Done { return r, token, anchor; }
    }
    var ok;
    ok, op, next := EncodeMatch(src, anchor, ip, ref, dest, base, token, op, oend);
    r := if ok then Done else NoRoom;
    if Constant(src) && next < |src| - LASTLITERALS { ConstantAt(src, next, next - (ip - ref)); }
  }

  /** Fill the table behind the match just written and look for one that starts here. */
  method NextPosition(src: seq<byte>, table: array<nat>, ip: nat) returns (chained: bool, ref: nat)
    requires 4 <= ip <= |src| - MFLIMIT && |src| < LIMIT_64K
    requires table.Length == HASH_CELLS && Below(table, ip)
    modifies table
    ensures Below(table, ip + 1)
    ensures chained ==> ref < ip <= ref + MAX_DISTANCE && Same(src, ref, ip, 4)
    ensures chained <==> Hit(src, if HashPosition(src, ip - 2) == HashPosition(src, ip) then ip - 2 else old(table[HashPosition(src, ip)]), ip)
  {
    table[HashPosition(src, ip - 2)] := (ip - 2) % 65536;
    var h := HashPosition(src, ip);
    ref := table[h];
    table[h] := ip % 65536;
    chained := ref + MAX_DISTANCE >= ip && Same(src, ref, ip, 4);
  }

  /** From `_last_literals`: close the block. */
  method Finish(src: seq<byte>, anchor: nat, dest: array<byte>, base: nat, op0: nat, oend: nat) returns (n: nat)
    requires base <= op0 <= oend <= dest.Length && anchor <= |src| && Written(src, anchor, dest[base..op0])
    modifies dest
    ensures base + n <= oend && (Enough(src, oend - base) ==> n > 0)
    ensures n == if op0 + |LastBytes(src[anchor..])| <= oend then op0 - base + |LastBytes(src[anchor..])| else 0
    ensures n > 0 ==> DecodeBlock(dest[base..base + n], |src|) == Decoded(src)
    ensures dest[..base] == old(dest[..base]) && dest[oend..] == old(dest[oend..])
  {
    hide Written, LastBytes, DecodeBlock, Enough;
    ghost var block := dest[base..op0];
    var ok, op := PutLast(src, anchor, dest, op0, oend);
    n := if ok then op - base else 0;
    WrittenLast(src, anchor, block);
    assert ok ==> dest[base..op] == block + LastBytes(src[anchor..]);
  }

  /** An input of equal octets that leaves room for what it shrinks to. */
  predicate Shrinks(src: seq<byte>, room: int) { Constant(src) && 14 <= |src| && 18 + |src| / 255 <= room }

  /** The main loop: sequences up to the last literals, which start at `anchor`. */
  method Sequences(src: seq<byte>, table: array<nat>, dest: array<byte>, base: nat, oend: nat)
      returns (ok: bool, anchor: nat, op: nat)
    requires MIN_LENGTH <= |src| < LIMIT_64K && table.Length == HASH_CELLS && base <= oend <= dest.Length
    requires Below(table, 1) && Written(src, 0, dest[base..base])
    modifies table, dest
    ensures base <= op <= oend && anchor <= |src| && (!ok ==> !Enough(src, oend - base))
    ensures ok ==> Written(src, anchor, dest[base..op])
    ensures dest[..base] == old(dest[..base]) && dest[oend..] == old(dest[oend..])
    ensures Shrinks(src, oend - base) ==> ok && anchor == |src| - LASTLITERALS && op == base + ConstantHead(|src|)
  {
    hide Written, HashPosition, Enough, Constant;
    var ip;
    ip, anchor, op := 1, 0, base;
    var chained: bool, ref: nat := false, 0;
    while true
      invariant base <= op <= oend && anchor <= ip && ip + 4 <= |src|
      invariant Written(src, anchor, dest[base..op])
      invariant dest[..base] == old(dest[..base]) && dest[oend..] == old(dest[oend..])
      invariant chained ==> anchor == ip <= |src| - MFLIMIT && op + 3 <= oend && Below(table, ip + 1)
      invariant chained ==> 0 <= ref < ip <= ref + MAX_DISTANCE && Same(src, ref, ip, 4)
      invariant !chained ==> Below(table, ip)
      invariant anchor == 0 ==> ip == 1 && !chained && op == base && table[HashPosition(src, 1)] == 0
      invariant Shrinks(src, oend - base) ==> anchor == 0
      decreases |src| - anchor
    {
      var r, next;
      r, op, next := EncodeSequence(src, table, anchor, ip, ref, chained, dest, base, op, oend);
      if r == NoMatch { return true, anchor, op; }
      if r == NoRoom { return false, anchor, base; }
      ip, anchor := next, next;
      if ip > |src| - MFLIMIT { return true, anchor, op; }
      chained, ref := NextPosition(src, table, ip);
      if !chained { ip := ip + 1; }
    }
  }

  /** LZ4_compress_limitedOutput: compress `src` into `dest[base..base + room]`.

      A non-zero result is the size of a block that decodes to the input; nothing outside the given
      room is written; and a room of LZ4_COMPRESSBOUND octets is always enough. An input of equal octets shrinks to one octet
      in 255 and ten more. */
  method Compress(src: seq<byte>, table: array<nat>, dest: array<byte>, base: nat, room: nat) returns (n: nat)
    requires |src| < LIMIT_64K && table.Length == HASH_CELLS && base + room <= dest.Length
    modifies table, dest
    ensures n <= room
    ensures n > 0 ==> DecodeBlock(dest[base..base + n], |src|) == Decoded(src)
    ensures Enough(src, room) ==> n > 0
    ensures Shrinks(src, room) ==> n == 10 + (|src| + 230) / 255
    ensures dest[..base] == old(dest[..base]) && dest[base + room..] == old(dest[base + room..])
  {
    hide Written, LastBytes, DecodeBlock, HashPosition, Enough, Constant;
    forall h | 0 <= h < table.Length { table[h] := 0; }
    var oend := base + room;
    var anchor, op := 0, base;
    WrittenNothing(src);
    assert dest[base..op] == [];
    if |src| >= MIN_LENGTH {
      table[HashPosition(src, 0)] := 0;
      var ok;
      ok, anchor, op := Sequences(src, table, dest, base, oend);
      if !ok { return 0; }
    }
    if anchor == |src| - LASTLITERALS { FiveLast(src); }
    assert dest[..base] == old(dest[..base]) && dest[oend..] == old(dest[oend..]);
    n := Finish(src, anchor, dest, base, op, oend);
  }

  lemma WrittenNothing(src: seq<byte>)
    ensures Written(src, 0, [])
  {
    forall rest: seq<byte> | |rest| > LASTLITERALS ensures Decode([] + rest, [], |src|) == Decode(rest, [], |src|) {
      assert [] + rest == rest;
    }
    assert src[..0] == [];
  }

  lemma WrittenLast(src: seq<byte>, anchor: nat, block: seq<byte>)
    requires Written(src, anchor, block)
    ensures DecodeBlock(block + LastBytes(src[anchor..]), |src|) == Decoded(src)
    ensures 0 < |LastBytes(src[anchor..])|
    ensures forall room: nat :: Enough(src, room) ==> |block| + |LastBytes(src[anchor..])| <= room
  {
    hide Produces;
    assert src[..anchor] + src[anchor..] == src;
    ProducesAll(block, src[..anchor], src[anchor..]);
  }

  lemma FiveLast(src: seq<byte>)
    requires |src| >= 5
    ensures |LastBytes(src[|src| - 5..])| == 6
  {
  }

  lemma EmptyRun(src: seq<byte>, ip: nat)
    requires ip <= |src|
    ensures LastBytes(src[ip..ip]) == [0]
  {
  }
}
