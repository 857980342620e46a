/** LZ4_decompress_safe on the 64-bit build: word copies, correction tables and bounds tests.

    It is proved to compute `Lz4Format.DecodeBlock`, which copies octet by octet. */
module Lz4Decoder {
  import opened Bytes
  import opened Lz4Format

  const COPYLENGTH := 8
  const STEPSIZE := 8
  const DEC32: seq<int> := [0, 3, 2, 3, 0, 0, 0, 0]
  const DEC64: seq<int> := [0, 0, 0, -1, 0, 1, 2, 3]

  // ---------- Periods ----------

  /** `c[k] == c[k - period]` on an interval. */
  ghost predicate Periodic(c: seq<byte>, from: nat, to: nat, period: nat)
  {
    period <= from && to <= |c| && forall k :: from <= k < to ==> c[k] == c[k - period]
  }

  predicate Multiple(distance: nat, period: nat)
    requires period > 0
  {
    distance == period || (distance > period && Multiple(distance - period, period))
  }

  lemma {:induction false} GoBack(c: seq<byte>, from: nat, k: nat, period: nat, distance: nat)
    requires 0 < period <= distance <= k <= |c| && Multiple(distance, period)
    requires Periodic(c, from, k, period) && k - (distance - period) >= from
    ensures c[k - period] == c[k - distance]
  {
    if distance > period { GoBack(c, from, k, period, distance - period); }
  }

  /** Copying from a multiple of the period back continues the period, as long as the copy starts
      no further than that multiple, less one period, past the start of the periodic stretch. */
  lemma PeriodContinues(c: seq<byte>, from: nat, mid: nat, to: nat, period: nat, distance: nat)
    requires 0 < period <= distance <= mid <= to && Multiple(distance, period)
    requires Periodic(c, from, mid, period) && Periodic(c, mid, to, distance)
    requires from <= mid - (distance - period)
    ensures Periodic(c, from, to, period)
  {
    var k := mid;
    while k < to
      invariant mid <= k <= to && Periodic(c, from, k, period)
    {
      GoBack(c, from, k, period, distance);
      k := k + 1;
    }
  }

  /** What the two tables are for: both corrected distances are multiples of the offset. */
  lemma Corrections(offset: nat)
    requires 0 < offset < STEPSIZE
    ensures 4 <= offset + DEC32[offset] && DEC32[offset] <= 4 && Multiple(offset + DEC32[offset], offset)
    ensures 8 <= 4 + offset + DEC32[offset] + DEC64[offset] <= 8 + offset
    ensures Multiple(4 + offset + DEC32[offset] + DEC64[offset], offset)
  {
    if offset == 1 {
      assert Multiple(4, 1);
      assert Multiple(8, 1);
    } else if offset == 2 {
      assert Multiple(8, 2);
    } else if offset == 3 {
      assert Multiple(9, 3);
    }
  }

  lemma PeriodicIsCopy(out: seq<byte>, c: seq<byte>, offset: nat, n: nat)
    requires 0 < offset <= |out| && |c| == |out| + n && c[..|out|] == out
    requires Periodic(c, |out|, |c|, offset)
    ensures c == CopyMatch(out, offset, n)
  {
    CopyMatchIs(c, |out|, offset, n);
    assert c[..|out| + n] == c;
  }

  // ---------- Copies ----------

  /** LZ4_WILDCOPY within the output: each step loads eight octets, then stores them. */
  method WildCopy(dest: array<byte>, d0: nat, s0: nat, e: nat) returns (d: nat)
    requires s0 < d0 && d0 + 8 <= dest.Length && e + 7 <= dest.Length
    modifies dest
    ensures e <= d <= dest.Length && d0 + 8 <= d && d < (if d0 + 1 > e then d0 + 1 else e) + 8
    ensures dest[..d0] == old(dest[..d0]) && forall k :: d <= k < dest.Length ==> dest[k] == old(dest[k])
    ensures d0 - s0 >= 8 ==> Periodic(dest[..], d0, d, d0 - s0)
  {
    var s := s0;
    d := d0;
    var first := true;
    while first || d < e
      invariant d0 <= d <= dest.Length && d - s == d0 - s0 && (first <==> d == d0) && (!first ==> d0 + 8 <= d)
      invariant d < (if d0 + 1 > e then d0 + 1 else e) + 8
      invariant dest[..d0] == old(dest[..d0]) && forall k :: d <= k < dest.Length ==> dest[k] == old(dest[k])
      invariant d0 - s0 >= 8 ==> Periodic(dest[..], d0, d, d0 - s0)
      decreases first, e - d
    {
      ghost var before := dest[..];
      forall i | 0 <= i < 8 { dest[d + i] := dest[s + i]; }
      assert dest[..d] == before[..d];
      assert forall k :: d <= k < d + 8 ==> dest[k] == before[k - (d0 - s0)];
      d, s, first := d + 8, s + 8, false;
    }
  }

  /** Four octets one by one; the copy may overlap itself. */
  method CopyFour(dest: array<byte>, op: nat, offset: nat)
    requires offset <= op && op + 4 <= dest.Length
    modifies dest
    ensures dest[..op] == old(dest[..op]) && forall k :: op + 4 <= k < dest.Length ==> dest[k] == old(dest[k])
    ensures offset > 0 ==> Periodic(dest[..], op, op + 4, offset)
  {
    dest[op] := dest[op - offset];
    dest[op + 1] := dest[op - offset + 1];
    dest[op + 2] := dest[op - offset + 2];
    dest[op + 3] := dest[op - offset + 3];
  }

  /** A32(op) = A32(ref): the four octets after those. */
  method CopyWord(dest: array<byte>, op: nat, ref: int)
    requires 0 <= ref <= op && op + 4 <= dest.Length
    modifies dest
    ensures dest[..op] == old(dest[..op]) && forall k :: op + 4 <= k < dest.Length ==> dest[k] == old(dest[k])
    ensures ref + 4 <= op ==> Periodic(dest[..], op, op + 4, op - ref)
  {
    forall i | 0 <= i < 4 { dest[op + i] := dest[ref + i]; }
  }

  /** The first eight octets of a match: one by one and with the table corrections when the offset
      is below eight, as one word otherwise. Leaves the distance that the next words are copied from. */
  method FirstEight(dest: array<byte>, op: nat, offset: nat) returns (distance: nat)
    requires offset <= op && op + 8 <= dest.Length
    modifies dest
    ensures dest[..op] == old(dest[..op]) && forall k :: op + 8 <= k < dest.Length ==> dest[k] == old(dest[k])
    ensures 0 < distance <= op + 8
    ensures offset > 0 ==> Periodic(dest[..], op, op + 8, offset)
    ensures offset > 0 ==> 8 <= distance <= 8 + offset && Multiple(distance, offset)
  {
    if offset < STEPSIZE {
      if offset > 0 { Corrections(offset); }
      CopyFour(dest, op, offset);
      var ref := op - offset + 4 - DEC32[offset];
      ghost var four := dest[..];
      CopyWord(dest, op + 4, ref);
      if offset > 0 {
        PeriodKept(four, dest[..], op, op + 4, offset);
        PeriodContinues(dest[..], op, op + 4, op + 8, offset, offset + DEC32[offset]);
      }
      assert dest[..op] == dest[..op + 4][..op];
      ref := ref - DEC64[offset];
      distance := op + 8 - ref;
    } else {
      forall i | 0 <= i < 8 { dest[op + i] := dest[op - offset + i]; }
      distance := offset;
    }
  }

  lemma PeriodKept(c: seq<byte>, c': seq<byte>, from: nat, to: nat, period: nat)
    requires Periodic(c, from, to, period) && to <= |c'| && c'[..to] == c[..to]
    ensures Periodic(c', from, to, period)
  {
    forall k | from <= k < to ensures c'[k] == c'[k - period] {
      assert c'[k] == c'[..to][k] && c'[k - period] == c'[..to][k - period];
    }
  }

  /** The words after the first eight octets, up to `cpy`; near the end of the buffer words stop
      COPYLENGTH short of it and the rest goes octet by octet. */
  method CopyRest(dest: array<byte>, op0: nat, distance: nat, cpy: nat, size: nat)
    requires 0 < distance <= op0 <= size - 4 && op0 <= cpy + 4 && cpy <= size - LASTLITERALS && size <= dest.Length
    modifies dest
    ensures dest[..op0] == old(dest[..op0]) && forall k :: size <= k < dest.Length ==> dest[k] == old(dest[k])
    ensures distance >= 8 && op0 <= cpy ==> Periodic(dest[..], op0, cpy, distance)
  {
    var op := op0;
    if cpy > size - COPYLENGTH - (STEPSIZE - 4) {
      if op < size - COPYLENGTH { op := WildCopy(dest, op, op - distance, size - COPYLENGTH); }
      while op < cpy
        invariant op0 <= op <= size
        invariant dest[..op0] == old(dest[..op0]) && forall k :: size <= k < dest.Length ==> dest[k] == old(dest[k])
        invariant distance >= 8 ==> Periodic(dest[..], op0, op, distance)
      {
        dest[op] := dest[op - distance];
        op := op + 1;
      }
    } else {
      op := WildCopy(dest, op, op - distance, cpy);
    }
  }

  /** The match copy. It reports an overrun of the last literals, and otherwise leaves what copying
      octet by octet would have left. */
  method CopyRepeated(dest: array<byte>, op0: nat, offset: nat, len: nat, size: nat) returns (ok: bool)
    requires offset <= op0 <= size - MFLIMIT && size <= dest.Length
    modifies dest
    ensures forall k :: size <= k < dest.Length ==> dest[k] == old(dest[k])
    ensures ok <==> op0 + len + MINMATCH <= size - LASTLITERALS
    ensures ok && offset > 0 ==> dest[..op0 + len + MINMATCH] == CopyMatch(old(dest[..op0]), offset, len + MINMATCH)
  {
    var distance := FirstEight(dest, op0, offset);
    var cpy := op0 + len + MINMATCH;
    if cpy > size - LASTLITERALS { return false; }
    ok := true;
    ghost var eight := dest[..];
    CopyRest(dest, op0 + 8, distance, cpy, size);
    if offset > 0 {
      PeriodKept(eight, dest[..], op0, op0 + 8, offset);
      if op0 + 8 <= cpy { PeriodContinues(dest[..], op0, op0 + 8, cpy, offset, distance); }
      assert dest[..cpy][..op0] == dest[..op0 + 8][..op0] == old(dest[..op0]);
      PeriodicIsCopy(old(dest[..op0]), dest[..cpy], offset, len + MINMATCH);
    }
  }

  // ---------- Decompression ----------

  /** A length: continued while octets of 255 are read, no further than `stop`. */
  method Length(src: seq<byte>, nibble: nat, ip0: nat, stop: int) returns (length: nat, ip: nat)
    requires ip0 <= |src| && stop <= |src|
    ensures ip0 <= ip <= |src| && (ip0 <= stop ==> ip <= stop)
    ensures (length, ip - ip0) == ReadLength(nibble, src[ip0..], stop - ip0)
  {
    length, ip := nibble, ip0;
    if length == 15 {
      var s := 255;
      while ip < stop && s == 255
        invariant ip0 <= ip <= |src| && (ip0 <= stop ==> ip <= stop)
        invariant var r := ReadRun(src[ip0..], stop - ip0);
          if s == 255 then var t := ReadRun(src[ip..], stop - ip); r == (length - 15 + t.0, ip - ip0 + t.1)
          else r == (length - 15, ip - ip0)
      {
        assert src[ip..][0] == src[ip] && src[ip..][1..] == src[ip + 1..];
        s := src[ip];
        length, ip := length + s, ip + 1;
      }
    }
  }

  datatype Status = More | End | Bad

  /** One turn of the main loop: a token, its literals and its match. */
  method DecodeOne(src: seq<byte>, ip0: nat, dest: array<byte>, op0: nat, size: nat)
      returns (st: Status, ip: nat, op: nat)
    requires ip0 < |src| && op0 <= size <= dest.Length
    modifies dest
    ensures forall k :: size <= k < dest.Length ==> dest[k] == old(dest[k])
    ensures op <= size && (st.More? ==> ip0 < ip < |src|)
    ensures match ReadStep(src[ip0..], op0, size)
      case Broken => st == Bad
      case Last(literals) => st == End && dest[..op] == old(dest[..op0]) + literals
      case Copy(literals, offset, len, rest) =>
        if offset > op0 + |literals| || op0 + |literals| + len + MINMATCH > size - LASTLITERALS then st == Bad
        else
          && st == More && op == op0 + |literals| + len + MINMATCH && rest == src[ip..]
          && (offset > 0 ==> dest[..op] == CopyMatch(old(dest[..op0]) + literals, offset, len + MINMATCH))
  {
    hide ReadStep, ReadLength, ReadMatch, CopyMatch;
    ip, op := ip0, op0;
    var token := src[ip];
    ip := ip + 1;
    var length;
    length, ip := Length(src, token / 16, ip, |src|);
    var cpy := op + length;
    if cpy > size - MFLIMIT || ip + length > |src| - (2 + 1 + LASTLITERALS) {
      LastRead(src, ip0, ip, length, size, op0);
      if ip + length != |src| || cpy > size { return Bad, ip, op; }
      forall i | 0 <= i < length { dest[op + i] := src[ip + i]; }
      op := op + length;
      assert dest[..op] == old(dest[..op0]) + src[ip..];
      return End, ip, op;
    }
    CopyWords(src, ip, dest, op, cpy, size);
    ghost var literals := src[ip..ip + length];
    ip, op := ip + length, cpy;
    LiteralsRead(src, ip0, ip, length, size, op0);
    st, ip, op := DecodeMatch(src, ip, token % 16, dest, op, size, literals);
  }

  lemma LastRead(src: seq<byte>, ip0: nat, ip: nat, run: nat, size: nat, have: nat)
    requires ip0 < ip <= |src| && (have + run > size - MFLIMIT || ip + run > |src| - (2 + 1 + LASTLITERALS))
    requires ReadLength(src[ip0] / 16, src[ip0 + 1..], |src| - ip0 - 1) == (run, ip - ip0 - 1)
    ensures ReadStep(src[ip0..], have, size)
         == if ip + run != |src| || have + run > size then Broken else Last(src[ip..])
  {
    hide ReadLength, ReadMatch;
    var body := src[ip0..][1..];
    assert body == src[ip0 + 1..];
    assert body[ip - ip0 - 1..] == src[ip..];
  }

  lemma LiteralsRead(src: seq<byte>, ip0: nat, ip: nat, run: nat, size: nat, have: nat)
    requires ip0 < |src| && ip0 + 1 + run <= ip <= |src| - (2 + 1 + LASTLITERALS) && have + run <= size - MFLIMIT
    requires ReadLength(src[ip0] / 16, src[ip0 + 1..], |src| - ip0 - 1) == (run, ip - run - ip0 - 1)
    ensures ReadStep(src[ip0..], have, size) == ReadMatch(src[ip - run..ip], src[ip0] % 16, src[ip..])
  {
    hide ReadLength, ReadMatch;
    var body, skip := src[ip0..][1..], ip - run - ip0 - 1;
    assert body == src[ip0 + 1..];
    assert body[skip..skip + run] == src[ip - run..ip];
    assert body[skip + run..] == src[ip..];
  }

  /** Offset, match length and match copy. */
  method DecodeMatch(src: seq<byte>, ip0: nat, nibble: nat, dest: array<byte>, op0: nat, size: nat, ghost literals: seq<byte>)
      returns (st: Status, ip: nat, op: nat)
    requires ip0 + 2 + 1 + LASTLITERALS <= |src| && op0 <= size - MFLIMIT && size <= dest.Length
    modifies dest
    ensures forall k :: size <= k < dest.Length ==> dest[k] == old(dest[k])
    ensures op <= size && (st.More? ==> ip0 < ip < |src|)
    ensures var Copy(_, offset, len, rest) := ReadMatch(literals, nibble, src[ip0..]);
      if offset > op0 || op0 + len + MINMATCH > size - LASTLITERALS then st == Bad
      else
        && st == More && op == op0 + len + MINMATCH && rest == src[ip..]
        && (offset > 0 ==> dest[..op] == CopyMatch(old(dest[..op0]), offset, len + MINMATCH))
  {
    var offset: nat := src[ip0] as int + 256 * src[ip0 + 1] as int;
    ip, op := ip0 + 2, op0;
    if offset > op { return Bad, ip, op; }
    assert src[ip0..][2..] == src[ip..];
    var length;
    length, ip := Length(src, nibble, ip, |src| - (LASTLITERALS + 1));
    assert src[ip0 + 2..][ip - ip0 - 2..] == src[ip..];
    var ok := CopyRepeated(dest, op, offset, length, size);
    if !ok { return Bad, ip, op; }
    st, op := More, op + length + MINMATCH;
  }

  /** LZ4_decompress_safe: the number of octets decoded, or a negative number. Of an empty input the source reads one octet
      that is not there; being past the end by then, it refuses whatever that octet was. */
  method Decompress(src: seq<byte>, dest: array<byte>, size: nat) returns (r: int)
    requires size <= dest.Length
    modifies dest
    ensures forall k :: size <= k < dest.Length ==> dest[k] == old(dest[k])
    ensures if BlockProduced(src, size) < 0 then r < 0 else r == BlockProduced(src, size)
    ensures match DecodeBlock(src, size)
      case Decoded(output) => r == |output| && dest[..r] == output
      case Malformed => r < 0
      case ZeroOffset => true
  {
    hide ReadStep, CopyMatch;
    if |src| == 0 { return -1; }
    if size == 0 { return if |src| == 1 && src[0] == 0 then 0 else -1; }
    var ip, op := 0, 0;
    ghost var zero := false;
    assert src[0..] == src && dest[..0] == [];
    while true
      invariant 0 <= ip < |src| && 0 <= op <= size
      invariant forall k :: size <= k < dest.Length ==> dest[k] == old(dest[k])
      invariant Produced(src, 0, size) == Produced(src[ip..], op, size)
      invariant if zero then DecodeBlock(src, size) == ZeroOffset
                else DecodeBlock(src, size) == Decode(src[ip..], dest[..op], size)
      decreases |src| - ip
    {
      ghost var step := ReadStep(src[ip..], op, size);
      var st;
      st, ip, op := DecodeOne(src, ip, dest, op, size);
      if st == Bad { return -ip - 1; }
      if st == End { return op; }
      if step.offset == 0 { zero := true; }
    }
  }
}
