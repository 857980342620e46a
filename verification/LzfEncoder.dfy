/** lzf_compress (VERY_FAST, the hash table passed in and never initialised).

    `ip` and `ref` index the input, `op` indexes `dest`; the run in progress has `lit` literals, the
    last of them at `op - 1`, and its control octet, not yet written, at `op - lit - 1`. */
module LzfEncoder {
  import opened Bytes
  import opened LzfFormat

  const HSIZE := 8192

  /** FRST and NEXT: the last octets seen, in 32 bits; IDX: the slot they select. */
  function First(src: seq<byte>, p: nat): (h: nat)
    requires p + 2 <= |src|
  {
    src[p] as int * 256 + src[p + 1] as int
  }

  function Next(h: nat, src: seq<byte>, p: nat): (r: nat)
    requires p + 3 <= |src|
    ensures r < 0x1_0000_0000
  {
    (h * 256 + src[p + 2] as int) % 0x1_0000_0000
  }

  function Slot(h: nat): (r: nat)
    ensures r < HSIZE
  {
    (h / 2048 - h * 5) % HSIZE
  }

  lemma SlotKnown()
    ensures Slot(0x800) == 6145 && Slot(0x1_0000) == 32
  {
  }

  /** Length of the match at `ref`: sixteen guarded comparisons when far from the end, then a loop. */
  method MatchLength(src: seq<byte>, ref: nat, ip: nat) returns (len: nat)
    requires ref < ip && ip + 3 <= |src| && Same(src, ref, ip, 3)
    ensures 3 <= len <= MAX_REF && ip + len <= |src| && Same(src, ref, ip, len)
    ensures len < MAX_REF && ip + len < |src| - 2 ==> src[ip + len] != src[ref + len]
  {
    len := 2;
    var maxlen := if |src| - ip - len > MAX_REF then MAX_REF else |src| - ip - len;
    if maxlen > 16 {
      for i := 0 to 16
        invariant len == 2 + i && Same(src, ref, ip, len + 1)
      {
        len := len + 1;
        if src[ref + len] != src[ip + len] { return; }
      }
    }
    len := len + 1;
    while len < maxlen && src[ref + len] == src[ip + len]
      invariant 3 <= len <= MAX_REF && ip + len <= |src| && Same(src, ref, ip, len)
    {
      len := len + 1;
    }
  }

  /** The run in progress: what is committed produces the input before it, and has grown by at most
      one octet in 32. */
  ghost predicate Running(src: seq<byte>, ip: nat, lit: nat, dest: seq<byte>, base: nat, op: nat, size: nat)
  {
    && lit < MAX_LIT && lit <= ip <= |src| <= size && base + lit + 1 <= op
    && op - 1 <= |dest| && (lit > 0 ==> op <= |dest|)
    && Produces(dest[base..op - lit - 1], src[..ip - lit], size)
    && (lit > 0 ==> dest[op - lit..op] == src[ip - lit..ip])
    && 32 * (op - lit - 1 - base) <= 33 * (ip - lit)
  }

  /** The committed stream once the run is closed: its control octet precedes its literals. */
  lemma CloseRun(src: seq<byte>, ip: nat, lit: nat, dest: seq<byte>, dest': seq<byte>, base: nat, op: nat, size: nat)
    requires 0 < lit <= MAX_LIT && lit <= ip <= |src| <= size && base + lit + 1 <= op <= |dest| == |dest'|
    requires Produces(dest[base..op - lit - 1], src[..ip - lit], size)
    requires dest[op - lit..op] == src[ip - lit..ip]
    requires dest' == dest[op - lit - 1 := lit - 1]
    ensures Produces(dest'[base..op], src[..ip], size)
  {
    hide Produces;
    var c := op - lit - 1;
    assert dest'[base..op] == dest[base..c] + RunBytes(dest[op - lit..op]);
    assert src[..ip - lit] + src[ip - lit..ip] == src[..ip];
    ProducesRun(dest[base..c], src[..ip - lit], size, src[ip - lit..ip]);
  }

  /** Add one literal; a full run is closed and a new one started. */
  method AddLiteral(src: seq<byte>, ip0: nat, lit0: nat, dest: array<byte>, base: nat, op0: nat, oend: nat, ghost size: nat)
      returns (ip: nat, lit: nat, op: nat)
    requires ip0 < |src| && base < op0 < oend <= dest.Length
    requires Running(src, ip0, lit0, dest[..], base, op0, size)
    modifies dest
    ensures forall k :: (0 <= k < base || oend <= k < dest.Length) ==> dest[k] == old(dest[k])
    ensures ip == ip0 + 1
    ensures if lit0 + 1 == MAX_LIT then lit == 0 && op == op0 + 2 else lit == lit0 + 1 && op == op0 + 1
    ensures Running(src, ip, lit, dest[..], base, op, size)
  {
    hide Produces;
    ghost var was := dest[..];
    dest[op0] := src[ip0];
    ip, lit, op := ip0 + 1, lit0 + 1, op0 + 1;
    ghost var mid := dest[..];
    assert mid[base..op - lit - 1] == was[base..op - lit - 1];
    assert mid[op - lit..op] == src[ip - lit..ip] by {
      if lit0 > 0 { assert mid[op - lit..op0] == was[op - lit..op0] == src[ip - lit..ip0]; }
    }
    if lit == MAX_LIT {
      dest[op - lit - 1] := lit - 1;
      CloseRun(src, ip, lit, mid, dest[..], base, op, size);
      lit, op := 0, op + 1;
    }
  }

  /** Stop the run; a run of no literals is undone. */
  method StopRun(src: seq<byte>, ip: nat, lit: nat, dest: array<byte>, base: nat, op0: nat, ghost size: nat) returns (op: nat)
    requires Running(src, ip, lit, dest[..], base, op0, size) && op0 <= dest.Length
    modifies dest
    ensures forall k :: (0 <= k < base || op0 <= k < dest.Length) ==> dest[k] == old(dest[k])
    ensures op == (if lit == 0 then op0 - 1 else op0) && Produces(dest[base..op], src[..ip], size)
    ensures 32 * (op - base) <= 33 * ip + (if lit == 0 then 0 else 32 - lit)
  {
    hide Produces;
    ghost var was := dest[..];
    dest[op0 - lit - 1] := (lit - 1) % 256;
    op := if lit == 0 then op0 - 1 else op0;
    if lit == 0 {
      assert dest[base..op] == was[base..op];
    } else {
      CloseRun(src, ip, lit, was, dest[..], base, op, size);
    }
  }

  /** Write a copy of `octets` from `off + 1` back. */
  method PutCopy(off: nat, octets: nat, dest: array<byte>, op0: nat) returns (op: nat)
    requires off < MAX_OFF && 3 <= octets <= MAX_REF && op0 + 3 <= dest.Length
    modifies dest
    ensures forall k :: (0 <= k < op0 || op <= k < dest.Length) ==> dest[k] == old(dest[k])
    ensures op == op0 + |CopyBytes(off, octets)| && dest[op0..op] == CopyBytes(off, octets)
  {
    var len := octets - 2;
    op := op0;
    if len < 7 {
      dest[op] := off / 256 + len * 32;
      op := op + 1;
    } else {
      dest[op], dest[op + 1] := off / 256 + 7 * 32, len - 7;
      op := op + 2;
    }
    dest[op] := off % 256;
    op := op + 1;
  }

  /** A match at `ref`: close the run, write the copy, start a run. Fails when room is short. */
  method AddMatch(src: seq<byte>, ref: nat, ip0: nat, lit: nat, dest: array<byte>, base: nat, op0: nat, oend: nat, ghost size: nat)
      returns (ok: bool, ip: nat, op: nat)
    requires ref < ip0 && ip0 + 3 <= |src| && ip0 - ref - 1 < MAX_OFF && Same(src, ref, ip0, 3)
    requires Running(src, ip0, lit, dest[..], base, op0, size) && oend <= dest.Length
    modifies dest
    ensures forall k :: (0 <= k < base || oend <= k < dest.Length) ==> dest[k] == old(dest[k])
    ensures !ok <==> op0 - (if lit == 0 then 1 else 0) + 3 + 1 >= oend
    ensures ok ==> ip0 + 3 <= ip <= |src| && base < op < oend && Running(src, ip, 0, dest[..], base, op, size)
    ensures ok ==> op <= op0 - (if lit == 0 then 1 else 0) + 4
    ensures ok && ip < ip0 + MAX_REF && ip < |src| - 2 ==> src[ip] != src[ip - (ip0 - ref)]
  {
    hide Produces, CopyBytes, CopyMatch;
    ip, op := ip0, op0;
    if op + 3 + 1 >= oend {
      if op - (if lit == 0 then 1 else 0) + 3 + 1 >= oend { return false, ip, op; }
    }
    ok := true;
    var off := ip - ref - 1;
    op := StopRun(src, ip, lit, dest, base, op, size);
    ghost var block, end := dest[base..op], op;
    var octets := MatchLength(src, ref, ip);
    op := PutCopy(off, octets, dest, op);
    assert dest[base..end] == block;
    assert dest[base..op] == dest[base..end] + dest[end..op];
    ProducesCopy(block, src[..ip], size, off, octets);
    CopyMatchIs(src, ip, off + 1, octets);
    ip, op := ip + octets, op + 1;
  }

  /** The last four octets of an input of equal octets, as the hash sees them. */
  function Four(src: seq<byte>): nat
    requires src != []
  {
    src[0] as int * 0x101_0101
  }

  /** The hash has seen as many octets as there are up to position ip, at most four. */
  predicate Settled(src: seq<byte>, ip: nat, hval: nat)
    requires src != []
  {
    hval == if ip == 0 then src[0] as int * 0x101 else if ip == 1 then src[0] as int * 0x1_0101 else Four(src)
  }

  lemma ConstantSame(src: seq<byte>, ip: nat)
    requires Constant(src) && 0 < ip && ip + 3 <= |src|
    ensures Same(src, ip - 1, ip, 3)
  {
  }

  lemma NextOf(src: seq<byte>, h: nat, p: nat)
    requires Constant(src) && p + 3 <= |src| && h in {src[0] as int * 0x101, src[0] as int * 0x1_0101, Four(src)}
    ensures First(src, p) == src[0] as int * 0x101
    ensures Next(h, src, p) == if h == src[0] as int * 0x101 then src[0] as int * 0x1_0101 else Four(src)
  {
  }

  /** VERY_FAST: remember the last two positions of the match just written. */
  method Remember(src: seq<byte>, htab: array<nat>, ip: nat) returns (hval: nat)
    requires 2 <= ip < |src| - 2 && htab.Length == HSIZE
    modifies htab
    ensures Constant(src) ==> htab[Slot(Four(src))] == (ip - 1) % 0x1_0000_0000 && Settled(src, ip, hval)
  {
    hide Slot;
    if Constant(src) {
      NextOf(src, First(src, ip - 2), ip - 2);
      NextOf(src, Next(First(src, ip - 2), src, ip - 2), ip - 1);
    }
    hval := First(src, ip - 2);
    hval := Next(hval, src, ip - 2);
    htab[Slot(hval)] := (ip - 2) % 0x1_0000_0000;
    hval := Next(hval, src, ip - 1);
    htab[Slot(hval)] := (ip - 1) % 0x1_0000_0000;
  }

  /** An input of equal octets that leaves room for what it shrinks to. */
  predicate Shrinks(src: seq<byte>, room: int) { Constant(src) && |src| >= 1 && |src| / 88 + 16 <= room }

  /** What the main loop makes of it: two literals, and then copies of 264 octets as long as there are so many. */
  predicate Tiny(n: nat, ip: nat, lit: nat, size: int) {
    if ip <= 2 then lit == ip && size == ip + 1
    else lit == 0 && 264 * (size - 4) <= 3 * ip + 792 && (ip < n - 2 ==> 264 * (size - 4) <= 3 * (ip - 2))
  }

  lemma TinyCopy(n: nat, ip: nat, lit: nat, size: int, ip': nat, size': int)
    requires Tiny(n, ip, lit, size) && 2 <= ip < n - 2 && ip + 3 <= ip' <= n && (ip' >= ip + 264 || ip' >= n - 2)
    requires size' <= size - (if lit == 0 then 1 else 0) + 4
    ensures Tiny(n, ip', 0, size')
  {
  }

  lemma TinyLiteral(n: nat, ip: nat, lit: nat, size: int)
    requires Tiny(n, ip, lit, size) && ip < 2
    ensures lit == ip && Tiny(n, ip + 1, lit + 1, size + 1)
  {
  }

  lemma TinySize(n: nat, ip: nat, lit: nat, size: int)
    requires Tiny(n, ip, lit, size) && ip <= n
    ensures size <= n / 88 + 7
  {
  }

  /** For such an input: what the table knows of it. */
  ghost predicate Knows(src: seq<byte>, htab: array<nat>, ip: nat, hval: nat)
    requires src != [] && htab.Length == HSIZE
    reads htab
  {
    Settled(src, ip, hval) && (ip >= 2 ==> htab[Slot(Four(src))] == ip - 1)
  }

  lemma ShortOfRoom(src: seq<byte>, ip: nat, lit: nat, dest: seq<byte>, base: nat, op: nat, oend: nat)
    requires Running(src, ip, lit, dest, base, op, |src|) && ip < |src| - 2 && op + 4 >= oend
    ensures oend - base < |src| + |src| / 32 + 4
  {
    hide Produces;
  }

  /** Before the third octet there is nothing to copy from; after it the octet before is always known. */
  lemma KnownPlace(src: seq<byte>, htab: array<nat>, ip: nat, hval: nat)
    requires Constant(src) && ip < |src| - 2 && htab.Length == HSIZE && Knows(src, htab, ip, hval)
    ensures ip >= 1 ==> Next(hval, src, ip) == Four(src)
    ensures Settled(src, ip + 1, Next(hval, src, ip))
    ensures ip >= 2 ==> htab[Slot(Next(hval, src, ip))] == ip - 1 && Same(src, ip - 1, ip, 3)
  {
    hide Slot, Next, First;
    NextOf(src, hval, ip);
    if ip >= 2 { ConstantSame(src, ip); }
  }

  /** A turn with a match at `ref`. */
  method CopyTurn(src: seq<byte>, htab: array<nat>, dest: array<byte>, base: nat, oend: nat,
                  ref: nat, ip0: nat, lit0: nat, op0: nat, hval0: nat)
      returns (ok: bool, ip: nat, op: nat, hval: nat)
    requires ip0 < |src| - 2 && |src| < 0x1_0000_0000 && htab.Length == HSIZE && base < op0 && oend <= dest.Length
    requires ref < ip0 && ip0 - ref - 1 < MAX_OFF && Same(src, ref, ip0, 3)
    requires Running(src, ip0, lit0, dest[..], base, op0, |src|)
    modifies htab, dest
    ensures forall k :: (0 <= k < base || oend <= k < dest.Length) ==> dest[k] == old(dest[k])
    ensures !ok ==> oend - base < |src| + |src| / 32 + 4
    ensures ok ==> ip0 < ip <= |src| && base < op <= oend && Running(src, ip, 0, dest[..], base, op, |src|)
    ensures Shrinks(src, oend - base) && Tiny(|src|, ip0, lit0, op0 - base) && ip0 >= 2 ==>
      ok && Tiny(|src|, ip, 0, op - base) && (ip < |src| - 2 ==> Knows(src, htab, ip, hval))
  {
    hide Slot, Next, First, Constant, Four, Running, Tiny, Settled;
    ghost var shrinks := Shrinks(src, oend - base) && Tiny(|src|, ip0, lit0, op0 - base) && ip0 >= 2;
    hval := hval0;
    ok, ip, op := AddMatch(src, ref, ip0, lit0, dest, base, op0, oend, |src|);
    if shrinks { TinySize(|src|, ip0, lit0, op0 - base); }
    if !ok {
      ShortOfRoom(src, ip0, lit0, old(dest[..]), base, op0, oend);
      return;
    }
    if shrinks {
      if ip < ip0 + MAX_REF && ip < |src| - 2 { ConstantAt(src, ip, ip - (ip0 - ref)); }
      TinyCopy(|src|, ip0, lit0, op0 - base, ip, op - base);
    }
    if ip < |src| - 2 { hval := Remember(src, htab, ip); }
  }

  /** One turn of the main loop: a match if the table has one, else a literal. */
  method Turn(src: seq<byte>, htab: array<nat>, dest: array<byte>, base: nat, oend: nat,
              ip0: nat, lit0: nat, op0: nat, hval0: nat)
      returns (ok: bool, ip: nat, lit: nat, op: nat, hval: nat)
    requires ip0 < |src| - 2 && |src| < 0x1_0000_0000 && htab.Length == HSIZE && base < op0 <= oend + 1 <= dest.Length + 1
    requires Running(src, ip0, lit0, dest[..], base, op0, |src|)
    modifies htab, dest
    ensures forall k :: (0 <= k < base || oend <= k < dest.Length) ==> dest[k] == old(dest[k])
    ensures !ok ==> oend - base < |src| + |src| / 32 + 4
    ensures ok ==> ip0 < ip <= |src| && base < op <= oend + 1 && Running(src, ip, lit, dest[..], base, op, |src|)
    ensures Shrinks(src, oend - base) && Tiny(|src|, ip0, lit0, op0 - base) && old(Knows(src, htab, ip0, hval0)) ==>
      ok && Tiny(|src|, ip, lit, op - base) && (ip < |src| - 2 ==> Knows(src, htab, ip, hval))
  {
    hide Slot, Next, First, Constant, Four, Running, Tiny, Settled;
    ghost var shrinks := Shrinks(src, oend - base) && Tiny(|src|, ip0, lit0, op0 - base) && Knows(src, htab, ip0, hval0);
    if shrinks { KnownPlace(src, htab, ip0, hval0); }
    ok, ip, lit, op := false, ip0, lit0, op0;
    hval := Next(hval0, src, ip);
    var ref := htab[Slot(hval)];
    htab[Slot(hval)] := ip % 0x1_0000_0000;
    if ref < ip && ip - ref - 1 < MAX_OFF && ref > 0 && Same(src, ref, ip, 3) {
      ok, ip, op, hval := CopyTurn(src, htab, dest, base, oend, ref, ip, lit, op, hval);
      lit := 0;
    } else {
      if shrinks {
        TinyLiteral(|src|, ip0, lit0, op0 - base);
        TinySize(|src|, ip0, lit0, op0 - base);
      }
      if op >= oend {
        ShortOfRoom(src, ip0, lit0, old(dest[..]), base, op0, oend);
        return;
      }
      ip, lit, op := AddLiteral(src, ip, lit, dest, base, op, oend, |src|);
      ok := true;
    }
  }

  /** The main loop, up to the last two octets. */
  method Scan(src: seq<byte>, htab: array<nat>, dest: array<byte>, base: nat, oend: nat)
      returns (ok: bool, ip: nat, lit: nat, op: nat)
    requires 1 <= |src| < 0x1_0000_0000 && htab.Length == HSIZE && base < oend <= dest.Length
    modifies htab, dest
    ensures forall k :: (0 <= k < base || oend <= k < dest.Length) ==> dest[k] == old(dest[k])
    ensures !ok ==> oend - base < |src| + |src| / 32 + 4
    ensures ok ==> |src| - 2 <= ip && base < op <= oend + 1 && Running(src, ip, lit, dest[..], base, op, |src|)
    ensures Shrinks(src, oend - base) ==> ok && ip <= |src| && Tiny(|src|, ip, lit, op - base)
  {
    hide Slot, Next, First, Constant, Four, Running;
    ip, lit, op := 0, 0, base + 1;
    StartRunning(src, dest[..], base);
    if Constant(src) && |src| >= 3 { NextOf(src, Four(src), 0); }
    var hval: nat := if |src| >= 2 then First(src, ip) else 0;
    while ip < |src| - 2
      invariant 0 <= ip <= |src| && base < op <= oend + 1
      invariant Running(src, ip, lit, dest[..], base, op, |src|)
      invariant forall k :: (0 <= k < base || oend <= k < dest.Length) ==> dest[k] == old(dest[k])
      invariant Shrinks(src, oend - base) ==>
        Tiny(|src|, ip, lit, op - base) && (ip < |src| - 2 ==> Knows(src, htab, ip, hval))
      decreases |src| - ip
    {
      ok, ip, lit, op, hval := Turn(src, htab, dest, base, oend, ip, lit, op, hval);
      if !ok { return; }
    }
    ok := true;
  }

  lemma StartRunning(src: seq<byte>, dest: seq<byte>, base: nat)
    requires base < |dest|
    ensures Running(src, 0, 0, dest, base, base + 1, |src|)
  {
    ProducesNothing(|src|);
    assert dest[base..base] == [] && src[..0] == [];
  }

  /** The last two octets as literals, and the last control octet. */
  method Finish(src: seq<byte>, ip0: nat, lit0: nat, dest: array<byte>, base: nat, op0: nat, oend: nat) returns (n: nat)
    requires |src| - 2 <= ip0 && base < op0 && op0 + 3 <= oend <= dest.Length
    requires Running(src, ip0, lit0, dest[..], base, op0, |src|) && 0 < |src|
    modifies dest
    ensures forall k :: (0 <= k < base || oend <= k < dest.Length) ==> dest[k] == old(dest[k])
    ensures 0 < n <= |src| + |src| / 32 + 1 && base + n <= oend && n <= op0 - base + (|src| - ip0) + 1
    ensures Decode(dest[base..base + n], [], |src|) == Decoded(src)
  {
    hide Produces, Decode;
    var ip, lit, op := ip0, lit0, op0;
    while ip < |src|
      invariant 0 <= ip <= |src| && base < op && 0 <= lit
      invariant op - op0 <= ip - ip0 + 1 && (op - op0 == ip - ip0 + 1 ==> lit + (|src| - ip) < MAX_LIT)
      invariant |src| - ip <= 2 && op + (|src| - ip) + (if lit + (|src| - ip) >= MAX_LIT then 1 else 0) <= oend
      invariant Running(src, ip, lit, dest[..], base, op, |src|)
      invariant forall k :: (0 <= k < base || oend <= k < dest.Length) ==> dest[k] == old(dest[k])
    {
      ip, lit, op := AddLiteral(src, ip, lit, dest, base, op, oend, |src|);
    }
    op := StopRun(src, ip, lit, dest, base, op, |src|);
    n := op - base;
    assert src[..ip] == src;
    ProducesDecodes(dest[base..op], src, |src|);
    if n == 0 {
      assert dest[base..op] == [];
      EmptyStream(src, |src|);
    }
  }

  lemma EmptyStream(out: seq<byte>, size: nat)
    requires |out| <= size && Decode([], [], size) == Decoded(out)
    ensures out == []
  {
  }

  /** lzf_compress into `dest[base..base + room]`.

      Whatever the table held, a non-zero result is the size of a stream that decodes to the input; it
      exceeds the input by at most one octet in 32 and one more; and a room four octets above that
      proportion is always enough. An input of equal octets shrinks to one octet in 88 and at most ten more. Of a one-octet input the source also reads the octet behind it, and uses it for nothing. */
  method Compress(src: seq<byte>, htab: array<nat>, dest: array<byte>, base: nat, room: nat) returns (n: nat)
    requires |src| < 0x1_0000_0000 && htab.Length == HSIZE && base + room <= dest.Length
    modifies htab, dest
    ensures forall k :: (0 <= k < base || base + room <= k < dest.Length) ==> dest[k] == old(dest[k])
    ensures n <= room && n <= |src| + |src| / 32 + 1
    ensures n > 0 ==> Decode(dest[base..base + n], [], |src|) == Decoded(src)
    ensures |src| >= 1 && room >= |src| + |src| / 32 + 4 ==> n > 0
    ensures Shrinks(src, room) ==> 0 < n <= |src| / 88 + 10
  {
    hide Running, Decode, Constant, Tiny;
    if |src| == 0 || room == 0 { return 0; }
    var oend := base + room;
    var ok, ip, lit, op := Scan(src, htab, dest, base, oend);
    if !ok { return 0; }
    if Shrinks(src, room) { TinySize(|src|, ip, lit, op - base); }
    ScanSize(src, ip, lit, dest[..], base, op);
    if op + 3 > oend { return 0; }
    n := Finish(src, ip, lit, dest, base, op, oend);
  }

  lemma ScanSize(src: seq<byte>, ip: nat, lit: nat, dest: seq<byte>, base: nat, op: nat)
    requires Running(src, ip, lit, dest, base, op, |src|)
    ensures op - base <= |src| + |src| / 32 + 1
  {
    hide Produces;
  }
}
