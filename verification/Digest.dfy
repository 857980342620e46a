/** The streaming message digest collector of md32_common.h, as instantiated for SHA-256: 64-octet blocks,
    big-endian, a 64-bit bit count kept in two 32-bit halves. The block function is a parameter. */
module Digest {
  import opened Arithmetic
  import opened Bytes

  const CBLOCK := 64
  const WORD := 0x1_0000_0000

  // ---------- What is computed ----------

  /** The block function applied to whole blocks in turn. */
  function Fold<H>(f: (H, seq<byte>) -> H, h: H, data: seq<byte>): H
    requires |data| % CBLOCK == 0
    decreases |data|
  {
    if data == [] then h else Fold(f, f(h, data[..CBLOCK]), data[CBLOCK..])
  }

  lemma {:induction false} FoldAppend<H>(f: (H, seq<byte>) -> H, h: H, a: seq<byte>, b: seq<byte>)
    requires |a| % CBLOCK == 0 && |b| % CBLOCK == 0
    ensures Fold(f, h, a + b) == Fold(f, Fold(f, h, a), b)
    decreases |a|
  {
    if a == [] {
      assert a + b == b;
    } else {
      assert (a + b)[..CBLOCK] == a[..CBLOCK] && (a + b)[CBLOCK..] == a[CBLOCK..] + b;
      FoldAppend(f, f(h, a[..CBLOCK]), a[CBLOCK..], b);
    }
  }

  /** The first block is digested first. */
  lemma FoldBlock<H>(f: (H, seq<byte>) -> H, h: H, block: seq<byte>, rest: seq<byte>)
    requires |block| == 64 && |rest| % 64 == 0
    ensures Fold(f, h, block + rest) == Fold(f, f(h, block), rest) && Fold(f, h, []) == h
  {
    assert (block + rest)[..64] == block && (block + rest)[64..] == rest;
  }

  function Zeros(n: nat): (r: seq<byte>) ensures |r| == n { seq(n, i => 0) }

  function BigEndian32(v: nat): (r: seq<byte>)
    requires v < WORD
    ensures |r| == 4
  {
    [v / 0x100_0000, v / 0x1_0000 % 256, v / 256 % 256, v % 256]
  }

  /** Zero octets after the 0x80: the fewest that leave 8 octets in the last block. */
  function ZeroCount(n: nat): (k: nat)
    ensures (n + 1 + k + 8) % CBLOCK == 0 && k < CBLOCK
  {
    (119 - n % CBLOCK) % CBLOCK
  }

  lemma FewestZeros(n: nat, k: nat)
    requires (n + 1 + k + 8) % CBLOCK == 0
    ensures ZeroCount(n) <= k
  {
    var z := ZeroCount(n);
    var a, b := (n + 1 + k + 8) / CBLOCK, (n + 1 + z + 8) / CBLOCK;
    assert k - z == CBLOCK * (a - b);
  }

  /** The padded message: a one bit, zeros, and the length in bits modulo 2^64 as two words. */
  function Padded(m: seq<byte>): (r: seq<byte>)
    ensures |r| % CBLOCK == 0
  {
    var bits := 8 * |m| % (WORD * WORD);
    m + [0x80] + Zeros(ZeroCount(|m|)) + BigEndian32(bits / WORD) + BigEndian32(bits % WORD)
  }

  /** Octets as a number, the most significant first. */
  function Value(s: seq<byte>): nat {
    if s == [] then 0 else Value(s[..|s| - 1]) * 256 + s[|s| - 1]
  }

  /** Padding as section 5.1.1 of FIPS 180-4 has it, for whole octets: the message, a one bit, the fewest zeros that complete
      a block, and the length in bits in the last 64 bits, the most significant first. */
  ghost predicate IsPadded(m: seq<byte>, r: seq<byte>) {
    var n, k := |m|, |r| - 8;
    && |r| % 64 == 0 && n + 9 <= |r| < n + 9 + 64
    && r[..n] == m && r[n] == 0x80 && (forall i :: n < i < k ==> r[i] == 0)
    && Value(r[k..]) == 8 * n % 0x1_0000_0000_0000_0000
  }

  lemma {:induction false} SameValue(a: seq<byte>, b: seq<byte>)
    requires |a| == |b| && Value(a) == Value(b)
    ensures a == b
  {
    if a != [] {
      var k := |a| - 1;
      Parts(a[k], Value(a[..k]), 256);
      Parts(b[k], Value(b[..k]), 256);
      SameValue(a[..k], b[..k]);
      assert a == a[..k] + [a[k]] && b == b[..k] + [b[k]];
    }
  }

  lemma OneOctet(s: seq<byte>, a: byte)
    ensures Value(s + [a]) == Value(s) * 256 + a
  {
    assert (s + [a])[..|s|] == s;
  }

  lemma FourOctets(s: seq<byte>, a: byte, b: byte, c: byte, d: byte)
    ensures Value(s + [a, b, c, d]) == (((Value(s) * 256 + a) * 256 + b) * 256 + c) * 256 + d
  {
    hide Value;
    OneOctet(s, a);
    OneOctet(s + [a], b);
    OneOctet(s + [a] + [b], c);
    OneOctet(s + [a] + [b] + [c], d);
    assert s + [a] + [b] + [c] + [d] == s + [a, b, c, d];
  }

  lemma Digits(v: nat)
    requires v < WORD
    ensures v == ((v / 0x100_0000 * 256 + v / 0x1_0000 % 256) * 256 + v / 256 % 256) * 256 + v % 256
  {
  }

  lemma Shifted(x: int, a: int, b: int, c: int, d: int)
    ensures (((x * 256 + a) * 256 + b) * 256 + c) * 256 + d == x * WORD + (((a * 256 + b) * 256 + c) * 256 + d)
  {
  }

  lemma WordValue(s: seq<byte>, v: nat)
    requires v < WORD
    ensures Value(s + BigEndian32(v)) == Value(s) * WORD + v
  {
    hide Value;
    var a, b, c, d := v / 0x100_0000, v / 0x1_0000 % 256, v / 256 % 256, v % 256;
    FourOctets(s, a, b, c, d);
    Shifted(Value(s), a, b, c, d);
    Digits(v);
  }

  /** The octets that are digested are the padded message of the standard, and no others. */
  lemma PaddedIs(m: seq<byte>, r: seq<byte>)
    ensures r == Padded(m) <==> IsPadded(m, r)
  {
    hide Value, BigEndian32;
    var p, n := Padded(m), |m|;
    var bits, k := 8 * n % (WORD * WORD), |p| - 8;
    var tail := BigEndian32(bits / WORD) + BigEndian32(bits % WORD);
    assert p[k..] == tail && p[..k] == m + [0x80] + Zeros(ZeroCount(n));
    LengthValue(bits);
    assert IsPadded(m, p);
    if IsPadded(m, r) {
      OneLength(n, |r|, |p|);
      SameValue(r[k..], p[k..]);
      assert forall i :: 0 <= i < k ==> r[i] == p[i] by {
        assert forall i :: 0 <= i < n ==> r[i] == r[..n][i];
      }
      assert r == r[..k] + r[k..] && p == p[..k] + p[k..];
    }
  }

  lemma LengthValue(bits: nat)
    requires bits < WORD * WORD
    ensures Value(BigEndian32(bits / WORD) + BigEndian32(bits % WORD)) == bits
  {
    hide BigEndian32;
    WordValue([], bits / WORD);
    WordValue(BigEndian32(bits / WORD), bits % WORD);
    assert [] + BigEndian32(bits / WORD) == BigEndian32(bits / WORD);
  }

  lemma OneLength(n: nat, a: nat, b: nat)
    requires a % 64 == 0 && b % 64 == 0 && n + 9 <= a < n + 9 + 64 && n + 9 <= b < n + 9 + 64
    ensures a == b
  {
  }

  // ---------- The length counter ----------

  /** The two words hold the length in bits modulo 2^64. */
  ghost predicate Bits(nh: nat, nl: nat, len: nat) {
    nh < WORD && nl < WORD && nh * WORD + nl == 8 * len % (WORD * WORD)
  }

  /** The low word after `more` octets; a carry out of it shows as a wrap-around. */
  function Low(nl: nat, more: nat): nat { (nl + more % WORD * 8 % WORD) % WORD }

  function High(nh: nat, nl: nat, more: nat): nat {
    (nh + (if Low(nl, more) < nl then 1 else 0) + more / 0x2000_0000 % WORD) % WORD
  }

  lemma LowIs(nl: nat, more: nat)
    requires nl < WORD
    ensures Low(nl, more) < WORD
    ensures nl + 8 * (more % 0x2000_0000) == (if Low(nl, more) < nl then WORD else 0) + Low(nl, more)
  {
    assert more % WORD * 8 % WORD == 8 * (more % 0x2000_0000);
  }

  lemma Wrap(x: nat, y: nat, unit: nat)
    requires unit > 0
    ensures (x + y % unit) % unit == (x + y) % unit
  {
    var r := x + y % unit;
    Parts(r % unit, r / unit + y / unit, unit);
    assert x + y == r % unit + (r / unit + y / unit) * unit;
  }

  lemma Halves(top: nat, low: nat)
    requires low < WORD
    ensures top % WORD * WORD + low == (top * WORD + low) % (WORD * WORD)
  {
    Parts(top % WORD * WORD + low, top / WORD, WORD * WORD);
    assert top * WORD + low == (top % WORD * WORD + low) + top / WORD * (WORD * WORD);
  }

  /** The two words stand for the total length after any number of updates. */
  lemma BitsMore(nh: nat, nl: nat, len: nat, more: nat)
    requires Bits(nh, nl, len)
    ensures Bits(High(nh, nl, more), Low(nl, more), len + more)
  {
    hide Low;
    LowIs(nl, more);
    var low, q := Low(nl, more), more / 0x2000_0000;
    var carry := if low < nl then 1 else 0;
    Wrap(nh + carry, q, WORD);
    Halves(nh + carry + q, low);
    assert (nh + carry + q) * WORD + low == nh * WORD + nl + 8 * more;
    Wrap(8 * more, 8 * len, WORD * WORD);
  }

  lemma PaddedWith(m: seq<byte>, nh: nat, nl: nat)
    requires Bits(nh, nl, |m|)
    ensures Padded(m) == m + ([0x80] + Zeros(ZeroCount(|m|)) + (BigEndian32(nh) + BigEndian32(nl)))
  {
    Parts(nl, nh, WORD);
  }

  // ---------- The collector ----------

  class Context<H> {
    const f: (H, seq<byte>) -> H
    const iv: H
    var h: H
    var nl: nat
    var nh: nat
    var num: nat
    const data: array<byte>

    /** The blocks of `m` are digested and its remainder is in the buffer. */
    ghost predicate Buffers(m: seq<byte>)
      reads this`h, this`num, data
    {
      && data.Length == CBLOCK && num == |m| % CBLOCK && data[..num] == m[|m| - num..]
      && h == Fold(f, iv, m[..|m| - num])
    }

    /** The context stands for the message `m`. */
    ghost predicate Collects(m: seq<byte>)
      reads this, data
    {
      Buffers(m) && Bits(nh, nl, |m|)
    }

    constructor (f: (H, seq<byte>) -> H, iv: H)
      ensures Collects([]) && this.f == f && this.iv == iv && fresh(data)
    {
      this.f, this.iv, h, nl, nh, num := f, iv, iv, 0, 0, 0;
      data := new byte[CBLOCK](i => 0);
    }

    /** HASH_BLOCK_DATA_ORDER on whole blocks. */
    method Blocks(blocks: seq<byte>)
      requires |blocks| % CBLOCK == 0
      modifies this`h
      ensures h == Fold(f, old(h), blocks)
    {
      var i := 0;
      while i < |blocks|
        invariant 0 <= i <= |blocks| && i % CBLOCK == 0
        invariant Fold(f, old(h), blocks) == Fold(f, h, blocks[i..])
      {
        assert blocks[i..][..CBLOCK] == blocks[i..i + CBLOCK] && blocks[i..][CBLOCK..] == blocks[i + CBLOCK..];
        h := f(h, blocks[i..i + CBLOCK]);
        i := i + CBLOCK;
      }
    }

    /** HASH_UPDATE: the context stands for the message with `input` appended, however it is cut. */
    method Update(input: seq<byte>, ghost m: seq<byte>)
      requires Collects(m) && |input| < WORD * WORD
      modifies this, data
      ensures Collects(m + input)
    {
      hide Fold, Bits;
      Count(|input|, |m|);
      var rest := input;
      if num != 0 {
        var room := CBLOCK - num;
        if |input| < CBLOCK && |input| + num < CBLOCK {
          Append(input, m);
          return;
        }
        FillBlock(input, m);
        rest := input[room..];
        assert m + input == (m + input[..room]) + rest;
        DigestRest(rest, m + input[..room]);
      } else {
        assert m[..|m|] == m;
        DigestRest(rest, m);
      }
    }

    /** The two words of the length; the carry out of the low one shows as a wrap-around. */
    method Count(more: nat, ghost len: nat)
      requires Bits(nh, nl, len)
      modifies this`nh, this`nl
      ensures Bits(nh, nl, len + more)
    {
      hide Bits;
      BitsMore(nh, nl, len, more);
      var l := Low(nl, more);
      nh := High(nh, nl, more);
      nl := l;
    }

    /** An input that does not complete the buffered block is only stored. */
    method Append(input: seq<byte>, ghost m: seq<byte>)
      requires Buffers(m) && num + |input| < CBLOCK
      modifies this`num, data
      ensures Buffers(m + input)
    {
      hide Fold;
      var n := num;
      forall i | 0 <= i < |input| { data[n + i] := input[i]; }
      num := n + |input|;
      assert (m + input)[..|m| - n] == m[..|m| - n];
      assert data[..num] == m[|m| - n..] + input == (m + input)[|m| - n..];
    }

    /** Complete the buffered block and digest it; the buffer is zeroed. */
    method FillBlock(input: seq<byte>, ghost m: seq<byte>)
      requires Buffers(m) && 0 < num && num + |input| >= CBLOCK
      modifies this`h, this`num, data
      ensures num == 0 && h == Fold(f, iv, m + input[..CBLOCK - old(num)])
    {
      hide Fold;
      var n := num;
      ghost var head := m[..|m| - n];
      forall i | n <= i < CBLOCK { data[i] := input[i - n]; }
      ghost var block := data[..];
      Blocks(data[..]);
      FoldAppend(f, iv, head, block);
      assert block == m[|m| - n..] + input[..CBLOCK - n];
      assert head + block == m + input[..CBLOCK - n];
      num := 0;
      forall i | 0 <= i < CBLOCK { data[i] := 0; }
    }

    /** Digest the whole blocks of the rest of an input and store what remains. */
    method DigestRest(rest: seq<byte>, ghost done: seq<byte>)
      requires |done| % CBLOCK == 0 && data.Length == CBLOCK && num == 0 && h == Fold(f, iv, done)
      modifies this`h, this`num, data
      ensures Buffers(done + rest)
    {
      hide Fold;
      var n := |rest| / CBLOCK;
      var k := n * CBLOCK;
      if n > 0 {
        Blocks(rest[..k]);
        FoldAppend(f, iv, done, rest[..k]);
      }
      if k != |rest| {
        num := |rest| - k;
        forall i | 0 <= i < |rest| - k { data[i] := rest[k + i]; }
      }
      assert (done + rest)[..|done| + k] == done + rest[..k];
      assert data[..num] == rest[k..] == (done + rest)[|done| + k..];
      assert n == 0 ==> done + rest[..k] == done;
    }


    /** HASH_FINAL: the block function folded over the padded message. */
    method Final(ghost m: seq<byte>)
      requires Collects(m)
      modifies this, data
      ensures h == Fold(f, iv, Padded(m)) && num == 0
    {
      hide Fold, Padded, Bits, Zeros, Filled;
      BitsBound(nh, nl, |m|);
      ghost var done, rest := m[..|m| - num], m[|m| - num..];
      PaddedParts(m, done, rest, nh, nl);
      var n := num;
      data[n] := 0x80;
      n := n + 1;
      assert data[..n] == rest + [0x80];
      if n > CBLOCK - 8 {
        ExtraBlock(n, done, rest + [0x80]);
        n := 0;
        LastBlock(n, done + ((rest + [0x80]) + Zeros(CBLOCK - 1 - |rest|)), []);
      } else {
        LastBlock(n, done, rest + [0x80]);
      }
      num := 0;
      forall i | 0 <= i < CBLOCK { data[i] := 0; }
    }

    /** When the length does not fit behind the 0x80, a block without it comes first. */
    method ExtraBlock(n: nat, ghost done: seq<byte>, ghost tail: seq<byte>)
      requires data.Length == CBLOCK && n <= CBLOCK && data[..n] == tail
      requires |done| % CBLOCK == 0 && h == Fold(f, iv, done)
      modifies this`h, data
      ensures h == Fold(f, iv, done + (tail + Zeros(CBLOCK - n)))
    {
      hide Fold;
      forall i | n <= i < CBLOCK { data[i] := 0; }
      assert data[..] == tail + Zeros(CBLOCK - n);
      Blocks(data[..]);
      FoldAppend(f, iv, done, tail + Zeros(CBLOCK - n));
    }

    /** The last block: what is buffered, zeros, and the two words of the length. */
    method LastBlock(n: nat, ghost done: seq<byte>, ghost tail: seq<byte>)
      requires data.Length == CBLOCK && n <= CBLOCK - 8 && data[..n] == tail && nh < WORD && nl < WORD
      requires |done| % CBLOCK == 0 && h == Fold(f, iv, done)
      modifies this`h, data
      ensures h == Fold(f, iv, done + Filled(tail, nh, nl))
    {
      hide Fold, BigEndian32;
      forall i | n <= i < CBLOCK - 8 { data[i] := 0; }
      var high, low := BigEndian32(nh), BigEndian32(nl);
      forall i | 0 <= i < 4 { data[CBLOCK - 8 + i] := high[i]; }
      forall i | 0 <= i < 4 { data[CBLOCK - 4 + i] := low[i]; }
      assert data[CBLOCK - 8..] == high + low;
      assert data[..] == data[..n] + data[n..CBLOCK - 8] + data[CBLOCK - 8..];
      assert data[..] == Filled(tail, nh, nl);
      Blocks(data[..]);
      FoldAppend(f, iv, done, Filled(tail, nh, nl));
    }
  }

  ghost function Joined(pieces: seq<seq<byte>>): seq<byte> {
    if pieces == [] then [] else Joined(pieces[..|pieces| - 1]) + pieces[|pieces| - 1]
  }

  /** Initialise, update with each piece in turn, finish: the digest depends on the joined message only. */
  method DigestPieces<H>(f: (H, seq<byte>) -> H, iv: H, pieces: seq<seq<byte>>) returns (h: H)
    requires forall i :: 0 <= i < |pieces| ==> |pieces[i]| < WORD * WORD
    ensures h == Fold(f, iv, Padded(Joined(pieces)))
  {
    hide Fold, Padded;
    var c := new Context(f, iv);
    var i := 0;
    while i < |pieces|
      invariant 0 <= i <= |pieces| && c.f == f && c.iv == iv && fresh(c) && fresh(c.data)
      invariant c.Collects(Joined(pieces[..i]))
    {
      c.Update(pieces[i], Joined(pieces[..i]));
      assert pieces[..i + 1][..i] == pieces[..i];
      i := i + 1;
    }
    assert pieces[..i] == pieces;
    c.Final(Joined(pieces));
    h := c.h;
  }

  ghost function Filled(tail: seq<byte>, nh: nat, nl: nat): (r: seq<byte>)
    requires |tail| <= CBLOCK - 8 && nh < WORD && nl < WORD
    ensures |r| == CBLOCK
  {
    tail + Zeros(CBLOCK - 8 - |tail|) + (BigEndian32(nh) + BigEndian32(nl))
  }

  lemma BitsBound(nh: nat, nl: nat, len: nat)
    requires Bits(nh, nl, len)
    ensures nh < WORD && nl < WORD
  {
  }

  /** The one or two blocks that HASH_FINAL digests are the end of the padded message. */
  lemma PaddedParts(m: seq<byte>, done: seq<byte>, rest: seq<byte>, nh: nat, nl: nat)
    requires m == done + rest && |done| % CBLOCK == 0 && |rest| < CBLOCK
    requires Bits(nh, nl, |m|) && nh < WORD && nl < WORD
    ensures |rest| + 1 <= CBLOCK - 8 ==> done + Filled(rest + [0x80], nh, nl) == Padded(m)
    ensures |rest| + 1 > CBLOCK - 8 ==>
      done + ((rest + [0x80]) + Zeros(CBLOCK - 1 - |rest|)) + Filled([], nh, nl) == Padded(m)
  {
    hide Padded, Bits, BigEndian32;
    PaddedWith(m, nh, nl);
    var k := ZeroCount(|m|);
    assert |m| % CBLOCK == |rest|;
    if |rest| + 1 <= CBLOCK - 8 {
      assert k == CBLOCK - 8 - 1 - |rest|;
    } else {
      assert k == CBLOCK - 1 - |rest| + CBLOCK - 8;
      assert Zeros(k) == Zeros(CBLOCK - 1 - |rest|) + Zeros(CBLOCK - 8);
    }
  }
}
