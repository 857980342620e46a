/** Octets and the little-endian reads the codecs make of them. */
module Bytes {

  type byte = b: int | 0 <= b < 256

  /** A 32-bit little-endian load, as the A32 macro performs it on the supported targets. */
  function Read32(s: seq<byte>, i: nat): (v: nat)
    requires i + 4 <= |s|
    ensures v < 0x1_0000_0000
  {
    s[i] as int + 256 * (s[i + 1] as int + 256 * (s[i + 2] as int + 256 * s[i + 3] as int))
  }

  /** The `n` octets at `ref` and at `ip` are equal: what word comparisons decide. */
  predicate Same(src: seq<byte>, ref: nat, ip: nat, n: nat)
    requires ref < ip && ip + n <= |src|
  {
    forall k :: ip <= k < ip + n ==> src[k] == src[k - (ip - ref)]
  }

  /** Nothing but one octet. */
  predicate Constant(src: seq<byte>) { forall i :: 0 <= i < |src| ==> src[i] == src[0] }

  lemma ConstantAt(src: seq<byte>, i: nat, j: nat)
    requires Constant(src) && i < |src| && j < |src|
    ensures src[i] == src[j]
  {
  }

  /** Repeat the octet `offset` places back, `n` times: the overlapping match copy. */
  function CopyMatch(out: seq<byte>, offset: nat, n: nat): (r: seq<byte>)
    requires 0 < offset <= |out|
    ensures |r| == |out| + n
    decreases n
  {
    if n == 0 then out else CopyMatch(out + [out[|out| - offset]], offset, n - 1)
  }

  /** Text that repeats itself `offset` back is what the match copy reproduces. */
  lemma {:induction false} CopyMatchIs(text: seq<byte>, p: nat, offset: nat, n: nat)
    requires 0 < offset <= p && p + n <= |text|
    requires forall k :: p <= k < p + n ==> text[k] == text[k - offset]
    ensures CopyMatch(text[..p], offset, n) == text[..p + n]
    decreases n
  {
    if n > 0 {
      assert text[..p] + [text[p - offset]] == text[..p + 1];
      CopyMatchIs(text, p + 1, offset, n - 1);
    }
  }

  lemma Assoc<T>(a: seq<T>, b: seq<T>, c: seq<T>)
    ensures a + b + c == a + (b + c)
  {
  }

  lemma Split<T>(a: seq<T>, b: seq<T>)
    ensures (a + b)[..|a|] == a && (a + b)[|a|..] == b
  {
  }

  /** LZ4_WILDCOPY from the input: whole words of eight until the end is reached or passed. */
  method CopyWords(src: seq<byte>, s0: nat, dest: array<byte>, d0: nat, e: nat, oend: nat)
    requires d0 <= e && d0 + 8 <= oend <= dest.Length && e + 7 <= oend
    requires s0 + 8 <= |src| && s0 + (e - d0) + 7 <= |src|
    modifies dest
    ensures dest[..e] == old(dest[..d0]) + src[s0..s0 + (e - d0)]
    ensures dest[oend..] == old(dest[oend..])
  {
    var d, s := d0, s0;
    var first := true;
    while first || d < e
      invariant d0 <= d <= oend && d - d0 == s - s0 && s <= |src| && (first ==> d == d0)
      invariant forall i :: 0 <= i < d0 || oend <= i < dest.Length ==> dest[i] == old(dest[i])
      invariant forall i :: d0 <= i < d ==> dest[i] == src[s0 + (i - d0)]
      decreases first, e - d
    {
      forall i | 0 <= i < 8 { dest[d + i] := src[s + i]; }
      d, s, first := d + 8, s + 8, false;
    }
  }
}
