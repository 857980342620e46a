/** lzf_decompress (input checks on): proved to compute `LzfFormat.Decode`. */
module LzfDecoder {
  import opened Bytes
  import opened LzfFormat

  /** A back reference: one block copy when source and destination are apart, else octet by octet. */
  method CopyBack(dest: array<byte>, op0: nat, offset: nat, len0: nat)
    requires 0 < offset <= op0 && op0 + len0 + 2 <= dest.Length
    modifies dest
    ensures dest[..op0 + len0 + 2] == CopyMatch(old(dest[..op0]), offset, len0 + 2)
    ensures forall k :: op0 + len0 + 2 <= k < dest.Length ==> dest[k] == old(dest[k])
  {
    var ref, len := op0 - offset, len0 + 2;
    if len0 > 9 && op0 >= ref + len {
      forall i | 0 <= i < len { dest[op0 + i] := dest[ref + i]; }
    } else {
      var op := op0;
      while op < op0 + len
        invariant op0 <= op <= op0 + len && op - ref == offset
        invariant dest[..op0] == old(dest[..op0])
        invariant forall k :: op0 <= k < op ==> dest[k] == dest[k - offset]
        invariant forall k :: op0 + len <= k < dest.Length ==> dest[k] == old(dest[k])
      {
        dest[op] := dest[ref];
        op, ref := op + 1, ref + 1;
      }
    }
    ghost var c := dest[..op0 + len];
    assert c[..op0] == old(dest[..op0]);
    CopyMatchIs(c, op0, offset, len);
    assert c[..op0 + len] == c;
  }

  /** Length (less two) and distance of a back reference; fails at the end of the input. */
  method ReadBack(src: seq<byte>, ip0: nat) returns (ok: bool, len: nat, back: nat, ip: nat)
    requires ip0 < |src| && src[ip0] >= 32
    ensures ip0 < ip <= |src|
    ensures ReadStep(src[ip0..]) == if ok then Copy(back, len + 2, src[ip..]) else Cut
  {
    var ctrl := src[ip0] as int;
    ip := ip0 + 1;
    len, back := ctrl / 32, ctrl % 32 * 256 + 1;
    if ip >= |src| { return false, len, back, ip; }
    if len == 7 {
      len := len + src[ip] as int;
      ip := ip + 1;
      if ip >= |src| { return false, len, back, ip; }
    }
    back := back + src[ip] as int;
    ip := ip + 1;
    assert src[ip0..][ip - ip0..] == src[ip..];
    ok := true;
  }

  /** One control octet and what it governs. */
  method DecodeOne(src: seq<byte>, ip0: nat, dest: array<byte>, op0: nat, size: nat) returns (ok: bool, ip: nat, op: nat)
    requires ip0 < |src| && op0 <= size <= dest.Length
    modifies dest
    ensures forall k :: size <= k < dest.Length ==> dest[k] == old(dest[k])
    ensures op0 <= op <= size && ip <= |src|
    ensures match ReadStep(src[ip0..])
      case Run(literals, rest) =>
        && (ok <==> op0 + |literals| <= size)
        && (ok ==> rest == src[ip..] && dest[..op] == old(dest[..op0]) + literals)
      case Copy(offset, len, rest) =>
        && (ok <==> op0 + len <= size && offset <= op0)
        && (ok ==> rest == src[ip..] && dest[..op] == CopyMatch(old(dest[..op0]), offset, len))
      case _ => !ok
    ensures ok ==> ip0 < ip && op0 < op
  {
    hide CopyMatch;
    ghost var input := src[ip0..];
    ip, op := ip0, op0;
    var ctrl := src[ip] as int;
    ip := ip + 1;
    if ctrl < 32 {
      ctrl := ctrl + 1;
      if op + ctrl > size || ip + ctrl > |src| { return false, ip, op; }
      forall i | 0 <= i < ctrl { dest[op + i] := src[ip + i]; }
      assert input[1..ctrl + 1] == src[ip..ip + ctrl] && input[ctrl + 1..] == src[ip + ctrl..];
      ip, op := ip + ctrl, op + ctrl;
      return true, ip, op;
    }
    var len, back;
    ok, len, back, ip := ReadBack(src, ip0);
    if !ok || op + len + 2 > size || back > op { return false, ip, op; }
    CopyBack(dest, op, back, len);
    op := op + len + 2;
  }

  /** lzf_decompress: the number of octets decompressed, or zero. Of an empty input the source reads one control octet that
      is not there; what it governs is then past the end of the input, and is refused for every control octet. */
  method Decompress(src: seq<byte>, dest: array<byte>, size: nat) returns (r: nat)
    requires size <= dest.Length
    modifies dest
    ensures forall k :: size <= k < dest.Length ==> dest[k] == old(dest[k])
    ensures src == [] ==> r == 0
    ensures src != [] ==> match Decode(src, [], size)
      case Decoded(output) => 0 < r == |output| && dest[..r] == output
      case _ => r == 0
  {
    hide ReadStep, CopyMatch;
    if |src| == 0 { return 0; }
    var ip, op := 0, 0;
    assert src[0..] == src && dest[..0] == [];
    while ip < |src|
      invariant 0 <= ip <= |src| && 0 <= op <= size && (ip > 0 ==> op > 0)
      invariant Decode(src, [], size) == Decode(src[ip..], dest[..op], size)
      invariant forall k :: size <= k < dest.Length ==> dest[k] == old(dest[k])
    {
      var ok;
      ok, ip, op := DecodeOne(src, ip, dest, op, size);
      if !ok { return 0; }
    }
    r := op;
  }
}
