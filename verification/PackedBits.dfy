/** Bit-packed arrays: BMAP_SET_BLOCK and BMAP_GET_BLOCK on an array of 64-bit words.

    A machine word is its 64 bits, least significant first, so that the mask and shift operators of
    the source are written as they stand. */
module PackedBits {
  import opened Arithmetic

  type Word = w: seq<bool> | |w| == 64 witness seq(64, i => false)

  function And(a: Word, b: Word): Word { seq(64, i requires 0 <= i < 64 => a[i] && b[i]) }
  function Or(a: Word, b: Word): Word { seq(64, i requires 0 <= i < 64 => a[i] || b[i]) }
  function Not(a: Word): Word { seq(64, i requires 0 <= i < 64 => !a[i]) }
  function Shl(a: Word, n: nat): Word { seq(64, i requires 0 <= i < 64 => i >= n && a[i - n]) }
  function Shr(a: Word, n: nat): Word { seq(64, i requires 0 <= i < 64 => i + n < 64 && a[i + n]) }

  /** (1 << n) - 1 */
  function Low(n: nat): Word { seq(64, i => i < n) }

  // ---------- Numbers ----------

  function Pow2(n: nat): (r: nat)
    ensures r > 0
  {
    if n == 0 then 1 else 2 * Pow2(n - 1)
  }

  function ToNat(bits: seq<bool>): nat
  {
    if bits == [] then 0 else (if bits[0] then 1 else 0) + 2 * ToNat(bits[1..])
  }

  function FromNat(v: nat, n: nat): (bits: seq<bool>)
    ensures |bits| == n
  {
    if n == 0 then [] else [v % 2 == 1] + FromNat(v / 2, n - 1)
  }

  lemma {:induction false} ToNatBound(bits: seq<bool>)
    ensures ToNat(bits) < Pow2(|bits|)
  {
    if bits != [] { ToNatBound(bits[1..]); }
  }

  lemma {:induction false} ToFromNat(v: nat, n: nat)
    requires v < Pow2(n)
    ensures ToNat(FromNat(v, n)) == v
  {
    if n > 0 { ToFromNat(v / 2, n - 1); }
  }

  lemma {:induction false} FromToNat(bits: seq<bool>)
    ensures FromNat(ToNat(bits), |bits|) == bits
  {
    if bits != [] { FromToNat(bits[1..]); }
  }

  /** The mask of the n lowest bits is 2^n - 1, and shifting it multiplies by a power of two. */
  lemma {:induction false} MaskValue(n: nat, k: nat)
    ensures ToNat(seq(k, i => false) + seq(n, i => true)) == Pow2(k) * (Pow2(n) - 1)
    decreases k + n
  {
    var bits := seq(k, i => false) + seq(n, i => true);
    if k > 0 {
      assert bits[1..] == seq(k - 1, i => false) + seq(n, i => true);
      MaskValue(n, k - 1);
      assert Pow2(k) * (Pow2(n) - 1) == 2 * (Pow2(k - 1) * (Pow2(n) - 1));
    } else if n > 0 {
      assert bits[1..] == seq(0, i => false) + seq(n - 1, i => true);
      MaskValue(n - 1, 0);
    }
  }

  /** A value that fits in `n` bits, held in a word, has only zeros above them. */
  lemma {:induction false} Fits(v: nat, n: nat, m: nat)
    requires v < Pow2(n) && n <= m
    ensures FromNat(v, m)[..n] == FromNat(v, n)
    ensures forall k :: n <= k < m ==> !FromNat(v, m)[k]
  {
    if n > 0 {
      Fits(v / 2, n - 1, m - 1);
    } else if m > 0 {
      Fits(0, 0, m - 1);
    }
  }

  // ---------- The packed array ----------

  /** Bit `g` of the whole array. */
  function Bit(mtd: seq<Word>, g: nat): bool
    requires g < 64 * |mtd|
  {
    mtd[g / 64][g % 64]
  }

  /** BMAP_GET_BLOCK, for the entry that starts at bit `bits`. */
  function GetBlock(mtd: seq<Word>, bits: nat, bbits: nat): (r: Word)
    requires 0 < bbits < 64 && bits + bbits <= 64 * |mtd|
  {
    var idx, offset := bits / 64, bits % 64;
    var v := Shr(mtd[idx], offset);
    if offset != 0 && offset + bbits > 64 then
      var vbits := 64 - offset;
      var v1 := And(mtd[idx + 1], Low(bbits - (64 - offset)));
      Or(And(v, Low(vbits)), Shl(v1, vbits))
    else And(v, Low(bbits))
  }

  lemma BitAt(mtd: seq<Word>, idx: nat, offset: nat)
    requires idx < |mtd| && offset < 64
    ensures Bit(mtd, 64 * idx + offset) == mtd[idx][offset]
  {
  }

  /** A bit of what is read, in the word it comes from. */
  lemma GetBlockAt(mtd: seq<Word>, bits: nat, bbits: nat, k: nat)
    requires 0 < bbits < 64 && bits + bbits <= 64 * |mtd| && k < 64
    ensures var idx, offset := bits / 64, bits % 64;
      GetBlock(mtd, bits, bbits)[k]
      == if k >= bbits then false else if offset + k < 64 then mtd[idx][offset + k] else mtd[idx + 1][offset + k - 64]
  {
  }

  lemma GetBlockBits(mtd: seq<Word>, bits: nat, bbits: nat)
    requires 0 < bbits < 64 && bits + bbits <= 64 * |mtd|
    ensures forall k :: 0 <= k < bbits ==> GetBlock(mtd, bits, bbits)[k] == Bit(mtd, bits + k)
    ensures forall k :: bbits <= k < 64 ==> !GetBlock(mtd, bits, bbits)[k]
  {
    hide Bit, GetBlock;
    var idx, offset := bits / 64, bits % 64;
    forall k | 0 <= k < 64 ensures GetBlock(mtd, bits, bbits)[k] == (k < bbits && Bit(mtd, bits + k)) {
      GetBlockAt(mtd, bits, bbits, k);
      if k < bbits {
        if offset + k < 64 { BitAt(mtd, idx, offset + k); } else { BitAt(mtd, idx + 1, offset + k - 64); }
      }
    }
  }

  /** BMAP_SET_BLOCK: the entry's bits become those of `blk` and no other bit changes, although an
      entry may straddle two words. */
  method SetBlock(mtd: array<Word>, bits: nat, blk: Word, bbits: nat)
    requires 0 < bbits < 64 && bits + bbits <= 64 * mtd.Length
    requires forall k :: bbits <= k < 64 ==> !blk[k]
    modifies mtd
    ensures forall g: nat :: g < 64 * mtd.Length ==>
      Bit(mtd[..], g) == if bits <= g < bits + bbits then blk[g - bits] else old(Bit(mtd[..], g))
  {
    var idx, offset := bits / 64, bits % 64;
    var v := mtd[idx];
    ghost var was := mtd[..];
    if offset != 0 && offset + bbits > 64 {
      var vbits := 64 - offset;
      var vmask := Low(vbits);
      v := And(v, Not(Shl(vmask, offset)));
      v := Or(v, Shl(And(blk, vmask), offset));
      var v1 := mtd[idx + 1];
      var v1mask := Low(bbits - (64 - offset));
      v1 := And(v1, Not(v1mask));
      v1 := Or(v1, Shr(blk, vbits));
      mtd[idx + 1] := v1;
    } else {
      var vmask := Low(bbits);
      v := And(v, Not(Shl(vmask, offset)));
      v := Or(v, Shl(blk, offset));
    }
    mtd[idx] := v;
    forall g: nat | g < 64 * mtd.Length
      ensures Bit(mtd[..], g) == if bits <= g < bits + bbits then blk[g - bits] else Bit(was, g)
    {
      var w, k := g / 64, g % 64;
      assert g == 64 * w + k && bits == 64 * idx + offset;
      if w != idx && w != idx + 1 { assert mtd[w] == was[w]; }
    }
  }

  lemma {:induction false} ToNatPadded(bits: seq<bool>, n: nat)
    requires n <= |bits| && forall k :: n <= k < |bits| ==> !bits[k]
    ensures ToNat(bits) == ToNat(bits[..n])
  {
    if n > 0 {
      ToNatPadded(bits[1..], n - 1);
      assert bits[..n][1..] == bits[1..][..n - 1];
    } else if bits != [] {
      ToNatPadded(bits[1..], 0);
      assert bits[1..][..0] == [] == bits[..0];
    }
  }

  /** The bits of entry `i` of an array of `bbits`-bit entries, and its value. */
  function EntryBits(mtd: seq<Word>, i: nat, bbits: nat): (r: seq<bool>)
    requires i * bbits + bbits <= 64 * |mtd|
    ensures |r| == bbits && forall k :: 0 <= k < bbits ==> r[k] == Bit(mtd, i * bbits + k)
  {
    seq(bbits, k requires 0 <= k < bbits => Bit(mtd, i * bbits + k))
  }

  function Entry(mtd: seq<Word>, i: nat, bbits: nat): nat
    requires i * bbits + bbits <= 64 * |mtd|
  {
    ToNat(EntryBits(mtd, i, bbits))
  }

  /** The whole array as the numbers it packs. */
  function Unpack(mtd: seq<Word>, count: nat, bbits: nat): (r: seq<nat>)
    requires count * bbits <= 64 * |mtd|
    ensures |r| == count
  {
    seq(count, i requires 0 <= i < count => (Inside(i, count, bbits); Entry(mtd, i, bbits)))
  }

  lemma Inside(i: nat, count: nat, bbits: nat)
    requires i < count
    ensures i * bbits + bbits <= count * bbits
  {
    assert count * bbits == (count - i - 1) * bbits + i * bbits + bbits;
  }

  /** Distinct entries occupy disjoint bits. */
  lemma Apart(i: nat, j: nat, bbits: nat)
    requires i != j
    ensures i * bbits + bbits <= j * bbits || j * bbits + bbits <= i * bbits
  {
    if i < j { Inside(i, j, bbits); } else { Inside(j, i, bbits); }
  }

  lemma GetBlockIsEntry(mtd: seq<Word>, i: nat, bbits: nat)
    requires 0 < bbits < 64 && i * bbits + bbits <= 64 * |mtd|
    ensures ToNat(GetBlock(mtd, i * bbits, bbits)) == Entry(mtd, i, bbits)
  {
    hide GetBlock, ToNat;
    var w := GetBlock(mtd, i * bbits, bbits);
    GetBlockBits(mtd, i * bbits, bbits);
    ToNatPadded(w, bbits);
    assert w[..bbits] == EntryBits(mtd, i, bbits);
  }

  /** `now` differs from `was` in the bits of entry `i` only, which hold `v`. */
  ghost predicate SetAt(was: seq<Word>, now: seq<Word>, i: nat, v: nat, bbits: nat)
  {
    && |now| == |was| && 0 < bbits < 64 && i * bbits + bbits <= 64 * |was| && v < Pow2(bbits)
    && forall g: nat :: g < 64 * |was| ==>
        Bit(now, g) == if i * bbits <= g < i * bbits + bbits then FromNat(v, 64)[g - i * bbits] else Bit(was, g)
  }

  lemma EntryAfter(was: seq<Word>, now: seq<Word>, i: nat, v: nat, j: nat, bbits: nat)
    requires SetAt(was, now, i, v, bbits) && j * bbits + bbits <= 64 * |was|
    ensures Entry(now, j, bbits) == if j == i then v else Entry(was, j, bbits)
  {
    hide ToNat, FromNat, Bit;
    var e := EntryBits(now, j, bbits);
    if j == i {
      Fits(v, bbits, 64);
      assert e == FromNat(v, 64)[..bbits];
      ToFromNat(v, bbits);
    } else {
      Apart(i, j, bbits);
      assert e == EntryBits(was, j, bbits);
    }
  }

  /** Set then get: the entry set has the value, every other entry keeps its own, straddling or not. */
  lemma UnpackAfter(was: seq<Word>, now: seq<Word>, i: nat, v: nat, count: nat, bbits: nat)
    requires SetAt(was, now, i, v, bbits) && i < count && count * bbits <= 64 * |was|
    ensures Unpack(now, count, bbits) == Unpack(was, count, bbits)[i := v]
  {
    hide Entry, Bit, FromNat, Pow2;
    assert |now| == |was|;
    forall j | 0 <= j < count ensures Unpack(now, count, bbits)[j] == Unpack(was, count, bbits)[i := v][j] {
      Inside(j, count, bbits);
      EntryAfter(was, now, i, v, j, bbits);
    }
  }

  /** The bits behind the last entry: padding and whatever follows, such as a checksum. */
  function Rest(mtd: seq<Word>, count: nat, bbits: nat): (r: seq<bool>)
    requires count * bbits <= 64 * |mtd|
    ensures |r| == 64 * |mtd| - count * bbits
  {
    seq(64 * |mtd| - count * bbits, k requires 0 <= k < 64 * |mtd| - count * bbits => Bit(mtd, count * bbits + k))
  }

  lemma RestAfter(was: seq<Word>, now: seq<Word>, i: nat, v: nat, count: nat, bbits: nat)
    requires SetAt(was, now, i, v, bbits) && i < count && count * bbits <= 64 * |was|
    ensures Rest(now, count, bbits) == Rest(was, count, bbits)
  {
    hide Bit, FromNat, Pow2;
    Inside(i, count, bbits);
    forall k | 0 <= k < 64 * |was| - count * bbits ensures Rest(now, count, bbits)[k] == Rest(was, count, bbits)[k] {
      assert Bit(now, count * bbits + k) == Bit(was, count * bbits + k);
    }
  }

  /** Entries and the bits behind them are all there is to an array. */
  lemma SameArray(a: seq<Word>, b: seq<Word>, count: nat, bbits: nat)
    requires |a| == |b| && 0 < bbits && count * bbits <= 64 * |a|
    requires Unpack(a, count, bbits) == Unpack(b, count, bbits) && Rest(a, count, bbits) == Rest(b, count, bbits)
    ensures a == b
  {
    hide Unpack, Rest;
    forall w | 0 <= w < |a| ensures a[w] == b[w] {
      forall k | 0 <= k < 64 ensures a[w][k] == b[w][k] {
        var g := 64 * w + k;
        assert g / 64 == w && g % 64 == k;
        SameBit(a, b, count, bbits, g);
      }
    }
  }

  lemma SameBit(a: seq<Word>, b: seq<Word>, count: nat, bbits: nat, g: nat)
    requires |a| == |b| && 0 < bbits && count * bbits <= 64 * |a| && g < 64 * |a|
    requires Unpack(a, count, bbits) == Unpack(b, count, bbits) && Rest(a, count, bbits) == Rest(b, count, bbits)
    ensures Bit(a, g) == Bit(b, g)
  {
    hide Bit, ToNat, FromNat;
    if g < count * bbits {
      var i, k := g / bbits, g % bbits;
      Position(g, count, bbits);
      Inside(i, count, bbits);
      assert Unpack(a, count, bbits)[i] == Unpack(b, count, bbits)[i];
      FromToNat(EntryBits(a, i, bbits));
      FromToNat(EntryBits(b, i, bbits));
      assert EntryBits(a, i, bbits)[k] == EntryBits(b, i, bbits)[k];
    } else {
      assert Rest(a, count, bbits)[g - count * bbits] == Rest(b, count, bbits)[g - count * bbits];
    }
  }

  lemma Position(g: nat, count: nat, bbits: nat)
    requires 0 < bbits && g < count * bbits
    ensures g / bbits < count && g == g / bbits * bbits + g % bbits
  {
    if g / bbits >= count {
      assert g / bbits * bbits >= count * bbits by { AtLeast(bbits, g / bbits - count); }
    }
  }

  /** Words beyond the last entry are not touched. */
  lemma WordAfter(was: seq<Word>, now: seq<Word>, i: nat, v: nat, count: nat, bbits: nat, w: nat)
    requires SetAt(was, now, i, v, bbits) && i < count && count * bbits <= 64 * w < 64 * |was|
    ensures now[w] == was[w]
  {
    Inside(i, count, bbits);
    forall k | 0 <= k < 64 ensures now[w][k] == was[w][k] {
      var g := 64 * w + k;
      assert g / 64 == w && g % 64 == k;
      assert Bit(now, g) == Bit(was, g);
    }
  }

  lemma UnpackZero(mtd: seq<Word>, count: nat, bbits: nat)
    requires count * bbits <= 64 * |mtd| && forall w :: 0 <= w < |mtd| ==> mtd[w] == Low(0)
    ensures Unpack(mtd, count, bbits) == seq(count, i => 0)
  {
    forall i | 0 <= i < count ensures Unpack(mtd, count, bbits)[i] == 0 {
      Inside(i, count, bbits);
      ToNatPadded(EntryBits(mtd, i, bbits), 0);
    }
  }

  /** A page of packed entries followed by other words, such as a checksum. */
  class Page {
    const bbits: nat
    const count: nat
    const words: array<Word>

    ghost predicate Valid()
    {
      0 < bbits < 64 && count * bbits <= 64 * words.Length
    }

    ghost function Entries(): (r: seq<nat>)
      requires Valid()
      reads words
      ensures |r| == count
    {
      Unpack(words[..], count, bbits)
    }

    /** Everything behind the entries. */
    ghost function Beyond(): seq<bool>
      requires Valid()
      reads words
    {
      Rest(words[..], count, bbits)
    }

    constructor (bbits: nat, count: nat, size: nat)
      requires 0 < bbits < 64 && count * bbits <= 64 * size
      ensures Valid() && fresh(words) && this.bbits == bbits && this.count == count && words.Length == size
      ensures Entries() == seq(count, i => 0)
    {
      this.bbits, this.count := bbits, count;
      words := new Word[size](i => Low(0));
      new;
      UnpackZero(words[..], count, bbits);
    }

    method Get(i: nat) returns (v: nat)
      requires Valid() && i < count
      ensures v == Entries()[i] && v < Pow2(bbits)
    {
      Inside(i, count, bbits);
      v := ToNat(GetBlock(words[..], i * bbits, bbits));
      GetBlockIsEntry(words[..], i, bbits);
      ToNatBound(EntryBits(words[..], i, bbits));
    }

    /** Set one entry: every other entry, and every word beyond the last entry, is as before. */
    method Set(i: nat, v: nat)
      requires Valid() && i < count && v < Pow2(bbits)
      modifies words
      ensures Entries() == old(Entries())[i := v] && Beyond() == old(Beyond())
      ensures forall w :: 0 <= w < words.Length && count * bbits <= 64 * w ==> words[w] == old(words[w])
    {
      hide Unpack, Rest, Bit, FromNat, Pow2;
      Inside(i, count, bbits);
      Fits(v, bbits, 64);
      ghost var was := words[..];
      SetBlock(words, i * bbits, FromNat(v, 64), bbits);
      UnpackAfter(was, words[..], i, v, count, bbits);
      RestAfter(was, words[..], i, v, count, bbits);
      forall w | 0 <= w < words.Length && count * bbits <= 64 * w ensures words[w] == was[w] {
        WordAfter(was, words[..], i, v, count, bbits, w);
      }
    }
  }
}
