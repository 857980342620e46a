/** The write log of a pool: packed entries, pages numbered by the first transaction they hold, and the list of
    entries that start-up reads back. */
module LogPages {
  // ---------- One entry ----------

  datatype Entry = Entry(block: bv64, target: bv16, lba: bv64, indexId: bv64, amapId: bv64)

  /** The 24 octets of an entry: 50 bits of block and 14 of lba; 20 of lba and 12 of target; two 48-bit ids. */
  datatype Raw = Raw(bit1: bv64, bit2: bv32, index1: bv32, index2: bv16, amap1: bv32, amap2: bv16)

  const ZERO := Raw(0, 0, 0, 0, 0, 0)

  function LowWord(block: bv64, lba: bv64): bv64 { block | ((lba & 0x3FFF) << 50) }

  function HighWord(target: bv16, lba: bv64): bv32 {
    ((lba >> 14) & 0xFFFF_FFFF) as bv32 | ((target as bv32 & 0xFFF) << 20)
  }

  function IdLow(id: bv64): bv32 { (id & 0xFFFF_FFFF) as bv32 }

  function IdHigh(id: bv64): bv16 { ((id >> 32) & 0xFFFF) as bv16 }

  /** v2_log_entry_set_block. */
  function Pack(e: Entry): Raw {
    Raw(LowWord(e.block, e.lba), HighWord(e.target, e.lba),
        IdLow(e.indexId), IdHigh(e.indexId), IdLow(e.amapId), IdHigh(e.amapId))
  }

  function BlockOf(bit1: bv64): bv64 { bit1 & 0x3_FFFF_FFFF_FFFF }

  function TargetOf(bit2: bv32): bv16 { ((bit2 >> 20) & 0xFFF) as bv16 }

  function LbaOf(bit1: bv64, bit2: bv32): bv64 { ((bit2 & 0xF_FFFF) as bv64 << 14) | (bit1 >> 50) }

  function IdOf(low: bv32, high: bv16): bv64 { (low as bv64) | ((high as bv64) << 32) }

  /** The V2_ENTRY accessors. */
  function Unpack(r: Raw): Entry {
    Entry(BlockOf(r.bit1), TargetOf(r.bit2), LbaOf(r.bit1, r.bit2), IdOf(r.index1, r.index2), IdOf(r.amap1, r.amap2))
  }

  predicate Bits12(x: bv16) { x < 0x1000 }

  predicate Bits34(x: bv64) { x < 0x4_0000_0000 }

  predicate Bits48(x: bv64) { x < 0x1_0000_0000_0000 }

  predicate Bits50(x: bv64) { x < 0x4_0000_0000_0000 }

  predicate Fits(e: Entry) {
    Bits50(e.block) && Bits12(e.target) && Bits34(e.lba) && Bits48(e.indexId) && Bits48(e.amapId)
  }

  /** An entry is read back as written if and only if each field fits its bits. */
  lemma PackUnpack(e: Entry)
    ensures Unpack(Pack(e)) == e <==> Fits(e)
  {
    hide LowWord, HighWord, IdLow, IdHigh, BlockOf, TargetOf, LbaOf, IdOf, Bits12, Bits34, Bits48, Bits50;
    BlockBack(e.block, e.lba);
    if Bits50(e.block) { LbaBack(e.block, e.target, e.lba); }
    if Bits34(e.lba) { TargetBack(e.target, e.lba); }
    IdBack(e.indexId);
    IdBack(e.amapId);
  }

  /** Where the fields are. */
  lemma EntryLayout()
    ensures Pack(Entry(1, 2, 0x4003, 0x5_0000_0006, 0x7_0000_0008)) == Raw(0xC_0000_0000_0001, 0x20_0001, 6, 5, 8, 7)
  {
  }

  lemma NotBlank(e: Entry)
    requires Fits(e)
    ensures Unpack(Pack(e)) == e && (Blank(Pack(e)) <==> e.target == 0 && e.block == 0)
  {
    hide LowWord, HighWord, IdLow, IdHigh, BlockOf, TargetOf, LbaOf, IdOf, Bits12, Bits34, Bits48, Bits50;
    PackUnpack(e);
  }

  lemma BlockBack(block: bv64, lba: bv64)
    ensures BlockOf(LowWord(block, lba)) == block <==> Bits50(block)
  {
  }

  lemma LbaBack(block: bv64, target: bv16, lba: bv64)
    requires Bits50(block)
    ensures LbaOf(LowWord(block, lba), HighWord(target, lba)) == lba <==> Bits34(lba)
  {
  }

  lemma TargetBack(target: bv16, lba: bv64)
    requires Bits34(lba)
    ensures TargetOf(HighWord(target, lba)) == target <==> Bits12(target)
  {
  }

  lemma IdBack(id: bv64)
    ensures IdOf(IdLow(id), IdHigh(id)) == id <==> Bits48(id)
  {
  }

  // ---------- Pages ----------

  /** V2_LOG_ENTRIES. */
  const ENTRIES := 170

  /** A page holds the entries of ENTRIES consecutive transactions; it has not been used while `start` is 0. */
  datatype Page = Page(start: nat, slots: seq<Raw>)

  datatype Numbered = Numbered(id: nat, entry: Entry)

  predicate Blank(r: Raw) { TargetOf(r.bit2) == 0 && BlockOf(r.bit1) == 0 }

  function Slot(p: Page, k: nat): seq<Numbered>
    requires k < |p.slots|
  {
    if Blank(p.slots[k]) then [] else [Numbered(p.start + k, Unpack(p.slots[k]))]
  }

  /** What the first `k` slots of a page hold. */
  function Loaded(p: Page, k: nat): seq<Numbered>
    requires k <= |p.slots|
  {
    if k == 0 then [] else Loaded(p, k - 1) + Slot(p, k - 1)
  }

  function All(p: Page): seq<Numbered> {
    if p.start == 0 then [] else Loaded(p, |p.slots|)
  }

  /** What pages hold, in their order. */
  function Contents(q: seq<Page>): seq<Numbered> {
    if q == [] then [] else Contents(q[..|q| - 1]) + All(q[|q| - 1])
  }

  /** Unused pages first, then pages whose transactions follow one another. */
  ghost predicate Ordered(q: seq<Page>) {
    && (forall i :: 0 <= i < |q| ==> |q[i].slots| == ENTRIES)
    && (forall i, j :: 0 <= i < j < |q| ==> q[i].start == 0 || q[i].start + ENTRIES <= q[j].start)
  }

  ghost predicate Increasing(s: seq<Numbered>) {
    forall i, j :: 0 <= i < j < |s| ==> s[i].id < s[j].id
  }

  ghost predicate Within(s: seq<Numbered>, lo: nat, hi: nat) {
    forall i :: 0 <= i < |s| ==> lo <= s[i].id < hi
  }

  lemma IncreasingAppend(a: seq<Numbered>, b: seq<Numbered>, lo: nat, mid: nat, hi: nat)
    requires Increasing(a) && Increasing(b) && Within(a, lo, mid) && Within(b, mid, hi) && lo <= mid <= hi
    ensures Increasing(a + b) && Within(a + b, lo, hi)
  {
  }

  lemma {:induction false} LoadedIncreasing(p: Page, k: nat)
    requires k <= |p.slots|
    ensures Increasing(Loaded(p, k)) && Within(Loaded(p, k), p.start, p.start + k)
  {
    if k > 0 {
      LoadedIncreasing(p, k - 1);
      IncreasingAppend(Loaded(p, k - 1), Slot(p, k - 1), p.start, p.start + k - 1, p.start + k);
    }
  }

  /** Transaction ids strictly increase along ordered pages. */
  lemma {:induction false} ContentsIncreasing(q: seq<Page>)
    requires Ordered(q)
    ensures Increasing(Contents(q)) && Within(Contents(q), 0, if q == [] then 0 else q[|q| - 1].start + ENTRIES)
  {
    if q != [] {
      var k := |q| - 1;
      var last := q[k];
      ContentsIncreasing(q[..k]);
      if last.start == 0 {
        NothingUsed(q[..k]);
      } else {
        LoadedIncreasing(last, ENTRIES);
        if k == 0 || q[k - 1].start == 0 { NothingUsed(q[..k]); }
        IncreasingAppend(Contents(q[..k]), All(last), 0, last.start, last.start + ENTRIES);
      }
    }
  }

  lemma {:induction false} NothingUsed(q: seq<Page>)
    requires Ordered(q) && (q != [] ==> q[|q| - 1].start == 0)
    ensures Contents(q) == []
  {
    if |q| > 1 {
      NothingUsed(q[..|q| - 1]);
    }
  }

  // ---------- Writing ----------

  lemma {:induction false} LoadedSame(p: Page, p': Page, k: nat)
    requires p.start == p'.start && k <= |p.slots| && k <= |p'.slots| && p.slots[..k] == p'.slots[..k]
    ensures Loaded(p, k) == Loaded(p', k)
  {
    if k > 0 {
      assert p.slots[..k][..k - 1] == p.slots[..k - 1] && p'.slots[..k][..k - 1] == p'.slots[..k - 1];
      assert p.slots[k - 1] == p.slots[..k][k - 1] == p'.slots[k - 1];
      LoadedSame(p, p', k - 1);
    }
  }

  lemma {:induction false} LoadedBlank(p: Page, k: nat, n: nat)
    requires k <= n <= |p.slots| && forall i :: k <= i < n ==> p.slots[i] == ZERO
    ensures Loaded(p, n) == Loaded(p, k)
    decreases n
  {
    hide Unpack, Blank;
    if k < n {
      ZeroBlank();
      LoadedBlank(p, k, n - 1);
    }
  }

  function Fresh(id: nat): (p: Page) ensures |p.slots| == ENTRIES { Page(id, seq(ENTRIES, i => ZERO)) }

  /** The last page is being filled at slot `at`; `nextId` follows its transactions. */
  ghost predicate Filling(q: seq<Page>, nextId: nat, at: nat) {
    && Ordered(q) && q != []
    && var last := q[|q| - 1];
       0 < last.start && last.start + ENTRIES == nextId && forall i :: at <= i < ENTRIES ==> last.slots[i] == ZERO
  }

  lemma FillingNext(q: seq<Page>, nextId: nat, at: nat)
    requires Filling(q, nextId, at)
    ensures Filling(q[1..] + [Fresh(nextId)], nextId + ENTRIES, 0)
  {
    var q' := q[1..] + [Fresh(nextId)];
    forall i, j | 0 <= i < j < |q'| ensures q'[i].start == 0 || q'[i].start + ENTRIES <= q'[j].start {
      assert q'[i] == q[i + 1];
      if j < |q'| - 1 {
        assert q'[j] == q[j + 1];
      } else {
        assert i + 1 < |q| - 1 ==> q[i + 1].start == 0 || q[i + 1].start + ENTRIES <= q[|q| - 1].start;
      }
    }
  }

  lemma {:induction false} FillingFirst(q: seq<Page>)
    requires q != [] && q[|q| - 1] == Fresh(1) && forall i :: 0 <= i < |q| - 1 ==> q[i] == Fresh(0)
    ensures Filling(q, 1 + ENTRIES, 0) && Contents(q) == []
  {
    NothingUsed(q[..|q| - 1]);
    LoadedBlank(Fresh(1), 0, ENTRIES);
  }

  /** The ring `q` is `q0` moved on: its first pages are reused, the others kept; the log lost entries at its old end
      only. */
  ghost predicate MovedOn(q0: seq<Page>, q: seq<Page>, moved: nat) {
    Kept(q0, q, moved) && Suffix(Contents(q0), Contents(q))
  }

  ghost predicate Kept(q0: seq<Page>, q: seq<Page>, moved: nat) {
    |q| == |q0| && (moved <= |q0| ==> q[..|q0| - moved] == q0[moved..])
  }

  ghost predicate Suffix(s0: seq<Numbered>, s: seq<Numbered>) {
    |s| <= |s0| && s == s0[|s0| - |s|..]
  }

  lemma NotMoved(q: seq<Page>)
    ensures MovedOn(q, q, 0)
  {
  }

  lemma KeptNext(q0: seq<Page>, q: seq<Page>, moved: nat, p: Page)
    requires Kept(q0, q, moved) && q != []
    ensures Kept(q0, q[1..] + [p], moved + 1)
  {
    var q', n := q[1..] + [p], |q0| - moved;
    if moved < |q0| { assert q'[..n - 1] == q[..n][1..] == q0[moved..][1..]; }
  }

  lemma SuffixNext(s0: seq<Numbered>, s: seq<Numbered>, k: nat)
    requires Suffix(s0, s) && k <= |s|
    ensures Suffix(s0, s[k..])
  {
  }

  lemma MovedNext(q0: seq<Page>, q: seq<Page>, moved: nat, id: nat)
    requires MovedOn(q0, q, moved) && q != []
    ensures MovedOn(q0, q[1..] + [Fresh(id)], moved + 1)
  {
    hide Contents, All, Fresh, Kept, Suffix;
    KeptNext(q0, q, moved, Fresh(id));
    DropFirst(q, id);
    SuffixNext(Contents(q0), Contents(q), |All(q[0])|);
  }

  // ---------- Transactions that are not finished ----------

  /** The pending transactions of a page. */
  ghost function Mine(p: Page, open: set<nat>): set<nat> {
    if p.start == 0 then {} else set id | id in open && p.start <= id < p.start + ENTRIES
  }

  /** The counters of the pages count the pending transactions, all of which have been given ids below `issued`. */
  ghost predicate Tracks(q: seq<Page>, pending: seq<nat>, open: set<nat>, issued: nat) {
    && |pending| == |q| && (forall i :: 0 <= i < |q| ==> pending[i] == |Mine(q[i], open)|)
    && (forall id :: id in open ==> id < issued)
  }

  lemma TracksNone(q: seq<Page>, pending: seq<nat>)
    requires |pending| == |q| && forall i :: 0 <= i < |q| ==> pending[i] == 0
    ensures forall issued: nat :: Tracks(q, pending, {}, issued)
  {
    assert forall i :: 0 <= i < |q| ==> Mine(q[i], {}) == {};
  }

  lemma TracksNext(q: seq<Page>, pending: seq<nat>, open: set<nat>, issued: nat, nextId: nat)
    requires q != [] && Tracks(q, pending, open, issued) && issued <= nextId
    ensures Tracks(q[1..] + [Fresh(nextId)], pending[1..] + [0], open, nextId)
  {
    assert Mine(Fresh(nextId), open) == {};
  }

  lemma TracksMore(q: seq<Page>, q': seq<Page>, pending: seq<nat>, open: set<nat>, id: nat)
    requires Ordered(q) && q != [] && Tracks(q, pending, open, id) && q[|q| - 1].start != 0
    requires q[|q| - 1].start <= id < q[|q| - 1].start + ENTRIES
    requires |q'| == |q| && forall i :: 0 <= i < |q| ==> q'[i].start == q[i].start
    ensures var k := |q| - 1; Tracks(q', pending[k := pending[k] + 1], open + {id}, id + 1)
  {
    var k := |q| - 1;
    forall i | 0 <= i < |q| ensures pending[k := pending[k] + 1][i] == |Mine(q'[i], open + {id})| {
      if i == k {
        assert Mine(q'[k], open + {id}) == Mine(q[k], open) + {id};
      } else {
        assert q[i].start == 0 || q[i].start + ENTRIES <= q[k].start;
        assert Mine(q'[i], open + {id}) == Mine(q[i], open);
      }
    }
  }

  lemma TracksLess(q: seq<Page>, pending: seq<nat>, open: set<nat>, issued: nat, k: nat, id: nat)
    requires Ordered(q) && k < |q| && Tracks(q, pending, open, issued) && id in Mine(q[k], open)
    ensures pending[k] > 0 && Tracks(q, pending[k := pending[k] - 1], open - {id}, issued)
  {
    assert Mine(q[k], open - {id}) == Mine(q[k], open) - {id};
    forall i | 0 <= i < |q| && i != k ensures Mine(q[i], open - {id}) == Mine(q[i], open) {
      assert i < k ==> q[i].start == 0 || q[i].start + ENTRIES <= q[k].start;
      assert k < i ==> q[k].start + ENTRIES <= q[i].start;
    }
  }

  /** Entries of pending transactions. */
  ghost predicate Holds(q0: seq<Page>, q: seq<Page>, open: set<nat>) {
    forall x :: x in Contents(q0) && x.id in open ==> x in Contents(q)
  }

  /** Reusing a page without pending transactions gives up none of them. */
  lemma HoldsNext(q0: seq<Page>, q: seq<Page>, open: set<nat>, id: nat)
    requires Holds(q0, q, open) && q != [] && |q[0].slots| == ENTRIES && Mine(q[0], open) == {}
    ensures Holds(q0, q[1..] + [Fresh(id)], open)
  {
    hide Contents, Fresh, Loaded;
    FirstPage(q);
    DropFirst(q, id);
    LoadedIncreasing(q[0], |q[0].slots|);
    forall x | x in Contents(q0) && x.id in open ensures x in Contents(q[1..] + [Fresh(id)]) {
      assert x in All(q[0]) + Contents(q[1..]) && x.id !in Mine(q[0], open);
      assert x !in All(q[0]);
    }
  }

  /** A ring read from behind position `free` round to it. */
  ghost function Ring<T>(s: seq<T>, free: nat): (r: seq<T>)
    requires free < |s|
    ensures |r| == |s| && r[|s| - 1] == s[free]
  {
    s[free + 1..] + s[..free + 1]
  }

  /** Where position `p` of the ring comes in that order. */
  ghost function Place(n: nat, free: nat, p: nat): (k: nat)
    requires free < n && p < n
    ensures k < n
  {
    if p > free then p - free - 1 else n - free - 1 + p
  }

  lemma RingFirst<T>(x: T, s: seq<T>)
    ensures Ring([x] + s, 0) == s + [x]
  {
  }

  lemma RingAt<T>(s: seq<T>, free: nat, p: nat)
    requires free < |s| && p < |s|
    ensures Ring(s, free)[Place(|s|, free, p)] == s[p]
  {
  }

  lemma RingSet<T>(s: seq<T>, free: nat, p: nat, v: T)
    requires free < |s| && p < |s|
    ensures Ring(s[p := v], free) == Ring(s, free)[Place(|s|, free, p) := v]
  {
  }

  lemma RingNext<T>(s: seq<T>, free: nat, v: T)
    requires free < |s|
    ensures var next := if free + 1 < |s| then free + 1 else 0;
      Ring(s, free)[0] == s[next] && Ring(s[next := v], next) == Ring(s, free)[1..] + [v]
  {
  }

  function FirstPages(n: nat): (r: seq<Page>)
    requires n > 0
    ensures |r| == n
  {
    [Fresh(1)] + seq(n - 1, i => Fresh(0))
  }

  lemma FirstQueue(n: nat)
    requires n > 0
    ensures Filling(Ring(FirstPages(n), 0), 1 + ENTRIES, 0) && Contents(Ring(FirstPages(n), 0)) == []
  {
    hide Filling, Contents, Fresh, Ring;
    RingFirst(Fresh(1), seq(n - 1, i => Fresh(0)));
    FillingFirst(Ring(FirstPages(n), 0));
  }

  function Zeros(n: nat): (r: seq<nat>)
    ensures |r| == n && forall i :: 0 <= i < n ==> r[i] == 0
  {
    seq(n, i => 0)
  }

  lemma NoneOpen(pages: seq<Page>, issued: nat)
    requires |pages| > 0
    ensures Tracks(Ring(pages, 0), Ring(Zeros(|pages|), 0), {}, issued)
  {
    hide Tracks;
    TracksNone(Ring(pages, 0), Ring(Zeros(|pages|), 0));
  }

  class Log {
    var nextId: nat
    var pages: seq<Page>
    var pending: seq<nat>
    var free: nat
    var freeIdx: nat
    /** The ids of the transactions that are not finished. */
    ghost var open: set<nat>

    /** The pages, the one to be reused first in front and the one being filled last. */
    ghost function Queue(): seq<Page>
      reads this
      requires free < |pages|
    {
      Ring(pages, free)
    }

    /** The counters of pending transactions, in the same order. */
    ghost function Pending(): seq<nat>
      reads this
      requires free < |pending|
    {
      Ring(pending, free)
    }

    ghost predicate Valid()
      reads this
    {
      && free < |pages| == |pending| && freeIdx <= ENTRIES <= nextId && Filling(Queue(), nextId, freeIdx)
      && Tracks(Queue(), Pending(), open, nextId - ENTRIES + freeIdx)
    }

    /** bdev_setup_log_list on `n` fresh pages, after the id counter was reset to 1. */
    constructor (n: nat)
      requires n > 0
      ensures Valid() && Contents(Queue()) == [] && |Queue()| == n && freeIdx == 0 && open == {}
    {
      hide Filling, Contents, Tracks, Ring, FirstPages, Zeros;
      nextId := 1 + ENTRIES;
      pages := FirstPages(n);
      pending := Zeros(n);
      free, freeIdx, open := 0, 0, {};
      new;
      FirstQueue(n);
      NoneOpen(FirstPages(n), 1);
    }

    /** The next page of the ring, which has no pending transaction, is zeroed and numbered. */
    method Rotate()
      requires Valid() && Pending()[0] == 0
      modifies this
      ensures Valid() && freeIdx == 0 && nextId == old(nextId) + ENTRIES && open == old(open)
      ensures Queue() == old(Queue())[1..] + [Fresh(old(nextId))] && Pending() == old(Pending())[1..] + [0]
    {
      hide Filling, Tracks, Ring, Fresh;
      FillingNext(Queue(), nextId, freeIdx);
      TracksNext(Queue(), Pending(), open, nextId - ENTRIES + freeIdx, nextId);
      RingNext(pages, free, Fresh(nextId));
      RingNext(pending, free, 0);
      var next := if free + 1 < |pages| then free + 1 else 0;
      assert pending == pending[next := 0];
      pages := pages[next := Fresh(nextId)];
      nextId := nextId + ENTRIES;
      free, freeIdx := next, 0;
    }

    /** get_free_log_page, when the page to fill is found dirty or its disk not ready `skips` times in a row: the ring
        moves on by one page for each time and one more if the page was full. Before a page is reused its pending
        transactions are waited for; the call is then to be made again (`ok` is false), by which time others may have
        finished some. Only the pages passed are reused, and no entry of a pending transaction is given up. */
    method GetFreePage(skips: nat) returns (ok: bool, ghost moved: nat)
      requires Valid()
      modifies this
      ensures Valid() && open == old(open) && nextId == old(nextId) + ENTRIES * moved
      ensures MovedOn(old(Queue()), Queue(), moved) && Holds(old(Queue()), Queue(), open)
      ensures ok ==> freeIdx < ENTRIES && moved == skips + if old(freeIdx) == ENTRIES then 1 else 0
      ensures ok && moved == 0 ==> freeIdx == old(freeIdx)
      ensures !ok ==> freeIdx == ENTRIES && Pending()[0] > 0
    {
      hide Filling, Fresh, MovedOn, Holds, Tracks, Mine, Ring;
      var tries := 0;
      ghost var q0 := Queue();
      moved := 0;
      NotMoved(q0);
      HoldsAll(q0, open);
      while true
        invariant Valid() && 0 <= tries <= skips && nextId == old(nextId) + ENTRIES * moved && open == old(open)
        invariant MovedOn(q0, Queue(), moved) && Holds(q0, Queue(), open)
        invariant if tries == 0 then moved == 0 && freeIdx == old(freeIdx)
                  else moved == tries - 1 + (if old(freeIdx) == ENTRIES then 1 else 0) && freeIdx == ENTRIES
        decreases skips - tries
      {
        if freeIdx == ENTRIES {
          var next := if free + 1 < |pages| then free + 1 else 0;
          RingNext(pending, free, 0);
          if pending[next] != 0 { return false, moved; }
          NonePending(Queue(), nextId, freeIdx, Pending(), open, nextId - ENTRIES + freeIdx);
          MovedNext(q0, Queue(), moved, nextId);
          HoldsNext(q0, Queue(), open, nextId);
          Rotate();
          moved := moved + 1;
        }
        if tries == skips { break; }
        Later(Queue(), nextId, freeIdx, Pending(), open);
        freeIdx := ENTRIES;
        tries := tries + 1;
      }
      ok := true;
    }

    /** log_page_put_entry: a transaction is finished. */
    method PutEntry(p: nat, ghost id: nat)
      requires Valid() && p < |pages| && id in Mine(pages[p], open)
      modifies this`pending, this`open
      ensures Valid() && open == old(open) - {id}
      ensures old(pending[p]) > 0 && pending == old(pending)[p := old(pending[p]) - 1]
    {
      hide Filling, Contents, Tracks, Ring;
      ghost var k := Place(|pages|, free, p);
      RingAt(pages, free, p);
      RingAt(pending, free, p);
      OrderedOf(Queue(), nextId, freeIdx);
      NotIssued(Queue(), Pending(), open, nextId - ENTRIES + freeIdx);
      TracksLess(Queue(), Pending(), open, nextId - ENTRIES + freeIdx, k, id);
      RingSet(pending, free, p, pending[p] - 1);
      pending := pending[p := pending[p] - 1];
      open := open - {id};
    }

    /** fastlog_insert_transaction and fastlog_add_transaction at the fill position: one more entry, numbered above
        all the others. */
    method Insert(e: Entry) returns (id: nat)
      requires Valid() && freeIdx < ENTRIES
      modifies this
      ensures Valid() && freeIdx == old(freeIdx) + 1 && id == nextId - ENTRIES + old(freeIdx)
      ensures id !in old(open) && open == old(open) + {id} && id in Mine(pages[free], open)
      ensures Contents(Queue()) == old(Contents(Queue())) + (if Blank(Pack(e)) then [] else [Numbered(id, Unpack(Pack(e)))])
      ensures Fits(e) && (e.target != 0 || e.block != 0) ==> Contents(Queue()) == old(Contents(Queue())) + [Numbered(id, e)]
    {
      hide Contents, Pack, Unpack, Blank, Fits, Tracks, Ring, Filling, Mine, Ordered;
      if Fits(e) { NotBlank(e); }
      ghost var q, k := Queue(), |pages| - 1;
      Inserted(q, Pending(), open, nextId, freeIdx, Pack(e));
      var page := pages[free];
      id := page.start + freeIdx;
      var page' := page.(slots := page.slots[freeIdx := Pack(e)]);
      RingSet(pages, free, free, page');
      RingSet(pending, free, free, pending[free] + 1);
      assert Place(|pages|, free, free) == k;
      pages := pages[free := page'];
      freeIdx := freeIdx + 1;
      pending := pending[free := pending[free] + 1];
      open := open + {id};
    }

    /** log_page_clear_entry, on the error path of a write: that entry goes, the others stay. */
    method Clear(p: nat, k: nat)
      requires Valid() && p < |pages| && k < ENTRIES && pages[p].start != 0
      modifies this
      ensures Valid() && open == old(open) && Contents(Queue()) == Without(old(Contents(Queue())), old(pages[p].start) + k)
    {
      hide Contents, Without, Ring, Filling, Tracks;
      ghost var q, i := Queue(), Place(|pages|, free, p);
      OrderedOf(q, nextId, freeIdx);
      RingAt(pages, free, p);
      var page := pages[p].(slots := pages[p].slots[k := ZERO]);
      RingSet(pages, free, p, page);
      FillingCleared(q, nextId, freeIdx, i, k);
      TracksCleared(q, Pending(), open, nextId - ENTRIES + freeIdx, i, k);
      Cleared(q, i, k);
      pages := pages[p := page];
    }
  }

  lemma FillingCleared(q: seq<Page>, nextId: nat, at: nat, i: nat, k: nat)
    requires Filling(q, nextId, at) && i < |q| && k < ENTRIES && |q[i].slots| == ENTRIES
    ensures Filling(q[i := q[i].(slots := q[i].slots[k := ZERO])], nextId, at)
  {
  }

  lemma TracksCleared(q: seq<Page>, pending: seq<nat>, open: set<nat>, issued: nat, i: nat, k: nat)
    requires Tracks(q, pending, open, issued) && i < |q| && k < |q[i].slots|
    ensures Tracks(q[i := q[i].(slots := q[i].slots[k := ZERO])], pending, open, issued)
  {
    var q' := q[i := q[i].(slots := q[i].slots[k := ZERO])];
    assert forall j :: 0 <= j < |q| ==> Mine(q'[j], open) == Mine(q[j], open);
  }

  lemma HoldsAll(q: seq<Page>, open: set<nat>)
    ensures Holds(q, q, open)
  {
  }

  lemma NonePending(q: seq<Page>, nextId: nat, at: nat, pending: seq<nat>, open: set<nat>, issued: nat)
    requires Filling(q, nextId, at) && Tracks(q, pending, open, issued) && pending[0] == 0
    ensures |q[0].slots| == ENTRIES && Mine(q[0], open) == {}
  {
  }

  lemma Later(q: seq<Page>, nextId: nat, at: nat, pending: seq<nat>, open: set<nat>)
    requires Filling(q, nextId, at) && at <= ENTRIES <= nextId && Tracks(q, pending, open, nextId - ENTRIES + at)
    ensures Filling(q, nextId, ENTRIES) && Tracks(q, pending, open, nextId)
  {
  }

  lemma OrderedOf(q: seq<Page>, nextId: nat, at: nat)
    requires Filling(q, nextId, at)
    ensures Ordered(q)
  {
  }

  /** What putting an entry into slot `at` of the last page does. */
  lemma Inserted(q: seq<Page>, pending: seq<nat>, open: set<nat>, nextId: nat, at: nat, r: Raw)
    requires Filling(q, nextId, at) && at < ENTRIES <= nextId && Tracks(q, pending, open, nextId - ENTRIES + at)
    ensures var k := |q| - 1;
      && |pending| == |q| > 0 && |q[k].slots| == ENTRIES && q[k].start + ENTRIES == nextId
      && var id, last := q[k].start + at, q[k].(slots := q[k].slots[at := r]);
         && id !in open && id in Mine(last, open + {id})
         && Filling(q[k := last], nextId, at + 1) && Tracks(q[k := last], pending[k := pending[k] + 1], open + {id}, id + 1)
         && Contents(q[k := last]) == Contents(q) + (if Blank(r) then [] else [Numbered(id, Unpack(r))])
  {
    hide Contents, Blank, Unpack, Tracks;
    NotIssued(q, pending, open, nextId - ENTRIES + at);
    var k := |q| - 1;
    var last := q[k].(slots := q[k].slots[at := r]);
    Filled(q, nextId, at, r);
    TracksMore(q, q[k := last], pending, open, q[k].start + at);
  }

  lemma NotIssued(q: seq<Page>, pending: seq<nat>, open: set<nat>, issued: nat)
    requires Tracks(q, pending, open, issued)
    ensures issued !in open && |pending| == |q|
  {
  }

  lemma Filled(q: seq<Page>, nextId: nat, at: nat, r: Raw)
    requires Filling(q, nextId, at) && at < ENTRIES
    ensures var last := q[|q| - 1];
      var q' := q[|q| - 1 := last.(slots := last.slots[at := r])];
      Filling(q', nextId, at + 1)
      && Contents(q') == Contents(q) + (if Blank(r) then [] else [Numbered(last.start + at, Unpack(r))])
  {
    hide Unpack, Blank, Contents, All;
    var k, last := |q| - 1, q[|q| - 1];
    var last' := last.(slots := last.slots[at := r]);
    AllFilled(last, at, r);
    LastChanged(q, last', if Blank(r) then [] else [Numbered(last.start + at, Unpack(r))]);
  }

  /** More in the last page is more at the end of the contents. */
  lemma LastChanged(q: seq<Page>, p: Page, more: seq<Numbered>)
    requires q != [] && All(p) == All(q[|q| - 1]) + more
    ensures Contents(q[|q| - 1 := p]) == Contents(q) + more
  {
    hide All;
    var k := |q| - 1;
    assert q[k := p][..k] == q[..k];
  }

  lemma AllFilled(p: Page, at: nat, r: Raw)
    requires at < |p.slots| && p.start != 0 && forall i :: at <= i < |p.slots| ==> p.slots[i] == ZERO
    ensures All(p.(slots := p.slots[at := r])) == All(p) + (if Blank(r) then [] else [Numbered(p.start + at, Unpack(r))])
  {
    hide Unpack, Blank, Loaded;
    var p' := p.(slots := p.slots[at := r]);
    LoadedBlank(p, at, |p.slots|);
    LoadedBlank(p', at + 1, |p.slots|);
    LoadedSame(p, p', at);
    LoadedNext(p', at);
  }

  lemma LoadedNext(p: Page, k: nat)
    requires k < |p.slots|
    ensures Loaded(p, k + 1) == Loaded(p, k) + Slot(p, k)
  {
  }

  // ---------- Taking one entry out ----------

  ghost function Without(s: seq<Numbered>, id: nat): seq<Numbered> {
    if s == [] then [] else
      Without(s[..|s| - 1], id) + (if s[|s| - 1].id == id then [] else [s[|s| - 1]])
  }

  lemma {:induction false} WithoutAppend(a: seq<Numbered>, b: seq<Numbered>, id: nat)
    ensures Without(a + b, id) == Without(a, id) + Without(b, id)
  {
    if b == [] {
      assert a + b == a;
    } else {
      var k := |b| - 1;
      assert (a + b)[..|a| + k] == a + b[..k];
      WithoutAppend(a, b[..k], id);
    }
  }

  lemma {:induction false} WithoutNone(s: seq<Numbered>, id: nat)
    requires forall i :: 0 <= i < |s| ==> s[i].id != id
    ensures Without(s, id) == s
  {
    if s != [] {
      WithoutNone(s[..|s| - 1], id);
    }
  }

  lemma ZeroBlank()
    ensures Blank(ZERO)
  {
  }

  lemma SlotCleared(p: Page, k: nat, j: nat)
    requires k < |p.slots| && j < |p.slots|
    ensures Slot(p.(slots := p.slots[k := ZERO]), j) == Without(Slot(p, j), p.start + k)
  {
    hide Unpack, Blank;
    ZeroBlank();
    if j != k { WithoutNone(Slot(p, j), p.start + k); }
  }

  lemma {:induction false} LoadedCleared(p: Page, k: nat, n: nat)
    requires k < |p.slots| && n <= |p.slots|
    ensures Loaded(p.(slots := p.slots[k := ZERO]), n) == Without(Loaded(p, n), p.start + k)
  {
    hide Slot, Without;
    if n == 0 {
      WithoutNone([], p.start + k);
    } else {
      LoadedCleared(p, k, n - 1);
      WithoutAppend(Loaded(p, n - 1), Slot(p, n - 1), p.start + k);
      SlotCleared(p, k, n - 1);
    }
  }

  /** Ids of other pages are other ids. */
  lemma OtherPages(q: seq<Page>, i: nat, k: nat)
    requires Ordered(q) && i < |q| && k < ENTRIES && q[i].start != 0
    ensures var n, id := |q| - 1, q[i].start + k;
      if i == n then Without(Contents(q[..n]), id) == Contents(q[..n]) else Without(All(q[n]), id) == All(q[n])
  {
    hide Loaded, Contents, Without;
    var id, n := q[i].start + k, |q| - 1;
    if i == n {
      ContentsIncreasing(q[..n]);
      if n > 0 && q[n - 1].start == 0 { NothingUsed(q[..n]); }
      WithoutNone(Contents(q[..n]), id);
    } else {
      LoadedIncreasing(q[n], ENTRIES);
      WithoutNone(All(q[n]), id);
    }
  }

  lemma {:induction false} Cleared(q: seq<Page>, i: nat, k: nat)
    requires Ordered(q) && i < |q| && k < ENTRIES && q[i].start != 0
    ensures Contents(q[i := q[i].(slots := q[i].slots[k := ZERO])]) == Without(Contents(q), q[i].start + k)
  {
    hide Loaded, Without;
    var id, n := q[i].start + k, |q| - 1;
    var p' := q[i].(slots := q[i].slots[k := ZERO]);
    WithoutAppend(Contents(q[..n]), All(q[n]), id);
    OtherPages(q, i, k);
    if i == n {
      assert q[i := p'][..n] == q[..n];
      LoadedCleared(q[i], k, ENTRIES);
    } else {
      assert q[i := p'][..n] == q[..n][i := p'];
      Cleared(q[..n], i, k);
    }
  }

  /** Reusing the first page of ordered pages drops the entries at the front. */
  lemma DropFirst(q: seq<Page>, id: nat)
    requires q != []
    ensures |All(q[0])| <= |Contents(q)| && Contents(q[1..] + [Fresh(id)]) == Contents(q)[|All(q[0])|..]
  {
    FirstPage(q);
    LoadedBlank(Fresh(id), 0, ENTRIES);
    assert (q[1..] + [Fresh(id)])[..|q| - 1] == q[1..];
  }

  lemma {:induction false} ContentsAppend(a: seq<Page>, b: seq<Page>)
    ensures Contents(a + b) == Contents(a) + Contents(b)
  {
    hide All;
    if b == [] {
      assert a + b == a;
    } else {
      var k := |b| - 1;
      assert (a + b)[..|a| + k] == a + b[..k] && (a + b)[|a| + k] == b[k];
      ContentsAppend(a, b[..k]);
    }
  }

  lemma FirstPage(q: seq<Page>)
    requires q != []
    ensures Contents(q) == All(q[0]) + Contents(q[1..])
  {
    hide All;
    ContentsAppend(q[..1], q[1..]);
    assert q[..1] + q[1..] == q && q[..1][..0] == [];
  }

  // ---------- Reading back ----------

  ghost predicate Ascending(q: seq<Page>) {
    forall i, j :: 0 <= i < j < |q| ==> q[i].start <= q[j].start
  }

  /** log_page_insert: behind every page with a smaller start. */
  method InsertPage(list: seq<Page>, page: Page) returns (r: seq<Page>)
    requires Ascending(list)
    ensures Ascending(r) && multiset(r) == multiset(list) + multiset{page}
  {
    hide Ascending;
    var i := 0;
    while i < |list| && list[i].start < page.start
      invariant 0 <= i <= |list| && forall j :: 0 <= j < i ==> list[j].start < page.start
    {
      i := i + 1;
    }
    r := list[..i] + [page] + list[i..];
    assert list == list[..i] + list[i..];
    InsertedAscending(list, page, i);
  }

  lemma InsertedAscending(list: seq<Page>, page: Page, i: nat)
    requires Ascending(list) && i <= |list| && (forall j :: 0 <= j < i ==> list[j].start < page.start)
    requires i < |list| ==> page.start <= list[i].start
    ensures Ascending(list[..i] + [page] + list[i..])
  {
    assert forall j :: i <= j < |list| ==> page.start <= list[j].start;
  }

  ghost function Used(q: seq<Page>): seq<Page> {
    if q == [] then [] else
      Used(q[..|q| - 1]) + (if q[|q| - 1].start == 0 then [] else [q[|q| - 1]])
  }

  /** bint_check_write_logs over the pages of all disks: the used pages, sorted. */
  method CollectPages(scan: seq<Page>) returns (list: seq<Page>)
    ensures Ascending(list) && multiset(list) == multiset(Used(scan))
  {
    hide Ascending, Used;
    list := [];
    var i := 0;
    NoPages();
    assert scan[..0] == [];
    while i < |scan|
      invariant 0 <= i <= |scan| && Ascending(list) && multiset(list) == multiset(Used(scan[..i]))
    {
      UsedNext(scan, i);
      if scan[i].start != 0 { list := InsertPage(list, scan[i]); }
      i := i + 1;
    }
    assert scan[..i] == scan;
  }

  lemma NoPages()
    ensures Ascending([]) && Used([]) == []
  {
  }

  lemma UsedNext(scan: seq<Page>, i: nat)
    requires i < |scan|
    ensures multiset(Used(scan[..i + 1]))
      == multiset(Used(scan[..i])) + if scan[i].start == 0 then multiset{} else multiset{scan[i]}
  {
    assert scan[..i + 1][..i] == scan[..i];
  }

  /** log_page_load_entries_v2. */
  method LoadPage(page: Page, list: seq<Numbered>) returns (r: seq<Numbered>)
    ensures r == list + Loaded(page, |page.slots|)
  {
    hide Unpack, Blank;
    r := list;
    var i := 0;
    while i < |page.slots|
      invariant 0 <= i <= |page.slots| && r == list + Loaded(page, i)
    {
      if !Blank(page.slots[i]) {
        r := r + [Numbered(page.start + i, Unpack(page.slots[i]))];
      }
      i := i + 1;
    }
  }

  /** The entries that replay starts from. Whatever the order in which the disks and their pages are scanned, they
      are the contents of the log in the order of writing. */
  method Load(scan: seq<Page>, ghost q: seq<Page>) returns (entries: seq<Numbered>)
    requires Ordered(q) && multiset(scan) == multiset(q)
    ensures entries == Contents(q) && Increasing(entries)
  {
    hide Loaded, All, Used, Increasing, Within;
    var list := CollectPages(scan);
    SamePages(scan, q);
    UsedOrdered(q);
    OneOrder(list, Used(q));
    entries := [];
    var i := 0;
    while i < |list|
      invariant 0 <= i <= |list| && entries == Contents(list[..i])
    {
      entries := LoadPage(list[i], entries);
      OneMorePage(list, i);
      i := i + 1;
    }
    assert list[..i] == list;
    UsedContents(q);
    ContentsIncreasing(q);
  }

  lemma OneMorePage(list: seq<Page>, i: nat)
    requires i < |list| && list[i].start != 0
    ensures Contents(list[..i + 1]) == Contents(list[..i]) + Loaded(list[i], |list[i].slots|)
  {
    assert list[..i + 1][..i] == list[..i];
  }

  lemma {:induction false} UsedCount(q: seq<Page>, p: Page)
    ensures multiset(Used(q))[p] == if p.start == 0 then 0 else multiset(q)[p]
  {
    if q != [] {
      var k := |q| - 1;
      UsedCount(q[..k], p);
      assert q == q[..k] + [q[k]];
    }
  }

  lemma SamePages(a: seq<Page>, b: seq<Page>)
    requires multiset(a) == multiset(b)
    ensures multiset(Used(a)) == multiset(Used(b))
  {
    forall p ensures multiset(Used(a))[p] == multiset(Used(b))[p] {
      UsedCount(a, p);
      UsedCount(b, p);
    }
  }

  ghost predicate Distinct(q: seq<Page>) {
    && (forall i :: 0 <= i < |q| ==> 0 < q[i].start)
    && (forall i, j :: 0 <= i < j < |q| ==> q[i].start < q[j].start)
  }

  lemma {:induction false} UsedAre(q: seq<Page>)
    ensures forall p :: p in Used(q) ==> p in q && 0 < p.start
  {
    if q != [] {
      UsedAre(q[..|q| - 1]);
    }
  }

  lemma {:induction false} UsedOrdered(q: seq<Page>)
    requires Ordered(q)
    ensures Distinct(Used(q))
  {
    if q != [] {
      var k := |q| - 1;
      var u := Used(q[..k]);
      UsedOrdered(q[..k]);
      UsedAre(q[..k]);
      forall i | 0 <= i < |u| ensures u[i].start < q[k].start {
        assert u[i] in q[..k];
        var j :| 0 <= j < k && q[..k][j] == u[i];
        assert q[j].start == 0 || q[j].start + ENTRIES <= q[k].start;
      }
    }
  }

  lemma {:induction false} UsedContents(q: seq<Page>)
    ensures Contents(Used(q)) == Contents(q)
  {
    hide Loaded;
    if q != [] {
      var k := |q| - 1;
      UsedContents(q[..k]);
      if q[k].start != 0 {
        assert Used(q)[..|Used(q)| - 1] == Used(q[..k]);
      } else {
        assert Used(q) == Used(q[..k]);
      }
    }
  }

  lemma LastSame(a: seq<Page>, b: seq<Page>)
    requires Ascending(a) && Distinct(b) && multiset(a) == multiset(b) && |a| == |b| > 0
    ensures a[|a| - 1] == b[|b| - 1]
  {
    var k := |a| - 1;
    assert a[k] in multiset(b) && b[k] in multiset(a);
    var i :| 0 <= i <= k && b[i] == a[k];
    var j :| 0 <= j <= k && a[j] == b[k];
    assert a[j].start <= a[k].start;
  }

  lemma AllButLast(a: seq<Page>)
    requires a != []
    ensures multiset(a[..|a| - 1]) == multiset(a) - multiset{a[|a| - 1]}
  {
    assert a == a[..|a| - 1] + [a[|a| - 1]];
  }

  lemma SameSize(a: seq<Page>, b: seq<Page>)
    requires multiset(a) == multiset(b)
    ensures |a| == |b|
  {
    assert |multiset(a)| == |a| && |multiset(b)| == |b|;
  }

  lemma FrontSame(a: seq<Page>, b: seq<Page>)
    requires Ascending(a) && Distinct(b) && multiset(a) == multiset(b) && |a| == |b| > 0
    ensures var k := |a| - 1;
      Ascending(a[..k]) && Distinct(b[..k]) && multiset(a[..k]) == multiset(b[..k]) && a[k] == b[k]
  {
    LastSame(a, b);
    AllButLast(a);
    AllButLast(b);
  }

  /** Only one arrangement of pages is sorted by distinct starts. */
  lemma {:induction false} OneOrder(a: seq<Page>, b: seq<Page>)
    requires Ascending(a) && Distinct(b) && multiset(a) == multiset(b)
    ensures a == b
  {
    hide Ascending, Distinct;
    SameSize(a, b);
    if a != [] {
      var k := |a| - 1;
      FrontSame(a, b);
      OneOrder(a[..k], b[..k]);
      assert a == a[..k] + [a[k]] && b == b[..k] + [b[k]];
    }
  }
}
