/** A deduplication lookup node and the code that runs under its lock: lookup, insertion with
    eviction, removal (ddtable.c), and the free path that removes an entry (ddthread.c).

    Each method leaves the node and the index as the corresponding step of module Dedupe says. */
module LookupNode {
  import opened Units
  import opened Dedupe
  import opened BlockIndex
  import PackedBits
  import FullMap

  const MAX_BLOCKS := 97    // DDTABLE_LOOKUP_NODE_MAX_BLOCKS

  /** Where a scan over the nodes of a list would put a new entry (struct locate_spec). */
  datatype Spec = Spec(valid: bool, idx: nat)

  /** The slot found so far for a new entry, on this node or (not `here`) on one before it; `newEntry` when it is free. */
  datatype Locate = Locate(valid: bool, newEntry: bool, idx: nat, time: nat, here: bool)

  /** ddtable_add_to_locate_spec. */
  function Consider(l: Locate, e: Entry, i: nat): Locate {
    var time := if e.Empty? then 0 else e.time;
    if e.Empty? || l.time == 0 || time < l.time then Locate(true, l.newEntry || e.Empty?, i, time, true) else l
  }

  /** The entries before `n` of disks that are gone, dropped. */
  function DropGone(entries: seq<Entry>, disks: set<nat>, n: nat): (r: seq<Entry>)
    ensures |r| == |entries|
  {
    seq(|entries|, k requires 0 <= k < |entries| => if k < n && Gone(entries[k], disks) then Empty else entries[k])
  }

  predicate Gone(e: Entry, disks: set<nat>) { e.Entry? && e.block.page.bid !in disks }

  predicate Matches(e: Entry, hash: nat, disks: set<nat>, pool: set<nat>)
  {
    e.Entry? && e.hash == hash && e.block.page.bid in disks && e.block.page.bid in pool
  }

  class Node {
    const bStart: nat
    var entries: seq<Entry>

    ghost predicate Valid() reads this { bStart != 0 && |entries| <= MAX_BLOCKS }

    constructor (bStart: nat)
      requires bStart != 0
      ensures Valid() && this.bStart == bStart && entries == []
    {
      this.bStart, entries := bStart, [];
    }

    /** ddtable_clear_invalid_entries: every entry that shares a unit with `b` is dropped; `insertIdx` is
        the last empty slot, or -1. */
    method ClearInvalidEntries(b: Block) returns (insertIdx: int)
      requires Valid()
      modifies this
      ensures Valid() && entries == ClearHits(old(entries), b)
      ensures -1 <= insertIdx < |entries| && (insertIdx >= 0 ==> entries[insertIdx].Empty?)
      ensures forall i :: insertIdx < i < |entries| ==> entries[i].Entry?
    {
      insertIdx := -1;
      var i := 0;
      while i < |entries|
        invariant 0 <= i <= |entries| == |old(entries)|
        invariant forall k :: 0 <= k < i ==> entries[k] == if Hits(old(entries)[k], b) then Empty else old(entries)[k]
        invariant forall k :: i <= k < |entries| ==> entries[k] == old(entries)[k]
        invariant -1 <= insertIdx < i && (insertIdx >= 0 ==> entries[insertIdx].Empty?)
        invariant forall k :: insertIdx < k < i ==> entries[k].Entry?
      {
        if entries[i].Empty? {
          insertIdx := i;
        } else if Overlaps(entries[i].block, b) {
          entries := entries[i := Empty];
          insertIdx := i;
        }
        i := i + 1;
      }
    }

    /** The search of ddtable_ddlookup_find_entry: the first entry with the digest whose disk is in the
        pool. Entries of disks that are gone are dropped on the way. */
    method FindEntry(hash: nat, disks: set<nat>, pool: set<nat>) returns (found: bool, i: nat)
      requires Valid()
      modifies this
      ensures Valid() && |entries| == |old(entries)| && i <= |entries|
      ensures forall k :: 0 <= k < |entries| ==>
        entries[k] == if k < i && Gone(old(entries)[k], disks) then Empty else old(entries)[k]
      ensures found ==> i < |entries| && Matches(entries[i], hash, disks, pool)
      ensures found ==> entries[i].Entry? && entries[i].hash == hash && entries[i].block.page.bid in disks * pool
      ensures !found ==> i == |entries|
      ensures forall k :: 0 <= k < i ==> !Matches(old(entries)[k], hash, disks, pool)
    {
      i := 0;
      while i < |entries|
        invariant 0 <= i <= |entries| == |old(entries)|
        invariant forall k :: 0 <= k < |entries| ==>
          entries[k] == if k < i && Gone(old(entries)[k], disks) then Empty else old(entries)[k]
        invariant forall k :: 0 <= k < i ==> !Matches(old(entries)[k], hash, disks, pool)
      {
        if entries[i].Entry? {
          if entries[i].block.page.bid !in disks {
            entries := entries[i := Empty];
          } else if entries[i].hash == hash && entries[i].block.page.bid in pool {
            return true, i;
          }
        }
        i := i + 1;
      }
      found := false;
    }

    /** The same search on behalf of an insertion, which goes through all nodes of a list. An entry with the digest of the
        page is replaced by one for its new block. Otherwise a slot is remembered: the first free one, and while there is
        none the oldest entry. */
    method ScanForInsert(index: Index, b: Block, hash: nat, time: nat, disks: set<nat>, spec: Locate)
        returns (found: bool, i: nat, loc: Locate)
      requires Valid() && index.Valid() && b.start < index.page.count
      requires bStart * REFS + MAX_REFS < PackedBits.Pow2(index.page.bbits)
      modifies this, index.page.words
      ensures Valid() && index.Valid() && i <= |old(entries)|
      ensures forall k :: 0 <= k < i ==> old(entries)[k].Entry? && old(entries)[k].hash == hash ==> Gone(old(entries)[k], disks)
      ensures var d, u := DropGone(old(entries), disks, i), old(index.Units());
        if found then
          && i < |d| && d[i].Entry? && d[i].hash == hash
          && if u[b.start] != 0 && Units.Node(u[b.start]) == 0 then
               entries == Place(ClearHits(d, b), i, Entry(b, hash, time))
               && index.Units() == u[b.start := bStart * REFS + Refs(u[b.start])]
             else entries == ClearHits(d, b) && index.Units() == u
        else i == |d| && entries == d && index.Units() == u && Chosen(d, spec, loc)
    {
      hide PackedBits.Pow2, PackedBits.Unpack, PackedBits.Rest, Used, FullMap.Clear, FullMap.Shape, Chosen, ChosenSoFar;
      i, loc := 0, spec;
      ChosenNone(old(entries), spec);
      assert entries == DropGone(old(entries), disks, 0);
      while i < |entries|
        invariant 0 <= i <= |entries| == |old(entries)| && entries == DropGone(old(entries), disks, i)
        invariant index.Units() == old(index.Units()) && index.Valid()
        invariant forall k :: 0 <= k < i ==> old(entries)[k].Entry? && old(entries)[k].hash == hash ==> Gone(old(entries)[k], disks)
        invariant ChosenSoFar(entries, i, spec, loc)
      {
        ghost var d := entries;
        if entries[i].Entry? && entries[i].block.page.bid !in disks {
          entries := entries[i := Empty];
        } else if entries[i].Entry? && entries[i].hash == hash {
          assert d == DropGone(old(entries), disks, i);
          var insertIdx := ClearInvalidEntries(b);
          var ok := SetNodeBlock(index, b, hash, time, i);
          return true, i, loc;
        }
        assert entries == DropGone(old(entries), disks, i + 1);
        ChosenMore(d, entries, i, spec, loc);
        if !loc.newEntry { loc := Consider(loc, entries[i], i); }
        i := i + 1;
      }
      ghost var l := loc;
      if !loc.newEntry && |entries| != MAX_BLOCKS { loc := Consider(loc, Empty, |entries|); }
      ChosenEnd(entries, spec, l);
      found := false;
    }

    /** ddtable_set_node_block, given that the page still holds the block: the block's first unit is made
        to point here, then the entry is written. Nothing happens when it already points somewhere. */
    method SetNodeBlock(index: Index, b: Block, hash: nat, time: nat, insertIdx: nat) returns (ok: bool)
      requires Valid() && index.Valid() && b.start < index.page.count && insertIdx <= |entries| && insertIdx < MAX_BLOCKS
      requires bStart * REFS + MAX_REFS < PackedBits.Pow2(index.page.bbits)
      modifies this, index.page.words
      ensures Valid() && index.Valid()
      ensures ok <==> old(index.Units()[b.start]) != 0 && Units.Node(old(index.Units()[b.start])) == 0
      ensures ok ==> index.Units() == old(index.Units())[b.start := bStart * REFS + Refs(old(index.Units()[b.start]))]
      ensures ok ==> entries == Place(old(entries), insertIdx, Entry(b, hash, time))
      ensures !ok ==> index.Units() == old(index.Units()) && entries == old(entries)
    {
      hide PackedBits.Pow2, PackedBits.Unpack, PackedBits.Rest, Used, FullMap.Clear, FullMap.Shape;
      ok := index.SetNodeBlock(b.start, bStart);
      if !ok { return; }
      if insertIdx < |entries| {
        entries := entries[insertIdx := Entry(b, hash, time)];
      } else {
        entries := entries + [Entry(b, hash, time)];
      }
    }

    /** ddtable_ddlookup_insert_entry: clear, choose a slot, make the block known. The slot is the one the
        scan chose, unless an empty one turned up; a full node without either refuses. */
    method InsertEntry(index: Index, b: Block, hash: nat, time: nat, spec: Spec) returns (inserted: bool, ghost idx: nat)
      requires Valid() && index.Valid() && b.start < index.page.count
      requires spec.valid ==> spec.idx <= |entries| && spec.idx < MAX_BLOCKS
      requires bStart * REFS + MAX_REFS < PackedBits.Pow2(index.page.bbits)
      modifies this, index.page.words
      ensures Valid() && index.Valid() && idx <= |old(entries)|
      ensures inserted ==> index.Units() == old(index.Units())[b.start := bStart * REFS + Refs(old(index.Units()[b.start]))]
      ensures inserted ==> entries == Place(ClearHits(old(entries), b), idx, Entry(b, hash, time))
      ensures inserted ==> SlotFor(ClearHits(old(entries), b), spec, idx)
      ensures !inserted ==> index.Units() == old(index.Units()) && entries == ClearHits(old(entries), b)
      ensures inserted <==>
        && old(index.Units()[b.start]) != 0 && Units.Node(old(index.Units()[b.start])) == 0
        && (spec.valid || |old(entries)| < MAX_BLOCKS || !NoRoom(ClearHits(old(entries), b)))
    {
      hide PackedBits.Pow2, PackedBits.Unpack, PackedBits.Rest, Used, FullMap.Clear, FullMap.Shape, ClearHits;
      var insertIdx := ClearInvalidEntries(b);
      var valid := spec.valid && insertIdx < 0;
      if valid { insertIdx := spec.idx; }
      idx := 0;
      if insertIdx < 0 {
        if |entries| == MAX_BLOCKS { return false, 0; }
        insertIdx := |entries|;
      }
      idx := insertIdx;
      inserted := SetNodeBlock(index, b, hash, time, insertIdx);
    }

    /** ddtable_hash_remove_block */
    method HashRemoveBlock(b: Block)
      requires Valid()
      modifies this
      ensures Valid() && entries == Remove(old(entries), b)
    {
      var i := 0;
      while i < |entries|
        invariant 0 <= i <= |entries| && entries == old(entries)
        invariant Remove(entries, b) == entries[..i] + Remove(entries[i..], b)
      {
        if entries[i].Entry? && entries[i].block == b {
          assert entries[i..][0] == entries[i] && entries[i..][1..] == entries[i + 1..];
          assert entries[..i] + ([Empty] + entries[i + 1..]) == entries[i := Empty];
          entries := entries[i := Empty];
          return;
        }
        assert entries[i..][0] == entries[i] && entries[i..][1..] == entries[i + 1..];
        assert entries[..i] + ([entries[i]] + Remove(entries[i + 1..], b)) == entries[..i + 1] + Remove(entries[i + 1..], b);
        i := i + 1;
      }
    }

    /** ddblock_info_get: take a reference if the block still points here; otherwise drop the entry. */
    method BlockInfoGet(index: Index, i: nat, time: nat) returns (found: bool)
      requires Valid() && index.Valid() && i < |entries| && entries[i].Entry?
      requires entries[i].block.start + entries[i].block.count <= index.page.count
      modifies this, index.page.words
      ensures Valid() && index.Valid()
      ensures var b := old(entries[i].block);
        && (found <==> RefOutcome(old(index.Units()), b.start, b.count, bStart).None?)
        && index.Units() == (if found then BumpUnits(old(index.Units()), b.start, b.count) else old(index.Units()))
        && entries == old(entries)[i := if found then old(entries[i]).(time := time) else Empty]
    {
      hide PackedBits.Pow2, PackedBits.Unpack, PackedBits.Rest, Used, FullMap.Clear, FullMap.Shape, BumpUnits, RefOutcome;
      var b := entries[i].block;
      var error := index.RefBlock(b.start, b.count, bStart);
      found := error == RefError.None;
      entries := entries[i := if found then entries[i].(time := time) else Empty];
    }
  }

  /** The second half of process_delete_block, under node and index locks: free the block and, if that
      released it, remove its entry from the node it was read to point at. */
  method DeleteBlock(index: Index, node: Node?, b: Block) returns (freed: bool)
    requires index.Valid() && b.start + b.count <= index.page.count && (node != null ==> node.Valid())
    modifies index`freeBlocks, index`unmarkedFull, index.page.words, index.device, index.group, node
    ensures index.Valid() && (node != null ==> node.Valid())
    ensures index.Units() == DropUnits(old(index.Units()), b.start, old(Agreed(index.Units(), b.start, b.count)))
    ensures freed <==> b.count > 0 && old(Agreed(index.Units(), b.start, b.count) == b.count && Refs(index.Units()[b.start]) == 1)
    ensures node != null ==> node.entries == if freed then Remove(old(node.entries), b) else old(node.entries)
    ensures index.Space() == old(index.Space()) && (freed ==> !index.group.full[index.id])
  {
    hide PackedBits.Pow2, PackedBits.Unpack, PackedBits.Rest, Used, FullMap.Clear, FullMap.Shape, DropUnits, Agreed, Remove;
    freed := index.FreeBlock(b.start, b.count);
    if freed && node != null { node.HashRemoveBlock(b); }
  }

  // ---------- Which slot a scan chooses ----------

  predicate NoRoom(d: seq<Entry>) { forall k :: 0 <= k < |d| ==> d[k].Entry? }

  /** The slot of a new entry: the last empty one, else the one the scan chose, else one more at the end. */
  predicate SlotFor(d: seq<Entry>, spec: Spec, idx: nat) {
    if !NoRoom(d) then idx < |d| && d[idx].Empty? && forall k :: idx < k < |d| ==> d[k].Entry?
    else if spec.valid then idx == spec.idx
    else idx == |d| < MAX_BLOCKS
  }

  /** The slot chosen among the first `n` entries: the first free one; with none, the oldest, unless an older one was
      remembered. Nothing is chosen over a free slot that was remembered. */
  ghost predicate ChosenSoFar(d: seq<Entry>, n: nat, spec: Locate, loc: Locate)
    requires n <= |d|
  {
    if spec.newEntry then loc == spec
    else if exists k :: 0 <= k < n && d[k].Empty? then
      && loc.valid && loc.newEntry && loc.here && loc.idx < n && d[loc.idx].Empty?
      && forall k :: 0 <= k < loc.idx ==> d[k].Entry?
    else !loc.newEntry && (Timed(d, n) && (spec.valid ==> spec.time > 0) && (!spec.valid ==> spec.time == 0) ==>
      if n > 0 && (!spec.valid || exists k :: 0 <= k < n && d[k].time < spec.time) then
        && loc.valid && loc.here && loc.idx < n && loc.time == d[loc.idx].time
        && forall k :: 0 <= k < n ==> loc.time <= d[k].time
      else loc == spec)
  }

  ghost predicate Timed(d: seq<Entry>, n: nat)
    requires n <= |d|
  {
    forall k :: 0 <= k < n ==> d[k].Entry? && d[k].time > 0
  }

  /** The slot chosen after the last entry: room at the end counts as a free slot. */
  ghost predicate Chosen(d: seq<Entry>, spec: Locate, loc: Locate) {
    if !spec.newEntry && (forall k :: 0 <= k < |d| ==> d[k].Entry?) && |d| != MAX_BLOCKS
    then loc == Locate(true, true, |d|, 0, true)
    else ChosenSoFar(d, |d|, spec, loc)
  }

  lemma ChosenNone(d: seq<Entry>, spec: Locate)
    ensures ChosenSoFar(d, 0, spec, spec)
  {
  }

  lemma ChosenMore(was: seq<Entry>, d: seq<Entry>, i: nat, spec: Locate, loc: Locate)
    requires |was| == |d| && i < |d| && (forall k :: 0 <= k < i ==> d[k] == was[k]) && ChosenSoFar(was, i, spec, loc)
    ensures ChosenSoFar(d, i + 1, spec, if loc.newEntry then loc else Consider(loc, d[i], i))
  {
  }

  lemma ChosenEnd(d: seq<Entry>, spec: Locate, loc: Locate)
    requires ChosenSoFar(d, |d|, spec, loc)
    ensures Chosen(d, spec, if !loc.newEntry && |d| != MAX_BLOCKS then Consider(loc, Empty, |d|) else loc)
  {
  }
}
