/** One allocation index of a disk: a packed page of units, allocated by linear scan, shared,
    referenced, freed and replayed in place. */
module BlockIndex {
  import opened PackedBits
  import opened Units
  import FullMap

  /** Free-space counters of a disk and of the pool it belongs to; `unit` is 1 << meta_shift. */
  class Device {
    const unit: nat
    var free: int
    var pool: int

    constructor (unit: nat, free: int, pool: int)
      ensures this.unit == unit && this.free == free && this.pool == pool
    {
      this.unit, this.free, this.pool := unit, free, pool;
    }

    /** bint_decr_free (and bint_incr_free, with a negative count). */
    method Take(blocks: int)
      modifies this
      ensures free == old(free) - blocks * unit && pool == old(pool) - blocks * unit
    {
      free := free - blocks * unit;
      pool := pool - blocks * unit;
    }
  }

  class Index {
    const id: nat
    const page: Page
    const device: Device
    const group: FullMap.Group
    var freeBlocks: int
    var checkIdx: nat
    var loadDone: bool           // META_LOAD_DONE
    var unmarkedFull: bool       // META_INDEX_UNMARKED_FULL

    ghost function Units(): (r: seq<nat>)
      requires page.Valid()
      reads page.words
      ensures |r| == page.count
    {
      page.Entries()
    }

    /** What the disk has free and what this index uses of it, in bytes. */
    ghost function Space(): int
      requires page.Valid()
      reads page.words, device
    {
      device.free + Used(Units()) * device.unit
    }

    ghost predicate Valid()
      reads this, page.words, group
    {
      && page.Valid() && page.bbits > 13
      && Clean(Units())
      && checkIdx <= page.count
      && (loadDone ==> freeBlocks == page.count - Used(Units()))
      && group.Valid() && id < |group.full|
      && (unmarkedFull ==> !group.full[id])
    }

    /** A new index: every unit free, nothing known about the bitmap. */
    constructor (id: nat, page: Page, device: Device, group: FullMap.Group)
      requires page.Valid() && page.bbits > 13 && page.Entries() == seq(page.count, i => 0)
      requires group.Valid() && id < |group.full|
      ensures Valid() && this.page == page && this.device == device && this.group == group && this.id == id
      ensures loadDone && freeBlocks == page.count && checkIdx == 0
    {
      this.id, this.page, this.device, this.group := id, page, device, group;
      freeBlocks, checkIdx, loadDone, unmarkedFull := page.count, 0, true, false;
      new;
      AllFree(page.count);
    }

    /** An index read from disk: nothing is known of its free units or of the bitmap until it is loaded. */
    constructor Load(id: nat, page: Page, device: Device, group: FullMap.Group)
      requires page.Valid() && page.bbits > 13 && Clean(page.Entries())
      requires group.Valid() && id < |group.full|
      ensures Valid() && this.page == page && this.device == device && this.group == group && this.id == id
      ensures !loadDone && !unmarkedFull
    {
      this.id, this.page, this.device, this.group := id, page, device, group;
      freeBlocks, checkIdx, loadDone, unmarkedFull := 0, 0, false, false;
    }

    /** index_mark_blocks */
    method MarkBlocks(start: nat, count: nat)
      requires Valid() && start + count <= page.count && FreeRun(Units(), start, count)
      modifies this`freeBlocks, page.words, device
      ensures Units() == MarkUnits(old(Units()), start, count)
      ensures freeBlocks == old(freeBlocks) - count
      ensures Used(Units()) == old(Used(Units())) + count
      ensures device.free == old(device.free) - count * device.unit && device.pool == old(device.pool) - count * device.unit
      ensures Valid() && Space() == old(Space()) && page.Beyond() == old(page.Beyond())
    {
      hide Used, Unpack, Rest, FullMap.Clear;
      Distribute(Used(Units()), count, device.unit);
      MarkRun(start, count);
      freeBlocks := freeBlocks - count;
      device.Take(count);
    }

    method MarkRun(start: nat, count: nat)
      requires page.Valid() && page.bbits > 13 && start + count <= page.count && FreeRun(Units(), start, count)
      modifies page.words
      ensures Units() == MarkUnits(old(Units()), start, count)
      ensures Used(Units()) == old(Used(Units())) + count && page.Beyond() == old(page.Beyond())
    {
      hide Used, Unpack, Rest, Pow2;
      ghost var was := Units();
      SmallValues(page.bbits);
      var i := start;
      assert Units() == MarkUnits(was, start, 0);
      while i < start + count
        invariant start <= i <= start + count
        invariant Units() == MarkUnits(was, start, i - start)
        invariant Used(Units()) == Used(was) + (i - start) && page.Beyond() == old(page.Beyond())
      {
        UsedAfter(Units(), i, 1);
        page.Set(i, 1);
        assert Units() == MarkUnits(was, start, i + 1 - start);
        i := i + 1;
      }
    }

    /** The scan for free units: the first run of `count` at or after `checkIdx`, or none. */
    method FindRun(count: nat) returns (found: bool, start: nat)
      requires Valid()
      ensures found ==> count > 0 && checkIdx <= start && start + count <= page.count && FreeRun(Units(), start, count)
      ensures found ==> forall s :: checkIdx <= s < start ==> !FreeRun(Units(), s, count)
      ensures !found && count > 0 ==> forall s :: checkIdx <= s && s + count <= page.count ==> !FreeRun(Units(), s, count)
    {
      hide Unpack, Rest, Used;
      var i, done := checkIdx, 0;
      while i < page.count
        invariant checkIdx <= i - done && i <= page.count && 0 <= done && (count > 0 ==> done < count)
        invariant FreeRun(Units(), i - done, done)
        invariant i - done > checkIdx ==> Units()[i - done - 1] != 0
        invariant count > 0 ==> forall s :: checkIdx <= s && s + count <= i ==> !FreeRun(Units(), s, count)
      {
        var val := page.Get(i);
        if val != 0 {
          done := 0;
        } else if done + 1 == count {
          return true, i - done;
        } else {
          done := done + 1;
        }
        i := i + 1;
      }
      return false, 0;
    }

    /** bint_alloc_block: the first fit, marked; or the index is exhausted from `checkIdx` on. */
    method AllocBlock(count: nat) returns (found: bool, start: nat, markFull: bool)
      requires Valid()
      modifies this`freeBlocks, this`checkIdx, page.words, device
      ensures Valid() && Space() == old(Space()) && device.pool - device.free == old(device.pool - device.free)
      ensures found ==> count > 0 && old(checkIdx) <= start && start + count <= page.count
      ensures found ==> old(FreeRun(Units(), start, count)) && Units() == MarkUnits(old(Units()), start, count)
      ensures found ==> forall s :: old(checkIdx) <= s < start ==> !old(FreeRun(Units(), s, count))
      ensures !found && count > 0 ==>
        forall s :: old(checkIdx) <= s && s + count <= page.count ==> !old(FreeRun(Units(), s, count))
      ensures !found ==> Units() == old(Units()) && device.free == old(device.free)
      ensures checkIdx == (if found then start + count else page.count)
      ensures (markFull <==> checkIdx == page.count) && page.Beyond() == old(page.Beyond())
    {
      hide Used, Unpack, Rest, FullMap.Clear;
      found, start := FindRun(count);
      if !found {
        checkIdx := page.count;
        return false, 0, true;
      }
      MarkBlocks(start, count);
      checkIdx := start + count;
      markFull := checkIdx == page.count;
    }

    /** bint_mark_index_full: the bit is set, and the index no longer remembers having cleared it. */
    method MarkFull()
      requires Valid()
      modifies this`unmarkedFull, group
      ensures Valid() && !unmarkedFull && group.full == old(group.full)[id := true]
    {
      hide Used, Unpack, Rest, FullMap.Clear, FullMap.Shape;
      unmarkedFull := false;
      group.Mark(id);
    }

    /** One index of __bint_subgroup_alloc_fast: allocate; an index scanned to its end is marked full and has to be
        loaded again before it is next used. The slow path leaves the load flag alone. */
    method AllocAndMark(count: nat, fast: bool) returns (found: bool, start: nat, markFull: bool)
      requires Valid()
      modifies this`freeBlocks, this`checkIdx, this`unmarkedFull, this`loadDone, page.words, device, group
      ensures Valid() && Space() == old(Space()) && device.pool - device.free == old(device.pool - device.free)
      ensures found ==> count > 0 && start + count <= page.count && old(FreeRun(Units(), start, count))
      ensures Units() == if found then MarkUnits(old(Units()), start, count) else old(Units())
      ensures markFull <==> !found || start + count == page.count
      ensures found ==> forall s :: old(checkIdx) <= s < start ==> !old(FreeRun(Units(), s, count))
      ensures !found && count > 0 ==>
        forall s :: old(checkIdx) <= s && s + count <= page.count ==> !old(FreeRun(Units(), s, count))
      ensures checkIdx == (if found then start + count else page.count)
      ensures group.full == if markFull then old(group.full)[id := true] else old(group.full)
      ensures unmarkedFull == (old(unmarkedFull) && !markFull) && loadDone == (old(loadDone) && !(fast && markFull))
      ensures page.Beyond() == old(page.Beyond())
    {
      hide Used, Unpack, Rest, FreeRun, MarkUnits, FullMap.Clear, FullMap.Shape;
      found, start, markFull := AllocBlock(count);
      if markFull { MarkFull(); }
      if fast && (!found || markFull) { loadDone := false; }
    }

    /** bint_index_mark_reserved on a new index: its first units are never handed out, and an index made of them only is
        full. */
    method MarkReserved(reserved: nat) returns (rest: nat)
      requires Valid() && FreeRun(Units(), 0, page.count)
      modifies this`freeBlocks, this`unmarkedFull, page.words, device, group
      ensures Valid() && Space() == old(Space()) && device.pool - device.free == old(device.pool - device.free)
      ensures var todo := reserved - rest;
        && rest == (if reserved > page.count then reserved - page.count else 0)
        && Units() == MarkUnits(old(Units()), 0, todo)
        && group.full == if todo == page.count then old(group.full)[id := true] else old(group.full)
      ensures page.Beyond() == old(page.Beyond())
    {
      hide Used, Unpack, Rest, MarkUnits, FullMap.Clear, FullMap.Shape;
      var todo := if reserved < page.count then reserved else page.count;
      MarkBlocks(0, todo);
      rest := reserved - todo;
      if todo == page.count { MarkFull(); }
    }

    /** A reference taken on an extent and given back: whatever the reference's verdict, the page is bit for bit what it
        was. */
    method RefThenFree(entry: nat, count: nat, node: nat) returns (error: RefError)
      requires Valid() && entry + count <= page.count
      modifies this`freeBlocks, this`unmarkedFull, page.words, device, group
      ensures error == RefOutcome(old(Units()), entry, count, node)
      ensures Valid() && page.words[..] == old(page.words[..]) && Units() == old(Units())
      ensures device.free == old(device.free) && group.full == old(group.full)
    {
      hide Used, Unpack, Rest, BumpUnits, DropUnits, FullMap.Clear, FullMap.Shape;
      ghost var was := Units();
      error := RefBlock(entry, count, node);
      if error != RefError.None { return; }
      RefAccepts(was, entry, count, node);
      var freed := FreeBlock(entry, count);
      BumpDrop(was, entry, count);
      SameArray(page.words[..], old(page.words[..]), page.count, page.bbits);
    }

    /** bint_ref_block: on any error every unit is as it was; on success each has one reference more and
        the same node pointer. */
    method RefBlock(entry: nat, count: nat, node: nat) returns (error: RefError)
      requires Valid() && entry + count <= page.count
      modifies page.words
      ensures error == RefOutcome(old(Units()), entry, count, node)
      ensures Units() == if error.None? then BumpUnits(old(Units()), entry, count) else old(Units())
      ensures !error.None? ==> page.words[..] == old(page.words[..])
      ensures Valid() && Used(Units()) == old(Used(Units())) && page.Beyond() == old(page.Beyond())
    {
      hide Used, Unpack, Rest, Pow2, FullMap.Clear;
      ghost var was := Units();
      SmallValues(page.bbits);
      var oldrefs := 0;
      var i := entry;
      assert Units() == BumpUnits(was, entry, 0);
      while i < entry + count
        invariant entry <= i <= entry + count
        invariant Units() == BumpUnits(was, entry, i - entry) && Used(Units()) == Used(was)
        invariant page.Beyond() == old(page.Beyond()) && (i == entry ==> page.words[..] == old(page.words[..]))
        invariant i > entry ==> oldrefs == Refs(was[entry]) && 0 < oldrefs < MAX_REFS && Uniform(was, entry, i - entry)
        invariant i > entry ==> node == 0 || Node(was[entry]) == node
      {
        var val := page.Get(i);
        if i == entry && node != 0 && Node(val) != node { return InvalidNodeBlock; }
        var refs := Refs(val);
        if refs == 0 || (i != entry && refs != oldrefs) {
          Undo(was, entry, i, old(page.words[..]));
          return InvalidRefs;
        }
        if i == entry { oldrefs := refs; }
        if refs == MAX_REFS {
          Undo(was, entry, i, old(page.words[..]));
          return MaxRefs;
        }
        UsedAfter(Units(), i, val + 1);
        page.Set(i, Node(val) * REFS + (refs + 1));
        assert Units() == BumpUnits(was, entry, i + 1 - entry);
        i := i + 1;
      }
      BumpClean(was, entry, count);
      return None;
    }

    /** Take back the references given to `[entry, end)`: the page is, bit for bit, what it was. */
    method Undo(ghost was: seq<nat>, entry: nat, end: nat, ghost words: seq<Word>)
      requires page.Valid() && entry <= end <= page.count == |was| && Units() == BumpUnits(was, entry, end - entry)
      requires forall k :: entry <= k < end ==> 0 < Refs(was[k]) < MAX_REFS
      requires |words| == page.words.Length && was == Unpack(words, page.count, page.bbits)
      requires page.Beyond() == Rest(words, page.count, page.bbits)
      modifies page.words
      ensures Units() == was && page.words[..] == words
    {
      hide Unpack, Rest, Used;
      var j := entry;
      while j < end
        invariant entry <= j <= end && Units() == was[..j] + BumpUnits(was, entry, end - entry)[j..]
        invariant page.Beyond() == Rest(words, page.count, page.bbits)
      {
        var val := page.Get(j);
        assert val == was[j] + 1;
        page.Set(j, Node(val) * REFS + (Refs(val) - 1));
        assert Units() == was[..j + 1] + BumpUnits(was, entry, end - entry)[j + 1..];
        j := j + 1;
      }
      assert Units() == was;
      SameArray(page.words[..], words, page.count, page.bbits);
    }

    /** bint_free_block: one reference less for each unit, as long as the units agree with the first; a
        unit that loses its last reference becomes free and its node pointer is forgotten. When the units
        disagree the scan stops there, `freed` stays false and the bitmap is not updated. */
    method FreeBlock(entry: nat, count: nat) returns (freed: bool)
      requires Valid() && entry + count <= page.count
      modifies this`freeBlocks, this`unmarkedFull, page.words, device, group
      ensures Valid() && Space() == old(Space()) && device.pool - device.free == old(device.pool - device.free)
      ensures Units() == DropUnits(old(Units()), entry, old(Agreed(Units(), entry, count)))
      ensures freed <==> count > 0 && old(Agreed(Units(), entry, count) == count && Refs(Units()[entry]) == 1)
      ensures freed ==> !group.full[id]
      ensures group.full == if freed then old(group.full)[id := false] else old(group.full)
      ensures unmarkedFull == (old(unmarkedFull) || freed) && page.Beyond() == old(page.Beyond())
    {
      hide Used, Unpack, Rest, FullMap.Clear, FullMap.Shape;
      ghost var was := Units();
      var ok, needFree := DropRun(entry, count);
      freed := ok && needFree;
      if freed && !unmarkedFull {
        unmarkedFull := true;
        group.Unmark(id);
      }
    }

    /** The loop of bint_free_block. */
    method DropRun(entry: nat, count: nat) returns (ok: bool, needFree: bool)
      requires Valid() && entry + count <= page.count
      modifies this`freeBlocks, page.words, device
      ensures Valid() && Space() == old(Space()) && device.pool - device.free == old(device.pool - device.free)
      ensures Units() == DropUnits(old(Units()), entry, old(Agreed(Units(), entry, count)))
      ensures ok <==> old(Agreed(Units(), entry, count)) == count
      ensures ok ==> (needFree <==> count > 0 && Refs(old(Units()[entry])) == 1)
      ensures page.Beyond() == old(page.Beyond())
    {
      hide Used, Unpack, Rest, Pow2, FullMap.Clear, FullMap.Shape;
      ghost var was := Units();
      var oldRefs := 0;
      needFree := false;
      var i := entry;
      assert Units() == DropUnits(was, entry, 0);
      while i < entry + count
        invariant entry <= i <= entry + count && Valid()
        invariant Units() == DropUnits(was, entry, i - entry) && Uniform(was, entry, i - entry)
        invariant i > entry ==> oldRefs == Refs(was[entry]) != 0
        invariant needFree <==> i > entry && oldRefs == 1
        invariant Space() == old(Space()) && device.pool - device.free == old(device.pool - device.free)
        invariant page.Beyond() == old(page.Beyond())
      {
        var val := page.Get(i);
        var refs := Refs(val);
        if i == entry { oldRefs := refs; }
        if refs == 0 || refs != oldRefs {
          AgreedIs(was, entry, count, i - entry);
          return false, needFree;
        }
        needFree := DropOne(i, needFree);
        assert Units() == DropUnits(was, entry, i + 1 - entry);
        i := i + 1;
      }
      AgreedIs(was, entry, count, count);
      return true, needFree;
    }

    /** One unit of bint_free_block. */
    method DropOne(i: nat, needFree0: bool) returns (needFree: bool)
      requires Valid() && i < page.count && Refs(Units()[i]) > 0
      modifies this`freeBlocks, page.words, device
      ensures Units() == old(Units())[i := Dropped(old(Units()[i]))]
      ensures needFree == (needFree0 || Refs(old(Units()[i])) == 1) && page.Beyond() == old(page.Beyond())
      ensures Valid() && Space() == old(Space()) && device.pool - device.free == old(device.pool - device.free)
    {
      hide Used, Unpack, Rest, Pow2, FullMap.Clear, FullMap.Shape;
      SmallValues(page.bbits);
      needFree := needFree0;
      var val := page.Get(i);
      var refs := Refs(val) - 1;
      UsedAfter(Units(), i, Dropped(val));
      Distribute(Used(Units()), -1, device.unit);
      if refs == 0 {
        page.Set(i, 0);
        device.Take(-1);
        freeBlocks := freeBlocks + 1;
        needFree := true;
      } else {
        page.Set(i, Node(val) * REFS + refs);
      }
    }

    /** bdev_set_node_block: only an allocated unit without a node pointer gets one. */
    method SetNodeBlock(entry: nat, node: nat) returns (ok: bool)
      requires Valid() && entry < page.count && node * REFS + MAX_REFS < Pow2(page.bbits)
      modifies page.words
      ensures ok <==> old(Units()[entry]) != 0 && Node(old(Units()[entry])) == 0
      ensures Units() == if ok then old(Units())[entry := node * REFS + Refs(old(Units()[entry]))] else old(Units())
      ensures Valid() && Used(Units()) == old(Used(Units())) && page.Beyond() == old(page.Beyond())
    {
      hide Used, Unpack, Rest, Pow2, FullMap.Clear, FullMap.Shape;
      var val := page.Get(entry);
      if val == 0 || Node(val) != 0 { return false; }
      UsedAfter(Units(), entry, node * REFS + Refs(val));
      page.Set(entry, node * REFS + Refs(val));
      return true;
    }

    /** bint_log_replay */
    method LogReplay(entry: nat, count: nat, meta: bool)
      requires Valid() && entry + count <= page.count
      modifies this`loadDone, page.words, device
      ensures Units() == ReplayUnits(old(Units()), entry, count, meta) && !loadDone
      ensures page.Beyond() == old(page.Beyond())
      ensures Valid() && Space() == old(Space()) && device.pool - device.free == old(device.pool - device.free)
    {
      hide Used, Unpack, Rest, Pow2, FullMap.Clear, FullMap.Shape;
      ghost var was := Units();
      loadDone := false;
      var i := entry;
      assert Units() == ReplayUnits(was, entry, 0, meta);
      while i < entry + count
        invariant entry <= i <= entry + count && Valid() && !loadDone
        invariant Units() == ReplayUnits(was, entry, i - entry, meta)
        invariant Space() == old(Space()) && device.pool - device.free == old(device.pool - device.free)
        invariant page.Beyond() == old(page.Beyond())
      {
        ReplayOne(i, meta);
        assert Units() == ReplayUnits(was, entry, i + 1 - entry, meta);
        i := i + 1;
      }
    }

    /** A sequence of calls on one page; `ReplaysAdd` says what is left in each unit. */
    method ReplayAll(calls: seq<Call>)
      requires Valid() && forall k :: 0 <= k < |calls| ==> calls[k].start + calls[k].count <= page.count
      modifies this`loadDone, page.words, device
      ensures Units() == ReplayCalls(old(Units()), calls) && page.Beyond() == old(page.Beyond())
      ensures Valid() && Space() == old(Space()) && device.pool - device.free == old(device.pool - device.free)
    {
      hide Used, Unpack, Rest, ReplayUnits, FullMap.Clear, FullMap.Shape;
      var k := 0;
      while k < |calls|
        invariant 0 <= k <= |calls| && Valid() && Units() == ReplayCalls(old(Units()), calls[..k])
        invariant Space() == old(Space()) && device.pool - device.free == old(device.pool - device.free)
        invariant page.Beyond() == old(page.Beyond())
      {
        LogReplay(calls[k].start, calls[k].count, calls[k].meta);
        assert calls[..k + 1][..k] == calls[..k];
        k := k + 1;
      }
      assert calls[..k] == calls;
    }

    /** One unit of bint_log_replay. */
    method ReplayOne(i: nat, meta: bool)
      requires Valid() && i < page.count && !loadDone
      modifies page.words, device
      ensures Units() == old(Units())[i := Replayed(old(Units()[i]), meta)] && page.Beyond() == old(page.Beyond())
      ensures Valid() && Space() == old(Space()) && device.pool - device.free == old(device.pool - device.free)
    {
      hide Used, Unpack, Rest, Pow2, FullMap.Clear, FullMap.Shape;
      SmallValues(page.bbits);
      var val := page.Get(i);
      var refs := Refs(val);
      if refs == MAX_REFS || (refs != 0 && meta) { return; }
      UsedAfter(Units(), i, refs + 1);
      Distribute(Used(Units()), 1, device.unit);
      if refs == 0 { device.Take(1); }
      page.Set(i, refs + 1);
    }

    /** The scan of index_check_load: how many units are free, and the first of them. */
    method CountFree() returns (free: nat, first: nat)
      requires page.Valid()
      ensures free == page.count - Used(Units()) && first <= page.count
      ensures forall k :: 0 <= k < first ==> Units()[k] != 0
      ensures first < page.count ==> Units()[first] == 0
    {
      hide Unpack, Rest, Pow2;
      free, first := 0, page.count;
      var i := 0;
      while i < page.count
        invariant 0 <= i <= page.count && first <= page.count && free == i - Used(Units()[..i])
        invariant forall k :: 0 <= k < i && k < first ==> Units()[k] != 0
        invariant first < page.count ==> first < i && Units()[first] == 0
      {
        var val := page.Get(i);
        assert Units()[..i + 1][..i] == Units()[..i];
        if val == 0 {
          free := free + 1;
          if i < first { first := i; }
        }
        i := i + 1;
      }
      assert Units()[..page.count] == Units();
    }

    /** index_check_load: count the free units and find the first; the bitmap is set to match. */
    method CheckLoad()
      requires Valid()
      modifies this`freeBlocks, this`checkIdx, this`loadDone, this`unmarkedFull, group
      ensures Valid() && loadDone
      ensures !old(loadDone) ==> freeBlocks == page.count - Used(Units())
      ensures !old(loadDone) ==> forall k :: 0 <= k < checkIdx ==> Units()[k] != 0
      ensures !old(loadDone) && checkIdx < page.count ==> Units()[checkIdx] == 0
      ensures !old(loadDone) ==> (group.full[id] <==> checkIdx == page.count)
      ensures group.full == old(group.full)[id := group.full[id]]
    {
      hide Used, Unpack, Rest, Pow2, FullMap.Clear, FullMap.Shape;
      if loadDone { return; }
      var free, first := CountFree();
      freeBlocks, checkIdx, loadDone := free, first, true;
      if checkIdx == page.count {
        unmarkedFull := false;
        group.Mark(id);
      } else if !unmarkedFull {
        unmarkedFull := true;
        group.Unmark(id);
      }
    }
  }

  /** An extent that takes a reference is one a free goes through to the end of, and is not released by it. */
  lemma RefAccepts(u: seq<nat>, s: nat, count: nat, node: nat)
    requires s + count <= |u| && RefOutcome(u, s, count, node).None?
    ensures forall k :: s <= k < s + count ==> 0 < Refs(u[k]) < MAX_REFS
    ensures Agreed(BumpUnits(u, s, count), s, count) == count
    ensures count > 0 ==> Refs(BumpUnits(u, s, count)[s]) > 1
  {
    var v := BumpUnits(u, s, count);
    assert forall k :: s <= k < s + count ==> Refs(v[k]) == Refs(u[k]) + 1;
    AgreedIs(v, s, count, count);
  }

  lemma {:induction false} AgreedIs(u: seq<nat>, s: nat, count: nat, n: nat)
    requires n <= count && s + count <= |u| && Uniform(u, s, n)
    requires n < count ==> Refs(u[s + n]) == 0 || Refs(u[s + n]) != Refs(u[s])
    ensures Agreed(u, s, count) == n
  {
    var m := Agreed(u, s, count);
    assert Uniform(u, s, m);
  }

  lemma BumpClean(u: seq<nat>, s: nat, count: nat)
    requires Clean(u) && s + count <= |u| && forall k :: s <= k < s + count ==> 0 < Refs(u[k]) < MAX_REFS
    ensures Clean(BumpUnits(u, s, count))
  {
  }

  lemma {:induction false} AllFree(n: nat)
    ensures Used(seq(n, i => 0)) == 0
  {
    if n > 0 {
      assert seq(n, i => 0)[..n - 1] == seq(n - 1, i => 0);
      AllFree(n - 1);
    }
  }

  lemma Distribute(a: int, b: int, unit: int)
    ensures (a + b) * unit == a * unit + b * unit
  {
  }

  lemma SmallValues(bbits: nat)
    requires bbits >= 13
    ensures Pow2(bbits) >= 8192 && Pow2(bbits) % 8192 == 0
    decreases bbits
  {
    if bbits > 13 { SmallValues(bbits - 1); } else { Pow13(); }
  }

  lemma Pow13()
    ensures Pow2(13) == 8192
  {
    assert Pow2(4) == 16;
    assert Pow2(8) == 256;
    assert Pow2(12) == 4096;
  }
}
