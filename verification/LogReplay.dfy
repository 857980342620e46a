/** Replay of the write log into the address maps of the virtual disks. */
module LogReplay {
  import opened LogPages
  import opened PagePipeline
  import opened WriteIds

  /** ENTRIES_PER_AMAP and AMAPS_PER_AMAP_TABLE: 50 and 47 bits an entry in 4088 octets. */
  const LBAS_PER_AMAP := 654
  const AMAPS_PER_TABLE := 695

  /** Entries between two flushes. */
  const FLUSH := 4096

  type Key = (nat, nat)

  /** A page of an address map: lba to block, absent meaning block 0. */
  datatype Amap = Amap(writeId: nat, blocks: map<nat, nat>)

  /** The address map tables and pages of all virtual disks. */
  datatype Maps = Maps(tables: set<Key>, amaps: map<Key, Amap>)

  /** The virtual disks and the block devices that can be found. */
  datatype Env = Env(disks: set<nat>, devices: set<nat>)

  /** An entry of the log as replay uses it. */
  datatype Rec = Rec(id: nat, block: nat, target: nat, lba: nat, amapId: nat)

  function RecOf(n: Numbered): Rec {
    Rec(n.id, n.entry.block as nat, n.entry.target as nat, n.entry.lba as nat, n.entry.amapId as nat)
  }

  function Recs(entries: seq<Numbered>): seq<Rec> {
    seq(|entries|, i requires 0 <= i < |entries| => RecOf(entries[i]))
  }

  /** Transaction ids strictly increase. */
  ghost predicate Numbers(rs: seq<Rec>) {
    forall i, j :: 0 <= i < j < |rs| ==> rs[i].id < rs[j].id
  }

  function TableKey(target: nat, lba: nat): Key { (target, lba / (LBAS_PER_AMAP * AMAPS_PER_TABLE)) }
  function AmapKey(target: nat, lba: nat): Key { (target, lba / LBAS_PER_AMAP) }

  /** An entry without a target is about the map pages themselves; its id field holds a type and a target. */
  function MetaTarget(r: Rec): nat { r.amapId % 0x1000 }
  function MetaType(r: Rec): nat { r.amapId / 0x4000 % 4 }
  const AMAP_TABLE := 1

  // ---------- One entry ----------

  predicate DiskFound(env: Env, r: Rec) {
    if r.target != 0 then r.target in env.disks else r.amapId != 0 && MetaTarget(r) in env.disks
  }

  predicate DeviceFound(env: Env, r: Rec) {
    r.block == 0 || BlockDisk(r.block) in env.devices
  }

  /** tdisk_replay_amap_block. */
  function ReplayData(w: Maps, r: Rec): Maps {
    var key := AmapKey(r.target, r.lba);
    if TableKey(r.target, r.lba) !in w.tables || key !in w.amaps then w
    else if r.amapId != 0 && Greater(w.amaps[key].writeId, r.amapId) then w
    else var a := w.amaps[key];
      w.(amaps := w.amaps[key := a.(blocks := a.blocks[r.lba := r.block])])
  }

  /** tdisk_replay_meta_block: a missing table or page is created empty. */
  function ReplayMeta(env: Env, w: Maps, r: Rec): Maps {
    var target := MetaTarget(r);
    var table, key := TableKey(target, r.lba), AmapKey(target, r.lba);
    if r.amapId == 0 || target !in env.disks then w
    else if table !in w.tables && (MetaType(r) != AMAP_TABLE || BlockDisk(r.block) !in env.devices) then w
    else if MetaType(r) == AMAP_TABLE then w.(tables := w.tables + {table})
    else if key in w.amaps || BlockDisk(r.block) !in env.devices then w
    else w.(amaps := w.amaps[key := Amap(0, map[])])
  }

  function ReplayOne(env: Env, w: Maps, r: Rec): Maps {
    if !DiskFound(env, r) || !DeviceFound(env, r) then w
    else if r.target != 0 then ReplayData(w, r)
    else ReplayMeta(env, w, r)
  }

  function ReplayAll(env: Env, w: Maps, rs: seq<Rec>): Maps {
    if rs == [] then w else ReplayOne(env, ReplayAll(env, w, rs[..|rs| - 1]), rs[|rs| - 1])
  }

  // ---------- What an entry does, field by field ----------

  /** A data entry is taken if and only if its disk exists, its block is zero or on a device that exists, its page is there
      and its id is not behind the page's; it then sets one block and nothing else. */
  lemma DataEntry(env: Env, w: Maps, r: Rec)
    requires r.target != 0
    ensures var table, key := (r.target, r.lba / (654 * 695)), (r.target, r.lba / 654);
      ReplayOne(env, w, r) ==
        if && r.target in env.disks && (r.block == 0 || BlockDisk(r.block) in env.devices)
           && table in w.tables && key in w.amaps
           && (r.amapId == 0 || !Greater(w.amaps[key].writeId, r.amapId))
        then w.(amaps := w.amaps[key := w.amaps[key].(blocks := w.amaps[key].blocks[r.lba := r.block])])
        else w
  {
  }

  /** An lba given up stays given up, whichever devices are left. */
  lemma ZeroBlock(env: Env, w: Maps, rs: seq<Rec>)
    requires rs != [] && var r := rs[|rs| - 1];
      && r.target != 0 && r.target in env.disks && r.block == 0 && r.amapId == 0
      && var before := ReplayAll(env, w, rs[..|rs| - 1]);
         (r.target, r.lba / (654 * 695)) in before.tables && (r.target, r.lba / 654) in before.amaps
    ensures var r := rs[|rs| - 1]; Slot(ReplayAll(env, w, rs), r.target, r.lba) == 0
  {
    hide ReplayAll, ReplayOne;
    var r, before := rs[|rs| - 1], ReplayAll(env, w, rs[..|rs| - 1]);
    DataEntry(env, before, r);
    LastOne(env, w, rs);
  }

  /** An entry for a block on a device that is gone changes nothing. */
  lemma LostDevice(env: Env, w: Maps, rs: seq<Rec>)
    requires rs != [] && rs[|rs| - 1].block != 0 && BlockDisk(rs[|rs| - 1].block) !in env.devices
    ensures ReplayAll(env, w, rs) == ReplayAll(env, w, rs[..|rs| - 1])
  {
    hide BlockDisk;
    LastOne(env, w, rs);
  }

  /** Nor does one for a virtual disk that is gone. */
  lemma LostDisk(env: Env, w: Maps, rs: seq<Rec>)
    requires rs != [] && var r := rs[|rs| - 1];
      if r.target != 0 then r.target !in env.disks else r.amapId % 0x1000 !in env.disks
    ensures ReplayAll(env, w, rs) == ReplayAll(env, w, rs[..|rs| - 1])
  {
    LastOne(env, w, rs);
  }

  lemma LastOne(env: Env, w: Maps, rs: seq<Rec>)
    requires rs != []
    ensures ReplayAll(env, w, rs) == ReplayOne(env, ReplayAll(env, w, rs[..|rs| - 1]), rs[|rs| - 1])
  {
  }

  /** The entry that fastlog_add_transaction writes for a new table (type 1) or page (type 0) of a disk makes that table or
      page, empty and with id 0, and nothing else; a page needs its table. */
  lemma MetaEntry(env: Env, w: Maps, r: Rec, isTable: bool, target: nat)
    requires r.target == 0 && 0 < target < 0x1000 && r.amapId == (if isTable then 0x4000 else 0) + target
    requires target in env.disks && BlockDisk(r.block) in env.devices
    ensures var table, key := (target, r.lba / (654 * 695)), (target, r.lba / 654);
      ReplayOne(env, w, r) ==
        if isTable then w.(tables := w.tables + {table})
        else if table in w.tables && key !in w.amaps then w.(amaps := w.amaps[key := Amap(0, map[])])
        else w
  {
    MetaParts(isTable, target);
  }

  lemma MetaParts(isTable: bool, target: nat)
    requires target < 0x1000
    ensures var id := (if isTable then 0x4000 else 0) + target; id % 0x1000 == target && id / 0x4000 % 4 == if isTable then 1 else 0
  {
  }

  // ---------- The loop, with its flushes ----------

  /** What may be stored when the entries rs have been replayed: every table and page that exists, each page as it was
      after some of the entries. */
  ghost predicate Images(env: Env, w: Maps, rs: seq<Rec>, d: Maps) {
    var now := ReplayAll(env, w, rs);
    && d.tables == now.tables && d.amaps.Keys == now.amaps.Keys
    && forall k :: k in d.amaps ==> HadImage(env, w, rs, k, d.amaps[k])
  }

  ghost predicate HadImage(env: Env, w: Maps, rs: seq<Rec>, k: Key, a: Amap) {
    exists m :: 0 <= m <= |rs| && AmapIs(ReplayAll(env, w, rs[..m]), k, a)
  }

  ghost predicate AmapIs(w: Maps, k: Key, a: Amap) { k in w.amaps && w.amaps[k] == a }

  lemma NowImage(env: Env, w: Maps, rs: seq<Rec>, k: Key)
    requires k in ReplayAll(env, w, rs).amaps
    ensures HadImage(env, w, rs, k, ReplayAll(env, w, rs).amaps[k])
  {
    hide ReplayAll;
    assert rs[..|rs|] == rs;
    assert AmapIs(ReplayAll(env, w, rs[..|rs|]), k, ReplayAll(env, w, rs).amaps[k]);
  }

  lemma LaterImage(env: Env, w: Maps, rs: seq<Rec>, r: Rec, k: Key, a: Amap)
    requires HadImage(env, w, rs, k, a)
    ensures HadImage(env, w, rs + [r], k, a)
  {
    hide ReplayAll;
    var m :| 0 <= m <= |rs| && AmapIs(ReplayAll(env, w, rs[..m]), k, a);
    assert (rs + [r])[..m] == rs[..m];
  }

  /** A flush of any of the pages leaves such images. */
  lemma PartFlushed(env: Env, w: Maps, rs: seq<Rec>, d: Maps, keys: set<Key>)
    requires Images(env, w, rs, d) && keys <= d.amaps.Keys
    ensures var now := ReplayAll(env, w, rs);
      Images(env, w, rs, d.(amaps := map k | k in d.amaps :: if k in keys then now.amaps[k] else d.amaps[k]))
  {
    hide ReplayAll, HadImage;
    forall k | k in keys ensures HadImage(env, w, rs, k, ReplayAll(env, w, rs).amaps[k]) { NowImage(env, w, rs, k); }
  }

  /** So does an entry whose new page is stored at once. */
  lemma ImagesMore(env: Env, w: Maps, rs: seq<Rec>, r: Rec, d: Maps, d': Maps)
    requires Images(env, w, rs, d)
    requires var now := ReplayAll(env, w, rs + [r]);
      && d'.tables == now.tables && d'.amaps.Keys == now.amaps.Keys
      && forall k :: k in d'.amaps ==> d'.amaps[k] == if k in d.amaps then d.amaps[k] else now.amaps[k]
    ensures Images(env, w, rs + [r], d')
  {
    hide ReplayAll, HadImage;
    forall k | k in d'.amaps ensures HadImage(env, w, rs + [r], k, d'.amaps[k]) {
      if k in d.amaps { LaterImage(env, w, rs, r, k, d.amaps[k]); } else { NowImage(env, w, rs + [r], k); }
    }
  }

  lemma AllStored(env: Env, w: Maps, rs: seq<Rec>, d: Maps)
    requires d == ReplayAll(env, w, rs)
    ensures Images(env, w, rs, d)
  {
    hide ReplayAll, HadImage;
    forall k | k in d.amaps ensures HadImage(env, w, rs, k, d.amaps[k]) { NowImage(env, w, rs, k); }
  }

  lemma FirstImages(env: Env, w: Maps)
    ensures Images(env, w, [], w)
  {
    AllStored(env, w, [], w);
  }

  /** The maps in memory, their images on the devices, and the pages changed since the last flush. */
  class Pool {
    const env: Env
    var maps: Maps
    var stored: Maps
    var pending: set<Key>

    /** What is not waiting for a flush is stored. */
    ghost predicate Valid()
      reads this
    {
      && stored.tables == maps.tables && stored.amaps.Keys == maps.amaps.Keys && pending <= maps.amaps.Keys
      && (forall k :: k in maps.amaps && k !in pending ==> stored.amaps[k] == maps.amaps[k])
    }

    constructor (env: Env, maps: Maps)
      ensures Valid() && this.env == env && this.maps == maps && stored == maps && pending == {}
    {
      this.env, this.maps, stored, pending := env, maps, maps, {};
    }

    /** The pages of the sync list are written, each with the write id it has. */
    method Flush()
      requires Valid()
      modifies this`stored, this`pending
      ensures Valid() && stored == maps && pending == {}
    {
      while pending != {}
        invariant Valid()
        decreases pending
      {
        var k :| k in pending;
        stored := stored.(amaps := stored.amaps[k := maps.amaps[k]]);
        pending := pending - {k};
      }
      assert stored.amaps == maps.amaps;
    }

    method ReplayEntry(r: Rec)
      requires Valid()
      modifies this
      ensures Valid() && maps == ReplayOne(env, old(maps), r)
      ensures forall k :: k in stored.amaps ==>
        stored.amaps[k] == if k in old(stored.amaps) then old(stored.amaps)[k] else maps.amaps[k]
    {
      if !DiskFound(env, r) || !DeviceFound(env, r) { return; }
      if r.target != 0 {
        var key := AmapKey(r.target, r.lba);
        if TableKey(r.target, r.lba) !in maps.tables || key !in maps.amaps { return; }
        var a := maps.amaps[key];
        if r.amapId != 0 && Greater(a.writeId, r.amapId) { return; }
        maps := maps.(amaps := maps.amaps[key := a.(blocks := a.blocks[r.lba := r.block])]);
        pending := pending + {key};
      } else {
        ReplayMetaEntry(r);
      }
    }

    method ReplayMetaEntry(r: Rec)
      requires Valid()
      modifies this`maps, this`stored
      ensures Valid() && maps == ReplayMeta(env, old(maps), r)
      ensures forall k :: k in stored.amaps ==>
        stored.amaps[k] == if k in old(stored.amaps) then old(stored.amaps)[k] else maps.amaps[k]
    {
      var target := MetaTarget(r);
      if r.amapId == 0 || target !in env.disks { return; }
      var table, key := TableKey(target, r.lba), AmapKey(target, r.lba);
      if table !in maps.tables {
        if MetaType(r) != AMAP_TABLE || BlockDisk(r.block) !in env.devices { return; }
        maps := maps.(tables := maps.tables + {table});
        stored := stored.(tables := stored.tables + {table});
      }
      if MetaType(r) == AMAP_TABLE { return; }
      if key !in maps.amaps {
        if BlockDisk(r.block) !in env.devices { return; }
        maps := maps.(amaps := maps.amaps[key := Amap(0, map[])]);
        stored := stored.(amaps := stored.amaps[key := Amap(0, map[])]);
      }
    }

    /** The loop of log_entries_replay, stopped after any number of entries. */
    method ReplayPart(rs: seq<Rec>)
      requires Valid() && pending == {} && stored == maps
      modifies this
      ensures Valid() && maps == ReplayAll(env, old(maps), rs) && Images(env, old(maps), rs, stored)
    {
      hide ReplayOne, Images;
      var i, done := 0, 0;
      FirstImages(env, maps);
      while i < |rs|
        invariant 0 <= i <= |rs| && Valid() && maps == ReplayAll(env, old(maps), rs[..i])
        invariant Images(env, old(maps), rs[..i], stored)
      {
        done := done + 1;
        if done > FLUSH {
          Flush();
          AllStored(env, old(maps), rs[..i], stored);
          done := 0;
        }
        ghost var before := stored;
        ReplayEntry(rs[i]);
        assert rs[..i + 1] == rs[..i] + [rs[i]] && rs[..i + 1][..i] == rs[..i];
        ImagesMore(env, old(maps), rs[..i], rs[i], before, stored);
        i := i + 1;
      }
      assert rs[..i] == rs;
    }

    /** log_entries_replay: the flush after every 4096 entries makes no difference to what ends up stored. */
    method Replay(rs: seq<Rec>)
      requires Valid() && pending == {} && stored == maps
      modifies this
      ensures Valid() && maps == stored == ReplayAll(env, old(maps), rs)
    {
      hide ReplayAll, Images;
      ReplayPart(rs);
      Flush();
    }

    /** bdev_replay_write_logs: whatever the order in which the pages of the log are scanned, its entries are replayed
        in the order in which they were written. */
    method StartUp(scan: seq<Page>, ghost q: seq<Page>)
      requires Valid() && pending == {} && stored == maps && Ordered(q) && multiset(scan) == multiset(q)
      modifies this
      ensures Valid() && maps == stored == ReplayAll(env, old(maps), Recs(Contents(q))) && Numbers(Recs(Contents(q)))
    {
      hide ReplayAll, Contents;
      var entries := Load(scan, q);
      Replay(Recs(entries));
    }
  }

  // ---------- What a slot ends up with ----------

  function Slot(w: Maps, target: nat, lba: nat): nat {
    var key := AmapKey(target, lba);
    if key in w.amaps && lba in w.amaps[key].blocks then w.amaps[key].blocks[lba] else 0
  }

  /** A table, or a page, can be found after these entries: it was there or one of them created it. */
  ghost predicate HasTable(env: Env, w: Maps, rs: seq<Rec>, table: Key) {
    table in w.tables || exists i :: 0 <= i < |rs| && MakesTable(env, rs[i], table)
  }

  predicate MakesTable(env: Env, r: Rec, table: Key) {
    && r.target == 0 && r.amapId != 0 && MetaTarget(r) in env.disks && BlockDisk(r.block) in env.devices
    && MetaType(r) == AMAP_TABLE && TableKey(MetaTarget(r), r.lba) == table
  }

  ghost predicate HasAmap(env: Env, w: Maps, rs: seq<Rec>, key: Key) {
    key in w.amaps || exists i :: 0 <= i < |rs| && MakesAmap(env, w, rs, i, key)
  }

  ghost predicate MakesAmap(env: Env, w: Maps, rs: seq<Rec>, i: nat, key: Key)
    requires i < |rs|
  {
    var r := rs[i];
    && r.target == 0 && r.amapId != 0 && MetaTarget(r) in env.disks && BlockDisk(r.block) in env.devices
    && MetaType(r) != AMAP_TABLE && AmapKey(MetaTarget(r), r.lba) == key
    && HasTable(env, w, rs[..i], TableKey(MetaTarget(r), r.lba))
  }

  /** The write-id test, on the id the page had when replay began. */
  predicate Newer(w: Maps, r: Rec) {
    var key := AmapKey(r.target, r.lba);
    r.amapId == 0 || !Greater(if key in w.amaps then w.amaps[key].writeId else 0, r.amapId)
  }

  /** Entry `i` is written to its slot. */
  ghost predicate Admitted(env: Env, w: Maps, rs: seq<Rec>, i: nat)
    requires i < |rs|
  {
    var r := rs[i];
    && r.target != 0 && r.target in env.disks && (r.block == 0 || BlockDisk(r.block) in env.devices)
    && HasTable(env, w, rs[..i], TableKey(r.target, r.lba)) && HasAmap(env, w, rs[..i], AmapKey(r.target, r.lba))
    && Newer(w, r)
  }

  lemma {:induction false} TablesAfter(env: Env, w: Maps, rs: seq<Rec>, table: Key)
    ensures table in ReplayAll(env, w, rs).tables <==> HasTable(env, w, rs, table)
  {
    if rs != [] {
      var k := |rs| - 1;
      TablesAfter(env, w, rs[..k], table);
      assert HasTable(env, w, rs, table) <==> HasTable(env, w, rs[..k], table) || MakesTable(env, rs[k], table);
    }
  }

  lemma {:induction false} AmapsAfter(env: Env, w: Maps, rs: seq<Rec>, key: Key)
    ensures key in ReplayAll(env, w, rs).amaps <==> HasAmap(env, w, rs, key)
  {
    if rs != [] {
      var k := |rs| - 1;
      AmapsAfter(env, w, rs[..k], key);
      OneMoreAmap(env, w, rs, key);
      TablesAfter(env, w, rs[..k], TableKey(MetaTarget(rs[k]), rs[k].lba));
    }
  }

  lemma OneMoreAmap(env: Env, w: Maps, rs: seq<Rec>, key: Key)
    requires rs != []
    ensures var k := |rs| - 1;
      HasAmap(env, w, rs, key) <==> HasAmap(env, w, rs[..k], key) || MakesAmap(env, w, rs, k, key)
  {
    var k := |rs| - 1;
    forall i | 0 <= i < k ensures MakesAmap(env, w, rs, i, key) <==> MakesAmap(env, w, rs[..k], i, key) {
      assert rs[..k][..i] == rs[..i];
    }
  }

  /** Replay does not change the write id of a page. */
  lemma {:induction false} IdsAfter(env: Env, w: Maps, rs: seq<Rec>, key: Key)
    requires key in ReplayAll(env, w, rs).amaps
    ensures ReplayAll(env, w, rs).amaps[key].writeId == if key in w.amaps then w.amaps[key].writeId else 0
  {
    if rs != [] {
      var before := ReplayAll(env, w, rs[..|rs| - 1]);
      if key in before.amaps { IdsAfter(env, w, rs[..|rs| - 1], key); }
      KeysKept(env, w, rs[..|rs| - 1], key);
    }
  }

  lemma {:induction false} KeysKept(env: Env, w: Maps, rs: seq<Rec>, key: Key)
    ensures key in w.amaps ==> key in ReplayAll(env, w, rs).amaps
  {
    if rs != [] { KeysKept(env, w, rs[..|rs| - 1], key); }
  }

  /** Entry `i` is written to this slot. */
  ghost predicate Sets(env: Env, w: Maps, rs: seq<Rec>, i: nat, target: nat, lba: nat)
    requires i < |rs|
  {
    rs[i].target == target && rs[i].lba == lba && Admitted(env, w, rs, i)
  }

  lemma LastEntry(env: Env, w: Maps, rs: seq<Rec>, target: nat, lba: nat)
    requires rs != [] && target != 0
    ensures var k := |rs| - 1;
      Slot(ReplayAll(env, w, rs), target, lba)
      == if Sets(env, w, rs, k, target, lba) then rs[k].block else Slot(ReplayAll(env, w, rs[..k]), target, lba)
  {
    hide HasTable, HasAmap;
    var k, r := |rs| - 1, rs[|rs| - 1];
    var before := ReplayAll(env, w, rs[..k]);
    var key := AmapKey(r.target, r.lba);
    TablesAfter(env, w, rs[..k], TableKey(r.target, r.lba));
    AmapsAfter(env, w, rs[..k], key);
    if key in before.amaps { IdsAfter(env, w, rs[..k], key); }
  }

  lemma Prefix(env: Env, w: Maps, rs: seq<Rec>, k: nat, i: nat, target: nat, lba: nat)
    requires i < k <= |rs|
    ensures Sets(env, w, rs[..k], i, target, lba) <==> Sets(env, w, rs, i, target, lba)
  {
    assert rs[..k][..i] == rs[..i];
  }

  /** Without an admitted entry from `n` on, a slot keeps what it had after the first `n`. */
  lemma {:induction false} Untouched(env: Env, w: Maps, rs: seq<Rec>, n: nat, target: nat, lba: nat)
    requires n <= |rs| && target != 0 && forall i :: n <= i < |rs| ==> !Sets(env, w, rs, i, target, lba)
    ensures Slot(ReplayAll(env, w, rs), target, lba) == Slot(ReplayAll(env, w, rs[..n]), target, lba)
  {
    hide ReplayAll, Slot, Sets;
    if n == |rs| {
      assert rs[..n] == rs;
    } else {
      var k := |rs| - 1;
      forall i | n <= i < k ensures !Sets(env, w, rs[..k], i, target, lba) { Prefix(env, w, rs, k, i, target, lba); }
      Untouched(env, w, rs[..k], n, target, lba);
      assert rs[..k][..n] == rs[..n];
      LastEntry(env, w, rs, target, lba);
    }
  }

  /** Each slot ends with the block of the highest-numbered admitted entry. */
  lemma HighestWins(env: Env, w: Maps, rs: seq<Rec>, target: nat, lba: nat, at: nat)
    requires target != 0 && at < |rs| && Sets(env, w, rs, at, target, lba)
    requires Numbers(rs)
    requires forall i :: 0 <= i < |rs| && Sets(env, w, rs, i, target, lba) ==> rs[i].id <= rs[at].id
    ensures Slot(ReplayAll(env, w, rs), target, lba) == rs[at].block
  {
    hide ReplayAll, Slot, Sets;
    Untouched(env, w, rs, at + 1, target, lba);
    Prefix(env, w, rs, at + 1, at, target, lba);
    LastEntry(env, w, rs[..at + 1], target, lba);
  }
}
