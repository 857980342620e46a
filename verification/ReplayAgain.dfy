/** A crash while the log is replayed: the log is replayed again from the start, onto whatever was stored by then. */
module ReplayAgain {
  import opened CrashRecovery
  import opened LogReplay
  import opened PagePipeline
  import opened WriteIds

  /** Pages are found through their tables. */
  ghost predicate Nested(w: Maps) {
    forall key :: key in w.amaps ==> TableOf(key) in w.tables
  }

  /** What an entry needs is created before it, if the log creates it at all. */
  ghost predicate Ready(env: Env, w: Maps, rs: seq<Rec>, i: nat)
    requires i < |rs|
  {
    var r := rs[i];
    if r.target != 0 then
      var key := AmapKey(r.target, r.lba);
      ChangeOf(env, r, key) != [] && HasAmap(env, w, rs, key) ==> HasAmap(env, w, rs[..i], key)
    else
      var table := TableKey(MetaTarget(r), r.lba);
      HasTable(env, w, rs, table) && MetaType(r) != AMAP_TABLE ==> HasTable(env, w, rs[..i], table)
  }

  ghost predicate Proper(env: Env, w: Maps, rs: seq<Rec>) {
    forall i :: 0 <= i < |rs| ==> Ready(env, w, rs, i)
  }

  // ---------- Applying changes again ----------

  /** The changes that a page with this id takes. */
  function Taken(id: nat, cs: seq<Change>): seq<(nat, nat)> {
    if cs == [] then []
    else
      var c := cs[|cs| - 1];
      Taken(id, cs[..|cs| - 1]) + if Skipped(id, c.amapId) then [] else [(c.lba, c.block)]
  }

  lemma {:induction false} ReplayIs(a: Amap, cs: seq<Change>)
    ensures ReplayPage(a, cs) == Amap(a.writeId, Put(a.blocks, Taken(a.writeId, cs)))
  {
    hide Greater;
    if cs != [] {
      var front, c := cs[..|cs| - 1], cs[|cs| - 1];
      ReplayIs(a, front);
      PutOne(a.blocks, Taken(a.writeId, front), (c.lba, c.block));
      assert Taken(a.writeId, front) + [] == Taken(a.writeId, front);
    }
  }

  lemma PutTwice(blocks: map<nat, nat>, batch: seq<(nat, nat)>)
    ensures Put(Put(blocks, batch), batch) == Put(blocks, batch)
  {
    hide Put, Mentions, Last;
    var once := Put(blocks, batch);
    SameMaps(Put(once, batch), once);
    forall lba ensures Agree(Put(once, batch), once, lba) {
      PutAt(once, batch, lba);
      PutAt(blocks, batch, lba);
    }
  }

  /** Changes that were made in part can be made again. */
  lemma PageAgain(a: Amap, x: seq<Change>, y: seq<Change>)
    ensures ReplayPage(ReplayPage(a, x), x + y) == ReplayPage(a, x + y)
  {
    hide ReplayPage, Put, Taken;
    var b := ReplayPage(a, x);
    ReplayIs(a, x);
    ReplayIs(b, x);
    PutTwice(a.blocks, Taken(a.writeId, x));
    ReplayAppend(b, x, y);
    ReplayAppend(a, x, y);
  }

  // ---------- What exists ----------

  lemma TableMono(env: Env, w: Maps, d: Maps, rs: seq<Rec>, table: Key)
    requires w.tables <= d.tables && HasTable(env, w, rs, table)
    ensures HasTable(env, d, rs, table)
  {
  }

  lemma AmapMono(env: Env, w: Maps, d: Maps, rs: seq<Rec>, key: Key)
    requires w.tables <= d.tables && w.amaps.Keys <= d.amaps.Keys && HasAmap(env, w, rs, key)
    ensures HasAmap(env, d, rs, key)
  {
    hide HasTable;
    if key !in w.amaps {
      var i :| 0 <= i < |rs| && MakesAmap(env, w, rs, i, key);
      TableMono(env, w, d, rs[..i], TableKey(MetaTarget(rs[i]), rs[i].lba));
      assert MakesAmap(env, d, rs, i, key);
    }
  }

  lemma TablePrefix(env: Env, w: Maps, rs: seq<Rec>, k: nat, table: Key)
    requires k <= |rs| && HasTable(env, w, rs[..k], table)
    ensures HasTable(env, w, rs, table)
  {
    if table !in w.tables {
      var i :| 0 <= i < k && MakesTable(env, rs[..k][i], table);
      assert MakesTable(env, rs[i], table);
    }
  }

  lemma AmapPrefix(env: Env, w: Maps, rs: seq<Rec>, k: nat, key: Key)
    requires k <= |rs| && HasAmap(env, w, rs[..k], key)
    ensures HasAmap(env, w, rs, key)
  {
    hide HasTable;
    if key !in w.amaps {
      var i :| 0 <= i < k && MakesAmap(env, w, rs[..k], i, key);
      assert rs[..k][..i] == rs[..i];
      assert MakesAmap(env, w, rs, i, key);
    }
  }

  /** The table of a page that exists. */
  lemma TableThere(env: Env, w: Maps, rs: seq<Rec>, key: Key)
    requires Nested(w) && HasAmap(env, w, rs, key)
    ensures HasTable(env, w, rs, TableOf(key))
  {
    hide TableOf, TableKey, AmapKey;
    if key !in w.amaps {
      var i :| 0 <= i < |rs| && MakesAmap(env, w, rs, i, key);
      TableOfKey(MetaTarget(rs[i]), rs[i].lba);
      TablePrefix(env, w, rs, i, TableOf(key));
    }
  }

  // ---------- A page, from the start of the log ----------

  function Start(w: Maps, key: Key): Amap { if key in w.amaps then w.amaps[key] else Amap(0, map[]) }

  /** No entry of the page comes before the page. */
  ghost predicate AfterPage(env: Env, w: Maps, rs: seq<Rec>, key: Key) {
    forall i :: 0 <= i < |rs| && ChangeOf(env, rs[i], key) != [] ==> HasAmap(env, w, rs[..i], key)
  }

  lemma {:induction false} NoChanges(env: Env, rs: seq<Rec>, key: Key)
    requires forall i :: 0 <= i < |rs| ==> ChangeOf(env, rs[i], key) == []
    ensures Changes(env, rs, key) == []
  {
    hide ChangeOf;
    if rs != [] { NoChanges(env, rs[..|rs| - 1], key); }
  }

  lemma AfterPagePrefix(env: Env, w: Maps, rs: seq<Rec>, k: nat, key: Key)
    requires k <= |rs| && AfterPage(env, w, rs, key)
    ensures AfterPage(env, w, rs[..k], key)
  {
    hide ChangeOf, HasAmap;
    forall i | 0 <= i < k && ChangeOf(env, rs[..k][i], key) != [] ensures HasAmap(env, w, rs[..k][..i], key) {
      assert rs[..k][..i] == rs[..i] && rs[..k][i] == rs[i];
    }
  }

  /** Before the page is there, the log has nothing for it. */
  lemma NotBefore(env: Env, w: Maps, rs: seq<Rec>, key: Key)
    requires AfterPage(env, w, rs, key) && !HasAmap(env, w, rs, key)
    ensures Changes(env, rs, key) == []
  {
    hide ChangeOf, HasAmap;
    forall i | 0 <= i < |rs| ensures ChangeOf(env, rs[i], key) == [] {
      if HasAmap(env, w, rs[..i], key) { AmapPrefix(env, w, rs, i, key); }
    }
    NoChanges(env, rs, key);
  }

  /** A page that exists in the end has taken all the changes that the log has for it. */
  lemma {:induction false} PageFrom(env: Env, w: Maps, rs: seq<Rec>, key: Key)
    requires Nested(w) && HasAmap(env, w, rs, key) && AfterPage(env, w, rs, key)
    ensures AmapIs(ReplayAll(env, w, rs), key, ReplayPage(Start(w, key), Changes(env, rs, key)))
  {
    hide HasTable, HasAmap, MakesAmap, ReplayOne, ChangeOf, Nested, AfterPage, Apply, TableOf;
    if rs == [] {
      NothingMade(env, w, key);
    } else {
      var k, r := |rs| - 1, rs[|rs| - 1];
      AfterPagePrefix(env, w, rs, k, key);
      if HasAmap(env, w, rs[..k], key) {
        PageFrom(env, w, rs[..k], key);
        TableThere(env, w, rs[..k], key);
        TablesAfter(env, w, rs[..k], TableOf(key));
        OneEntry(env, ReplayAll(env, w, rs[..k]), r, key);
        OneOrNone(env, r, key);
        OneChange(Start(w, key), Changes(env, rs[..k], key), ChangeOf(env, r, key));
      } else {
        JustMade(env, w, rs, key);
      }
    }
  }

  lemma NothingMade(env: Env, w: Maps, key: Key)
    requires HasAmap(env, w, [], key)
    ensures key in w.amaps
  {
  }

  lemma JustMade(env: Env, w: Maps, rs: seq<Rec>, key: Key)
    requires rs != [] && Nested(w) && HasAmap(env, w, rs, key) && AfterPage(env, w, rs, key)
    requires !HasAmap(env, w, rs[..|rs| - 1], key)
    ensures AmapIs(ReplayAll(env, w, rs), key, Amap(0, map[])) && key !in w.amaps && Changes(env, rs, key) == []
  {
    hide HasTable, HasAmap, MakesAmap, ReplayOne, Nested, AfterPage, TableOf;
    var k := |rs| - 1;
    OneMoreAmap(env, w, rs, key);
    assert rs[..k] + [rs[k]] == rs;
    Creates(env, w, rs[..k], rs[k], key);
    AfterPagePrefix(env, w, rs, k, key);
    NotBefore(env, w, rs[..k], key);
    MakerChangesNothing(env, w, rs, k, key);
    NotThere(env, w, rs[..k], key);
  }

  lemma MakerChangesNothing(env: Env, w: Maps, rs: seq<Rec>, k: nat, key: Key)
    requires k < |rs| && MakesAmap(env, w, rs, k, key)
    ensures ChangeOf(env, rs[k], key) == []
  {
  }

  lemma NotThere(env: Env, w: Maps, rs: seq<Rec>, key: Key)
    requires !HasAmap(env, w, rs, key)
    ensures key !in w.amaps
  {
  }

  // ---------- The second replay ----------

  lemma {:induction false} ChangesAppend(env: Env, a: seq<Rec>, b: seq<Rec>, key: Key)
    ensures Changes(env, a + b, key) == Changes(env, a, key) + Changes(env, b, key)
  {
    hide ChangeOf;
    if b == [] {
      assert a + b == a;
    } else {
      assert (a + b)[..|a + b| - 1] == a + b[..|b| - 1];
      ChangesAppend(env, a, b[..|b| - 1], key);
    }
  }

  /** What is stored lies between the maps that replay started from and those it ends with. */
  ghost predicate Between(env: Env, w: Maps, rs: seq<Rec>, d: Maps) {
    && w.tables <= d.tables && w.amaps.Keys <= d.amaps.Keys
    && (forall t :: t in d.tables ==> HasTable(env, w, rs, t))
    && (forall k :: k in d.amaps ==> HasAmap(env, w, rs, k))
  }

  lemma ImagesBetween(env: Env, w: Maps, rs: seq<Rec>, n: nat, d: Maps)
    requires n <= |rs| && Images(env, w, rs[..n], d)
    ensures Between(env, w, rs, d)
  {
    hide HasTable, HasAmap, ReplayAll, HadImage;
    forall t | t in d.tables ensures HasTable(env, w, rs, t) {
      TablesAfter(env, w, rs[..n], t);
      TablePrefix(env, w, rs, n, t);
    }
    forall k | k in d.amaps ensures HasAmap(env, w, rs, k) {
      AmapsAfter(env, w, rs[..n], k);
      AmapPrefix(env, w, rs, n, k);
    }
    forall t | t in w.tables ensures t in d.tables {
      ThereTable(env, w, rs[..n], t);
      TablesAfter(env, w, rs[..n], t);
    }
    forall k | k in w.amaps ensures k in d.amaps { KeysKept(env, w, rs[..n], k); }
  }

  lemma ThereTable(env: Env, w: Maps, rs: seq<Rec>, t: Key)
    requires t in w.tables
    ensures HasTable(env, w, rs, t)
  {
  }

  lemma SameTables(env: Env, w: Maps, rs: seq<Rec>, d: Maps, t: Key)
    requires Between(env, w, rs, d)
    ensures HasTable(env, d, rs, t) <==> HasTable(env, w, rs, t)
  {
    if HasTable(env, w, rs, t) { TableMono(env, w, d, rs, t); }
  }

  lemma SameAmaps(env: Env, w: Maps, rs: seq<Rec>, d: Maps, key: Key)
    requires Between(env, w, rs, d) && Proper(env, w, rs)
    ensures HasAmap(env, d, rs, key) <==> HasAmap(env, w, rs, key)
  {
    hide HasTable;
    if HasAmap(env, w, rs, key) { AmapMono(env, w, d, rs, key); }
    if HasAmap(env, d, rs, key) && key !in d.amaps {
      var i :| 0 <= i < |rs| && MakesAmap(env, d, rs, i, key);
      var t := TableKey(MetaTarget(rs[i]), rs[i].lba);
      TablePrefix(env, d, rs, i, t);
      SameTables(env, w, rs, d, t);
      assert Ready(env, w, rs, i);
      assert MakesAmap(env, w, rs, i, key);
    }
  }

  lemma ChangeKey(env: Env, r: Rec, key: Key)
    requires ChangeOf(env, r, key) != []
    ensures r.target != 0 && AmapKey(r.target, r.lba) == key
  {
  }

  lemma ProperPage(env: Env, w: Maps, rs: seq<Rec>, key: Key)
    requires Proper(env, w, rs) && HasAmap(env, w, rs, key)
    ensures AfterPage(env, w, rs, key)
  {
    hide ChangeOf, HasAmap;
    forall i | 0 <= i < |rs| && ChangeOf(env, rs[i], key) != [] ensures HasAmap(env, w, rs[..i], key) {
      ChangeKey(env, rs[i], key);
      assert Ready(env, w, rs, i);
    }
  }

  lemma LaterPage(env: Env, w: Maps, rs: seq<Rec>, d: Maps, key: Key)
    requires Between(env, w, rs, d) && AfterPage(env, w, rs, key)
    ensures AfterPage(env, d, rs, key)
  {
    hide ChangeOf, HasAmap;
    forall i | 0 <= i < |rs| && ChangeOf(env, rs[i], key) != [] ensures HasAmap(env, d, rs[..i], key) {
      AmapMono(env, w, d, rs[..i], key);
    }
  }

  /** What is stored of a page is what part of the log made of it. */
  lemma ImagePart(env: Env, w: Maps, rs: seq<Rec>, n: nat, key: Key, a: Amap) returns (m: nat)
    requires Nested(w) && n <= |rs| && AfterPage(env, w, rs, key) && HadImage(env, w, rs[..n], key, a)
    ensures m <= |rs| && a == ReplayPage(Start(w, key), Changes(env, rs[..m], key))
  {
    hide HasAmap, ReplayAll, ReplayPage, Changes, Nested, AfterPage;
    m :| 0 <= m <= n && AmapIs(ReplayAll(env, w, rs[..n][..m]), key, a);
    assert rs[..n][..m] == rs[..m];
    AmapsAfter(env, w, rs[..m], key);
    AfterPagePrefix(env, w, rs, m, key);
    PageFrom(env, w, rs[..m], key);
  }

  lemma SamePage(env: Env, w: Maps, rs: seq<Rec>, n: nat, d: Maps, key: Key)
    requires Nested(w) && Nested(d) && Proper(env, w, rs) && n <= |rs| && Images(env, w, rs[..n], d)
    requires Between(env, w, rs, d) && HasAmap(env, w, rs, key)
    ensures var u, v := ReplayAll(env, d, rs), ReplayAll(env, w, rs);
      key in u.amaps && key in v.amaps && u.amaps[key] == v.amaps[key]
  {
    hide HasAmap, ReplayAll, ReplayPage, Changes, Nested, AfterPage, HadImage, Between, Proper;
    ProperPage(env, w, rs, key);
    LaterPage(env, w, rs, d, key);
    SameAmaps(env, w, rs, d, key);
    PageFrom(env, w, rs, key);
    PageFrom(env, d, rs, key);
    if key in d.amaps {
      var m := ImagePart(env, w, rs, n, key, d.amaps[key]);
      assert rs == rs[..m] + rs[m..];
      ChangesAppend(env, rs[..m], rs[m..], key);
      PageAgain(Start(w, key), Changes(env, rs[..m], key), Changes(env, rs[m..], key));
    } else {
      NotEarlier(env, w, rs, d, key);
    }
  }

  lemma NotEarlier(env: Env, w: Maps, rs: seq<Rec>, d: Maps, key: Key)
    requires Between(env, w, rs, d) && key !in d.amaps
    ensures key !in w.amaps
  {
  }

  lemma ImagesNested(env: Env, w: Maps, rs: seq<Rec>, d: Maps)
    requires Nested(w) && Images(env, w, rs, d)
    ensures Nested(d)
  {
    hide HasTable, HasAmap, ReplayAll, HadImage, TableOf;
    forall key | key in d.amaps ensures TableOf(key) in d.tables {
      AmapsAfter(env, w, rs, key);
      TableThere(env, w, rs, key);
      TablesAfter(env, w, rs, TableOf(key));
    }
  }

  /** Replay is cut short after any n entries, with any of the pages stored as they were after any of those: replay of the
      whole log onto that gives the maps that replay without the crash would have given, provided that the log has
      nothing for a page, or for a page of a table, before the entry that creates it. */
  lemma Again(env: Env, w: Maps, rs: seq<Rec>, n: nat, d: Maps)
    requires Nested(w) && Proper(env, w, rs) && n <= |rs| && Images(env, w, rs[..n], d)
    ensures ReplayAll(env, d, rs) == ReplayAll(env, w, rs)
  {
    hide HasTable, HasAmap, ReplayAll, Nested, Proper, Between, Images;
    var u, v := ReplayAll(env, d, rs), ReplayAll(env, w, rs);
    ImagesBetween(env, w, rs, n, d);
    ImagesNested(env, w, rs[..n], d);
    forall t: Key ensures t in u.tables <==> t in v.tables {
      TablesAfter(env, d, rs, t);
      TablesAfter(env, w, rs, t);
      SameTables(env, w, rs, d, t);
    }
    forall key: Key ensures key in u.amaps <==> key in v.amaps {
      AmapsAfter(env, d, rs, key);
      AmapsAfter(env, w, rs, key);
      SameAmaps(env, w, rs, d, key);
    }
    forall key | key in v.amaps ensures u.amaps[key] == v.amaps[key] {
      AmapsAfter(env, w, rs, key);
      SamePage(env, w, rs, n, d, key);
    }
    assert u.tables == v.tables;
    assert u.amaps == v.amaps;
  }

  lemma ProperAgain(env: Env, w: Maps, rs: seq<Rec>, d: Maps)
    requires Between(env, w, rs, d) && Proper(env, w, rs)
    ensures Proper(env, d, rs)
  {
    hide HasTable, HasAmap, ChangeOf, Between;
    forall i | 0 <= i < |rs| ensures Ready(env, d, rs, i) {
      var r := rs[i];
      assert Ready(env, w, rs, i);
      if r.target != 0 {
        var key := AmapKey(r.target, r.lba);
        SameAmapsFor(env, w, rs, d, key, i);
      } else {
        var t := TableKey(MetaTarget(r), r.lba);
        SameTables(env, w, rs, d, t);
        if HasTable(env, w, rs[..i], t) { WiderTable(env, w, rs, d, i, t); }
      }
    }
  }

  lemma SameAmapsFor(env: Env, w: Maps, rs: seq<Rec>, d: Maps, key: Key, i: nat)
    requires Between(env, w, rs, d) && Proper(env, w, rs) && i < |rs|
    ensures HasAmap(env, d, rs, key) <==> HasAmap(env, w, rs, key)
    ensures HasAmap(env, w, rs[..i], key) ==> HasAmap(env, d, rs[..i], key)
  {
    hide HasAmap, Proper;
    SameAmaps(env, w, rs, d, key);
    if HasAmap(env, w, rs[..i], key) { AmapMono(env, w, d, rs[..i], key); }
  }

  lemma WiderTable(env: Env, w: Maps, rs: seq<Rec>, d: Maps, i: nat, t: Key)
    requires Between(env, w, rs, d) && i <= |rs| && HasTable(env, w, rs[..i], t)
    ensures HasTable(env, d, rs[..i], t)
  {
    TableMono(env, w, d, rs[..i], t);
  }

  /** And so for any number of crashes: ds[i + 1] is what was stored when replay onto ds[i] was cut short. */
  lemma {:induction false} AgainAndAgain(env: Env, rs: seq<Rec>, ds: seq<Maps>, cut: seq<nat>)
    requires ds != [] && |cut| == |ds| - 1 && Nested(ds[0]) && Proper(env, ds[0], rs)
    requires forall i :: 0 <= i < |cut| ==> cut[i] <= |rs| && Images(env, ds[i], rs[..cut[i]], ds[i + 1])
    ensures ReplayAll(env, ds[|ds| - 1], rs) == ReplayAll(env, ds[0], rs)
  {
    hide ReplayAll, Images, Nested, Proper, Between;
    if cut != [] {
      Again(env, ds[0], rs, cut[0], ds[1]);
      ImagesBetween(env, ds[0], rs, cut[0], ds[1]);
      ImagesNested(env, ds[0], rs[..cut[0]], ds[1]);
      ProperAgain(env, ds[0], rs, ds[1]);
      forall i | 0 <= i < |cut[1..]|
        ensures cut[1..][i] <= |rs| && Images(env, ds[1..][i], rs[..cut[1..][i]], ds[1..][i + 1])
      {
        assert cut[1..][i] == cut[i + 1] && ds[1..][i] == ds[i + 1] && ds[1..][i + 1] == ds[i + 2];
      }
      AgainAndAgain(env, rs, ds[1..], cut[1..]);
    }
  }

  /** Without that, an entry for a page the log creates only later is lost the first time and applied the second. */
  lemma OutOfOrder(env: Env, w: Maps)
    requires 1 in env.disks && BlockDisk(7) in env.devices
    requires TableKey(1, 0) in w.tables && AmapKey(1, 0) !in w.amaps
    ensures var key, rs := AmapKey(1, 0), [Rec(1, 7, 1, 0, 1), Rec(2, 7, 0, 0, 1)];
      var d := ReplayAll(env, w, rs);
      var again := ReplayAll(env, d, rs);
      && Images(env, w, rs, d) && key in d.amaps && d.amaps[key].blocks == map[]
      && key in again.amaps && again.amaps[key].blocks == map[0 := 7]
  {
    hide BlockDisk, Images;
    var a, b := Rec(1, 7, 1, 0, 1), Rec(2, 7, 0, 0, 1);
    assert [a, b][..1] == [a] && [a][..0] == [];
    assert MetaTarget(b) == 1 && MetaType(b) == 0;
    TwoEntries(env, w, a, b);
    var d := ReplayAll(env, w, [a, b]);
    TwoEntries(env, d, a, b);
    AllStored(env, w, [a, b], d);
  }

  lemma TwoEntries(env: Env, w: Maps, a: Rec, b: Rec)
    ensures ReplayAll(env, w, [a, b]) == ReplayOne(env, ReplayOne(env, w, a), b)
  {
    hide ReplayOne;
    assert [a, b][..1] == [a] && [a][..0] == [];
    assert ReplayAll(env, w, [a]) == ReplayOne(env, ReplayAll(env, w, []), a);
  }
}
