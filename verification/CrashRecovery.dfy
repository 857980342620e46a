/** Replay after a crash brings an address map page that is behind its log up to date. */
module CrashRecovery {
  import opened LogReplay
  import opened WriteIds
  import opened PagePipeline

  // ---------- One page ----------

  /** An entry of the log as one page sees it. */
  datatype Change = Change(lba: nat, block: nat, amapId: nat)

  function Apply(a: Amap, c: Change): Amap {
    if c.amapId != 0 && Greater(a.writeId, c.amapId) then a else a.(blocks := a.blocks[c.lba := c.block])
  }

  function ReplayPage(a: Amap, cs: seq<Change>): Amap {
    if cs == [] then a else Apply(ReplayPage(a, cs[..|cs| - 1]), cs[|cs| - 1])
  }

  function ChangeOf(env: Env, r: Rec, key: Key): seq<Change> {
    if && r.target != 0 && AmapKey(r.target, r.lba) == key
       && r.target in env.disks && (r.block == 0 || BlockDisk(r.block) in env.devices)
    then [Change(r.lba, r.block, r.amapId)] else []
  }

  /** The entries of a log that are for one page. */
  function Changes(env: Env, rs: seq<Rec>, key: Key): seq<Change> {
    if rs == [] then [] else Changes(env, rs[..|rs| - 1], key) + ChangeOf(env, rs[|rs| - 1], key)
  }

  /** The table of a page. */
  function TableOf(key: Key): Key { (key.0, key.1 / AMAPS_PER_TABLE) }

  lemma TableOfKey(target: nat, lba: nat)
    ensures TableOf(AmapKey(target, lba)) == TableKey(target, lba)
  {
    DivDiv(lba);
  }

  lemma DivDiv(x: nat)
    ensures x / LBAS_PER_AMAP / AMAPS_PER_TABLE == x / (LBAS_PER_AMAP * AMAPS_PER_TABLE)
  {
  }

  /** What one entry does to the maps, seen from a page that exists. */
  lemma OneEntry(env: Env, w: Maps, r: Rec, key: Key)
    requires key in w.amaps && TableOf(key) in w.tables
    ensures var w', c := ReplayOne(env, w, r), ChangeOf(env, r, key);
      && key in w'.amaps && TableOf(key) in w'.tables
      && w'.amaps[key] == if c == [] then w.amaps[key] else Apply(w.amaps[key], c[0])
  {
    hide TableKey, AmapKey, TableOf, BlockDisk, MetaTarget, MetaType, Greater;
    TableOfKey(r.target, r.lba);
  }

  /** Replaying a log does to a page what its own entries do. */
  lemma {:induction false} PageAlone(env: Env, w: Maps, rs: seq<Rec>, key: Key)
    requires key in w.amaps && TableOf(key) in w.tables
    ensures var w' := ReplayAll(env, w, rs);
      key in w'.amaps && TableOf(key) in w'.tables && w'.amaps[key] == ReplayPage(w.amaps[key], Changes(env, rs, key))
  {
    hide ReplayOne, TableOf, Apply, AmapKey, ChangeOf;
    if rs != [] {
      var r, front := rs[|rs| - 1], rs[..|rs| - 1];
      PageAlone(env, w, front, key);
      OneEntry(env, ReplayAll(env, w, front), r, key);
      OneOrNone(env, r, key);
      OneChange(w.amaps[key], Changes(env, front, key), ChangeOf(env, r, key));
    }
  }

  lemma OneOrNone(env: Env, r: Rec, key: Key)
    ensures |ChangeOf(env, r, key)| <= 1
  {
  }

  lemma OneChange(a: Amap, cs: seq<Change>, more: seq<Change>)
    requires |more| <= 1
    ensures ReplayPage(a, cs + more) == if more == [] then ReplayPage(a, cs) else Apply(ReplayPage(a, cs), more[0])
  {
    if more == [] {
      assert cs + more == cs;
    } else {
      assert (cs + more)[..|cs|] == cs;
    }
  }

  // ---------- The history of a page ----------

  /** A page starts as `blocks` with id `first`, which is 0 if replay made the page. Batch v changes it; every lba and block
      of the batch is logged with the id of version v; then the page is written as version v + 1, its id advanced by
      incrs[v]. On a disk older than version 2 ids are neither stored nor logged. */
  datatype History = History(v2: bool, first: nat, blocks: map<nat, nat>, incrs: seq<nat>, batches: seq<seq<(nat, nat)>>)

  predicate Valid(h: History) {
    h.first < WRITE_ID_MAX && |h.incrs| == |h.batches| && Steps(h.incrs)
  }

  function Put(blocks: map<nat, nat>, batch: seq<(nat, nat)>): map<nat, nat> {
    if batch == [] then blocks
    else Put(blocks, batch[..|batch| - 1])[batch[|batch| - 1].0 := batch[|batch| - 1].1]
  }

  /** The contents and the id of version v. */
  function After(h: History, v: nat): map<nat, nat>
    requires v <= |h.batches|
  {
    if v == 0 then h.blocks else Put(After(h, v - 1), h.batches[v - 1])
  }

  /** Batches j .. m put onto `blocks`. */
  function From(h: History, blocks: map<nat, nat>, j: nat, m: nat): map<nat, nat>
    requires j <= m <= |h.batches|
  {
    if m == j then blocks else Put(From(h, blocks, j, m - 1), h.batches[m - 1])
  }

  function IdAt(h: History, v: nat): nat
    requires v <= |h.incrs|
  {
    Advance(h.first, h.incrs[..v])
  }

  /** The id that version v has when it is read back, and the one that its batch is logged with. */
  function StoredId(h: History, v: nat): nat
    requires v <= |h.incrs|
  {
    if h.v2 then IdAt(h, v) else 1
  }

  function LogId(h: History, v: nat): nat
    requires v <= |h.incrs|
  {
    if h.v2 then IdAt(h, v) else 0
  }

  function Version(h: History, v: nat): Amap
    requires Valid(h) && v <= |h.batches|
  {
    Amap(StoredId(h, v), After(h, v))
  }

  function Tagged(batch: seq<(nat, nat)>, id: nat): seq<Change> {
    seq(|batch|, i requires 0 <= i < |batch| => Change(batch[i].0, batch[i].1, id))
  }

  /** The log of batches c .. n. */
  function Logged(h: History, c: nat, n: nat): seq<Change>
    requires Valid(h) && c <= n <= |h.batches|
  {
    if c == n then [] else Logged(h, c, n - 1) + Tagged(h.batches[n - 1], LogId(h, n - 1))
  }

  /** The ids wrapped between versions j and v. */
  predicate Wrapped(h: History, j: nat, v: nat)
    requires Valid(h) && j <= v <= |h.batches|
  {
    h.v2 && IdAt(h, j) + Sum(h.incrs[j..v]) >= WRITE_ID_MAX
  }

  /** No more ids than the window holds are used from version c to version n. */
  predicate InWindow(h: History, c: nat, n: nat)
    requires Valid(h) && c <= n <= |h.batches|
  {
    h.v2 ==> Sum(h.incrs[c..n]) <= WINDOW
  }

  /** How many of the first n batches replay onto version j brings back. */
  function Reached(h: History, j: nat, n: nat): (m: nat)
    requires Valid(h) && j <= n <= |h.batches|
    ensures j <= m <= n
  {
    if n == j || !Wrapped(h, j, n - 1) then n else Reached(h, j, n - 1)
  }

  // ---------- Proof ----------

  lemma {:induction false} SumSplit(a: seq<nat>, b: seq<nat>)
    ensures Sum(a + b) == Sum(a) + Sum(b)
  {
    if b == [] {
      assert a + b == a;
    } else {
      assert (a + b)[..|a + b| - 1] == a + b[..|b| - 1];
      SumSplit(a, b[..|b| - 1]);
    }
  }

  lemma {:induction false} AdvanceSplit(id: nat, a: seq<nat>, b: seq<nat>)
    ensures Advance(id, a + b) == Advance(Advance(id, a), b)
  {
    if b == [] {
      assert a + b == a;
    } else {
      assert (a + b)[..|a + b| - 1] == a + b[..|b| - 1];
      AdvanceSplit(id, a, b[..|b| - 1]);
    }
  }

  /** Only the first version can have id 0. */
  lemma IdsFrom(h: History, i: nat, v: nat)
    requires Valid(h) && i <= v <= |h.batches|
    ensures IdAt(h, i) < WRITE_ID_MAX && (IdAt(h, i) == 0 <==> i == 0 && h.first == 0)
    ensures IdAt(h, v) == Advance(IdAt(h, i), h.incrs[i..v])
  {
    var head := h.incrs[..i];
    if h.first != 0 {
      AdvanceCycles(h.first, head);
    } else if i > 0 {
      FirstStep(head);
      AdvanceCycles(head[0], head[1..]);
    }
    AdvanceSplit(h.first, head, h.incrs[i..v]);
    assert h.incrs[..v] == head + h.incrs[i..v];
  }

  /** From id 0 the first step is the first id. */
  lemma FirstStep(incrs: seq<nat>)
    requires Steps(incrs) && incrs != []
    ensures Advance(0, incrs) == Advance(incrs[0], incrs[1..]) && Sum(incrs) == incrs[0] + Sum(incrs[1..])
  {
    assert incrs == incrs[..1] + incrs[1..] && incrs[..1][..0] == [];
    AdvanceSplit(0, incrs[..1], incrs[1..]);
    SumSplit(incrs[..1], incrs[1..]);
  }

  /** A page that still has id 0 takes every entry of its window. */
  lemma ZeroTest(incrs: seq<nat>)
    requires Steps(incrs) && Sum(incrs) <= WINDOW
    ensures !Greater(0, Advance(0, incrs))
  {
    if incrs != [] {
      FirstStep(incrs);
      AdvanceCycles(incrs[0], incrs[1..]);
      CycleIs(incrs[0], Sum(incrs[1..]));
    }
  }

  lemma {:induction false} SumPositive(s: seq<nat>)
    requires Steps(s) && s != []
    ensures Sum(s) > 0
  {
  }

  predicate Skipped(current: nat, id: nat) { id != 0 && Greater(current, id) }

  /** Which batches the write-id test lets through when version j is on the device. */
  lemma Test(h: History, c: nat, j: nat, v: nat, n: nat)
    requires Valid(h) && c <= j <= n <= |h.batches| && c <= v < n && InWindow(h, c, n)
    ensures Skipped(StoredId(h, j), LogId(h, v)) <==> LogId(h, v) != 0 && (v < j || Wrapped(h, j, v))
  {
    hide Sum, IdAt, Greater;
    if h.v2 {
      if v < j {
        PartSum(h.incrs, c, v, j, n);
        if IdAt(h, v) != 0 { TestNewer(h, v, j); }
      } else {
        PartSum(h.incrs, c, j, v, n);
        TestOlder(h, j, v);
      }
    }
  }

  lemma PartSum(s: seq<nat>, c: nat, lo: nat, hi: nat, n: nat)
    requires c <= lo <= hi <= n <= |s|
    ensures Sum(s[lo..hi]) <= Sum(s[c..n])
  {
    hide Sum;
    SumSplit(s[c..lo], s[lo..n]);
    SumSplit(s[lo..hi], s[hi..n]);
    assert s[c..n] == s[c..lo] + s[lo..n] && s[lo..n] == s[lo..hi] + s[hi..n];
  }

  lemma TestNewer(h: History, v: nat, j: nat)
    requires Valid(h) && v < j <= |h.batches| && Sum(h.incrs[v..j]) <= WINDOW && IdAt(h, v) != 0
    ensures Greater(IdAt(h, j), IdAt(h, v))
  {
    hide Sum, IdAt, Greater, Advance;
    IdsFrom(h, v, j);
    SumPositive(h.incrs[v..j]);
    NewerIsGreater(IdAt(h, v), h.incrs[v..j]);
  }

  lemma TestOlder(h: History, j: nat, v: nat)
    requires Valid(h) && j <= v <= |h.batches| && Sum(h.incrs[j..v]) <= WINDOW
    ensures Greater(IdAt(h, j), IdAt(h, v)) <==> IdAt(h, j) + Sum(h.incrs[j..v]) >= WRITE_ID_MAX
  {
    hide Sum, IdAt, Greater, Advance;
    IdsFrom(h, j, v);
    if IdAt(h, j) == 0 { ZeroTest(h.incrs[j..v]); } else { OlderIsGreater(IdAt(h, j), h.incrs[j..v]); }
  }

  lemma {:induction false} ReplayAppend(a: Amap, x: seq<Change>, y: seq<Change>)
    ensures ReplayPage(a, x + y) == ReplayPage(ReplayPage(a, x), y)
  {
    if y == [] {
      assert x + y == x;
    } else {
      assert (x + y)[..|x + y| - 1] == x + y[..|y| - 1];
      ReplayAppend(a, x, y[..|y| - 1]);
    }
  }

  /** A batch is replayed as a whole or not at all. */
  lemma {:induction false} ReplayBatch(a: Amap, batch: seq<(nat, nat)>, id: nat)
    ensures ReplayPage(a, Tagged(batch, id))
      == if Skipped(a.writeId, id) then a else Amap(a.writeId, Put(a.blocks, batch))
  {
    hide Greater;
    if batch != [] {
      var k := |batch| - 1;
      ReplayBatch(a, batch[..k], id);
      assert Tagged(batch, id)[..k] == Tagged(batch[..k], id);
    }
  }

  /** Replay of batches j .. t onto a page with the id of version j, when no more ids than the window were used since. */
  lemma {:induction false} ReplayLogged(h: History, blocks: map<nat, nat>, j: nat, t: nat, n: nat)
    requires Valid(h) && j <= t <= n <= |h.batches| && InWindow(h, j, n)
    ensures ReplayPage(Amap(StoredId(h, j), blocks), Logged(h, j, t))
      == Amap(StoredId(h, j), From(h, blocks, j, Reached(h, j, t)))
    decreases t
  {
    hide Greater, Put, ReplayPage, Sum, Advance, Skipped;
    var a := Amap(StoredId(h, j), blocks);
    if t == j {
      ReplayNothing(a);
    } else {
      var v := t - 1;
      ReplayLogged(h, blocks, j, v, n);
      var log, batch := Logged(h, j, v), h.batches[v];
      ReplayAppend(a, log, Tagged(batch, LogId(h, v)));
      Test(h, j, j, v, n);
      ReplayBatch(ReplayPage(a, log), batch, LogId(h, v));
      IdsFrom(h, v, v);
      if v > j {
        if !Wrapped(h, j, v) { WrappedStays(h, j, v); }
      } else {
        NotYetWrapped(h, j);
      }
    }
  }

  lemma NotYetWrapped(h: History, j: nat)
    requires Valid(h) && j <= |h.batches|
    ensures !Wrapped(h, j, j)
  {
    hide IdAt;
    IdsFrom(h, j, j);
  }

  lemma ReplayNothing(a: Amap)
    ensures ReplayPage(a, []) == a
  {
  }

  /** Until the ids wrap, nothing is left out. */
  lemma WrappedStays(h: History, j: nat, v: nat)
    requires Valid(h) && j < v <= |h.batches| && !Wrapped(h, j, v)
    ensures !Wrapped(h, j, v - 1) && Reached(h, j, v) == v
  {
    assert h.incrs[j..v] == h.incrs[j..v - 1] + h.incrs[v - 1..v];
    SumSplit(h.incrs[j..v - 1], h.incrs[v - 1..v]);
  }

  // ---------- Entries of batches that are stored already ----------

  /** Changes that batches c .. j logged. */
  ghost predicate Old(h: History, c: nat, j: nat, cs: seq<Change>)
    requires Valid(h) && c <= j <= |h.batches|
  {
    forall i :: 0 <= i < |cs| ==> LoggedIn(h, c, j, cs[i])
  }

  ghost predicate LoggedIn(h: History, c: nat, j: nat, x: Change)
    requires Valid(h) && c <= j <= |h.batches|
  {
    exists v :: c <= v < j && x.amapId == LogId(h, v)
  }

  /** The changes that replay never tests. */
  function Untested(cs: seq<Change>): seq<(nat, nat)> {
    if cs == [] then []
    else
      var c := cs[|cs| - 1];
      Untested(cs[..|cs| - 1]) + if c.amapId == 0 then [(c.lba, c.block)] else []
  }

  lemma PutOne(blocks: map<nat, nat>, batch: seq<(nat, nat)>, x: (nat, nat))
    ensures Put(blocks, batch + [x]) == Put(blocks, batch)[x.0 := x.1]
  {
    assert (batch + [x])[..|batch|] == batch;
  }

  /** What is stored is skipped, except for changes logged with id 0. */
  lemma {:induction false} ReplayOld(h: History, c: nat, j: nat, cs: seq<Change>)
    requires Valid(h) && c <= j <= |h.batches| && InWindow(h, c, |h.batches|) && Old(h, c, j, cs)
    ensures ReplayPage(Version(h, j), cs) == Amap(StoredId(h, j), Put(After(h, j), Untested(cs)))
  {
    hide Greater, Sum, IdAt, After, Wrapped;
    if cs != [] {
      var front, x := cs[..|cs| - 1], cs[|cs| - 1];
      assert Old(h, c, j, front) by { assert forall i :: 0 <= i < |front| ==> front[i] == cs[i]; }
      ReplayOld(h, c, j, front);
      assert LoggedIn(h, c, j, x);
      var v :| c <= v < j && x.amapId == LogId(h, v);
      Test(h, c, j, v, |h.batches|);
      PutOne(After(h, j), Untested(front), (x.lba, x.block));
      assert Untested(front) + [] == Untested(front);
    }
  }

  /** Without id 0 nothing is untested, nor while the first version is the stored one. */
  lemma {:induction false} AllTested(h: History, c: nat, j: nat, cs: seq<Change>)
    requires Valid(h) && c <= j <= |h.batches| && Old(h, c, j, cs) && (j == 0 || (h.v2 && (h.first != 0 || c > 0)))
    ensures Untested(cs) == []
  {
    hide IdAt;
    if cs != [] {
      var front, x := cs[..|cs| - 1], cs[|cs| - 1];
      assert Old(h, c, j, front) by { assert forall i :: 0 <= i < |front| ==> front[i] == cs[i]; }
      AllTested(h, c, j, front);
      assert LoggedIn(h, c, j, x);
      var v :| c <= v < j && x.amapId == LogId(h, v);
      IdsFrom(h, v, v);
    }
  }

  /** A crash leaves version j of a page on its device, and a log that still holds every batch since, after some entries
      of earlier batches. Replay of that log, among the entries of every other page, skips the earlier entries except
      those logged with id 0, and then brings back every batch up to where the ids wrapped. */
  lemma Recovers(env: Env, w: Maps, rs: seq<Rec>, key: Key, h: History, c: nat, j: nat, earlier: seq<Change>)
    requires Valid(h) && c <= j <= |h.batches| && InWindow(h, c, |h.batches|)
    requires key in w.amaps && TableOf(key) in w.tables && w.amaps[key] == Version(h, j)
    requires Old(h, c, j, earlier) && Changes(env, rs, key) == earlier + Logged(h, j, |h.batches|)
    ensures var w', base := ReplayAll(env, w, rs), Put(After(h, j), Untested(earlier));
      key in w'.amaps && w'.amaps[key] == Amap(StoredId(h, j), From(h, base, j, Reached(h, j, |h.batches|)))
  {
    hide Sum, ReplayPage, ReplayAll, Logged, Changes, After, Old, Untested, Put, IdAt, Reached, From;
    var n := |h.batches|;
    PageAlone(env, w, rs, key);
    ReplayAppend(Version(h, j), earlier, Logged(h, j, n));
    ReplayOld(h, c, j, earlier);
    SmallerWindow(h, c, j, n);
    ReplayLogged(h, Put(After(h, j), Untested(earlier)), j, n, n);
  }

  lemma SmallerWindow(h: History, c: nat, j: nat, n: nat)
    requires Valid(h) && c <= j <= n <= |h.batches| && InWindow(h, c, n)
    ensures InWindow(h, j, n)
  {
    assert h.incrs[c..n] == h.incrs[c..j] + h.incrs[j..n];
    SumSplit(h.incrs[c..j], h.incrs[j..n]);
  }

  // ---------- When the page is recovered ----------

  /** All changes of the first m batches. */
  function Flat(h: History, m: nat): seq<(nat, nat)>
    requires m <= |h.batches|
  {
    if m == 0 then [] else Flat(h, m - 1) + h.batches[m - 1]
  }

  lemma {:induction false} PutAppend(blocks: map<nat, nat>, a: seq<(nat, nat)>, b: seq<(nat, nat)>)
    ensures Put(blocks, a + b) == Put(Put(blocks, a), b)
  {
    if b == [] {
      assert a + b == a;
    } else {
      assert (a + b)[..|a + b| - 1] == a + b[..|b| - 1];
      PutAppend(blocks, a, b[..|b| - 1]);
    }
  }

  lemma {:induction false} AfterFlat(h: History, m: nat)
    requires m <= |h.batches|
    ensures After(h, m) == Put(h.blocks, Flat(h, m))
  {
    if m > 0 {
      AfterFlat(h, m - 1);
      PutAppend(h.blocks, Flat(h, m - 1), h.batches[m - 1]);
    }
  }

  predicate Mentions(batch: seq<(nat, nat)>, lba: nat) { exists i :: 0 <= i < |batch| && batch[i].0 == lba }

  /** The last block that a batch gives an lba. */
  function Last(batch: seq<(nat, nat)>, lba: nat): nat
    requires Mentions(batch, lba)
  {
    var k := |batch| - 1;
    if batch[k].0 == lba then batch[k].1 else Last(batch[..k], lba)
  }

  predicate SetAgain(h: History, lba: nat, j: nat, m: nat)
    requires j <= m <= |h.batches|
  {
    exists v :: j <= v < m && Mentions(h.batches[v], lba)
  }

  /** Every lba of `z` is set again by batches j .. m, or its last block in `z` is the one of version j. */
  ghost predicate Harmless(h: History, z: seq<(nat, nat)>, j: nat, m: nat)
    requires j <= m <= |h.batches|
  {
    forall lba :: Mentions(z, lba) ==>
      SetAgain(h, lba, j, m) || (lba in After(h, j) && After(h, j)[lba] == Last(z, lba))
  }

  predicate Agree(a: map<nat, nat>, b: map<nat, nat>, lba: nat) {
    (lba in a <==> lba in b) && (lba in a ==> a[lba] == b[lba])
  }

  lemma {:induction false} PutAt(blocks: map<nat, nat>, batch: seq<(nat, nat)>, lba: nat)
    ensures var p := Put(blocks, batch);
      if Mentions(batch, lba) then lba in p && p[lba] == Last(batch, lba) else Agree(p, blocks, lba)
  {
    if batch != [] {
      var k := |batch| - 1;
      PutAt(blocks, batch[..k], lba);
      MentionsOne(batch, lba);
    }
  }

  lemma MentionsOne(batch: seq<(nat, nat)>, lba: nat)
    requires batch != []
    ensures var k := |batch| - 1; Mentions(batch, lba) <==> Mentions(batch[..k], lba) || batch[k].0 == lba
  {
    var k := |batch| - 1;
    if Mentions(batch[..k], lba) {
      var i :| 0 <= i < k && batch[..k][i].0 == lba;
      assert batch[i].0 == lba;
    }
    if Mentions(batch, lba) && batch[k].0 != lba {
      var i :| 0 <= i < |batch| && batch[i].0 == lba;
      assert batch[..k][i].0 == lba;
    }
  }

  /** What two pages hold for an lba is the same after the same batches iff it was, or one of the batches sets it. */
  lemma {:induction false} FromAgree(h: History, a: map<nat, nat>, b: map<nat, nat>, j: nat, m: nat, lba: nat)
    requires j <= m <= |h.batches|
    ensures Agree(From(h, a, j, m), From(h, b, j, m), lba) <==> SetAgain(h, lba, j, m) || Agree(a, b, lba)
    decreases m
  {
    hide Put, Mentions, Last;
    if m > j {
      FromAgree(h, a, b, j, m - 1, lba);
      PutAt(From(h, a, j, m - 1), h.batches[m - 1], lba);
      PutAt(From(h, b, j, m - 1), h.batches[m - 1], lba);
    }
  }

  lemma SameMaps(a: map<nat, nat>, b: map<nat, nat>)
    ensures a == b <==> forall lba :: Agree(a, b, lba)
  {
    if forall lba :: Agree(a, b, lba) {
      assert forall lba :: lba in a ==> Agree(a, b, lba);
      assert forall lba :: lba in b ==> Agree(a, b, lba);
    }
  }

  lemma {:induction false} FromAfter(h: History, j: nat, m: nat)
    requires j <= m <= |h.batches|
    ensures From(h, After(h, j), j, m) == After(h, m)
    decreases m
  {
    hide Put;
    if m > j { FromAfter(h, j, m - 1); }
  }

  /** Old changes put onto version j are gone after batches j .. m if and only if they are harmless. */
  lemma GoneIff(h: History, z: seq<(nat, nat)>, j: nat, m: nat)
    requires j <= m <= |h.batches|
    ensures From(h, Put(After(h, j), z), j, m) == After(h, m) <==> Harmless(h, z, j, m)
  {
    hide Put, After, From, Mentions, Last, SetAgain, Agree;
    var b := After(h, j);
    FromAfter(h, j, m);
    var x, y := From(h, Put(b, z), j, m), From(h, b, j, m);
    SameMaps(x, y);
    forall lba ensures Agree(x, y, lba) <==>
        (Mentions(z, lba) ==> SetAgain(h, lba, j, m) || (lba in b && b[lba] == Last(z, lba)))
    {
      FromAgree(h, Put(b, z), b, j, m, lba);
      OneLba(b, z, lba);
    }
  }

  lemma OneLba(b: map<nat, nat>, z: seq<(nat, nat)>, lba: nat)
    ensures Agree(Put(b, z), b, lba) <==> (Mentions(z, lba) ==> lba in b && b[lba] == Last(z, lba))
  {
    hide Put, Mentions, Last;
    PutAt(b, z, lba);
  }

  /** A late part of all that is stored is harmless: what it gives an lba last is what is stored. */
  lemma LateHarmless(h: History, x: seq<(nat, nat)>, z: seq<(nat, nat)>, j: nat, m: nat)
    requires j <= m <= |h.batches| && Flat(h, j) == x + z
    ensures Harmless(h, z, j, m)
  {
    hide Put, Mentions, Last, After, Flat, SetAgain;
    AfterFlat(h, j);
    PutAppend(h.blocks, x, z);
    forall lba | Mentions(z, lba) ensures lba in After(h, j) && After(h, j)[lba] == Last(z, lba) {
      PutAt(Put(h.blocks, x), z, lba);
    }
  }

  lemma NothingHarmless(h: History, j: nat, m: nat)
    requires j <= m <= |h.batches|
    ensures Harmless(h, [], j, m)
  {
  }

  /** So if the ids did not wrap before the last batch, every logged change is recovered if and only if the untested ones
      are harmless, as they are if there are none. */
  lemma RecoversAll(env: Env, w: Maps, rs: seq<Rec>, key: Key, h: History, c: nat, j: nat, earlier: seq<Change>)
    requires Valid(h) && c <= j < |h.batches| && InWindow(h, c, |h.batches|) && !Wrapped(h, j, |h.batches| - 1)
    requires key in w.amaps && TableOf(key) in w.tables && w.amaps[key] == Version(h, j)
    requires Old(h, c, j, earlier) && Changes(env, rs, key) == earlier + Logged(h, j, |h.batches|)
    ensures var w', n := ReplayAll(env, w, rs), |h.batches|;
      && key in w'.amaps
      && (w'.amaps[key].blocks == After(h, n) <==> Harmless(h, Untested(earlier), j, n))
      && (j == 0 || (h.v2 && (h.first != 0 || c > 0)) ==> w'.amaps[key].blocks == After(h, n))
  {
    hide Sum, ReplayPage, ReplayAll, Logged, Changes, After, Old, Untested, Put, IdAt, From, Harmless;
    var n := |h.batches|;
    Recovers(env, w, rs, key, h, c, j, earlier);
    GoneIff(h, Untested(earlier), j, n);
    if j == 0 || (h.v2 && (h.first != 0 || c > 0)) {
      AllTested(h, c, j, earlier);
      NothingHarmless(h, j, n);
    }
  }

  /** A change that is stored can be undone: lba 0 was set to 7 and then to 8, both stored; the log holds both entries. */
  lemma ZeroIdUndoes()
    ensures var h := History(true, 0, map[], [1, 1], [[(0, 7)], [(0, 8)]]);
      Valid(h) && Version(h, 2) == Amap(2, map[0 := 8]) && ReplayPage(Version(h, 2), Logged(h, 0, 2)) == Amap(2, map[0 := 7])
  {
    hide After, Put, ReplayPage, Logged, IdAt;
    var h := History(true, 0, map[], [1, 1], [[(0, 7)], [(0, 8)]]);
    TwoBatches(h);
    ReplayTwo(Version(h, 2), Change(0, 7, 0), Change(0, 8, 1));
  }

  lemma TwoBatches(h: History)
    requires Valid(h) && h.v2 && h.first == 0 && h.incrs == [1, 1] && |h.batches[0]| == |h.batches[1]| == 1
    ensures IdAt(h, 2) == 2 && After(h, 2) == h.blocks[h.batches[0][0].0 := h.batches[0][0].1][h.batches[1][0].0 := h.batches[1][0].1]
    ensures var x, y := h.batches[0][0], h.batches[1][0]; Logged(h, 0, 2) == [Change(x.0, x.1, 0), Change(y.0, y.1, 1)]
  {
    hide Put;
    var x, y := h.batches[0][0], h.batches[1][0];
    PutOne(h.blocks, [], x);
    PutOne(h.blocks[x.0 := x.1], [], y);
    assert h.batches[0] == [] + [x] && h.batches[1] == [] + [y];
    assert Put(h.blocks, []) == h.blocks && Put(h.blocks[x.0 := x.1], []) == h.blocks[x.0 := x.1] by { PutNone(); }
    assert After(h, 1) == Put(After(h, 0), h.batches[0]);
    assert h.incrs[..0] == [] && h.incrs[..1] == [1] && h.incrs[..2] == [1, 1] && [1, 1][..1] == [1] && [1][..0] == [];
    assert IdAt(h, 0) == 0 && IdAt(h, 1) == 1;
    assert Logged(h, 0, 1) == Logged(h, 0, 0) + Tagged(h.batches[0], 0);
  }

  lemma PutNone()
    ensures forall blocks :: Put(blocks, []) == blocks
  {
  }

  lemma ReplayTwo(a: Amap, x: Change, y: Change)
    ensures ReplayPage(a, [x, y]) == Apply(Apply(a, x), y)
  {
    hide Apply;
    assert [x, y][..1] == [x] && [x][..0] == [];
    assert ReplayPage(a, [x]) == Apply(ReplayPage(a, []), x);
  }

  // ---------- A page that only the log knows ----------

  /** The batches among the first t that were logged with an id of at most 2^32, or with none. */
  function AfterSmall(h: History, t: nat): map<nat, nat>
    requires Valid(h) && t <= |h.batches|
  {
    if t == 0 then h.blocks
    else if LogId(h, t - 1) <= WINDOW then Put(AfterSmall(h, t - 1), h.batches[t - 1])
    else AfterSmall(h, t - 1)
  }

  lemma {:induction false} AllSmall(h: History, t: nat)
    requires Valid(h) && t <= |h.batches| && forall v :: 0 <= v < t ==> LogId(h, v) <= WINDOW
    ensures AfterSmall(h, t) == After(h, t)
  {
    hide Advance, Put;
    if t > 0 { AllSmall(h, t - 1); }
  }

  /** A page created again by replay has id 0, which compares greater than ids above 2^32. */
  lemma {:induction false} ReplayCreated(h: History, t: nat)
    requires Valid(h) && t <= |h.batches|
    ensures ReplayPage(Amap(0, h.blocks), Logged(h, 0, t)) == Amap(0, AfterSmall(h, t))
  {
    hide Put, ReplayPage, Advance;
    if t == 0 {
      ReplayNothing(Amap(0, h.blocks));
    } else {
      var v := t - 1;
      ReplayCreated(h, v);
      ReplayAppend(Amap(0, h.blocks), Logged(h, 0, v), Tagged(h.batches[v], LogId(h, v)));
      ReplayBatch(Amap(0, AfterSmall(h, v)), h.batches[v], LogId(h, v));
    }
  }

  lemma {:induction false} ReplayTwice(env: Env, w: Maps, a: seq<Rec>, b: seq<Rec>)
    ensures ReplayAll(env, w, a + b) == ReplayAll(env, ReplayAll(env, w, a), b)
  {
    hide ReplayOne;
    if b == [] {
      assert a + b == a;
    } else {
      assert (a + b)[..|a + b| - 1] == a + b[..|b| - 1];
      ReplayTwice(env, w, a, b[..|b| - 1]);
    }
  }

  /** The entry that creates a page. */
  lemma Creates(env: Env, w: Maps, before: seq<Rec>, r: Rec, key: Key)
    requires !HasAmap(env, w, before, key) && MakesAmap(env, w, before + [r], |before|, key)
    ensures var w' := ReplayOne(env, ReplayAll(env, w, before), r);
      key in w'.amaps && w'.amaps[key] == Amap(0, map[]) && TableOf(key) in w'.tables
  {
    hide HasTable, HasAmap, ReplayAll, BlockDisk, TableKey, AmapKey, TableOf, MetaTarget, MetaType;
    assert (before + [r])[..|before|] == before;
    AmapsAfter(env, w, before, key);
    TablesAfter(env, w, before, TableKey(MetaTarget(r), r.lba));
    TableOfKey(MetaTarget(r), r.lba);
  }

  /** A page that was created and written while its log was kept, and of which nothing was stored: the log's own entry
      creates it again, and every batch logged with an id of at most 2^32 is recovered. */
  lemma RecoversCreated(env: Env, w: Maps, before: seq<Rec>, r: Rec, after: seq<Rec>, key: Key, h: History)
    requires Valid(h) && h.blocks == map[] && Changes(env, after, key) == Logged(h, 0, |h.batches|)
    requires !HasAmap(env, w, before, key) && MakesAmap(env, w, before + [r], |before|, key)
    ensures var w', n := ReplayAll(env, w, before + [r] + after), |h.batches|;
      && key in w'.amaps && w'.amaps[key] == Amap(0, AfterSmall(h, n))
      && ((forall v :: 0 <= v < n ==> LogId(h, v) <= WINDOW) ==> w'.amaps[key].blocks == After(h, n))
  {
    hide HasAmap, MakesAmap, ReplayOne, ReplayPage, Logged, Changes, After, AfterSmall, LogId;
    var made := ReplayOne(env, ReplayAll(env, w, before), r);
    assert ReplayAll(env, w, before + [r]) == made by { assert (before + [r])[..|before|] == before; }
    Creates(env, w, before, r, key);
    ReplayTwice(env, w, before + [r], after);
    PageAlone(env, made, after, key);
    ReplayCreated(h, |h.batches|);
    if forall v :: 0 <= v < |h.batches| ==> LogId(h, v) <= WINDOW { AllSmall(h, |h.batches|); }
  }

  /** Every batch, then, of a page born with id 1 that has used no more ids than the window, or that has none. */
  lemma RecoversNew(env: Env, w: Maps, before: seq<Rec>, r: Rec, after: seq<Rec>, key: Key, h: History)
    requires Valid(h) && (h.v2 ==> h.first == 1 && Sum(h.incrs) <= WINDOW)
    requires h.blocks == map[] && Changes(env, after, key) == Logged(h, 0, |h.batches|)
    requires !HasAmap(env, w, before, key) && MakesAmap(env, w, before + [r], |before|, key)
    ensures var w' := ReplayAll(env, w, before + [r] + after);
      key in w'.amaps && w'.amaps[key].blocks == After(h, |h.batches|)
  {
    hide HasAmap, MakesAmap, ReplayAll, Logged, Changes, After, AfterSmall, IdAt, Sum;
    forall v | 0 <= v < |h.batches| ensures LogId(h, v) <= WINDOW { if h.v2 { SmallId(h, v); } }
    RecoversCreated(env, w, before, r, after, key, h);
  }

  lemma SmallId(h: History, v: nat)
    requires Valid(h) && h.first == 1 && Sum(h.incrs) <= WINDOW && v < |h.batches|
    ensures IdAt(h, v) <= WINDOW
  {
    hide Sum, Advance;
    assert h.incrs == h.incrs[..v] + h.incrs[v..];
    SumSplit(h.incrs[..v], h.incrs[v..]);
    SumPositive(h.incrs[v..]);
    AdvanceCycles(1, h.incrs[..v]);
    CycleIs(1, Sum(h.incrs[..v]));
  }

  /** And across the wrap a change is lost: the page's last block for lba 0 was 8. */
  lemma WrapLoses()
    ensures var h := History(true, WRITE_ID_MAX - 1, map[], [1, 1], [[(0, 7)], [(0, 8)]]);
      Valid(h) && After(h, 2) == map[0 := 8] && ReplayPage(Version(h, 0), Logged(h, 0, 2)).blocks == map[0 := 7]
  {
    var h := History(true, WRITE_ID_MAX - 1, map[], [1, 1], [[(0, 7)], [(0, 8)]]);
    assert h.incrs[0..1] == [1] && h.incrs[0..2] == [1, 1];
    assert Sum([1]) == 1 && [1, 1][..1] == [1];
    ReplayLogged(h, map[], 0, 2, 2);
    assert Wrapped(h, 0, 1) && !Wrapped(h, 0, 0);
    PutOne(map[], [], (0, 7));
    PutOne(map[0 := 7], [], (0, 8));
    assert After(h, 1) == Put(After(h, 0), [] + [(0, 7)]) && After(h, 2) == Put(After(h, 1), [] + [(0, 8)]);
    FromAfter(h, 0, 1);
  }
}
