/** Allocation for a list of pages, in which pages with equal digests share one extent
    (bint_alloc_for_pgdata, bint_pgdata_scan_duplicates, index_ref_blocks). */
module BatchAlloc {
  import opened PackedBits
  import opened Units
  import opened BlockIndex
  import FullMap

  const LBA_SIZE := 4096

  /** A page to be written; `dedupe` is false when DDBLOCK_DEDUPE_DISABLED is set, and the digest zero
      is not valid. */
  datatype Pgdata = Pgdata(tag: nat, writeSize: nat, hash: nat, dedupe: bool)

  /** A page and the extent it was given, its own or that of a duplicate before it. */
  datatype Grant = Grant(page: Pgdata, start: nat, count: nat, duplicate: bool)

  /** Which pages are in a list, or have been granted an extent. */
  function TagSeq(list: seq<Pgdata>): seq<nat> { seq(|list|, i requires 0 <= i < |list| => list[i].tag) }
  function Pages(grants: seq<Grant>): seq<Pgdata> { seq(|grants|, i requires 0 <= i < |grants| => grants[i].page) }
  function Tags(list: seq<Pgdata>): multiset<nat> { multiset(TagSeq(list)) }

  /** The effect of granted extents on the units. */
  function Apply(u: seq<nat>, grants: seq<Grant>): (r: seq<nat>)
    ensures |r| == |u|
  {
    if grants == [] then u
    else
      var g, before := grants[|grants| - 1], Apply(u, grants[..|grants| - 1]);
      if g.duplicate then BumpUnits(before, g.start, g.count) else MarkUnits(before, g.start, g.count)
  }

  /** Grant `n` is sound: a fresh extent was free just before, a duplicate shares an earlier fresh extent
      given to a page with the same digest, and its count was below the maximum. */
  ghost predicate Sound(u: seq<nat>, grants: seq<Grant>, n: nat)
    requires n < |grants|
  {
    var g := grants[n];
    var before := Apply(u, grants[..n]);
    && 0 < g.count && g.start + g.count <= |u|
    && (!g.duplicate ==> FreeRun(before, g.start, g.count))
    && (g.duplicate ==> Flat(before, g.start, g.count, MAX_REFS) && exists k :: 0 <= k < n && Shares(grants[k], g))
  }

  predicate Shares(first: Grant, g: Grant)
  {
    !first.duplicate && first.start == g.start && first.count == g.count && first.page.hash == g.page.hash != 0
    && first.page.dedupe && g.page.dedupe
  }

  /** All units of the extent hold the same value, a plain count between one and `below`. */
  predicate Flat(u: seq<nat>, s: nat, count: nat, below: nat)
    requires s + count <= |u|
  {
    count > 0 && 0 < u[s] < below && forall k :: s <= k < s + count ==> u[k] == u[s]
  }

  /** `now` is what sound grants have made of `u`. */
  ghost predicate Granted(u: seq<nat>, grants: seq<Grant>, now: seq<nat>)
  {
    now == Apply(u, grants) && forall n :: 0 <= n < |grants| ==> Sound(u, grants, n)
  }

  lemma GrantedMore(u: seq<nat>, grants: seq<Grant>, now: seq<nat>, g: Grant)
    requires Granted(u, grants, now) && 0 < g.count && g.start + g.count <= |u|
    requires !g.duplicate ==> FreeRun(now, g.start, g.count)
    requires g.duplicate ==> Flat(now, g.start, g.count, MAX_REFS) && exists k :: 0 <= k < |grants| && Shares(grants[k], g)
    ensures Granted(u, grants + [g], if g.duplicate then BumpUnits(now, g.start, g.count) else MarkUnits(now, g.start, g.count))
    ensures Tags(Pages(grants + [g])) == Tags(Pages(grants)) + multiset{g.page.tag}
  {
    hide FreeRun, Flat;
    var more := grants + [g];
    assert more[..|grants|] == grants;
    forall n | 0 <= n < |more| ensures Sound(u, more, n) {
      if n < |grants| {
        assert Sound(u, grants, n) && more[..n] == grants[..n] && more[n] == grants[n];
        if g.duplicate { assert forall k :: 0 <= k < n ==> more[k] == grants[k]; }
      } else if g.duplicate {
        var k :| 0 <= k < |grants| && Shares(grants[k], g);
        assert more[k] == grants[k];
      }
    }
    assert Pages(more) == Pages(grants) + [g.page];
    TagsMore(Pages(grants), g.page);
  }

  // ---------- Which page got which extent ----------

  /** The grant is for this page. A fresh extent has the page's size, in whole units; a page that compression brought below
      a unit is written uncompressed. A duplicate writes nothing. */
  predicate GivenTo(p: Pgdata, unit: nat, g: Grant)
  {
    && g.page.tag == p.tag && g.page.hash == p.hash && g.page.dedupe == p.dedupe
    && var size := if p.writeSize >= unit then p.writeSize else 4096;
       if g.duplicate then g.page.writeSize == 0
       else g.page.writeSize == size && g.count * unit <= size < g.count * unit + unit
  }

  ghost predicate Given(list: seq<Pgdata>, unit: nat, g: Grant) { exists p :: p in list && GivenTo(p, unit, g) }

  ghost predicate AllGiven(list: seq<Pgdata>, unit: nat, grants: seq<Grant>)
  {
    forall i :: 0 <= i < |grants| ==> Given(list, unit, grants[i])
  }

  ghost predicate PartOf(part: seq<Pgdata>, list: seq<Pgdata>) { forall p :: p in part ==> p in list }

  lemma GivenMore(list: seq<Pgdata>, unit: nat, grants: seq<Grant>, p: Pgdata, g: Grant)
    requires AllGiven(list, unit, grants) && p in list && GivenTo(p, unit, g)
    ensures AllGiven(list, unit, grants + [g])
  {
    hide GivenTo;
    assert Given(list, unit, g);
  }

  // ---------- Equal pages share ----------

  /** Pages that may share an extent. */
  predicate Alike(a: Pgdata, b: Pgdata) { a.dedupe && b.dedupe && a.hash == b.hash != 0 }

  /** Every extent that the page could share is at the maximum. */
  ghost predicate NoneLeft(now: seq<nat>, grants: seq<Grant>, p: Pgdata)
  {
    forall k :: 0 <= k < |grants| && !grants[k].duplicate && Alike(grants[k].page, p) ==>
      grants[k].start < |now| && now[grants[k].start] == MAX_REFS
  }

  ghost predicate NoneLeftFor(now: seq<nat>, grants: seq<Grant>, list: seq<Pgdata>)
  {
    forall p :: p in list ==> NoneLeft(now, grants, p)
  }

  /** A page was given an extent of its own only when there was none left to share. */
  ghost predicate Thrifty(u: seq<nat>, grants: seq<Grant>)
  {
    forall n :: 0 <= n < |grants| && !grants[n].duplicate ==> NoneLeft(Apply(u, grants[..n]), grants[..n], grants[n].page)
  }

  lemma ThriftyMore(u: seq<nat>, grants: seq<Grant>, g: Grant)
    requires Thrifty(u, grants) && (!g.duplicate ==> NoneLeft(Apply(u, grants), grants, g.page))
    ensures Thrifty(u, grants + [g])
  {
    hide Apply, NoneLeft;
    var more := grants + [g];
    forall n | 0 <= n < |more| && !more[n].duplicate ensures NoneLeft(Apply(u, more[..n]), more[..n], more[n].page) {
      assert more[..n] == grants[..n];
      if n == |grants| { assert grants[..n] == grants; }
    }
  }

  /** The same, leaving aside extent m, which is being shared out. */
  ghost predicate NoneLeftBut(now: seq<nat>, grants: seq<Grant>, p: Pgdata, m: nat)
  {
    forall k :: 0 <= k < |grants| && k != m && !grants[k].duplicate && Alike(grants[k].page, p) ==>
      grants[k].start < |now| && now[grants[k].start] == MAX_REFS
  }

  ghost predicate NoneLeftButFor(now: seq<nat>, grants: seq<Grant>, list: seq<Pgdata>, m: nat)
  {
    forall p :: p in list ==> NoneLeftBut(now, grants, p, m)
  }

  /** Taking free units touches no extent that is at the maximum. */
  lemma FreshKeeps(now: seq<nat>, grants: seq<Grant>, list: seq<Pgdata>, g: Grant)
    requires NoneLeftFor(now, grants, list) && list != []
    requires !g.duplicate && g.start + g.count <= |now| && FreeRun(now, g.start, g.count)
    ensures NoneLeftButFor(MarkUnits(now, g.start, g.count), grants + [g], list[1..], |grants|)
  {
    var more := grants + [g];
    forall p | p in list[1..] ensures NoneLeftBut(MarkUnits(now, g.start, g.count), more, p, |grants|) {
      assert p in list && NoneLeft(now, grants, p);
      assert forall k :: 0 <= k < |grants| ==> more[k] == grants[k];
    }
  }

  /** Nor does sharing an extent that is not. */
  lemma ShareKeepsOne(now: seq<nat>, grants: seq<Grant>, p: Pgdata, m: nat, g: Grant)
    requires NoneLeftBut(now, grants, p, m) && g.duplicate && g.start + g.count <= |now|
    requires Flat(now, g.start, g.count, MAX_REFS)
    ensures NoneLeftBut(BumpUnits(now, g.start, g.count), grants + [g], p, m)
  {
    var more := grants + [g];
    assert forall k :: 0 <= k < |grants| ==> more[k] == grants[k];
  }

  lemma ShareKeeps(now: seq<nat>, grants: seq<Grant>, list: seq<Pgdata>, m: nat, g: Grant)
    requires NoneLeftButFor(now, grants, list, m) && g.duplicate && g.start + g.count <= |now|
    requires Flat(now, g.start, g.count, MAX_REFS)
    ensures NoneLeftButFor(BumpUnits(now, g.start, g.count), grants + [g], list, m)
  {
    hide Flat, NoneLeftBut, BumpUnits;
    forall p | p in list ensures NoneLeftBut(BumpUnits(now, g.start, g.count), grants + [g], p, m) {
      ShareKeepsOne(now, grants, p, m, g);
    }
  }

  /** A page for which extent m is no choice, or is at the maximum too. */
  lemma LeavesNone(now: seq<nat>, grants: seq<Grant>, p: Pgdata, m: nat)
    requires NoneLeftBut(now, grants, p, m) && m < |grants| && grants[m].start < |now|
    requires Alike(grants[m].page, p) ==> now[grants[m].start] == MAX_REFS
    ensures NoneLeft(now, grants, p)
  {
  }

  lemma LeavesNoneAll(now: seq<nat>, grants: seq<Grant>, list: seq<Pgdata>, m: nat)
    requires NoneLeftButFor(now, grants, list, m) && m < |grants| && grants[m].start < |now|
    requires !grants[m].page.dedupe || grants[m].page.hash == 0
    ensures NoneLeftFor(now, grants, list)
  {
    hide NoneLeft, NoneLeftBut;
    forall p | p in list ensures NoneLeft(now, grants, p) { LeavesNone(now, grants, p, m); }
  }

  lemma RestKeeps(now: seq<nat>, grants: seq<Grant>, rest: seq<Pgdata>, g: Grant)
    requires NoneLeftFor(now, grants, rest) && g.duplicate && g.start + g.count <= |now|
    requires Flat(now, g.start, g.count, MAX_REFS)
    ensures NoneLeftFor(BumpUnits(now, g.start, g.count), grants + [g], rest)
  {
    forall p | p in rest ensures NoneLeft(BumpUnits(now, g.start, g.count), grants + [g], p) {
      assert NoneLeft(now, grants, p);
      assert forall k :: 0 <= k < |grants| ==> (grants + [g])[k] == grants[k];
    }
  }

  lemma TagsMore(list: seq<Pgdata>, p: Pgdata)
    ensures Tags(list + [p]) == Tags(list) + multiset{p.tag}
  {
    assert TagSeq(list + [p]) == TagSeq(list) + [p.tag];
  }

  lemma OneMore(a: multiset<nat>, b: multiset<nat>, c: multiset<nat>, d: multiset<nat>, x: nat)
    requires a + b == c + d
    ensures a + multiset{x} + b == c + multiset{x} + d == c + (d + multiset{x})
  {
    assert a + multiset{x} + b == (a + b) + multiset{x};
  }

  lemma TagsFirst(list: seq<Pgdata>)
    requires list != []
    ensures Tags(list) == multiset{list[0].tag} + Tags(list[1..])
  {
    assert TagSeq(list) == [list[0].tag] + TagSeq(list[1..]);
  }

  /** index_ref_blocks on an extent whose units are alike: all of them, or none at the maximum. */
  method RefBlocks(index: Index, start: nat, count: nat) returns (ok: bool)
    requires index.Valid() && start + count <= index.page.count && Flat(index.Units(), start, count, REFS)
    modifies index.page.words
    ensures ok <==> old(index.Units()[start]) < MAX_REFS
    ensures index.Units() == if ok then BumpUnits(old(index.Units()), start, count) else old(index.Units())
    ensures index.Valid() && Used(index.Units()) == old(Used(index.Units())) && index.page.Beyond() == old(index.page.Beyond())
  {
    hide Used, Unpack, Rest, Pow2, FullMap.Clear, FullMap.Shape;
    ghost var was := index.Units();
    SmallValues(index.page.bbits);
    var i := start;
    assert index.Units() == BumpUnits(was, start, 0);
    while i < start + count
      invariant start <= i <= start + count && (i > start ==> was[start] < MAX_REFS)
      invariant index.Units() == BumpUnits(was, start, i - start) && Used(index.Units()) == Used(was)
      invariant index.page.Beyond() == old(index.page.Beyond())
    {
      var refs := index.page.Get(i);
      if refs == MAX_REFS { return false; }
      UsedAfter(index.Units(), i, refs + 1);
      index.page.Set(i, refs + 1);
      assert index.Units() == BumpUnits(was, start, i + 1 - start);
      i := i + 1;
    }
    BumpClean(was, start, count);
    return true;
  }

  /** Pages of the list with the digest of `pg`, given a share of its extent. */
  method ScanDuplicates(index: Index, pg: Pgdata, list: seq<Pgdata>, start: nat, count: nat, verify: bool,
                        ghost u: seq<nat>, ghost list0: seq<Pgdata>, grants0: seq<Grant>)
      returns (grants: seq<Grant>, rest: seq<Pgdata>)
    requires index.Valid() && start + count <= index.page.count == |u| && Granted(u, grants0, index.Units())
    requires Flat(index.Units(), start, count, REFS)
    requires grants0 != [] && grants0[|grants0| - 1] == Grant(pg, start, count, false)
    requires !verify ==> Thrifty(u, grants0) && NoneLeftButFor(index.Units(), grants0, list, |grants0| - 1)
    requires PartOf(list, list0) && AllGiven(list0, index.device.unit, grants0)
    modifies index.page.words
    ensures index.Valid() && Used(index.Units()) == old(Used(index.Units())) && index.page.Beyond() == old(index.page.Beyond())
    ensures Granted(u, grants, index.Units()) && grants0 <= grants
    ensures Tags(list) + Tags(Pages(grants0)) == Tags(rest) + Tags(Pages(grants)) && |rest| <= |list|
    ensures !pg.dedupe || verify || pg.hash == 0 ==> rest == list && grants == grants0
    ensures !verify ==> Thrifty(u, grants) && NoneLeftFor(index.Units(), grants, rest)
    ensures PartOf(rest, list0) && AllGiven(list0, index.device.unit, grants)
  {
    hide Used, Unpack, Rest, Granted, Tags, FullMap.Clear, FullMap.Shape, GivenTo, AllGiven, BumpUnits,
      Thrifty, NoneLeftButFor, NoneLeftFor, NoneLeft, NoneLeftBut, Flat;
    ghost var m := |grants0| - 1;
    FlatCount(index.Units(), start, count);
    grants, rest := grants0, list;
    if !pg.dedupe || verify || pg.hash == 0 {
      if !verify { LeavesNoneAll(index.Units(), grants, list, m); }
      return;
    }
    rest := [];
    NothingLeft(index.Units(), grants);
    var j := 0;
    assert list[..0] == [];
    while j < |list|
      invariant 0 <= j <= |list| && |rest| <= j
      invariant index.Valid() && Used(index.Units()) == old(Used(index.Units()))
      invariant index.page.Beyond() == old(index.page.Beyond())
      invariant Flat(index.Units(), start, count, REFS)
      invariant Granted(u, grants, index.Units()) && grants0 <= grants
      invariant Tags(list[..j]) + Tags(Pages(grants0)) == Tags(rest) + Tags(Pages(grants))
      invariant Thrifty(u, grants) && NoneLeftFor(index.Units(), grants, rest)
      invariant NoneLeftButFor(index.Units(), grants, list, m)
      invariant PartOf(rest, list0) && AllGiven(list0, index.device.unit, grants)
    {
      var iter := list[j];
      assert list[..j + 1] == list[..j] + [iter];
      TagsMore(list[..j], iter);
      OneMore(Tags(list[..j]), Tags(Pages(grants0)), Tags(rest), Tags(Pages(grants)), iter.tag);
      ghost var now := index.Units();
      FlatCount(now, start, count);
      var shared := false;
      if iter.dedupe && iter.hash == pg.hash { shared := RefBlocks(index, start, count); }
      if shared {
        var g := Grant(iter.(writeSize := 0), start, count, true);
        assert Shares(grants[|grants0| - 1], g);
        FlatBelow(now, start, count);
        GrantedMore(u, grants, now, g);
        ThriftyMore(u, grants, g);
        ShareKeeps(now, grants, list, m, g);
        RestKeeps(now, grants, rest, g);
        SharedGiven(list0, index.device.unit, grants, iter, g);
        FlatBump(now, start, count);
        grants := grants + [g];
      } else {
        TagsMore(rest, iter);
        StaysLeft(now, grants, list, j, m, rest);
        rest := rest + [iter];
      }
      j := j + 1;
    }
    assert list[..|list|] == list;
  }

  lemma NothingLeft(now: seq<nat>, grants: seq<Grant>)
    ensures NoneLeftFor(now, grants, [])
  {
  }

  lemma FlatCount(u: seq<nat>, s: nat, count: nat)
    requires s + count <= |u| && Flat(u, s, count, REFS)
    ensures 0 < count && 0 < u[s] <= MAX_REFS
  {
  }

  lemma FlatBelow(u: seq<nat>, s: nat, count: nat)
    requires s + count <= |u| && Flat(u, s, count, REFS) && u[s] < MAX_REFS
    ensures Flat(u, s, count, MAX_REFS)
  {
  }

  lemma FlatBump(u: seq<nat>, s: nat, count: nat)
    requires s + count <= |u| && Flat(u, s, count, MAX_REFS)
    ensures Flat(BumpUnits(u, s, count), s, count, REFS)
  {
  }

  lemma SharedGiven(list0: seq<Pgdata>, unit: nat, grants: seq<Grant>, iter: Pgdata, g: Grant)
    requires AllGiven(list0, unit, grants) && iter in list0 && g.duplicate && g.page == iter.(writeSize := 0)
    ensures AllGiven(list0, unit, grants + [g])
  {
    hide AllGiven;
    GivenMore(list0, unit, grants, iter, g);
  }

  /** A page that does not share stays, and has no extent to share. */
  lemma StaysLeft(now: seq<nat>, grants: seq<Grant>, list: seq<Pgdata>, j: nat, m: nat, rest: seq<Pgdata>)
    requires NoneLeftButFor(now, grants, list, m) && NoneLeftFor(now, grants, rest) && j < |list|
    requires m < |grants| && grants[m].start < |now|
    requires Alike(grants[m].page, list[j]) ==> now[grants[m].start] == MAX_REFS
    ensures NoneLeftFor(now, grants, rest + [list[j]])
  {
    hide NoneLeft, NoneLeftBut;
    assert list[j] in list;
    LeavesNone(now, grants, list[j], m);
  }

  /** bint_alloc_for_pgdata: extents for as many pages of the list as the index holds from `checkIdx` on.
      Every page is granted exactly one extent or stays in the list, and every grant is sound. A fresh extent is as long as
      its page, and a page gets one only if there is none left to share. Pages stay only when the scan has reached the end. */
  method AllocForPgdata(index: Index, list0: seq<Pgdata>, verify: bool)
      returns (grants: seq<Grant>, list: seq<Pgdata>, markFull: bool)
    requires index.Valid() && index.device.unit in {1024, 4096}
    modifies index`freeBlocks, index`checkIdx, index.page.words, index.device
    ensures index.Valid() && index.Space() == old(index.Space()) && index.page.Beyond() == old(index.page.Beyond())
    ensures index.device.pool - index.device.free == old(index.device.pool - index.device.free)
    ensures Granted(old(index.Units()), grants, index.Units())
    ensures Tags(list0) == Tags(list) + Tags(Pages(grants))
    ensures AllGiven(list0, index.device.unit, grants) && (!verify ==> Thrifty(old(index.Units()), grants))
    ensures (markFull <==> list != []) && (markFull ==> index.checkIdx == index.page.count)
  {
    hide Used, Unpack, Rest, Granted, Tags, FullMap.Clear, FullMap.Shape, FreeRun, MarkUnits, GivenTo, AllGiven,
      Thrifty, NoneLeftButFor, NoneLeftFor, NoneLeft, NoneLeftBut, Flat;
    ghost var u := index.Units();
    grants, list := [], list0;
    NoGrants(u, list0, index.device.unit);
    while list != []
      invariant index.Valid() && index.Space() == old(index.Space()) && index.page.Beyond() == old(index.page.Beyond())
      invariant index.device.pool - index.device.free == old(index.device.pool - index.device.free)
      invariant Granted(u, grants, index.Units())
      invariant Tags(list0) == Tags(list) + Tags(Pages(grants))
      invariant PartOf(list, list0) && AllGiven(list0, index.device.unit, grants)
      invariant !verify ==> Thrifty(u, grants) && NoneLeftFor(index.Units(), grants, list)
      decreases |list|
    {
      var pg := list[0];
      if pg.writeSize < index.device.unit { pg := pg.(writeSize := LBA_SIZE); }
      var count := pg.writeSize / index.device.unit;
      ghost var now := index.Units();
      var found, start, full := index.AllocBlock(count);
      if !found { break; }
      ghost var g := Grant(pg, start, count, false);
      GrantedMore(u, grants, now, g);
      MarkFlat(now, start, count);
      TagsFirst(list);
      FreshGiven(list0, index.device.unit, grants, list[0], g);
      if !verify {
        FreshThrifty(u, grants, now, list, g);
        FreshKeeps(now, grants, list, g);
      }
      grants := grants + [Grant(pg, start, count, false)];
      grants, list := ScanDuplicates(index, pg, list[1..], start, count, verify, u, list0, grants);
      if full { break; }
    }
    markFull := list != [];
  }

  lemma NoGrants(u: seq<nat>, list: seq<Pgdata>, unit: nat)
    ensures Granted(u, [], u) && Tags(Pages([])) == multiset{}
    ensures AllGiven(list, unit, []) && Thrifty(u, []) && NoneLeftFor(u, [], list)
  {
  }

  lemma FreshGiven(list0: seq<Pgdata>, unit: nat, grants: seq<Grant>, p: Pgdata, g: Grant)
    requires AllGiven(list0, unit, grants) && p in list0 && !g.duplicate && unit in {1024, 4096}
    requires g.page == (if p.writeSize < unit then p.(writeSize := LBA_SIZE) else p) && g.count == g.page.writeSize / unit
    ensures AllGiven(list0, unit, grants + [g])
  {
    hide AllGiven;
    GivenMore(list0, unit, grants, p, g);
  }

  lemma FreshThrifty(u: seq<nat>, grants: seq<Grant>, now: seq<nat>, list: seq<Pgdata>, g: Grant)
    requires Thrifty(u, grants) && Granted(u, grants, now) && NoneLeftFor(now, grants, list) && list != []
    requires g.page.dedupe == list[0].dedupe && g.page.hash == list[0].hash
    ensures Thrifty(u, grants + [g])
  {
    hide Thrifty, Sound, Apply;
    assert NoneLeft(now, grants, list[0]);
    ThriftyMore(u, grants, g);
  }

  lemma MarkFlat(u: seq<nat>, s: nat, count: nat)
    requires 0 < count && s + count <= |u|
    ensures Flat(MarkUnits(u, s, count), s, count, REFS)
  {
  }
}
