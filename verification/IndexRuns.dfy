/** All the indexes of a group under one bitmap, over every run of allocation, sharing, freeing, replay and loading. */
module IndexRuns {
  import opened Units
  import opened BlockIndex
  import BatchAlloc
  import FullMap
  import PackedBits

  /** What is done to an index of the group. */
  datatype Op =
    | Alloc(k: nat, count: nat, fast: bool)
    | Batch(k: nat, list: seq<BatchAlloc.Pgdata>, verify: bool)
    | Ref(k: nat, entry: nat, count: nat, node: nat)
    | Free(k: nat, entry: nat, count: nat)
    | SetNode(k: nat, entry: nat, node: nat)
    | Replay(k: nat, entry: nat, count: nat, meta: bool)
    | CheckLoad(k: nat)

  /** Units in use on several pages. */
  function Total(pages: seq<seq<nat>>): nat {
    if pages == [] then 0 else Total(pages[..|pages| - 1]) + Used(pages[|pages| - 1])
  }

  lemma {:induction false} TotalAfter(pages: seq<seq<nat>>, k: nat, u: seq<nat>)
    requires k < |pages|
    ensures Total(pages[k := u]) == Total(pages) - Used(pages[k]) + Used(u)
  {
    var n := |pages| - 1;
    if k < n {
      assert pages[k := u][..n] == pages[..n][k := u];
      TotalAfter(pages[..n], k, u);
    } else {
      assert pages[k := u][..n] == pages[..n];
    }
  }

  class IndexGroup {
    const group: FullMap.Group
    const device: Device
    const indexes: seq<Index>
    /** Indexes of which a free has released a unit and that have not been marked full since. */
    ghost var released: set<nat>

    /** Indexes have their own pages and number the bits of one bitmap. */
    ghost predicate Apart()
      reads group
    {
      && |indexes| <= |group.full|
      && (forall i :: 0 <= i < |indexes| ==>
            indexes[i].id == i && indexes[i].group == group && indexes[i].device == device && indexes[i].page.Valid())
      && (forall i, j :: 0 <= i < j < |indexes| ==>
            indexes[i] != indexes[j] && indexes[i].page.words != indexes[j].page.words)
    }

    ghost function Words(): set<array<PackedBits.Word>> { set i | 0 <= i < |indexes| :: indexes[i].page.words }

    /** Every index is consistent, the counters of the bitmap are exact, and a released index is not marked full. */
    ghost predicate Valid()
      reads this, group, indexes, Words()
    {
      && Apart() && group.Valid()
      && (forall i :: 0 <= i < |indexes| ==> indexes[i].Valid())
      && (forall k :: k in released ==> k < |indexes| && !group.full[k])
    }

    ghost function Pages(): (r: seq<seq<nat>>)
      requires Apart()
      reads group, Words()
      ensures |r| == |indexes|
    {
      seq(|indexes|, i requires 0 <= i < |indexes| && indexes[i].page.Valid() reads Words() => indexes[i].Units())
    }

    /** Space free on the disk and in use by the group. */
    ghost function Space(): int
      requires Apart()
      reads group, device, Words()
    {
      device.free + Total(Pages()) * device.unit
    }

    constructor (group: FullMap.Group, device: Device, indexes: seq<Index>)
      requires |indexes| <= |group.full| && group.Valid()
      requires forall i :: 0 <= i < |indexes| ==>
        indexes[i].id == i && indexes[i].group == group && indexes[i].device == device && indexes[i].Valid()
      requires forall i, j :: 0 <= i < j < |indexes| ==>
        indexes[i] != indexes[j] && indexes[i].page.words != indexes[j].page.words
      ensures Valid() && released == {} && this.group == group && this.device == device && this.indexes == indexes
    {
      this.group, this.device, this.indexes, released := group, device, indexes, {};
    }

    /** The source's callers name an index of the group and units of its page. */
    predicate InRange(op: Op)
    {
      op.k < |indexes| && Fits(indexes[op.k], op)
    }

    /** One operation on one index. */
    method Do(op: Op) returns (freed: bool)
      requires Valid() && InRange(op)
      modifies this`released, indexes[op.k], indexes[op.k].page.words, device, group
      ensures Valid() && Space() == old(Space()) && device.pool - device.free == old(device.pool - device.free)
      ensures if op.Free? then freed <==> old(Releases(indexes[op.k].Units(), op.entry, op.count)) else !freed
      ensures Did(op, device.unit, old(indexes[op.k].Units()), indexes[op.k].Units())
      ensures freed ==> op.k in released
      ensures forall k :: k in old(released) && k !in released ==> k == op.k && MayMark(op) && group.full[k]
      ensures Pages() == old(Pages())[op.k := indexes[op.k].Units()]
    {
      hide Used, Total, Releases, Clean, Did, PackedBits.Unpack, PackedBits.Rest, PackedBits.Pow2, FullMap.Clear, FullMap.Shape;
      freed := Act(op);
      assert old(Pages())[op.k] == old(indexes[op.k].Units());
      SpaceKept(old(Pages()), op.k, indexes[op.k].Units(), old(device.free), device.free, device.unit);
      ghost var pages := Pages();
      released := if freed then released + {op.k} else if group.full[op.k] then released - {op.k} else released;
      assert Pages() == pages;
    }

    /** Every run, of any operations on any indexes of the group: all of them stay consistent, the counters of the
        bitmap exact, and space is neither lost nor made. An index that a free has released is not marked full, unless an
        allocation or a load has found it without free units since. */
    method Run(ops: seq<Op>) returns (freed: seq<bool>, ghost trace: seq<seq<seq<nat>>>)
      requires Valid() && forall i :: 0 <= i < |ops| ==> InRange(ops[i])
      modifies this`released, indexes, Words(), device, group
      ensures Valid() && Space() == old(Space()) && device.pool - device.free == old(device.pool - device.free)
      ensures |freed| == |ops| && forall i :: 0 <= i < |ops| && freed[i] ==>
        ops[i].Free? && (Unmarked(ops, i) ==> ops[i].k < |group.full| && !group.full[ops[i].k])
      ensures |trace| == |ops| + 1 && trace[0] == old(Pages()) && trace[|ops|] == Pages()
      ensures forall i :: 0 <= i < |ops| ==> Next(ops[i], device.unit, trace[i], trace[i + 1])
    {
      hide Next, Used, Total, Releases, Clean, Told, PackedBits.Unpack, PackedBits.Rest, PackedBits.Pow2, FullMap.Clear, FullMap.Shape;
      freed, trace := [], [Pages()];
      NothingTold(ops, released);
      while |freed| < |ops|
        invariant |freed| <= |ops| && Valid()
        invariant Space() == old(Space()) && device.pool - device.free == old(device.pool - device.free)
        invariant Told(ops, freed, released)
        invariant |trace| == |freed| + 1 && trace[0] == old(Pages()) && trace[|freed|] == Pages()
        invariant forall i :: 0 <= i < |freed| ==> Next(ops[i], device.unit, trace[i], trace[i + 1])
      {
        ghost var was, before := released, Pages();
        assert before[ops[|freed|].k] == indexes[ops[|freed|].k].Units();
        var b := Do(ops[|freed|]);
        NextPages(ops[|freed|], device.unit, before, Pages());
        trace := trace + [Pages()];
        ToldNext(ops, freed, was, b, released);
        freed := freed + [b];
      }
      AllTold(ops, freed, released);
    }

    /** The other indexes of the group stay as they are, and consistent. */
    method Act(op: Op) returns (freed: bool)
      requires Valid() && InRange(op)
      modifies indexes[op.k], indexes[op.k].page.words, device, group
      ensures Apart() && group.Valid() && forall i :: 0 <= i < |indexes| ==> indexes[i].Valid()
      ensures Pages() == old(Pages())[op.k := indexes[op.k].Units()]
      ensures device.pool - device.free == old(device.pool - device.free)
      ensures device.free + Used(indexes[op.k].Units()) * device.unit
           == old(device.free + Used(indexes[op.k].Units()) * device.unit)
      ensures Did(op, device.unit, old(indexes[op.k].Units()), indexes[op.k].Units())
      ensures |group.full| == |old(group.full)|
      ensures forall i :: 0 <= i < |group.full| && i != op.k ==> group.full[i] == old(group.full)[i]
      ensures if op.Free? then freed <==> old(Releases(indexes[op.k].Units(), op.entry, op.count)) else !freed
      ensures freed || (!MayMark(op) && !old(group.full)[op.k]) ==> !group.full[op.k]
    {
      hide Used, Releases, Clean, Did, PackedBits.Unpack, PackedBits.Rest, PackedBits.Pow2, FullMap.Clear, FullMap.Shape;
      freed := DoOne(indexes[op.k], op);
    }
  }

  /** One operation changes one page, as it says. */
  ghost predicate Next(op: Op, unit: nat, pages: seq<seq<nat>>, pages': seq<seq<nat>>) {
    op.k < |pages| == |pages'| && pages' == pages[op.k := pages'[op.k]] && Did(op, unit, pages[op.k], pages'[op.k])
  }

  lemma NextPages(op: Op, unit: nat, pages: seq<seq<nat>>, pages': seq<seq<nat>>)
    requires op.k < |pages| == |pages'| && pages' == pages[op.k := pages'[op.k]] && Did(op, unit, pages[op.k], pages'[op.k])
    ensures Next(op, unit, pages, pages')
  {
  }

  /** After the operations done so far: an index released by one of them, and not marked since, is known as released. */
  ghost predicate Told(ops: seq<Op>, freed: seq<bool>, released: set<nat>) {
    |freed| <= |ops| && forall i :: 0 <= i < |freed| && freed[i] ==>
      ops[i].Free? && (Unmarked(ops[..|freed|], i) ==> ops[i].k in released)
  }

  lemma NothingTold(ops: seq<Op>, released: set<nat>)
    ensures Told(ops, [], released)
  {
  }

  lemma ToldNext(ops: seq<Op>, freed: seq<bool>, released: set<nat>, b: bool, released': set<nat>)
    requires Told(ops, freed, released) && |freed| < |ops|
    requires var op := ops[|freed|];
      && (b ==> op.Free? && op.k in released')
      && forall k :: k in released && k !in released' ==> k == op.k && MayMark(op)
    ensures Told(ops, freed + [b], released')
  {
    var n := |freed|;
    forall i | 0 <= i < n && freed[i] && Unmarked(ops[..n + 1], i) ensures ops[i].k in released' {
      assert ops[..n + 1][n] == ops[n];
      assert forall j :: 0 <= j < n ==> ops[..n][j] == ops[..n + 1][j];
      assert Unmarked(ops[..n], i);
    }
  }

  lemma AllTold(ops: seq<Op>, freed: seq<bool>, released: set<nat>)
    requires Told(ops, freed, released) && |freed| == |ops|
    ensures forall i :: 0 <= i < |ops| && freed[i] ==> ops[i].Free? && (Unmarked(ops, i) ==> ops[i].k in released)
  {
    assert ops[..|freed|] == ops;
  }

  /** No operation after the `i`th can have marked its index. */
  predicate Unmarked(ops: seq<Op>, i: nat)
    requires i < |ops|
  {
    forall j :: i < j < |ops| && ops[j].k == ops[i].k ==> !MayMark(ops[j])
  }

  lemma SpaceKept(pages: seq<seq<nat>>, k: nat, u: seq<nat>, free: int, free': int, unit: int)
    requires k < |pages| && free + Used(pages[k]) * unit == free' + Used(u) * unit
    ensures free + Total(pages) * unit == free' + Total(pages[k := u]) * unit
  {
    hide Used, Total;
    TotalAfter(pages, k, u);
    Balance(Total(pages) - Used(pages[k]), Used(pages[k]), Used(u), free, free', unit);
  }

  lemma Balance(others: int, a: int, b: int, free: int, free': int, unit: int)
    requires free + a * unit == free' + b * unit
    ensures free + (others + a) * unit == free' + (others + b) * unit
  {
    Distribute(others, a, unit);
    Distribute(others, b, unit);
  }

  /** Operations that can find an index without free units and mark it. */
  predicate MayMark(op: Op) { op.Alloc? || op.Batch? || op.CheckLoad? }

  predicate Fits(x: Index, op: Op) {
    match op
    case Ref(_, entry, count, _) => entry + count <= x.page.count
    case Free(_, entry, count) => entry + count <= x.page.count
    case SetNode(_, entry, node) => entry < x.page.count && node * REFS + MAX_REFS < PackedBits.Pow2(x.page.bbits)
    case Replay(_, entry, count, _) => entry + count <= x.page.count
    case Batch(_, _, _) => x.device.unit in {1024, 4096}
    case _ => true
  }

  /** A free of this extent goes through, and gives up the last reference. */
  predicate Releases(u: seq<nat>, entry: nat, count: nat)
    requires entry + count <= |u|
  {
    count > 0 && Agreed(u, entry, count) == count && Refs(u[entry]) == 1
  }

  /** What each operation does to the units of its page. */
  ghost predicate Did(op: Op, unit: nat, u: seq<nat>, v: seq<nat>) {
    match op
    case Alloc(_, count, _) => v == u || exists s :: Took(u, s, count, v)
    case Batch(_, list, verify) => exists grants :: Gave(list, verify, unit, u, grants, v)
    case Ref(_, entry, count, node) =>
      entry + count <= |u| && v == if RefOutcome(u, entry, count, node).None? then BumpUnits(u, entry, count) else u
    case Free(_, entry, count) => entry + count <= |u| && v == DropUnits(u, entry, Agreed(u, entry, count))
    case SetNode(_, entry, node) =>
      entry < |u| && v == if u[entry] != 0 && Node(u[entry]) == 0 then u[entry := node * REFS + Refs(u[entry])] else u
    case Replay(_, entry, count, meta) => v == ReplayUnits(u, entry, count, meta)
    case CheckLoad(_) => v == u
  }

  predicate Took(u: seq<nat>, s: nat, count: nat, v: seq<nat>) {
    0 < count && s + count <= |u| && FreeRun(u, s, count) && v == MarkUnits(u, s, count)
  }

  ghost predicate Gave(list: seq<BatchAlloc.Pgdata>, verify: bool, unit: nat, u: seq<nat>, grants: seq<BatchAlloc.Grant>, v: seq<nat>) {
    BatchAlloc.Granted(u, grants, v) && BatchAlloc.AllGiven(list, unit, grants) && (!verify ==> BatchAlloc.Thrifty(u, grants))
  }

  /** The code of each operation. Only the bit of this index may change, and a release leaves it clear. */
  method DoOne(x: Index, op: Op) returns (freed: bool)
    requires x.Valid() && Fits(x, op)
    modifies x, x.page.words, x.device, x.group
    ensures x.Valid() && x.Space() == old(x.Space()) && x.device.pool - x.device.free == old(x.device.pool - x.device.free)
    ensures Did(op, x.device.unit, old(x.Units()), x.Units())
    ensures |x.group.full| == |old(x.group.full)|
    ensures forall i :: 0 <= i < |x.group.full| && i != x.id ==> x.group.full[i] == old(x.group.full)[i]
    ensures if op.Free? then freed <==> old(Releases(x.Units(), op.entry, op.count)) else !freed
    ensures freed || (!MayMark(op) && !old(x.group.full)[x.id]) ==> !x.group.full[x.id]
  {
    hide Used, FreeRun, Agreed, MarkUnits, BumpUnits, DropUnits, ReplayUnits, RefOutcome,
      PackedBits.Unpack, PackedBits.Rest, PackedBits.Pow2, FullMap.Clear, FullMap.Shape;
    freed := false;
    match op {
      case Alloc(k, count, fast) => {
        ghost var u := x.Units();
        var found, start, markFull := x.AllocAndMark(count, fast);
        assert found ==> Took(u, start, count, x.Units());
      }
      case Batch(k, list, verify) => {
        ghost var u := x.Units();
        var grants, rest := AllocBatch(x, list, verify);
        assert Gave(list, verify, x.device.unit, u, grants, x.Units());
      }
      case Ref(k, entry, count, node) => { var error := x.RefBlock(entry, count, node); }
      case Free(k, entry, count) => { freed := x.FreeBlock(entry, count); }
      case SetNode(k, entry, node) => { var ok := x.SetNodeBlock(entry, node); }
      case Replay(k, entry, count, meta) => { x.LogReplay(entry, count, meta); }
      case CheckLoad(k) => { x.CheckLoad(); }
    }
  }

  /** One index of __bint_alloc_for_pgdata: an index that could not serve the whole list is marked full and has to be
      loaded again. */
  method AllocBatch(x: Index, list: seq<BatchAlloc.Pgdata>, verify: bool)
      returns (grants: seq<BatchAlloc.Grant>, rest: seq<BatchAlloc.Pgdata>)
    requires x.Valid() && x.device.unit in {1024, 4096}
    modifies x, x.page.words, x.device, x.group
    ensures x.Valid() && x.Space() == old(x.Space()) && x.device.pool - x.device.free == old(x.device.pool - x.device.free)
    ensures BatchAlloc.Granted(old(x.Units()), grants, x.Units())
    ensures BatchAlloc.Tags(list) == BatchAlloc.Tags(rest) + BatchAlloc.Tags(BatchAlloc.Pages(grants))
    ensures BatchAlloc.AllGiven(list, x.device.unit, grants) && (!verify ==> BatchAlloc.Thrifty(old(x.Units()), grants))
    ensures if rest == [] then x.group.full == old(x.group.full) && x.loadDone == old(x.loadDone)
            else x.group.full == old(x.group.full)[x.id := true] && !x.loadDone
  {
    hide Used, BatchAlloc.Granted, BatchAlloc.Tags, BatchAlloc.AllGiven, BatchAlloc.Thrifty, PackedBits.Unpack, PackedBits.Rest, FullMap.Clear, FullMap.Shape;
    var markFull;
    grants, rest, markFull := BatchAlloc.AllocForPgdata(x, list, verify);
    if markFull { x.MarkFull(); }
    if rest != [] { x.loadDone := false; }
  }
}
