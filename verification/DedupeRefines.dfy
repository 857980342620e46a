/** The locked sections on a real index page and a real lookup node, as steps of the deduplication machine.

    Each method runs one section with a ghost state of the machine alongside: if page and node were as that state
    says, they are as the state after the step says, and the state is still a good one. */
module DedupeRefines {
  import opened Units
  import opened Dedupe
  import opened BlockIndex
  import opened LookupNode
  import BatchAlloc
  import BatchRefines
  import PackedBits
  import FullMap

  ghost predicate PageIs(s: State, page: PageId, index: Index)
    requires index.page.Valid()
    reads index.page.words
  {
    page in s.pages && s.pages[page] == index.Units()
  }

  ghost predicate NodeIs(s: State, node: LookupNode.Node)
    reads node
  {
    node.bStart in s.nodes && s.nodes[node.bStart] == node.entries
  }

  /** A lookup that finds its digest in a node takes a reference only on a live block that stores that digest. */
  method LookUp(node: LookupNode.Node, index: Index, i: nat, time: nat, ghost s: State) returns (found: bool, ghost t: State)
    requires Inv(s) && node.Valid() && index.Valid() && NodeIs(s, node)
    requires i < |node.entries| && node.entries[i].Entry? && PageIs(s, node.entries[i].block.page, index)
    modifies node, index.page.words
    ensures node.Valid() && index.Valid() && Enabled(s, Lookup(node.bStart, i, time))
    ensures Inv(t) && t == Step(s, Lookup(node.bStart, i, time))
    ensures NodeIs(t, node) && PageIs(t, old(node.entries[i].block.page), index)
    ensures var e := old(node.entries[i]);
      found ==> e.block in s.live && s.live[e.block].hash == e.hash && t.live == Hold(s.live, e.block)
  {
    hide Inv, BumpUnits, RefOutcome, PackedBits.Unpack, PackedBits.Rest, FullMap.Clear, FullMap.Shape;
    EntryInPages(s, node.bStart, i);
    t := Step(s, Lookup(node.bStart, i, time));
    found := node.BlockInfoGet(index, i, time);
    StepKeeps(s, Lookup(node.bStart, i, time));
    if found { LookupSound(s, node.bStart, i); }
  }

  lemma EntryInPages(s: State, n: nat, i: nat)
    requires Inv(s) && n in s.nodes && i < |s.nodes[n]| && s.nodes[n][i].Entry?
    ensures InPages(s, s.nodes[n][i].block)
  {
  }

  /** An extent from the scan for free units is no one else's. */
  method Allocate(index: Index, count: nat, page: PageId, hash: nat, ghost s: State)
      returns (found: bool, start: nat, ghost t: State)
    requires Inv(s) && index.Valid() && PageIs(s, page, index)
    modifies index`freeBlocks, index`checkIdx, index.page.words, index.device
    ensures index.Valid() && Inv(t) && PageIs(t, page, index)
    ensures var b := Block(page, start, count);
      found ==> Enabled(s, Alloc(b, hash)) && t == Step(s, Alloc(b, hash)) && forall c :: c in s.live ==> !Overlaps(b, c)
    ensures !found ==> t == s
  {
    hide Inv, MarkUnits, PackedBits.Unpack, PackedBits.Rest, FullMap.Clear, FullMap.Shape;
    var markFull;
    found, start, markFull := index.AllocBlock(count);
    t := s;
    if found {
      var b := Block(page, start, count);
      t := Step(s, Alloc(b, hash));
      StepKeeps(s, Alloc(b, hash));
      Dedupe.Parts(s);
      forall c | c in s.live ensures !Overlaps(b, c) { AllocFresh(s, b, c); }
    }
  }

  /** Another reference on a block that is held, without naming a node. */
  method TakeShare(index: Index, b: Block, ghost s: State) returns (error: RefError, ghost t: State)
    requires Inv(s) && index.Valid() && PageIs(s, b.page, index) && b in s.live
    modifies index.page.words
    ensures index.Valid() && Enabled(s, Share(b)) && Inv(t) && t == Step(s, Share(b)) && PageIs(t, b.page, index)
    ensures error == if s.live[b].holders == MAX_REFS then MaxRefs else RefError.None
  {
    hide BumpUnits, RefOutcome, PackedBits.Unpack, PackedBits.Rest, FullMap.Clear, FullMap.Shape, Covered, AllKnown;
    Live(s, b);
    RefLive(s, b, 0);
    t := Step(s, Share(b));
    error := index.RefBlock(b.start, b.count, 0);
    StepKeeps(s, Share(b));
  }

  /** A good state, reached from `s` by the steps `ops`, to which page and node belong. */
  ghost predicate Reached(s: State, states: seq<State>, ops: seq<Op>, t: State) {
    BatchRefines.Chain(states, ops) && states[0] == s && states[|ops|] == t && Inv(t)
  }

  /** `after` is `entries` with some of them dropped. */
  predicate Fewer(entries: seq<Entry>, after: seq<Entry>) {
    |after| == |entries| && forall k :: 0 <= k < |after| ==> after[k] == entries[k] || after[k] == Empty
  }

  function Emptied(s: State, n: nat, after: seq<Entry>): State { s.(nodes := s.nodes[n := after]) }

  /** Dropping entries of a node is a chain of steps that forget one each. */
  lemma {:induction false} ForgetSome(s: State, n: nat, after: seq<Entry>, k: nat) returns (states: seq<State>, ops: seq<Op>)
    requires Inv(s) && n in s.nodes && Fewer(s.nodes[n], after) && k <= |after|
    ensures Reached(s, states, ops, Emptied(s, n, after[..k] + s.nodes[n][k..]))
    ensures forall i :: 0 <= i < |ops| ==> ops[i].Forget?
  {
    hide Inv;
    var entries := s.nodes[n];
    if k == 0 {
      states, ops := [s], [];
      assert after[..0] + entries[0..] == entries && s.nodes[n := entries] == s.nodes;
    } else {
      states, ops := ForgetSome(s, n, after, k - 1);
      var t := states[|ops|];
      var now := after[..k] + entries[k..];
      if after[k - 1] == entries[k - 1] {
        assert now == after[..k - 1] + entries[k - 1..];
      } else {
        var op := Forget(n, k - 1);
        assert now == t.nodes[n][k - 1 := Empty];
        assert Step(t, op).nodes == Emptied(s, n, now).nodes;
        StepKeeps(t, op);
        states, ops := states + [Step(t, op)], ops + [op];
      }
    }
  }

  lemma {:induction false} ForgetAll(s: State, n: nat, after: seq<Entry>) returns (states: seq<State>, ops: seq<Op>)
    requires Inv(s) && n in s.nodes && Fewer(s.nodes[n], after)
    ensures Reached(s, states, ops, Emptied(s, n, after)) && forall i :: 0 <= i < |ops| ==> ops[i].Forget?
  {
    states, ops := ForgetSome(s, n, after, |after|);
    assert after[..|after|] + s.nodes[n][|after|..] == after;
  }

  lemma OneStepMore(s: State, states: seq<State>, ops: seq<Op>, t: State, op: Op)
    requires Reached(s, states, ops, t) && Enabled(t, op)
    ensures Reached(s, states + [Step(t, op)], ops + [op], Step(t, op))
  {
    hide Inv;
    StepKeeps(t, op);
  }

  /** The content of a held block is made known to a node; the entry is the only one there that covers the block. A refused
      insertion has only forgotten entries. */
  method MakeKnown(node: LookupNode.Node, index: Index, b: Block, hash: nat, time: nat, spec: Spec, ghost s: State)
      returns (inserted: bool, ghost states: seq<State>, ghost ops: seq<Op>, ghost t: State)
    requires Inv(s) && node.Valid() && index.Valid() && NodeIs(s, node) && PageIs(s, b.page, index)
    requires b in s.live && s.live[b].hash == hash && (spec.valid ==> spec.idx <= |node.entries| && spec.idx < MAX_BLOCKS)
    requires node.bStart * REFS + MAX_REFS < PackedBits.Pow2(index.page.bbits)
    modifies node, index.page.words
    ensures node.Valid() && index.Valid() && Reached(s, states, ops, t) && NodeIs(t, node) && PageIs(t, b.page, index)
    ensures inserted ==> exists i :: ops == [Insert(b, node.bStart, i, time)]
    ensures !inserted ==> forall i :: 0 <= i < |ops| ==> ops[i].Forget?
  {
    hide Inv, ClearHits, Place, PackedBits.Unpack, PackedBits.Rest, PackedBits.Pow2, FullMap.Clear, FullMap.Shape;
    Live(s, b);
    ghost var i;
    inserted, i := node.InsertEntry(index, b, hash, time, spec);
    if inserted {
      t := Step(s, Insert(b, node.bStart, i, time));
      StepKeeps(s, Insert(b, node.bStart, i, time));
      states, ops := [s, t], [Insert(b, node.bStart, i, time)];
    } else {
      ghost var after := ClearHits(s.nodes[node.bStart], b);
      ClearFewer(s.nodes[node.bStart], b);
      t := Emptied(s, node.bStart, after);
      states, ops := ForgetAll(s, node.bStart, after);
    }
  }

  lemma ClearFewer(entries: seq<Entry>, b: Block)
    ensures Fewer(entries, ClearHits(entries, b))
  {
  }

  /** The scan of a node on behalf of an insertion: entries of missing disks are forgotten, and if the digest is there its
      entry is replaced by one for the new block. */
  method Replace(node: LookupNode.Node, index: Index, b: Block, hash: nat, time: nat, disks: set<nat>, spec: Locate, ghost s: State)
      returns (found: bool, loc: Locate, ghost states: seq<State>, ghost ops: seq<Op>, ghost t: State)
    requires Inv(s) && node.Valid() && index.Valid() && NodeIs(s, node) && PageIs(s, b.page, index)
    requires b in s.live && s.live[b].hash == hash && node.bStart * REFS + MAX_REFS < PackedBits.Pow2(index.page.bbits)
    modifies node, index.page.words
    ensures node.Valid() && index.Valid() && Reached(s, states, ops, t) && NodeIs(t, node) && PageIs(t, b.page, index)
    ensures found ==> exists i :: 0 < |ops| && ops[|ops| - 1] == Insert(b, node.bStart, i, time)
    ensures !found ==> forall i :: 0 <= i < |ops| ==> ops[i].Forget?
  {
    hide Inv, ClearHits, Place, Chosen, PackedBits.Unpack, PackedBits.Rest, PackedBits.Pow2, FullMap.Clear, FullMap.Shape;
    Live(s, b);
    ghost var n, was := node.bStart, node.entries;
    var i;
    found, i, loc := node.ScanForInsert(index, b, hash, time, disks, spec);
    ghost var d := DropGone(was, disks, i);
    states, ops := ForgetAll(s, n, d);
    t := Emptied(s, n, d);
    if found {
      ghost var op := Insert(b, n, i, time);
      OneStepMore(s, states, ops, t, op);
      states, ops, t := states + [Step(t, op)], ops + [op], Step(t, op);
    }
  }

  /** A holder lets go of a block, with the node it points at or without one. */
  method LetGo(index: Index, node: LookupNode.Node?, b: Block, ghost s: State) returns (freed: bool, ghost t: State)
    requires Inv(s) && index.Valid() && PageIs(s, b.page, index) && b in s.live && InPages(s, b)
    requires node != null ==> node.Valid() && NodeIs(s, node) && NodeOf(s, b) == node.bStart
    modifies index`freeBlocks, index`unmarkedFull, index.page.words, index.device, index.group, node
    ensures index.Valid() && Enabled(s, Free(b, node != null)) && Inv(t) && t == Step(s, Free(b, node != null))
    ensures PageIs(t, b.page, index) && (node != null ==> node.Valid() && NodeIs(t, node))
    ensures freed <==> s.live[b].holders == 1
    ensures freed <==> b !in t.live
  {
    hide Inv, DropUnits, Remove, PackedBits.Unpack, PackedBits.Rest, FullMap.Clear, FullMap.Shape;
    Live(s, b);
    assert Agreed(s.pages[b.page], b.start, b.count) == b.count;
    t := Step(s, Free(b, node != null));
    freed := DeleteBlock(index, node, b);
    StepKeeps(s, Free(b, node != null));
  }

  /** Allocation for a list of pages is a run of the machine: every page of the list was given exactly one extent, live
      and with the page's own digest, or is still in the list. */
  method AllocateBatch(index: Index, list: seq<BatchAlloc.Pgdata>, verify: bool, page: PageId, ghost s: State)
      returns (grants: seq<BatchAlloc.Grant>, rest: seq<BatchAlloc.Pgdata>, ghost states: seq<State>)
    requires Inv(s) && index.Valid() && PageIs(s, page, index) && index.device.unit in {1024, 4096}
    modifies index`freeBlocks, index`checkIdx, index.page.words, index.device
    ensures index.Valid() && BatchRefines.Chain(states, BatchRefines.OpsOf(page, grants)) && states[0] == s
    ensures var t := states[|grants|];
      Inv(t) && PageIs(t, page, index) && BatchRefines.GrantsLive(t, page, grants)
    ensures BatchAlloc.Tags(list) == BatchAlloc.Tags(rest) + BatchAlloc.Tags(BatchAlloc.Pages(grants))
    ensures BatchAlloc.AllGiven(list, index.device.unit, grants)
    ensures !verify ==> BatchAlloc.Thrifty(old(index.Units()), grants)
  {
    hide Inv, BatchAlloc.Sound, BatchAlloc.Apply, BatchAlloc.Tags, BatchAlloc.AllGiven, BatchAlloc.Thrifty, PackedBits.Unpack, PackedBits.Rest, FullMap.Clear, FullMap.Shape;
    var markFull;
    grants, rest, markFull := BatchAlloc.AllocForPgdata(index, list, verify);
    states := BatchRefines.BatchIsRun(s, page, grants);
  }
}
