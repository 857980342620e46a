/** Deduplication and reference counting as one machine: extents of units, their holders, and lookup
    nodes whose (block, digest) entries may be stale.

    A step is what runs under the index and node locks. The theorem is that an entry accepted because
    the first unit of its block points back at the node names a live extent with the digest looked up. */
module Dedupe {
  import opened Units

  /** An index page, by disk and index number. */
  datatype PageId = PageId(bid: nat, index: nat)

  /** The units a block address stands for. */
  datatype Block = Block(page: PageId, start: nat, count: nat)

  /** A slot of a lookup node. */
  datatype Entry = Empty | Entry(block: Block, hash: nat, time: nat)

  /** Two blocks share a unit (the negation of block_entry_valid on the same disk and index). */
  predicate Overlaps(a: Block, b: Block)
  {
    a.page == b.page &&
    ((b.start <= a.start < b.start + b.count) || (a.start <= b.start < a.start + a.count))
  }

  /** That is: some unit is in both. */
  lemma OverlapsIff(a: Block, b: Block)
    requires a.count > 0 && b.count > 0
    ensures Overlaps(a, b) <==> a.page == b.page && exists k :: InUnits(a, k) && InUnits(b, k)
  {
    if Overlaps(a, b) {
      var k := if a.start < b.start then b.start else a.start;
      assert InUnits(a, k) && InUnits(b, k);
    }
  }

  predicate InUnits(b: Block, k: nat) { b.start <= k < b.start + b.count }

  // ---------- What the operations do to a node ----------

  predicate Hits(e: Entry, b: Block) { e.Entry? && Overlaps(e.block, b) }

  /** ddtable_clear_invalid_entries */
  function ClearHits(entries: seq<Entry>, b: Block): (r: seq<Entry>)
    ensures |r| == |entries|
  {
    seq(|entries|, i requires 0 <= i < |entries| => if Hits(entries[i], b) then Empty else entries[i])
  }

  function Place(entries: seq<Entry>, i: nat, e: Entry): (r: seq<Entry>)
    requires i <= |entries|
  {
    if i < |entries| then entries[i := e] else entries + [e]
  }

  /** ddtable_hash_remove_block: the first entry for exactly this block. */
  function Remove(entries: seq<Entry>, b: Block): (r: seq<Entry>)
    ensures |r| == |entries|
  {
    if entries == [] then []
    else if entries[0].Entry? && entries[0].block == b then [Empty] + entries[1..]
    else [entries[0]] + Remove(entries[1..], b)
  }

  lemma {:induction false} RemoveAt(entries: seq<Entry>, b: Block, i: nat)
    requires i < |entries|
    ensures Remove(entries, b)[i] == entries[i] || (Remove(entries, b)[i] == Empty && IsFor(entries[i], b))
  {
    if !(entries[0].Entry? && entries[0].block == b) && i > 0 { RemoveAt(entries[1..], b, i - 1); }
  }

  predicate IsFor(e: Entry, b: Block) { e.Entry? && e.block == b }

  // ---------- States ----------

  /** A live extent: the digest of what is stored there and how many hold it. */
  datatype Extent = Extent(hash: nat, holders: nat)

  datatype State = State(pages: map<PageId, seq<nat>>, nodes: map<nat, seq<Entry>>, live: map<Block, Extent>)

  ghost predicate InPages(s: State, b: Block)
  {
    b.count > 0 && b.page in s.pages && b.start + b.count <= |s.pages[b.page]|
  }

  function NodeOf(s: State, b: Block): nat
    requires InPages(s, b)
  {
    Node(s.pages[b.page][b.start])
  }

  /** The units of a live extent count its holders, and only the first may point at a node. */
  ghost predicate Counted(s: State, b: Block)
    requires b in s.live && InPages(s, b)
  {
    && 0 < s.live[b].holders <= MAX_REFS
    && forall k :: b.start <= k < b.start + b.count ==>
         && Refs(s.pages[b.page][k]) == s.live[b].holders
         && (k > b.start ==> Node(s.pages[b.page][k]) == 0)
  }

  ghost predicate Covers(b: Block, page: PageId, k: nat) { b.page == page && b.start <= k < b.start + b.count }

  /** In the node an extent points at, whatever overlaps the extent is its own entry, once. */
  ghost predicate Known(s: State, b: Block)
    requires b in s.live && InPages(s, b)
  {
    var n := NodeOf(s, b);
    n != 0 ==>
      && n in s.nodes
      && (forall i :: 0 <= i < |s.nodes[n]| && Hits(s.nodes[n][i], b) ==>
            s.nodes[n][i].block == b && s.nodes[n][i].hash == s.live[b].hash)
      && (forall i, j :: 0 <= i < j < |s.nodes[n]| && Hits(s.nodes[n][i], b) ==> !Hits(s.nodes[n][j], b))
  }

  /** Live extents lie in pages, count their holders and share no unit. */
  ghost predicate Extents(s: State)
  {
    && (forall b :: b in s.live ==> InPages(s, b) && Counted(s, b))
    && (forall b, c :: b in s.live && c in s.live && b != c ==> !Overlaps(b, c))
  }

  /** Every unit in use belongs to a live extent. */
  ghost predicate Covered(s: State)
  {
    forall p, k :: p in s.pages && 0 <= k < |s.pages[p]| && s.pages[p][k] != 0 ==> Owned(s, p, k)
  }

  ghost predicate Owned(s: State, page: PageId, k: nat) { exists b :: b in s.live && Covers(b, page, k) }

  ghost predicate AllKnown(s: State)
    requires Extents(s)
  {
    forall b :: b in s.live ==> Known(s, b)
  }

  ghost predicate Addresses(s: State)
  {
    forall n, i :: n in s.nodes && 0 <= i < |s.nodes[n]| && s.nodes[n][i].Entry? ==> InPages(s, s.nodes[n][i].block)
  }

  ghost predicate Inv(s: State)
  {
    Extents(s) && Covered(s) && AllKnown(s) && Addresses(s) && 0 !in s.nodes
  }

  // ---------- Steps ----------

  datatype Op =
    | Alloc(b: Block, hash: nat)                       // a free run becomes an extent with one holder
    | Share(b: Block)                                  // another page of the same content, or a copy
    | Lookup(node: nat, i: nat, time: nat)             // an entry whose digest matches the page looked up
    | NewNode(node: nat)
    | Insert(b: Block, node: nat, i: nat, time: nat)   // the content of a held block is made known
    | Free(b: Block, removed: bool)                    // a holder lets go; the entry may be left behind
    | Forget(node: nat, i: nat)                        // an entry is dropped

  /** What the source asks of its callers: they reference and free what they hold, make known what they
      hold, and the addresses in nodes are addresses of the pool. */
  ghost predicate Enabled(s: State, op: Op)
  {
    match op
    case Alloc(b, _) => InPages(s, b) && FreeRun(s.pages[b.page], b.start, b.count)
    case Share(b) => b in s.live && InPages(s, b)
    case Lookup(n, i, _) => n in s.nodes && i < |s.nodes[n]| && s.nodes[n][i].Entry? && InPages(s, s.nodes[n][i].block)
    case NewNode(n) => n != 0 && n !in s.nodes
    case Insert(b, n, i, _) => b in s.live && InPages(s, b) && n in s.nodes && i <= |s.nodes[n]|
    case Free(b, _) => b in s.live && InPages(s, b)
    case Forget(n, i) => n in s.nodes && i < |s.nodes[n]|
  }

  function Reffed(s: State, b: Block, node: nat): RefError
    requires InPages(s, b)
  {
    RefOutcome(s.pages[b.page], b.start, b.count, node)
  }

  /** One holder more, if the extent is live. */
  function Hold(live: map<Block, Extent>, b: Block): map<Block, Extent>
  {
    if b in live then live[b := live[b].(holders := live[b].holders + 1)] else live
  }

  function Release(live: map<Block, Extent>, b: Block): map<Block, Extent>
    requires b in live
  {
    if live[b].holders > 1 then live[b := live[b].(holders := live[b].holders - 1)] else live - {b}
  }

  /** The state after a step, by the unit and node functions that the locked code computes. */
  ghost function Step(s: State, op: Op): State
    requires Enabled(s, op)
  {
    match op
    case Alloc(b, h) =>
      s.(pages := s.pages[b.page := MarkUnits(s.pages[b.page], b.start, b.count)], live := s.live[b := Extent(h, 1)])
    case Share(b) =>
      if Reffed(s, b, 0).None? then
        s.(pages := s.pages[b.page := BumpUnits(s.pages[b.page], b.start, b.count)], live := Hold(s.live, b))
      else s
    case Lookup(n, i, time) =>
      var e := s.nodes[n][i];
      if Reffed(s, e.block, n).None? then
        s.(pages := s.pages[e.block.page := BumpUnits(s.pages[e.block.page], e.block.start, e.block.count)],
           live := Hold(s.live, e.block), nodes := s.nodes[n := s.nodes[n][i := e.(time := time)]])
      else s.(nodes := s.nodes[n := s.nodes[n][i := Empty]])
    case NewNode(n) => s.(nodes := s.nodes[n := []])
    case Insert(b, n, i, time) =>
      var cleared := ClearHits(s.nodes[n], b);
      var u := s.pages[b.page];
      if Node(u[b.start]) == 0 then
        s.(pages := s.pages[b.page := u[b.start := n * REFS + Refs(u[b.start])]],
           nodes := s.nodes[n := Place(cleared, i, Entry(b, s.live[b].hash, time))])
      else s.(nodes := s.nodes[n := cleared])
    case Free(b, removed) =>
      var u := s.pages[b.page];
      var n := Node(u[b.start]);
      s.(pages := s.pages[b.page := DropUnits(u, b.start, Agreed(u, b.start, b.count))], live := Release(s.live, b),
         nodes := if removed && Refs(u[b.start]) == 1 && n in s.nodes then s.nodes[n := Remove(s.nodes[n], b)] else s.nodes)
    case Forget(n, i) => s.(nodes := s.nodes[n := s.nodes[n][i := Empty]])
  }

  lemma Live(s: State, b: Block)
    requires Inv(s) && b in s.live
    ensures InPages(s, b) && Counted(s, b) && Known(s, b)
  {
  }

  // ---------- Soundness of a lookup ----------

  /** A block accepted because its first unit points back at the node is live and holds the digest. */
  lemma LookupSound(s: State, n: nat, i: nat)
    requires Inv(s) && Enabled(s, Lookup(n, i, 0)) && Reffed(s, s.nodes[n][i].block, n).None?
    ensures s.nodes[n][i].block in s.live && s.live[s.nodes[n][i].block].hash == s.nodes[n][i].hash
  {
    var e := s.nodes[n][i].block;
    assert Node(s.pages[e.page][e.start]) == n != 0;
    assert s.pages[e.page][e.start] != 0;
    var b :| b in s.live && Covers(b, e.page, e.start);
    assert Counted(s, b) && Known(s, b);
    assert e.start == b.start;
    assert Hits(s.nodes[n][i], b);
  }

  /** An extent handed out shares no unit with any extent that still has a holder. */
  lemma AllocFresh(s: State, b: Block, c: Block)
    requires Extents(s) && InPages(s, b) && FreeRun(s.pages[b.page], b.start, b.count) && c in s.live
    ensures !Overlaps(b, c)
  {
    assert InPages(s, c) && Counted(s, c);
    InUse(s, c);
    assert s.pages[b.page][b.start] == 0 && s.pages[c.page][c.start] != 0;
  }

  lemma InUse(s: State, c: Block)
    requires c in s.live && InPages(s, c) && Counted(s, c)
    ensures forall k :: c.start <= k < c.start + c.count ==> s.pages[c.page][k] != 0
  {
  }

  // ---------- Every step keeps the invariant ----------

  /** `t` differs from `s` on one page, inside one block, in the liveness of that block, and in nodes by
      entries dropped or entries for that block. */
  ghost predicate Within(s: State, t: State, b: Block)
  {
    && InPages(s, b) && t.pages.Keys == s.pages.Keys
    && (forall p :: p in s.pages && p != b.page ==> t.pages[p] == s.pages[p])
    && |t.pages[b.page]| == |s.pages[b.page]|
    && (forall k :: 0 <= k < |s.pages[b.page]| && !(b.start <= k < b.start + b.count) ==>
          t.pages[b.page][k] == s.pages[b.page][k])
    && (forall c :: c in t.live && c != b ==> c in s.live && t.live[c] == s.live[c])
    && (forall c :: c in s.live && c != b ==> c in t.live && !Overlaps(b, c))
  }

  ghost predicate NodesKept(s: State, t: State, b: Block)
  {
    && s.nodes.Keys <= t.nodes.Keys
    && forall n :: n in s.nodes ==> EntriesKept(s.nodes[n], t.nodes[n], b)
  }

  ghost predicate EntriesKept(was: seq<Entry>, now: seq<Entry>, b: Block)
  {
    && |was| <= |now|
    && forall i :: 0 <= i < |now| && now[i].Entry? && now[i].block != b ==>
         i < |was| && was[i].Entry? && was[i].block == now[i].block && was[i].hash == now[i].hash
  }

  lemma KeepExtents(s: State, t: State, b: Block)
    requires Extents(s) && Within(s, t, b)
    requires b in t.live ==> InPages(t, b) && Counted(t, b)
    ensures Extents(t)
  {
    forall c | c in t.live ensures InPages(t, c) && Counted(t, c) {
      if c != b { assert InPages(s, c) && Counted(s, c) && !Overlaps(b, c); }
    }
  }

  lemma KeepCovered(s: State, t: State, b: Block)
    requires Covered(s) && Within(s, t, b)
    requires b !in t.live ==> FreeRun(t.pages[b.page], b.start, b.count)
    requires b in s.live || b in t.live
    ensures Covered(t)
  {
    forall p, k | p in t.pages && 0 <= k < |t.pages[p]| && t.pages[p][k] != 0 ensures Owned(t, p, k) {
      if Covers(b, p, k) {
        assert b in t.live;
      } else {
        assert s.pages[p][k] != 0;
        var c :| c in s.live && Covers(c, p, k);
        assert c in t.live;
      }
    }
  }

  lemma KeepKnown(s: State, t: State, b: Block)
    requires Extents(s) && Extents(t) && AllKnown(s) && Within(s, t, b) && NodesKept(s, t, b)
    requires b in t.live ==> Known(t, b)
    ensures AllKnown(t)
  {
    forall c | c in t.live ensures Known(t, c) {
      if c != b {
        assert Known(s, c) && !Overlaps(b, c) && InPages(s, c);
        KnownKept(s, t, b, c);
      }
    }
  }

  lemma KnownKept(s: State, t: State, b: Block, c: Block)
    requires InPages(s, c) && InPages(t, c) && c in s.live && c in t.live && s.live[c] == t.live[c] && !Overlaps(b, c)
    requires NodeOf(t, c) == NodeOf(s, c) && NodesKept(s, t, b) && Known(s, c)
    ensures Known(t, c)
  {
    var n := NodeOf(s, c);
    if n != 0 {
      assert EntriesKept(s.nodes[n], t.nodes[n], b);
      assert forall i :: 0 <= i < |t.nodes[n]| && Hits(t.nodes[n][i], c) ==> Hits(s.nodes[n][i], c);
    }
  }

  lemma Keep(s: State, t: State, b: Block)
    requires Inv(s) && Within(s, t, b) && NodesKept(s, t, b) && Addresses(t) && 0 !in t.nodes
    requires b in s.live || b in t.live
    requires b in t.live ==> InPages(t, b) && Counted(t, b) && Known(t, b)
    requires b !in t.live ==> FreeRun(t.pages[b.page], b.start, b.count)
    ensures Inv(t)
  {
    hide Within, NodesKept, Covered, Counted, Known, Addresses;
    assert Within(s, t, b) && NodesKept(s, t, b);
    KeepExtents(s, t, b);
    KeepCovered(s, t, b);
    KeepKnown(s, t, b);
  }

  lemma AllocKeeps(s: State, b: Block, h: nat)
    requires Inv(s) && Enabled(s, Alloc(b, h))
    ensures Inv(Step(s, Alloc(b, h)))
  {
    hide Covered, AllKnown;
    var t := Step(s, Alloc(b, h));
    forall c | c in s.live ensures !Overlaps(b, c) { AllocFresh(s, b, c); }
    assert b !in s.live;
    assert Counted(t, b) && Known(t, b);
    assert Within(s, t, b) && NodesKept(s, t, b);
    Keep(s, t, b);
  }

  /** Referencing a live extent succeeds unless its count is at the maximum. */
  lemma RefLive(s: State, b: Block, node: nat)
    requires Extents(s) && b in s.live && InPages(s, b) && (node == 0 || node == NodeOf(s, b))
    ensures Reffed(s, b, node) == if s.live[b].holders == MAX_REFS then MaxRefs else RefError.None
  {
    assert Counted(s, b);
  }

  /** Nodes only lose entries; block and digest of the others stand; new nodes are empty. */
  ghost predicate NodesSub(s: State, t: State)
  {
    && s.nodes.Keys <= t.nodes.Keys && 0 !in t.nodes
    && (forall n :: n in s.nodes ==> EntriesSub(s.nodes[n], t.nodes[n]))
    && (forall n :: n in t.nodes && n !in s.nodes ==> t.nodes[n] == [])
  }

  ghost predicate EntriesSub(was: seq<Entry>, now: seq<Entry>)
  {
    && |was| == |now|
    && forall i :: 0 <= i < |now| && now[i].Entry? ==>
         was[i].Entry? && was[i].block == now[i].block && was[i].hash == now[i].hash
  }

  lemma KnownStill(s: State, t: State, b: Block)
    requires InPages(s, b) && InPages(t, b) && b in s.live && b in t.live && s.live[b].hash == t.live[b].hash
    requires NodeOf(t, b) == NodeOf(s, b) && NodesSub(s, t) && Known(s, b)
    ensures Known(t, b)
  {
    var n := NodeOf(s, b);
    if n != 0 {
      assert EntriesSub(s.nodes[n], t.nodes[n]);
      assert forall i :: 0 <= i < |t.nodes[n]| && Hits(t.nodes[n][i], b) ==> Hits(s.nodes[n][i], b);
    }
  }

  lemma SubAddresses(s: State, t: State)
    requires Addresses(s) && NodesSub(s, t) && s.pages.Keys == t.pages.Keys
    requires forall p :: p in s.pages ==> |s.pages[p]| == |t.pages[p]|
    ensures Addresses(t) && 0 !in t.nodes
  {
    forall n, i | n in t.nodes && 0 <= i < |t.nodes[n]| && t.nodes[n][i].Entry? ensures InPages(t, t.nodes[n][i].block) {
      assert EntriesSub(s.nodes[n], t.nodes[n]);
      assert InPages(s, s.nodes[n][i].block);
    }
  }

  /** Nothing but entries lost. */
  lemma SubKeeps(s: State, t: State)
    requires Inv(s) && t.pages == s.pages && t.live == s.live && NodesSub(s, t)
    ensures Inv(t)
  {
    hide NodesSub, Overlaps, Counted, Known;
    SubAddresses(s, t);
    SameUnits(s, t);
    forall b | b in s.live ensures Known(t, b) {
      Live(s, b);
      KnownStill(s, t, b);
    }
  }

  lemma SameUnits(s: State, t: State)
    requires Extents(s) && Covered(s) && t.pages == s.pages && t.live == s.live
    ensures Extents(t) && Covered(t)
  {
    forall b | b in t.live ensures InPages(t, b) && Counted(t, b) { assert InPages(s, b) && Counted(s, b); }
    forall p, k | p in t.pages && 0 <= k < |t.pages[p]| && t.pages[p][k] != 0 ensures Owned(t, p, k) {
      var b :| b in s.live && Covers(b, p, k);
    }
  }

  /** A bumped unit keeps its node pointer and counts one more. */
  lemma Bumped(v: nat)
    requires Refs(v) < MAX_REFS
    ensures Refs(v + 1) == Refs(v) + 1 && Node(v + 1) == Node(v)
  {
  }

  /** `t` is `s` with the units of live extent `b` replaced by `u`, and `x` recorded for it. */
  ghost predicate Recounted(s: State, t: State, b: Block, u: seq<nat>, x: Extent)
  {
    && InPages(s, b) && |u| == |s.pages[b.page]|
    && t.pages == s.pages[b.page := u] && t.live == s.live[b := x]
    && forall k :: 0 <= k < |u| && !(b.start <= k < b.start + b.count) ==> u[k] == s.pages[b.page][k]
  }

  /** New counts on a live extent, its node pointer and digest kept; nodes at most lose entries. */
  lemma RecountKeeps(s: State, t: State, b: Block, u: seq<nat>, x: Extent)
    requires Inv(s) && b in s.live && Recounted(s, t, b, u, x) && NodesSub(s, t)
    requires x.hash == s.live[b].hash && 0 < x.holders <= MAX_REFS
    requires forall k :: b.start <= k < b.start + b.count ==> Refs(u[k]) == x.holders && Node(u[k]) == Node(s.pages[b.page][k])
    ensures Inv(t)
  {
    hide Covered, AllKnown, Addresses, NodesSub;
    Live(s, b);
    SubAddresses(s, t);
    assert InPages(t, b) && Counted(t, b);
    KnownStill(s, t, b);
    assert Within(s, t, b);
    SubKept(s, t, b);
    Keep(s, t, b);
  }

  /** One reference more. */
  lemma BumpKeeps(s: State, t: State, b: Block)
    requires Inv(s) && b in s.live && InPages(s, b) && s.live[b].holders < MAX_REFS
    requires t.pages == s.pages[b.page := BumpUnits(s.pages[b.page], b.start, b.count)]
    requires t.live == Hold(s.live, b) && NodesSub(s, t)
    ensures Inv(t)
  {
    hide Inv, NodesSub, Known;
    Live(s, b);
    forall k | b.start <= k < b.start + b.count { Bumped(s.pages[b.page][k]); }
    var x := s.live[b].(holders := s.live[b].holders + 1);
    RecountKeeps(s, t, b, t.pages[b.page], x);
  }

  /** One reference less, when others remain. */
  lemma DropKeeps(s: State, t: State, b: Block)
    requires Inv(s) && b in s.live && InPages(s, b) && s.live[b].holders > 1
    requires t.pages == s.pages[b.page := DropUnits(s.pages[b.page], b.start, b.count)]
    requires t.live == Release(s.live, b) && t.nodes == s.nodes
    ensures Inv(t)
  {
    hide Inv, Known;
    Live(s, b);
    forall k | b.start <= k < b.start + b.count { Bumped(s.pages[b.page][k] - 1); }
    var x := s.live[b].(holders := s.live[b].holders - 1);
    assert NodesSub(s, t) by { NoNode(s); }
    RecountKeeps(s, t, b, t.pages[b.page], x);
  }

  lemma NoNode(s: State)
    requires Inv(s)
    ensures 0 !in s.nodes
  {
  }

  /** The last reference: the extent is gone, its units are free. */
  lemma EndKeeps(s: State, t: State, b: Block)
    requires Inv(s) && b in s.live && InPages(s, b) && s.live[b].holders == 1
    requires t.pages == s.pages[b.page := DropUnits(s.pages[b.page], b.start, b.count)]
    requires t.live == Release(s.live, b) && NodesSub(s, t)
    ensures Inv(t)
  {
    hide Covered, AllKnown, Addresses, NodesSub;
    Live(s, b);
    SubAddresses(s, t);
    assert Within(s, t, b);
    SubKept(s, t, b);
    Keep(s, t, b);
  }

  lemma FreeKeeps(s: State, b: Block, removed: bool)
    requires Inv(s) && Enabled(s, Free(b, removed))
    ensures Inv(Step(s, Free(b, removed)))
  {
    hide Inv, NodesSub, Known, Remove;
    Live(s, b);
    NoNode(s);
    var t, u := Step(s, Free(b, removed)), s.pages[b.page];
    assert Agreed(u, b.start, b.count) == b.count;
    if s.live[b].holders > 1 {
      DropKeeps(s, t, b);
    } else {
      FreeNodes(s, t, b);
      EndKeeps(s, t, b);
    }
  }

  lemma FreeNodes(s: State, t: State, b: Block)
    requires 0 !in s.nodes
    requires t.nodes == s.nodes || exists n :: n in s.nodes && t.nodes == s.nodes[n := Remove(s.nodes[n], b)]
    ensures NodesSub(s, t)
  {
    if t.nodes != s.nodes {
      var n :| n in s.nodes && t.nodes == s.nodes[n := Remove(s.nodes[n], b)];
      forall i | 0 <= i < |s.nodes[n]|
        ensures Remove(s.nodes[n], b)[i] == s.nodes[n][i] || Remove(s.nodes[n], b)[i] == Empty
      {
        RemoveAt(s.nodes[n], b, i);
      }
    }
  }

  lemma SubKept(s: State, t: State, b: Block)
    requires NodesSub(s, t)
    ensures NodesKept(s, t, b)
  {
    forall n | n in s.nodes ensures EntriesKept(s.nodes[n], t.nodes[n], b) {
      assert EntriesSub(s.nodes[n], t.nodes[n]);
    }
  }

  lemma ShareKeeps(s: State, b: Block)
    requires Inv(s) && Enabled(s, Share(b))
    ensures Inv(Step(s, Share(b)))
  {
    hide Covered, AllKnown, Addresses, RefOutcome;
    RefLive(s, b, 0);
    if s.live[b].holders < MAX_REFS { BumpKeeps(s, Step(s, Share(b)), b); }
  }

  lemma LookupKeeps(s: State, n: nat, i: nat, time: nat)
    requires Inv(s) && Enabled(s, Lookup(n, i, time))
    ensures Inv(Step(s, Lookup(n, i, time)))
  {
    hide Covered, AllKnown, Addresses, RefOutcome;
    var t, b := Step(s, Lookup(n, i, time)), s.nodes[n][i].block;
    assert NodesSub(s, t);
    if Reffed(s, b, n).None? {
      LookupSound(s, n, i);
      RefAccepted(s.pages[b.page], b.start, b.count, n);
      RefLive(s, b, n);
      BumpKeeps(s, t, b);
    } else {
      SubKeeps(s, t);
    }
  }

  lemma RefAccepted(u: seq<nat>, s: nat, count: nat, node: nat)
    requires 0 < count && s + count <= |u| && node != 0 && RefOutcome(u, s, count, node).None?
    ensures Node(u[s]) == node && Refs(u[s]) < MAX_REFS
  {
  }

  lemma NewNodeKeeps(s: State, n: nat)
    requires Inv(s) && Enabled(s, NewNode(n))
    ensures Inv(Step(s, NewNode(n)))
  {
    hide Covered, AllKnown, Extents;
    SubKeeps(s, Step(s, NewNode(n)));
  }

  lemma ForgetKeeps(s: State, n: nat, i: nat)
    requires Inv(s) && Enabled(s, Forget(n, i))
    ensures Inv(Step(s, Forget(n, i)))
  {
    hide Covered, AllKnown, Extents;
    SubKeeps(s, Step(s, Forget(n, i)));
  }

  /** After clearing and placing, the node holds one entry that overlaps the block: its own. */
  lemma Placed(entries: seq<Entry>, b: Block, i: nat, e: Entry)
    requires i <= |entries| && e.Entry? && e.block == b
    ensures var r := Place(ClearHits(entries, b), i, e);
      && EntriesKept(entries, r, b)
      && i < |r| && r[i] == e && forall j :: 0 <= j < |r| && Hits(r[j], b) ==> j == i
  {
  }

  lemma InsertKeeps(s: State, b: Block, n: nat, i: nat, time: nat)
    requires Inv(s) && Enabled(s, Insert(b, n, i, time))
    ensures Inv(Step(s, Insert(b, n, i, time)))
  {
    hide Covered, AllKnown, Addresses, Place, ClearHits;
    var t, u := Step(s, Insert(b, n, i, time)), s.pages[b.page];
    Live(s, b);
    if Node(u[b.start]) == 0 {
      Placed(s.nodes[n], b, i, Entry(b, s.live[b].hash, time));
      InsertAddresses(s, t, b, n);
      var v := n * REFS + Refs(u[b.start]);
      assert Refs(v) == Refs(u[b.start]) && Node(v) == n;
      assert Counted(t, b) && Known(t, b);
      assert Within(s, t, b) && NodesKept(s, t, b);
      Keep(s, t, b);
    } else {
      assert EntriesSub(s.nodes[n], ClearHits(s.nodes[n], b)) by { Cleared(s.nodes[n], b); }
      SubKeeps(s, t);
    }
  }

  lemma Cleared(entries: seq<Entry>, b: Block)
    ensures EntriesSub(entries, ClearHits(entries, b))
  {
  }

  lemma InsertAddresses(s: State, t: State, b: Block, n: nat)
    requires Addresses(s) && n in s.nodes && InPages(s, b) && s.pages.Keys == t.pages.Keys
    requires forall p :: p in s.pages ==> |s.pages[p]| == |t.pages[p]|
    requires n in t.nodes && t.nodes == s.nodes[n := t.nodes[n]] && EntriesKept(s.nodes[n], t.nodes[n], b)
    ensures Addresses(t)
  {
    forall m, i | m in t.nodes && 0 <= i < |t.nodes[m]| && t.nodes[m][i].Entry? ensures InPages(t, t.nodes[m][i].block) {
      if m != n || t.nodes[m][i].block != b { assert InPages(s, s.nodes[m][i].block); }
    }
  }

  // ---------- Runs ----------

  lemma StepKeeps(s: State, op: Op)
    requires Inv(s) && Enabled(s, op)
    ensures Inv(Step(s, op))
  {
    hide Inv, Step;
    match op
    case Alloc(b, h) => AllocKeeps(s, b, h);
    case Share(b) => ShareKeeps(s, b);
    case Lookup(n, i, time) => LookupKeeps(s, n, i, time);
    case NewNode(n) => NewNodeKeeps(s, n);
    case Insert(b, n, i, time) => InsertKeeps(s, b, n, i, time);
    case Free(b, removed) => FreeKeeps(s, b, removed);
    case Forget(n, i) => ForgetKeeps(s, n, i);
  }

  /** A start: all units free, and nodes left over from before with any entries, however stale. */
  ghost predicate Init(s: State)
  {
    && s.live == map[] && 0 !in s.nodes && Addresses(s)
    && forall p, k :: p in s.pages && 0 <= k < |s.pages[p]| ==> s.pages[p][k] == 0
  }

  ghost predicate Run(states: seq<State>, ops: seq<Op>)
  {
    && |states| == |ops| + 1 && Init(states[0])
    && forall i :: 0 <= i < |ops| ==> Enabled(states[i], ops[i]) && states[i + 1] == Step(states[i], ops[i])
  }

  lemma {:induction false} RunInv(states: seq<State>, ops: seq<Op>, i: nat)
    requires Run(states, ops) && i < |states|
    ensures Inv(states[i])
  {
    if i > 0 {
      RunInv(states, ops, i - 1);
      StepKeeps(states[i - 1], ops[i - 1]);
    }
  }

  /** Deduplication is sound over every run: an accepted lookup returns a block that is live, holds the
      digest of the entry, and has one holder more afterwards. */
  lemma DedupeSound(states: seq<State>, ops: seq<Op>, k: nat, n: nat, i: nat, time: nat)
    requires Run(states, ops) && k < |ops| && ops[k] == Lookup(n, i, time)
    requires Reffed(states[k], states[k].nodes[n][i].block, n).None?
    ensures var e := states[k].nodes[n][i];
      && e.block in states[k].live && states[k].live[e.block].hash == e.hash
      && e.block in states[k + 1].live
      && states[k + 1].live[e.block] == Extent(e.hash, states[k].live[e.block].holders + 1)
  {
    hide Inv;
    RunInv(states, ops, k);
    LookupSound(states[k], n, i);
  }

  /** One unit of a page of two, held, made known to node 7, and looked up there. */
  function Sample(u: seq<nat>, nodes: map<nat, seq<Entry>>, holders: nat): State {
    var b := Block(PageId(0, 0), 0, 1);
    State(map[b.page := u], nodes, if holders == 0 then map[] else map[b := Extent(5, holders)])
  }

  lemma SampleStored(b: Block)
    requires b == Block(PageId(0, 0), 0, 1)
    ensures var s0, s1 := Sample([0, 0], map[], 0), Sample([1, 0], map[], 1);
      && Init(s0) && Enabled(s0, Alloc(b, 5)) && Step(s0, Alloc(b, 5)) == s1
      && Enabled(s1, NewNode(7)) && Step(s1, NewNode(7)) == Sample([1, 0], map[7 := []], 1)
  {
    assert MarkUnits([0, 0], 0, 1) == [1, 0];
  }

  lemma SampleKnown(b: Block)
    requires b == Block(PageId(0, 0), 0, 1)
    ensures var s, op := Sample([1, 0], map[7 := []], 1), Insert(b, 7, 0, 0);
      Enabled(s, op) && Step(s, op) == Sample([7 * REFS + 1, 0], map[7 := [Entry(b, 5, 0)]], 1)
  {
    assert ClearHits([], b) == [] && Place([], 0, Entry(b, 5, 0)) == [Entry(b, 5, 0)];
    assert [1, 0][0 := 7 * REFS + 1] == [7 * REFS + 1, 0];
  }

  lemma SampleFound(b: Block)
    requires b == Block(PageId(0, 0), 0, 1)
    ensures var s, op := Sample([7 * REFS + 1, 0], map[7 := [Entry(b, 5, 0)]], 1), Lookup(7, 0, 1);
      && Enabled(s, op) && Reffed(s, b, 7).None?
      && Step(s, op) == Sample([7 * REFS + 2, 0], map[7 := [Entry(b, 5, 1)]], 2)
  {
    assert BumpUnits([7 * REFS + 1, 0], 0, 1) == [7 * REFS + 2, 0];
    assert [Entry(b, 5, 0)][0 := Entry(b, 5, 1)] == [Entry(b, 5, 1)];
  }

  /** Lookups are accepted: a page stored, made known and looked up again has two holders. */
  lemma HitHappens() returns (states: seq<State>, ops: seq<Op>, b: Block)
    ensures Run(states, ops) && |ops| == 4 && ops[3] == Lookup(7, 0, 1) && states[3].nodes[7][0].block == b
    ensures Reffed(states[3], b, 7).None? && b in states[4].live && states[4].live[b] == Extent(5, 2)
  {
    hide Init, Enabled, Step, Reffed;
    b := Block(PageId(0, 0), 0, 1);
    ops := [Alloc(b, 5), NewNode(7), Insert(b, 7, 0, 0), Lookup(7, 0, 1)];
    states := [
      Sample([0, 0], map[], 0), Sample([1, 0], map[], 1), Sample([1, 0], map[7 := []], 1),
      Sample([7 * REFS + 1, 0], map[7 := [Entry(b, 5, 0)]], 1), Sample([7 * REFS + 2, 0], map[7 := [Entry(b, 5, 1)]], 2)];
    SampleStored(b);
    SampleKnown(b);
    SampleFound(b);
  }

  /** While an extent has a holder no unit of it is handed out again: between two allocations that
      overlap, the last holder of the first has freed it. */
  lemma NoSecondHandout(states: seq<State>, ops: seq<Op>, i: nat, j: nat, b: Block, h: nat, c: Block, h': nat)
    requires Run(states, ops) && i < j < |ops| && ops[i] == Alloc(b, h) && ops[j] == Alloc(c, h') && Overlaps(c, b)
    ensures exists m, r :: i < m < j && ops[m] == Free(b, r) && b in states[m].live && states[m].live[b].holders == 1
  {
    hide Inv, Step, Enabled, Init;
    RunInv(states, ops, j);
    HandedOut(states[j], c, h', b);
    NowLive(states[i], b, h);
    var m := j;
    while b !in states[m].live
      invariant i < m <= j && (m < j ==> b !in states[m + 1].live)
      decreases m
    {
      m := m - 1;
    }
    assert states[m + 1] == Step(states[m], ops[m]);
    LastHolder(states[m], ops[m], b);
    RunInv(states, ops, m);
    Live(states[m], b);
    assert ops[m] == Free(b, ops[m].removed);
  }

  lemma HandedOut(s: State, c: Block, h: nat, b: Block)
    requires Inv(s) && Enabled(s, Alloc(c, h)) && Overlaps(c, b)
    ensures b !in s.live
  {
    hide Extents;
    Parts(s);
    if b in s.live { AllocFresh(s, c, b); }
  }

  lemma NowLive(s: State, b: Block, h: nat)
    requires Enabled(s, Alloc(b, h))
    ensures b in Step(s, Alloc(b, h)).live
  {
  }

  lemma Parts(s: State)
    requires Inv(s)
    ensures Extents(s)
  {
  }

  /** A live extent stays live unless its last holder frees it. */
  lemma LastHolder(s: State, op: Op, b: Block)
    requires Enabled(s, op) && b in s.live && b !in Step(s, op).live
    ensures op.Free? && op.b == b && s.live[b].holders <= 1
  {
  }

  /** The node pointer of an extent does not change while it is live, so a holder may read it, unlock,
      and find the node before freeing (process_delete_block). */
  lemma NodeStable(s: State, op: Op, b: Block)
    requires Inv(s) && Enabled(s, op) && b in s.live && InPages(s, b) && NodeOf(s, b) != 0 && b in Step(s, op).live
    ensures InPages(Step(s, op), b) && NodeOf(Step(s, op), b) == NodeOf(s, b)
  {
    hide Covered, AllKnown, Addresses, Known, Remove, ClearHits, Place, Agreed;
    Live(s, b);
  }

  // ---------- Lookup nodes ----------

  /** Entries of a node name blocks that share no unit. */
  ghost predicate Apart(entries: seq<Entry>)
  {
    forall i, j :: 0 <= i < j < |entries| && entries[i].Entry? && entries[j].Entry? ==> !Overlaps(entries[i].block, entries[j].block)
  }

  /** Entries of every node stay apart: inserting clears what overlaps, the rest only drops entries. */
  lemma ApartKept(s: State, op: Op)
    requires Enabled(s, op) && forall n :: n in s.nodes ==> Apart(s.nodes[n])
    ensures forall n :: n in Step(s, op).nodes ==> Apart(Step(s, op).nodes[n])
  {
    match op
    case Insert(b, n, i, time) =>
      ApartPlaced(s.nodes[n], b, i, Entry(b, s.live[b].hash, time));
    case Free(b, removed) =>
      forall n | n in s.nodes ensures Apart(Remove(s.nodes[n], b)) { ApartRemoved(s.nodes[n], b); }
    case _ =>
  }

  lemma ApartPlaced(entries: seq<Entry>, b: Block, i: nat, e: Entry)
    requires Apart(entries) && i <= |entries| && e.Entry? && e.block == b
    ensures Apart(ClearHits(entries, b)) && Apart(Place(ClearHits(entries, b), i, e))
  {
  }

  lemma ApartRemoved(entries: seq<Entry>, b: Block)
    requires Apart(entries)
    ensures Apart(Remove(entries, b))
  {
    hide Remove, Overlaps;
    forall i | 0 <= i < |entries| { RemoveAt(entries, b, i); }
  }

  /** Freeing the last reference removes every trace of the extent from the node it points at. */
  lemma FreeForgets(s: State, b: Block)
    requires Inv(s) && Enabled(s, Free(b, true)) && s.live[b].holders == 1 && NodeOf(s, b) != 0
    ensures var n := NodeOf(s, b); var t := Step(s, Free(b, true));
      n in t.nodes && forall i :: 0 <= i < |t.nodes[n]| ==> !Hits(t.nodes[n][i], b)
  {
    hide Covered, AllKnown, Addresses, Remove;
    Live(s, b);
    RemoveClears(s.nodes[NodeOf(s, b)], b);
  }

  lemma {:induction false} RemoveClears(entries: seq<Entry>, b: Block)
    requires forall i :: 0 <= i < |entries| && Hits(entries[i], b) ==> entries[i].block == b
    requires forall i, j :: 0 <= i < j < |entries| && Hits(entries[i], b) ==> !Hits(entries[j], b)
    requires b.count > 0
    ensures forall i :: 0 <= i < |entries| ==> !Hits(Remove(entries, b)[i], b)
  {
    if entries != [] && !(entries[0].Entry? && entries[0].block == b) {
      var rest := entries[1..];
      assert forall i :: 0 <= i < |rest| ==> rest[i] == entries[i + 1];
      RemoveClears(rest, b);
    } else if entries != [] {
      assert Hits(entries[0], b);
    }
  }
}
