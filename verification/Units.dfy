/** An allocation index seen as numbers: each unit holds a reference count in its low 13 bits and,
    above them, the block of the lookup node that knows its content. Zero is a free unit. */
module Units {

  const REFS := 8192        // 1 << INDEX_REFS_BITS
  const MAX_REFS := 8191    // BMAP_ENTRY_MAX_REFS

  function Refs(v: nat): nat { v % REFS }
  function Node(v: nat): nat { v / REFS }

  /** A unit without references is all zero. */
  predicate Clean(u: seq<nat>)
  {
    forall i :: 0 <= i < |u| ==> Refs(u[i]) == 0 ==> u[i] == 0
  }

  predicate FreeRun(u: seq<nat>, s: nat, count: nat)
    requires s + count <= |u|
  {
    forall k :: s <= k < s + count ==> u[k] == 0
  }

  /** All units of an extent carry the same, non-zero number of references. */
  predicate Uniform(u: seq<nat>, s: nat, count: nat)
    requires s + count <= |u|
  {
    forall k :: s <= k < s + count ==> Refs(u[k]) == Refs(u[s]) != 0
  }

  // ---------- What the operations do to the units of an extent ----------

  function MarkUnits(u: seq<nat>, s: nat, count: nat): (r: seq<nat>)
    ensures |r| == |u|
  {
    seq(|u|, i requires 0 <= i < |u| => if s <= i < s + count then 1 else u[i])
  }

  function BumpUnits(u: seq<nat>, s: nat, count: nat): (r: seq<nat>)
    ensures |r| == |u|
  {
    seq(|u|, i requires 0 <= i < |u| => if s <= i < s + count then u[i] + 1 else u[i])
  }

  /** One reference less; the node pointer goes with the last one. */
  function Dropped(v: nat): nat { if Refs(v) <= 1 then 0 else v - 1 }

  function DropUnits(u: seq<nat>, s: nat, count: nat): (r: seq<nat>)
    ensures |r| == |u|
  {
    seq(|u|, i requires 0 <= i < |u| => if s <= i < s + count then Dropped(u[i]) else u[i])
  }

  /** bint_ref_block's verdict on an extent: the node pointer of its first unit, then the counts. */
  datatype RefError = None | InvalidRefs | MaxRefs | InvalidNodeBlock

  function RefOutcome(u: seq<nat>, s: nat, count: nat, node: nat): RefError
    requires s + count <= |u|
  {
    if count == 0 then None
    else if node != 0 && Node(u[s]) != node then InvalidNodeBlock
    else if Refs(u[s]) == 0 then InvalidRefs
    else if Refs(u[s]) == MAX_REFS then MaxRefs
    else if Uniform(u, s, count) then None
    else InvalidRefs
  }

  /** Leading units of an extent that agree on a non-zero count: as far as bint_free_block gets. */
  function Agreed(u: seq<nat>, s: nat, count: nat): (n: nat)
    requires s + count <= |u|
    ensures n <= count && Uniform(u, s, n)
    ensures n < count ==> Refs(u[s + n]) == 0 || Refs(u[s + n]) != Refs(u[s])
  {
    if count == 0 then 0
    else
      var n := Agreed(u, s, count - 1);
      if n == count - 1 && Refs(u[s + n]) == Refs(u[s]) != 0 then count else n
  }

  /** Log replay: a counted reference for data, a mark for metadata; the node pointer is lost. */
  function Replayed(v: nat, meta: bool): nat
  {
    if Refs(v) == MAX_REFS || (Refs(v) != 0 && meta) then v else Refs(v) + 1
  }

  function ReplayUnits(u: seq<nat>, s: nat, count: nat, meta: bool): (r: seq<nat>)
    ensures |r| == |u|
  {
    seq(|u|, i requires 0 <= i < |u| => if s <= i < s + count then Replayed(u[i], meta) else u[i])
  }

  // ---------- What replays add up to ----------

  /** One call of bint_log_replay. */
  datatype Call = Call(start: nat, count: nat, meta: bool)

  function ReplayCalls(u: seq<nat>, calls: seq<Call>): (r: seq<nat>)
    ensures |r| == |u|
  {
    if calls == [] then u
    else
      var c := calls[|calls| - 1];
      ReplayUnits(ReplayCalls(u, calls[..|calls| - 1]), c.start, c.count, c.meta)
  }

  predicate Covers(c: Call, i: nat) { c.start <= i < c.start + c.count }

  /** How many of the calls are for data in unit i. */
  function DataCalls(calls: seq<Call>, i: nat): nat {
    if calls == [] then 0
    else
      var c := calls[|calls| - 1];
      DataCalls(calls[..|calls| - 1], i) + if Covers(c, i) && !c.meta then 1 else 0
  }

  /** The first call that covers unit i is for metadata. */
  predicate MetaFirst(calls: seq<Call>, i: nat) {
    exists k :: 0 <= k < |calls| && Covers(calls[k], i) && calls[k].meta && Untouched(calls[..k], i)
  }

  predicate Untouched(calls: seq<Call>, i: nat) { forall k :: 0 <= k < |calls| ==> !Covers(calls[k], i) }

  /** References that the calls add to a unit which has `refs`. */
  function Added(calls: seq<Call>, i: nat, refs: nat): nat {
    DataCalls(calls, i) + if refs == 0 && MetaFirst(calls, i) then 1 else 0
  }

  lemma UntouchedNoData(calls: seq<Call>, i: nat)
    requires Untouched(calls, i)
    ensures DataCalls(calls, i) == 0 && !MetaFirst(calls, i)
  {
    if calls != [] {
      var k := |calls| - 1;
      assert Untouched(calls[..k], i) by { assert forall j :: 0 <= j < k ==> calls[..k][j] == calls[j]; }
      UntouchedNoData(calls[..k], i);
    }
  }

  lemma MetaFirstNext(calls: seq<Call>, i: nat)
    requires calls != []
    ensures var k := |calls| - 1;
      && (MetaFirst(calls, i) <==> MetaFirst(calls[..k], i) || (Untouched(calls[..k], i) && Covers(calls[k], i) && calls[k].meta))
      && (Untouched(calls, i) <==> Untouched(calls[..k], i) && !Covers(calls[k], i))
  {
    var k := |calls| - 1;
    if MetaFirst(calls[..k], i) {
      var j :| 0 <= j < k && Covers(calls[..k][j], i) && calls[..k][j].meta && Untouched(calls[..k][..j], i);
      assert calls[..k][..j] == calls[..j];
      assert Covers(calls[j], i) && calls[j].meta && Untouched(calls[..j], i);
    }
    if MetaFirst(calls, i) {
      var j :| 0 <= j < |calls| && Covers(calls[j], i) && calls[j].meta && Untouched(calls[..j], i);
      if j < k {
        assert calls[..k][..j] == calls[..j] && calls[..k][j] == calls[j];
      }
    }
    if Untouched(calls, i) { assert forall j :: 0 <= j < k ==> calls[..k][j] == calls[j]; }
    if Untouched(calls[..k], i) { assert forall j :: 0 <= j < k ==> calls[j] == calls[..k][j]; }
  }

  /** While no data call has come, a unit without references has one exactly if a call for metadata has. */
  lemma {:induction false} DataOrMeta(calls: seq<Call>, i: nat)
    ensures DataCalls(calls, i) == 0 && !MetaFirst(calls, i) ==> Untouched(calls, i)
  {
    if calls != [] {
      var k := |calls| - 1;
      DataOrMeta(calls[..k], i);
      MetaFirstNext(calls, i);
    }
  }

  /** What any calls leave in a unit: each data call adds a reference up to 8191, a call for metadata only takes a free
      unit, and what is added drops the node pointer. */
  lemma {:induction false} ReplaysAdd(u: seq<nat>, calls: seq<Call>, i: nat)
    requires i < |u|
    ensures var c, n := u[i] % 8192, Added(calls, i, u[i] % 8192);
      ReplayCalls(u, calls)[i] == if n == 0 || c == 8191 then u[i] else if c + n <= 8191 then c + n else 8191
  {
    hide MetaFirst, Untouched;
    if calls == [] {
      UntouchedNoData(calls, i);
    } else {
      var k := |calls| - 1;
      ReplaysAdd(u, calls[..k], i);
      MetaFirstNext(calls, i);
      if Untouched(calls[..k], i) { UntouchedNoData(calls[..k], i); }
      DataOrMeta(calls[..k], i);
    }
  }

  /** In particular: data only, metadata only, and neither. */
  lemma ReplaysOfOneKind(u: seq<nat>, calls: seq<Call>, i: nat)
    requires i < |u|
    ensures var c, n, r := u[i] % 8192, DataCalls(calls, i), ReplayCalls(u, calls)[i];
      && ((forall k :: 0 <= k < |calls| && Covers(calls[k], i) ==> !calls[k].meta) ==>
            r % 8192 == if c + n <= 8191 then c + n else 8191)
      && (n == 0 ==> r == if c == 0 && !Untouched(calls, i) then 1 else u[i])
      && (Untouched(calls, i) ==> r == u[i])
  {
    hide ReplayCalls, DataCalls;
    ReplaysAdd(u, calls, i);
    DataOrMeta(calls, i);
    if Untouched(calls, i) { UntouchedNoData(calls, i); }
  }

  /** Referencing an extent and then freeing it restores every unit, node pointers included. */
  lemma BumpDrop(u: seq<nat>, s: nat, count: nat)
    requires s + count <= |u| && forall k :: s <= k < s + count ==> 0 < Refs(u[k]) < MAX_REFS
    ensures DropUnits(BumpUnits(u, s, count), s, count) == u
  {
    forall k | s <= k < s + count ensures Dropped(u[k] + 1) == u[k] {
      assert Refs(u[k] + 1) == Refs(u[k]) + 1;
    }
  }

  // ---------- Counting ----------

  /** Units in use. */
  function Used(u: seq<nat>): (n: nat)
    ensures n <= |u|
  {
    if u == [] then 0 else Used(u[..|u| - 1]) + (if u[|u| - 1] == 0 then 0 else 1)
  }

  lemma {:induction false} UsedAfter(u: seq<nat>, i: nat, v: nat)
    requires i < |u|
    ensures Used(u[i := v]) == Used(u) - (if u[i] == 0 then 0 else 1) + (if v == 0 then 0 else 1)
  {
    if i < |u| - 1 {
      assert u[i := v][..|u| - 1] == u[..|u| - 1][i := v];
      UsedAfter(u[..|u| - 1], i, v);
    } else {
      assert u[i := v][..|u| - 1] == u[..|u| - 1];
    }
  }
}
