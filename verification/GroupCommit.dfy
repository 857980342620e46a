/** Group commit of index pages: two levels of pending counters decide when the pages of a subgroup are
    written and when their waiters are released (bdevmgr.h, subgroup_write_io, subgroup_end_bio).

    Each step runs under the subgroup write lock. Errors and page contents are not modelled. */
module GroupCommit {

  /** An index: writers that have started, waiters not yet handed over, and META_WRITE_PENDING. */
  datatype Ix = Ix(pending: nat, waiters: seq<nat>, writePending: bool)

  /** A submitted write: its pages, the waiters that travel with it, and the requests outstanding. */
  datatype Flight = Flight(pages: seq<nat>, waiters: seq<nat>, remain: nat)

  datatype View = View(pending: nat, waiters: seq<nat>, writeList: seq<nat>, idx: seq<Ix>, flights: seq<Flight>)

  function Fresh(indexes: nat): View { View(0, [], [], seq(indexes, i => Ix(0, [], false)), []) }

  // ---------- What each operation does ----------

  function InsertSorted(list: seq<nat>, i: nat): seq<nat>
  {
    if list == [] || list[0] > i then [i] + list else [list[0]] + InsertSorted(list[1..], i)
  }

  /** index_start_writes */
  function Start(v: View, i: nat, w: nat): View
    requires i < |v.idx|
  {
    v.(pending := v.pending + 1,
       idx := v.idx[i := v.idx[i].(pending := v.idx[i].pending + 1, waiters := [w] + v.idx[i].waiters)])
  }

  /** index_add_iowaiter: a waiter that rides with the next write of the index. */
  function Add(v: View, i: nat, w: nat): View
    requires i < |v.idx|
  {
    v.(idx := v.idx[i := v.idx[i].(waiters := [w] + v.idx[i].waiters)])
  }

  /** index_end_writes, up to the subgroup counter: the last writer queues the page and hands over the
      waiters. */
  function HandOver(v: View, i: nat): View
    requires i < |v.idx| && v.idx[i].pending > 0
  {
    var x := v.idx[i];
    if x.pending > 1 then v.(idx := v.idx[i := x.(pending := x.pending - 1)])
    else v.(writeList := if x.writePending then v.writeList else InsertSorted(v.writeList, i),
            idx := v.idx[i := Ix(0, [], true)], waiters := v.waiters + x.waiters)
  }

  /** subgroup_write_io: all queued pages in one write, in `bios` requests, with all waiters. */
  function WriteIo(v: View, bios: nat): View
  {
    v.(waiters := [], writeList := [],
       idx := seq(|v.idx|, i requires 0 <= i < |v.idx| => if i in v.writeList then v.idx[i].(writePending := false) else v.idx[i]),
       flights := v.flights + [if v.writeList == [] then Flight([], [], 0) else Flight(v.writeList, v.waiters, bios)])
  }

  function End(v: View, i: nat, bios: nat): View
    requires i < |v.idx| && v.idx[i].pending > 0 && v.pending > 0
  {
    var h := HandOver(v, i).(pending := v.pending - 1);
    if h.pending == 0 then WriteIo(h, bios) else h
  }

  /** subgroup_end_bio: the last request completes the waiters. */
  function EndBio(v: View, f: nat): View
    requires f < |v.flights| && v.flights[f].remain > 0
  {
    var x := v.flights[f];
    v.(flights := v.flights[f := if x.remain > 1 then x.(remain := x.remain - 1) else x.(remain := 0, waiters := [])])
  }

  // ---------- The subgroup as the code keeps it ----------

  class Subgroup {
    var pending: nat
    var waiters: seq<nat>
    var writeList: seq<nat>
    var idx: seq<Ix>
    var flights: seq<Flight>

    function Contents(): View
      reads this
    {
      View(pending, waiters, writeList, idx, flights)
    }

    constructor (indexes: nat)
      ensures Contents() == Fresh(indexes)
    {
      pending, waiters, writeList, flights := 0, [], [], [];
      idx := seq(indexes, i => Ix(0, [], false));
    }

    method StartWrites(i: nat, w: nat)
      requires i < |idx|
      modifies this
      ensures Contents() == Start(old(Contents()), i, w)
    {
      pending := pending + 1;
      var x := idx[i];
      x := x.(pending := x.pending + 1);
      x := x.(waiters := [w] + x.waiters);
      idx := idx[i := x];
    }

    method AddWaiter(i: nat, w: nat)
      requires i < |idx|
      modifies this
      ensures Contents() == Add(old(Contents()), i, w)
    {
      idx := idx[i := idx[i].(waiters := [w] + idx[i].waiters)];
    }

    /** subgroup_add_write_index: keep the queue in index order. */
    method AddWriteIndex(i: nat)
      requires i < |idx|
      modifies this
      ensures Contents() == old(Contents()).(
          writeList := if old(idx)[i].writePending then old(writeList) else InsertSorted(old(writeList), i),
          idx := old(idx)[i := old(idx)[i].(writePending := true)])
    {
      if idx[i].writePending {
        assert idx == idx[i := idx[i].(writePending := true)];
        return;
      }
      idx := idx[i := idx[i].(writePending := true)];
      var k := 0;
      while k < |writeList| && writeList[k] <= i
        invariant 0 <= k <= |writeList|
        invariant InsertSorted(writeList, i) == writeList[..k] + InsertSorted(writeList[k..], i)
      {
        assert writeList[k..][0] == writeList[k] && writeList[k..][1..] == writeList[k + 1..];
        assert writeList[..k] + ([writeList[k]] + InsertSorted(writeList[k + 1..], i))
            == writeList[..k + 1] + InsertSorted(writeList[k + 1..], i);
        k := k + 1;
      }
      assert writeList[..k] + ([i] + writeList[k..]) == writeList[..k] + [i] + writeList[k..];
      writeList := writeList[..k] + [i] + writeList[k..];
    }

    method SubmitWrites(bios: nat)
      requires forall j :: j in writeList ==> j < |idx|
      modifies this
      ensures Contents() == WriteIo(old(Contents()), bios)
    {
      var travelling := waiters;
      waiters := [];
      var pages := [];
      while writeList != []
        invariant pending == old(pending) && waiters == [] && flights == old(flights) && |idx| == |old(idx)|
        invariant pages + writeList == old(writeList)
        invariant forall i :: 0 <= i < |idx| ==> idx[i] == if i in pages then old(idx)[i].(writePending := false) else old(idx)[i]
        decreases |writeList|
      {
        var i := writeList[0];
        assert old(writeList)[|pages|] == i && i in old(writeList);
        writeList := writeList[1..];
        idx := idx[i := idx[i].(writePending := false)];
        pages := pages + [i];
      }
      assert pages == old(writeList);
      flights := flights + [if pages == [] then Flight([], [], 0) else Flight(pages, travelling, bios)];
    }

    method EndWrites(i: nat, bios: nat)
      requires i < |idx| && idx[i].pending > 0 && pending > 0
      requires forall j :: j in writeList ==> j < |idx|
      modifies this
      ensures Contents() == End(old(Contents()), i, bios)
    {
      hide InsertSorted, WriteIo;
      idx := idx[i := idx[i].(pending := idx[i].pending - 1)];
      if idx[i].pending == 0 {
        ghost var before := writeList;
        AddWriteIndex(i);
        InsertIn(before, i);
        var moved := idx[i].waiters;
        idx := idx[i := idx[i].(waiters := [])];
        waiters := waiters + moved;
        assert idx == old(idx)[i := Ix(0, [], true)];
      }
      pending := pending - 1;
      assert Contents() == HandOver(old(Contents()), i).(pending := old(pending) - 1);
      if pending == 0 { SubmitWrites(bios); }
    }

    method IoCompleted(f: nat)
      requires f < |flights| && flights[f].remain > 0
      modifies this
      ensures Contents() == EndBio(old(Contents()), f)
    {
      var x := flights[f];
      x := x.(remain := x.remain - 1);
      if x.remain == 0 { x := x.(waiters := []); }
      flights := flights[f := x];
    }
  }

  lemma {:induction false} InsertIn(list: seq<nat>, i: nat)
    ensures forall j :: j in InsertSorted(list, i) <==> j == i || j in list
  {
    if list != [] && list[0] <= i { InsertIn(list[1..], i); }
  }

  // ---------- Waiters over every run ----------

  /** Where a waiter is. */
  datatype Loc = AtIndex | AtSubgroup | InFlight(f: nat) | Done(f: nat)

  /** When and for which page a waiter registered, and whether through index_start_writes. */
  datatype Reg = Reg(index: nat, time: nat, started: bool)

  /** The subgroup with its history: registrations, places, and when each write was submitted. */
  datatype State = State(v: View, reg: map<nat, Reg>, loc: map<nat, Loc>, times: seq<nat>, clock: nat)

  datatype Op = OpStart(i: nat, w: nat) | OpAdd(i: nat, w: nat) | OpEnd(i: nat, bios: nat) | OpBio(f: nat)

  /** New waiters are new; an end follows a start; a write of pages takes at least one request. */
  predicate Enabled(s: State, op: Op)
  {
    match op
    case OpStart(i, w) => i < |s.v.idx| && w !in s.reg
    case OpAdd(i, w) => i < |s.v.idx| && w !in s.reg
    case OpEnd(i, bios) => i < |s.v.idx| && s.v.idx[i].pending > 0 && s.v.pending > 0 && bios > 0
    case OpBio(f) => f < |s.v.flights| && s.v.flights[f].remain > 0
  }

  function Register(s: State, v: View, i: nat, w: nat, started: bool): State
  {
    State(v, s.reg[w := Reg(i, s.clock, started)], s.loc[w := AtIndex], s.times, s.clock + 1)
  }

  /** The two halves of `End`: waiters of the index are handed over, then all of them take off. */
  function Hand(s: State, i: nat): State
    requires i < |s.v.idx| && s.v.idx[i].pending > 0 && s.v.pending > 0 && s.reg.Keys == s.loc.Keys
  {
    State(HandOver(s.v, i).(pending := s.v.pending - 1), s.reg,
          map w | w in s.loc ::
            if s.loc[w] == AtIndex && s.reg[w].index == i && s.v.idx[i].pending == 1 then AtSubgroup else s.loc[w],
          s.times, s.clock)
  }

  function Flush(s: State, bios: nat): State
  {
    State(WriteIo(s.v, bios), s.reg,
          map w | w in s.loc :: if s.loc[w] == AtSubgroup then InFlight(|s.v.flights|) else s.loc[w],
          s.times + [s.clock], s.clock)
  }

  function Landed(l: Loc, f: nat): Loc { if l == InFlight(f) then Done(f) else l }

  ghost function Step(s: State, op: Op): State
    requires Enabled(s, op) && s.reg.Keys == s.loc.Keys
  {
    match op
    case OpStart(i, w) => Register(s, Start(s.v, i, w), i, w, true)
    case OpAdd(i, w) => Register(s, Add(s.v, i, w), i, w, false)
    case OpEnd(i, bios) =>
      var h := Hand(s, i);
      (if h.v.pending == 0 then Flush(h, bios) else h).(clock := s.clock + 1)
    case OpBio(f) =>
      State(EndBio(s.v, f), s.reg,
            if s.v.flights[f].remain == 1 then map w | w in s.loc :: Landed(s.loc[w], f) else s.loc, s.times, s.clock + 1)
  }

  // ---------- The invariant ----------

  function Sum(idx: seq<Ix>): nat { if idx == [] then 0 else Sum(idx[..|idx| - 1]) + idx[|idx| - 1].pending }

  lemma {:induction false} SumAfter(idx: seq<Ix>, i: nat, x: Ix)
    requires i < |idx|
    ensures Sum(idx[i := x]) == Sum(idx) - idx[i].pending + x.pending && idx[i].pending <= Sum(idx)
  {
    if i < |idx| - 1 {
      assert idx[i := x][..|idx| - 1] == idx[..|idx| - 1][i := x];
      SumAfter(idx[..|idx| - 1], i, x);
    } else {
      assert idx[i := x][..|idx| - 1] == idx[..|idx| - 1];
    }
  }

  ghost predicate Distinct(list: seq<nat>) { forall i, j :: 0 <= i < j < |list| ==> list[i] != list[j] }

  /** `list` holds, once each, the waiters that are at `l` (for index lists: those of index `i`). */
  ghost predicate Holds(s: State, list: seq<nat>, l: Loc)
  {
    Distinct(list) && forall w :: w in list <==> w in s.loc && s.loc[w] == l
  }

  ghost predicate IndexHolds(s: State, i: nat)
    requires i < |s.v.idx| && s.reg.Keys == s.loc.Keys
  {
    && Distinct(s.v.idx[i].waiters)
    && forall w :: w in s.v.idx[i].waiters <==> w in s.loc && s.loc[w] == AtIndex && s.reg[w].index == i
  }

  /** Each waiter is in exactly one list, the one its place says. */
  ghost predicate Placed(s: State)
  {
    && s.reg.Keys == s.loc.Keys
    && (forall i :: 0 <= i < |s.v.idx| ==> IndexHolds(s, i))
    && Holds(s, s.v.waiters, AtSubgroup)
    && (forall f :: 0 <= f < |s.v.flights| ==> Holds(s, s.v.flights[f].waiters, InFlight(f)))
  }

  /** Nothing is left queued when the subgroup count is zero. */
  ghost predicate Flushed(s: State)
  {
    s.v.pending == 0 ==> s.v.waiters == [] && s.v.writeList == []
  }

  /** The subgroup count is the sum of the index counts; the queue is the pages marked pending, once each; a
      started waiter keeps its index pending until it is handed over. */
  ghost predicate Queued(s: State)
  {
    && s.v.pending == Sum(s.v.idx)
    && Distinct(s.v.writeList)
    && (forall i :: i in s.v.writeList <==> 0 <= i < |s.v.idx| && s.v.idx[i].writePending)
    && (forall w :: w in s.loc && w in s.reg && s.loc[w] == AtIndex ==>
          s.reg[w].index < |s.v.idx| && (s.reg[w].started ==> s.v.idx[s.reg[w].index].pending > 0))
  }

  /** A waiter past its index travels with a write of its page submitted after it registered, and is done
      only when that write is. */
  ghost predicate Written(s: State, w: nat)
    requires w in s.loc && w in s.reg && |s.times| == |s.v.flights|
  {
    match s.loc[w]
    case AtIndex => true
    case AtSubgroup => s.reg[w].index in s.v.writeList
    case InFlight(f) => f < |s.times| && s.reg[w].index in s.v.flights[f].pages && s.reg[w].time < s.times[f] && s.v.flights[f].remain > 0
    case Done(f) => f < |s.times| && s.reg[w].index in s.v.flights[f].pages && s.reg[w].time < s.times[f] && s.v.flights[f].remain == 0
  }

  ghost predicate AllWritten(s: State)
  {
    && |s.times| == |s.v.flights| && s.reg.Keys == s.loc.Keys
    && forall w :: w in s.loc ==> Written(s, w) && s.reg[w].time < s.clock
  }

  ghost predicate Inv(s: State) { s.reg.Keys == s.loc.Keys && Placed(s) && Queued(s) && AllWritten(s) && Flushed(s) }

  // ---------- Every step keeps it ----------

  lemma StartKeeps(s: State, i: nat, w: nat)
    requires Inv(s) && Enabled(s, OpStart(i, w))
    ensures Inv(Step(s, OpStart(i, w)))
  {
    hide Placed, AllWritten;
    var t := Step(s, OpStart(i, w));
    SumAfter(s.v.idx, i, t.v.idx[i]);
    RegisterKeeps(s, t, i, w);
  }

  lemma AddKeeps(s: State, i: nat, w: nat)
    requires Inv(s) && Enabled(s, OpAdd(i, w))
    ensures Inv(Step(s, OpAdd(i, w)))
  {
    hide Placed, AllWritten;
    var t := Step(s, OpAdd(i, w));
    SumAfter(s.v.idx, i, t.v.idx[i]);
    RegisterKeeps(s, t, i, w);
  }

  /** A new waiter at the head of an index list disturbs no other place. */
  lemma RegisterKeeps(s: State, t: State, i: nat, w: nat)
    requires Placed(s) && AllWritten(s) && i < |s.v.idx| && w !in s.reg
    requires exists started :: t == Register(s, t.v, i, w, started)
    requires t.v.waiters == s.v.waiters && t.v.flights == s.v.flights && t.v.writeList == s.v.writeList
    requires |t.v.idx| == |s.v.idx| && t.v.idx == s.v.idx[i := t.v.idx[i]] && t.v.idx[i].waiters == [w] + s.v.idx[i].waiters
    ensures Placed(t) && AllWritten(t)
  {
    forall k | 0 <= k < |t.v.idx| ensures IndexHolds(t, k) {
      assert IndexHolds(s, k);
    }
    forall f | 0 <= f < |t.v.flights| ensures Holds(t, t.v.flights[f].waiters, InFlight(f)) {
      assert Holds(s, s.v.flights[f].waiters, InFlight(f));
    }
    forall x | x in t.loc ensures Written(t, x) && t.reg[x].time < t.clock {
      if x != w { assert Written(s, x); }
    }
  }

  lemma HandQueued(s: State, i: nat)
    requires Queued(s) && s.reg.Keys == s.loc.Keys && i < |s.v.idx| && s.v.idx[i].pending > 0 && s.v.pending > 0
    ensures Queued(Hand(s, i))
  {
    var h := Hand(s, i);
    SumAfter(s.v.idx, i, h.v.idx[i]);
    InsertIn(s.v.writeList, i);
    if !s.v.idx[i].writePending { InsertDistinct(s.v.writeList, i); }
  }

  lemma {:induction false} InsertDistinct(list: seq<nat>, i: nat)
    requires Distinct(list) && i !in list
    ensures Distinct(InsertSorted(list, i))
  {
    if list != [] && list[0] <= i {
      InsertDistinct(list[1..], i);
      InsertIn(list[1..], i);
      DistinctAppend([list[0]], InsertSorted(list[1..], i));
    } else {
      DistinctAppend([i], list);
    }
  }

  lemma DistinctAppend(a: seq<nat>, b: seq<nat>)
    requires Distinct(a) && Distinct(b) && forall x :: x in a ==> x !in b
    ensures Distinct(a + b)
  {
    forall i, j | 0 <= i < j < |a + b| ensures (a + b)[i] != (a + b)[j] {
      if i < |a| <= j { assert a[i] in a && b[j - |a|] in b; }
    }
  }

  lemma HandPlaced(s: State, i: nat)
    requires Placed(s) && i < |s.v.idx| && s.v.idx[i].pending > 0 && s.v.pending > 0
    ensures Placed(Hand(s, i))
  {
    var h := Hand(s, i);
    assert IndexHolds(s, i) && Holds(s, s.v.waiters, AtSubgroup);
    DistinctAppend(s.v.waiters, s.v.idx[i].waiters);
    forall k | 0 <= k < |h.v.idx| ensures IndexHolds(h, k) { assert IndexHolds(s, k); }
    forall f | 0 <= f < |h.v.flights| ensures Holds(h, h.v.flights[f].waiters, InFlight(f)) {
      assert Holds(s, s.v.flights[f].waiters, InFlight(f));
    }
  }

  lemma HandWritten(s: State, i: nat)
    requires Placed(s) && Queued(s) && AllWritten(s) && i < |s.v.idx| && s.v.idx[i].pending > 0 && s.v.pending > 0
    ensures AllWritten(Hand(s, i))
  {
    var h := Hand(s, i);
    InsertIn(s.v.writeList, i);
    forall w | w in h.loc ensures Written(h, w) { assert Written(s, w); }
  }

  lemma FlushQueued(s: State, bios: nat)
    requires Queued(s)
    ensures Queued(Flush(s, bios))
  {
    SumSame(s.v.idx, Flush(s, bios).v.idx);
  }

  lemma {:induction false} SumSame(a: seq<Ix>, b: seq<Ix>)
    requires |a| == |b| && forall i :: 0 <= i < |a| ==> a[i].pending == b[i].pending
    ensures Sum(a) == Sum(b)
  {
    if a != [] { SumSame(a[..|a| - 1], b[..|b| - 1]); }
  }

  lemma FlushPlaced(s: State, bios: nat)
    requires Placed(s) && AllWritten(s)
    ensures Placed(Flush(s, bios))
  {
    var t := Flush(s, bios);
    assert Holds(s, s.v.waiters, AtSubgroup);
    forall k | 0 <= k < |t.v.idx| ensures IndexHolds(t, k) { assert IndexHolds(s, k); }
    assert s.v.writeList == [] ==> s.v.waiters == [] by {
      if s.v.waiters != [] { assert s.v.waiters[0] in s.v.waiters; }
    }
    forall f | 0 <= f < |t.v.flights| ensures Holds(t, t.v.flights[f].waiters, InFlight(f)) {
      if f < |s.v.flights| { assert Holds(s, s.v.flights[f].waiters, InFlight(f)); }
    }
  }

  lemma FlushWritten(s: State, bios: nat)
    requires AllWritten(s) && bios > 0
    ensures AllWritten(Flush(s, bios))
  {
    var t := Flush(s, bios);
    forall w | w in t.loc ensures Written(t, w) { assert Written(s, w); }
  }

  lemma EndKeeps(s: State, i: nat, bios: nat)
    requires Inv(s) && Enabled(s, OpEnd(i, bios))
    ensures Inv(Step(s, OpEnd(i, bios)))
  {
    hide Placed, Queued, AllWritten;
    var h, t := Hand(s, i), Step(s, OpEnd(i, bios));
    HandQueued(s, i);
    HandPlaced(s, i);
    HandWritten(s, i);
    if h.v.pending == 0 {
      FlushQueued(h, bios);
      FlushPlaced(h, bios);
      FlushWritten(h, bios);
      Later(Flush(h, bios), t);
    } else {
      Later(h, t);
    }
  }

  /** Only the clock moved on. */
  lemma Later(s: State, t: State)
    requires Placed(s) && Queued(s) && AllWritten(s) && t == s.(clock := t.clock) && s.clock <= t.clock
    ensures Placed(t) && Queued(t) && AllWritten(t)
  {
    forall i | 0 <= i < |t.v.idx| ensures IndexHolds(t, i) { assert IndexHolds(s, i); }
    forall f | 0 <= f < |t.v.flights| ensures Holds(t, t.v.flights[f].waiters, InFlight(f)) {
      assert Holds(s, s.v.flights[f].waiters, InFlight(f));
    }
    assert Holds(s, s.v.waiters, AtSubgroup);
    forall w | w in t.loc ensures Written(t, w) && t.reg[w].time < t.clock { assert Written(s, w); }
  }

  lemma BioPlaced(s: State, f: nat)
    requires Placed(s) && Enabled(s, OpBio(f))
    ensures Placed(Step(s, OpBio(f)))
  {
    var t := Step(s, OpBio(f));
    forall i | 0 <= i < |t.v.idx| ensures IndexHolds(t, i) { assert IndexHolds(s, i); }
    assert Holds(s, s.v.waiters, AtSubgroup);
    forall g | 0 <= g < |t.v.flights| ensures Holds(t, t.v.flights[g].waiters, InFlight(g)) {
      assert Holds(s, s.v.flights[g].waiters, InFlight(g));
    }
  }

  lemma BioWritten(s: State, f: nat)
    requires AllWritten(s) && Enabled(s, OpBio(f))
    ensures AllWritten(Step(s, OpBio(f)))
  {
    var t := Step(s, OpBio(f));
    forall w | w in t.loc ensures Written(t, w) && t.reg[w].time < t.clock { assert Written(s, w); }
  }

  lemma BioKeeps(s: State, f: nat)
    requires Inv(s) && Enabled(s, OpBio(f))
    ensures Inv(Step(s, OpBio(f)))
  {
    hide Placed, AllWritten;
    BioPlaced(s, f);
    BioWritten(s, f);
  }

  lemma StepKeeps(s: State, op: Op)
    requires Inv(s) && Enabled(s, op)
    ensures Inv(Step(s, op))
  {
    hide Inv, Step;
    assert s.reg.Keys == s.loc.Keys by { Known(s); }
    match op
    case OpStart(i, w) => StartKeeps(s, i, w);
    case OpAdd(i, w) => AddKeeps(s, i, w);
    case OpEnd(i, bios) => EndKeeps(s, i, bios);
    case OpBio(f) => BioKeeps(s, f);
  }

  lemma Known(s: State)
    requires Inv(s)
    ensures s.reg.Keys == s.loc.Keys
  {
  }

  /** A step leaves the lists and counters as the method of the class does. */
  lemma StepView(s: State, op: Op)
    requires s.reg.Keys == s.loc.Keys && Enabled(s, op)
    ensures Step(s, op).v == match op
      case OpStart(i, w) => Start(s.v, i, w)
      case OpAdd(i, w) => Add(s.v, i, w)
      case OpEnd(i, bios) => End(s.v, i, bios)
      case OpBio(f) => EndBio(s.v, f)
  {
  }

  ghost predicate Run(states: seq<State>, ops: seq<Op>, indexes: nat)
  {
    && |states| == |ops| + 1 && states[0] == State(Fresh(indexes), map[], map[], [], 0)
    && forall k :: 0 <= k < |ops| ==>
         && states[k].reg.Keys == states[k].loc.Keys && Enabled(states[k], ops[k]) && states[k + 1] == Step(states[k], ops[k])
  }

  lemma {:induction false} RunInv(states: seq<State>, ops: seq<Op>, indexes: nat, k: nat)
    requires Run(states, ops, indexes) && k < |states|
    ensures Inv(states[k])
  {
    if k > 0 {
      RunInv(states, ops, indexes, k - 1);
      StepKeeps(states[k - 1], ops[k - 1]);
    } else {
      NoWriters(indexes);
    }
  }

  lemma {:induction false} NoWriters(n: nat)
    ensures Sum(seq(n, i => Ix(0, [], false))) == 0
  {
    if n > 0 {
      assert seq(n, i => Ix(0, [], false))[..n - 1] == seq(n - 1, i => Ix(0, [], false));
      NoWriters(n - 1);
    }
  }

  /** In every interleaving: each waiter is in exactly the list its place says; the subgroup count is the sum
      of its index counts; a waiter is done only once
      a write of its page, submitted after it registered, has finished; and when the count is zero no
      started waiter is left unsubmitted. */
  lemma GroupCommitSafe(states: seq<State>, ops: seq<Op>, indexes: nat, k: nat)
    requires Run(states, ops, indexes) && k < |states|
    ensures var s := states[k];
      && s.reg.Keys == s.loc.Keys && |s.times| == |s.v.flights|
      && Placed(s) && s.v.pending == Sum(s.v.idx)
      && (forall w :: w in s.loc && s.loc[w].Done? ==>
            var f := s.loc[w].f;
            f < |s.times| && s.reg[w].index in s.v.flights[f].pages && s.reg[w].time < s.times[f] && s.v.flights[f].remain == 0)
      && (s.v.pending == 0 ==> forall w :: w in s.loc && s.reg[w].started ==> s.loc[w].InFlight? || s.loc[w].Done?)
  {
    RunInv(states, ops, indexes, k);
    var s := states[k];
    assert forall w :: w in s.loc ==> Written(s, w);
    if s.v.pending == 0 {
      assert Holds(s, s.v.waiters, AtSubgroup);
      forall w | w in s.loc && s.reg[w].started ensures s.loc[w].InFlight? || s.loc[w].Done? {
        if s.loc[w] == AtIndex {
          SumAfter(s.v.idx, s.reg[w].index, s.v.idx[s.reg[w].index]);
        }
      }
    }
  }

  /** In every state of every run, a new waiter can start or ride along on any index, a writer that has started can end, and
      a request that is outstanding can be completed. */
  lemma CallsEnabled(states: seq<State>, ops: seq<Op>, indexes: nat, k: nat)
    requires Run(states, ops, indexes) && k < |states|
    ensures var s := states[k];
      && |s.v.idx| == indexes
      && (forall i, w :: 0 <= i < indexes && w !in s.reg ==> Enabled(s, OpStart(i, w)) && Enabled(s, OpAdd(i, w)))
      && (forall i, bios :: 0 <= i < indexes && s.v.idx[i].pending > 0 && bios > 0 ==> Enabled(s, OpEnd(i, bios)))
      && (forall f :: 0 <= f < |s.v.flights| && s.v.flights[f].remain > 0 ==> Enabled(s, OpBio(f)))
  {
    hide Placed, AllWritten, Step;
    var s := states[k];
    RunInv(states, ops, indexes, k);
    RunSize(states, ops, indexes, k);
    forall i | 0 <= i < indexes && s.v.idx[i].pending > 0 ensures s.v.pending > 0 {
      SumAfter(s.v.idx, i, s.v.idx[i]);
    }
  }

  // ---------- When a write is submitted, and of which pages ----------

  predicate Grew(states: seq<State>, k: nat)
    requires k + 1 < |states|
  {
    |states[k + 1].v.flights| > |states[k].v.flights|
  }

  predicate NoWriter(idx: seq<Ix>) { forall i :: 0 <= i < |idx| ==> idx[i].pending == 0 }

  lemma {:induction false} SumZero(idx: seq<Ix>, i: nat)
    requires Sum(idx) == 0 && i < |idx|
    ensures idx[i].pending == 0
  {
    if i < |idx| - 1 { SumZero(idx[..|idx| - 1], i); }
  }

  lemma {:induction false} RunSize(states: seq<State>, ops: seq<Op>, indexes: nat, k: nat)
    requires Run(states, ops, indexes) && k < |states|
    ensures |states[k].v.idx| == indexes
  {
    if k > 0 {
      RunSize(states, ops, indexes, k - 1);
      StepView(states[k - 1], ops[k - 1]);
    }
  }

  lemma EndView(v: View, i: nat, bios: nat)
    requires i < |v.idx| && v.idx[i].pending > 0 && v.pending > 0
    ensures var t, h := End(v, i, bios), HandOver(v, i);
      if v.pending == 1 then |t.flights| == |v.flights| + 1 && t.pending == 0 && t.writeList == [] && t == WriteIo(h.(pending := 0), bios)
      else t.flights == v.flights && t.writeList == h.writeList && t.idx == h.idx
  {
    hide InsertSorted;
  }

  /** A write is submitted at an end, of the last writer of the subgroup, and only then; so no page in it has a writer. */
  lemma SubmitIff(states: seq<State>, ops: seq<Op>, indexes: nat, k: nat)
    requires Run(states, ops, indexes) && k < |ops|
    ensures Grew(states, k) <==> ops[k].OpEnd? && Sum(states[k].v.idx) == 1
    ensures Grew(states, k) ==>
      && |states[k + 1].v.flights| == |states[k].v.flights| + 1 && states[k + 1].v.writeList == [] && NoWriter(states[k + 1].v.idx)
    ensures !Grew(states, k) ==> |states[k + 1].v.flights| == |states[k].v.flights|
  {
    hide Sum, End, HandOver, Placed, AllWritten, Step;
    var s, t, op := states[k], states[k + 1], ops[k];
    RunInv(states, ops, indexes, k);
    RunInv(states, ops, indexes, k + 1);
    StepView(s, op);
    if op.OpEnd? {
      EndView(s.v, op.i, op.bios);
      if s.v.pending == 1 {
        forall i | 0 <= i < |t.v.idx| ensures t.v.idx[i].pending == 0 { SumZero(t.v.idx, i); }
      }
    }
  }

  /** The step behind the last submission before k. */
  function LastSubmit(states: seq<State>, k: nat): (j: nat)
    requires k < |states|
    ensures j <= k
  {
    if k == 0 then 0 else if Grew(states, k - 1) then k else LastSubmit(states, k - 1)
  }

  /** Index i got a writer in steps from .. k. */
  predicate Started(ops: seq<Op>, from: nat, k: nat, i: nat)
    requires from <= k <= |ops|
  {
    exists m :: from <= m < k && ops[m].OpStart? && ops[m].i == i
  }

  /** The pages of exactly the indexes that did. */
  ghost predicate AllStarted(pages: seq<nat>, indexes: nat, ops: seq<Op>, from: nat, k: nat)
    requires from <= k <= |ops|
  {
    forall i: nat :: i in pages <==> i < indexes && Started(ops, from, k, i)
  }

  lemma StartedMore(ops: seq<Op>, from: nat, k: nat, i: nat)
    requires from < k <= |ops|
    ensures Started(ops, from, k, i) <==> Started(ops, from, k - 1, i) || (ops[k - 1].OpStart? && ops[k - 1].i == i)
  {
  }

  /** Index i has a writer, or its page is queued. */
  predicate Active(v: View, i: nat)
    requires i < |v.idx|
  {
    i in v.writeList || v.idx[i].pending > 0
  }

  lemma HandActive(v: View, j: nat, i: nat)
    requires i < |v.idx| && j < |v.idx| && v.idx[j].pending > 0 && (v.idx[j].writePending ==> j in v.writeList)
    ensures |HandOver(v, j).idx| == |v.idx| && (Active(HandOver(v, j), i) <==> Active(v, i))
  {
    hide InsertSorted;
    InsertIn(v.writeList, j);
  }

  /** An index is active exactly if it got a writer since the last submission. */
  lemma {:induction false} ActiveIff(states: seq<State>, ops: seq<Op>, indexes: nat, k: nat, i: nat)
    requires Run(states, ops, indexes) && k < |states| && i < indexes
    ensures i < |states[k].v.idx| && (Active(states[k].v, i) <==> Started(ops, LastSubmit(states, k), k, i))
  {
    hide Sum, End, HandOver, Step, Inv, Started;
    RunSize(states, ops, indexes, k);
    if k == 0 {
      NotStarted(ops, 0, i);
    } else {
      var s, t, op := states[k - 1], states[k], ops[k - 1];
      ActiveIff(states, ops, indexes, k - 1, i);
      SubmitIff(states, ops, indexes, k - 1);
      StepView(s, op);
      if Grew(states, k - 1) {
        NotStarted(ops, k, i);
      } else {
        StartedMore(ops, LastSubmit(states, k - 1), k, i);
        if op.OpEnd? {
          EndView(s.v, op.i, op.bios);
          RunInv(states, ops, indexes, k - 1);
          if s.v.idx[op.i].writePending { QueuedPage(s, op.i); }
          HandActive(s.v, op.i, i);
        }
      }
    }
  }

  lemma QueuedPage(s: State, i: nat)
    requires Inv(s) && i < |s.v.idx| && s.v.idx[i].writePending
    ensures i in s.v.writeList
  {
  }

  lemma NotStarted(ops: seq<Op>, k: nat, i: nat)
    requires k <= |ops|
    ensures !Started(ops, k, k, i)
  {
  }

  /** A write takes exactly the pages whose indexes got a writer since the write before, each once, in index order, in as many
      requests as were asked for. */
  lemma SubmittedPages(states: seq<State>, ops: seq<Op>, indexes: nat, k: nat)
    requires Run(states, ops, indexes) && k < |ops| && Grew(states, k)
    ensures var f := states[k + 1].v.flights;
      && |f| == |states[k].v.flights| + 1 && ops[k].OpEnd?
      && AllStarted(f[|f| - 1].pages, indexes, ops, LastSubmit(states, k), k)
      && Ascending(f[|f| - 1].pages) && f[|f| - 1].remain == ops[k].bios
  {
    hide Sum, End, HandOver, Step, Inv, Started, Active, Ascending, WriteIo;
    var s, op := states[k], ops[k];
    SubmitIff(states, ops, indexes, k);
    StepView(s, op);
    RunInv(states, ops, indexes, k);
    RunSize(states, ops, indexes, k);
    LastWriter(s, op.i, op.bios);
    RunAscending(states, ops, indexes, k);
    HandAscending(s, op.i);
    var f := states[k + 1].v.flights;
    var pages := f[|f| - 1].pages;
    forall i: nat ensures i in pages <==> i < indexes && Started(ops, LastSubmit(states, k), k, i) {
      PagesAre(s, op.i, i);
      if i < indexes { ActiveIff(states, ops, indexes, k, i); }
    }
    assert AllStarted(pages, indexes, ops, LastSubmit(states, k), k);
  }

  /** The end of the last writer submits every active index. */
  lemma LastWriter(s: State, j: nat, bios: nat)
    requires Inv(s) && j < |s.v.idx| && s.v.idx[j].pending > 0 && Sum(s.v.idx) == 1
    ensures s.v.pending == 1
    ensures var f := End(s.v, j, bios).flights;
      |f| == |s.v.flights| + 1 && f[|f| - 1].pages == HandOver(s.v, j).writeList && f[|f| - 1].remain == bios
  {
    hide InsertSorted, Placed, AllWritten;
    var v := s.v;
    SumAfter(v.idx, j, v.idx[j].(pending := 0));
    InsertIn(v.writeList, j);
    EndView(v, j, bios);
    assert j in HandOver(v, j).writeList;
  }

  lemma PagesAre(s: State, j: nat, i: nat)
    requires Inv(s) && j < |s.v.idx| && s.v.idx[j].pending > 0 && Sum(s.v.idx) == 1
    ensures i in HandOver(s.v, j).writeList <==> i < |s.v.idx| && Active(s.v, i)
  {
    hide InsertSorted, Placed, AllWritten;
    var v := s.v;
    SumAfter(v.idx, j, v.idx[j].(pending := 0));
    InsertIn(v.writeList, j);
    if i < |v.idx| && i != j { SumZero(v.idx[j := v.idx[j].(pending := 0)], i); }
  }

  ghost predicate Ascending(list: seq<nat>) { forall i, j :: 0 <= i < j < |list| ==> list[i] < list[j] }

  lemma {:induction false} InsertAscending(list: seq<nat>, i: nat)
    requires Ascending(list) && i !in list
    ensures Ascending(InsertSorted(list, i))
  {
    if list != [] && list[0] <= i {
      InsertAscending(list[1..], i);
      InsertIn(list[1..], i);
      var r := InsertSorted(list[1..], i);
      forall j | 0 <= j < |r| ensures list[0] < r[j] { assert r[j] in r; }
    }
  }

  lemma HandAscending(s: State, i: nat)
    requires Queued(s) && Ascending(s.v.writeList) && i < |s.v.idx| && s.v.idx[i].pending > 0
    ensures Ascending(HandOver(s.v, i).writeList)
  {
    hide InsertSorted, Ascending;
    if !s.v.idx[i].writePending { InsertAscending(s.v.writeList, i); }
  }

  lemma {:induction false} RunAscending(states: seq<State>, ops: seq<Op>, indexes: nat, k: nat)
    requires Run(states, ops, indexes) && k < |states|
    ensures Ascending(states[k].v.writeList)
  {
    hide End, HandOver, Step, Placed, AllWritten;
    if k > 0 {
      var s, op := states[k - 1], ops[k - 1];
      RunAscending(states, ops, indexes, k - 1);
      RunInv(states, ops, indexes, k - 1);
      StepView(s, op);
      if op.OpEnd? {
        EndView(s.v, op.i, op.bios);
        HandAscending(s, op.i);
      }
    }
  }

  /** A page is queued, and the waiters of its index leave it, when the last writer of the index ends, and only then. */
  lemma QueuedIff(states: seq<State>, ops: seq<Op>, indexes: nat, k: nat, i: nat)
    requires Run(states, ops, indexes) && k < |ops| && i < |states[k].v.idx|
    ensures var s, t := states[k].v, states[k + 1].v;
      var last := ops[k].OpEnd? && ops[k].i == i && s.idx[i].pending == 1;
      && (!Grew(states, k) ==> (i in t.writeList <==> i in s.writeList || last))
      && (Grew(states, k) ==> t.writeList == [] && |t.flights| > 0 && (i in t.flights[|t.flights| - 1].pages <==> i in s.writeList || last))
  {
    hide Sum, End, Step, Placed, AllWritten, InsertSorted;
    var s, op := states[k], ops[k];
    RunInv(states, ops, indexes, k);
    StepView(s, op);
    SubmitIff(states, ops, indexes, k);
    if op.OpEnd? {
      EndView(s.v, op.i, op.bios);
      InsertIn(s.v.writeList, op.i);
      if Grew(states, k) { LastWriter(s, op.i, op.bios); }
    }
  }

  lemma HandedOver(states: seq<State>, ops: seq<Op>, indexes: nat, k: nat, w: nat)
    requires Run(states, ops, indexes) && k < |ops| && w in states[k].loc && states[k].loc[w] == AtIndex
    ensures var s, t := states[k], states[k + 1];
      && w in s.reg && s.reg[w].index < |s.v.idx| && w in t.loc
      && (t.loc[w] != AtIndex <==> ops[k].OpEnd? && ops[k].i == s.reg[w].index && s.v.idx[ops[k].i].pending == 1)
      && (t.loc[w] != AtIndex ==> t.loc[w] == if Sum(s.v.idx) == 1 then InFlight(|s.v.flights|) else AtSubgroup)
  {
    hide Sum, AllWritten, Placed, InsertSorted, WriteIo;
    RunInv(states, ops, indexes, k);
  }

  // ---------- Every request of a write ----------

  /** Completions of write f in steps from .. k. */
  function Bios(ops: seq<Op>, from: nat, k: nat, f: nat): nat
    requires from <= k <= |ops|
  {
    if k == from then 0 else Bios(ops, from, k - 1, f) + if ops[k - 1] == OpBio(f) then 1 else 0
  }

  /** A write keeps its pages, and is finished when each of its requests has been completed. */
  lemma {:induction false} RequestsLeft(states: seq<State>, ops: seq<Op>, indexes: nat, m: nat, k: nat)
    requires Run(states, ops, indexes) && m < k < |states| && Grew(states, m)
    ensures var f := |states[m].v.flights|;
      && ops[m].OpEnd? && f < |states[k].v.flights| && f < |states[m + 1].v.flights|
      && states[k].v.flights[f].pages == states[m + 1].v.flights[f].pages
      && states[k].v.flights[f].remain + Bios(ops, m + 1, k, f) == ops[m].bios
    decreases k
  {
    hide Sum, End, HandOver, Step, Inv, Started, Ascending;
    if k == m + 1 {
      SubmittedPages(states, ops, indexes, m);
    } else {
      RequestsLeft(states, ops, indexes, m, k - 1);
      SubmitIff(states, ops, indexes, k - 1);
      StepView(states[k - 1], ops[k - 1]);
      if ops[k - 1].OpEnd? { OldFlights(states[k - 1].v, ops[k - 1].i, ops[k - 1].bios); }
    }
  }

  lemma OldFlights(v: View, i: nat, bios: nat)
    requires i < |v.idx| && v.idx[i].pending > 0 && v.pending > 0
    ensures v.flights <= End(v, i, bios).flights
  {
    hide InsertSorted;
  }
}
