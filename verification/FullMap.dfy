/** The "index full" bitmap of an index group, with the free-index counters of the group and of its
    subgroups (bint_mark_index_full, bint_unmark_index_full, bint_check_if_index_full). */
module FullMap {

  const SUBGROUP_INDEXES := 512

  /** Clear bits among `full[lo..hi]`. */
  function Clear(full: seq<bool>, lo: nat, hi: nat): (n: nat)
    requires lo <= hi <= |full|
    ensures n <= hi - lo
    decreases hi
  {
    if lo == hi then 0 else Clear(full, lo, hi - 1) + (if full[hi - 1] then 0 else 1)
  }

  /** Setting or clearing one bit moves the count by one exactly when the bit is in range and changes. */
  lemma {:induction false} ClearAfter(full: seq<bool>, i: nat, b: bool, lo: nat, hi: nat)
    requires lo <= hi <= |full| && i < |full|
    ensures Clear(full[i := b], lo, hi) == Clear(full, lo, hi)
         + (if lo <= i < hi && full[i] != b then (if b then -1 else 1) else 0)
    decreases hi
  {
    if lo < hi { ClearAfter(full, i, b, lo, hi - 1); }
  }

  /** The indexes of subgroup `s` among `n`: the last subgroup may hold fewer than the others. */
  function First(s: nat): nat { SUBGROUP_INDEXES * s }
  function End(s: nat, n: nat): nat { if First(s) + SUBGROUP_INDEXES <= n then First(s) + SUBGROUP_INDEXES else n }

  predicate Shape(n: nat, subgroups: nat)
  {
    SUBGROUP_INDEXES * subgroups - SUBGROUP_INDEXES < n <= SUBGROUP_INDEXES * subgroups
  }

  class Group {
    var full: seq<bool>
    var subgroupFree: seq<int>
    var groupFree: int

    /** The counters count the clear bits of their ranges. */
    ghost predicate Valid()
      reads this
    {
      && Shape(|full|, |subgroupFree|)
      && groupFree == Clear(full, 0, |full|)
      && forall s :: 0 <= s < |subgroupFree| ==>
           subgroupFree[s] == Clear(full, First(s), End(s, |full|))
    }

    /** bint_check_if_index_full. */
    predicate IsFull(id: nat)
      requires id < |full|
      reads this
    {
      full[id]
    }

    /** A new group: a zeroed bitmap, every index of every subgroup counted as free. */
    constructor (n: nat, subgroups: nat)
      requires Shape(n, subgroups)
      ensures Valid() && |full| == n && forall id :: 0 <= id < |full| ==> !full[id]
    {
      full := seq(n, i => false);
      subgroupFree := seq(subgroups, s requires 0 <= s < subgroups => End(s, n) - First(s));
      groupFree := n;
      new;
      AllClear(full, 0, |full|);
      forall s | 0 <= s < |subgroupFree|
        ensures Clear(full, First(s), End(s, n)) == End(s, n) - First(s)
      {
        AllClear(full, First(s), End(s, n));
      }
    }

    /** A group read from disk: whatever bitmap was found, the counters are those of its clear bits. */
    constructor Load(bitmap: seq<bool>, subgroups: nat)
      requires Shape(|bitmap|, subgroups)
      ensures Valid() && full == bitmap
    {
      hide Clear;
      full := bitmap;
      subgroupFree := seq(subgroups, s => 0);
      groupFree := 0;
      new;
      var s := 0;
      NoRange(full);
      while s < subgroups
        invariant 0 <= s <= subgroups == |subgroupFree| && full == bitmap
        invariant groupFree == Clear(full, 0, if First(s) <= |full| then First(s) else |full|)
        invariant forall t :: 0 <= t < s ==> subgroupFree[t] == Clear(full, First(t), End(t, |full|))
        invariant forall t :: s <= t < subgroups ==> subgroupFree[t] == 0
      {
        SubgroupLoadInit(s);
        TwoRanges(full, First(s), End(s, |full|));
        s := s + 1;
      }
    }

    /** bint_subgroup_load_init: count the indexes of one subgroup that are not full, there and in the group. */
    method SubgroupLoadInit(s: nat)
      requires s < |subgroupFree| && Shape(|full|, |subgroupFree|)
      modifies this`subgroupFree, this`groupFree
      ensures subgroupFree == old(subgroupFree)[s := old(subgroupFree[s]) + Clear(full, First(s), End(s, |full|))]
      ensures groupFree == old(groupFree) + Clear(full, First(s), End(s, |full|))
    {
      var i := First(s);
      while i < End(s, |full|)
        invariant First(s) <= i <= End(s, |full|)
        invariant subgroupFree == old(subgroupFree)[s := old(subgroupFree[s]) + Clear(full, First(s), i)]
        invariant groupFree == old(groupFree) + Clear(full, First(s), i)
      {
        if !IsFull(i) {
          subgroupFree := subgroupFree[s := subgroupFree[s] + 1];
          groupFree := groupFree + 1;
        }
        i := i + 1;
      }
    }

    method Mark(id: nat)
      requires Valid() && id < |full|
      modifies this
      ensures Valid() && full == old(full)[id := true] && |subgroupFree| == |old(subgroupFree)|
      ensures if old(full)[id] then subgroupFree == old(subgroupFree) && groupFree == old(groupFree)
        else subgroupFree == old(subgroupFree)[id / 512 := old(subgroupFree)[id / 512] - 1] && groupFree == old(groupFree) - 1
    {
      if full[id] { return; }
      CountersAfter(full, id, true, |subgroupFree|);
      full := full[id := true];
      subgroupFree := subgroupFree[id / SUBGROUP_INDEXES := subgroupFree[id / SUBGROUP_INDEXES] - 1];
      groupFree := groupFree - 1;
    }

    method Unmark(id: nat)
      requires Valid() && id < |full|
      modifies this
      ensures Valid() && full == old(full)[id := false] && |subgroupFree| == |old(subgroupFree)|
      ensures if !old(full)[id] then subgroupFree == old(subgroupFree) && groupFree == old(groupFree)
        else subgroupFree == old(subgroupFree)[id / 512 := old(subgroupFree)[id / 512] + 1] && groupFree == old(groupFree) + 1
    {
      if !full[id] { return; }
      CountersAfter(full, id, false, |subgroupFree|);
      full := full[id := false];
      subgroupFree := subgroupFree[id / SUBGROUP_INDEXES := subgroupFree[id / SUBGROUP_INDEXES] + 1];
      groupFree := groupFree + 1;
    }
  }

  lemma {:induction false} AllClear(full: seq<bool>, lo: nat, hi: nat)
    requires lo <= hi <= |full| && forall i :: lo <= i < hi ==> !full[i]
    ensures Clear(full, lo, hi) == hi - lo
    decreases hi
  {
    if lo < hi { AllClear(full, lo, hi - 1); }
  }

  lemma CountersAfter(full: seq<bool>, id: nat, b: bool, subgroups: nat)
    requires Shape(|full|, subgroups) && id < |full| && full[id] != b
    ensures var d := if b then -1 else 1;
      && Clear(full[id := b], 0, |full|) == Clear(full, 0, |full|) + d
      && forall s :: 0 <= s < subgroups ==>
           Clear(full[id := b], First(s), End(s, |full|))
           == Clear(full, First(s), End(s, |full|))
            + (if s == id / SUBGROUP_INDEXES then d else 0)
  {
    ClearAfter(full, id, b, 0, |full|);
    forall s | 0 <= s < subgroups
      ensures Clear(full[id := b], First(s), End(s, |full|))
           == Clear(full, First(s), End(s, |full|))
            + (if s == id / SUBGROUP_INDEXES then (if b then -1 else 1) else 0)
    {
      ClearAfter(full, id, b, First(s), End(s, |full|));
    }
  }

  lemma NoRange(full: seq<bool>)
    ensures Clear(full, 0, 0) == 0
  {
  }

  lemma {:induction false} TwoRanges(full: seq<bool>, lo: nat, hi: nat)
    requires lo <= hi <= |full|
    ensures Clear(full, 0, hi) == Clear(full, 0, lo) + Clear(full, lo, hi)
    decreases hi
  {
    if lo < hi { TwoRanges(full, lo, hi - 1); }
  }
}
