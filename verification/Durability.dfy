/** A page of an address map and the write log together, over every run: whenever the machine stops, the stored page and
    the log that is left give back what the page held in memory. */
module Durability {
  import opened CrashRecovery
  import opened LogReplay
  import opened WriteIds
  import opened PagePipeline

  /** An entry in the log. Those of the page (`mine`) belong to a batch; `open` until their transaction is finished. */
  datatype Item = Item(rec: Rec, batch: nat, mine: bool, open: bool)

  /** The history of the page, whose last batch is still being filled; the version that is stored; the log. */
  datatype State = State(h: History, stored: nat, log: seq<Item>)

  /** The version in memory, whose batch is being filled. */
  function Current(s: State): nat
    requires s.h.batches != []
  {
    |s.h.batches| - 1
  }

  datatype Op =
    | Update(rec: Rec)          // a block of the page is changed and logged with the page's id
    | Other(rec: Rec)           // an entry of another page, or about map pages
    | Store(incr: nat)          // the page is submitted, under an advanced id
    | Landed(version: nat)      // a submitted version has reached the device
    | Finish(i: nat)            // the transaction of an entry is finished
    | Reuse(k: nat)             // the oldest entries go, with the log pages that held them

  /** What the source keeps to: a transaction is finished only when the change is stored, and log pages are reused only
      without pending transactions. */
  predicate Enabled(env: Env, key: Key, s: State, op: Op)
    requires Valid(s.h) && s.h.batches != []
  {
    match op
    case Update(r) => r.amapId == LogId(s.h, Current(s)) && ChangeOf(env, r, key) == [Change(r.lba, r.block, r.amapId)]
    case Other(r) => ChangeOf(env, r, key) == []
    case Store(incr) => 0 < incr < WINDOW
    case Landed(v) => s.stored <= v <= Current(s)
    case Finish(i) => i < |s.log| && (s.log[i].mine ==> s.log[i].batch < s.stored)
    case Reuse(k) => k <= |s.log| && forall i :: 0 <= i < k ==> !s.log[i].open
  }

  function Step(env: Env, key: Key, s: State, op: Op): State
    requires Valid(s.h) && s.h.batches != [] && Enabled(env, key, s, op)
  {
    var c := Current(s);
    match op
    case Update(r) =>
      s.(h := s.h.(batches := s.h.batches[c := s.h.batches[c] + [(r.lba, r.block)]]), log := s.log + [Item(r, c, true, true)])
    case Other(r) => s.(log := s.log + [Item(r, 0, false, true)])
    case Store(incr) => s.(h := s.h.(incrs := s.h.incrs[c := incr] + [1], batches := s.h.batches + [[]]))
    case Landed(v) => s.(stored := v)
    case Finish(i) => s.(log := s.log[i := s.log[i].(open := false)])
    case Reuse(k) => s.(log := s.log[k..])
  }

  // ---------- What the log holds of the page ----------

  datatype Tag = Tag(change: Change, batch: nat)

  function TagsOf(batch: seq<(nat, nat)>, id: nat, v: nat): seq<Tag> {
    seq(|batch|, i requires 0 <= i < |batch| => Tag(Change(batch[i].0, batch[i].1, id), v))
  }

  /** Everything that was ever logged of the page, in the first n batches. */
  function Full(h: History, n: nat): seq<Tag>
    requires Valid(h) && n <= |h.batches|
  {
    if n == 0 then [] else Full(h, n - 1) + TagsOf(h.batches[n - 1], LogId(h, n - 1), n - 1)
  }

  function TagOf(x: Item): seq<Tag> {
    if x.mine then [Tag(Change(x.rec.lba, x.rec.block, x.rec.amapId), x.batch)] else []
  }

  function MineOf(log: seq<Item>): seq<Tag> {
    if log == [] then [] else MineOf(log[..|log| - 1]) + TagOf(log[|log| - 1])
  }

  function Strip(tags: seq<Tag>): seq<Change> { seq(|tags|, i requires 0 <= i < |tags| => tags[i].change) }

  function RecsOf(log: seq<Item>): seq<Rec> { seq(|log|, i requires 0 <= i < |log| => log[i].rec) }

  predicate Sound(env: Env, key: Key, x: Item) { ChangeOf(env, x.rec, key) == Strip(TagOf(x)) }

  /** The log is a late part of everything logged, and has every entry that is not stored, pending. */
  ghost predicate Inv(env: Env, key: Key, s: State) {
    && Valid(s.h) && s.h.batches != [] && s.stored <= Current(s)
    && (forall i :: 0 <= i < |s.log| ==> Sound(env, key, s.log[i]))
    && (forall i :: 0 <= i < |s.log| && s.log[i].mine && s.log[i].batch >= s.stored ==> s.log[i].open)
    && Late(Full(s.h, |s.h.batches|), MineOf(s.log), |Full(s.h, s.stored)|)
  }

  /** `tags` is `full` without at most its first `most` elements. */
  ghost predicate Late(full: seq<Tag>, tags: seq<Tag>, most: nat) {
    |tags| <= |full| && |full| - |tags| <= most && tags == full[|full| - |tags|..]
  }

  // ---------- Every step keeps it ----------

  lemma {:induction false} MineAppend(a: seq<Item>, b: seq<Item>)
    ensures MineOf(a + b) == MineOf(a) + MineOf(b)
  {
    if b == [] {
      assert a + b == a;
    } else {
      assert (a + b)[..|a + b| - 1] == a + b[..|b| - 1];
      MineAppend(a, b[..|b| - 1]);
    }
  }

  lemma MineOne(x: Item)
    ensures MineOf([x]) == TagOf(x)
  {
    assert [x][..0] == [];
  }

  lemma {:induction false} MineSame(a: seq<Item>, b: seq<Item>)
    requires |a| == |b| && forall i :: 0 <= i < |a| ==> TagOf(a[i]) == TagOf(b[i])
    ensures MineOf(a) == MineOf(b)
  {
    hide TagOf;
    if a != [] { MineSame(a[..|a| - 1], b[..|b| - 1]); }
  }

  /** A history that goes on has logged what it had. */
  lemma {:induction false} FullSame(h: History, h': History, n: nat)
    requires Valid(h) && Valid(h') && n <= |h.batches| && n <= |h'.batches|
    requires h.v2 == h'.v2 && h.first == h'.first
    requires h.batches[..n] == h'.batches[..n] && forall v :: 0 <= v < n ==> h.incrs[..v] == h'.incrs[..v]
    ensures Full(h, n) == Full(h', n)
  {
    if n > 0 {
      assert h.batches[..n][..n - 1] == h.batches[..n - 1] && h'.batches[..n][..n - 1] == h'.batches[..n - 1];
      assert h.batches[n - 1] == h.batches[..n][n - 1] == h'.batches[n - 1];
      FullSame(h, h', n - 1);
    }
  }

  /** Batches come in order: those of the first m are exactly the first |Full(h, m)| entries. */
  lemma {:induction false} InOrder(h: History, m: nat, n: nat)
    requires Valid(h) && m <= n <= |h.batches|
    ensures Full(h, m) <= Full(h, n)
    ensures forall i :: 0 <= i < |Full(h, n)| ==> Full(h, n)[i].batch < n && (i < |Full(h, m)| <==> Full(h, n)[i].batch < m)
    decreases n
  {
    hide IdAt;
    if m < n {
      InOrder(h, m, n - 1);
    } else if n > 0 {
      InOrder(h, n - 1, n - 1);
    }
  }

  lemma UpdateKeeps(env: Env, key: Key, s: State, r: Rec)
    requires Inv(env, key, s) && Enabled(env, key, s, Update(r))
    ensures Inv(env, key, Step(env, key, s, Update(r)))
  {
    hide ChangeOf, Full, IdAt, Late, MineOf;
    var t, c, n := Step(env, key, s, Update(r)), Current(s), |s.h.batches|;
    var x := Item(r, c, true, true);
    MineAppend(s.log, [x]);
    MineOne(x);
    FullUpdated(s.h, t.h, (r.lba, r.block));
    LateMore(Full(s.h, n), MineOf(s.log), |Full(s.h, s.stored)|, Tag(Change(r.lba, r.block, r.amapId), c));
    assert Sound(env, key, x);
  }

  lemma LateMore(full: seq<Tag>, tags: seq<Tag>, most: nat, x: Tag)
    requires Late(full, tags, most)
    ensures Late(full + [x], tags + [x], most)
  {
  }

  lemma FullUpdated(h: History, h': History, x: (nat, nat))
    requires Valid(h) && h.batches != []
    requires var c := |h.batches| - 1; h' == h.(batches := h.batches[c := h.batches[c] + [x]])
    ensures var c := |h.batches| - 1;
      && Full(h', c + 1) == Full(h, c + 1) + [Tag(Change(x.0, x.1, LogId(h, c)), c)]
      && forall v :: 0 <= v <= c ==> Full(h', v) == Full(h, v)
  {
    var c := |h.batches| - 1;
    forall v | 0 <= v <= c ensures Full(h', v) == Full(h, v) {
      assert h.batches[..v] == h'.batches[..v];
      FullSame(h, h', v);
    }
    var id := LogId(h, c);
    assert TagsOf(h.batches[c] + [x], id, c) == TagsOf(h.batches[c], id, c) + [Tag(Change(x.0, x.1, id), c)];
  }

  lemma StoreKeeps(env: Env, key: Key, s: State, incr: nat)
    requires Inv(env, key, s) && Enabled(env, key, s, Store(incr))
    ensures Inv(env, key, Step(env, key, s, Store(incr)))
  {
    hide Sound, IdAt;
    var t, n := Step(env, key, s, Store(incr)), |s.h.batches|;
    assert t.h.batches[..n] == s.h.batches[..n];
    assert forall v :: 0 <= v < n ==> t.h.incrs[..v] == s.h.incrs[..v];
    FullSame(s.h, t.h, n);
    assert t.h.batches[..s.stored] == s.h.batches[..s.stored];
    FullSame(s.h, t.h, s.stored);
    assert TagsOf([], LogId(t.h, n), n) == [];
  }

  lemma LandedKeeps(env: Env, key: Key, s: State, v: nat)
    requires Inv(env, key, s) && Enabled(env, key, s, Landed(v))
    ensures Inv(env, key, Step(env, key, s, Landed(v)))
  {
    hide Sound, Full;
    InOrder(s.h, s.stored, v);
  }

  lemma FinishKeeps(env: Env, key: Key, s: State, i: nat)
    requires Inv(env, key, s) && Enabled(env, key, s, Finish(i))
    ensures Inv(env, key, Step(env, key, s, Finish(i)))
  {
    hide Full;
    var t := Step(env, key, s, Finish(i));
    MineSame(s.log, t.log);
  }

  lemma ReuseKeeps(env: Env, key: Key, s: State, k: nat)
    requires Inv(env, key, s) && Enabled(env, key, s, Reuse(k))
    ensures Inv(env, key, Step(env, key, s, Reuse(k)))
  {
    hide Full, Sound, Late, MineOf, IdAt;
    var n := |s.h.batches|;
    var gone := MineOf(s.log[..k]);
    assert s.log == s.log[..k] + s.log[k..];
    MineAppend(s.log[..k], s.log[k..]);
    InOrder(s.h, s.stored, n);
    forall i | 0 <= i < |gone| ensures gone[i].batch < s.stored {
      Stored(s.log[..k], s.stored, i);
    }
    LateDrop(Full(s.h, n), gone, MineOf(s.log[k..]), |Full(s.h, s.stored)|, s.stored);
  }

  lemma LateDrop(full: seq<Tag>, gone: seq<Tag>, rest: seq<Tag>, most: nat, stored: nat)
    requires Late(full, gone + rest, most)
    requires forall i :: 0 <= i < |full| ==> (i < most <==> full[i].batch < stored)
    requires forall i :: 0 <= i < |gone| ==> gone[i].batch < stored
    ensures Late(full, rest, most)
  {
    var at, tags := |full| - |gone + rest|, gone + rest;
    if |gone| > 0 {
      assert full[at + |gone| - 1] == full[at..][|gone| - 1] == tags[|gone| - 1] == gone[|gone| - 1];
    }
    assert rest == tags[|gone|..] == full[at..][|gone|..];
  }

  lemma {:induction false} Stored(log: seq<Item>, stored: nat, i: nat)
    requires i < |MineOf(log)| && forall j :: 0 <= j < |log| && log[j].mine ==> log[j].batch < stored
    ensures MineOf(log)[i].batch < stored
  {
    var k := |log| - 1;
    if i < |MineOf(log[..k])| { Stored(log[..k], stored, i); }
  }

  lemma OtherKeeps(env: Env, key: Key, s: State, r: Rec)
    requires Inv(env, key, s) && Enabled(env, key, s, Other(r))
    ensures Inv(env, key, Step(env, key, s, Other(r)))
  {
    hide Full, ChangeOf, Late, MineOf, IdAt;
    var x := Item(r, 0, false, true);
    MineAppend(s.log, [x]);
    MineOne(x);
    assert MineOf(s.log) + [] == MineOf(s.log);
    assert Sound(env, key, x);
  }

  lemma StepKeeps(env: Env, key: Key, s: State, op: Op)
    requires Inv(env, key, s) && Enabled(env, key, s, op)
    ensures Inv(env, key, Step(env, key, s, op))
  {
    hide Late, Sound, Full, MineOf, Step;
    match op
    case Update(r) => UpdateKeeps(env, key, s, r);
    case Other(r) => OtherKeeps(env, key, s, r);
    case Store(incr) => StoreKeeps(env, key, s, incr);
    case Landed(v) => LandedKeeps(env, key, s, v);
    case Finish(i) => FinishKeeps(env, key, s, i);
    case Reuse(k) => ReuseKeeps(env, key, s, k);
  }

  // ---------- Recovery ----------

  lemma {:induction false} FullIds(h: History, n: nat)
    requires Valid(h) && n <= |h.batches|
    ensures forall i :: 0 <= i < |Full(h, n)| ==> Full(h, n)[i].batch < n && Full(h, n)[i].change.amapId == LogId(h, Full(h, n)[i].batch)
  {
    hide IdAt;
    if n > 0 { FullIds(h, n - 1); }
  }

  lemma StripAppend(a: seq<Tag>, b: seq<Tag>)
    ensures Strip(a + b) == Strip(a) + Strip(b)
  {
  }

  /** What was logged from batch m on. */
  lemma {:induction false} LaterLogged(h: History, m: nat, n: nat)
    requires Valid(h) && m <= n <= |h.batches|
    ensures Full(h, m) <= Full(h, n) && Strip(Full(h, n)[|Full(h, m)|..]) == Logged(h, m, n)
    decreases n
  {
    hide IdAt;
    if m < n {
      LaterLogged(h, m, n - 1);
      var front, k := Full(h, n - 1), |Full(h, m)|;
      var last := TagsOf(h.batches[n - 1], LogId(h, n - 1), n - 1);
      assert Full(h, n)[k..] == front[k..] + last;
      StripAppend(front[k..], last);
      assert Strip(last) == Tagged(h.batches[n - 1], LogId(h, n - 1));
    }
  }

  /** The entries of the page in the log, whatever else the log holds. */
  lemma {:induction false} MineChanges(env: Env, key: Key, log: seq<Item>)
    requires forall i :: 0 <= i < |log| ==> Sound(env, key, log[i])
    ensures Changes(env, RecsOf(log), key) == Strip(MineOf(log))
  {
    hide TagOf, ChangeOf;
    if log != [] {
      var k := |log| - 1;
      MineChanges(env, key, log[..k]);
      assert RecsOf(log)[..k] == RecsOf(log[..k]);
      assert Sound(env, key, log[k]);
      StripAppend(MineOf(log[..k]), TagOf(log[k]));
    }
  }

  /** The entries of batches before m. */
  function Before(tags: seq<Tag>, m: nat): seq<Tag> {
    if tags == [] then []
    else
      var k := |tags| - 1;
      Before(tags[..k], m) + if tags[k].batch < m then [tags[k]] else []
  }

  lemma {:induction false} BeforeAll(tags: seq<Tag>, m: nat)
    requires forall i :: 0 <= i < |tags| ==> tags[i].batch < m
    ensures Before(tags, m) == tags
  {
    if tags != [] { BeforeAll(tags[..|tags| - 1], m); }
  }

  lemma {:induction false} BeforeParts(earlier: seq<Tag>, later: seq<Tag>, m: nat)
    requires forall i :: 0 <= i < |earlier| ==> earlier[i].batch < m
    requires forall i :: 0 <= i < |later| ==> later[i].batch >= m
    ensures Before(earlier + later, m) == earlier
  {
    if later == [] {
      assert earlier + later == earlier;
      BeforeAll(earlier, m);
    } else {
      var k := |later| - 1;
      assert (earlier + later)[..|earlier| + k] == earlier + later[..k];
      BeforeParts(earlier, later[..k], m);
    }
  }

  /** The changes that are stored already, and that replay would apply again without a test. */
  function Strays(s: State): seq<(nat, nat)> { Untested(Strip(Before(MineOf(s.log), s.stored))) }

  /** The entries of stored batches are a late part of what those logged. */
  lemma BeforeIs(h: History, stored: nat, tags: seq<Tag>)
    requires Valid(h) && stored <= |h.batches| && Late(Full(h, |h.batches|), tags, |Full(h, stored)|)
    ensures var full, head := Full(h, |h.batches|), Full(h, stored);
      var at := |full| - |tags|;
      head <= full && 0 <= at <= |head| && Before(tags, stored) == head[at..] && tags == head[at..] + full[|head|..]
  {
    hide Full;
    var n := |h.batches|;
    var full, head := Full(h, n), Full(h, stored);
    InOrder(h, stored, n);
    var at := |full| - |tags|;
    var earlier, later := head[at..], full[|head|..];
    assert tags == earlier + later;
    assert forall i :: 0 <= i < |later| ==> later[i] == full[|head| + i];
    assert forall i :: 0 <= i < |earlier| ==> earlier[i] == full[at + i];
    BeforeParts(earlier, later, stored);
  }

  /** The log is what is left of the stored batches, and then every batch since. */
  lemma LogParts(h: History, stored: nat, tags: seq<Tag>, c: nat)
    requires Valid(h) && c <= stored <= |h.batches|
    requires Late(Full(h, |h.batches|), tags, |Full(h, stored)|)
    requires forall i :: 0 <= i < |tags| ==> tags[i].batch >= c
    ensures var earlier := Strip(Before(tags, stored));
      Old(h, c, stored, earlier) && Strip(tags) == earlier + Logged(h, stored, |h.batches|)
  {
    hide Full, IdAt, Logged, Strip, Old;
    var n := |h.batches|;
    var full, head := Full(h, n), Full(h, stored);
    BeforeIs(h, stored, tags);
    LaterLogged(h, stored, n);
    StripAppend(Before(tags, stored), full[|head|..]);
    OldTags(h, c, stored, Before(tags, stored), |full| - |tags|, tags);
  }

  lemma OldTags(h: History, c: nat, stored: nat, earlier: seq<Tag>, at: nat, tags: seq<Tag>)
    requires Valid(h) && c <= stored <= |h.batches| && at <= |Full(h, stored)| && earlier == Full(h, stored)[at..]
    requires earlier <= tags && forall i :: 0 <= i < |tags| ==> tags[i].batch >= c
    ensures Old(h, c, stored, Strip(earlier))
  {
    hide Full, IdAt;
    FullIds(h, stored);
    var cs := Strip(earlier);
    forall i | 0 <= i < |cs| ensures LoggedIn(h, c, stored, cs[i]) {
      assert earlier[i] == Full(h, stored)[at + i] == tags[i];
      assert cs[i].amapId == LogId(h, tags[i].batch);
    }
  }

  function PairsOf(tags: seq<Tag>): seq<(nat, nat)> {
    seq(|tags|, i requires 0 <= i < |tags| => (tags[i].change.lba, tags[i].change.block))
  }

  lemma {:induction false} FullFlat(h: History, n: nat)
    requires Valid(h) && n <= |h.batches|
    ensures PairsOf(Full(h, n)) == Flat(h, n)
  {
    hide IdAt;
    if n > 0 {
      FullFlat(h, n - 1);
      assert PairsOf(TagsOf(h.batches[n - 1], LogId(h, n - 1), n - 1)) == h.batches[n - 1];
    }
  }

  lemma {:induction false} AllUntested(tags: seq<Tag>)
    requires forall i :: 0 <= i < |tags| ==> tags[i].change.amapId == 0
    ensures Untested(Strip(tags)) == PairsOf(tags)
  {
    if tags != [] {
      AllUntested(tags[..|tags| - 1]);
      assert Strip(tags)[..|tags| - 1] == Strip(tags[..|tags| - 1]);
    }
  }

  /** If no entry of a stored batch has an id, those left in the log are harmless together. */
  lemma NoIdsHarmless(h: History, stored: nat, tags: seq<Tag>)
    requires Valid(h) && stored <= |h.batches| && (!h.v2 || (h.first == 0 && stored <= 1))
    requires Late(Full(h, |h.batches|), tags, |Full(h, stored)|)
    ensures Harmless(h, Untested(Strip(Before(tags, stored))), stored, |h.batches|)
  {
    hide Full, Harmless, Untested, Before, Late, Flat, Strip;
    BeforeIs(h, stored, tags);
    var head, at := Full(h, stored), |Full(h, |h.batches|)| - |tags|;
    FullIds(h, stored);
    assert h.incrs[..0] == [];
    AllUntested(head[at..]);
    FullFlat(h, stored);
    assert Flat(h, stored) == PairsOf(head[..at]) + PairsOf(head[at..]);
    LateHarmless(h, PairsOf(head[..at]), PairsOf(head[at..]), stored, |h.batches|);
  }

  /** No change is stray, or those that are do no harm, unless replay had made the page and a second version of it is
      stored. */
  predicate Safe(s: State) { !s.h.v2 || s.h.first != 0 || s.stored <= 1 }

  /** In a good state, the stored version and the log give back the page, up to where the ids wrapped, if and only if the
      stray changes are harmless. */
  lemma Recoverable(env: Env, key: Key, s: State, w: Maps, c: nat)
    requires Inv(env, key, s) && c <= s.stored && InWindow(s.h, c, |s.h.batches|)
    requires forall i :: 0 <= i < |s.log| && s.log[i].mine ==> s.log[i].batch >= c
    requires key in w.amaps && TableOf(key) in w.tables && w.amaps[key] == Version(s.h, s.stored)
    ensures var w', n, base := ReplayAll(env, w, RecsOf(s.log)), |s.h.batches|, Put(After(s.h, s.stored), Strays(s));
      && key in w'.amaps
      && w'.amaps[key] == Amap(StoredId(s.h, s.stored), From(s.h, base, s.stored, Reached(s.h, s.stored, n)))
      && (!Wrapped(s.h, s.stored, n - 1) ==>
            (w'.amaps[key].blocks == After(s.h, n) <==> Harmless(s.h, Strays(s), s.stored, n)))
      && (Safe(s) ==> Harmless(s.h, Strays(s), s.stored, n))
  {
    hide Late, Full, Sound, ReplayAll, ReplayPage, Sum, After, IdAt, Put, From, Harmless, Old, Logged, Untested, Before;
    MineChanges(env, key, s.log);
    forall i | 0 <= i < |MineOf(s.log)| ensures MineOf(s.log)[i].batch >= c { AtLeastBatch(s.log, c, i); }
    LogParts(s.h, s.stored, MineOf(s.log), c);
    var earlier := Strip(Before(MineOf(s.log), s.stored));
    Recovers(env, w, RecsOf(s.log), key, s.h, c, s.stored, earlier);
    GoneIff(s.h, Strays(s), s.stored, |s.h.batches|);
    if !s.h.v2 || (s.h.first == 0 && s.stored <= 1) {
      NoIdsHarmless(s.h, s.stored, MineOf(s.log));
    } else if s.h.first != 0 {
      AllTested(s.h, c, s.stored, earlier);
      NothingHarmless(s.h, s.stored, |s.h.batches|);
    }
  }

  lemma {:induction false} AtLeastBatch(log: seq<Item>, c: nat, i: nat)
    requires i < |MineOf(log)| && forall j :: 0 <= j < |log| && log[j].mine ==> log[j].batch >= c
    ensures MineOf(log)[i].batch >= c
  {
    var k := |log| - 1;
    if i < |MineOf(log[..k])| { AtLeastBatch(log[..k], c, i); }
  }

  /** A page found on its device, nothing changed yet and an empty log. Its id is 0 if replay made the page. */
  ghost predicate Init(s: State) {
    && s.h.first < WRITE_ID_MAX && s.h.incrs == [1] && s.h.batches == [[]] && s.stored == 0 && s.log == []
  }

  ghost predicate Run(env: Env, key: Key, states: seq<State>, ops: seq<Op>) {
    && |states| == |ops| + 1 && Init(states[0])
    && forall i :: 0 <= i < |ops| ==>
         && Valid(states[i].h) && states[i].h.batches != []
         && Enabled(env, key, states[i], ops[i]) && states[i + 1] == Step(env, key, states[i], ops[i])
  }

  lemma {:induction false} RunInv(env: Env, key: Key, states: seq<State>, ops: seq<Op>, i: nat)
    requires Run(env, key, states, ops) && i < |states|
    ensures Inv(env, key, states[i])
  {
    hide Step, Enabled, Late;
    if i > 0 {
      RunInv(env, key, states, ops, i - 1);
      StepKeeps(env, key, states[i - 1], ops[i - 1]);
    } else {
      InitInv(env, key, states[0]);
    }
  }

  lemma InitInv(env: Env, key: Key, s: State)
    requires Init(s)
    ensures Inv(env, key, s)
  {
    assert Full(s.h, 1) == Full(s.h, 0) + TagsOf([], LogId(s.h, 0), 0);
  }

  /** Durability: stop any run at any point, with any submitted version stored. Let the ids not have wrapped since the
      stored version, and no more than 2^32 of them used since the oldest entry of the page in the log. Then replay of the
      log that is left, among the entries of all other pages, gives the contents the page had in memory if and only if
      every stray change is set again after the stored version or is what that version holds. In particular it does on a
      disk without ids, if the page started with an id, if at most one new version of it is stored, or if no
      stray change is left in the log. */
  lemma Durable(env: Env, key: Key, states: seq<State>, ops: seq<Op>, i: nat, w: Maps, c: nat)
    requires Run(env, key, states, ops) && i < |states| && Valid(states[i].h) && states[i].h.batches != []
    requires var s := states[i];
      && c <= s.stored <= Current(s) && InWindow(s.h, c, |s.h.batches|) && !Wrapped(s.h, s.stored, Current(s))
      && (forall j :: 0 <= j < |s.log| && s.log[j].mine ==> s.log[j].batch >= c)
      && key in w.amaps && TableOf(key) in w.tables && w.amaps[key] == Version(s.h, s.stored)
    ensures var s, w' := states[i], ReplayAll(env, w, RecsOf(states[i].log));
      && key in w'.amaps
      && (w'.amaps[key].blocks == After(s.h, |s.h.batches|) <==> Harmless(s.h, Strays(s), s.stored, |s.h.batches|))
      && (Safe(s) || Strays(s) == [] ==> w'.amaps[key].blocks == After(s.h, |s.h.batches|))
  {
    hide Inv, Step, Enabled, ReplayAll, Sum, After, Harmless, Strays, IdAt;
    RunInv(env, key, states, ops, i);
    Recoverable(env, key, states[i], w, c);
    NothingHarmless(states[i].h, states[i].stored, |states[i].h.batches|);
  }

  // ---------- A run that loses a stored change ----------

  const SEVEN := Rec(1, 7, 1, 0, 0)
  const EIGHT := Rec(2, 8, 1, 0, 1)
  const BOTH := [Item(SEVEN, 0, true, true), Item(EIGHT, 1, true, true)]
  const H0 := History(true, 0, map[], [1], [[]])
  const H1 := History(true, 0, map[], [1], [[(0, 7)]])
  const H2 := History(true, 0, map[], [1, 1], [[(0, 7)], []])
  const H3 := History(true, 0, map[], [1, 1], [[(0, 7)], [(0, 8)]])
  const H4 := History(true, 0, map[], [1, 1, 1], [[(0, 7)], [(0, 8)], []])

  const LOSING: seq<State> :=
    [State(H0, 0, []), State(H1, 0, BOTH[..1]), State(H2, 0, BOTH[..1]), State(H2, 1, BOTH[..1]), State(H3, 1, BOTH),
     State(H4, 1, BOTH), State(H4, 2, BOTH)]

  const LOSING_OPS: seq<Op> := [Update(SEVEN), Store(1), Landed(1), Update(EIGHT), Store(1), Landed(2)]

  lemma UpdateStep(env: Env, i: nat)
    requires 1 in env.disks && {BlockDisk(7), BlockDisk(8)} <= env.devices && (i == 0 || i == 3)
    ensures var s := LOSING[i];
      && Valid(s.h) && Enabled(env, AmapKey(1, 0), s, LOSING_OPS[i])
      && LOSING[i + 1] == Step(env, AmapKey(1, 0), s, LOSING_OPS[i])
  {
    if i == 0 {
      assert H0.incrs[..0] == [];
      assert H0.batches[0] + [(0, 7)] == [(0, 7)];
      assert H0.batches[0 := [(0, 7)]] == H1.batches;
      assert [] + [Item(SEVEN, 0, true, true)] == BOTH[..1];
    } else {
      assert H2.incrs[..1] == [1] && [1][..0] == [];
      assert IdAt(H2, 1) == 1;
      assert H2.batches[1] + [(0, 8)] == [(0, 8)];
      assert H2.batches[1 := [(0, 8)]] == H3.batches;
      assert BOTH[..1] + [Item(EIGHT, 1, true, true)] == BOTH;
    }
  }

  lemma OtherStep(env: Env, i: nat)
    requires i in {1, 2, 4, 5}
    ensures var s := LOSING[i];
      && Valid(s.h) && Enabled(env, AmapKey(1, 0), s, LOSING_OPS[i])
      && LOSING[i + 1] == Step(env, AmapKey(1, 0), s, LOSING_OPS[i])
  {
    hide IdAt;
    assert [1][0 := 1] + [1] == [1, 1] && [1, 1][1 := 1] + [1] == [1, 1, 1];
    assert [[(0, 7)]] + [[]] == [[(0, 7)], []] && [[(0, 7)], [(0, 8)]] + [[]] == [[(0, 7)], [(0, 8)], []];
  }

  lemma LosingRun(env: Env)
    requires 1 in env.disks && {BlockDisk(7), BlockDisk(8)} <= env.devices
    ensures Run(env, AmapKey(1, 0), LOSING, LOSING_OPS)
  {
    hide Enabled, Step, IdAt;
    var key, states, ops := AmapKey(1, 0), LOSING, LOSING_OPS;
    assert Init(states[0]);
    forall i | 0 <= i < |ops|
      ensures Valid(states[i].h) && states[i].h.batches != []
        && Enabled(env, key, states[i], ops[i]) && states[i + 1] == Step(env, key, states[i], ops[i])
    {
      if i == 0 || i == 3 { UpdateStep(env, i); } else { OtherStep(env, i); }
    }
    assert Run(env, key, states, ops);
  }

  /** The other half is no idle case. In this run the page starts with id 0; lba 0 is set to 7, which is stored, and then
      to 8, which is stored; a crash before the log entries go brings back 7. */
  lemma Undone(env: Env, w: Maps)
    requires 1 in env.disks && {BlockDisk(7), BlockDisk(8)} <= env.devices
    requires AmapKey(1, 0) in w.amaps && TableOf(AmapKey(1, 0)) in w.tables
    requires w.amaps[AmapKey(1, 0)] == Amap(2, map[0 := 8])
    ensures var key, s := AmapKey(1, 0), LOSING[6];
      && Run(env, key, LOSING, LOSING_OPS) && Valid(s.h) && Version(s.h, s.stored) == w.amaps[key]
      && After(s.h, |s.h.batches|) == map[0 := 8]
      && var w' := ReplayAll(env, w, RecsOf(s.log));
        key in w'.amaps && w'.amaps[key].blocks == map[0 := 7]
  {
    hide Run, ReplayAll, ReplayPage, After, IdAt, Changes;
    var key, s := AmapKey(1, 0), LOSING[6];
    LosingRun(env);
    FinalVersion();
    assert RecsOf(s.log) == [SEVEN, EIGHT];
    PageAlone(env, w, [SEVEN, EIGHT], key);
    TwoChanges(env);
    ReplayTwo(Amap(2, map[0 := 8]), Change(0, 7, 0), Change(0, 8, 1));
  }

  lemma TwoChanges(env: Env)
    requires 1 in env.disks && {BlockDisk(7), BlockDisk(8)} <= env.devices
    ensures Changes(env, [SEVEN, EIGHT], AmapKey(1, 0)) == [Change(0, 7, 0), Change(0, 8, 1)]
  {
    hide AmapKey, BlockDisk;
    assert [SEVEN, EIGHT][..1] == [SEVEN] && [SEVEN][..0] == [];
    assert Changes(env, [SEVEN], AmapKey(1, 0)) == [Change(0, 7, 0)];
  }

  lemma FinalVersion()
    ensures Version(H4, 2) == Amap(2, map[0 := 8]) && After(H4, 3) == map[0 := 8]
  {
    hide Put;
    assert H4.incrs[..2] == [1, 1] && H3.incrs[..2] == [1, 1];
    TwoBatches(H3);
    PutOne(map[], [], (0, 7));
    PutOne(map[0 := 7], [], (0, 8));
    PutNone();
    assert [] + [(0, 7)] == H4.batches[0] && [] + [(0, 8)] == H4.batches[1];
    assert After(H4, 1) == Put(After(H4, 0), H4.batches[0]) && After(H4, 2) == Put(After(H4, 1), H4.batches[1]);
  }
}
