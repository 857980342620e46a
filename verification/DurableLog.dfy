/** The pages of the log and the start-up of a pool carry out the steps of a durable log: what the ring of log pages does is
    a step of the state machine, and what start-up replays is the log of its state. */
module DurableLog {
  import opened CrashRecovery
  import opened Durability
  import opened LogPages
  import opened LogReplay
  import opened WriteIds

  /** The entries in the log pages, and which of their transactions are pending. */
  ghost predicate Matches(entries: seq<Numbered>, open: set<nat>, log: seq<Item>) {
    && |log| == |entries|
    && forall i :: 0 <= i < |log| ==> log[i].rec == RecOf(entries[i]) && (log[i].open <==> entries[i].id in open)
  }

  lemma MatchesMore(entries: seq<Numbered>, open: set<nat>, log: seq<Item>, x: Numbered, item: Item)
    requires Matches(entries, open, log) && item.rec == RecOf(x) && item.open && Increasing(entries + [x])
    ensures Matches(entries + [x], open + {x.id}, log + [item])
  {
    var more := entries + [x];
    forall i | 0 <= i < |entries| ensures entries[i].id != x.id { assert more[i].id < more[|entries|].id; }
  }

  lemma MatchesLess(entries: seq<Numbered>, open: set<nat>, log: seq<Item>, i: nat)
    requires Matches(entries, open, log) && Increasing(entries) && i < |log|
    ensures Matches(entries, open - {entries[i].id}, log[i := log[i].(open := false)])
  {
  }

  lemma MatchesDrop(entries: seq<Numbered>, left: seq<Numbered>, open: set<nat>, log: seq<Item>)
    requires Matches(entries, open, log) && Increasing(entries) && Suffix(entries, left)
    requires forall x :: x in entries && x.id in open ==> x in left
    ensures var k := |entries| - |left|; Matches(left, open, log[k..]) && forall i :: 0 <= i < k ==> !log[i].open
  {
    var k := |entries| - |left|;
    forall i | 0 <= i < k ensures !log[i].open {
      forall j | 0 <= j < |left| ensures left[j] != entries[i] { assert left[j] == entries[k + j]; }
    }
  }

  lemma RecsMatch(entries: seq<Numbered>, open: set<nat>, log: seq<Item>)
    requires Matches(entries, open, log)
    ensures Recs(entries) == RecsOf(log)
  {
  }

  /** What logging an entry is for one page. */
  function OpOf(env: Env, key: Key, r: Rec): Op {
    if ChangeOf(env, r, key) == [] then Other(r) else Update(r)
  }

  lemma LoggedStep(env: Env, key: Key, s: State, r: Rec, t: State)
    requires Inv(env, key, s) && Enabled(env, key, s, OpOf(env, key, r)) && t == Step(env, key, s, OpOf(env, key, r))
    ensures |t.log| == |s.log| + 1 && t.log == s.log + [t.log[|s.log|]]
    ensures t.log[|s.log|].rec == r && t.log[|s.log|].open
  {
    hide Inv, ChangeOf;
  }

  /** An entry goes into the log pages. If it is for the page at `key`, it carries the id of the version in memory. */
  method Write(log: Log, e: Entry, ghost env: Env, ghost key: Key, ghost s: State) returns (id: nat, ghost t: State)
    requires log.Valid() && log.freeIdx < ENTRIES && Fits(e) && (e.target != 0 || e.block != 0)
    requires Inv(env, key, s) && Matches(Contents(log.Queue()), log.open, s.log)
    requires ChangeOf(env, RecOf(Numbered(0, e)), key) != [] ==> e.amapId as nat == LogId(s.h, Current(s))
    modifies log
    ensures log.Valid() && Inv(env, key, t) && Matches(Contents(log.Queue()), log.open, t.log)
    ensures var op := OpOf(env, key, RecOf(Numbered(id, e))); Enabled(env, key, s, op) && t == Step(env, key, s, op)
  {
    hide Inv, Contents, Filling, Fits, Matches, Step, Tracks, Increasing;
    ghost var entries, open := Contents(log.Queue()), log.open;
    id := log.Insert(e);
    OrderedOf(log.Queue(), log.nextId, log.freeIdx);
    ContentsIncreasing(log.Queue());
    ghost var x := Numbered(id, e);
    ghost var op := OpOf(env, key, RecOf(x));
    WriteEnabled(env, key, s, x);
    t := Step(env, key, s, op);
    StepKeeps(env, key, s, op);
    LoggedStep(env, key, s, RecOf(x), t);
    MatchesMore(entries, open, s.log, x, t.log[|s.log|]);
  }

  lemma WriteEnabled(env: Env, key: Key, s: State, x: Numbered)
    requires Inv(env, key, s)
    requires ChangeOf(env, RecOf(Numbered(0, x.entry)), key) != [] ==> x.entry.amapId as nat == LogId(s.h, Current(s))
    ensures Valid(s.h) && s.h.batches != [] && Enabled(env, key, s, OpOf(env, key, RecOf(x)))
  {
    hide IdAt, Late, Full, MineOf, AmapKey;
    var r, r0 := RecOf(x), RecOf(Numbered(0, x.entry));
    SameChange(env, key, r, r0);
  }

  lemma SameChange(env: Env, key: Key, r: Rec, r': Rec)
    requires r' == r.(id := 0)
    ensures ChangeOf(env, r, key) == ChangeOf(env, r', key)
  {
  }

  /** The transaction of entry `i`, which is in page `p`, is finished. */
  method Finished(log: Log, p: nat, ghost i: nat, ghost env: Env, ghost key: Key, ghost s: State) returns (ghost t: State)
    requires log.Valid() && p < |log.pages| && Inv(env, key, s) && Matches(Contents(log.Queue()), log.open, s.log)
    requires Enabled(env, key, s, Finish(i)) && Contents(log.Queue())[i].id in Mine(log.pages[p], log.open)
    modifies log`pending, log`open
    ensures log.Valid() && Inv(env, key, t) && Matches(Contents(log.Queue()), log.open, t.log)
    ensures t == Step(env, key, s, Finish(i))
  {
    hide Inv, Contents, Filling, Tracks, Increasing, Mine;
    ghost var entries, open := Contents(log.Queue()), log.open;
    OrderedOf(log.Queue(), log.nextId, log.freeIdx);
    ContentsIncreasing(log.Queue());
    log.PutEntry(p, entries[i].id);
    InvValid(env, key, s);
    t := Step(env, key, s, Finish(i));
    StepKeeps(env, key, s, Finish(i));
    MatchesLess(entries, open, s.log, i);
  }

  /** The ring moves on to a page that can be filled. */
  method MakeRoom(log: Log, skips: nat, ghost env: Env, ghost key: Key, ghost s: State)
    returns (ok: bool, ghost t: State, ghost k: nat)
    requires log.Valid() && Inv(env, key, s) && Matches(Contents(log.Queue()), log.open, s.log)
    modifies log
    ensures log.Valid() && Inv(env, key, t) && Matches(Contents(log.Queue()), log.open, t.log)
    ensures Enabled(env, key, s, Reuse(k)) && t == Step(env, key, s, Reuse(k)) && (ok ==> log.freeIdx < ENTRIES)
  {
    hide Inv, Contents, Filling, Tracks, Increasing, Matches, Kept, Suffix;
    ghost var q, entries := log.Queue(), Contents(log.Queue());
    OrderedOf(q, log.nextId, log.freeIdx);
    ContentsIncreasing(q);
    ghost var moved;
    ok, moved := log.GetFreePage(skips);
    ghost var left := Contents(log.Queue());
    SuffixShorter(entries, left);
    MatchesDrop(entries, left, log.open, s.log);
    k := |entries| - |left|;
    MatchesLength(entries, log.open, s.log);
    InvValid(env, key, s);
    t := Step(env, key, s, Reuse(k));
    StepKeeps(env, key, s, Reuse(k));
  }

  lemma InvValid(env: Env, key: Key, s: State)
    requires Inv(env, key, s)
    ensures Valid(s.h) && s.h.batches != []
  {
  }

  lemma SuffixShorter(a: seq<Numbered>, b: seq<Numbered>)
    requires Suffix(a, b)
    ensures |b| <= |a|
  {
  }

  lemma MatchesLength(entries: seq<Numbered>, open: set<nat>, log: seq<Item>)
    requires Matches(entries, open, log)
    ensures |log| == |entries|
  {
  }

  /** The page is submitted under the next id, which is the id of the new version, in memory and in the image. */
  method Submit(page: AmapPage, v2: bool, skip: nat, csum16: nat, csum64: nat, ghost env: Env, ghost key: Key, ghost s: State)
      returns (ghost t: State)
    requires page.Valid() && Inv(env, key, s) && page.writeId == IdAt(s.h, Current(s))
    requires 0 < skip < WINDOW && csum16 < 0x1_0000 && v2 == s.h.v2
    modifies page
    ensures page.Valid() && Enabled(env, key, s, Store(skip)) && t == Step(env, key, s, Store(skip)) && Inv(env, key, t)
    ensures page.writeId == IdAt(t.h, Current(t)) && (s.h.v2 ==> page.word / 0x1_0000 == StoredId(t.h, Current(t)))
  {
    hide Inv, IdAt, Advance;
    InvValid(env, key, s);
    page.WriteCsum(v2, 0, skip, csum16, csum64);
    t := Step(env, key, s, Store(skip));
    StepKeeps(env, key, s, Store(skip));
    NextId(s.h, t.h, skip);
  }

  lemma NextId(h: History, h': History, skip: nat)
    requires Valid(h) && h.batches != [] && Valid(h') && h'.first == h.first
    requires var c := |h.batches| - 1; h'.incrs == h.incrs[c := skip] + [1]
    ensures IdAt(h', |h.batches|) == Advance(IdAt(h, |h.batches| - 1), [skip])
  {
    var c := |h.batches| - 1;
    assert h'.incrs[..c + 1] == h.incrs[..c] + [skip];
    AdvanceSplit(h.first, h.incrs[..c], [skip]);
  }

  /** After a crash: the log pages are scanned in any order and replayed onto the stored maps. The page at `key` has its
      contents in memory back if and only if the stray changes are harmless. */
  method Restart(pool: Pool, log: Log, scan: seq<Page>, ghost key: Key, ghost s: State, ghost c: nat)
    requires pool.Valid() && pool.pending == {} && pool.stored == pool.maps
    requires log.Valid() && multiset(scan) == multiset(log.Queue())
    requires Inv(pool.env, key, s) && Matches(Contents(log.Queue()), log.open, s.log)
    requires c <= s.stored && InWindow(s.h, c, |s.h.batches|) && !Wrapped(s.h, s.stored, Current(s))
    requires forall i :: 0 <= i < |s.log| && s.log[i].mine ==> s.log[i].batch >= c
    requires key in pool.stored.amaps && TableOf(key) in pool.stored.tables
    requires pool.stored.amaps[key] == Version(s.h, s.stored)
    modifies pool
    ensures pool.Valid() && pool.maps == pool.stored == ReplayAll(pool.env, old(pool.stored), RecsOf(s.log))
    ensures key in pool.stored.amaps
    ensures pool.stored.amaps[key].blocks == After(s.h, |s.h.batches|)
      <==> Harmless(s.h, Strays(s), s.stored, |s.h.batches|)
  {
    hide Contents, Filling, Tracks, Matches, ReplayAll, Late, Full, Sound, Harmless, Strays, After, IdAt, Sum, Wrapped;
    OrderedOf(log.Queue(), log.nextId, log.freeIdx);
    RecsMatch(Contents(log.Queue()), log.open, s.log);
    Recoverable(pool.env, key, s, pool.stored, c);
    pool.StartUp(scan, log.Queue());
  }
}
