/** Allocating for a list of pages, duplicates included, is a run of the deduplication machine. */
module BatchRefines {
  import opened Units
  import opened Dedupe
  import opened BatchAlloc

  function BlockOf(page: PageId, g: Grant): Block { Block(page, g.start, g.count) }

  /** A fresh extent is an allocation; a duplicate shares the extent of its twin. */
  function OpOf(page: PageId, g: Grant): Op
  {
    if g.duplicate then Share(BlockOf(page, g)) else Op.Alloc(BlockOf(page, g), g.page.hash)
  }

  function OpsOf(page: PageId, grants: seq<Grant>): seq<Op>
  {
    seq(|grants|, i requires 0 <= i < |grants| => OpOf(page, grants[i]))
  }

  ghost predicate Chain(states: seq<State>, ops: seq<Op>)
  {
    && |states| == |ops| + 1
    && forall i :: 0 <= i < |ops| ==> Enabled(states[i], ops[i]) && states[i + 1] == Step(states[i], ops[i])
  }

  /** What a chain adds to a run is a run. */
  lemma RunMore(states: seq<State>, ops: seq<Op>, states': seq<State>, ops': seq<Op>)
    requires Run(states, ops) && Chain(states', ops') && states'[0] == states[|ops|]
    ensures Run(states + states'[1..], ops + ops')
  {
    hide Init, Enabled, Step;
    var all, n := states + states'[1..], |ops|;
    forall i | 0 <= i < |ops + ops'| ensures Enabled(all[i], (ops + ops')[i]) && all[i + 1] == Step(all[i], (ops + ops')[i]) {
      if i >= n { assert all[i] == states'[i - n] && all[i + 1] == states'[i - n + 1]; }
    }
  }

  /** Every grant made so far names a live extent with the digest of its page. */
  ghost predicate GrantsLive(t: State, page: PageId, grants: seq<Grant>)
  {
    forall i :: 0 <= i < |grants| ==>
      BlockOf(page, grants[i]) in t.live && t.live[BlockOf(page, grants[i])].hash == grants[i].page.hash
  }

  /** Sound grants, carried out one by one from a good state, lead to a good state whose page is what the
      batch left, in which every page granted an extent holds a live extent with its own digest. */
  lemma {:induction false} BatchIsRun(s: State, page: PageId, grants: seq<Grant>) returns (states: seq<State>)
    requires Inv(s) && page in s.pages && forall n :: 0 <= n < |grants| ==> Sound(s.pages[page], grants, n)
    ensures Chain(states, OpsOf(page, grants)) && states[0] == s
    ensures var t := states[|grants|];
      Inv(t) && t.pages == s.pages[page := Apply(s.pages[page], grants)] && GrantsLive(t, page, grants)
  {
    hide Inv, Sound, Apply, Step;
    if grants == [] {
      states := [s];
      NothingGranted(s.pages[page]);
      return;
    }
    var n := |grants| - 1;
    var before, g := grants[..n], grants[n];
    forall k | 0 <= k < n ensures Sound(s.pages[page], before, k) { SoundPrefix(s.pages[page], grants, n, k); }
    states := BatchIsRun(s, page, before);
    var t := states[n];
    assert GrantsLive(t, page, before);
    var t' := OneGrant(s, t, page, grants);
    states := states + [t'];
    assert OpsOf(page, grants) == OpsOf(page, before) + [OpOf(page, g)];
  }

  lemma NothingGranted(u: seq<nat>)
    ensures Apply(u, []) == u
  {
  }

  lemma SoundPrefix(u: seq<nat>, grants: seq<Grant>, n: nat, k: nat)
    requires k < n <= |grants| && Sound(u, grants, k)
    ensures Sound(u, grants[..n], k)
  {
    hide Apply;
    assert grants[..n][..k] == grants[..k];
  }

  lemma OneGrant(s: State, t: State, page: PageId, grants: seq<Grant>) returns (t': State)
    requires grants != [] && page in s.pages
    requires var n := |grants| - 1;
      && Sound(s.pages[page], grants, n) && Inv(t)
      && t.pages == s.pages[page := Apply(s.pages[page], grants[..n])] && GrantsLive(t, page, grants[..n])
    ensures Enabled(t, OpOf(page, grants[|grants| - 1])) && t' == Step(t, OpOf(page, grants[|grants| - 1])) && Inv(t')
    ensures t'.pages == s.pages[page := Apply(s.pages[page], grants)] && GrantsLive(t', page, grants)
  {
    hide Inv, Extents;
    var n := |grants| - 1;
    var g, b, op := grants[n], BlockOf(page, grants[n]), OpOf(page, grants[n]);
    assert InPages(t, b);
    Parts(t);
    if g.duplicate {
      var k :| 0 <= k < n && Shares(grants[k], g);
      assert grants[..n][k] == grants[k] && BlockOf(page, grants[k]) == b;
      assert b in t.live && t.live[b].hash == g.page.hash;
      FlatRefs(t.pages[page], g.start, g.count);
    } else if b in t.live {
      AllocFresh(t, b, b);
    }
    assert Enabled(t, op);
    t' := Step(t, op);
    StepKeeps(t, op);
    forall i | 0 <= i < |grants|
      ensures BlockOf(page, grants[i]) in t'.live && t'.live[BlockOf(page, grants[i])].hash == grants[i].page.hash
    {
      if i < n { assert grants[..n][i] == grants[i]; }
    }
  }

  lemma FlatRefs(u: seq<nat>, s: nat, count: nat)
    requires s + count <= |u| && Flat(u, s, count, MAX_REFS)
    ensures RefOutcome(u, s, count, 0).None?
  {
  }
}
