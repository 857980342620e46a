/** The cyclic 48-bit ids stamped on every metadata write, and the order that log replay uses to tell a page that
    is already newer than a log entry. */
module WriteIds {
  import opened Arithmetic

  /** The largest id, kept as the sentinel "write with the id you have"; 0 is the sentinel "take the next one". */
  const WRITE_ID_MAX := 0xFFFF_FFFF_FFFF
  const WINDOW := 0x1_0000_0000

  function Incr(id: nat, incr: nat): nat {
    if id + incr < WRITE_ID_MAX then id + incr else id + incr - (WRITE_ID_MAX - 1)
  }

  predicate Greater(current: nat, id: nat) {
    current > id || (WRITE_ID_MAX - current) - (WRITE_ID_MAX - id) > WINDOW
  }

  /** What write_id_incr is called with: never 0, and 32 bits. */
  predicate Steps(incrs: seq<nat>) {
    forall i :: 0 <= i < |incrs| ==> 0 < incrs[i] < WINDOW
  }

  /** The id after a sequence of writes. */
  function Advance(id: nat, incrs: seq<nat>): nat
    decreases |incrs|
  {
    if incrs == [] then id else Incr(Advance(id, incrs[..|incrs| - 1]), incrs[|incrs| - 1])
  }

  function Sum(incrs: seq<nat>): nat {
    if incrs == [] then 0 else Sum(incrs[..|incrs| - 1]) + incrs[|incrs| - 1]
  }

  /** The cycle 1 .. WRITE_ID_MAX - 1, `n` steps after `id`. */
  function Cycle(id: nat, n: nat): nat
    requires 1 <= id
  {
    (id - 1 + n) % (WRITE_ID_MAX - 1) + 1
  }

  lemma OneStep(id: nat, n: nat, incr: nat)
    requires 1 <= id < WRITE_ID_MAX && 0 < incr < WINDOW
    ensures Incr(Cycle(id, n), incr) == Cycle(id, n + incr)
  {
    var unit := WRITE_ID_MAX - 1;
    var q, r := (id - 1 + n) / unit, (id - 1 + n) % unit;
    if r + incr < unit {
      Parts(r + incr, q, unit);
    } else {
      Parts(r + incr - unit, q + 1, unit);
    }
  }

  /** Any sequence of writes walks the cycle, and so never yields a sentinel. */
  lemma {:induction false} AdvanceCycles(id: nat, incrs: seq<nat>)
    requires 1 <= id < WRITE_ID_MAX && Steps(incrs)
    ensures Advance(id, incrs) == Cycle(id, Sum(incrs))
    ensures 0 < Advance(id, incrs) < WRITE_ID_MAX
  {
    if incrs != [] {
      var k := |incrs| - 1;
      AdvanceCycles(id, incrs[..k]);
      OneStep(id, Sum(incrs[..k]), incrs[k]);
    }
  }

  /** Exactly when an id compares greater than the one it was advanced from, for any total short of a full turn. */
  lemma AdvancedIsGreater(id: nat, incrs: seq<nat>)
    requires 1 <= id < WRITE_ID_MAX && Steps(incrs) && Sum(incrs) < WRITE_ID_MAX - 1
    ensures var now := Advance(id, incrs);
      0 < now < WRITE_ID_MAX
      && (Greater(now, id) <==> 0 < Sum(incrs) && (id + Sum(incrs) < WRITE_ID_MAX || Sum(incrs) + WINDOW < WRITE_ID_MAX - 1))
  {
    AdvanceCycles(id, incrs);
    CycleIs(id, Sum(incrs));
  }

  /** In particular after a total of 1 .. 2^32, wrapped or not. */
  lemma NewerIsGreater(id: nat, incrs: seq<nat>)
    requires 1 <= id < WRITE_ID_MAX && Steps(incrs) && 1 <= Sum(incrs) <= WINDOW
    ensures 0 < Advance(id, incrs) < WRITE_ID_MAX && Greater(Advance(id, incrs), id)
  {
    AdvancedIsGreater(id, incrs);
  }

  /** The comparison is not antisymmetric: within the window the start compares greater than the id advanced from it
      if and only if the walk wrapped. */
  lemma OlderIsGreater(id: nat, incrs: seq<nat>)
    requires 1 <= id < WRITE_ID_MAX && Steps(incrs) && Sum(incrs) <= WINDOW
    ensures var now := Advance(id, incrs);
      0 < now < WRITE_ID_MAX && (Greater(id, now) <==> id + Sum(incrs) >= WRITE_ID_MAX)
  {
    AdvanceCycles(id, incrs);
    CycleIs(id, Sum(incrs));
  }

  lemma CycleIs(id: nat, n: nat)
    requires 1 <= id < WRITE_ID_MAX && n < WRITE_ID_MAX - 1
    ensures Cycle(id, n) == if id + n < WRITE_ID_MAX then id + n else id + n - (WRITE_ID_MAX - 1)
  {
    var unit := WRITE_ID_MAX - 1;
    if id + n < WRITE_ID_MAX {
      Parts(id - 1 + n, 0, unit);
    } else {
      Parts(id - 1 + n - unit, 1, unit);
    }
  }

  /** One step across the wrap compares greater both ways. */
  lemma BothGreater()
    ensures var id := 0xFFFF_FFFF_FFFE; Incr(id, 1) == 1 && Greater(1, id) && Greater(id, 1)
    ensures Greater(0, 0x1_0000_0001) && !Greater(0, 0x1_0000_0000)
  {
  }

  // ---------- The id of an address map page ----------

  /** An address map page and the last eight octets of its image: a 16-bit checksum below, the id above it. */
  class AmapPage {
    var writeId: nat
    var word: nat

    ghost predicate Valid()
      reads this
    {
      writeId < WRITE_ID_MAX
    }

    constructor ()
      ensures Valid() && writeId == 0
    {
      writeId, word := 0, 0;
    }

    /** amap_write_csum. On a version 2 disk `given` is what the caller asks for, and the image carries a 16-bit checksum
        and above it the page's id; an older disk always takes the next id and carries a 64-bit checksum. The id stays an
        id: taking the next one never gives a sentinel, and asking for WRITE_ID_MAX changes only the checksum. */
    method WriteCsum(v2: bool, given: nat, skip: nat, csum16: nat, csum64: nat)
      requires Valid() && given <= WRITE_ID_MAX && 0 < skip < WINDOW && csum16 < 0x1_0000
      modifies this
      ensures Valid()
      ensures if v2 then word % 0x1_0000 == csum16 && word / 0x1_0000 == writeId else word == csum64
      ensures given == 0 || !v2 ==> writeId == Advance(old(writeId), [skip]) && writeId != 0
      ensures v2 && given == WRITE_ID_MAX ==> writeId == old(writeId)
      ensures v2 && 0 < given < WRITE_ID_MAX ==> writeId == given
    {
      var id := given;
      if !v2 || id == 0 {
        id := Incr(writeId, skip);
        assert [skip][..0] == [];
        assert Advance(writeId, [skip][..0]) == writeId;
      } else if id == WRITE_ID_MAX {
        id := writeId;
      }
      word := if v2 then csum16 + id * 0x1_0000 else csum64;
      writeId := id;
      Parts(csum16, id, 0x1_0000);
    }
  }
}
