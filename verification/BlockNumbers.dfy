/** Sector numbers of a device and the allocation units of its index pages. */
module BlockNumbers {
  import opened Arithmetic

  /** BMAP_ENTRIES_UNCOMP: units to an index page. */
  const UNITS := 640

  /** Units are 1 KB on a device that holds compressed pages and 4 KB otherwise. Sectors above 4 KB are refused, and
      compression is switched off unless sectors are 512 or 1024 octets. */
  predicate Sizes(unit: nat, sector: nat) {
    (unit == 4096 && sector in {512, 1024, 2048, 4096}) || (unit == 1024 && sector in {512, 1024})
  }

  /** block_from_index. */
  function BlockFrom(unit: nat, sector: nat, index: nat, offset: nat): nat
    requires Sizes(unit, sector)
  {
    (index * UNITS + offset) * unit / sector
  }

  /** index_id_from_block. */
  function IndexFrom(unit: nat, sector: nat, block: nat): (nat, nat)
    requires Sizes(unit, sector)
  {
    var u := block * sector / unit;
    (u / UNITS, u - u / UNITS * UNITS)
  }

  /** Scaling up to a multiple and back. */
  lemma Through(x: nat, k: nat, sector: nat)
    requires k > 0 && sector > 0
    ensures x * (k * sector) / sector * sector / (k * sector) == x
  {
    assert x * (k * sector) == x * k * sector;
    Parts(0, x * k, sector);
    assert x * k * sector == x * (k * sector);
    Parts(0, x, k * sector);
  }

  /** Every unit of every index is found again from its sector number. */
  lemma UnitFound(unit: nat, sector: nat, index: nat, offset: nat)
    requires Sizes(unit, sector) && offset < UNITS
    ensures IndexFrom(unit, sector, BlockFrom(unit, sector, index, offset)) == (index, offset)
  {
    var u := index * UNITS + offset;
    Back(unit, sector, u);
    Parts(offset, index, UNITS);
  }

  lemma Back(unit: nat, sector: nat, u: nat)
    requires Sizes(unit, sector)
    ensures u * unit / sector * sector / unit == u
  {
    var k := unit / sector;
    assert unit == k * sector;
    Through(u, k, sector);
  }

  /** The sector number is that of the unit's first octet, 640 units to an index. */
  lemma SectorIs(unit: nat, sector: nat, index: nat, offset: nat)
    requires Sizes(unit, sector)
    ensures BlockFrom(unit, sector, index, offset) * sector == (index * 640 + offset) * unit
  {
    var u, k := index * 640 + offset, unit / sector;
    assert unit == k * sector;
    assert u * unit == u * k * sector;
    Parts(0, u * k, sector);
  }

  /** Two units never share a sector number. */
  lemma UnitsDiffer(unit: nat, sector: nat, index: nat, offset: nat, index': nat, offset': nat)
    requires Sizes(unit, sector) && offset < UNITS && offset' < UNITS
    requires BlockFrom(unit, sector, index, offset) == BlockFrom(unit, sector, index', offset')
    ensures index == index' && offset == offset'
  {
    hide IndexFrom, BlockFrom;
    UnitFound(unit, sector, index, offset);
    UnitFound(unit, sector, index', offset');
  }

  /** And a sector number is given back exactly when it begins a unit. */
  lemma SectorFound(unit: nat, sector: nat, block: nat)
    requires Sizes(unit, sector)
    ensures var (index, offset) := IndexFrom(unit, sector, block);
      offset < UNITS && (BlockFrom(unit, sector, index, offset) == block <==> block * sector % unit == 0)
  {
    var u, r := block * sector / unit, block * sector % unit;
    assert u / UNITS * UNITS + (u - u / UNITS * UNITS) == u;
    Down(block, u, r, unit, sector);
  }

  lemma Down(block: nat, u: nat, r: nat, unit: nat, sector: nat)
    requires unit > 0 && sector > 0 && block * sector == u * unit + r
    ensures u * unit / sector == block <==> r == 0
  {
    var q := u * unit / sector;
    assert u * unit == q * sector + u * unit % sector;
    if r == 0 { Parts(0, block, sector); }
  }
}
