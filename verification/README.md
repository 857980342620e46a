# quadstorvirt: a verified model of the storage core

quadstorvirt is a kernel block-storage target. It deduplicates and compresses 4 KB pages, allocates disk space in
reference-counted units, commits its metadata in groups and recovers it from a write log. This project models the parts
of that core where a mistake loses data, and proves for all inputs, all runs or all reachable states that they do what
the rest of the system relies on. `dafny verify dfyconfig.toml` checks everything.

Where the source works in place, so does the model: arrays and loops for the codecs and the packed pages, classes for
index pages, lookup nodes, subgroups, digest contexts and the log. Every such method is tied by its contract to a
function of the old state, and the theorems are about those functions.

**Compression.** `Lz4Format` and `LzfFormat` say what a compressed block means, octet by octet. `Lz4Decoder` and
`LzfDecoder` are the decoders of the source, with word copies, correction tables and bounds tests; they compute that
meaning for every input. `Lz4Encoder` and `LzfEncoder` are the encoders; whatever they emit means their input, they stay
inside the room they are given, and the documented room is always enough. `RoundTrips` joins the two sides.
`PagePipeline` takes a page through either codec, the two-octet header, the 3-bit size code of a block address, the disk
and back.

**Space.** `PackedBits` is the bit-packed array of an index page: numbers packed across 64-bit words. `Units` says what
each operation does to those numbers and `BlockIndex` does it in place, keeping the free-space counters of disk and pool
and the full bitmap of `FullMap` exact. `BatchAlloc` allocates for a list of pages in which equal pages share an extent.
`IndexRuns` takes all indexes of a group through arbitrary runs of these operations. `BlockNumbers` is the arithmetic
between sectors and units.

**Deduplication.** `Dedupe` is a state machine over index pages, lookup nodes and the holders of each extent, in which
nodes may hold stale entries at any time. Its invariant gives soundness over every run: an entry accepted because its
block points back at the node names a live extent with the digest looked up. `LookupNode` is the code under the node
lock. `BatchRefines` and `DedupeRefines` show that the real operations on real pages and nodes are steps of the machine.

**Commit and recovery.** `GroupCommit` proves that a waiter is released only after a write of its page submitted after it
registered. `WriteIds` is the cyclic order of write ids; `LogPages` the packed write log and its reading back;
`LogReplay` replay into the address maps; `CrashRecovery` says what replay makes of a page that is behind its log, for any
ids. `Durability` puts page and log together: stop any run anywhere with the ids inside their window, and replay gives back
what the page held in memory if and only if a stated condition on the log holds. It always holds for a page that was found
with an id, and can fail for one that an earlier replay had made. `DurableLog` shows that the log pages and the start-up of
a pool carry out this machine, and `ReplayAgain` that crashes during replay make no difference. `Digest` is the streaming
collector of the message digest.

Results about the source that a reader may not expect:

- The write-id comparison is not antisymmetric. Within its window the older id compares greater than the newer one if and
  only if the ids wrapped in between (`WriteIds.OlderIsGreater`). Replay then skips the newer changes
  (`CrashRecovery.Recovers` says exactly which, `CrashRecovery.WrapLoses` is a concrete case).
- A stored change can be undone. A page that replay makes again is stored with id 0. Its next changes are logged with id 0,
  and replay never tests such an entry. If two more versions of the page are stored and the machine stops while those entries
  are still in the log, replay puts their blocks over newer ones (`Durability.Undone` is a run that ends so,
  `CrashRecovery.ZeroIdUndoes` the page alone). `Durability.Durable` says exactly when that happens: some lba in those
  entries is not set again after the stored version, and its last block there is not the stored one.
- A page made again by replay takes an entry only if its id is at most 2^32, since id 0 compares greater than every id above
  (`CrashRecovery.RecoversCreated`). A page born here starts with id 1, so nothing is lost unless it uses more than 2^32 ids
  while its whole log is kept (`CrashRecovery.RecoversNew`).
- A second replay after a crash in the first can differ from it if an entry for a page comes before the entry that creates
  the page (`ReplayAgain.OutOfOrder`). Otherwise it cannot, whatever was stored (`ReplayAgain.Again`).
- The comment above `lzf_compress` speaks of 33 literals and offsets up to 4096. The code uses runs of 32 and offsets up
  to 8192, and so does the model. The comments in `rawdefs.h` give 44 and 15 bits for block and disk numbers; the
  constants are 38 and 9.

## Model

| member | source | states |
|---|---|---|
| `RoundTrips.Lz4` | core/lz4.c:388-680 | for every input below the 64 KB limit and every room, what was compressed decodes into a buffer of the original size to the original length and octets; LZ4_COMPRESSBOUND is always room enough |
| `RoundTrips.Lzf` | core/lzf_c.c:99-291 | for every input, every content of the hash table, every room and every buffer no shorter than the input, a successful compression decompresses to the input; the size bound and the room that guarantees success |
| `Lz4Format.ReadStep` | core/lz4.c:589-637 | the head of a block is either the last run, which must fit, or literals and a match that leave the end-of-block margins, and the rest is shorter |
| `Lz4Format.ReadMatch` | core/lz4.c:623-637 | after the literals there is always a match, and at least one octet of the block remains behind it |
| `Lz4Format.Decode` | core/lz4.c:583-674 | the reference reading never produces more than the size asked for |
| `Lz4Format.ProducedIs` | core/lz4.c:583-674 | the number of octets a block produces, which is defined for zero offsets too, is the length of what it decodes to and -1 when it is malformed |
| `Lz4Format.ReadLengthBytes` | core/lz4.c:591-599 | a length written as nibble and continuation is read back as itself, for every length and any following octets |
| `Lz4Format.ReadSequence` | core/lz4.c:589-637 | a written sequence is read back as its literals, offset and length, provided the margins at the end of the block are kept |
| `Lz4Format.DecodeLast` | core/lz4.c:603-619 | a final run decodes to its literals exactly when it fills the size |
| `Lz4Format.KnownSequence` | core/lz4.c:589-637 | given octets: literal count in the high four bits of the token, match length less four in the low ones, offset with its low octet first |
| `Lz4Format.KnownLast` | core/lz4.c:603-619 | given octets: a last run of five |
| `Lz4Format.ProducesSequence` | core/lz4.c:430-500 | appending a sequence to a block prefix extends what every continuation decodes to by the literals and the overlapping copy |
| `Lz4Format.ProducesAll` | core/lz4.c:515-527 | a prefix closed by a last run of at least five literals decodes to the whole text |
| `Lz4Encoder.FindMatch` | core/lz4.c:426-446 | a match found repeats four octets no further back than 65535 and starts before the margin; the table holds only earlier positions; if the table knows the four octets at the start, that match is found; and no place within 60 of the start whose four octets repeat those one before is passed over |
| `Lz4Encoder.CatchUp` | core/lz4.c:448-449 | the match is extended backwards as far as possible without passing the anchor |
| `Lz4Encoder.CommonBytes` | core/lz4.c:281-311 | the number of leading octets two different words share |
| `Lz4Encoder.CountMatch` | core/lz4.c:471-484 | counting by eights, four, two and one stops exactly at the first mismatch before the limit |
| `Lz4Encoder.PutExtension` | core/lz4.c:456-462 | writes the continuation of a length and nothing beyond the room |
| `Lz4Encoder.PutMatchExtension` | core/lz4.c:489-496 | writing 255s in pairs gives the same continuation |
| `Lz4Encoder.PutLiterals` | core/lz4.c:452-465 | token, run length and literals are written, or the limit test refuses, exactly when the margin would be overrun |
| `Lz4Encoder.PutMatch` | core/lz4.c:467-497 | completes the token and appends offset and match length, or refuses by the limit test |
| `Lz4Encoder.PutLast` | core/lz4.c:515-524 | the last run is written exactly when the block fits |
| `Lz4Encoder.WrittenSequence` | core/lz4.c:430-509 | the output after a match still means the input so far, and has grown by at most one octet in 255 |
| `Lz4Encoder.EncodeMatch` | core/lz4.c:467-500 | keeps that invariant from literals already written to the end of a maximal match; refuses only below LZ4_COMPRESSBOUND |
| `Lz4Encoder.EncodeSequence` | core/lz4.c:426-500 | keeps the invariant over one whole sequence, whether searched for or chained to the previous match; an input of equal octets is one literal and one match up to its last five octets |
| `Lz4Encoder.Sequences` | core/lz4.c:388-513 | keeps the invariant over the main loop, which runs out of room only below LZ4_COMPRESSBOUND |
| `Lz4Encoder.NextPosition` | core/lz4.c:502-512 | a chained match repeats four octets within the distance limit, and there is one exactly if the table, filled two places back, knows the four octets here |
| `Lz4Encoder.Compress` | core/lz4.c:530-541 | a non-zero result is the size of a block that means the input; nothing outside the room changes; LZ4_COMPRESSBOUND octets suffice; n equal octets, for n at least 14, shrink to exactly 10 + (n + 230) / 255 |
| `Lz4Decoder.Corrections` | core/lz4.c:573-574 | what the two tables achieve: for offsets below eight the corrected distances are multiples of the offset and at least four and eight |
| `Lz4Decoder.PeriodContinues` | core/lz4.c:639-662 | copying from a multiple of the period back continues the period |
| `Lz4Decoder.FirstEight` | core/lz4.c:639-651 | the first eight octets of a match repeat with the offset, although they are written as four octets and a word |
| `Lz4Decoder.CopyRest` | core/lz4.c:652-662 | the remaining words, stopped short of the end of the buffer, repeat with the distance |
| `Lz4Decoder.CopyRepeated` | core/lz4.c:639-663 | the wide copy leaves exactly what copying octet by octet would, for every offset of at least one and every length the tests allow |
| `Lz4Decoder.Length` | core/lz4.c:591-599 | the length loop computes the reference length and consumes the same octets |
| `Lz4Decoder.DecodeOne` | core/lz4.c:584-663 | one turn of the loop does what the reference step says, error cases included |
| `Lz4Decoder.Decompress` | core/lz4.c:676-680 | for every input, the empty one included, the result is the number of octets the block produces, or negative when it is malformed; the octets are those of the reference reading unless an offset is zero; nothing is written beyond the size |
| `LzfFormat.ReadStep` | core/lzf_d.c:64-127 | the head of a stream consumes input and a back reference goes back at least one octet |
| `LzfFormat.Decode` | core/lzf_d.c:55-184 | the reference reading keeps what was produced and stays within the size |
| `LzfFormat.ReadCopyBytes` | core/lzf_c.c:207-220 | a written back reference, short or long form, is read back as its offset and length |
| `LzfFormat.ProducesRun` | core/lzf_c.c:263-270 | a closed run extends what the stream means by its literals |
| `LzfFormat.ProducesCopy` | core/lzf_c.c:207-222 | a back reference extends it by the overlapping copy |
| `LzfFormat.MoreRoom` | core/lzf_d.c:72-76 | a stream that fits a buffer means the same in any larger one |
| `LzfFormat.KnownStream` | core/lzf_d.c:64-160 | given octets: a run of two and a copy of five from two back |
| `LzfFormat.KnownCopy` | core/lzf_d.c:64-160 | given octets: the longest copy from the farthest place |
| `LzfEncoder.MatchLength` | core/lzf_c.c:164-205 | sixteen unrolled comparisons and a loop find a repetition of 3 to 264 octets inside the input, and stop before that only at a difference or two octets from the end |
| `LzfEncoder.CloseRun` | core/lzf_c.c:172-173 | writing the control octet back before its literals makes the run part of the stream |
| `LzfEncoder.AddLiteral` | core/lzf_c.c:259-270 | keeps the stream invariant; a run of 32 is closed and a new one begun |
| `LzfEncoder.StopRun` | core/lzf_c.c:172-173 | ends the run in progress, undoing an empty one, with the stream meaning the input so far |
| `LzfEncoder.PutCopy` | core/lzf_c.c:207-220 | writes the two or three octets of a back reference |
| `LzfEncoder.AddMatch` | core/lzf_c.c:162-224 | keeps the invariant across a match, refuses exactly when fewer than five octets remain, writes at most three octets for it and takes it as far as it goes |
| `LzfEncoder.Turn` | core/lzf_c.c:138-271 | one turn of the main loop; on equal octets there is always a match from the third octet on, whatever the table held |
| `LzfEncoder.Scan` | core/lzf_c.c:138-271 | keeps the invariant over the main loop for any table content; fails only with less than the promised room |
| `LzfEncoder.Finish` | core/lzf_c.c:276-290 | the finished stream means the input and is at most one octet in 32 and one octet longer |
| `LzfEncoder.Compress` | core/lzf_c.c:99-291 | for every input: the round trip, the size bound, nothing written outside the room, and the room that guarantees success; n equal octets shrink to at most n / 88 + 10 |
| `LzfDecoder.CopyBack` | core/lzf_d.c:141-177 | block copy and octet loop both leave the overlapping copy |
| `LzfDecoder.ReadBack` | core/lzf_d.c:102-127 | length and distance are those of the reference reading; failure exactly when the input is cut short |
| `LzfDecoder.DecodeOne` | core/lzf_d.c:64-180 | one control octet does what the reference step says, and succeeds exactly when that fits |
| `LzfDecoder.Decompress` | core/lzf_d.c:55-184 | computes the reference reading, and returns zero exactly when that fails or the input is empty |
| `PagePipeline.AddressParts` | core/amap.h:170-187 | block number, disk and size are all recovered from an address, for every size a block can have |
| `PagePipeline.AddressLayout` | core/amap.h:170-187 | where the parts are in the address |
| `PagePipeline.AlignLeast` | core/coredefs.h:96-103 | the least multiple of the boundary that is not below the size |
| `PagePipeline.Deflate` | core/kernint.c:54-84 | success leaves a header, low octet first, and a compressed form of the page, of at most 3072 octets, whatever the work memory held; a page of equal octets always succeeds, in at most 58 octets |
| `PagePipeline.Restored` | core/kernint.c:86-116 | those octets followed by anything expand to the page, by the algorithm the header names |
| `PagePipeline.Inflate` | core/kernint.c:86-116 | succeeds exactly when the stored page expands to 4096 octets, and leaves them |
| `PagePipeline.RoundTrip` | core/gdevq.c:201-215 | a compressed page has a size of 1, 2 or 3 KB, that size comes back from the block address, and inflating what the disk returned gives the page; a page of equal octets is compressed |
| `PackedBits.ToFromNat` | core/bdevmgr.h:580-640 | a value that fits in n bits is what those bits stand for |
| `PackedBits.MaskValue` | core/bdevmgr.h:580-640 | a mask of n bits is 2^n - 1, and shifting it by k multiplies by 2^k |
| `PackedBits.GetBlockBits` | core/bdevmgr.h:613-640 | the masks and shifts of a read pick exactly the bits of the entry, straddling or not |
| `PackedBits.SetBlock` | core/bdevmgr.h:580-611 | the masks and shifts of a write set exactly the bits of the entry and no other bit of the array |
| `PackedBits.UnpackAfter` | core/bdevmgr.h:580-640 | after a write the array is the old array with one entry replaced, for every width from 1 to 63 |
| `PackedBits.WordAfter` | core/bdevmgr.h:162-166 | words behind the last entry, such as the checksum, are untouched |
| `PackedBits.RestAfter` | core/bdevmgr.h:580-611 | no bit behind the last entry changes |
| `PackedBits.SameArray` | core/bdevmgr.h:580-640 | the entries and the bits behind them determine every bit of the array |
| `PackedBits.Page.Get` | core/amap.h:127-132 | reads the entry's value |
| `PackedBits.Page.Set` | core/amap.h:119-125 | replaces one entry; all other entries and every bit behind them stay |
| `FullMap.ClearAfter` | core/bdevmgr.c:1287-1370 | changing one bit moves a range's count by one exactly when the bit lies in it and changes |
| `FullMap.Group.constructor` | core/bdevmgr.c:2913-2921 | a new group has no full index and counts every index as free |
| `FullMap.Group.Load` | core/bdevmgr.c:2871-2885 | for every bitmap found on disk the counters of group and subgroups become the numbers of clear bits in their ranges |
| `FullMap.Group.SubgroupLoadInit` | core/bdevmgr.c:2871-2885 | one subgroup adds exactly its clear bits to its own counter and to the group counter |
| `FullMap.Group.Mark` | core/bdevmgr.c:1286-1315 | sets the bit and keeps both counters equal to the clear bits of their ranges: one less in the group and in the subgroup of 512 that holds the index, if the bit was clear |
| `FullMap.Group.Unmark` | core/bdevmgr.c:1340-1370 | clears the bit and keeps the counters, one more in both if the bit was set |
| `Units.UsedAfter` | core/bdevmgr.c:311-354 | how one changed unit changes the number in use |
| `Units.ReplaysAdd` | core/bdevmgr.c:1686-1716 | what any sequence of replays leaves in a unit: each data replay over it adds a reference up to 8191, a metadata replay only takes a free unit, and an added reference drops the node pointer |
| `Units.ReplaysOfOneKind` | core/bdevmgr.c:1686-1716 | from c references n data replays leave min(c + n, 8191), metadata replays leave 1 or the old value, and a unit outside every extent is untouched |
| `BlockIndex.Index.constructor` | core/bdevmgr.c:2666-2681 | a new index page is consistent, with every unit free |
| `BlockIndex.Index.Load` | core/bdevmgr.c:766-794 | an index read from disk is consistent, with nothing known of its free units or its bit, whatever the page holds in units with references |
| `BlockIndex.Index.MarkBlocks` | core/bdevmgr.c:1372-1389 | a free run gets one reference each; disk space plus space in use stays constant and the pool follows |
| `BlockIndex.Index.FindRun` | core/bdevmgr.c:1555-1600 | the first run of free units from the scan position, or proof that there is none |
| `BlockIndex.Index.AllocBlock` | core/bdevmgr.c:1555-1613 | first fit, marked; or nothing changed and no run exists; the index is reported full exactly when the scan reached its end |
| `BlockIndex.Index.MarkFull` | core/bdevmgr.c:1286-1315 | the bit is set, the index forgets having cleared it, and stays consistent |
| `BlockIndex.Index.AllocAndMark` | core/bdevmgr.c:4239-4270 | first fit from the scan position; an index is marked full if and only if the scan reached its end, and then, on the fast path, is to be loaded again; no other bit changes and space is conserved |
| `BlockIndex.Index.MarkReserved` | core/bdevmgr.c:2930-2952 | the first units of a new index are never handed out, as many as are still to reserve, and an index made of them only is marked full |
| `BlockIndex.Index.RefBlock` | core/bdevmgr.c:1615-1684 | all or nothing: the exact error code; on any error every bit of the page is as before; on success one reference more on every unit with node pointers kept, and nothing behind the units touched |
| `BlockIndex.Index.RefThenFree` | core/bdevmgr.c:1615-1684 | a reference and then a free of the same extent leave every bit of the page, the free space and the bitmap as they were, whatever the verdict on the reference |
| `BlockIndex.Index.FreeBlock` | core/bdevmgr.c:1897-1957 | one reference less on the units that agree with the first, early stop included; space is conserved; after a release the bit of the index is clear and remembered as such; no other bit of bitmap or page changes |
| `BlockIndex.Index.SetNodeBlock` | core/bdevmgr.c:1789-1822 | only an allocated unit without a node pointer gets one, and its count is kept |
| `BlockIndex.Index.LogReplay` | core/bdevmgr.c:1686-1716 | data adds a reference up to the maximum, metadata marks a free unit; space is conserved and nothing behind the units touched |
| `BlockIndex.Index.ReplayAll` | core/bdevmgr.c:1686-1716 | a sequence of replays on one page leaves what `Units.ReplaysAdd` says, and conserves space |
| `BlockIndex.Index.CheckLoad` | core/bdevmgr.c:1093-1140 | the free count and first free unit are exact, and the bit is set exactly when none is free |
| `BatchAlloc.RefBlocks` | core/bdevmgr.c:1391-1409 | on an extent with equal counts, all units or none are referenced |
| `BatchAlloc.GrantedMore` | core/bdevmgr.c:1459-1552 | adding a sound grant keeps all grants sound and accounts for its page |
| `BatchAlloc.ScanDuplicates` | core/bdevmgr.c:1411-1457 | each page of the list with the same digest shares the extent or stays in the list, never both, and stays only if the extent is at the maximum |
| `BatchAlloc.AllocForPgdata` | core/bdevmgr.c:1459-1552 | every page is granted exactly one extent or stays, and stays only if the scan reached the end; a fresh extent was free and is as long as its page in whole units, 4096 octets if compression brought the page below a unit; duplicates share an earlier extent of equal digest, and a page gets its own only when none is left to share; space is conserved |
| `IndexRuns.AllocBatch` | core/bdevmgr.c:4318-4379 | an index that could not serve the whole list is marked full and is to be loaded again, otherwise neither changes; grants and the rest account for every page of the list, consistent throughout |
| `IndexRuns.DoOne` | core/bdevmgr.c:1093-1140 | each operation does to its page what its unit function says, changes no bit of the bitmap but its own, and a release leaves that clear |
| `IndexRuns.IndexGroup.Do` | core/bdevmgr.c:1897-1957 | one operation on one of several indexes: the others keep units, bits and consistency, and the space of the whole group is conserved |
| `IndexRuns.IndexGroup.Run` | core/bdevmgr.c:1093-1140 | over every run on any indexes of a group each operation changes its own page, as its unit function says, and no other; all stay consistent, both levels of counters equal the clear bits, space is neither lost nor made, and an index released by a free is not marked full unless an allocation or load has marked it since |
| `BlockNumbers.UnitFound` | core/bdevmgr.h:644-668 | every unit of every index is found again from its sector number, on every device the source accepts (core/bdevmgr.c:4053 and 4116-4119 rule the others out) |
| `BlockNumbers.UnitsDiffer` | core/bdevmgr.h:644-653 | two units never have the same sector number |
| `BlockNumbers.SectorIs` | core/bdevmgr.h:644-653 | the sector number is that of the first octet of the unit, 640 units to an index |
| `BlockNumbers.SectorFound` | core/bdevmgr.h:644-668 | a sector number is given back if and only if it begins a unit |
| `Dedupe.OverlapsIff` | core/ddtable.c:2112-2122 | two blocks overlap if and only if some unit is in both |
| `Dedupe.LookupSound` | core/ddtable.c:1556-1658 | in a good state a block accepted because its first unit points at the node is live and holds the entry's digest, despite stale entries anywhere |
| `Dedupe.AllocFresh` | core/bdevmgr.c:1555-1613 | a free run shares no unit with any held extent |
| `Dedupe.RefLive` | core/bdevmgr.c:1615-1684 | referencing a held extent fails only at the maximum count |
| `Dedupe.AllocKeeps` | core/bdevmgr.c:1555-1613 | allocation keeps the invariant: disjoint extents whose counts equal their holders, every unit in use owned, at most one covering entry in the node pointed at |
| `Dedupe.ShareKeeps` | core/tdisk.c:3915-3930 | so does another reference without a node |
| `Dedupe.LookupKeeps` | core/ddtable.c:1556-1763 | so does a lookup, accepted or refused |
| `Dedupe.InsertKeeps` | core/ddtable.c:2124-2230 | so does making content known, with clearing and replacement of entries |
| `Dedupe.FreeKeeps` | core/ddthread.c:183-246 | so does a free, last or not, whether or not the entry is removed |
| `Dedupe.ForgetKeeps` | core/ddtable.c:1692-1763 | so does dropping any entry |
| `Dedupe.StepKeeps` | core/ddtable.c:1507-1763 | every step keeps the invariant |
| `Dedupe.RunInv` | core/ddtable.c:1507-1763 | it holds in every state of every run from free pages and arbitrarily stale nodes |
| `Dedupe.DedupeSound` | core/ddtable.c:1556-1658 | in every run an accepted lookup returns a live block with the digest and adds exactly one holder |
| `Dedupe.HitHappens` | core/ddtable.c:1556-1658 | lookups are really accepted: a run that stores a page, makes it known and looks it up ends with two holders |
| `Dedupe.NoSecondHandout` | core/bdevmgr.c:1897-1957 | between two overlapping allocations in a run, the last holder of the first has freed it |
| `Dedupe.NodeStable` | core/ddthread.c:162-224 | a held extent's node pointer does not change, so it may be read, the lock dropped, and the node found before the free |
| `Dedupe.ApartKept` | core/ddtable.c:2112-2230 | entries of a node stay pairwise non-overlapping under every step |
| `Dedupe.FreeForgets` | core/ddtable.c:2088-2110 | removing the first match for a freed block leaves no entry covering it in its node |
| `LookupNode.Node.ClearInvalidEntries` | core/ddtable.c:2124-2186 | drops exactly the overlapping entries and finds the last empty slot |
| `LookupNode.Node.FindEntry` | core/ddtable.c:1692-1743 | on behalf of a lookup: the first entry with the digest on a disk of the pool, with entries of missing disks before it dropped and nothing else |
| `LookupNode.Node.ScanForInsert` | core/ddtable.c:1671-1763 | on behalf of an insertion: an entry with the digest is replaced by one for the new block, or nothing but entries of missing disks goes and the slot remembered is the first free one, else the oldest entry seen on any node |
| `LookupNode.Node.SetNodeBlock` | core/ddtable.c:1507-1554 | pointer and entry are both written, or neither |
| `LookupNode.Node.InsertEntry` | core/ddtable.c:2188-2230 | clears overlaps, then inserts in the last free slot, else the chosen one, else at the end; refuses exactly for a block already known or free, or a full node without a choice |
| `LookupNode.Node.HashRemoveBlock` | core/ddtable.c:2088-2110 | removes the first entry for exactly this block |
| `LookupNode.Node.BlockInfoGet` | core/ddtable.c:1556-1658 | takes a reference exactly when the block still points at the node, otherwise drops the entry |
| `LookupNode.DeleteBlock` | core/ddthread.c:183-246 | frees, and removes the entry exactly when that released the block |
| `BatchRefines.BatchIsRun` | core/bdevmgr.c:1411-1552 | sound grants are a run of the machine that ends in a good state where every granted page holds a live extent with its own digest |
| `BatchRefines.RunMore` | core/bdevmgr.c:1459-1552 | a run followed by such a chain of steps is a run, so soundness covers it |
| `DedupeRefines.LookUp` | core/ddtable.c:1556-1763 | the lookup code on a real node and page is a step of the machine; a block it accepts is live with the digest |
| `DedupeRefines.Allocate` | core/bdevmgr.c:1555-1613 | so is allocation, and the extent overlaps no held one |
| `DedupeRefines.TakeShare` | core/bdevmgr.c:1615-1684 | so is another reference on a held block, which fails only at the maximum |
| `DedupeRefines.MakeKnown` | core/ddtable.c:2188-2230 | so is insertion into a node; a refused one is a chain of steps that each forget an entry |
| `DedupeRefines.ForgetAll` | core/ddtable.c:2124-2186 | dropping any entries of a node is a chain of steps that each forget one |
| `DedupeRefines.Replace` | core/ddtable.c:1692-1763 | so is the scan on behalf of an insertion: entries forgotten, then, if the digest is there, its replacement |
| `DedupeRefines.LetGo` | core/ddthread.c:183-246 | so is the free path, which releases the block exactly when its last holder lets go |
| `DedupeRefines.AllocateBatch` | core/bdevmgr.c:1459-1552 | batch allocation on a real page is a run of the machine, accounts for every page of the list, gives each page its size and shares before it allocates |
| `GroupCommit.Subgroup.StartWrites` | core/bdevmgr.h:803-817 | both counters go up and the waiter joins its index |
| `GroupCommit.Subgroup.AddWaiter` | core/bdevmgr.h:879-884 | a waiter that joins an index without starting a write rides with its next one |
| `GroupCommit.Subgroup.AddWriteIndex` | core/bdevmgr.h:770-791 | an index is queued once, in index order |
| `GroupCommit.Subgroup.SubmitWrites` | core/bdevmgr.c:558-606 | all queued pages take off in one write with all waiters |
| `GroupCommit.Subgroup.EndWrites` | core/bdevmgr.h:846-868 | the last writer of an index queues it and hands its waiters over; the last of the subgroup submits |
| `GroupCommit.Subgroup.IoCompleted` | core/bdevmgr.c:507-549 | waiters are completed by the last request of their write |
| `GroupCommit.StartKeeps` | core/bdevmgr.h:803-817 | starting keeps the invariant |
| `GroupCommit.EndKeeps` | core/bdevmgr.h:846-868 | ending keeps it, with or without a submission |
| `GroupCommit.BioKeeps` | core/bdevmgr.c:507-549 | completion keeps it |
| `GroupCommit.StepView` | core/bdevmgr.h:740-868 | each step of the machine changes lists and counters as the method of the class does |
| `GroupCommit.RunInv` | core/bdevmgr.h:740-868 | the invariant holds in every state of every interleaving |
| `GroupCommit.GroupCommitSafe` | core/bdevmgr.c:507-606 | in every interleaving each waiter is in exactly one list, the subgroup count is the sum of its index counts, a waiter is done only after a write of its page submitted after it registered, and a zero count leaves no started waiter unsubmitted |
| `GroupCommit.CallsEnabled` | core/bdevmgr.h:740-868 | in every state of every run each call the source can make is a step |
| `GroupCommit.SubmitIff` | core/bdevmgr.h:795-801 | in every run a write is submitted by an end if and only if the index counts sum to one before it; then no index has a writer |
| `GroupCommit.QueuedIff` | core/bdevmgr.h:846-868 | in every run a page is queued by the end of the last writer of its index, and only then |
| `GroupCommit.HandedOver` | core/bdevmgr.h:846-868 | and its waiters leave the index at that step and no other |
| `GroupCommit.SubmittedPages` | core/bdevmgr.c:558-606 | in every run a write takes exactly the pages whose indexes got a writer since the write before, in index order |
| `GroupCommit.RequestsLeft` | core/bdevmgr.c:507-549 | in every run a write is finished only when each of its requests has been completed |
| `Digest.FewestZeros` | core/md32_common.h:354-363 | the padding uses the fewest zeros that leave eight octets in the last block |
| `Digest.FoldBlock` | core/md32_common.h:318-330 | blocks are digested in order, the first one first |
| `Digest.PaddedIs` | core/md32_common.h:349-376 | the octets digested are the padded message of section 5.1.1 of FIPS 180-4, and no others: the message, 0x80, the fewest zeros, the length in bits in eight octets, the most significant first |
| `Digest.BitsMore` | core/md32_common.h:293-299 | the two words hold eight times the total length modulo 2^64, with the carry taken from a wrap-around |
| `Digest.Context.Update` | core/md32_common.h:282-340 | the context stands for the message with the input appended, however it is cut |
| `Digest.Context.Final` | core/md32_common.h:349-385 | the state is the block function folded over the message padded as in section 5.1.1 of FIPS 180-4 |
| `Digest.PaddedParts` | core/md32_common.h:351-376 | the one or two blocks digested at the end are the end of the padded message |
| `Digest.DigestPieces` | core/sha256.c:24-34 | for every way of cutting a message into updates the result depends on the joined message only |
| `WriteIds.AdvanceCycles` | core/bdevmgr.h:187-200 | any sequence of increments walks the cycle 1 to 2^48 - 2 and never yields a sentinel |
| `WriteIds.AdvancedIsGreater` | core/bdevmgr.h:170-200 | exactly when an advanced id compares greater than its start, for any total short of a full turn |
| `WriteIds.NewerIsGreater` | core/bdevmgr.h:170-200 | always after a total of 1 to 2^32, wrapped or not |
| `WriteIds.OlderIsGreater` | core/bdevmgr.h:170-185 | within that window the start compares greater than the advanced id if and only if the walk wrapped |
| `WriteIds.BothGreater` | core/bdevmgr.h:170-185 | one step across the wrap compares greater both ways; id 0 compares greater than ids above 2^32 only |
| `WriteIds.AmapPage.WriteCsum` | core/amap.c:237-258 | on version 2 disks the image carries checksum and id separately, asking for the next id never stores a sentinel and asking for WRITE_ID_MAX keeps the id; older disks always take the next id |
| `LogPages.PackUnpack` | core/fastlog.h:119-142 | a log entry is read back as written if and only if each field fits its bits |
| `LogPages.EntryLayout` | core/fastlog.h:119-130 | where the fields of an entry are |
| `LogPages.ContentsIncreasing` | core/fastlog.c:50-58 | transaction ids strictly increase along ordered pages |
| `LogPages.Log.constructor` | core/fastlog.c:1263-1281 | a fresh log is empty and its first page is numbered |
| `LogPages.Log.Rotate` | core/fastlog.c:66-80 | the page reused is the oldest one, which has no pending transaction, and becomes the newest, numbered above all others |
| `LogPages.Log.GetFreePage` | core/fastlog.c:106-140 | room for an entry, or a page whose pending transactions are to be waited for; the ring moves on by one page for each busy page and one for a full one, only the pages passed are reused, and no entry of a pending transaction is given up |
| `LogPages.Log.Insert` | core/fastlog.c:177-204 | one more entry at the new end of the log, with an id above all others, pending |
| `LogPages.Log.PutEntry` | core/fastlog.c:215-228 | a finished transaction leaves the counter of its page, which counts exactly the pending ones |
| `LogPages.Log.Clear` | core/fastlog.c:206-213 | takes out exactly the entry with that id |
| `LogPages.InsertPage` | core/fastlog.c:947-965 | a page is added to a list sorted by start, which stays sorted |
| `LogPages.CollectPages` | core/fastlog.c:967-1021 | the used pages, sorted, in whatever order they are scanned |
| `LogPages.LoadPage` | core/fastlog.c:714-748 | the entries of a page that are not blank, with their ids, in order |
| `LogPages.OneOrder` | core/fastlog.c:947-965 | only one arrangement of the pages is sorted, so scanning recovers the order of writing |
| `LogPages.Load` | core/fastlog.c:1164-1195 | for every scan order the entries read back are the contents of the log in the order of writing, with strictly increasing ids |
| `LogReplay.DataEntry` | core/fastlog.c:603-677 | exactly when an entry of a disk is taken, and that it then sets one block of one page; pages of 654 lbas, tables of 695 pages |
| `LogReplay.ZeroBlock` | core/fastlog.c:864-871 | an lba given up stays given up, whichever devices are left |
| `LogReplay.LostDevice` | core/fastlog.c:864-877 | an entry for a block on a missing device changes nothing |
| `LogReplay.LostDisk` | core/fastlog.c:774-795 | nor does one for a missing virtual disk |
| `LogReplay.MetaEntry` | core/fastlog.c:530-601 | the entry written for a new table or page makes that table or page, empty, and nothing else |
| `LogReplay.TablesAfter` | core/fastlog.c:530-562 | which address map tables exist after a replay |
| `LogReplay.AmapsAfter` | core/fastlog.c:572-601 | which address map pages exist after it |
| `LogReplay.IdsAfter` | core/fastlog.c:672-676 | replay changes no page's write id |
| `LogReplay.Pool.Flush` | core/ddthread.c:274-307 | every changed page is stored |
| `LogReplay.Pool.ReplayEntry` | core/fastlog.c:603-677 | one entry, with its lookups and the write-id test, in memory; what is not pending is stored |
| `LogReplay.Pool.ReplayPart` | core/fastlog.c:797-939 | stopped after any number of entries, with whatever flushes: every table and page that exists is stored, each page as it was after some of the entries |
| `LogReplay.PartFlushed` | core/ddthread.c:274-307 | so it is if a flush is cut short after any of the pages |
| `LogReplay.Pool.Replay` | core/fastlog.c:797-939 | what is stored at the end is the replay of all entries in order; the flush after every 4096 makes no difference |
| `LogReplay.Pool.StartUp` | core/fastlog.c:1124-1217 | pages scanned in any order: the entries are replayed in the order of writing |
| `LogReplay.Untouched` | core/fastlog.c:603-677 | a slot without an admitted entry keeps its block |
| `LogReplay.HighestWins` | core/fastlog.c:603-677 | each slot ends with the block of the highest-numbered entry admitted by the lookups and the write-id test |
| `CrashRecovery.PageAlone` | core/fastlog.c:603-677 | a replay does to a page what that page's own entries do |
| `CrashRecovery.Test` | core/fastlog.c:661-667 | the write-id test skips exactly the batches already stored and those behind a wrap, except those logged with id 0 |
| `CrashRecovery.ReplayLogged` | core/tdisk.c:4697-4732 | replay of a page's logged batches onto any blocks under the id of the version before them puts them all on, up to where the ids wrapped |
| `CrashRecovery.ReplayOld` | core/fastlog.c:661-667 | of entries whose changes are stored already, exactly those logged with id 0 are applied again |
| `CrashRecovery.Recovers` | core/fastlog.c:797-939 | whichever version a crash left stored and whatever entries of earlier batches are left, replay gives that version, with the id-0 entries of earlier batches put over it, followed by every later batch up to where the ids wrapped |
| `CrashRecovery.GoneIff` | core/fastlog.c:670-672 | old changes put over a version are gone after the later batches if and only if each lba of theirs is set again or its last block there is the version's own |
| `CrashRecovery.LateHarmless` | core/fastlog.c:670-672 | as is the case for any late part of all that was stored |
| `CrashRecovery.RecoversAll` | core/fastlog.c:797-939 | without a wrap, no logged change is lost if and only if the id-0 entries are harmless in that sense; there are none if the page started with an id or its first version is the stored one |
| `CrashRecovery.ZeroIdUndoes` | core/fastlog.c:661-667 | a concrete page and log from which replay undoes a stored change |
| `CrashRecovery.WrapLoses` | core/bdevmgr.h:170-185 | a concrete log across the wrap from which the last change is not recovered |
| `CrashRecovery.RecoversCreated` | core/fastlog.c:465-527 | a page that only the log knows is created again by its entry, and exactly the batches logged with ids of at most 2^32 are recovered |
| `CrashRecovery.RecoversNew` | core/amap.c:449 | all of them if the page was born with id 1 and used no more ids than the window, or is on a disk without ids |
| `Durability.UpdateKeeps` | core/tdisk.c:4697-4732 | changing a block and logging it keeps the invariant: the log is a late part of all that was logged of the page, and has every entry that is not stored, pending |
| `Durability.LandedKeeps` | core/amap.c:260-301 | so does a submitted version reaching the device |
| `Durability.FinishKeeps` | core/ddthread.c:547-586 | so does finishing a transaction whose change is stored |
| `Durability.ReuseKeeps` | core/fastlog.c:111-121 | so does reusing log pages without pending transactions, wherever that cuts a batch |
| `Durability.Recoverable` | core/fastlog.c:603-677 | in every state with that invariant, what replay onto the stored version gives, exactly; without a wrap it is the page in memory if and only if the entries of stored batches that have id 0 are harmless |
| `Durability.Durable` | core/fastlog.c:797-939 | stop any run at any point, the ids not wrapped since the stored version and at most 2^32 of them used since the oldest entry: replay of the log that is left, among the entries of all other pages, gives the contents the page had in memory if and only if each lba of those id-0 entries is set again by a batch since the stored version or its last block there is the stored one; always on a disk without ids, on a page that started with an id, or with at most one new version stored |
| `Durability.NoIdsHarmless` | core/fastlog.c:196-199 | where entries have no id, all that is left in the log together is harmless |
| `Durability.Undone` | core/fastlog.c:492 | a run on a page that replay had made, at the end of which replay brings back a block that was replaced and stored |
| `DurableLog.Write` | core/fastlog.c:177-204 | an entry put into the log pages is a step of the machine, and the pages hold its log |
| `DurableLog.Finished` | core/fastlog.c:215-228 | so is finishing a transaction |
| `DurableLog.MakeRoom` | core/fastlog.c:106-140 | so is moving the ring on: the entries that go are the oldest, none of them pending |
| `DurableLog.Submit` | core/amap.c:237-259 | so is writing a page: the id it takes, and carries in its image, is the id of the new version |
| `DurableLog.Restart` | core/fastlog.c:1124-1217 | start-up, with the log pages scanned in any order, replays exactly the log of the machine, and the page is back under the condition of `Durable` |
| `ReplayAgain.PageAgain` | core/fastlog.c:661-672 | changes of which a first part was made can all be made again |
| `ReplayAgain.PageFrom` | core/fastlog.c:603-677 | a page that exists in the end has taken all changes in the log, in order, if none precedes it |
| `ReplayAgain.Again` | core/fastlog.c:797-939 | cut short after any number of entries, with each page stored as it was after any of them, replay from the start ends in the maps it would have ended in, if the log creates what it uses before it uses it |
| `ReplayAgain.AgainAndAgain` | core/fastlog.c:797-939 | so it does after any number of crashes |
| `ReplayAgain.OutOfOrder` | core/fastlog.c:603-677 | a concrete log out of that order whose second replay differs |

## Left out

- Lz4Decoder.Decompress: a match offset of zero is accepted by the source and then copies what the buffer held before; the
  octets produced are not specified, only their number.
- LzfDecoder.Decompress: the two error codes both appear as zero.
- PagePipeline.Inflate: a stored size that passes the length test but ends behind the page is excluded, since the source
  then reads memory behind the page.
- Lz4Encoder.CommonBytes: the count-trailing-zeros instruction is modelled by its meaning.
- LZ4 beyond the 64 KB limit, with prefix, in partial mode, on big-endian or 32-bit targets.
- LogReplay.Pool.ReplayEntry: the reference counts that the same entry restores are in `BlockIndex.Index.LogReplay`; how
  often a crash during replay repeats them is not modelled.
- ReplayAgain.Again: the order asked of the log is enough but not necessary.
- CrashRecovery.Recovers: ids given by a mirror peer are not modelled.
- Durability.Durable: a change and its log entry are one step, so the time between changing a page in memory and the log
  page reaching its disk is not modelled, nor is the clearing of entries when a write fails.
- LogPages.Log.GetFreePage: the thread that waits is modelled as one that tries again.
- GroupCommit.GroupCommitSafe: indexes in error are not modelled, nor are page contents and copy-on-write barriers.
- LookupNode.Node.ScanForInsert: walking the list of nodes and publishing a new node are not modelled; that a page still
  holds the block it is to be known for is a premise.
- Digest.Context.Final: the SHA-256 block function is a parameter; writing the words out as octets is not modelled.
- Input and output errors, failed memory allocation, checksum mismatches and statistics counters.
- The version 1 log format, the log of a removed disk, and the reset of the log after replay.
- Cluster takeover, mirroring, cloning, deletion of disks, SCSI command handling and copy tokens, threads and kernel
  wrappers.
