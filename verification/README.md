# XFS reader and forensic analyzer: verified model

This project models the extent and mapping engine of an XFS filesystem reader
and the two forensic passes that reuse it. Everything works on a whole image in
memory, given as a sequence of bytes that may hold anything.

| module | what it models |
|---|---|
| `Words`, `Bytes` | 64-bit saturating, checked and bit arithmetic; big-endian fields, zero when out of range |
| `Extent` | the 128-bit extent record and the inline extent list |
| `Assemble`, `Refragment` | file assembly from extents, the per-block lookup of the same mapping, and splitting extents |
| `Btree`, `BmapTree`, `BmapLayout`, `BmapBlocks`, `BmapBudget`, `BmapDepth` | the bmap B+tree walk; stored trees; a writer for them; one block in bytes; walks cut short by the budget; the depth of the descent |
| `Xattr` | short-form attributes, leaf blocks, remote values |
| `Dir`, `DirListing` | short-form directories, data blocks, the multi-block listing |
| `Superblock`, `InodeMap` | the inode number split, its reverse, and their geometry |
| `Inode`, `Reader` | the inode core; reading files and directories through it |
| `Crc`, `CrcDivision`, `CrcVector` | the checksum register and its verification; CRC-32C as polynomial division (RFC 3720, section 12.1); a published test vector |
| `Audit`, `Sweep`, `AuditBytes`, `AuditOrder`, `Tamper` | the auditor: groups, orphans, inode sweep; its report in terms of bytes, and the order of the report |
| `Recovery`, `Recovered`, `Carving` | deleted-inode recovery; what the scan reports; when carving is faithful |
| `ParseLoop` | the loop shape shared by the packed-entry parsers |

Each loop or state change of the program is a method (the tree walk is a class
with the shared output and budget) proved equal to a specification function; the
properties are lemmas about those functions.

Conventions of the model:

- `usize` is 64 bits wide and no slice is longer than `isize::MAX`.
- Shifts, masks, `&`, `|` and `^` are defined bit by bit on naturals and related
  to quotients and remainders by lemmas (`Words.AndMask`, `Words.OrAdds`,
  `Words.AndNot7`, and so on). The checksum register is a 32-bit
  natural.
- An abstract function parameter (a block graph, the bodies of logical blocks,
  the findings of a group) stands for what the image shows; a predicate links it
  to the image. Results stated for the parameter hold for every such function.
- `Coherent` geometry is what a formatter writes: a block holds `2^inopblog`
  inodes, `agblklog` is the logarithm of `agblocks` rounded up, and an inode slot
  has at least two bytes. A valid inode's block lies in its group and its position
  does not clamp.
- Encoders and storage relations (`Pack`, `BmapLayout`, the record and entry
  encoders, remote value placement) are written from the on-disk formats the source
  documents, with their own lengths and magics; the repository itself only reads.
- A specification function is tied to the bytes it reads by a lemma that names
  offsets, magics and limits literally (`AuditBytes`, `BmapBlocks`, `DirListing`,
  `CrcDivision` and parts of the other modules).

Where code and documentation disagree, the model follows the code:

- `core/src/btree.rs:176-177` says the depth cap uses the recursion count. The code
  passes the block's own level less one (`core/src/btree.rs:228`). So the depth is
  bounded by the pointer budget always, and by 32 when the level fields of the
  blocks entered agree with the levels expected of them (`BmapDepth.DepthIsBounded`).
  In an image whose block 0 points at itself it is the whole budget
  (`BmapDepth.SelfLoopIsFollowed`), unless that block claims a level above 32
  (`BmapDepth.SelfLoopDepthIff`).
- `core/src/dir.rs:325-326` says an entry running past `end` or the block ends the
  walk. The code bounds an entry's start by `end` and its name by the block
  (`core/src/dir.rs:330`, `core/src/dir.rs:352`); `Dir.CutRecordListed` gives the
  single-block directories in which an entry that runs past the end is listed.

Two notes on wording: `core/src/dir.rs:383-384` speaks of a size above the block
size for multi-block directories where the code takes every size other than one
block, and `core/src/dir.rs:434-435` of `startoff` order where the code keeps the
order of the extent list. The model has the code's branch and the list order.

Properties that hold under a condition, each stated with its exact condition:
bulk assembly agrees with lookup (`Assemble.AgreeIff`; `Assemble.OverlapDisagrees`
is a pair of extents that fails it, disjoint in-image extents meet it); splitting an
extent preserves the file (`Refragment.HarmlessIff`;
`Refragment.UnreadableSplitDiffers` is an extent that fails it, every in-image extent
meets it); directories are independent of their storage format
(`Reader.DirIndependentIff`, and for one block `Reader.OneBlockDirIff`); carving
returns the physical runs (`Carving.FaithfulIff` for any residue in the image,
`Carving.OrderedFaithfulIff` for one in logical order, where the condition is that
it is contiguous from 0 and that the estimate fits in the image;
`Carving.LateResidueIsLost` is a surviving residue that fails it and is carved as
zeros).

## Model

| member | source | states |
|---|---|---|
| `BmapTree.StoredRootIsRead` | `core/src/btree.rs:120-155` | On every image and root fork that store a bmap tree of any shape (v4 or v5 blocks mixed, level fields 1 to 32, pointers within the cap), the reader returns exactly the in-order concatenation of the leaf records |
| `BmapTree.TreeIsWalked` | `core/src/btree.rs:178-229` | Entering a stored tree under any expected level below 32 collects its records in order and uses exactly one unit of budget per pointer of the tree |
| `BmapTree.OrderedTreeIsReadInOrder` | `core/src/btree.rs:120-155` | When the keys bound the leaf ranges, what is read is strictly increasing in `startoff` |
| `BmapTree.OrderedAllFlattens` | `core/src/btree.rs:104-118` | The search-tree order of keys and children makes the in-order records strictly increasing and within the bounds |
| `BmapTree.NodeIsRead` | `core/src/btree.rs:212-228` | An interior block whose pointer array lies after the room for `maxrecs` keys (used or not) is read as exactly those pointers |
| `BmapTree.LeafIsRead` | `core/src/btree.rs:206-210` | A leaf block holding packed records after its v4 or v5 header is read as exactly those records |
| `BmapLayout.WrittenTreeIsRead` | `core/src/btree.rs:120-155` | Decoding undoes encoding: a tree written to an image (each block before its subtrees, at any block, with anything around it) and rooted in a fork of any length is read back as its records |
| `BmapLayout.LaidIsStored` | `core/src/btree.rs:178-229` | What the writer lays out at block `b` satisfies the storage relation, for every tree that fits the block size |
| `BmapLayout.RootIsRead` | `core/src/btree.rs:127-131` | A root fork written with the length of the fork itself is found with its level, count and pointers |
| `BmapBudget.StoredRootCut` | `core/src/btree.rs:133-153` | On a stored tree of any shape and with any budget, the walk collects exactly the records of the leaves among the first `budget` pointers in the order they are followed |
| `BmapBudget.PtrsWalkCut` | `core/src/btree.rs:218-229` | The same for any list of trees, with the budget that is left |
| `BmapBlocks.SkippedIff` | `core/src/btree.rs:185-202` | On any image a block is passed over exactly when its expected level is 32 or more, it is not wholly in the image, or it starts with neither BMAP nor BMA3 |
| `BmapBlocks.LeafGives` | `core/src/btree.rs:207-210` | A block of level 0 gives as many records as it counts, or as fit when it counts more, from byte 72 (v4: 24) on |
| `BmapBlocks.NodeGives` | `core/src/btree.rs:212-228` | A block of another level gives the pointers after the room for as many keys as fit, and its own level less one for them |
| `BmapBlocks.RootGives` | `core/src/btree.rs:125-138` | The root gives the pointers after the room for the keys that fit the fork behind its four header bytes |
| `Btree.SmallerBudgetIsPrefix` | `core/src/btree.rs:133-153` | On any image, cyclic or not, the records collected with a smaller budget are a prefix of those collected with a larger one |
| `Btree.PtrsWalkTruncates` | `core/src/btree.rs:218-229` | Step of the above: the smaller-budget walk either ran out, its records and pointers being a prefix, or equals the larger one but for the spare budget |
| `Btree.BlockWalkTruncates` | `core/src/btree.rs:178-229` | The same for entering one block |
| `Btree.WalkIsBounded` | `core/src/btree.rs:120-155` | On every image and fork: pointers followed plus budget left is 2^20, and the records are at most the pointers followed times the records that fit one block |
| `Btree.PtrsWalkBounded` | `core/src/btree.rs:218-229` | On every block graph the records are at most the pointers followed times the leaf capacity |
| `Btree.BlockWalk` | `core/src/btree.rs:178-229` | On every block graph pointers followed plus budget left equals the budget given; termination is by (budget, position) |
| `BmapDepth.DepthIsBounded` | `core/src/btree.rs:178-229` | On every image the nesting of block entries is at most the budget, and at most 32 when each interior block entered carries a level no higher than the one expected of it |
| `BmapDepth.PtrsDepthBounded` | `core/src/btree.rs:218-229` | On every block graph the depth below a pointer list is at most the budget |
| `BmapDepth.ConsistentPtrsDepth` | `core/src/btree.rs:185-228` | With consistent level fields the depth is at most the levels left and at most the limit |
| `BmapDepth.SelfLoopIsFollowed` | `core/src/btree.rs:204-228` | An image whose block 0 points at itself, at any level from 1 to 32: nothing is collected, the whole budget of pointers is followed, and the depth is exactly the budget |
| `BmapDepth.SelfLoopDepthIff` | `core/src/btree.rs:185-189` | At a self-pointing block the depth stays within 32 if and only if its level field is above 32 |
| `BmapDepth.LoopDepth` | `core/src/btree.rs:218-229` | A self-pointing block is entered within itself exactly as often as the budget allows |
| `Btree.ReadBtreeExtents` | `core/src/btree.rs:120-155` | The program over shared mutable output and budget computes the functional walk from the root |
| `Btree.Walker.FollowRoot` | `core/src/btree.rs:133-153` | The root loop appends exactly the walk of the root pointers and leaves exactly its leftover budget |
| `Btree.Walker.WalkBlock` | `core/src/btree.rs:178-202` | Entering a block appends the walk of that block and leaves its leftover budget; the level guard, the bounds check and the magic decide |
| `Btree.Walker.WalkData` | `core/src/btree.rs:196-210` | The block's own level decides between collecting and descending |
| `Btree.Walker.WalkInterior` | `core/src/btree.rs:212-229` | The pointer loop appends the walk of the block's pointers, one unit of budget each, stopping when none is left |
| `Btree.Walker.CollectLeafRecs` | `core/src/btree.rs:234-244` | Appends the whole records that fit the block, at most `numrecs`, and leaves the budget alone |
| `Btree.ReadRootPtrs` | `core/src/btree.rs:160-173` | The pointers of the root, placed by the length of the slice passed in |
| `Bytes.BlockSliceMeans` | `core/src/btree.rs:248-252` | A block is delivered, by checked arithmetic, exactly when it lies wholly in the image |
| `Extent.UnpackPack` | `core/src/extent.rs:83-110` | Unpacking undoes packing for every flag, 54-bit offset, 52-bit block and 21-bit count, across the 9/43-bit split |
| `Extent.PackUnpack` | `core/src/extent.rs:83-110` | Packing undoes unpacking: every 16-byte string is the packing of exactly one record |
| `Extent.UnpackWordsMeans` | `core/src/extent.rs:96-101` | The shifts and masks compute the quotients and remainders that define the four fields |
| `Extent.ReadExtents` | `core/src/extent.rs:116-128` | The loop returns the records that fit the fork, min(nextents, length / 16) of them, each decoded from its own 16 bytes |
| `Extent.ReadRecords` | `core/src/extent.rs:116-128` | Same loop for any decoder: it stops at the first record that does not fit |
| `Extent.ListOfPacked` | `core/src/extent.rs:112-128` | A fork that starts with packed records reads back as the first `nextents` of them |
| `Extent.PackedList` | `core/src/extent.rs:112-128` | Packing what was read gives the whole records of the fork back, byte for byte |
| `Assemble.AssembleExtents` | `core/src/extent.rs:162-215` | For any extent list (overlapping, unordered, sparse, outside the image) the in-place overlay yields exactly `size` bytes, byte `i` from the last readable window over it and zero otherwise, or refuses a size beyond the image |
| `Assemble.PlaceExtent` | `core/src/extent.rs:187-212` | One extent changes exactly the bytes of its clipped window, and none when its source is not wholly in the image |
| `Assemble.SaturationIsHarmless` | `core/src/extent.rs:189-200` | The saturating positions give the same decision and, when anything is copied, the same window as unbounded integers |
| `Assemble.LastWriterWins` | `core/src/extent.rs:187-212` | A covered byte is the image byte given by the last readable window that covers it |
| `Assemble.HoleIsZero` | `core/src/extent.rs:183-186` | A byte no readable window covers is zero |
| `Assemble.AgreeIff` | `core/src/xattr.rs:433-437` | For any extents, overlapping, empty or outside the image: file byte and looked-up byte agree in every image of a given length if and only if no extent covers the block, or the first that covers it and the last readable one that covers it give the same physical block |
| `Assemble.InImageAgreeIff` | `core/src/xattr.rs:433-437` | For in-image extents: they agree in every image of that length if and only if `startblock - startoff` is the same for the first and the last extent covering the block |
| `Assemble.LastSupplierWins` | `core/src/extent.rs:187-212` | For any extents the file byte is byte `i % blocksize` of the block that the last readable extent covering `i / blocksize` gives |
| `Assemble.NoSupplierIsZero` | `core/src/extent.rs:187-212` | It is zero when no readable extent covers that block |
| `Assemble.LookupIsFirst` | `core/src/xattr.rs:433-437` | For any extents the lookup gives the block of the first extent covering it |
| `Assemble.BulkRefinesLookup` | `core/src/xattr.rs:433-437` | For disjoint in-image extents, file byte `i` is byte `i % blocksize` of the block the lookup returns for `i / blocksize`, and zero when it returns none |
| `Assemble.CoveredAgrees` | `core/src/xattr.rs:433-437` | For disjoint extents inside the image or not: the looked-up byte when the covering extent is readable, zero when it is not |
| `Assemble.UncoveredAgrees` | `core/src/xattr.rs:433-437` | Where no extent covers the block the lookup is none and the file byte zero |
| `Assemble.FirstMapperWins` | `core/src/xattr.rs:433-437` | The lookup answers from the first covering extent, where the overlay answers from the last |
| `Assemble.UnmappedIsNone` | `core/src/xattr.rs:433-437` | The lookup returns none when no extent covers the logical block |
| `Refragment.HarmlessIff` | `core/src/extent.rs:187-212` | Splitting an extent at a block leaves the file unchanged in every image of a given length and among any other extents if and only if its clipped window is readable or neither part's is |
| `Refragment.InImageSplitIsHarmless` | `core/src/extent.rs:187-212` | In particular an in-image extent may be split at any block boundary anywhere in any list, also past the end of the file |
| `Refragment.SplitPreservesFile` | `core/src/extent.rs:187-212` | The if-direction, for one image and one list |
| `Refragment.OtherSplitShows` | `core/src/extent.rs:200-206` | The only-if direction: any other split changes the file in an image of ones, where the extent is dropped whole and its readable part is not |
| `Reader.ReadFile` | `core/src/extent.rs:238-252` | The dispatch on the inode format computes the file from the extents of that format |
| `Reader.InlineFile` | `core/src/extent.rs:238-252` | Reading a file with inline extents: an error with both lengths when its size exceeds the image, else exactly its size in bytes, each from the last readable extent covering its block, or zero |
| `Reader.BtreeFile` | `core/src/extent.rs:238-252` | The same for a file whose extents are in a bmap tree |
| `Reader.OtherFormatIsZeros` | `core/src/extent.rs:238-252` | Any other format reads as that many zeros, or fails the same way |
| `Reader.FileStorageIndependence` | `core/src/extent.rs:238-252` | A file read through a B+tree fork equals the file read through an inline fork of the flattened records |
| `Xattr.RemoteValueRoundTrip` | `core/src/xattr.rs:385-430` | A value cut into chunks, each placed in the block that the first extent covering its logical block gives, after 56 bytes starting with XARM on v5 and after nothing on v4, is returned exactly |
| `Xattr.ChunkIsBody` | `core/src/xattr.rs:408-425` | A chunk placed by the format is what the program takes of the block, through the lookup, the bounds check, the magic and the header length |
| `Xattr.FlagsMean` | `core/src/xattr.rs:123-131` | The flag tests read single bits: local bit 0, trusted bit 1, else security bit 2, incomplete bit 7 |
| `Xattr.RemoteValueStops` | `core/src/xattr.rs:405-428` | A result is cut short exactly at the first unmapped, out-of-image or wrong-magic block: its length is the smaller of the value length and the payload before that block |
| `Xattr.RemoteValueByte` | `core/src/xattr.rs:405-428` | Byte `j` of a value is in the block the lookup gives for logical block `valueblk + j / room`, after 56 header bytes on v5 |
| `Xattr.BodyMissingIff` | `core/src/xattr.rs:408-421` | A block ends the value exactly when it is unmapped, not wholly in the image, or (v5) does not start with XARM |
| `Xattr.OversizedIsEmpty` | `core/src/xattr.rs:393-404` | A value over 16 MiB, or in blocks without room, reads as empty |
| `Xattr.GatherByte` | `core/src/xattr.rs:405-428` | Byte `j` of a result is byte `j % payload` of logical block `j / payload` |
| `Xattr.GatherLength` | `core/src/xattr.rs:405-428` | The number of readable blocks fixes the length of the result |
| `Xattr.GatherScattered` | `core/src/xattr.rs:405-428` | Scatter then gather is the identity for any assignment of bodies to logical blocks |
| `Xattr.ReadRemoteValue` | `core/src/xattr.rs:385-430` | The program computes the gathered value, and nothing for an oversized length or a block without payload |
| `Xattr.GatherBlocks` | `core/src/xattr.rs:405-428` | Every iteration adds at least one byte; the loop ends with the gathered value |
| `Xattr.ShortformRoundTrip` | `core/src/xattr.rs:239-275` | Parsing an encoded short-form attribute fork gives its attributes in order, whatever follows |
| `Xattr.ShortformTruncates` | `core/src/xattr.rs:239-275` | On any bytes, truncating the fork yields a prefix of the attributes |
| `Xattr.ParseShortform` | `core/src/xattr.rs:239-275` | The loop returns the entries up to the count or the first that does not fit |
| `Xattr.LeafBlockRoundTrip` | `core/src/xattr.rs:312-374` | A leaf block with its count at byte 56 (v4: 12) and its entries from byte 80 (v4: 32), each storing a local or remote attribute or not fitting the block, parses to exactly the attributes stored, in order; the count is cut to the entries that fit |
| `Xattr.ParseLeafBlock` | `core/src/xattr.rs:312-374` | The entry loop appends the readable attributes of the block in order, the count clamped to the block |
| `Xattr.CollectEntries` | `core/src/xattr.rs:330-374` | The entry loop passes over an entry whose name or value does not fit and goes on with the next |
| `Superblock.LocationRecoversInode` | `core/src/superblock.rs:215-247` | For all shift fields, also 64 or more in sum, the inode number is recovered exactly from (agno, agblock, offset), and each part is below its power of two |
| `Superblock.LocationIsClamped` | `core/src/superblock.rs:230-238` | `fsblock` and `byte_offset` are the smaller of 2^64-1 and the exact integer result |
| `Superblock.FeatureBits` | `core/src/superblock.rs:159-191` | The version is the low four bits of its field; file types and large extent counts are single bits of fields that depend on the version |
| `Superblock.SliceAtLocation` | `core/src/superblock.rs:262-275` | The inode-sized slice is fetched exactly when it lies in the image, at the byte offset of the location |
| `Inode.ReadInodeFields` | `core/src/superblock.rs:262-275` | An inode is read from the slice at its location, its extents counted by the wide field exactly on v5 with the feature bit, or the read fails with the end it needs and the length there is |
| `InodeMap.InodeThenOffset` | `forensic/src/lib.rs:571-591` | Under coherent geometry the byte offset of a valid inode is slot-aligned and maps back to its group and number |
| `InodeMap.OffsetThenInode` | `forensic/src/lib.rs:571-591` | Every offset maps to a valid inode whose position is the start of the slot, hence to itself exactly when it is slot-aligned |
| `InodeMap.NumberedIff` | `forensic/src/lib.rs:571-591` | For any geometry, an offset has a number exactly when block size, group size and inode size are not zero and the shifts add up to less than 64; the group is the quotient by the group size |
| `InodeMap.OffsetEncodes` | `forensic/src/lib.rs:571-591` | The shifts and ors spell the number (agno, agblock, slot) in closed form, without lost bits |
| `InodeMap.ValidInodesDisjoint` | `core/src/superblock.rs:215-247` | Distinct valid inodes occupy disjoint byte windows |
| `InodeMap.TypicalGeometry` | `core/src/superblock.rs:199-214` | Coherent geometry exists, and in it inode 128 is valid and lies where the documented split puts it |
| `Crc.VerifyCrc` | `core/src/crc.rs:86-115` | The program zeroes the field in a scratch copy and accepts exactly the buffers whose stored little-endian field is the CRC-32C of that copy |
| `CrcDivision.RegisterIsStandard` | `core/src/crc.rs:60-67` | On all data the register computes the checksum of RFC 3720, section 12.1: the complemented, reflected remainder of long division by x^32 + x^28 + x^27 + ... + 1 |
| `CrcDivision.VerifiesByStandard` | `core/src/crc.rs:86-115` | A buffer verifies exactly when its four field bytes, little-endian, are that checksum of the buffer with the field as zeros |
| `CrcVector.ZerosVector` | `core/src/crc.rs:60-67` | The published vector: the checksum of 32 zero bytes is 0x8A9136AA |
| `CrcVector.VectorVerifies` | `core/src/crc.rs:86-115` | 28 zero bytes followed by AA 36 91 8A verify |
| `Crc.VerifiesIffStamped` | `core/src/crc.rs:86-115` | A buffer verifies if and only if it equals itself with its checksum stamped in |
| `Crc.StampVerifies` | `core/src/crc.rs:86-115` | Stamping makes a buffer verify and changes nothing outside the field |
| `Crc.StreamingAgrees` | `core/src/crc.rs:82-85` | The zeroed-copy computation equals the two-range streaming one |
| `Crc.BurstChangesCrc` | `core/src/crc.rs:65-67` | Replacing at most four consecutive bytes by different ones changes the CRC-32C of data of any length |
| `Crc.BurstIsDetected` | `core/src/crc.rs:86-115` | Altering up to four consecutive bytes (before, after, or within the field) of a verifying buffer of any length makes verification fail |
| `Crc.SingleByteIsDetected` | `core/src/crc.rs:86-115` | Any single-byte change anywhere in a verifying buffer, the field included, makes verification fail |
| `Dir.RecordsReadBack` | `core/src/dir.rs:327-373` | Any mix of live entries and free records, 8-aligned, with or without ftype, is read as exactly the live entries in order |
| `Dir.DataDirBlockRoundTrip` | `core/src/dir.rs:259-278` | An encoded multi-block data block, 64 header bytes after XDD3 or 16 after XD2D, parses to its live entries |
| `Dir.BlockDirRoundTrip` | `core/src/dir.rs:205-240` | An encoded single-block directory, 64 header bytes after XDB3 or 16 after XD2B, leaf array and block tail included, parses to its live entries |
| `Dir.EntryStep` | `core/src/dir.rs:340-370` | On any bytes that are neither a free record nor a stop, the walk lists the number, name and type at their places and moves to the next multiple of eight past the entry and its tag |
| `Dir.FreeStep` | `core/src/dir.rs:330-337` | A free record moves the cursor by its length, or by eight when that is more |
| `Dir.StopStep` | `core/src/dir.rs:345-354` | An empty name, or one that runs out of the block, ends the walk |
| `Dir.BlockDirOnBytes` | `core/src/dir.rs:205-240` | Any bytes as a single-block directory: refused without one of the two magics, else the entries from the header to the announced leaf array, clamped to the block |
| `Dir.DataDirBlockOnBytes` | `core/src/dir.rs:259-278` | Any bytes as a data block: refused without one of the two magics, else the entries from the header to the end |
| `Dir.CursorAdvances` | `core/src/dir.rs:334-371` | On all inputs the cursor moves by at least eight bytes a step |
| `Dir.WalkDataEntries` | `core/src/dir.rs:327-373` | The loop returns the entries whose start lies below `end`, skipping free records and stopping at an empty or unfitting name |
| `Dir.ScanBlock` | `core/src/dir.rs:327-373` | The loop, over any description of the cells that agrees with the block, computes the scan of those cells |
| `Dir.ListedByItsStart` | `core/src/dir.rs:330-356` | An entry is listed exactly when its first three bytes lie below `end`, whether or not the rest of it does |
| `Dir.CutRecordListed` | `core/src/dir.rs:223-239` | In a single-block directory whose tail puts the leaf array some bytes into a live record, `read_block_dir` lists that record exactly when at least 3 of its bytes come before the array |
| `Dir.Align8` | `core/src/dir.rs:131-133` | Adding seven, saturating, and masking with the complement of seven is the next multiple of eight |
| `Dir.EarlierEndTruncates` | `core/src/dir.rs:327-373` | An earlier stop boundary yields a prefix of the listing |
| `Dir.ShortformDirRoundTrip` | `core/src/dir.rs:142-184` | Parsing an encoded short-form directory gives its entries, for 4- and 8-byte inode numbers, with or without ftype |
| `Dir.ShortformDirTruncates` | `core/src/dir.rs:142-184` | On any bytes, truncating the fork yields a prefix of the listing |
| `Dir.ReadShortformDir` | `core/src/dir.rs:142-184` | The loop returns the entries up to the count or the first that does not fit |
| `Dir.ReadMultiblockDir` | `core/src/dir.rs:446-477` | The nested loops concatenate, extent by extent and block by block, the entries of the data blocks below the leaf boundary |
| `Dir.ListExtents` | `core/src/dir.rs:452-475` | Extents at or above the leaf boundary are skipped; the others contribute their runs in list order |
| `Dir.ListRun` | `core/src/dir.rs:459-474` | A run contributes its blocks in order, the block number saturating |
| `DirListing.MultiblockDirLists` | `core/src/dir.rs:446-477` | For any list of extents: those whose first block ends by byte 2^35 are listed, in list and block order; an encoded data block gives its live entries, and a block outside the image or of another magic nothing |
| `DirListing.ListedIff` | `core/src/dir.rs:450-458` | The boundary, a quotient, separates exactly those extents |
| `Dir.SplitDirExtent` | `core/src/dir.rs:446-477` | Splitting an extent on one side of the leaf boundary leaves the listing unchanged; across it, exactly the blocks of the second part are lost |
| `Reader.ReadDir` | `core/src/dir.rs:398-431` | The dispatch on format and size |
| `Reader.ShortformListed` | `core/src/dir.rs:398-400` | A short-form directory lists its encoded entries, with file types exactly when the feature bit of its version says so |
| `Reader.ExtentsListed` | `core/src/dir.rs:401-421` | A directory with inline extents, of a size other than one block, lists the live entries of its blocks |
| `Reader.BtreeListed` | `core/src/dir.rs:422-428` | A directory with its extents in a bmap tree does, at any size |
| `Reader.OtherFormatIsNoDir` | `core/src/dir.rs:429-431` | Any other format is refused |
| `Reader.DirStorageIndependence` | `core/src/dir.rs:398-431` | A directory of any size other than one block lists the same through a B+tree fork and an inline fork of the flattened records |
| `Reader.DirIndependentIff` | `core/src/dir.rs:403-409` | That independence holds for a size if and only if the size is not the block size |
| `Reader.OneBlockDirIff` | `core/src/dir.rs:403-409` | A one-block directory held by one extent: inline it lists as a block directory; through a B+tree a block directory lists as empty; the two are the same if and only if the block is a block directory without entries |
| `Reader.OneBlockDirDiffers` | `core/src/dir.rs:403-409` | Without extents: at one block an empty B+tree directory lists as empty and the inline one is an error |
| `Audit.AuditImage` | `forensic/src/lib.rs:228-379` | The auditor reports the primary findings, the findings of every visited group, then those of the inode sweep |
| `Audit.PrimaryIff` | `forensic/src/lib.rs:231-252` | The audit goes past its entry checks exactly when the image holds 220 bytes and starts with the superblock magic |
| `AuditOrder.ReportIsOrdered` | `forensic/src/lib.rs:228-379` | On every image the report is strictly ordered: primary checksum, geometry, groups in order (secondary checksum, divergences field by field, free-space header, inode header, buckets), inode slots; so nothing is reported twice |
| `AuditBytes.OrphanReportedIff` | `forensic/src/lib.rs:326-345` | An orphan is reported if and only if its group is reached, the whole third sector of the group is in the image and starts with XAGI, and its bucket word at byte 40 on is this number and not 0xffffffff |
| `AuditBytes.AgiReportedIff` | `forensic/src/lib.rs:326-335` | An inode header is reported damaged if and only if the filesystem is v5 and a reached group has its third sector there, starting with XAGI, whose checksum at byte 312 fails |
| `AuditBytes.AgfReportedIff` | `forensic/src/lib.rs:313-324` | A free-space header likewise: second sector, XAGF, byte 216 |
| `AuditBytes.SuperblockReportedIff` | `forensic/src/lib.rs:254-259` | A superblock likewise: the first sector at offset 0, or the first sector of a later group that starts with a v5 superblock, at byte 224 |
| `AuditBytes.DivergenceReportedIff` | `forensic/src/lib.rs:298-311` | A divergence is reported if and only if its group is reached and not the first, starts with a superblock, and the primary and secondary values it carries are those of the field in the two, and differ |
| `AuditBytes.GeometryReportedExactly` | `forensic/src/lib.rs:267-284` | The geometry finding is about the group count, carries its value and the count that would fit plus one, and is there exactly when the count is zero or the last base is not in the image |
| `AuditBytes.InodeReportedIff` | `forensic/src/lib.rs:354-376` | For any geometry on v5: an inode is reported if and only if a whole aligned slot of at least 176 bytes is there, with the magic, version 3 or later, its own number at byte 152, and a failing checksum at byte 100 |
| `AuditBytes.NoInodeReportedBeforeV5` | `forensic/src/lib.rs:354` | Before v5 no inode is reported |
| `AuditBytes.AgiPlace` | `forensic/src/lib.rs:326-330` | The inode header the audit parses is the third sector of the group, present exactly when it is whole and has the magic |
| `AuditBytes.SectorSizeMeans` | `forensic/src/lib.rs:235-244` | The sector size is the field at byte 102 when it is a power of two from 512 up, else 512 |
| `AuditBytes.PrimaryFields` | `forensic/src/lib.rs:246-252` | The geometry the audit works with is that of the bytes of the first sector |
| `AuditBytes.PrimaryVersion` | `forensic/src/lib.rs:246-252` | So are its version and its shift fields |
| `AuditOrder.NoPrimaryNoReport` | `forensic/src/lib.rs:231-252` | Without a primary superblock nothing is reported |
| `Audit.AuditGroups` | `forensic/src/lib.rs:290-348` | The group loop stops at the first group whose base is not in the image |
| `Audit.AuditSecondary` | `forensic/src/lib.rs:298-311` | A secondary superblock is checked in every group but the first, for its CRC and for divergence |
| `Audit.AuditAgi` | `forensic/src/lib.rs:326-346` | The inode header: its CRC, then its buckets |
| `Audit.PushOrphans` | `forensic/src/lib.rs:336-344` | The bucket loop appends the non-null buckets in order |
| `Audit.PushSbDivergence` | `forensic/src/lib.rs:383-424` | One finding for each of the four geometry fields that differ, in order |
| `Audit.SweepInodes` | `forensic/src/lib.rs:354-376` | The sweep loop visits every whole inode slot of the image |
| `Audit.WalkVisits` | `forensic/src/lib.rs:290-297` | The walk visits, in order, exactly the groups counted by `GroupsVisited` |
| `Audit.VisitedExactly` | `forensic/src/lib.rs:290-297` | A group is visited if and only if its base is below the image length; saturation does not matter |
| `Audit.GeometryReportedIff` | `forensic/src/lib.rs:267-284` | For nonzero group size and count, the audit of the image reports impossible geometry if and only if its walk stops before the last group |
| `Audit.GeometryIsFromPrimary` | `forensic/src/lib.rs:228-379` | No other part of the audit produces a geometry finding |
| `Audit.OrphansExactly` | `forensic/src/lib.rs:336-344` | The orphan findings of the whole audit are exactly those of the visited groups, group by group |
| `Audit.GroupOrphansExactly` | `forensic/src/lib.rs:336-344` | The orphans of a group are exactly the non-null buckets of its parsed inode header |
| `Audit.OrphansOnceInOrder` | `forensic/src/lib.rs:336-344` | They come once each, in (group, bucket) order |
| `Audit.InodeFindingsExactly` | `forensic/src/lib.rs:354-376` | Under coherent geometry there is an inode-CRC finding at `off` if and only if some valid inode located at `off`, in the slice the reader fetches, names itself and fails its checksum |
| `Audit.BadInodeIsRead` | `core/src/superblock.rs:262-275` | That is a statement about the inode `read_inode` returns, although reader and sweep take the extent count from different fields |
| `Audit.SweepExactly` | `forensic/src/lib.rs:354-376` | The sweep reports exactly the bad slots at aligned offsets that fit the image |
| `Audit.InodeFindingIsFromSweep` | `forensic/src/lib.rs:228-379` | No other part of the audit produces an inode-CRC finding |
| `Audit.BadSlotIsBadInode` | `forensic/src/lib.rs:359-370` | A bad slot is the very slice the reader fetches for the inode it names |
| `Audit.BadInodeIsBadSlot` | `forensic/src/lib.rs:359-370` | A bad valid inode is a bad slot at its location |
| `Sweep.FindsMatchMarks` | `forensic/src/lib.rs:483-516` | A sweep that finds one thing at each marked slot finds them in the order of the marks, which increase strictly |
| `Sweep.FoundAtSlot` | `forensic/src/lib.rs:354-376` | What a sweep finds lies at a whole number of slots from its start |
| `Sweep.SlotIsFound` | `forensic/src/lib.rs:354-376` | What lies at such a slot is found |
| `Tamper.TamperedAgfIsReported` | `forensic/src/lib.rs:313-324` | In a v5 image, any change of any byte past the magic of a verifying, reached free-space header is reported at its place by the audit of the changed image |
| `Tamper.GroupFindingIsReported` | `forensic/src/lib.rs:290-348` | What a visited group finds is in the report of the whole audit |
| `Recovered.FreedAt` | `forensic/src/lib.rs:487-493` | The test of a slot in bytes: at least 176 of them, 0x494E at 0, mode 0 at 2, version 3 or later at 4; the fork starts at byte 176 |
| `Recovered.SurvivesIsPlausible` | `forensic/src/lib.rs:551-560` | The tests of a record keep exactly those that are not empty, not at block 0, and wholly in the image |
| `Recovered.RecoveredOnceEach` | `forensic/src/lib.rs:471-518` | The scan reports the freed version-3 inodes with a surviving record once each, in the order of their slots, each with its number, its surviving records, its estimate and its carved bytes |
| `Recovered.RecoveredIff` | `forensic/src/lib.rs:471-518` | A record is reported if and only if it is exactly that of a freed inode in some slot: magic, mode 0 and version 3 or later in the bytes of the slot, its number, the records from byte 176 on up to the first that is empty, at block 0 or not in the image, their span, and the carved bytes |
| `Recovered.FreedSlotsExactly` | `forensic/src/lib.rs:483-516` | The slots reported are exactly the aligned whole slots whose bytes are those of a freed inode with a plausible first record, and that have a number |
| `Recovered.FreedIsRecovered` | `forensic/src/lib.rs:471-518` | No freed inode with a surviving record is missed, and what is reported for it is its record |
| `Recovered.RecoveredIsFaithful` | `forensic/src/lib.rs:471-518` | Every reported record is that of a freed slot; its extents lie in the image; its carved bytes have the estimated length, are the physical runs when the residue is contiguous, and are empty when the estimate exceeds the image |
| `Recovered.RecoveredNumberIsRead` | `forensic/src/lib.rs:496-510` | Under coherent geometry the reported number is valid and the reader fetches that very slot for it |
| `Carving.FaithfulIff` | `forensic/src/lib.rs:496-510` | For any in-image residue, in any order, overlapping or sparse: the carved bytes are the physical runs in every image of that length if and only if the estimate fits in the image and the last extent covering each logical block gives the block that comes there in the runs |
| `Carving.OrderedFaithfulIff` | `forensic/src/lib.rs:496-510` | For a residue in logical order the carved bytes are the physical runs in every image of that length if and only if it is contiguous from 0 and the estimate fits |
| `Carving.OrderedInPlaceIff` | `forensic/src/lib.rs:497-501` | For a residue in logical order every block is in place exactly when there is no gap and no late start |
| `Carving.LateResidueIsLost` | `forensic/src/lib.rs:497-501` | A surviving one-block residue at logical block 5: the estimate is one block, and what is carved is zeros, whatever the block holds |
| `Carving.RunsByte` | `forensic/src/lib.rs:496-510` | Byte `i` of the physical runs is byte `i % blocksize` of the block that comes at `i / blocksize` when the runs are laid end to end |
| `Recovery.CarvingIsFaithful` | `forensic/src/lib.rs:496-510` | For one image and a residue contiguous from 0: carved and runs are equal if and only if the estimate fits, and nothing is carved otherwise |
| `Recovery.ResidualIsLongest` | `forensic/src/lib.rs:542-565` | The residue is the longest prefix of the records in which every record survives |
| `Recovery.ResidualInImage` | `forensic/src/lib.rs:542-565` | Every residual extent lies wholly in the image |
| `Recovery.DecodeResidual` | `forensic/src/lib.rs:542-565` | The loop over the fork returns the surviving prefix of the records `read_extents` gives for the whole fork |
| `Recovery.ResidualTests` | `forensic/src/lib.rs:551-561` | The tests of one turn accept exactly the surviving records |
| `Recovery.ZeroRecordIsEmpty` | `forensic/src/lib.rs:551-553` | The all-zero test adds nothing: a zero record has no blocks |
| `Recovery.RecoverFork` | `forensic/src/lib.rs:492-510` | Residue, number, block sum, estimate and carving of one freed inode |
| `Recovery.SumBlocks` | `forensic/src/lib.rs:497` | The sum of the block counts |
| `Recovery.ScanSlots` | `forensic/src/lib.rs:483-516` | The scan visits every whole inode slot of the image |
| `Recovery.RecoverDeleted` | `forensic/src/lib.rs:471-518` | The scan reports the freed inodes slot by slot |

## Left out

- `core/src/vfs.rs`: an adapter over an outside trait; its windowed reads would add only easy members.
- Error texts, severities, notes, evidence and `audit_findings`: string formatting over an outside report model. Errors keep their kind and their numbers.
- Superblock, inode, AGF and AGI fields nothing here uses, and the AGFL parser: fixed-offset reads.
- Timestamps, including the deletion time of a recovered inode, and file types: one-step decodings.
- `read_by_path`: splitting of path strings and UTF-8 handling.
- `list_xattrs`, the attribute fork dispatch and `parse_leaf_fork`: a concatenation over blocks of what `ParseLeafBlock` returns.
- `verify_bmbt_block_crc` and `verify_dir_block_crc`: a case table over `VerifyCrc`.
- The `crc` crate: its tables are replaced by the register, one bit at a time.
- The kernel's own block addressing: the code's linear `block * blocksize` is modelled as written.
- Memory use: neither the bytes allocated nor the size of a stack frame; the depth of the recursion is in `BmapDepth`.
- The record sum of a recovered inode cannot overflow, as an inode slot holds under 65536 bytes; overflow checks of debug builds are not modelled otherwise.
- RemoteValueStops: gathering a remote value stops also at logical block 2^64-1, which the program cannot reach from a 32-bit start within the value limit.
- The zeroing loop of `Crc.VerifyCrc`, the copy of `Assemble.CopySlice` and the bytes pushed by `Xattr.GatherBlocks` stand for library calls on slices.
- RecordsReadBack: live records have inode numbers below 0xFFFF000000000000, as the format takes the higher ones for the free tag (`core/src/dir.rs:331-332`).
