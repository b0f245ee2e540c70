/**
 The multi-block listing in terms of what the image holds: which extents are listed,
 and what their blocks contribute.
 */
module DirListing {
  import opened Wrappers
  import opened Words
  import opened Bytes
  import opened Extent
  import opened Assemble
  import opened Dir

  /** The extent's first block ends at byte 2^35 of the directory or before. */
  predicate IsListed(r: BmbtRec, bs: nat) {
    (r.startoff + 1) * bs <= 0x8_0000_0000
  }

  /** The program's boundary, a quotient, lists exactly those extents. */
  lemma ListedIff(r: BmbtRec, bs: u32)
    requires bs > 0
    ensures r.startoff < LeafBoundary(bs) <==> IsListed(r, bs)
  {
    QuotientBounds(r.startoff + 1, 0x8_0000_0000, bs);
  }

  /** The block lies in the image and is an encoded data block with these records. */
  ghost predicate DataBlockAt(image: Image, bs: u32, fsblock: nat, rs: seq<Record>, hasFtype: bool) {
    var at := fsblock * bs;
    && 0 <= at && at + bs <= |image|
    && (forall r :: r in rs ==> WellFormed(r, hasFtype))
    && exists hdr :: Header(hdr, XDD3, XD2D) && image[at..at + bs] == hdr + AllBytes(rs, hasFtype)
  }

  /** The block is out of the image, or does not start with the magic of a data block. */
  predicate NotDataBlock(image: Image, bs: u32, fsblock: nat) {
    var at := fsblock * bs;
    0 <= at && (at + bs > |image| || bs < 4 || image[at..at + 4] !in {XDD3, XD2D})
  }

  /** What is known of a block: its records, or that it is not a data block. */
  ghost predicate BlockIs(image: Image, bs: u32, fsblock: nat, content: Option<seq<Record>>, hasFtype: bool) {
    match content
    case Some(rs) => DataBlockAt(image, bs, fsblock, rs, hasFtype)
    case None => NotDataBlock(image, bs, fsblock)
  }

  function EntriesOf(content: Option<seq<Record>>, hasFtype: bool): seq<DirEntry> {
    match content
    case Some(rs) => LiveEntries(rs, hasFtype)
    case None => []
  }

  lemma DataBlockLists(image: Image, bs: u32, fsblock: u64, rs: seq<Record>, hasFtype: bool)
    requires DataBlockAt(image, bs, fsblock, rs, hasFtype)
    ensures BlockEntries(image, bs, hasFtype, fsblock) == LiveEntries(rs, hasFtype)
  {
    var at := fsblock * bs;
    var hdr :| Header(hdr, XDD3, XD2D) && image[at..at + bs] == hdr + AllBytes(rs, hasFtype);
    EntriesOfBlockAt(image, bs, hasFtype, fsblock, at);
    DataDirBlockRoundTrip(hdr, rs, hasFtype);
  }

  lemma OtherMagic(block: seq<byte>, hasFtype: bool)
    requires |block| < 4 || block[..4] !in {XDD3, XD2D}
    ensures EntriesIn(block, hasFtype) == []
  {
    if |block| >= 4 {
      BytesOfBeNat(block[0..4]);
      DirMagicBytes();
      assert block[0..4] == block[..4];
    }
  }

  lemma OtherBlockListsNothing(image: Image, bs: u32, fsblock: u64, hasFtype: bool)
    requires NotDataBlock(image, bs, fsblock)
    ensures BlockEntries(image, bs, hasFtype, fsblock) == []
  {
    var at := fsblock * bs;
    if at + bs <= |image| {
      EntriesOfBlockAt(image, bs, hasFtype, fsblock, at);
      if bs >= 4 {
        assert image[at..at + bs][..4] == image[at..at + 4];
      }
      OtherMagic(image[at..at + bs], hasFtype);
    }
  }

  lemma BlockLists(image: Image, bs: u32, fsblock: u64, content: Option<seq<Record>>, hasFtype: bool)
    requires BlockIs(image, bs, fsblock, content, hasFtype)
    ensures BlockEntries(image, bs, hasFtype, fsblock) == EntriesOf(content, hasFtype)
  {
    match content
    case Some(rs) => DataBlockLists(image, bs, fsblock, rs, hasFtype);
    case None => OtherBlockListsNothing(image, bs, fsblock, hasFtype);
  }

  // ------------------------------------------------------------------ runs and extents

  function RunOf(contents: seq<Option<seq<Record>>>, hasFtype: bool): seq<DirEntry> {
    if contents == [] then [] else EntriesOf(contents[0], hasFtype) + RunOf(contents[1..], hasFtype)
  }

  /** The entries of the listed extents, in list and block order. */
  function ListingOf(recs: seq<BmbtRec>, bs: nat, contents: seq<seq<Option<seq<Record>>>>, hasFtype: bool): seq<DirEntry>
    requires |contents| == |recs|
  {
    if recs == [] then []
    else
      (if IsListed(recs[0], bs) then RunOf(contents[0], hasFtype) else [])
        + ListingOf(recs[1..], bs, contents[1..], hasFtype)
  }

  /** Block `b` of the extent is as its content says. */
  ghost predicate RunIs(image: Image, bs: u32, r: BmbtRec, contents: seq<Option<seq<Record>>>, hasFtype: bool) {
    |contents| == r.blockcount &&
    forall b :: 0 <= b < |contents| ==> BlockIs(image, bs, r.startblock + b, contents[b], hasFtype)
  }

  /** The program's block function gives what the contents say. */
  ghost predicate Gives(at: Contents, startblock: u64, contents: seq<Option<seq<Record>>>, hasFtype: bool) {
    startblock + |contents| <= U64_MAX &&
    forall b :: 0 <= b < |contents| ==> at(startblock + b) == EntriesOf(contents[b], hasFtype)
  }

  lemma {:induction false} RunGives(at: Contents, startblock: u64, contents: seq<Option<seq<Record>>>,
                                    b: u64, n: u64, hasFtype: bool)
    requires Gives(at, startblock, contents, hasFtype) && b <= n == |contents|
    ensures RunEntries(at, startblock, b, n) == RunOf(contents[b..], hasFtype)
    decreases n - b
  {
    if b < n {
      RunGives(at, startblock, contents, b + 1, n, hasFtype);
      assert contents[b..][1..] == contents[b + 1..];
      assert at(startblock + b) == EntriesOf(contents[b], hasFtype);
    }
  }

  lemma RunBlockLists(image: Image, bs: u32, r: BmbtRec, contents: seq<Option<seq<Record>>>, b: nat, hasFtype: bool)
    requires Packable(r) && RunIs(image, bs, r, contents, hasFtype) && b < |contents|
    ensures BlockEntries(image, bs, hasFtype, r.startblock + b) == EntriesOf(contents[b], hasFtype)
  {
    assert BlockIs(image, bs, r.startblock + b, contents[b], hasFtype);
    BlockLists(image, bs, r.startblock + b, contents[b], hasFtype);
  }

  lemma RunLists(at: Contents, image: Image, bs: u32, r: BmbtRec, contents: seq<Option<seq<Record>>>, hasFtype: bool)
    requires ListsBlocks(at, image, bs, hasFtype) && Packable(r) && RunIs(image, bs, r, contents, hasFtype)
    ensures RunEntries(at, r.startblock, 0, r.blockcount) == RunOf(contents, hasFtype)
  {
    forall b | 0 <= b < |contents| ensures at(r.startblock + b) == EntriesOf(contents[b], hasFtype) {
      RunBlockLists(image, bs, r, contents, b, hasFtype);
      assert at(r.startblock + b) == BlockEntries(image, bs, hasFtype, r.startblock + b);
    }
    RunGives(at, r.startblock, contents, 0, r.blockcount, hasFtype);
    assert contents[0..] == contents;
  }

  lemma {:induction false} ListingLists(at: Contents, image: Image, bs: u32, hasFtype: bool, recs: seq<BmbtRec>,
                                        contents: seq<seq<Option<seq<Record>>>>)
    requires ListsBlocks(at, image, bs, hasFtype) && bs > 0 && AllPackable(recs) && |contents| == |recs|
    requires forall k :: 0 <= k < |recs| && IsListed(recs[k], bs) ==> RunIs(image, bs, recs[k], contents[k], hasFtype)
    ensures Listing(at, LeafBoundary(bs), recs) == ListingOf(recs, bs, contents, hasFtype)
    decreases |recs|
  {
    if recs != [] {
      ListedIff(recs[0], bs);
      if IsListed(recs[0], bs) {
        RunLists(at, image, bs, recs[0], contents[0], hasFtype);
      }
      ListingLists(at, image, bs, hasFtype, recs[1..], contents[1..]);
    }
  }

  /**
   A multi-block directory lists exactly what the blocks of its listed extents hold: an
   extent is listed when its first block ends by byte 2^35, an encoded data block gives
   its live entries, and any other block nothing.
   */
  lemma MultiblockDirLists(image: Image, bs: u32, hasFtype: bool, recs: seq<BmbtRec>,
                           contents: seq<seq<Option<seq<Record>>>>)
    requires bs > 0 && AllPackable(recs) && |contents| == |recs|
    requires forall k :: 0 <= k < |recs| && IsListed(recs[k], bs) ==> RunIs(image, bs, recs[k], contents[k], hasFtype)
    ensures MultiblockDir(image, bs, hasFtype, recs) == ListingOf(recs, bs, contents, hasFtype)
  {
    ListingLists(ContentsOf(image, bs, hasFtype), image, bs, hasFtype, recs, contents);
  }
}
