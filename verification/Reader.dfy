/**
 Reading files and directories through an inode, whichever way it stores its
 extents, and the independence of what is read from that storage format.
 */
module Reader {
  import opened Wrappers
  import opened Words
  import opened Bytes
  import opened Superblock
  import opened Extent
  import opened Assemble
  import opened Btree
  import opened BmapTree
  import opened Inode
  import opened Dir
  import opened DirListing
  import opened ParseLoop

  function FileContents(image: Image, sb: Superblock, inode: Inode): Result<seq<byte>> {
    match inode.format
    case Extents => Assembled(image, sb.blocksize, ExtentList(inode.dataFork, inode.nextents), inode.size)
    case Btree => Assembled(image, sb.blocksize, BtreeExtents(image, sb.blocksize, inode.dataFork), inode.size)
    case _ => Assembled(image, sb.blocksize, [], inode.size)
  }

  method ReadFile(image: Image, sb: Superblock, inode: Inode) returns (r: Result<seq<byte>>)
    ensures r == FileContents(image, sb, inode)
  {
    var recs := [];
    match inode.format {
      case Extents => recs := ReadExtents(inode.dataFork, inode.nextents);
      case Btree => recs := ReadBtreeExtents(image, sb.blocksize, inode.dataFork);
      case _ =>
    }
    r := AssembleExtents(image, sb.blocksize, recs, inode.size);
  }

  function DirContents(image: Image, sb: Superblock, inode: Inode): Result<seq<DirEntry>> {
    match inode.format
    case Local => Success(ShortformDir(inode.dataFork, sb.HasFtype()))
    case Extents =>
      if inode.size == sb.blocksize then
        match FileContents(image, sb, inode)
        case Failure(e) => Failure(e)
        case Success(block) => BlockDir(block, sb.HasFtype())
      else
        Success(MultiblockDir(image, sb.blocksize, sb.HasFtype(), ExtentList(inode.dataFork, inode.nextents)))
    case Btree =>
      Success(MultiblockDir(image, sb.blocksize, sb.HasFtype(), BtreeExtents(image, sb.blocksize, inode.dataFork)))
    case _ => Failure(UnsupportedDir)
  }

  method ReadDir(image: Image, sb: Superblock, inode: Inode) returns (r: Result<seq<DirEntry>>)
    ensures r == DirContents(image, sb, inode)
  {
    match inode.format {
      case Local =>
        var entries := ReadShortformDir(inode.dataFork, sb.HasFtype());
        r := Success(entries);
      case Extents =>
        if inode.size == sb.blocksize {
          var file := ReadFile(image, sb, inode);
          r := match file case Failure(e) => Failure(e) case Success(block) => BlockDir(block, sb.HasFtype());
        } else {
          var recs := ReadExtents(inode.dataFork, inode.nextents);
          var entries := ReadMultiblockDir(image, sb.blocksize, sb.HasFtype(), recs);
          r := Success(entries);
        }
      case Btree =>
        var recs := ReadBtreeExtents(image, sb.blocksize, inode.dataFork);
        var entries := ReadMultiblockDir(image, sb.blocksize, sb.HasFtype(), recs);
        r := Success(entries);
      case _ => r := Failure(UnsupportedDir);
    }
  }

  // ------------------------------------------------------------- what a file contains

  function QuotientOf(i: u64, d: nat): (q: u64)
    requires d > 0
    ensures q == i / d
  {
    DivShrinks(i, d);
    i / d
  }

  /** The byte at `i` comes from the last readable extent covering its block, and is zero when there is none. */
  ghost predicate ByteOf(image: Image, bs: nat, rs: seq<BmbtRec>, size: nat, i: u64, v: byte)
    requires bs > 0
  {
    var q := QuotientOf(i, bs);
    && (forall l: nat :: LastSupplier(rs, bs, size, |image|, q, l) ==>
        PositionIn(rs[l], bs, q, i) < |image| && v == image[PositionIn(rs[l], bs, q, i)])
    && ((forall k :: 0 <= k < |rs| ==> !Supplies(rs[k], bs, size, |image|, q)) ==> v == 0)
  }

  /** The result of reading a file of `size` bytes with these extents. */
  ghost predicate IsFile(image: Image, bs: nat, rs: seq<BmbtRec>, size: u64, r: Result<seq<byte>>)
    requires bs > 0
  {
    if size > |image| then r == Failure(Truncated(size, |image|))
    else r.Success? && |r.value| == size && forall i: u64 :: i < size ==> ByteOf(image, bs, rs, size, i, r.value[i])
  }

  lemma AssembledByte(image: Image, bs: u32, rs: seq<BmbtRec>, size: u64, i: u64)
    requires bs > 0 && AllPackable(rs) && i < size
    ensures ByteOf(image, bs, rs, size, i, FileByte(image, bs, rs, size, i))
  {
    var q := QuotientOf(i, bs);
    forall l: nat | LastSupplier(rs, bs, size, |image|, q, l)
      ensures PositionIn(rs[l], bs, q, i) < |image|
      ensures FileByte(image, bs, rs, size, i) == image[PositionIn(rs[l], bs, q, i)]
    {
      LastSupplierWins(image, bs, rs, size, i, q, l);
    }
    if forall k :: 0 <= k < |rs| ==> !Supplies(rs[k], bs, size, |image|, q) {
      NoSupplierIsZero(image, bs, rs, size, i, q);
    }
  }

  lemma AssembledIsFile(image: Image, bs: u32, rs: seq<BmbtRec>, size: u64)
    requires bs > 0 && AllPackable(rs)
    ensures IsFile(image, bs, rs, size, Assembled(image, bs, rs, size))
  {
    forall i: u64 | i < size ensures ByteOf(image, bs, rs, size, i, FileByte(image, bs, rs, size, i)) {
      AssembledByte(image, bs, rs, size, i);
    }
  }

  /** An inode that stores the records inline. */
  predicate StoresRecords(inode: Inode, rs: seq<BmbtRec>) {
    inode.format == Extents && inode.nextents == |rs| && Holds(inode.dataFork, 0, PackAll(rs)) && AllPackable(rs)
  }

  /** Reading a file whose extents are inline: its size, and every byte of it. */
  lemma InlineFile(image: Image, sb: Superblock, inode: Inode, rs: seq<BmbtRec>)
    requires sb.blocksize > 0 && StoresRecords(inode, rs)
    ensures IsFile(image, sb.blocksize, rs, inode.size, FileContents(image, sb, inode))
  {
    ListOfPacked(inode.dataFork, rs, |rs|);
    assert rs[..|rs|] == rs;
    AssembledIsFile(image, sb.blocksize, rs, inode.size);
  }

  lemma StoredExtents(image: Image, bs: u32, inode: Inode, ts: seq<Tree>)
    requires StoresAsBtree(image, bs, inode, ts)
    ensures BtreeExtents(image, bs, inode.dataFork) == FlattenAll(ts) && AllPackable(FlattenAll(ts))
  {
    StoredRootIsRead(image, bs, inode.dataFork, ts);
    var ptrs: seq<u64> :| |ptrs| == |ts| && StoresAll(image, bs, ptrs, ts);
    AllStoredRecordsPackable(image, bs, ptrs, ts);
  }

  /** Reading a file whose extents are in a bmap tree. */
  lemma BtreeFile(image: Image, sb: Superblock, inode: Inode, ts: seq<Tree>)
    requires sb.blocksize > 0 && StoresAsBtree(image, sb.blocksize, inode, ts)
    ensures IsFile(image, sb.blocksize, FlattenAll(ts), inode.size, FileContents(image, sb, inode))
  {
    StoredExtents(image, sb.blocksize, inode, ts);
    AssembledIsFile(image, sb.blocksize, FlattenAll(ts), inode.size);
  }

  /** Any other format reads as zeros. */
  lemma OtherFormatIsZeros(image: Image, sb: Superblock, inode: Inode)
    requires inode.format != Extents && inode.format != Btree
    ensures FileContents(image, sb, inode) ==
      if inode.size > |image| then Failure(Truncated(inode.size, |image|)) else Success(seq(inode.size, _ => 0))
  {
    if inode.size <= |image| {
      assert FileContents(image, sb, inode).value == seq(inode.size, _ => 0);
    }
  }

  // --------------------------------------------------------- what a directory contains

  /** The feature bit that says whether entries carry a file type. */
  predicate FtypeBit(sb: Superblock) {
    if sb.versionnum % 16 == 5 then sb.featuresIncompat % 2 == 1 else sb.features2 / 0x200 % 2 == 1
  }

  /** A short-form directory lists its entries, with file types when the feature bit says so. */
  lemma ShortformListed(image: Image, sb: Superblock, inode: Inode, hdr: seq<byte>, ds: seq<RawDirent>,
                        post: seq<byte>, width: nat)
    requires inode.format == Local
    requires inode.dataFork == hdr + EncodeAll(Encoder(FtypeBit(sb), width), ds) + post
    requires |hdr| == 2 + width && hdr[0] == |ds| && width == (if hdr[1] == 0 then 4 else 8)
    requires forall d :: d in ds ==> InumFits(d, width)
    ensures DirContents(image, sb, inode) == Success(MapAll(Decoded(FtypeBit(sb)), ds))
  {
    FeatureBits(sb);
    ShortformDirRoundTrip(inode.dataFork, hdr, ds, post, FtypeBit(sb), width);
  }

  /** A directory with these extents, of a size other than one block when they are inline, lists their blocks. */
  lemma ExtentsListed(image: Image, sb: Superblock, inode: Inode, rs: seq<BmbtRec>,
                      contents: seq<seq<Option<seq<Record>>>>)
    requires sb.blocksize > 0 && StoresRecords(inode, rs) && inode.size != sb.blocksize && |contents| == |rs|
    requires forall k :: 0 <= k < |rs| && IsListed(rs[k], sb.blocksize) ==>
      RunIs(image, sb.blocksize, rs[k], contents[k], FtypeBit(sb))
    ensures DirContents(image, sb, inode) == Success(ListingOf(rs, sb.blocksize, contents, FtypeBit(sb)))
  {
    FeatureBits(sb);
    ListOfPacked(inode.dataFork, rs, |rs|);
    assert rs[..|rs|] == rs;
    MultiblockDirLists(image, sb.blocksize, FtypeBit(sb), rs, contents);
  }

  lemma BtreeListed(image: Image, sb: Superblock, inode: Inode, ts: seq<Tree>, rs: seq<BmbtRec>,
                    contents: seq<seq<Option<seq<Record>>>>)
    requires sb.blocksize > 0 && StoresAsBtree(image, sb.blocksize, inode, ts)
    requires rs == FlattenAll(ts) && |contents| == |rs|
    requires forall k :: 0 <= k < |rs| && IsListed(rs[k], sb.blocksize) ==>
      RunIs(image, sb.blocksize, rs[k], contents[k], FtypeBit(sb))
    ensures DirContents(image, sb, inode) == Success(ListingOf(rs, sb.blocksize, contents, FtypeBit(sb)))
  {
    FeatureBits(sb);
    StoredExtents(image, sb.blocksize, inode, ts);
    MultiblockDirLists(image, sb.blocksize, FtypeBit(sb), rs, contents);
  }

  lemma OtherFormatIsNoDir(image: Image, sb: Superblock, inode: Inode)
    requires inode.format.Dev? || inode.format.Other?
    ensures DirContents(image, sb, inode) == Failure(UnsupportedDir)
  {}

  // ------------------------------------------------------ storage-format independence

  lemma {:induction false} StoredRecordsPackable(image: Image, bs: u32, fsblock: u64, t: Tree)
    requires Stores(image, bs, fsblock, t)
    ensures forall r :: r in Flatten(t) ==> Packable(r)
    decreases t, 1
  {
    if t.InnerNode? {
      var block := BlockSlice(image, fsblock, bs).value;
      var ptrs: seq<u64> :| StoresNode(block, t.level, t.keys, ptrs) && StoresAll(image, bs, ptrs, t.children);
      AllStoredRecordsPackable(image, bs, ptrs, t.children);
    }
  }

  lemma {:induction false} AllStoredRecordsPackable(image: Image, bs: u32, ptrs: seq<u64>, ts: seq<Tree>)
    requires StoresAll(image, bs, ptrs, ts)
    ensures forall r :: r in FlattenAll(ts) ==> Packable(r)
    decreases ts, 0
  {
    if ts != [] {
      StoredRecordsPackable(image, bs, ptrs[0], ts[0]);
      AllStoredRecordsPackable(image, bs, ptrs[1..], ts[1..]);
    }
  }

  /** An inode that stores the records of the trees inline, all of them counted. */
  predicate StoresInline(inode: Inode, ts: seq<Tree>) {
    && inode.format == Extents
    && inode.nextents == |FlattenAll(ts)|
    && Holds(inode.dataFork, 0, PackAll(FlattenAll(ts)))
  }

  /** An inode whose fork is the root of the trees. */
  ghost predicate StoresAsBtree(image: Image, bs: u32, inode: Inode, ts: seq<Tree>) {
    inode.format == Btree && StoresRoot(image, bs, inode.dataFork, ts) && PtrCountAll(ts) <= 0x10_0000
  }

  lemma SameExtents(image: Image, bs: u32, asBtree: Inode, inline: Inode, ts: seq<Tree>)
    requires StoresAsBtree(image, bs, asBtree, ts) && StoresInline(inline, ts)
    ensures BtreeExtents(image, bs, asBtree.dataFork) == ExtentList(inline.dataFork, inline.nextents)
  {
    StoredExtents(image, bs, asBtree, ts);
    var rs := FlattenAll(ts);
    ListOfPacked(inline.dataFork, rs, |rs|);
    assert rs[..|rs|] == rs;
  }

  /** A file read through a B+tree fork is the file read through an inline fork of the flattened records. */
  lemma FileStorageIndependence(image: Image, sb: Superblock, asBtree: Inode, inline: Inode, ts: seq<Tree>)
    requires StoresAsBtree(image, sb.blocksize, asBtree, ts) && StoresInline(inline, ts)
    requires asBtree.size == inline.size
    ensures FileContents(image, sb, asBtree) == FileContents(image, sb, inline)
  {
    SameExtents(image, sb.blocksize, asBtree, inline, ts);
  }

  /** The same for a directory, unless its size equals the block size. */
  lemma DirStorageIndependence(image: Image, sb: Superblock, asBtree: Inode, inline: Inode, ts: seq<Tree>)
    requires StoresAsBtree(image, sb.blocksize, asBtree, ts) && StoresInline(inline, ts)
    requires inline.size != sb.blocksize
    ensures DirContents(image, sb, asBtree) == DirContents(image, sb, inline)
  {
    SameExtents(image, sb.blocksize, asBtree, inline, ts);
  }

  /** At one block they differ when there are no extents: the inline directory fails, the B+tree one lists as empty. */
  lemma OneBlockDirDiffers(image: Image, sb: Superblock, asBtree: Inode, inline: Inode)
    requires StoresAsBtree(image, sb.blocksize, asBtree, []) && StoresInline(inline, [])
    requires inline.size == sb.blocksize
    ensures DirContents(image, sb, asBtree) == Success([])
    ensures DirContents(image, sb, inline).Failure?
  {
    SameExtents(image, sb.blocksize, asBtree, inline, []);
    if sb.blocksize <= |image| {
      var block := FileContents(image, sb, inline).value;
      assert forall i :: 0 <= i < |block| ==> block[i] == 0;
      ZeroMagic(block);
    }
  }

  /** The bytes of a block-size file whose one extent covers its one block. */
  function OnlyBlock(image: Image, bs: u32, r: BmbtRec): seq<byte>
    requires InImage(r, bs, |image|) && r.blockcount == 1
  {
    MulSucc(r.startblock, bs);
    MulNonNegative(r.startblock, bs);
    image[r.startblock * bs..r.startblock * bs + bs]
  }

  lemma OneExtentFile(image: Image, bs: u32, r: BmbtRec)
    requires InImage(r, bs, |image|) && r.startoff == 0 && r.blockcount == 1
    ensures Assembled(image, bs, [r], bs) == Success(OnlyBlock(image, bs, r))
  {
    MulSucc(r.startblock, bs);
    MulNonNegative(r.startblock, bs);
    var block := OnlyBlock(image, bs, r);
    forall i | 0 <= i < bs ensures FileByte(image, bs, [r], bs, i) == block[i] {
      LastWriterWins(image, Windows([r], bs, bs), i, 0);
    }
    assert Assembled(image, bs, [r], bs).value == block;
  }

  lemma OnlyBlockAt(image: Image, bs: u32, r: BmbtRec) returns (start: nat)
    requires InImage(r, bs, |image|) && r.blockcount == 1
    ensures start == r.startblock * bs && start + bs <= |image| && OnlyBlock(image, bs, r) == image[start..start + bs]
  {
    MulSucc(r.startblock, bs);
    MulNonNegative(r.startblock, bs);
    start := r.startblock * bs;
  }

  lemma OneExtentRun(image: Image, bs: u32, hasFtype: bool, r: BmbtRec)
    requires r.startoff == 0 && r.blockcount == 1
    ensures MultiblockDir(image, bs, hasFtype, [r]) == BlockEntries(image, bs, hasFtype, r.startblock)
  {
    BoundaryPositive(bs);
    OneBlockRun(ContentsOf(image, bs, hasFtype), LeafBoundary(bs), r);
  }

  lemma OneExtentListing(image: Image, bs: u32, hasFtype: bool, r: BmbtRec)
    requires InImage(r, bs, |image|) && r.startoff == 0 && r.blockcount == 1
    ensures MultiblockDir(image, bs, hasFtype, [r]) == EntriesIn(OnlyBlock(image, bs, r), hasFtype)
  {
    var start := OnlyBlockAt(image, bs, r);
    OneExtentRun(image, bs, hasFtype, r);
    EntriesOfBlockAt(image, bs, hasFtype, r.startblock, start);
  }

  lemma OneBlockRun(contents: Contents, boundary: nat, r: BmbtRec)
    requires boundary > 0 && r.startoff == 0 && r.blockcount == 1
    ensures Listing(contents, boundary, [r]) == contents(r.startblock)
  {
    ListingOne(contents, boundary, r);
    assert RunEntries(contents, r.startblock, 1, 1) == [];
    assert RunEntries(contents, r.startblock, 0, 1) == contents(r.startblock) + [];
  }

  lemma BoundaryPositive(bs: u32)
    ensures LeafBoundary(bs) > 0
  {
    var d := Max(bs, 1);
    if XFS_DIR2_LEAF_OFFSET / d <= 0 {
      DivModFact(XFS_DIR2_LEAF_OFFSET, d);
    }
  }

  /** The program takes one-block directories apart by their inode format, not by their block. */
  lemma MagicsExclude(block: seq<byte>, hasFtype: bool)
    ensures BlockDir(block, hasFtype).Success? ==> DataDirBlock(block, hasFtype).Failure?
  {}

  /**
   A directory of one block, held by one extent: inline it lists as a block directory,
   through a B+tree as a data block of a larger one. So a block directory with entries
   lists them inline and loses them all through the B+tree, and the two listings are
   the same if and only if the block is a block directory without entries.
   */
  lemma OneBlockDirIff(image: Image, sb: Superblock, asBtree: Inode, inline: Inode, ts: seq<Tree>, r: BmbtRec)
    requires StoresAsBtree(image, sb.blocksize, asBtree, ts) && StoresInline(inline, ts) && FlattenAll(ts) == [r]
    requires inline.size == sb.blocksize && r.startoff == 0 && r.blockcount == 1
    requires Packable(r) && InImage(r, sb.blocksize, |image|)
    ensures var block := OnlyBlock(image, sb.blocksize, r);
      && DirContents(image, sb, inline) == BlockDir(block, sb.HasFtype())
      && (BlockDir(block, sb.HasFtype()).Success? ==> DirContents(image, sb, asBtree) == Success([]))
      && (DirContents(image, sb, asBtree) == DirContents(image, sb, inline)
          <==> BlockDir(block, sb.HasFtype()) == Success([]))
  {
    StoredRootIsRead(image, sb.blocksize, asBtree.dataFork, ts);
    SameExtents(image, sb.blocksize, asBtree, inline, ts);
    OneExtentFile(image, sb.blocksize, r);
    OneExtentListing(image, sb.blocksize, sb.HasFtype(), r);
    MagicsExclude(OnlyBlock(image, sb.blocksize, r), sb.HasFtype());
  }

  /** Directories of this size list the same either way, whatever tree the two inodes store. */
  ghost predicate DirIndependent(image: Image, sb: Superblock, size: u64) {
    forall asBtree, inline, ts ::
      StoresAsBtree(image, sb.blocksize, asBtree, ts) && StoresInline(inline, ts) && inline.size == size
      ==> DirContents(image, sb, asBtree) == DirContents(image, sb, inline)
  }

  /** Hence the listing is independent of the storage format at exactly the sizes other than one block. */
  lemma DirIndependentIff(image: Image, sb: Superblock, size: u64)
    ensures DirIndependent(image, sb, size) <==> size != sb.blocksize
  {
    if size == sb.blocksize {
      var asBtree := Inode(0, 3, Btree, size, 0, None, None, [0, 0, 0, 0]);
      var inline := asBtree.(format := Extents, dataFork := []);
      EmptyRootIsStored(image, sb.blocksize);
      OneBlockDirDiffers(image, sb, asBtree, inline);
    } else {
      forall asBtree, inline, ts
        | StoresAsBtree(image, sb.blocksize, asBtree, ts) && StoresInline(inline, ts) && inline.size == size
        ensures DirContents(image, sb, asBtree) == DirContents(image, sb, inline)
      {
        DirStorageIndependence(image, sb, asBtree, inline, ts);
      }
    }
  }

  lemma ZeroPair(data: seq<byte>, at: nat)
    requires at + 2 <= |data| && data[at..at + 2] == [0, 0]
    ensures BeU16(data, at) == 0
  {
    assert BeBytes(0, 2) == [0, 0];
    HeldU16(data, at, 0);
  }

  lemma EmptyRootIsStored(image: Image, bs: u32)
    ensures StoresRoot(image, bs, [0, 0, 0, 0], [])
  {
    var fork: seq<byte>, ptrs: seq<u64> := [0, 0, 0, 0], [];
    ZeroPair(fork, 0);
    ZeroPair(fork, 2);
    assert HoldsRootPtrs(fork, ptrs) && StoresAll(image, bs, ptrs, []);
  }

  lemma ZeroMagic(block: seq<byte>)
    requires forall i :: 0 <= i < |block| ==> block[i] == 0
    ensures BeU32(block, 0) == 0
  {
    if |block| >= 4 {
      assert block[0..4] == BeBytes(0, 4);
      HeldU32(block, 0, 0);
    }
  }
}
