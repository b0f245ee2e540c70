/** What the recovery scan reports: one faithful record for each freed inode, and nothing else. */
module Recovered {
  import opened Wrappers
  import opened Words
  import opened Bytes
  import opened Superblock
  import opened Extent
  import opened Assemble
  import opened Inode
  import opened InodeMap
  import opened Sweep
  import opened Recovery

  /** A whole inode slot of the image starts at `off`. */
  predicate IsSlot(image: Image, sb: Superblock, off: nat) {
    sb.inodesize > 0 && off % sb.inodesize == 0 && off + sb.inodesize <= |image|
  }

  /** The `size` bytes at `off` hold a freed inode: the inode magic, mode 0, and version 3 or later. */
  predicate IsFreed(image: Image, off: nat, size: nat) {
    && size >= 176
    && BeU16(image, off) == 0x494E
    && BeU16(image, off + 2) == 0
    && U8At(image, off + 4) >= 3
  }

  /** A record that can be a surviving extent: not empty, not at block 0, and wholly in the image. */
  predicate Plausible(r: BmbtRec, bs: nat, len: nat) {
    r.blockcount > 0 && r.startblock > 0 && InImage(r, bs, len)
  }

  /** Whole records after the inode core. */
  function RecordsInSlot(sb: Superblock): nat {
    if sb.inodesize < 176 then 0 else (sb.inodesize - 176) / 16
  }

  /** Record `k` of the slot at `off`. */
  function RecordIn(image: Image, sb: Superblock, off: u64, k: nat): BmbtRec
    requires off + sb.inodesize <= |image| && k < RecordsInSlot(sb)
  {
    Unpack(image[off + 176 + 16 * k..off + 192 + 16 * k])
  }

  /** The slot's records up to the first that is not plausible. */
  predicate IsResidue(image: Image, sb: Superblock, off: u64, s: seq<BmbtRec>)
    requires off + sb.inodesize <= |image|
  {
    && |s| <= RecordsInSlot(sb)
    && (forall k :: 0 <= k < |s| ==> s[k] == RecordIn(image, sb, off, k) && Plausible(s[k], sb.blocksize, |image|))
    && (|s| < RecordsInSlot(sb) ==> !Plausible(RecordIn(image, sb, off, |s|), sb.blocksize, |image|))
  }

  /** The slot at `off` holds a freed inode whose first record is plausible, and has an inode number. */
  predicate Freed(image: Image, sb: Superblock, off: u64)
    requires off + sb.inodesize <= |image|
  {
    && IsFreed(image, off, sb.inodesize)
    && RecordsInSlot(sb) > 0 && Plausible(RecordIn(image, sb, off, 0), sb.blocksize, |image|)
    && OffsetToInode(sb, off).Some?
  }

  /** The record is exactly that of the freed inode in the slot at `off`. */
  predicate Reports(image: Image, sb: Superblock, off: u64, d: DeletedInode)
    requires off + sb.inodesize <= |image|
  {
    && Freed(image, sb, off)
    && OffsetToInode(sb, off) == Some((d.agno, d.inodeNumber))
    && IsResidue(image, sb, off, d.residualExtents)
    && d.sizeEstimate == Min(U64_MAX, TotalBlocks(d.residualExtents) * sb.blocksize)
    && d.carved == Carved(image, sb.blocksize, d.residualExtents, d.sizeEstimate)
  }

  // ------------------------------------------------------- the program's terms, in bytes

  lemma FreedSlice(slice: Image)
    ensures FreedIn(slice) ==
      if |slice| >= 176 && BeU16(slice, 0) == 0x494E && BeU16(slice, 2) == 0 && U8At(slice, 4) >= 3
      then Some(slice[176..]) else None
  {
    InodeFields(slice, false);
  }

  lemma SlotFields(image: Image, slice: Image, off: nat, size: nat)
    requires size >= 176 && off + size <= |image| && slice == image[off..off + size]
    ensures BeU16(slice, 0) == BeU16(image, off) && BeU16(slice, 2) == BeU16(image, off + 2)
    ensures U8At(slice, 4) == U8At(image, off + 4)
    ensures slice[176..] == image[off + 176..off + size]
  {
    PartU16(image, slice, off, 0);
    PartU16(image, slice, off, 2);
  }

  /** The program's test of a slot, and the fork it goes on with, in bytes. */
  lemma FreedAt(image: Image, slice: Image, off: nat, size: nat)
    requires off + size <= |image| && slice == image[off..off + size]
    ensures FreedIn(slice).Some? <==> IsFreed(image, off, size)
    ensures IsFreed(image, off, size) ==> FreedIn(slice).value == image[off + 176..off + size]
  {
    FreedSlice(slice);
    if size >= 176 {
      SlotFields(image, slice, off, size);
    }
  }

  lemma ForkIsFreedIn(image: Image, sb: Superblock, off: u64, slice: Image)
    requires off + sb.inodesize <= |image| && slice == image[off..off + sb.inodesize]
    ensures FreedFork(image, sb, off) == FreedIn(slice)
  {}

  lemma DeletedFromFork(image: Image, sb: Superblock, off: u64, fork: Option<Image>)
    requires off + sb.inodesize <= |image| && FreedFork(image, sb, off) == fork
    ensures fork.None? ==> DeletedAt(image, sb, off) == []
    ensures fork.Some? ==> |fork.value| < 0x1_0000 && DeletedAt(image, sb, off) == FromFork(image, sb, off, fork.value)
  {}

  lemma SurvivesIsPlausible(r: BmbtRec, bs: u32, len: u64)
    requires bs > 0 && Packable(r)
    ensures Survives(r, ImageLenBlocks(len, bs)) <==> Plausible(r, bs, len)
  {
    QuotientBounds(r.startblock + r.blockcount, len, bs);
  }

  lemma RecordOfFork(image: Image, off: nat, hi: nat, k: nat)
    requires off + 176 + 16 * k + 16 <= hi <= |image|
    ensures image[off + 176..hi][16 * k..16 * k + 16] == image[off + 176 + 16 * k..off + 192 + 16 * k]
  {
    SliceOfSlice(image, off + 176, hi, 16 * k, 16 * k + 16);
  }

  lemma UnpackedPackable(raw: seq<byte>)
    requires |raw| == 16
    ensures Packable(Unpack(raw))
  {
    PackUnpack(raw);
  }

  lemma ListOfSlot(image: Image, sb: Superblock, off: u64, fork: seq<byte>, k: nat)
    requires off + sb.inodesize <= |image| && sb.inodesize >= 176 && fork == image[off + 176..off + sb.inodesize]
    requires k < RecordsInSlot(sb)
    ensures |ExtentList(fork, |fork|)| == RecordsInSlot(sb)
    ensures ExtentList(fork, |fork|)[k] == RecordIn(image, sb, off, k) && Packable(RecordIn(image, sb, off, k))
  {
    var raw := fork[16 * k..16 * k + 16];
    RecordOfFork(image, off, off + sb.inodesize, k);
    UnpackedPackable(raw);
    ListAt(fork, k);
    assert RecordIn(image, sb, off, k) == Unpack(raw);
  }

  /** What the program keeps of the fork is the residue. */
  lemma ResidualIsResidue(image: Image, sb: Superblock, off: u64, fork: Image)
    requires off + sb.inodesize <= |image| && sb.inodesize >= 176 && sb.blocksize > 0
    requires fork == image[off + 176..off + sb.inodesize]
    ensures IsResidue(image, sb, off, Residual(fork, ImageLenBlocks(|image|, sb.blocksize)))
  {
    var total := ImageLenBlocks(|image|, sb.blocksize);
    var list, s := ExtentList(fork, |fork|), Residual(fork, total);
    ResidualIsLongest(list, total);
    assert |list| == RecordsInSlot(sb);
    forall k | 0 <= k < |list|
      ensures list[k] == RecordIn(image, sb, off, k)
      ensures Survives(list[k], total) <==> Plausible(list[k], sb.blocksize, |image|)
    {
      ListOfSlot(image, sb, off, fork, k);
      SurvivesIsPlausible(list[k], sb.blocksize, |image|);
    }
  }

  lemma KeptArePlausible(image: Image, sb: Superblock, off: u64, s: seq<BmbtRec>)
    requires off + sb.inodesize <= |image| && IsResidue(image, sb, off, s)
    ensures forall k :: 0 <= k < |s| ==> Plausible(RecordIn(image, sb, off, k), sb.blocksize, |image|)
  {}

  lemma ResidueUnique(image: Image, sb: Superblock, off: u64, s: seq<BmbtRec>, t: seq<BmbtRec>)
    requires off + sb.inodesize <= |image| && IsResidue(image, sb, off, s) && IsResidue(image, sb, off, t)
    ensures s == t
  {
    KeptArePlausible(image, sb, off, s);
    KeptArePlausible(image, sb, off, t);
  }

  lemma ForkReports(image: Image, sb: Superblock, off: u64, fork: Image)
    requires off + sb.inodesize <= |image| && IsFreed(image, off, sb.inodesize) && sb.blocksize > 0
    requires fork == image[off + 176..off + sb.inodesize]
    ensures |FromFork(image, sb, off, fork)| == if Freed(image, sb, off) then 1 else 0
    ensures Freed(image, sb, off) ==> Reports(image, sb, off, FromFork(image, sb, off, fork)[0])
  {
    ResidualIsResidue(image, sb, off, fork);
  }

  /** A slot is reported once if it holds a freed inode with a residue, and not at all otherwise. */
  lemma SlotReports(image: Image, sb: Superblock, off: u64)
    requires off + sb.inodesize <= |image| && sb.blocksize > 0
    ensures |DeletedAt(image, sb, off)| == if Freed(image, sb, off) then 1 else 0
    ensures Freed(image, sb, off) ==> Reports(image, sb, off, DeletedAt(image, sb, off)[0])
  {
    var slice: Image := image[off..off + sb.inodesize];
    var fork := FreedIn(slice);
    ForkIsFreedIn(image, sb, off, slice);
    DeletedFromFork(image, sb, off, fork);
    FreedAt(image, slice, off, sb.inodesize);
    if fork.Some? {
      ForkReports(image, sb, off, fork.value);
    }
  }

  /** The record is determined by the slot. */
  lemma ReportsUnique(image: Image, sb: Superblock, off: u64, d: DeletedInode, e: DeletedInode)
    requires off + sb.inodesize <= |image| && Reports(image, sb, off, d) && Reports(image, sb, off, e)
    ensures d == e
  {
    ResidueUnique(image, sb, off, d.residualExtents, e.residualExtents);
  }

  // ------------------------------------------------------------------- exactly once

  function Marks(image: Image, sb: Superblock): nat -> seq<nat> {
    (off: nat) => if off + sb.inodesize <= |image| && Freed(image, sb, off) then [off] else []
  }

  /** The slots that hold a freed inode with a residue, in ascending order. */
  function FreedSlots(image: Image, sb: Superblock): seq<nat> {
    if sb.inodesize < 176 || sb.blocksize == 0 then []
    else SweepFrom(Marks(image, sb), 0, sb.inodesize, |image|)
  }

  lemma MarkOf(image: Image, sb: Superblock, off: nat)
    requires sb.blocksize > 0
    ensures var marks, slots := Marks(image, sb)(off), DeletedSlots(image, sb)(off);
      |slots| == |marks| && (marks == [] || marks == [off])
  {
    if off + sb.inodesize <= |image| {
      SlotReports(image, sb, off);
    }
  }

  lemma FreedSlotsExactly(image: Image, sb: Superblock, off: nat)
    requires sb.inodesize >= 176 && sb.blocksize > 0
    ensures off in FreedSlots(image, sb) <==> IsSlot(image, sb, off) && Freed(image, sb, off)
  {
    var marks := Marks(image, sb);
    DivModUnique(0, sb.inodesize, 0, 0);
    if off in FreedSlots(image, sb) {
      var pos := FoundAtSlot(marks, 0, sb.inodesize, |image|, off);
    } else if IsSlot(image, sb, off) && Freed(image, sb, off) {
      SlotIsFound(marks, 0, off, sb.inodesize, |image|, off);
    }
  }

  /**
   The scan reports the freed inodes with a residue once each, in the order of their
   slots: entry `k` of the report is the record of entry `k` of the freed slots, and
   these are strictly ascending.
   */
  lemma RecoveredOnceEach(image: Image, sb: Superblock)
    ensures var offs, found := FreedSlots(image, sb), Deleted(image, sb);
      && |found| == |offs|
      && (forall k :: 0 <= k < |offs| ==>
        offs[k] + sb.inodesize <= |image| && Reports(image, sb, offs[k], found[k]))
      && (forall j, k :: 0 <= j < k < |offs| ==> offs[j] < offs[k])
  {
    if sb.inodesize >= 176 && sb.blocksize > 0 {
      var marks, slots := Marks(image, sb), DeletedSlots(image, sb);
      forall o: nat ensures |slots(o)| == |marks(o)| && (marks(o) == [] || marks(o) == [o]) {
        MarkOf(image, sb, o);
      }
      FindsMatchMarks(marks, slots, 0, sb.inodesize, |image|);
      var offs, found := FreedSlots(image, sb), Deleted(image, sb);
      forall k | 0 <= k < |offs|
        ensures offs[k] + sb.inodesize <= |image| && Reports(image, sb, offs[k], found[k])
      {
        FreedSlotsExactly(image, sb, offs[k]);
        SlotReports(image, sb, offs[k]);
      }
    }
  }

  /** A record is reported if and only if it is exactly that of a freed inode in some slot. */
  lemma RecoveredIff(image: Image, sb: Superblock, d: DeletedInode)
    ensures d in Deleted(image, sb) <==>
      sb.blocksize > 0 && exists off: nat :: IsSlot(image, sb, off) && Reports(image, sb, off, d)
  {
    var offs, found := FreedSlots(image, sb), Deleted(image, sb);
    RecoveredOnceEach(image, sb);
    if d in found {
      var k :| 0 <= k < |found| && found[k] == d;
      FreedSlotsExactly(image, sb, offs[k]);
    }
    if sb.blocksize > 0 {
      if off: nat :| IsSlot(image, sb, off) && Reports(image, sb, off, d) {
        FreedSlotsExactly(image, sb, off);
        var k :| 0 <= k < |offs| && offs[k] == off;
        ReportsUnique(image, sb, off, d, found[k]);
      }
    }
  }

  /** In particular no freed inode with a residue is missed. */
  lemma FreedIsRecovered(image: Image, sb: Superblock, off: nat) returns (d: DeletedInode)
    requires sb.inodesize >= 176 && sb.blocksize > 0 && IsSlot(image, sb, off) && Freed(image, sb, off)
    ensures d in Deleted(image, sb) && Reports(image, sb, off, d)
  {
    SlotReports(image, sb, off);
    d := DeletedAt(image, sb, off)[0];
    RecoveredIff(image, sb, d);
  }

  // ------------------------------------------------------------------------ faithful

  /** What was carved: nothing beyond the image, else the estimated length, and the physical runs of a contiguous residue. */
  ghost predicate FaithfullyCarved(image: Image, bs: u32, d: DeletedInode)
    requires forall k :: 0 <= k < |d.residualExtents| ==> InImage(d.residualExtents[k], bs, |image|)
  {
    && (d.sizeEstimate > |image| ==> d.carved == [])
    && (d.sizeEstimate <= |image| ==> |d.carved| == d.sizeEstimate == TotalBlocks(d.residualExtents) * bs)
    && (d.sizeEstimate <= |image| && Contiguous(d.residualExtents)
        ==> d.carved == PhysicalRuns(image, bs, d.residualExtents))
  }

  lemma CarvedFaithfully(image: Image, bs: u32, d: DeletedInode)
    requires forall k :: 0 <= k < |d.residualExtents| ==> InImage(d.residualExtents[k], bs, |image|)
    requires d.sizeEstimate == Min(U64_MAX, TotalBlocks(d.residualExtents) * bs)
    requires d.carved == Carved(image, bs, d.residualExtents, d.sizeEstimate)
    ensures FaithfullyCarved(image, bs, d)
  {
    if d.sizeEstimate <= |image| && Contiguous(d.residualExtents) {
      if d.sizeEstimate > 0 {
        CarvingIsFaithful(image, bs, d.residualExtents, d.sizeEstimate);
      } else {
        RunsLength(image, bs, d.residualExtents);
      }
    }
  }

  lemma ReportIsFaithful(image: Image, sb: Superblock, off: u64, d: DeletedInode)
    requires off + sb.inodesize <= |image| && Reports(image, sb, off, d)
    ensures forall k :: 0 <= k < |d.residualExtents| ==> InImage(d.residualExtents[k], sb.blocksize, |image|)
    ensures FaithfullyCarved(image, sb.blocksize, d)
  {
    CarvedFaithfully(image, sb.blocksize, d);
  }

  /** The extents of every reported record lie in the image, and what was carved for it is faithful. */
  lemma RecoveredIsFaithful(image: Image, sb: Superblock, d: DeletedInode) returns (off: u64)
    requires d in Deleted(image, sb)
    ensures IsSlot(image, sb, off) && Reports(image, sb, off, d)
    ensures forall k :: 0 <= k < |d.residualExtents| ==> InImage(d.residualExtents[k], sb.blocksize, |image|)
    ensures FaithfullyCarved(image, sb.blocksize, d)
  {
    RecoveredIff(image, sb, d);
    off :| IsSlot(image, sb, off) && Reports(image, sb, off, d);
    ReportIsFaithful(image, sb, off, d);
  }

  /** Under coherent geometry the reported number is valid, and its inode is read from that very slot. */
  lemma RecoveredNumberIsRead(image: Image, sb: Superblock, d: DeletedInode) returns (off: u64)
    requires d in Deleted(image, sb) && Coherent(sb)
    ensures IsSlot(image, sb, off) && Reports(image, sb, off, d)
    ensures ValidInode(sb, d.inodeNumber) && sb.InodeToLocation(d.inodeNumber).byteOffset == off
    ensures sb.InodeSlice(image, d.inodeNumber) == Success(image[off..off + sb.inodesize])
  {
    off := RecoveredIsFaithful(image, sb, d);
    NumberIsRead(image, sb, off, d.agno, d.inodeNumber);
  }

  lemma NumberIsRead(image: Image, sb: Superblock, off: u64, agno: u64, ino: u64)
    requires Coherent(sb) && IsSlot(image, sb, off) && OffsetToInode(sb, off) == Some((agno, ino))
    ensures ValidInode(sb, ino) && sb.InodeToLocation(ino).byteOffset == off
    ensures sb.InodeSlice(image, ino) == Success(image[off..off + sb.inodesize])
  {
    OffsetThenInode(sb, off);
    SliceAtLocation(sb, image, ino, off);
  }
}
