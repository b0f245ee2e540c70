/**
 Deleted-inode recovery: a freed inode keeps its extent records in the fork; they
 are decoded up to the first implausible one, and their blocks are carved.
 */
module Recovery {
  import opened Wrappers
  import opened Words
  import opened Bytes
  import opened Superblock
  import opened Extent
  import opened Assemble
  import opened Inode
  import opened InodeMap
  import opened Sweep

  datatype DeletedInode = DeletedInode(
    agno: u64, inodeNumber: u64, residualExtents: seq<BmbtRec>, sizeEstimate: u64, carved: seq<byte>)

  const ZERO_RECORD: seq<byte> := [0, 0, 0, 0, 0, 0, 0, 0, 0, 0, 0, 0, 0, 0, 0, 0]

  function ImageLenBlocks(len: u64, bsize: u32): u64 {
    if bsize == 0 then 0 else DivShrinks(len, bsize); len / bsize
  }

  /** A record that can be a surviving extent: not empty, not at block 0, within the image. */
  predicate Survives(r: BmbtRec, totalBlocks: u64) {
    r.blockcount != 0 && r.startblock != 0 && SatAdd(r.startblock, r.blockcount) <= totalBlocks
  }

  function SurvivingPrefix(recs: seq<BmbtRec>, totalBlocks: u64): seq<BmbtRec> {
    if recs == [] || !Survives(recs[0], totalBlocks) then []
    else [recs[0]] + SurvivingPrefix(recs[1..], totalBlocks)
  }

  function Residual(fork: seq<byte>, totalBlocks: u64): seq<BmbtRec> {
    SurvivingPrefix(ExtentList(fork, |fork|), totalBlocks)
  }

  method DecodeResidual(fork: Image, totalBlocks: u64) returns (recs: seq<BmbtRec>)
    ensures recs == Residual(fork, totalBlocks)
  {
    recs := [];
    var p := 0;
    ghost var list := ExtentList(fork, |fork|);
    while p + REC_LEN <= |fork|
      invariant p == REC_LEN * |recs| && |recs| <= |list| == |fork| / REC_LEN
      invariant recs + SurvivingPrefix(list[|recs|..], totalBlocks) == SurvivingPrefix(list, totalBlocks)
    {
      ghost var k := |recs|;
      var rec := ResidualRecord(fork, p, k, totalBlocks);
      if rec.None? {
        break;
      }
      PrefixStep(list, k, totalBlocks, recs);
      recs := recs + [rec.value];
      p := p + REC_LEN;
    }
  }

  method ResidualRecord(fork: Image, p: nat, ghost k: nat, totalBlocks: u64) returns (rec: Option<BmbtRec>)
    requires p == REC_LEN * k && p + REC_LEN <= |fork|
    ensures var list := ExtentList(fork, |fork|);
      k < |list| && rec == if Survives(list[k], totalBlocks) then Some(list[k]) else None
  {
    ListAt(fork, k);
    rec := ResidualTests(fork[p..p + REC_LEN], totalBlocks);
  }

  /** The tests of one turn, in the program's order. */
  method ResidualTests(raw: seq<byte>, totalBlocks: u64) returns (rec: Option<BmbtRec>)
    ensures rec == if Survives(Unpack(raw), totalBlocks) then Some(Unpack(raw)) else None
  {
    if raw == ZERO_RECORD {
      ZeroRecordIsEmpty();
      return None;
    }
    var r := Unpack(raw);
    if r.blockcount == 0 || r.startblock == 0 {
      return None;
    }
    if SatAdd(r.startblock, r.blockcount) > totalBlocks {
      return None;
    }
    rec := Some(r);
  }

  lemma ListAt(fork: seq<byte>, k: nat)
    requires REC_LEN * k + REC_LEN <= |fork|
    ensures k < |fork| / REC_LEN && |ExtentList(fork, |fork|)| == |fork| / REC_LEN
    ensures ExtentList(fork, |fork|)[k] == Unpack(fork[REC_LEN * k..REC_LEN * k + REC_LEN])
  {}

  lemma PrefixStep(list: seq<BmbtRec>, k: nat, totalBlocks: u64, recs: seq<BmbtRec>)
    requires k < |list| && Survives(list[k], totalBlocks)
    ensures recs + SurvivingPrefix(list[k..], totalBlocks)
         == (recs + [list[k]]) + SurvivingPrefix(list[k + 1..], totalBlocks)
  {
    assert list[k..][1..] == list[k + 1..];
  }

  lemma PackZero()
    ensures Pack(BmbtRec(0, 0, 0, false)) == ZERO_RECORD
  {
    ZeroBytes(8);
  }

  /** The all-zero test adds nothing: a zero record has no blocks. */
  lemma ZeroRecordIsEmpty()
    ensures Unpack(ZERO_RECORD).blockcount == 0
  {
    PackZero();
    UnpackPack(BmbtRec(0, 0, 0, false));
  }

  lemma {:induction false} ZeroBytes(width: nat)
    ensures forall i :: 0 <= i < width ==> BeBytes(0, width)[i] == 0
  {
    if width > 0 {
      ZeroBytes(width - 1);
    }
  }

  // ------------------------------------------------------------- faithful carving

  /** The residue is the longest prefix of the fork's records in which every record survives. */
  lemma {:induction false} ResidualIsLongest(recs: seq<BmbtRec>, totalBlocks: u64)
    ensures var s := SurvivingPrefix(recs, totalBlocks);
      && s <= recs
      && (forall i :: 0 <= i < |s| ==> Survives(s[i], totalBlocks))
      && (|s| < |recs| ==> !Survives(recs[|s|], totalBlocks))
  {
    if recs != [] && Survives(recs[0], totalBlocks) {
      ResidualIsLongest(recs[1..], totalBlocks);
    }
  }

  lemma SurvivorInImage(r: BmbtRec, bs: u32, len: u64)
    requires bs > 0 && Packable(r) && Survives(r, ImageLenBlocks(len, bs))
    ensures InImage(r, bs, len)
  {
    MulMono(r.startblock + r.blockcount, len / bs, bs);
    DivModFact(len, bs);
  }

  /** Every residual extent lies wholly in the image. */
  lemma ResidualInImage(fork: seq<byte>, bs: u32, len: u64)
    requires bs > 0
    ensures var s := Residual(fork, ImageLenBlocks(len, bs));
      forall i :: 0 <= i < |s| ==> Packable(s[i]) && InImage(s[i], bs, len)
  {
    var list, total := ExtentList(fork, |fork|), ImageLenBlocks(len, bs);
    ResidualIsLongest(list, total);
    ExtentListPackable(fork, |fork|);
    var s := Residual(fork, total);
    forall i | 0 <= i < |s| ensures Packable(s[i]) && InImage(s[i], bs, len) {
      assert s[i] == list[i];
      SurvivorInImage(s[i], bs, len);
    }
  }

  function TotalBlocks(recs: seq<BmbtRec>): nat {
    if recs == [] then 0 else TotalBlocks(recs[..|recs| - 1]) + recs[|recs| - 1].blockcount
  }

  /** Each extent starts where the one before it ends, the first at 0. */
  predicate Contiguous(recs: seq<BmbtRec>) {
    recs == [] ||
    (recs[|recs| - 1].startoff == TotalBlocks(recs[..|recs| - 1]) && Contiguous(recs[..|recs| - 1]))
  }

  /** The physical runs one after the other. */
  function PhysicalRuns(image: seq<byte>, bs: nat, recs: seq<BmbtRec>): seq<byte>
    requires forall i :: 0 <= i < |recs| ==> InImage(recs[i], bs, |image|)
  {
    if recs == [] then []
    else PhysicalRuns(image, bs, recs[..|recs| - 1]) + RunBytes(image, bs, recs[|recs| - 1])
  }

  function RunBytes(image: seq<byte>, bs: nat, r: BmbtRec): (run: seq<byte>)
    requires InImage(r, bs, |image|)
    ensures r.blockcount * bs >= 0 && |run| == r.blockcount * bs
  {
    MulDistributes(r.startblock, r.blockcount, bs);
    MulNonNegative(r.startblock, bs);
    MulNonNegative(r.blockcount, bs);
    image[r.startblock * bs..r.startblock * bs + r.blockcount * bs]
  }

  lemma {:induction false} RunsLength(image: seq<byte>, bs: nat, recs: seq<BmbtRec>)
    requires forall i :: 0 <= i < |recs| ==> InImage(recs[i], bs, |image|)
    ensures TotalBlocks(recs) * bs >= 0 && |PhysicalRuns(image, bs, recs)| == TotalBlocks(recs) * bs
  {
    if recs != [] {
      var init, r := recs[..|recs| - 1], recs[|recs| - 1];
      RunsLength(image, bs, init);
      MulDistributes(TotalBlocks(init), r.blockcount, bs);
      assert |PhysicalRuns(image, bs, recs)| == |PhysicalRuns(image, bs, init)| + |RunBytes(image, bs, r)|;
    }
  }

  lemma {:induction false} CarvedByte(image: seq<byte>, bs: nat, recs: seq<BmbtRec>, size: nat, i: nat)
    requires forall k :: 0 <= k < |recs| ==> InImage(recs[k], bs, |image|)
    requires Contiguous(recs) && TotalBlocks(recs) * bs <= size
    requires i < |PhysicalRuns(image, bs, recs)|
    ensures FileByte(image, bs, recs, size, i) == PhysicalRuns(image, bs, recs)[i]
    decreases |recs|
  {
    if recs != [] {
      var init, r := recs[..|recs| - 1], recs[|recs| - 1];
      var ws, w := Windows(recs, bs, size), WindowOf(r, bs, size);
      assert ws[|ws| - 1] == w && ws[..|ws| - 1] == Windows(init, bs, size);
      RunsLength(image, bs, init);
      RunsLength(image, bs, recs);
      LastWindow(r, bs, size, |image|, TotalBlocks(init));
      if i < w.dst {
        CarvedByte(image, bs, init, size, i);
      }
    }
  }

  lemma LastWindow(r: BmbtRec, bs: nat, size: nat, imageLen: nat, start: nat)
    requires InImage(r, bs, imageLen) && r.startoff == start && (start + r.blockcount) * bs <= size
    ensures var w := WindowOf(r, bs, size);
      && w.dst == start * bs && w.end == (start + r.blockcount) * bs && w.src == r.startblock * bs
      && (w.dst < w.end ==> Readable(w, imageLen))
  {
    MulDistributes(start, r.blockcount, bs);
    MulDistributes(r.startblock, r.blockcount, bs);
  }

  /** What is carved: the assembled residue, or nothing when the estimate exceeds the image. */
  function Carved(image: Image, bs: u32, residual: seq<BmbtRec>, estimate: u64): seq<byte> {
    match Assembled(image, bs, residual, estimate)
    case Success(bytes) => bytes
    case Failure(_) => []
  }

  /**
   Carving is faithful: for a residue that is logically contiguous from 0, the
   carved bytes are its physical runs one after the other exactly when the estimate
   fits in the image (an empty residue aside); otherwise nothing is carved.
   */
  lemma CarvingIsFaithful(image: Image, bs: u32, residual: seq<BmbtRec>, estimate: u64)
    requires forall k :: 0 <= k < |residual| ==> InImage(residual[k], bs, |image|)
    requires Contiguous(residual) && estimate == TotalBlocks(residual) * bs && estimate > 0
    ensures Carved(image, bs, residual, estimate) == PhysicalRuns(image, bs, residual) <==> estimate <= |image|
    ensures estimate <= |image| ==> |Carved(image, bs, residual, estimate)| == estimate
    ensures estimate > |image| ==> Carved(image, bs, residual, estimate) == []
  {
    var runs := PhysicalRuns(image, bs, residual);
    RunsLength(image, bs, residual);
    if estimate <= |image| {
      forall i | 0 <= i < estimate ensures FileByte(image, bs, residual, estimate, i) == runs[i] {
        CarvedByte(image, bs, residual, estimate, i);
      }
      assert Carved(image, bs, residual, estimate) == runs;
    }
  }

  // ----------------------------------------------------------------- the recovery scan

  lemma {:induction false} TotalBlocksSmall(recs: seq<BmbtRec>)
    requires AllPackable(recs)
    ensures TotalBlocks(recs) <= |recs| * 0x20_0000
  {
    if recs != [] {
      TotalBlocksSmall(recs[..|recs| - 1]);
    }
  }

  lemma ResidualSumFits(fork: seq<byte>, totalBlocks: u64)
    requires |fork| < 0x1_0000
    ensures TotalBlocks(Residual(fork, totalBlocks)) <= U64_MAX
  {
    var s := Residual(fork, totalBlocks);
    ResidualIsLongest(ExtentList(fork, |fork|), totalBlocks);
    ExtentListPackable(fork, |fork|);
    assert forall i :: 0 <= i < |s| ==> s[i] == ExtentList(fork, |fork|)[i];
    TotalBlocksSmall(s);
  }

  /** The data fork of the inode in the slice, if it is freed: unlinked, and of version 3 or later. */
  function FreedIn(slice: Image): (fork: Option<Image>)
    ensures fork.Some? ==> |fork.value| <= |slice|
  {
    match ParseInode(slice, false)
    case Failure(_) => None
    case Success(inode) => if inode.version >= 3 && inode.mode == 0 then Some(inode.dataFork) else None
  }

  function FreedFork(image: Image, sb: Superblock, off: u64): (fork: Option<Image>)
    requires off + sb.inodesize <= |image|
    ensures fork.Some? ==> |fork.value| < 0x1_0000
  {
    FreedIn(image[off..off + sb.inodesize])
  }

  /** The freed inode in the slot at `off`, if there is one with a residue. */
  function DeletedAt(image: Image, sb: Superblock, off: u64): seq<DeletedInode>
    requires off + sb.inodesize <= |image|
  {
    match FreedFork(image, sb, off)
    case None => []
    case Some(fork) => FromFork(image, sb, off, fork)
  }

  function FromFork(image: Image, sb: Superblock, off: u64, fork: Image): seq<DeletedInode>
    requires |fork| < 0x1_0000
  {
    var totalBlocks := ImageLenBlocks(|image|, sb.blocksize);
    var residual, place := Residual(fork, totalBlocks), OffsetToInode(sb, off);
    if residual == [] || place.None? then []
    else
      ResidualSumFits(fork, totalBlocks);
      var estimate := SatMul(TotalBlocks(residual), sb.blocksize);
      [DeletedInode(place.value.0, place.value.1, residual, estimate, Carved(image, sb.blocksize, residual, estimate))]
  }

  function DeletedSlots(image: Image, sb: Superblock): nat -> seq<DeletedInode> {
    (off: nat) => if off + sb.inodesize <= |image| then DeletedAt(image, sb, off) else []
  }

  function Deleted(image: Image, sb: Superblock): seq<DeletedInode> {
    if sb.inodesize < 176 || sb.blocksize == 0 then []
    else SweepFrom(DeletedSlots(image, sb), 0, sb.inodesize, |image|)
  }

  method SumBlocks(recs: seq<BmbtRec>) returns (sum: nat)
    ensures sum == TotalBlocks(recs)
  {
    sum := 0;
    for i := 0 to |recs|
      invariant sum == TotalBlocks(recs[..i])
    {
      assert recs[..i + 1][..i] == recs[..i];
      sum := sum + recs[i].blockcount;
    }
    assert recs[..|recs|] == recs;
  }

  method RecoverFork(image: Image, sb: Superblock, off: u64, fork: Image) returns (found: seq<DeletedInode>)
    requires |fork| < 0x1_0000
    ensures found == FromFork(image, sb, off, fork)
  {
    var totalBlocks := ImageLenBlocks(|image|, sb.blocksize);
    var residual := DecodeResidual(fork, totalBlocks);
    var place := OffsetToInode(sb, off);
    if residual == [] || place.None? {
      return [];
    }
    var blocks := SumBlocks(residual);
    ResidualSumFits(fork, totalBlocks);
    var estimate := SatMul(blocks, sb.blocksize);
    var assembled := AssembleExtents(image, sb.blocksize, residual, estimate);
    var carved := if assembled.Success? then assembled.value else [];
    found := [DeletedInode(place.value.0, place.value.1, residual, estimate, carved)];
  }

  ghost predicate Recovers(slots: nat -> seq<DeletedInode>, image: Image, sb: Superblock) {
    forall off: nat {:trigger DeletedAt(image, sb, off)} ::
      off + sb.inodesize <= |image| ==> slots(off) == DeletedAt(image, sb, off)
  }

  method RecoverSlot(image: Image, sb: Superblock, off: u64, ghost slots: nat -> seq<DeletedInode>)
    returns (found: seq<DeletedInode>)
    requires off + sb.inodesize <= |image| && Recovers(slots, image, sb)
    ensures found == slots(off)
  {
    assert slots(off) == DeletedAt(image, sb, off);
    var fork := FreedFork(image, sb, off);
    if fork.None? {
      return [];
    }
    found := RecoverFork(image, sb, off, fork.value);
  }

  method RecoverDeleted(image: Image, sb: Superblock) returns (out: seq<DeletedInode>)
    ensures out == Deleted(image, sb)
  {
    out := [];
    if sb.inodesize < 176 || sb.blocksize == 0 {
      return;
    }
    out := ScanSlots(image, sb, DeletedSlots(image, sb));
  }

  method ScanSlots(image: Image, sb: Superblock, ghost slots: nat -> seq<DeletedInode>)
    returns (out: seq<DeletedInode>)
    requires sb.inodesize > 0 && Recovers(slots, image, sb)
    ensures out == SweepFrom(slots, 0, sb.inodesize, |image|)
  {
    out := [];
    var off: u64 := 0;
    while off + sb.inodesize <= |image|
      invariant out + SweepFrom(slots, off, sb.inodesize, |image|) == SweepFrom(slots, 0, sb.inodesize, |image|)
      decreases |image| - off
    {
      var found := RecoverSlot(image, sb, off, slots);
      SweepStep(slots, off, sb.inodesize, |image|, out);
      out := out + found;
      off := off + sb.inodesize;
    }
  }
}
