/**
 When carving is faithful, exactly. The program assembles the residue at its logical
 offsets into as many bytes as its extents have together, so the carved bytes are the
 physical runs one after the other only if the logical offsets put them there.
 */
module Carving {
  import opened Words
  import opened Bytes
  import opened Extent
  import opened Assemble
  import opened Recovery

  predicate AllInImage(recs: seq<BmbtRec>, bs: nat, len: nat) {
    forall k :: 0 <= k < |recs| ==> InImage(recs[k], bs, len)
  }

  /** The physical block that comes `b`-th when the runs are laid end to end. */
  function RunBlock(recs: seq<BmbtRec>, b: nat): nat
    requires b < TotalBlocks(recs)
  {
    var init, last := recs[..|recs| - 1], recs[|recs| - 1];
    if b < TotalBlocks(init) then RunBlock(init, b) else last.startblock + (b - TotalBlocks(init))
  }

  function RunPosition(recs: seq<BmbtRec>, bs: nat, b: nat, i: nat): nat
    requires b < TotalBlocks(recs) && bs > 0
  {
    MulNonNegative(RunBlock(recs, b), bs);
    RunBlock(recs, b) * bs + i % bs
  }

  lemma InLastRun(startblock: nat, total: nat, b: nat, bs: nat, i: nat)
    requires bs > 0 && b == i / bs && total <= b
    ensures 0 <= total * bs <= i
    ensures (startblock + (b - total)) * bs + i % bs == startblock * bs + (i - total * bs)
  {
    DivModFact(i, bs);
    MulNonNegative(total, bs);
    MulMono(total, b, bs);
    MulDistributes(startblock, b - total, bs);
    MulDistributes(total, b - total, bs);
  }

  /** Byte `i` of the physical runs is byte `i % bs` of run block `i / bs`. */
  lemma {:induction false} RunsByte(image: seq<byte>, bs: nat, recs: seq<BmbtRec>, i: nat, b: nat)
    requires bs > 0 && AllInImage(recs, bs, |image|)
    requires i < |PhysicalRuns(image, bs, recs)| && b == i / bs
    ensures b < TotalBlocks(recs) && RunPosition(recs, bs, b, i) < |image|
    ensures PhysicalRuns(image, bs, recs)[i] == image[RunPosition(recs, bs, b, i)]
    decreases |recs|
  {
    var init, last := recs[..|recs| - 1], recs[|recs| - 1];
    RunsLength(image, bs, recs);
    RunsLength(image, bs, init);
    DivModFact(i, bs);
    ProductOrder(TotalBlocks(recs), b, bs, i);
    ProductOrder(TotalBlocks(init), b, bs, i);
    if b < TotalBlocks(init) {
      RunsByte(image, bs, init, i, b);
    } else {
      InLastRun(last.startblock, TotalBlocks(init), b, bs, i);
      LastRunByte(image, bs, last, i - TotalBlocks(init) * bs);
    }
  }

  lemma LastRunByte(image: seq<byte>, bs: nat, r: BmbtRec, j: nat)
    requires InImage(r, bs, |image|) && j < |RunBytes(image, bs, r)|
    ensures 0 <= r.startblock * bs + j < |image| && RunBytes(image, bs, r)[j] == image[r.startblock * bs + j]
  {
    MulNonNegative(r.startblock, bs);
    MulDistributes(r.startblock, r.blockcount, bs);
  }

  // -------------------------------------------------------------- the exact condition

  /** The last extent covering logical block `b` gives the block that comes `b`-th in the runs. */
  ghost predicate InPlace(recs: seq<BmbtRec>, b: u64)
    requires b < TotalBlocks(recs)
  {
    exists l: nat :: LastMapper(recs, b, l) && BlockFor(recs[l], b) == RunBlock(recs, b)
  }

  ghost predicate AllInPlace(recs: seq<BmbtRec>) {
    forall b: u64 :: b < TotalBlocks(recs) ==> InPlace(recs, b)
  }

  lemma LastMapperSupplies(recs: seq<BmbtRec>, bs: nat, size: nat, len: nat, i: nat, b: u64, l: nat)
    requires bs > 0 && i < size && b == i / bs && AllPackable(recs) && AllInImage(recs, bs, len)
    requires LastMapper(recs, b, l)
    ensures LastSupplier(recs, bs, size, len, b, l)
  {
    InImageSupplies(recs[l], bs, size, len, i, b);
  }

  lemma InPlaceByte(image: seq<byte>, bs: nat, recs: seq<BmbtRec>, size: nat, i: nat, b: u64)
    requires bs > 0 && i < size && b == i / bs && AllPackable(recs) && AllInImage(recs, bs, |image|)
    requires i < |PhysicalRuns(image, bs, recs)| && b < TotalBlocks(recs) && InPlace(recs, b)
    ensures FileByte(image, bs, recs, size, i) == PhysicalRuns(image, bs, recs)[i]
  {
    var l: nat :| LastMapper(recs, b, l) && BlockFor(recs[l], b) == RunBlock(recs, b);
    LastMapperSupplies(recs, bs, size, |image|, i, b, l);
    LastSupplierWins(image, bs, recs, size, i, b, l);
    RunsByte(image, bs, recs, i, b);
  }

  lemma {:induction false} LastMapperExists(recs: seq<BmbtRec>, q: u64) returns (l: nat)
    requires exists k :: 0 <= k < |recs| && Maps(recs[k], q)
    ensures LastMapper(recs, q, l)
    decreases |recs|
  {
    var last := |recs| - 1;
    if Maps(recs[last], q) {
      l := last;
    } else {
      var k :| 0 <= k < |recs| && Maps(recs[k], q);
      assert Maps(recs[..last][k], q);
      l := LastMapperExists(recs[..last], q);
    }
  }

  lemma OtherPosition(r: BmbtRec, recs: seq<BmbtRec>, bs: nat, b: u64, i: nat)
    requires bs > 0 && r.startoff <= b < TotalBlocks(recs) && BlockFor(r, b) != RunBlock(recs, b)
    ensures PositionIn(r, bs, b, i) != RunPosition(recs, bs, b, i)
  {
    var x, y := BlockFor(r, b), RunBlock(recs, b);
    if x < y {
      MulMono(x + 1, y, bs);
      MulSucc(x, bs);
    } else {
      MulMono(y + 1, x, bs);
      MulSucc(y, bs);
    }
  }

  /** A block out of place shows: in an image of ones, but zero where the file reads it. */
  lemma OutOfPlaceShows(len: nat, bs: nat, recs: seq<BmbtRec>, size: nat, i: nat, b: u64) returns (image: seq<byte>)
    requires bs > 0 && i < size && b == i / bs && AllPackable(recs) && AllInImage(recs, bs, len)
    requires i < TotalBlocks(recs) * bs && b < TotalBlocks(recs) && !InPlace(recs, b)
    ensures |image| == len && |PhysicalRuns(image, bs, recs)| == TotalBlocks(recs) * bs
    ensures FileByte(image, bs, recs, size, i) != PhysicalRuns(image, bs, recs)[i]
  {
    image := seq(len, _ => 1);
    if exists k :: 0 <= k < |recs| && Maps(recs[k], b) {
      var l := LastMapperExists(recs, b);
      LastMapperSupplies(recs, bs, size, len, i, b, l);
      LastSupplierWins(image, bs, recs, size, i, b, l);
      OtherPosition(recs[l], recs, bs, b, i);
      image := image[PositionIn(recs[l], bs, b, i) := 0];
      LastSupplierWins(image, bs, recs, size, i, b, l);
    } else {
      UncoveredAgrees(image, bs, recs, size, i, b);
    }
    RunsLength(image, bs, recs);
    RunsByte(image, bs, recs, i, b);
  }

  /** In every image of this length the carved bytes are the physical runs. */
  ghost predicate Faithful(len: nat, bs: u32, recs: seq<BmbtRec>, estimate: u64)
    requires AllInImage(recs, bs, len)
  {
    forall image: Image :: |image| == len ==> Carved(image, bs, recs, estimate) == PhysicalRuns(image, bs, recs)
  }

  lemma InPlaceCarved(image: Image, bs: u32, recs: seq<BmbtRec>, estimate: u64)
    requires bs > 0 && AllPackable(recs) && AllInImage(recs, bs, |image|)
    requires estimate == TotalBlocks(recs) * bs && estimate <= |image| && AllInPlace(recs)
    ensures Carved(image, bs, recs, estimate) == PhysicalRuns(image, bs, recs)
  {
    var runs := PhysicalRuns(image, bs, recs);
    RunsLength(image, bs, recs);
    forall i | 0 <= i < estimate ensures FileByte(image, bs, recs, estimate, i) == runs[i] {
      var b: u64 := Quotient(i, bs);
      RunsByte(image, bs, recs, i, b);
      InPlaceByte(image, bs, recs, estimate, i, b);
    }
    assert Carved(image, bs, recs, estimate) == runs;
  }

  function Quotient(i: u64, bs: nat): (q: u64)
    requires bs > 0
    ensures q == i / bs
  {
    DivShrinks(i, bs);
    i / bs
  }

  lemma OutOfPlaceCarved(len: nat, bs: u32, recs: seq<BmbtRec>, estimate: u64, b: u64) returns (image: Image)
    requires bs > 0 && AllPackable(recs) && AllInImage(recs, bs, len) && len < 0x8000_0000_0000_0000
    requires estimate == TotalBlocks(recs) * bs && estimate <= len && b < TotalBlocks(recs) && !InPlace(recs, b)
    ensures |image| == len && Carved(image, bs, recs, estimate) != PhysicalRuns(image, bs, recs)
  {
    MulMono(b + 1, TotalBlocks(recs), bs);
    MulSucc(b, bs);
    MulNonNegative(b, bs);
    DivModUnique(b * bs, bs, b, 0);
    image := OutOfPlaceShows(len, bs, recs, estimate, b * bs, b);
    assert Carved(image, bs, recs, estimate)[b * bs] != PhysicalRuns(image, bs, recs)[b * bs];
  }

  /**
   Carving, exactly: for any residue in the image, in any order, overlapping or sparse,
   the carved bytes are the physical runs in every image of that length if and only if
   the estimate fits in the image and the last extent covering each logical block gives
   the block that comes there in the runs. (An empty residue aside.)
   */
  lemma FaithfulIff(len: nat, bs: u32, recs: seq<BmbtRec>, estimate: u64)
    requires bs > 0 && AllPackable(recs) && AllInImage(recs, bs, len) && len < 0x8000_0000_0000_0000
    requires estimate == TotalBlocks(recs) * bs && estimate > 0
    ensures Faithful(len, bs, recs, estimate) <==> estimate <= len && AllInPlace(recs)
  {
    if estimate > len {
      var image: Image := seq(len, _ => 0);
      RunsLength(image, bs, recs);
      assert Carved(image, bs, recs, estimate) == [];
    } else if AllInPlace(recs) {
      forall image: Image | |image| == len
        ensures Carved(image, bs, recs, estimate) == PhysicalRuns(image, bs, recs)
      {
        InPlaceCarved(image, bs, recs, estimate);
      }
    } else {
      var b: u64 :| b < TotalBlocks(recs) && !InPlace(recs, b);
      var image := OutOfPlaceCarved(len, bs, recs, estimate, b);
    }
  }

  // ------------------------------------------------------- a residue in logical order

  /** Non-empty extents, each ending where the next begins or before. */
  predicate LogicalOrder(recs: seq<BmbtRec>) {
    && (forall k :: 0 <= k < |recs| ==> recs[k].blockcount > 0)
    && (forall j, k :: 0 <= j < k < |recs| ==> recs[j].startoff + recs[j].blockcount <= recs[k].startoff)
  }

  /** Extents in logical order end no earlier than their blocks add up to, and exactly there when contiguous. */
  lemma {:induction false} OrderedEnd(recs: seq<BmbtRec>)
    requires recs != [] && LogicalOrder(recs)
    ensures var last := recs[|recs| - 1];
      && TotalBlocks(recs) <= last.startoff + last.blockcount
      && (Contiguous(recs) ==> last.startoff + last.blockcount == TotalBlocks(recs))
    decreases |recs|
  {
    var init := recs[..|recs| - 1];
    if init != [] {
      OrderedEnd(init);
    }
  }

  lemma BeyondIsUnmapped(recs: seq<BmbtRec>, b: u64)
    requires AllPackable(recs) && LogicalOrder(recs)
    requires recs != [] ==> recs[|recs| - 1].startoff + recs[|recs| - 1].blockcount <= b
    ensures forall k :: 0 <= k < |recs| ==> !Maps(recs[k], b)
  {
    forall k | 0 <= k < |recs| ensures !Maps(recs[k], b) {
      if k < |recs| - 1 {
        assert recs[k].startoff + recs[k].blockcount <= recs[|recs| - 1].startoff;
      }
    }
  }

  lemma LastMapperOfInit(recs: seq<BmbtRec>, b: u64, l: nat)
    requires recs != [] && !Maps(recs[|recs| - 1], b) && LastMapper(recs[..|recs| - 1], b, l)
    ensures LastMapper(recs, b, l) && recs[l] == recs[..|recs| - 1][l]
  {
    forall j | l < j < |recs| ensures !Maps(recs[j], b) {
      if j < |recs| - 1 {
        assert !Maps(recs[..|recs| - 1][j], b);
      }
    }
  }

  lemma RunBlockOfInit(recs: seq<BmbtRec>, b: nat)
    requires recs != [] && b < TotalBlocks(recs[..|recs| - 1])
    ensures b < TotalBlocks(recs) && RunBlock(recs, b) == RunBlock(recs[..|recs| - 1], b)
  {}

  lemma InPlaceOfInit(recs: seq<BmbtRec>, b: u64)
    requires recs != [] && !Maps(recs[|recs| - 1], b)
    requires b < TotalBlocks(recs[..|recs| - 1]) && InPlace(recs[..|recs| - 1], b)
    ensures b < TotalBlocks(recs) && InPlace(recs, b)
  {
    var init := recs[..|recs| - 1];
    var l: nat :| LastMapper(init, b, l) && BlockFor(init[l], b) == RunBlock(init, b);
    LastMapperOfInit(recs, b, l);
    RunBlockOfInit(recs, b);
  }

  lemma {:induction false} ContiguousInPlace(recs: seq<BmbtRec>, b: u64)
    requires AllPackable(recs) && LogicalOrder(recs) && Contiguous(recs) && b < TotalBlocks(recs)
    ensures InPlace(recs, b)
    decreases |recs|
  {
    var init, last := recs[..|recs| - 1], recs[|recs| - 1];
    if b < TotalBlocks(init) {
      ContiguousInPlace(init, b);
      InPlaceOfInit(recs, b);
    } else {
      assert LastMapper(recs, b, |recs| - 1) && BlockFor(last, b) == RunBlock(recs, b);
    }
  }

  /** Where the first gap opens, the file has a hole. */
  lemma {:induction false} GapOutOfPlace(recs: seq<BmbtRec>) returns (b: u64)
    requires AllPackable(recs) && LogicalOrder(recs) && !Contiguous(recs) && TotalBlocks(recs) <= U64_MAX
    ensures b < TotalBlocks(recs) && forall k :: 0 <= k < |recs| ==> !Maps(recs[k], b)
    decreases |recs|
  {
    var init, last := recs[..|recs| - 1], recs[|recs| - 1];
    if Contiguous(init) {
      b := TotalBlocks(init);
      if init != [] {
        OrderedEnd(init);
      }
      BeyondIsUnmapped(init, b);
    } else {
      b := GapOutOfPlace(init);
      OrderedEnd(init);
      assert recs[|init| - 1].startoff + recs[|init| - 1].blockcount <= last.startoff;
    }
    forall k | 0 <= k < |recs| ensures !Maps(recs[k], b) {
      if k < |init| {
        assert recs[k] == init[k];
      }
    }
  }

  lemma OrderedInPlaceIff(recs: seq<BmbtRec>)
    requires AllPackable(recs) && LogicalOrder(recs) && TotalBlocks(recs) <= U64_MAX
    ensures AllInPlace(recs) <==> Contiguous(recs)
  {
    if Contiguous(recs) {
      forall b: u64 | b < TotalBlocks(recs) ensures InPlace(recs, b) {
        ContiguousInPlace(recs, b);
      }
    } else {
      var b := GapOutOfPlace(recs);
      assert !InPlace(recs, b);
    }
  }

  /**
   For a residue in logical order: carving gives the physical runs in every image of a
   given length if and only if the residue is contiguous from 0 and the estimate fits.
   */
  lemma OrderedFaithfulIff(len: nat, bs: u32, recs: seq<BmbtRec>, estimate: u64)
    requires bs > 0 && AllPackable(recs) && AllInImage(recs, bs, len) && len < 0x8000_0000_0000_0000
    requires LogicalOrder(recs) && estimate == TotalBlocks(recs) * bs && estimate > 0
    ensures Faithful(len, bs, recs, estimate) <==> estimate <= len && Contiguous(recs)
  {
    if TotalBlocks(recs) > U64_MAX {
      MulMono(1, bs, TotalBlocks(recs));
    }
    FaithfulIff(len, bs, recs, estimate);
    OrderedInPlaceIff(recs);
  }

  /**
   A residue that starts late is lost: one surviving block at logical block 5 has an
   estimate of one block, and what is carved for it is all zeros, whatever it holds.
   */
  lemma LateResidueIsLost(image: Image)
    requires |image| == 16
    ensures var recs := [BmbtRec(5, 3, 1, false)];
      && Survives(recs[0], ImageLenBlocks(16, 4)) && TotalBlocks(recs) == 1
      && Carved(image, 4, recs, 4) == [0, 0, 0, 0]
      && AllInImage(recs, 4, 16) && PhysicalRuns(image, 4, recs) == image[12..16]
  {
    var recs := [BmbtRec(5, 3, 1, false)];
    assert recs[..0] == [];
    forall i | 0 <= i < 4 ensures FileByte(image, 4, recs, 4, i) == 0 {
      UncoveredAgrees(image, 4, recs, 4, i, 0);
    }
    assert Carved(image, 4, recs, 4) == [0, 0, 0, 0];
    assert PhysicalRuns(image, 4, recs[..0]) == [] && RunBytes(image, 4, recs[0]) == image[12..16];
  }
}
