/**
 Assembly of a file from its extents, and the per-block lookup of the same
 mapping. The assembly overlays the extents in list order on a zero-filled
 buffer; an extent whose clipped window is not wholly in the image is skipped.
 */
module Assemble {
  import opened Wrappers
  import opened Words
  import opened Bytes
  import opened Extent

  // ------------------------------------------------- the specification, exact integers

  /** File bytes `[dst, end)` come from the image bytes starting at `src`. */
  datatype Window = Window(dst: nat, end: nat, src: nat)

  /** The extent's window, clipped to the file size, in unbounded integers. */
  function WindowOf(r: BmbtRec, bs: nat, size: nat): Window {
    MulNonNegative(r.startoff, bs);
    MulNonNegative(r.blockcount, bs);
    MulNonNegative(r.startblock, bs);
    Window(r.startoff * bs, Min(r.startoff * bs + r.blockcount * bs, size), r.startblock * bs)
  }

  function Windows(recs: seq<BmbtRec>, bs: nat, size: nat): (ws: seq<Window>)
    ensures |ws| == |recs|
  {
    seq(|recs|, k requires 0 <= k < |recs| => WindowOf(recs[k], bs, size))
  }

  /** The window is not empty and its source lies wholly in the image. */
  predicate Readable(w: Window, imageLen: nat) {
    w.dst < w.end && w.src + (w.end - w.dst) <= imageLen
  }

  predicate Writes(w: Window, imageLen: nat, i: nat) {
    Readable(w, imageLen) && w.dst <= i < w.end
  }

  /** Byte `i` under a list of windows: the last window that writes it wins, a hole is zero. */
  function ByteAt(image: seq<byte>, ws: seq<Window>, i: nat): byte {
    if ws == [] then 0
    else
      var w := ws[|ws| - 1];
      if Writes(w, |image|, i) then image[w.src + (i - w.dst)] else ByteAt(image, ws[..|ws| - 1], i)
  }

  function FileByte(image: seq<byte>, bs: nat, recs: seq<BmbtRec>, size: nat, i: nat): byte {
    ByteAt(image, Windows(recs, bs, size), i)
  }

  function Assembled(image: seq<byte>, bs: nat, recs: seq<BmbtRec>, size: nat): Result<seq<byte>> {
    if size > |image| then Failure(Truncated(size, |image|))
    else Success(seq(size, i requires 0 <= i < size => FileByte(image, bs, recs, size, i)))
  }

  // -------------------------------------------------------------------- the program

  /** `dst.copy_from_slice(src)` on the part of `out` that starts at `at`. */
  method CopySlice(out: array<byte>, at: nat, src: seq<byte>)
    requires at + |src| <= out.Length
    modifies out
    ensures out[..] == old(out[..at]) + src + old(out[at + |src|..])
  {
    for j := 0 to |src|
      invariant out[..] == old(out[..at]) + src[..j] + old(out[at + j..])
    {
      out[at + j] := src[j];
    }
  }

  /** One extent: saturating positions, and a clipped copy unless the source is out of the image. */
  method PlaceExtent(out: array<byte>, image: Image, bs: u32, rec: BmbtRec)
    requires out.Length <= |image|
    modifies out
    ensures var w := WindowOf(rec, bs, out.Length);
      forall i :: 0 <= i < out.Length ==>
        out[i] == if Writes(w, |image|, i) then image[w.src + (i - w.dst)] else old(out[i])
  {
    var dstStart := SatMul(rec.startoff, bs);
    var extBytes := SatMul(rec.blockcount, bs);
    var srcStart := SatMul(rec.startblock, bs);
    var dstEnd: u64 := Min(SatAdd(dstStart, extBytes), out.Length);
    SaturationIsHarmless(rec, bs, out.Length, |image|);
    if dstEnd <= dstStart {
      return;
    }
    var src := Get(image, srcStart, SatAdd(srcStart, dstEnd - dstStart));
    if src.None? {
      return;
    }
    ghost var before := out[..];
    CopySlice(out, dstStart, src.value);
    Overlaid(before, dstStart, src.value, out[..]);
  }

  lemma Overlaid<T>(before: seq<T>, at: nat, src: seq<T>, after: seq<T>)
    requires at + |src| <= |before| && after == before[..at] + src + before[at + |src|..]
    ensures |after| == |before|
    ensures forall i :: 0 <= i < |after| ==> after[i] == if at <= i < at + |src| then src[i - at] else before[i]
  {}

  method AssembleExtents(image: Image, bs: u32, recs: seq<BmbtRec>, size: u64) returns (r: Result<seq<byte>>)
    ensures r == Assembled(image, bs, recs, size)
  {
    if size > |image| {
      return Failure(Truncated(size, |image|));
    }
    var out := new byte[size](_ => 0);
    ghost var ws := Windows(recs, bs, size);
    for k := 0 to |recs|
      invariant forall i :: 0 <= i < size ==> out[i] == ByteAt(image, ws[..k], i)
    {
      PlaceExtent(out, image, bs, recs[k]);
      assert ws[..k + 1][..k] == ws[..k];
    }
    assert ws[..|recs|] == ws;
    assert out[..] == Assembled(image, bs, recs, size).value;
    r := Success(out[..]);
  }

  /** The saturating window is empty, or readable, exactly when the exact one is, and then they agree. */
  lemma SaturationIsHarmless(r: BmbtRec, bs: u32, size: u64, imageLen: nat)
    requires size <= imageLen < U64_MAX
    ensures var w := WindowOf(r, bs, size);
      var dst, src := SatMul(r.startoff, bs), SatMul(r.startblock, bs);
      var end := Min(SatAdd(dst, SatMul(r.blockcount, bs)), size);
      && (dst < end <==> w.dst < w.end)
      && (dst < end ==> dst == w.dst && end == w.end)
      && (dst < end ==> (SatAdd(src, end - dst) <= imageLen <==> Readable(w, imageLen)))
      && (Readable(w, imageLen) ==> src == w.src && SatAdd(src, end - dst) == src + (end - dst))
  {
    MulNonNegative(r.startoff, bs);
    MulNonNegative(r.blockcount, bs);
    MulNonNegative(r.startblock, bs);
  }

  // ---------------------------------------------------- what the assembly contains

  /** A byte no window writes is zero. */
  lemma {:induction false} HoleIsZero(image: seq<byte>, ws: seq<Window>, i: nat)
    requires forall k :: 0 <= k < |ws| ==> !Writes(ws[k], |image|, i)
    ensures ByteAt(image, ws, i) == 0
  {
    if ws != [] {
      HoleIsZero(image, ws[..|ws| - 1], i);
    }
  }

  /** Otherwise it is the byte supplied by the last window that writes it. */
  lemma {:induction false} LastWriterWins(image: seq<byte>, ws: seq<Window>, i: nat, k: nat)
    requires k < |ws| && Writes(ws[k], |image|, i)
    requires forall j :: k < j < |ws| ==> !Writes(ws[j], |image|, i)
    ensures ByteAt(image, ws, i) == image[ws[k].src + (i - ws[k].dst)]
    decreases |ws|
  {
    if k < |ws| - 1 {
      LastWriterWins(image, ws[..|ws| - 1], i, k);
    }
  }

  // ------------------------------------------------------------- the block lookup

  /** The extent covers the logical block (its end saturates, as in the program). */
  predicate Maps(r: BmbtRec, logical: u64) {
    r.startoff <= logical < SatAdd(r.startoff, r.blockcount)
  }

  /** The block the first covering extent maps a logical block to. */
  function MapLogical(recs: seq<BmbtRec>, logical: u64): Option<u64> {
    if recs == [] then None
    else if Maps(recs[0], logical) then Some(SatAdd(recs[0].startblock, logical - recs[0].startoff))
    else MapLogical(recs[1..], logical)
  }

  predicate AllPackable(recs: seq<BmbtRec>) {
    forall k :: 0 <= k < |recs| ==> Packable(recs[k])
  }

  /** No logical block is covered by two extents. */
  ghost predicate LogicallyDisjoint(recs: seq<BmbtRec>) {
    forall q: u64, j, k :: 0 <= j < |recs| && 0 <= k < |recs| && Maps(recs[j], q) && Maps(recs[k], q) ==> j == k
  }

  lemma {:induction false} UnmappedIsNone(recs: seq<BmbtRec>, logical: u64)
    requires forall k :: 0 <= k < |recs| ==> !Maps(recs[k], logical)
    ensures MapLogical(recs, logical) == None
  {
    if recs != [] {
      UnmappedIsNone(recs[1..], logical);
    }
  }

  lemma {:induction false} FirstMapperWins(recs: seq<BmbtRec>, logical: u64, k: nat)
    requires k < |recs| && Maps(recs[k], logical)
    requires forall j :: 0 <= j < k ==> !Maps(recs[j], logical)
    ensures MapLogical(recs, logical) == Some(SatAdd(recs[k].startblock, logical - recs[k].startoff))
    decreases k
  {
    if k > 0 {
      assert !Maps(recs[0], logical);
      FirstMapperWins(recs[1..], logical, k - 1);
    }
  }

  /** Byte `i` lies in the extent's window exactly when the extent maps block `q == i / bs`. */
  lemma BlockOfByte(r: BmbtRec, bs: nat, size: nat, i: nat, q: u64)
    requires Packable(r) && 0 < bs && i < size && q == i / bs
    ensures var w := WindowOf(r, bs, size);
      && (Maps(r, q) <==> w.dst <= i < w.end)
      && (Maps(r, q) ==> (r.startblock + (q - r.startoff)) * bs + i % bs == w.src + (i - w.dst))
  {
    DivModFact(i, bs);
    var so, bc := r.startoff, r.blockcount;
    MulDistributes(so, bc, bs);
    ProductOrder(so, q, bs, i);
    ProductOrder(so + bc, q, bs, i);
    if so <= q {
      MulDistributes(r.startblock, q - so, bs);
      MulDistributes(so, q - so, bs);
    }
  }

  lemma ProductOrder(x: nat, q: nat, bs: nat, i: nat)
    requires 0 < bs && q * bs <= i < q * bs + bs
    ensures x <= q <==> x * bs <= i
  {
    if x <= q {
      MulMono(x, q, bs);
    } else {
      MulMono(q + 1, x, bs);
      MulSucc(q, bs);
    }
  }

  /** The physical block the extent gives for logical block `q`. */
  function BlockFor(r: BmbtRec, q: u64): nat
    requires r.startoff <= q
  {
    r.startblock + (q - r.startoff)
  }

  /** Byte `i % bs` of the block the extent gives for `q`. */
  function PositionIn(r: BmbtRec, bs: nat, q: u64, i: nat): nat
    requires r.startoff <= q && bs > 0
  {
    MulNonNegative(BlockFor(r, q), bs);
    BlockFor(r, q) * bs + i % bs
  }

  /** Extent `f` is the first that covers block `q`. */
  predicate FirstMapper(recs: seq<BmbtRec>, q: u64, f: nat) {
    f < |recs| && Maps(recs[f], q) && forall j :: 0 <= j < f ==> !Maps(recs[j], q)
  }

  /** The extent covers block `q`, and its window is wholly in the image. */
  predicate Supplies(r: BmbtRec, bs: nat, size: nat, len: nat, q: u64) {
    Maps(r, q) && Readable(WindowOf(r, bs, size), len)
  }

  /** Extent `l` is the last readable one that covers block `q`. */
  predicate LastSupplier(recs: seq<BmbtRec>, bs: nat, size: nat, len: nat, q: u64, l: nat) {
    l < |recs| && Supplies(recs[l], bs, size, len, q)
    && forall j :: l < j < |recs| ==> !Supplies(recs[j], bs, size, len, q)
  }

  lemma SuppliesIsWrites(r: BmbtRec, bs: nat, size: nat, len: nat, i: nat, q: u64)
    requires Packable(r) && bs > 0 && i < size && q == i / bs
    ensures Supplies(r, bs, size, len, q) <==> Writes(WindowOf(r, bs, size), len, i)
  {
    BlockOfByte(r, bs, size, i, q);
  }

  /** For any extents: the file byte comes from the last readable extent covering its block. */
  lemma LastSupplierWins(image: seq<byte>, bs: nat, recs: seq<BmbtRec>, size: nat, i: nat, q: u64, l: nat)
    requires bs > 0 && i < size && q == i / bs && AllPackable(recs)
    requires LastSupplier(recs, bs, size, |image|, q, l)
    ensures var pos := PositionIn(recs[l], bs, q, i);
      pos < |image| && FileByte(image, bs, recs, size, i) == image[pos]
  {
    var ws := Windows(recs, bs, size);
    forall j | l <= j < |ws|
      ensures Supplies(recs[j], bs, size, |image|, q) <==> Writes(ws[j], |image|, i)
    {
      SuppliesIsWrites(recs[j], bs, size, |image|, i, q);
    }
    LastWriterWins(image, ws, i, l);
    BlockOfByte(recs[l], bs, size, i, q);
  }

  /** And it is zero when there is none. */
  lemma NoSupplierIsZero(image: seq<byte>, bs: nat, recs: seq<BmbtRec>, size: nat, i: nat, q: u64)
    requires bs > 0 && i < size && q == i / bs && AllPackable(recs)
    requires forall k :: 0 <= k < |recs| ==> !Supplies(recs[k], bs, size, |image|, q)
    ensures FileByte(image, bs, recs, size, i) == 0
  {
    var ws := Windows(recs, bs, size);
    forall k | 0 <= k < |ws| ensures !Writes(ws[k], |image|, i) {
      SuppliesIsWrites(recs[k], bs, size, |image|, i, q);
    }
    HoleIsZero(image, ws, i);
  }

  /** The lookup answers from the first extent covering the block, readable or not. */
  lemma LookupIsFirst(recs: seq<BmbtRec>, q: u64, f: nat)
    requires AllPackable(recs) && FirstMapper(recs, q, f)
    ensures MapLogical(recs, q) == Some(BlockFor(recs[f], q))
  {
    FirstMapperWins(recs, q, f);
  }

  lemma {:induction false} FirstMapperExists(recs: seq<BmbtRec>, q: u64) returns (f: nat)
    requires exists k :: 0 <= k < |recs| && Maps(recs[k], q)
    ensures FirstMapper(recs, q, f)
    decreases |recs|
  {
    if Maps(recs[0], q) {
      f := 0;
    } else {
      var k :| 0 <= k < |recs| && Maps(recs[k], q);
      assert Maps(recs[1..][k - 1], q);
      f := FirstMapperExists(recs[1..], q);
      f := f + 1;
    }
  }

  lemma {:induction false} LastSupplierExists(recs: seq<BmbtRec>, bs: nat, size: nat, len: nat, q: u64) returns (l: nat)
    requires exists k :: 0 <= k < |recs| && Supplies(recs[k], bs, size, len, q)
    ensures LastSupplier(recs, bs, size, len, q, l)
    decreases |recs|
  {
    var last := |recs| - 1;
    if Supplies(recs[last], bs, size, len, q) {
      l := last;
    } else {
      var k :| 0 <= k < |recs| && Supplies(recs[k], bs, size, len, q);
      assert Supplies(recs[..last][k], bs, size, len, q);
      l := LastSupplierExists(recs[..last], bs, size, len, q);
    }
  }

  // ------------------------------------------------- when the two forms agree, exactly

  /** Byte `i` by way of the lookup: zero where nothing is mapped, nothing where the block is out of the image. */
  function LookupByte(image: seq<byte>, bs: nat, recs: seq<BmbtRec>, i: nat, q: u64): Option<byte>
    requires bs > 0
  {
    match MapLogical(recs, q)
    case None => Some(0)
    case Some(block) =>
      MulNonNegative(block, bs);
      if block * bs + i % bs < |image| then Some(image[block * bs + i % bs]) else None
  }

  ghost predicate Agree(len: nat, bs: nat, recs: seq<BmbtRec>, size: nat, i: nat, q: u64)
    requires bs > 0
  {
    forall image: seq<byte> :: |image| == len ==>
      LookupByte(image, bs, recs, i, q) == Some(FileByte(image, bs, recs, size, i))
  }

  /** The first extent covering the block and the last readable one give the same physical block. */
  ghost predicate FirstMeetsLast(len: nat, bs: nat, recs: seq<BmbtRec>, size: nat, q: u64) {
    exists f: nat, l: nat :: FirstMapper(recs, q, f) && LastSupplier(recs, bs, size, len, q, l)
      && BlockFor(recs[f], q) == BlockFor(recs[l], q)
  }

  lemma LookupByteIs(image: seq<byte>, bs: nat, recs: seq<BmbtRec>, i: nat, q: u64, f: nat)
    requires bs > 0 && AllPackable(recs) && FirstMapper(recs, q, f)
    ensures var pos := PositionIn(recs[f], bs, q, i);
      LookupByte(image, bs, recs, i, q) == if pos < |image| then Some(image[pos]) else None
  {
    LookupIsFirst(recs, q, f);
  }

  lemma MeetingAgrees(image: seq<byte>, bs: nat, recs: seq<BmbtRec>, size: nat, i: nat, q: u64)
    requires bs > 0 && i < size && q == i / bs && AllPackable(recs)
    requires FirstMeetsLast(|image|, bs, recs, size, q)
    ensures LookupByte(image, bs, recs, i, q) == Some(FileByte(image, bs, recs, size, i))
  {
    var f: nat, l: nat :| FirstMapper(recs, q, f) && LastSupplier(recs, bs, size, |image|, q, l)
      && BlockFor(recs[f], q) == BlockFor(recs[l], q);
    LookupByteIs(image, bs, recs, i, q, f);
    LastSupplierWins(image, bs, recs, size, i, q, l);
    SamePosition(recs[f], recs[l], bs, q, i);
  }

  lemma SamePosition(r: BmbtRec, s: BmbtRec, bs: nat, q: u64, i: nat)
    requires bs > 0 && r.startoff <= q && s.startoff <= q && BlockFor(r, q) == BlockFor(s, q)
    ensures PositionIn(r, bs, q, i) == PositionIn(s, bs, q, i)
  {}

  lemma DifferentPositions(r: BmbtRec, s: BmbtRec, bs: nat, q: u64, i: nat)
    requires bs > 0 && r.startoff <= q && s.startoff <= q && BlockFor(r, q) != BlockFor(s, q)
    ensures PositionIn(r, bs, q, i) != PositionIn(s, bs, q, i)
  {
    var x, y := BlockFor(r, q), BlockFor(s, q);
    if x < y {
      MulMono(x + 1, y, bs);
      MulSucc(x, bs);
    } else {
      MulMono(y + 1, x, bs);
      MulSucc(y, bs);
    }
  }

  /** Otherwise some image tells them apart: all ones, but zero where the last extent reads. */
  lemma NotMeetingDiffers(len: nat, bs: nat, recs: seq<BmbtRec>, size: nat, i: nat, q: u64) returns (image: seq<byte>)
    requires bs > 0 && i < size && q == i / bs && AllPackable(recs)
    requires MapLogical(recs, q).Some? && !FirstMeetsLast(len, bs, recs, size, q)
    ensures |image| == len && LookupByte(image, bs, recs, i, q) != Some(FileByte(image, bs, recs, size, i))
  {
    if forall k :: 0 <= k < |recs| ==> !Maps(recs[k], q) {
      UnmappedIsNone(recs, q);
      assert false;
    }
    var f := FirstMapperExists(recs, q);
    image := seq(len, _ => 1);
    if exists k :: 0 <= k < |recs| && Supplies(recs[k], bs, size, len, q) {
      var l := LastSupplierExists(recs, bs, size, len, q);
      LastSupplierWins(image, bs, recs, size, i, q, l);
      DifferentPositions(recs[f], recs[l], bs, q, i);
      image := image[PositionIn(recs[l], bs, q, i) := 0];
      LastSupplierWins(image, bs, recs, size, i, q, l);
    } else {
      NoSupplierIsZero(image, bs, recs, size, i, q);
    }
    LookupByteIs(image, bs, recs, i, q, f);
  }

  /**
   For any extents, overlapping or not, inside the image or not: the lookup and the
   assembly agree on a byte of every image of a given length if and only if no
   extent covers its block, or the first that covers it and the last readable one
   that covers it give the same physical block.
   */
  lemma AgreeIff(len: nat, bs: nat, recs: seq<BmbtRec>, size: nat, i: nat, q: u64)
    requires bs > 0 && i < size && q == i / bs && AllPackable(recs)
    ensures Agree(len, bs, recs, size, i, q) <==>
      (forall k :: 0 <= k < |recs| ==> !Maps(recs[k], q)) || FirstMeetsLast(len, bs, recs, size, q)
  {
    if forall k :: 0 <= k < |recs| ==> !Maps(recs[k], q) {
      UnmappedIsNone(recs, q);
      forall image: seq<byte> | |image| == len
        ensures LookupByte(image, bs, recs, i, q) == Some(FileByte(image, bs, recs, size, i))
      {
        NoSupplierIsZero(image, bs, recs, size, i, q);
      }
    } else if FirstMeetsLast(len, bs, recs, size, q) {
      forall image: seq<byte> | |image| == len
        ensures LookupByte(image, bs, recs, i, q) == Some(FileByte(image, bs, recs, size, i))
      {
        MeetingAgrees(image, bs, recs, size, i, q);
      }
    } else {
      var f := FirstMapperExists(recs, q);
      LookupIsFirst(recs, q, f);
      var image := NotMeetingDiffers(len, bs, recs, size, i, q);
    }
  }

  /** The whole physical run of the extent lies in the image. */
  predicate InImage(r: BmbtRec, bs: nat, imageLen: nat) {
    (r.startblock + r.blockcount) * bs <= imageLen
  }

  lemma InImageReadable(r: BmbtRec, bs: nat, size: nat, imageLen: nat)
    requires InImage(r, bs, imageLen)
    ensures var w := WindowOf(r, bs, size); w.dst < w.end ==> Readable(w, imageLen)
  {
    MulDistributes(r.startblock, r.blockcount, bs);
  }

  lemma InImageSupplies(r: BmbtRec, bs: nat, size: nat, len: nat, i: nat, q: u64)
    requires Packable(r) && bs > 0 && i < size && q == i / bs && InImage(r, bs, len)
    ensures Supplies(r, bs, size, len, q) <==> Maps(r, q)
  {
    BlockOfByte(r, bs, size, i, q);
    InImageReadable(r, bs, size, len);
  }

  /** Extent `l` is the last that covers block `q`. */
  predicate LastMapper(recs: seq<BmbtRec>, q: u64, l: nat) {
    l < |recs| && Maps(recs[l], q) && forall j :: l < j < |recs| ==> !Maps(recs[j], q)
  }

  /** With every extent in the image, the condition is on the first and the last extent covering the block. */
  lemma InImageAgreeIff(len: nat, bs: nat, recs: seq<BmbtRec>, size: nat, i: nat, q: u64, f: nat, l: nat)
    requires bs > 0 && i < size && q == i / bs && AllPackable(recs)
    requires forall k :: 0 <= k < |recs| ==> InImage(recs[k], bs, len)
    requires FirstMapper(recs, q, f) && LastMapper(recs, q, l)
    ensures Agree(len, bs, recs, size, i, q) <==>
      recs[f].startblock - recs[f].startoff == recs[l].startblock - recs[l].startoff
  {
    AgreeIff(len, bs, recs, size, i, q);
    InImageSupplies(recs[l], bs, size, len, i, q);
    assert LastSupplier(recs, bs, size, len, q, l);
    assert forall g: nat :: FirstMapper(recs, q, g) ==> g == f;
    assert forall m: nat :: LastSupplier(recs, bs, size, len, q, m) ==> m == l;
  }

  /** Disjoint extents in the image meet the condition: bulk assembly refines the lookup, byte by byte. */
  lemma BulkRefinesLookup(image: seq<byte>, bs: nat, recs: seq<BmbtRec>, size: nat, i: nat, q: u64)
    requires bs > 0 && i < size && q == i / bs && AllPackable(recs) && LogicallyDisjoint(recs)
    requires forall k :: 0 <= k < |recs| ==> InImage(recs[k], bs, |image|)
    ensures LookupByte(image, bs, recs, i, q) == Some(FileByte(image, bs, recs, size, i))
  {
    AgreeIff(|image|, bs, recs, size, i, q);
    if exists k :: 0 <= k < |recs| && Maps(recs[k], q) {
      var f := FirstMapperExists(recs, q);
      InImageSupplies(recs[f], bs, size, |image|, i, q);
      assert LastSupplier(recs, bs, size, |image|, q, f);
    }
    assert Agree(|image|, bs, recs, size, i, q);
  }

  /** The file byte and the lookup when no extent covers the block. */
  lemma UncoveredAgrees(image: seq<byte>, bs: nat, recs: seq<BmbtRec>, size: nat, i: nat, q: u64)
    requires bs > 0 && i < size && q == i / bs && AllPackable(recs)
    requires forall k :: 0 <= k < |recs| ==> !Maps(recs[k], q)
    ensures MapLogical(recs, q) == None && FileByte(image, bs, recs, size, i) == 0
  {
    UnmappedIsNone(recs, q);
    NoSupplierIsZero(image, bs, recs, size, i, q);
  }

  /**
   For disjoint extents, inside the image or not: the byte the lookup leads to when the
   extent covering the block is readable, and zero when it is not.
   */
  lemma CoveredAgrees(image: seq<byte>, bs: nat, recs: seq<BmbtRec>, size: nat, i: nat, q: u64, k: nat)
    requires bs > 0 && i < size && q == i / bs && AllPackable(recs) && LogicallyDisjoint(recs)
    requires k < |recs| && Maps(recs[k], q)
    ensures MapLogical(recs, q) == Some(BlockFor(recs[k], q))
    ensures if Readable(WindowOf(recs[k], bs, size), |image|)
      then LookupByte(image, bs, recs, i, q) == Some(FileByte(image, bs, recs, size, i))
      else FileByte(image, bs, recs, size, i) == 0
  {
    LookupIsFirst(recs, q, k);
    LookupByteIs(image, bs, recs, i, q, k);
    if Readable(WindowOf(recs[k], bs, size), |image|) {
      LastSupplierWins(image, bs, recs, size, i, q, k);
    } else {
      NoSupplierIsZero(image, bs, recs, size, i, q);
    }
  }

  /** An overlap where they differ: the lookup takes the first extent, the assembly the last. */
  lemma OverlapDisagrees()
    ensures var recs := [BmbtRec(0, 0, 1, false), BmbtRec(0, 1, 1, false)];
      && MapLogical(recs, 0) == Some(0)
      && FileByte([7, 9], 1, recs, 1, 0) == 9
  {
    var recs := [BmbtRec(0, 0, 1, false), BmbtRec(0, 1, 1, false)];
    LastWriterWins([7, 9], Windows(recs, 1, 1), 0, 1);
  }
}
