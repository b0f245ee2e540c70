/**
 The bmap B+tree walk: from the root in an inode's data fork down on-disk
 pointers to the leaf records. The pointers are untrusted and may form cycles;
 the walk is bounded by a budget of pointers shared by the whole descent.
 */
module Btree {
  import opened Wrappers
  import opened Words
  import opened Bytes
  import opened Extent

  const XFS_BMAP_MAGIC: u32 := 0x424d_4150
  const XFS_BMAP_CRC_MAGIC: u32 := 0x424d_4133
  const BMBT_BLOCK_LEN: nat := 24
  const BMBT_BLOCK_CRC_LEN: nat := 72
  const KEY_LEN: nat := 8
  const PTR_LEN: nat := 8
  const BMDR_HDR_LEN: nat := 4
  const MAX_BMBT_LEVELS: nat := 32
  const MAX_BMBT_PTRS: nat := 0x10_0000

  // ----------------------------------------------------------------- block contents

  function HeaderLen(block: seq<byte>): Option<nat> {
    var magic := BeU32(block, 0);
    if magic == XFS_BMAP_CRC_MAGIC then Some(BMBT_BLOCK_CRC_LEN)
    else if magic == XFS_BMAP_MAGIC then Some(BMBT_BLOCK_LEN)
    else None
  }

  function LeafRecs(block: seq<byte>, hdr: nat, numrecs: nat): seq<BmbtRec> {
    if hdr <= |block| then Records(Unpack, block[hdr..], numrecs) else []
  }

  /** Key and pointer pairs that fit after a header of `hdr` bytes. */
  function MaxRecs(size: nat, hdr: nat): nat {
    SatSub(size, hdr) / (KEY_LEN + PTR_LEN)
  }

  /** The pointers follow the whole key array, used or not. */
  function PtrOff(size: nat, hdr: nat, i: nat): nat {
    hdr + MaxRecs(size, hdr) * KEY_LEN + i * PTR_LEN
  }

  function Ptrs(block: seq<byte>, hdr: nat, numrecs: nat): (ptrs: seq<u64>)
    ensures |ptrs| == Min(numrecs, MaxRecs(|block|, hdr))
  {
    seq(Min(numrecs, MaxRecs(|block|, hdr)), i requires 0 <= i => BeU64(block, PtrOff(|block|, hdr, i)))
  }

  /** What the walk does at a block: nothing, collect its records, or follow its pointers. */
  datatype Visit = Skip | Leaf(recs: seq<BmbtRec>) | Interior(ptrs: seq<u64>, childLevel: nat)

  function VisitBlock(image: Image, bs: u32, fsblock: u64, expectedLevel: nat): Visit {
    if expectedLevel >= MAX_BMBT_LEVELS then Skip
    else
      match BlockSlice(image, fsblock, bs)
      case None => Skip
      case Some(block) => VisitData(block)
  }

  /** The block's own level decides, not the expected one. */
  function VisitData(block: seq<byte>): Visit {
    match HeaderLen(block)
    case None => Skip
    case Some(hdr) =>
      var level, numrecs := BeU16(block, 4), BeU16(block, 6);
      if level == 0 then Leaf(LeafRecs(block, hdr, numrecs))
      else Interior(Ptrs(block, hdr, numrecs), level - 1)
  }

  // -------------------------------------------------------- the walk as a function

  /** A block graph: what each block offers when entered with an expected level. */
  type Graph = (u64, nat) -> Visit

  function GraphOf(image: Image, bs: u32): Graph {
    (fsblock: u64, expectedLevel: nat) => VisitBlock(image, bs, fsblock, expectedLevel)
  }

  /** Records collected, pointers followed in order, and budget left over. */
  datatype Walk = Walk(recs: seq<BmbtRec>, followed: seq<u64>, left: nat)

  function BlockWalk(g: Graph, fsblock: u64, expectedLevel: nat, budget: nat): (w: Walk)
    ensures |w.followed| + w.left == budget
    decreases budget, 2
  {
    VisitWalk(g, g(fsblock, expectedLevel), budget)
  }

  function VisitWalk(g: Graph, visit: Visit, budget: nat): (w: Walk)
    ensures |w.followed| + w.left == budget
    decreases budget, 1
  {
    match visit
    case Skip => Walk([], [], budget)
    case Leaf(recs) => Walk(recs, [], budget)
    case Interior(ptrs, childLevel) => PtrsWalk(g, ptrs, childLevel, budget)
  }

  /** Each pointer costs one unit of budget, before its block is entered. */
  function PtrsWalk(g: Graph, ptrs: seq<u64>, childLevel: nat, budget: nat): (w: Walk)
    ensures |w.followed| + w.left == budget
    decreases budget, 0
  {
    if ptrs == [] || budget == 0 then Walk([], [], budget)
    else
      var first := BlockWalk(g, ptrs[0], childLevel, budget - 1);
      var rest := PtrsWalk(g, ptrs[1..], childLevel, first.left);
      Walk(first.recs + rest.recs, [ptrs[0]] + first.followed + rest.followed, rest.left)
  }

  function RootPtrs(fork: seq<byte>): seq<u64> {
    Ptrs(fork, BMDR_HDR_LEN, BeU16(fork, 2))
  }

  function RootWalk(image: Image, bs: u32, fork: seq<byte>, budget: nat): Walk {
    PtrsWalk(GraphOf(image, bs), RootPtrs(fork), SatSub(BeU16(fork, 0), 1), budget)
  }

  function BtreeExtents(image: Image, bs: u32, fork: seq<byte>): seq<BmbtRec> {
    RootWalk(image, bs, fork, MAX_BMBT_PTRS).recs
  }

  // ------------------------------------------------------------------ the program

  /** The graph is the one the image shows. */
  ghost predicate Shows(g: Graph, image: Image, bs: u32) {
    forall b: u64, l: nat {:trigger VisitBlock(image, bs, b, l)} :: g(b, l) == VisitBlock(image, bs, b, l)
  }

  /** The output and the budget the descent shares. */
  class Walker {
    var out: seq<BmbtRec>
    var budget: nat

    constructor (budget: nat)
      ensures out == [] && this.budget == budget
    {
      out := [];
      this.budget := budget;
    }

    method WalkBlock(image: Image, bs: u32, fsblock: u64, expectedLevel: nat, ghost g: Graph)
      requires Shows(g, image, bs)
      modifies this
      ensures var w := BlockWalk(g, fsblock, expectedLevel, old(budget));
        out == old(out) + w.recs && budget == w.left
      decreases budget, 2
    {
      assert g(fsblock, expectedLevel) == VisitBlock(image, bs, fsblock, expectedLevel);
      if expectedLevel >= MAX_BMBT_LEVELS {
        return;
      }
      var found := BlockSlice(image, fsblock, bs);
      if found.None? {
        return;
      }
      BlockSliceMeans(image, fsblock, bs);
      WalkData(image, bs, found.value, g);
    }

    method WalkData(image: Image, bs: u32, block: seq<byte>, ghost g: Graph)
      requires |block| == bs && Shows(g, image, bs)
      modifies this
      ensures var w := VisitWalk(g, VisitData(block), old(budget));
        out == old(out) + w.recs && budget == w.left
      decreases budget, 1
    {
      var hdr := HeaderLen(block);
      if hdr.None? {
        return;
      }
      var level, numrecs := BeU16(block, 4), BeU16(block, 6);
      VisitMeans(g, block, hdr.value, budget);
      if level == 0 {
        CollectLeafRecs(block, hdr.value, numrecs);
      } else {
        WalkInterior(image, bs, block, hdr.value, numrecs, level - 1, g);
      }
    }

    method CollectLeafRecs(block: seq<byte>, hdr: nat, numrecs: nat)
      modifies this
      ensures out == old(out) + LeafRecs(block, hdr, numrecs) && budget == old(budget)
    {
      if hdr <= |block| {
        var recs := ReadRecords(Unpack, block[hdr..], numrecs);
        out := out + recs;
      }
    }

    method WalkInterior(image: Image, bs: u32, block: seq<byte>, hdr: nat, numrecs: nat, childLevel: nat,
                        ghost g: Graph)
      requires |block| == bs && Shows(g, image, bs)
      modifies this
      ensures var w := PtrsWalk(g, Ptrs(block, hdr, numrecs), childLevel, old(budget));
        out == old(out) + w.recs && budget == w.left
      decreases budget, 0
    {
      var maxrecs := SatSub(bs, hdr) / (KEY_LEN + PTR_LEN);
      var ptrArea := hdr + maxrecs * KEY_LEN;
      var valid := Min(numrecs, maxrecs);
      ghost var ptrs := Ptrs(block, hdr, numrecs);
      ghost var goal := After(out, PtrsWalk(g, ptrs, childLevel, budget));
      assert ptrs[0..] == ptrs;
      for i := 0 to valid
        invariant budget <= old(budget)
        invariant After(out, PtrsWalk(g, ptrs[i..], childLevel, budget)) == goal
      {
        if budget == 0 {
          return;
        }
        var off := ptrArea + i * PTR_LEN;
        if off + PTR_LEN > |block| {
          assert false;
          break;
        }
        PtrsWalkStep(g, ptrs, i, childLevel, budget, out);
        budget := budget - 1;
        WalkBlock(image, bs, BeU64(block, off), childLevel, g);
      }
    }

    /** The loop over the root's pointers. */
    method FollowRoot(image: Image, bs: u32, ptrs: seq<u64>, childLevel: nat, ghost g: Graph)
      requires Shows(g, image, bs)
      modifies this
      ensures var w := PtrsWalk(g, ptrs, childLevel, old(budget));
        out == old(out) + w.recs && budget == w.left
    {
      ghost var goal := After(out, PtrsWalk(g, ptrs, childLevel, budget));
      assert ptrs[0..] == ptrs;
      for i := 0 to |ptrs|
        invariant After(out, PtrsWalk(g, ptrs[i..], childLevel, budget)) == goal
      {
        if budget == 0 {
          break;
        }
        PtrsWalkStep(g, ptrs, i, childLevel, budget, out);
        budget := budget - 1;
        WalkBlock(image, bs, ptrs[i], childLevel, g);
      }
    }
  }

  lemma VisitMeans(g: Graph, block: seq<byte>, hdr: nat, budget: nat)
    requires HeaderLen(block) == Some(hdr)
    ensures var level, numrecs := BeU16(block, 4), BeU16(block, 6);
      VisitWalk(g, VisitData(block), budget) ==
        if level == 0 then Walk(LeafRecs(block, hdr, numrecs), [], budget)
        else PtrsWalk(g, Ptrs(block, hdr, numrecs), level - 1, budget)
  {}

  /** The output and the budget once walk `w` is done, with `out` collected before it. */
  function After(out: seq<BmbtRec>, w: Walk): (seq<BmbtRec>, nat) {
    (out + w.recs, w.left)
  }

  /** Following pointer `i`, then the pointers after it. */
  lemma PtrsWalkStep(g: Graph, ptrs: seq<u64>, i: nat, childLevel: nat, budget: nat, out: seq<BmbtRec>)
    requires i < |ptrs| && budget > 0
    ensures var first := BlockWalk(g, ptrs[i], childLevel, budget - 1);
      After(out, PtrsWalk(g, ptrs[i..], childLevel, budget))
        == After(out + first.recs, PtrsWalk(g, ptrs[i + 1..], childLevel, first.left))
  {
    var first := BlockWalk(g, ptrs[i], childLevel, budget - 1);
    var rest := PtrsWalk(g, ptrs[i + 1..], childLevel, first.left);
    assert ptrs[i..][1..] == ptrs[i + 1..];
    assert out + (first.recs + rest.recs) == (out + first.recs) + rest.recs;
  }

  method ReadBtreeExtents(image: Image, bs: u32, rootFork: Image) returns (recs: seq<BmbtRec>)
    ensures recs == BtreeExtents(image, bs, rootFork)
  {
    var level, numrecs := BeU16(rootFork, 0), BeU16(rootFork, 2);
    var dmaxrecs := SatSub(|rootFork|, BMDR_HDR_LEN) / (KEY_LEN + PTR_LEN);
    var ptrs := ReadRootPtrs(rootFork, numrecs, dmaxrecs);
    var walker := new Walker(MAX_BMBT_PTRS);
    walker.FollowRoot(image, bs, ptrs, SatSub(level, 1), GraphOf(image, bs));
    recs := walker.out;
  }

  method ReadRootPtrs(fork: Image, numrecs: nat, dmaxrecs: nat) returns (ptrs: seq<u64>)
    requires dmaxrecs == MaxRecs(|fork|, BMDR_HDR_LEN)
    ensures ptrs == Ptrs(fork, BMDR_HDR_LEN, numrecs)
  {
    var ptrArea := BMDR_HDR_LEN + dmaxrecs * KEY_LEN;
    var valid := Min(numrecs, dmaxrecs);
    ptrs := [];
    for i := 0 to valid
      invariant ptrs == Ptrs(fork, BMDR_HDR_LEN, numrecs)[..i]
    {
      var off := ptrArea + i * PTR_LEN;
      if off + PTR_LEN > |fork| {
        assert false;
        break;
      }
      ptrs := ptrs + [BeU64(fork, off)];
    }
  }

  // ------------------------------------------------------- bounds, on every graph

  /** No leaf offers more than `cap` records. */
  ghost predicate LeavesBounded(g: Graph, cap: nat) {
    forall b, l :: g(b, l).Leaf? ==> |g(b, l).recs| <= cap
  }

  /** At most `cap` records for the block entered and for each pointer followed from it. */
  lemma {:induction false} BlockWalkBounded(g: Graph, cap: nat, fsblock: u64, level: nat, budget: nat)
    requires LeavesBounded(g, cap)
    ensures var w := BlockWalk(g, fsblock, level, budget); |w.recs| <= (|w.followed| + 1) * cap
    decreases budget, 2
  {
    match g(fsblock, level)
    case Skip => MulNonNegative(1, cap);
    case Leaf(recs) =>
    case Interior(ptrs, childLevel) =>
      var w := PtrsWalk(g, ptrs, childLevel, budget);
      PtrsWalkBounded(g, cap, ptrs, childLevel, budget);
      MulSucc(|w.followed|, cap);
  }

  lemma {:induction false} PtrsWalkBounded(g: Graph, cap: nat, ptrs: seq<u64>, childLevel: nat, budget: nat)
    requires LeavesBounded(g, cap)
    ensures var w := PtrsWalk(g, ptrs, childLevel, budget); |w.recs| <= |w.followed| * cap
    decreases budget, 0
  {
    if ptrs != [] && budget > 0 {
      var first := BlockWalk(g, ptrs[0], childLevel, budget - 1);
      var rest := PtrsWalk(g, ptrs[1..], childLevel, first.left);
      BlockWalkBounded(g, cap, ptrs[0], childLevel, budget - 1);
      PtrsWalkBounded(g, cap, ptrs[1..], childLevel, first.left);
      MulDistributes(|first.followed| + 1, |rest.followed|, cap);
    }
  }

  /** A leaf block holds at most the records that fit after the shorter header. */
  function RecsPerBlock(bs: nat): nat {
    SatSub(bs, BMBT_BLOCK_LEN) / REC_LEN
  }

  /**
   On every image and every root fork: pointers followed and budget left add up
   to the cap, and the records are at most what fits in the blocks followed.
   */
  lemma WalkIsBounded(image: Image, bs: u32, fork: seq<byte>)
    ensures var w := RootWalk(image, bs, fork, MAX_BMBT_PTRS);
      && |w.followed| + w.left == 0x10_0000
      && |w.recs| <= |w.followed| * RecsPerBlock(bs)
  {
    var g := GraphOf(image, bs);
    forall b: u64, l: nat | g(b, l).Leaf? ensures |g(b, l).recs| <= RecsPerBlock(bs) {
      BlockSliceMeans(image, b, bs);
    }
    PtrsWalkBounded(g, RecsPerBlock(bs), RootPtrs(fork), SatSub(BeU16(fork, 0), 1), MAX_BMBT_PTRS);
  }

  // --------------------------------------------------- the cap only truncates

  /** The smaller-budget walk ran out and is a prefix, or the two are the same but for the spare budget. */
  ghost predicate Truncates(small: Walk, large: Walk, spare: nat) {
    && small.recs <= large.recs
    && small.followed <= large.followed
    && (small.left > 0 ==> small.recs == large.recs && large.left == small.left + spare)
  }

  lemma {:induction false} BlockWalkTruncates(g: Graph, fsblock: u64, level: nat, small: nat, spare: nat)
    ensures Truncates(BlockWalk(g, fsblock, level, small), BlockWalk(g, fsblock, level, small + spare), spare)
    decreases small, 2
  {
    match g(fsblock, level)
    case Skip =>
    case Leaf(recs) =>
    case Interior(ptrs, childLevel) => PtrsWalkTruncates(g, ptrs, childLevel, small, spare);
  }

  lemma {:induction false} PtrsWalkTruncates(g: Graph, ptrs: seq<u64>, childLevel: nat, small: nat, spare: nat)
    ensures Truncates(PtrsWalk(g, ptrs, childLevel, small), PtrsWalk(g, ptrs, childLevel, small + spare), spare)
    decreases small, 0
  {
    if ptrs != [] && small > 0 {
      BlockWalkTruncates(g, ptrs[0], childLevel, small - 1, spare);
      var first := BlockWalk(g, ptrs[0], childLevel, small - 1);
      if first.left > 0 {
        PtrsWalkTruncates(g, ptrs[1..], childLevel, first.left, spare);
      }
    }
  }

  /** On any image, cyclic or not, a smaller budget collects a prefix of what a larger one collects. */
  lemma SmallerBudgetIsPrefix(image: Image, bs: u32, fork: seq<byte>, small: nat, large: nat)
    requires small <= large
    ensures RootWalk(image, bs, fork, small).recs <= RootWalk(image, bs, fork, large).recs
    ensures RootWalk(image, bs, fork, small).left > 0 ==>
      RootWalk(image, bs, fork, small).recs == RootWalk(image, bs, fork, large).recs
  {
    PtrsWalkTruncates(GraphOf(image, bs), RootPtrs(fork), SatSub(BeU16(fork, 0), 1), small, large - small);
  }
}
