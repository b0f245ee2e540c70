/**
 How deep the descent of the bmap tree goes: the number of nested block entries.
 The level limit bounds it only when the level fields of the blocks agree with it.
 */
module BmapDepth {
  import opened Words
  import opened Bytes
  import opened Btree
  import opened BmapTree
  import opened BmapLayout

  /** Nested entries when a block is entered, its own entry included. */
  function BlockDepth(g: Graph, fsblock: u64, expectedLevel: nat, budget: nat): nat
    decreases budget, 2
  {
    1 + VisitDepth(g, g(fsblock, expectedLevel), budget)
  }

  function VisitDepth(g: Graph, visit: Visit, budget: nat): nat
    decreases budget, 1
  {
    match visit
    case Interior(ptrs, childLevel) => PtrsDepth(g, ptrs, childLevel, budget)
    case _ => 0
  }

  /** The deepest entry below a list of pointers; the budget each pointer finds is the one the walk leaves it. */
  function PtrsDepth(g: Graph, ptrs: seq<u64>, childLevel: nat, budget: nat): nat
    decreases budget, 0
  {
    if ptrs == [] || budget == 0 then 0
    else
      var first := BlockWalk(g, ptrs[0], childLevel, budget - 1);
      Max(BlockDepth(g, ptrs[0], childLevel, budget - 1), PtrsDepth(g, ptrs[1..], childLevel, first.left))
  }

  function RootDepth(image: Image, bs: u32, fork: seq<byte>, budget: nat): nat {
    PtrsDepth(GraphOf(image, bs), RootPtrs(fork), SatSub(BeU16(fork, 0), 1), budget)
  }

  // ------------------------------------------------------------ the budget bounds it

  lemma {:induction false} BlockDepthBounded(g: Graph, fsblock: u64, level: nat, budget: nat)
    ensures BlockDepth(g, fsblock, level, budget) <= budget + 1
    decreases budget, 2
  {
    match g(fsblock, level)
    case Interior(ptrs, childLevel) => PtrsDepthBounded(g, ptrs, childLevel, budget);
    case _ =>
  }

  /** On every graph the depth is at most the budget. */
  lemma {:induction false} PtrsDepthBounded(g: Graph, ptrs: seq<u64>, childLevel: nat, budget: nat)
    ensures PtrsDepth(g, ptrs, childLevel, budget) <= budget
    decreases budget, 0
  {
    if ptrs != [] && budget > 0 {
      var first := BlockWalk(g, ptrs[0], childLevel, budget - 1);
      BlockDepthBounded(g, ptrs[0], childLevel, budget - 1);
      PtrsDepthBounded(g, ptrs[1..], childLevel, first.left);
    }
  }

  // -------------------------------------------- consistent level fields bound it by the limit

  /** Every interior block entered carries a level no higher than the one expected of it. */
  ghost predicate BlockConsistent(g: Graph, fsblock: u64, level: nat, budget: nat)
    decreases budget, 2
  {
    VisitConsistent(g, g(fsblock, level), level, budget)
  }

  ghost predicate VisitConsistent(g: Graph, visit: Visit, level: nat, budget: nat)
    decreases budget, 1
  {
    visit.Interior? ==> visit.childLevel + 1 <= level && PtrsConsistent(g, visit.ptrs, visit.childLevel, budget)
  }

  ghost predicate PtrsConsistent(g: Graph, ptrs: seq<u64>, childLevel: nat, budget: nat)
    decreases budget, 0
  {
    ptrs != [] && budget > 0 ==>
      && BlockConsistent(g, ptrs[0], childLevel, budget - 1)
      && PtrsConsistent(g, ptrs[1..], childLevel, BlockWalk(g, ptrs[0], childLevel, budget - 1).left)
  }

  /** Blocks are refused at expected levels from `limit` on. */
  ghost predicate Guarded(g: Graph, limit: nat) {
    forall b: u64, l: nat :: l >= limit ==> g(b, l) == Skip
  }

  lemma {:induction false} ConsistentBlockDepth(g: Graph, limit: nat, fsblock: u64, level: nat, budget: nat)
    requires limit > 0 && Guarded(g, limit) && BlockConsistent(g, fsblock, level, budget)
    ensures BlockDepth(g, fsblock, level, budget) <= limit
    ensures BlockDepth(g, fsblock, level, budget) <= level + 1
    decreases budget, 2
  {
    var visit := g(fsblock, level);
    if visit.Interior? {
      ConsistentPtrsDepth(g, limit, visit.ptrs, visit.childLevel, budget);
    }
  }

  /** With consistent level fields the descent is no deeper than the levels left, nor than the limit. */
  lemma {:induction false} ConsistentPtrsDepth(g: Graph, limit: nat, ptrs: seq<u64>, childLevel: nat, budget: nat)
    requires limit > 0 && Guarded(g, limit) && PtrsConsistent(g, ptrs, childLevel, budget)
    ensures PtrsDepth(g, ptrs, childLevel, budget) <= limit
    ensures PtrsDepth(g, ptrs, childLevel, budget) <= childLevel + 1
    decreases budget, 0
  {
    if ptrs != [] && budget > 0 {
      var first := BlockWalk(g, ptrs[0], childLevel, budget - 1);
      ConsistentBlockDepth(g, limit, ptrs[0], childLevel, budget - 1);
      ConsistentPtrsDepth(g, limit, ptrs[1..], childLevel, first.left);
    }
  }

  ghost predicate RootConsistent(image: Image, bs: u32, fork: seq<byte>, budget: nat) {
    PtrsConsistent(GraphOf(image, bs), RootPtrs(fork), SatSub(BeU16(fork, 0), 1), budget)
  }

  /**
   The depth of the descent on every image: never more than the budget, and never
   more than the 32 levels when each block entered carries a level no higher than
   its parent's less one.
   */
  lemma DepthIsBounded(image: Image, bs: u32, fork: seq<byte>, budget: nat)
    ensures RootDepth(image, bs, fork, budget) <= budget
    ensures RootConsistent(image, bs, fork, budget) ==> RootDepth(image, bs, fork, budget) <= 32
  {
    var g, level := GraphOf(image, bs), SatSub(BeU16(fork, 0), 1);
    PtrsDepthBounded(g, RootPtrs(fork), level, budget);
    if RootConsistent(image, bs, fork, budget) {
      ConsistentPtrsDepth(g, MAX_BMBT_LEVELS, RootPtrs(fork), level, budget);
    }
  }

  // ------------------------------------------------------- a block that points at itself

  /** A block that offers its own number as its one pointer, at the level it was entered with. */
  ghost predicate Loops(g: Graph, b: u64, childLevel: nat) {
    g(b, childLevel).Interior? && g(b, childLevel).ptrs == [b] && g(b, childLevel).childLevel == childLevel
  }

  /** It is entered within itself until the budget is gone: the depth is exactly the budget. */
  lemma {:induction false} LoopDepth(g: Graph, b: u64, childLevel: nat, budget: nat)
    requires Loops(g, b, childLevel)
    ensures var w := PtrsWalk(g, [b], childLevel, budget);
      w.recs == [] && w.left == 0 && |w.followed| == budget && forall p :: p in w.followed ==> p == b
    ensures PtrsDepth(g, [b], childLevel, budget) == budget
    decreases budget
  {
    if budget > 0 {
      LoopDepth(g, b, childLevel, budget - 1);
      var visit := g(b, childLevel);
      assert visit.ptrs == [b] && [b][1..] == [];
      assert BlockWalk(g, b, childLevel, budget - 1) == VisitWalk(g, visit, budget - 1);
      assert BlockDepth(g, b, childLevel, budget - 1) == 1 + VisitDepth(g, visit, budget - 1);
    }
  }

  /**
   The loop in an image: block 0 of any image of the form `block + rest`, whose one
   pointer is 0. It collects nothing, follows the whole cap of pointers, and nests as
   deep, whichever level from 1 to 32 the block claims.
   */
  lemma SelfLoopIsFollowed(image: Image, bs: u32, v5: bool, level: nat, rest: seq<byte>, fork: seq<byte>, budget: nat)
    requires 1 <= level <= 32 && HeaderSize(v5) + 16 <= bs
    requires image == NodeBytes(level, [0], [0], bs, v5) + rest && fork == RootFork(level, [0], [0], 20)
    ensures var w := RootWalk(image, bs, fork, budget); w.recs == [] && w.left == 0 && |w.followed| == budget
    ensures RootDepth(image, bs, fork, budget) == budget
  {
    RootOfLoop(fork, level);
    BlockOfLoop(image, bs, v5, level, rest);
    LoopFromRoot(image, bs, fork, 0, level - 1, budget);
  }

  lemma LoopFromRoot(image: Image, bs: u32, fork: seq<byte>, b: u64, childLevel: nat, budget: nat)
    requires RootPtrs(fork) == [b] && SatSub(BeU16(fork, 0), 1) == childLevel
    requires Loops(GraphOf(image, bs), b, childLevel)
    ensures var w := RootWalk(image, bs, fork, budget); w.recs == [] && w.left == 0 && |w.followed| == budget
    ensures RootDepth(image, bs, fork, budget) == budget
  {
    LoopDepth(GraphOf(image, bs), b, childLevel, budget);
  }

  lemma RootOfLoop(fork: seq<byte>, level: u16)
    requires 1 <= level && fork == RootFork(level, [0], [0], 20)
    ensures RootPtrs(fork) == [0] && SatSub(BeU16(fork, 0), 1) == level - 1
  {
    RootIsRead(fork, level, [0], [0], 20);
    ArrayIsRead(fork, BMDR_HDR_LEN, [0]);
  }

  lemma BlockOfLoop(image: Image, bs: u32, v5: bool, level: nat, rest: seq<byte>)
    requires 1 <= level <= 32 && HeaderSize(v5) + 16 <= bs
    requires image == NodeBytes(level, [0], [0], bs, v5) + rest
    ensures Loops(GraphOf(image, bs), 0, level - 1)
  {
    var block := NodeBytes(level, [0], [0], bs, v5);
    HeldBlock(image, bs, 0, 0, block);
    NodeIsStored(level, [0], [0], bs, v5);
    NodeIsRead(block, level, [0], [0]);
  }

  /** A block that is refused is as deep as the descent goes. */
  lemma RefusedDepth(g: Graph, b: u64, childLevel: nat, budget: nat)
    requires g(b, childLevel) == Skip && budget > 0
    ensures PtrsDepth(g, [b], childLevel, budget) == 1
  {
    assert [b][1..] == [] && PtrsDepth(g, [], childLevel, budget - 1) == 0;
    assert BlockDepth(g, b, childLevel, budget - 1) == 1;
  }

  lemma LoopDepthIff(g: Graph, b: u64, childLevel: nat)
    requires if childLevel < MAX_BMBT_LEVELS then Loops(g, b, childLevel) else g(b, childLevel) == Skip
    ensures PtrsDepth(g, [b], childLevel, MAX_BMBT_PTRS) <= MAX_BMBT_LEVELS <==> childLevel >= MAX_BMBT_LEVELS
  {
    if childLevel < MAX_BMBT_LEVELS {
      LoopDepth(g, b, childLevel, MAX_BMBT_PTRS);
    } else {
      RefusedDepth(g, b, childLevel, MAX_BMBT_PTRS);
    }
  }

  /** The depth limit at a self-pointing block of an image, exactly: it holds just for level fields above 32. */
  lemma SelfLoopDepthIff(image: Image, bs: u32, b: u64, level: nat)
    requires level >= 1 && BlockSlice(image, b, bs).Some?
    requires VisitData(BlockSlice(image, b, bs).value) == Interior([b], level - 1)
    ensures PtrsDepth(GraphOf(image, bs), [b], level - 1, 0x10_0000) <= 32 <==> level > 32
  {
    LoopDepthIff(GraphOf(image, bs), b, level - 1);
  }
}
