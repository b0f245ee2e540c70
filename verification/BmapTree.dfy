/**
 Well-formed bmap trees, what it means for an image to store one, and the proof
 that the walk returns exactly the leaf records in order.
 */
module BmapTree {
  import opened Words
  import opened Bytes
  import opened Extent
  import opened Assemble
  import opened Btree

  /** `level` is the level field a node block carries; leaves carry 0. */
  datatype Tree =
    | LeafNode(recs: seq<BmbtRec>)
    | InnerNode(level: nat, keys: seq<u64>, children: seq<Tree>)

  function Flatten(t: Tree): seq<BmbtRec>
    decreases t, 1
  {
    match t
    case LeafNode(recs) => recs
    case InnerNode(_, _, children) => FlattenAll(children)
  }

  function FlattenAll(ts: seq<Tree>): seq<BmbtRec>
    decreases ts, 0
  {
    if ts == [] then [] else Flatten(ts[0]) + FlattenAll(ts[1..])
  }

  /** Pointers below a tree's own block. */
  function PtrCount(t: Tree): nat
    decreases t, 1
  {
    match t
    case LeafNode(_) => 0
    case InnerNode(_, _, children) => PtrCountAll(children)
  }

  /** Pointers to the trees and below them. */
  function PtrCountAll(ts: seq<Tree>): nat
    decreases ts, 0
  {
    if ts == [] then 0 else 1 + PtrCount(ts[0]) + PtrCountAll(ts[1..])
  }

  // ------------------------------------------------------------ the on-disk format

  /** A block that stores a leaf: header, record count, packed records. */
  predicate StoresLeaf(block: seq<byte>, recs: seq<BmbtRec>) {
    && HeaderLen(block).Some?
    && var hdr := HeaderLen(block).value;
    && BeU16(block, 4) == 0
    && BeU16(block, 6) == |recs|
    && hdr + REC_LEN * |recs| <= |block|
    && block[hdr..hdr + REC_LEN * |recs|] == PackAll(recs)
    && AllPackable(recs)
  }

  /** The pointers start where the room for the keys ends, half way through the space. */
  function PtrStart(size: nat, hdr: nat): nat
    requires hdr <= size
  {
    hdr + 8 * ((size - hdr) / 16)
  }

  /** A block that stores a node: level, count, the key array, and after it the pointer array. */
  predicate StoresNode(block: seq<byte>, level: nat, keys: seq<u64>, ptrs: seq<u64>) {
    && HeaderLen(block).Some?
    && var hdr := HeaderLen(block).value;
    && 1 <= level <= 32
    && BeU16(block, 4) == level
    && BeU16(block, 6) == |keys| == |ptrs|
    && hdr + 16 * |ptrs| <= |block|
    && HoldsWords(block, hdr, keys)
    && HoldsWords(block, PtrStart(|block|, hdr), ptrs)
  }

  /** Block `fsblock` of the image stores the tree. */
  ghost predicate Stores(image: Image, bs: u32, fsblock: u64, t: Tree)
    decreases t, 1
  {
    && BlockSlice(image, fsblock, bs).Some?
    && var block := BlockSlice(image, fsblock, bs).value;
    match t
    case LeafNode(recs) => StoresLeaf(block, recs)
    case InnerNode(level, keys, children) =>
      exists ptrs: seq<u64> :: StoresNode(block, level, keys, ptrs) && StoresAll(image, bs, ptrs, children)
  }

  ghost predicate StoresAll(image: Image, bs: u32, ptrs: seq<u64>, ts: seq<Tree>)
    decreases ts, 0
  {
    |ptrs| == |ts| && (ts != [] ==> Stores(image, bs, ptrs[0], ts[0]) && StoresAll(image, bs, ptrs[1..], ts[1..]))
  }

  /** The root in the inode fork: no magic, and pointers placed by the fork's own length. */
  ghost predicate StoresRoot(image: Image, bs: u32, fork: seq<byte>, ts: seq<Tree>) {
    && BeU16(fork, 0) <= 32
    && BeU16(fork, 2) == |ts|
    && 4 + 16 * |ts| <= |fork|
    && exists ptrs: seq<u64> :: |ptrs| == |ts| && HoldsRootPtrs(fork, ptrs) && StoresAll(image, bs, ptrs, ts)
  }

  predicate HoldsRootPtrs(fork: seq<byte>, ptrs: seq<u64>) {
    |fork| >= 4 && HoldsWords(fork, PtrStart(|fork|, 4), ptrs)
  }

  // ----------------------------------------------------------- the walk on good trees

  /** An array of pointers after the room for the keys is what the walk reads. */
  lemma ArrayIsRead(data: seq<byte>, hdr: nat, ptrs: seq<u64>)
    requires hdr + 16 * |ptrs| <= |data| && HoldsWords(data, PtrStart(|data|, hdr), ptrs)
    ensures Ptrs(data, hdr, |ptrs|) == ptrs
  {}

  lemma LeafIsRead(block: seq<byte>, recs: seq<BmbtRec>)
    requires StoresLeaf(block, recs)
    ensures VisitData(block) == Leaf(recs)
  {
    var hdr := HeaderLen(block).value;
    LeafRecordsAreRead(block, hdr, recs);
  }

  lemma LeafRecordsAreRead(block: seq<byte>, hdr: nat, recs: seq<BmbtRec>)
    requires hdr + REC_LEN * |recs| <= |block| && AllPackable(recs)
    requires block[hdr..hdr + REC_LEN * |recs|] == PackAll(recs)
    ensures LeafRecs(block, hdr, |recs|) == recs
  {
    assert block[hdr..][0..|PackAll(recs)|] == PackAll(recs);
    PackedDecodes(block[hdr..], recs);
    RecordsAre(Unpack, block[hdr..], |recs|, recs);
    assert recs[..|recs|] == recs;
  }

  lemma NodeIsRead(block: seq<byte>, level: nat, keys: seq<u64>, ptrs: seq<u64>)
    requires StoresNode(block, level, keys, ptrs)
    ensures VisitData(block) == Interior(ptrs, level - 1)
  {
    ArrayIsRead(block, HeaderLen(block).value, ptrs);
  }

  /** The tree as the walk meets it: block `fsblock` of the graph offers the tree's contents. */
  ghost predicate Hangs(g: Graph, fsblock: u64, t: Tree)
    decreases t, 1
  {
    match t
    case LeafNode(recs) => Offers(g, fsblock, Leaf(recs))
    case InnerNode(level, _, children) =>
      1 <= level <= MAX_BMBT_LEVELS &&
      exists ptrs :: Offers(g, fsblock, Interior(ptrs, level - 1)) && HangsAll(g, ptrs, children)
  }

  ghost predicate HangsAll(g: Graph, ptrs: seq<u64>, ts: seq<Tree>)
    decreases ts, 0
  {
    |ptrs| == |ts| && (ts != [] ==> Hangs(g, ptrs[0], ts[0]) && HangsAll(g, ptrs[1..], ts[1..]))
  }

  /** The block is visited the same way under every expected level below the limit. */
  ghost predicate Offers(g: Graph, fsblock: u64, visit: Visit) {
    forall l :: 0 <= l < MAX_BMBT_LEVELS ==> g(fsblock, l) == visit
  }

  lemma {:induction false} StoredTreeHangs(image: Image, bs: u32, g: Graph, fsblock: u64, t: Tree)
    requires Shows(g, image, bs) && Stores(image, bs, fsblock, t)
    ensures Hangs(g, fsblock, t)
    decreases t, 1
  {
    var block := BlockSlice(image, fsblock, bs).value;
    forall l: nat | l < MAX_BMBT_LEVELS ensures g(fsblock, l) == VisitData(block) {
      assert g(fsblock, l) == VisitBlock(image, bs, fsblock, l);
    }
    match t
    case LeafNode(recs) => LeafIsRead(block, recs);
    case InnerNode(level, keys, children) =>
      var ptrs: seq<u64> :| StoresNode(block, level, keys, ptrs) && StoresAll(image, bs, ptrs, children);
      NodeIsRead(block, level, keys, ptrs);
      StoredTreesHang(image, bs, g, ptrs, children);
  }

  lemma {:induction false} StoredTreesHang(image: Image, bs: u32, g: Graph, ptrs: seq<u64>, ts: seq<Tree>)
    requires Shows(g, image, bs) && StoresAll(image, bs, ptrs, ts)
    ensures HangsAll(g, ptrs, ts)
    decreases ts, 0
  {
    if ts != [] {
      StoredTreeHangs(image, bs, g, ptrs[0], ts[0]);
      StoredTreesHang(image, bs, g, ptrs[1..], ts[1..]);
    }
  }

  /** Entering a tree collects its records in order and uses one unit of budget per pointer. */
  lemma {:induction false} TreeIsWalked(g: Graph, fsblock: u64, t: Tree, expectedLevel: nat, budget: nat)
    requires Hangs(g, fsblock, t) && expectedLevel < MAX_BMBT_LEVELS && PtrCount(t) <= budget
    ensures var w := BlockWalk(g, fsblock, expectedLevel, budget);
      w.recs == Flatten(t) && w.left == budget - PtrCount(t)
    decreases t, 1
  {
    match t
    case LeafNode(recs) =>
    case InnerNode(level, keys, children) =>
      var ptrs :| Offers(g, fsblock, Interior(ptrs, level - 1)) && HangsAll(g, ptrs, children);
      TreesAreWalked(g, ptrs, children, level - 1, budget);
  }

  lemma {:induction false} TreesAreWalked(g: Graph, ptrs: seq<u64>, ts: seq<Tree>, childLevel: nat, budget: nat)
    requires HangsAll(g, ptrs, ts) && childLevel < MAX_BMBT_LEVELS && PtrCountAll(ts) <= budget
    ensures var w := PtrsWalk(g, ptrs, childLevel, budget);
      w.recs == FlattenAll(ts) && w.left == budget - PtrCountAll(ts)
    decreases ts, 0
  {
    if ts != [] {
      TreeIsWalked(g, ptrs[0], ts[0], childLevel, budget - 1);
      TreesAreWalked(g, ptrs[1..], ts[1..], childLevel, budget - 1 - PtrCount(ts[0]));
    }
  }

  /**
   For every image and fork that store a well-formed tree of any shape within the
   pointer cap, the reader returns exactly the in-order leaf records.
   */
  lemma StoredRootIsRead(image: Image, bs: u32, fork: seq<byte>, ts: seq<Tree>)
    requires StoresRoot(image, bs, fork, ts) && PtrCountAll(ts) <= 0x10_0000
    ensures BtreeExtents(image, bs, fork) == FlattenAll(ts)
  {
    var ptrs: seq<u64> :| |ptrs| == |ts| && HoldsRootPtrs(fork, ptrs) && StoresAll(image, bs, ptrs, ts);
    ArrayIsRead(fork, BMDR_HDR_LEN, ptrs);
    var g := GraphOf(image, bs);
    StoredTreesHang(image, bs, g, ptrs, ts);
    TreesAreWalked(g, ptrs, ts, SatSub(BeU16(fork, 0), 1), MAX_BMBT_PTRS);
  }

  // ------------------------------------------------------------------------- order

  /** All records start in `[lo, hi)` and increase strictly. */
  predicate Increasing(recs: seq<BmbtRec>, lo: nat, hi: nat) {
    && (forall i :: 0 <= i < |recs| ==> lo <= recs[i].startoff < hi)
    && (forall i, j :: 0 <= i < j < |recs| ==> recs[i].startoff < recs[j].startoff)
  }

  /** The search-tree order: key `i` bounds child `i` from below and child `i - 1` from above. */
  predicate Ordered(t: Tree, lo: nat, hi: nat)
    decreases t, 1
  {
    match t
    case LeafNode(recs) => Increasing(recs, lo, hi)
    case InnerNode(_, keys, children) => OrderedAll(children, keys, lo, hi)
  }

  predicate OrderedAll(ts: seq<Tree>, keys: seq<u64>, lo: nat, hi: nat)
    decreases ts, 0
  {
    && |keys| == |ts| && lo <= hi
    && (ts != [] ==>
      var next := if |keys| > 1 then keys[1] else hi;
      && lo <= keys[0] <= next <= hi
      && Ordered(ts[0], keys[0], next)
      && OrderedAll(ts[1..], keys[1..], next, hi))
  }

  lemma {:induction false} OrderedFlattens(t: Tree, lo: nat, hi: nat)
    requires Ordered(t, lo, hi)
    ensures Increasing(Flatten(t), lo, hi)
    decreases t, 1
  {
    if t.InnerNode? {
      OrderedAllFlattens(t.children, t.keys, lo, hi);
    }
  }

  /** In an ordered tree the collected records are strictly increasing in their file offset. */
  lemma {:induction false} OrderedAllFlattens(ts: seq<Tree>, keys: seq<u64>, lo: nat, hi: nat)
    requires OrderedAll(ts, keys, lo, hi)
    ensures Increasing(FlattenAll(ts), lo, hi)
    decreases ts, 0
  {
    if ts != [] {
      var next := if |keys| > 1 then keys[1] else hi;
      OrderedFlattens(ts[0], keys[0], next);
      OrderedAllFlattens(ts[1..], keys[1..], next, hi);
      IncreasingAppend(Flatten(ts[0]), FlattenAll(ts[1..]), keys[0], next, hi);
    }
  }

  lemma IncreasingAppend(a: seq<BmbtRec>, b: seq<BmbtRec>, lo: nat, mid: nat, hi: nat)
    requires lo <= mid <= hi && Increasing(a, lo, mid) && Increasing(b, mid, hi)
    ensures Increasing(a + b, lo, hi)
  {}

  /** What is read from an ordered tree is strictly increasing in the file offset. */
  lemma OrderedTreeIsReadInOrder(image: Image, bs: u32, fork: seq<byte>, ts: seq<Tree>, keys: seq<u64>, hi: nat)
    requires StoresRoot(image, bs, fork, ts) && PtrCountAll(ts) <= 0x10_0000 && OrderedAll(ts, keys, 0, hi)
    ensures Increasing(BtreeExtents(image, bs, fork), 0, hi)
  {
    StoredRootIsRead(image, bs, fork, ts);
    OrderedAllFlattens(ts, keys, 0, hi);
  }
}
