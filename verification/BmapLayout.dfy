/**
 A writer for bmap trees: every block is followed by its subtrees, in order. What
 it lays out in an image, the reader reads back.
 */
module BmapLayout {
  import opened Wrappers
  import opened Words
  import opened Bytes
  import opened Extent
  import opened Assemble
  import opened Btree
  import opened BmapTree

  function HeaderSize(v5: bool): nat {
    if v5 then 72 else 24
  }

  /** The tree fits blocks of `bs` bytes. */
  predicate Fits(t: Tree, bs: u32, v5: bool)
    decreases t, 1
  {
    match t
    case LeafNode(recs) =>
      |recs| < 0x1_0000 && HeaderSize(v5) + 16 * |recs| <= bs && AllPackable(recs)
    case InnerNode(level, keys, children) =>
      && 1 <= level <= 32
      && |keys| == |children| < 0x1_0000
      && HeaderSize(v5) + 16 * |keys| <= bs
      && FitAll(children, bs, v5)
  }

  predicate FitAll(ts: seq<Tree>, bs: u32, v5: bool)
    decreases ts, 0
  {
    ts != [] ==> Fits(ts[0], bs, v5) && FitAll(ts[1..], bs, v5)
  }

  /** Where the trees go when the first free block is `b`. */
  function Places(ts: seq<Tree>, b: nat): (ptrs: seq<u64>)
    requires b + PtrCountAll(ts) <= U64_MAX
    ensures |ptrs| == |ts|
  {
    if ts == [] then [] else [b] + Places(ts[1..], b + 1 + PtrCount(ts[0]))
  }

  function Zeros(n: nat): (s: seq<byte>)
    ensures |s| == n
  {
    seq(n, _ => 0)
  }

  function Padded(s: seq<byte>, size: nat): (p: seq<byte>)
    requires |s| <= size
    ensures |p| == size
  {
    s + Zeros(size - |s|)
  }

  function Header(v5: bool, level: nat, numrecs: nat): (s: seq<byte>)
    ensures |s| == HeaderSize(v5)
  {
    var magic := if v5 then [0x42, 0x4d, 0x41, 0x33] else [0x42, 0x4d, 0x41, 0x50];
    magic + (BeBytes(level, 2) + (BeBytes(numrecs, 2) + Zeros(HeaderSize(v5) - 8)))
  }

  /** The keys, the rest of their room, the pointers, and the rest of the space. */
  function Halves(n: nat, keys: seq<byte>, ptrs: seq<byte>, space: nat): (s: seq<byte>)
    requires |keys| == |ptrs| == 8 * n && 16 * n <= space
    ensures |s| == space
  {
    var room := PtrStart(space, 0);
    Padded(keys, room) + Padded(ptrs, space - room)
  }

  function LeafBytes(recs: seq<BmbtRec>, bs: u32, v5: bool): (s: seq<byte>)
    requires HeaderSize(v5) + 16 * |recs| <= bs
    ensures |s| == bs
  {
    Header(v5, 0, |recs|) + Padded(PackAll(recs), bs - HeaderSize(v5))
  }

  function NodeBytes(level: nat, keys: seq<u64>, ptrs: seq<u64>, bs: u32, v5: bool): (s: seq<byte>)
    requires |keys| == |ptrs| && HeaderSize(v5) + 16 * |keys| <= bs
    ensures |s| == bs
  {
    Header(v5, level, |keys|) + Halves(|keys|, BeArray(keys), BeArray(ptrs), bs - HeaderSize(v5))
  }

  /** The blocks of a tree whose own block is `b`. */
  function Lay(t: Tree, b: nat, bs: u32, v5: bool): (s: seq<byte>)
    requires Fits(t, bs, v5) && b + 1 + PtrCount(t) <= U64_MAX
    decreases t, 1
  {
    match t
    case LeafNode(recs) => LeafBytes(recs, bs, v5)
    case InnerNode(level, keys, children) =>
      NodeBytes(level, keys, Places(children, b + 1), bs, v5) + LayAll(children, b + 1, bs, v5)
  }

  function LayAll(ts: seq<Tree>, b: nat, bs: u32, v5: bool): (s: seq<byte>)
    requires FitAll(ts, bs, v5) && b + PtrCountAll(ts) <= U64_MAX
    decreases ts, 0
  {
    if ts == [] then []
    else Lay(ts[0], b, bs, v5) + LayAll(ts[1..], b + 1 + PtrCount(ts[0]), bs, v5)
  }

  /** The root in a fork of `size` bytes. */
  function RootFork(level: nat, keys: seq<u64>, ptrs: seq<u64>, size: nat): (s: seq<byte>)
    requires |keys| == |ptrs| && 4 + 16 * |keys| <= size
    ensures |s| == size
  {
    BeBytes(level, 2) + (BeBytes(|keys|, 2) + Halves(|keys|, BeArray(keys), BeArray(ptrs), size - 4))
  }

  // ----------------------------------------------------------------- it is well formed

  lemma HeaderIsRead(block: seq<byte>, v5: bool, level: u16, numrecs: u16, body: seq<byte>)
    requires block == Header(v5, level, numrecs) + body
    ensures HeaderLen(block) == Some(HeaderSize(v5))
    ensures BeU16(block, 4) == level && BeU16(block, 6) == numrecs
  {
    var magic: seq<byte> := if v5 then [0x42, 0x4d, 0x41, 0x33] else [0x42, 0x4d, 0x41, 0x50];
    var tail := Zeros(HeaderSize(v5) - 8);
    assert Holds(block, 0, Header(v5, level, numrecs));
    HoldsParts(block, 0, magic, BeBytes(level, 2) + (BeBytes(numrecs, 2) + tail));
    HoldsParts(block, 4, BeBytes(level, 2), BeBytes(numrecs, 2) + tail);
    HoldsParts(block, 6, BeBytes(numrecs, 2), tail);
    HeldU16(block, 4, level);
    HeldU16(block, 6, numrecs);
    MagicIsRead(block, v5);
  }

  lemma MagicIsRead(block: seq<byte>, v5: bool)
    requires Holds(block, 0, if v5 then [0x42, 0x4d, 0x41, 0x33] else [0x42, 0x4d, 0x41, 0x50])
    ensures HeaderLen(block) == Some(HeaderSize(v5))
  {
    var magic := if v5 then XFS_BMAP_CRC_MAGIC else XFS_BMAP_MAGIC;
    MagicBytes();
    HeldU32(block, 0, magic);
  }

  lemma MagicBytes()
    ensures BeBytes(XFS_BMAP_CRC_MAGIC, 4) == [0x42, 0x4d, 0x41, 0x33]
    ensures BeBytes(XFS_BMAP_MAGIC, 4) == [0x42, 0x4d, 0x41, 0x50]
  {
    assert BeBytes(0x424d, 2) == [0x42, 0x4d];
    assert BeBytes(0x424d_41, 3) == [0x42, 0x4d, 0x41];
  }

  lemma HalvesHeld(data: seq<byte>, at: nat, n: nat, keys: seq<byte>, ptrs: seq<byte>)
    requires at <= |data| && |keys| == |ptrs| == 8 * n && 16 * n <= |data| - at
    requires Holds(data, at, Halves(n, keys, ptrs, |data| - at))
    ensures Holds(data, at, keys)
    ensures Holds(data, PtrStart(|data|, at), ptrs)
  {
    var space := |data| - at;
    PaddedPartsHeld(data, at, keys, PtrStart(space, 0), ptrs, space - PtrStart(space, 0));
    PtrStartShifts(space, at);
  }

  lemma PtrStartShifts(space: nat, at: nat)
    ensures PtrStart(at + space, at) == at + PtrStart(space, 0)
  {}

  lemma PaddedPartsHeld(data: seq<byte>, at: nat, a: seq<byte>, sizeA: nat, b: seq<byte>, sizeB: nat)
    requires |a| <= sizeA && |b| <= sizeB && Holds(data, at, Padded(a, sizeA) + Padded(b, sizeB))
    ensures Holds(data, at, a) && Holds(data, at + sizeA, b)
  {
    HoldsPadded(data, at, a, Zeros(sizeA - |a|), b, Zeros(sizeB - |b|));
  }

  lemma BodyHeld(header: seq<byte>, body: seq<byte>, size: nat)
    requires |body| <= size
    ensures Holds(header + Padded(body, size), |header|, body)
  {}

  lemma LeafIsStored(recs: seq<BmbtRec>, bs: u32, v5: bool)
    requires Fits(LeafNode(recs), bs, v5)
    ensures StoresLeaf(LeafBytes(recs, bs, v5), recs)
  {
    var size := bs - HeaderSize(v5);
    HeaderIsRead(LeafBytes(recs, bs, v5), v5, 0, |recs|, Padded(PackAll(recs), size));
    BodyHeld(Header(v5, 0, |recs|), PackAll(recs), size);
  }

  lemma NodeIsStored(level: nat, keys: seq<u64>, ptrs: seq<u64>, bs: u32, v5: bool)
    requires 1 <= level <= 32 && |keys| == |ptrs| < 0x1_0000 && HeaderSize(v5) + 16 * |keys| <= bs
    ensures StoresNode(NodeBytes(level, keys, ptrs, bs, v5), level, keys, ptrs)
  {
    var block, hdr := NodeBytes(level, keys, ptrs, bs, v5), HeaderSize(v5);
    HeaderIsRead(block, v5, level, |keys|, Halves(|keys|, BeArray(keys), BeArray(ptrs), bs - hdr));
    assert Holds(block, hdr, Halves(|keys|, BeArray(keys), BeArray(ptrs), bs - hdr));
    ArraysHeld(block, hdr, keys, ptrs);
  }

  lemma ArraysHeld(data: seq<byte>, at: nat, keys: seq<u64>, ptrs: seq<u64>)
    requires at <= |data| && |keys| == |ptrs| && 16 * |keys| <= |data| - at
    requires Holds(data, at, Halves(|keys|, BeArray(keys), BeArray(ptrs), |data| - at))
    ensures HoldsWords(data, at, keys) && HoldsWords(data, PtrStart(|data|, at), ptrs)
  {
    HalvesHeld(data, at, |keys|, BeArray(keys), BeArray(ptrs));
    HeldArray(data, at, keys);
    HeldArray(data, PtrStart(|data|, at), ptrs);
  }

  lemma {:induction false} LaidLength(t: Tree, b: nat, bs: u32, v5: bool)
    requires Fits(t, bs, v5) && b + 1 + PtrCount(t) <= U64_MAX
    ensures |Lay(t, b, bs, v5)| == (1 + PtrCount(t)) * bs
    decreases t, 1
  {
    MulSucc(PtrCount(t), bs);
    if t.InnerNode? {
      AllLaidLength(t.children, b + 1, bs, v5);
    }
  }

  lemma {:induction false} AllLaidLength(ts: seq<Tree>, b: nat, bs: u32, v5: bool)
    requires FitAll(ts, bs, v5) && b + PtrCountAll(ts) <= U64_MAX
    ensures |LayAll(ts, b, bs, v5)| == PtrCountAll(ts) * bs
    decreases ts, 0
  {
    if ts != [] {
      LaidLength(ts[0], b, bs, v5);
      AllLaidLength(ts[1..], b + 1 + PtrCount(ts[0]), bs, v5);
      MulDistributes(1 + PtrCount(ts[0]), PtrCountAll(ts[1..]), bs);
    }
  }

  lemma HeldBlock(image: Image, bs: u32, b: u64, at: nat, block: seq<byte>)
    requires at == b * bs && |block| == bs && Holds(image, at, block)
    ensures BlockSlice(image, b, bs) == Some(block)
  {
    BlockSliceMeans(image, b, bs);
  }

  /** What is laid out at block `b` is stored at block `b`. */
  lemma {:induction false} LaidIsStored(image: Image, t: Tree, b: u64, at: nat, bs: u32, v5: bool)
    requires Fits(t, bs, v5) && b + 1 + PtrCount(t) <= U64_MAX
    requires at == b * bs && Holds(image, at, Lay(t, b, bs, v5))
    ensures Stores(image, bs, b, t)
    decreases t, 1
  {
    match t
    case LeafNode(recs) =>
      LaidLeafIsStored(image, recs, b, at, bs, v5);
    case InnerNode(level, keys, children) =>
      var ptrs := Places(children, b + 1);
      var block := NodeBytes(level, keys, ptrs, bs, v5);
      HoldsParts(image, at, block, LayAll(children, b + 1, bs, v5));
      MulSucc(b, bs);
      AllLaidAreStored(image, children, b + 1, at + bs, bs, v5);
      LaidNodeIsStored(image, level, keys, children, ptrs, b, at, bs, v5);
  }

  lemma LaidLeafIsStored(image: Image, recs: seq<BmbtRec>, b: u64, at: nat, bs: u32, v5: bool)
    requires Fits(LeafNode(recs), bs, v5) && at == b * bs && Holds(image, at, LeafBytes(recs, bs, v5))
    ensures Stores(image, bs, b, LeafNode(recs))
  {
    HeldBlock(image, bs, b, at, LeafBytes(recs, bs, v5));
    LeafIsStored(recs, bs, v5);
  }

  lemma LaidNodeIsStored(
      image: Image, level: nat, keys: seq<u64>, children: seq<Tree>, ptrs: seq<u64>,
      b: u64, at: nat, bs: u32, v5: bool)
    requires 1 <= level <= 32 && |keys| == |ptrs| < 0x1_0000 && HeaderSize(v5) + 16 * |keys| <= bs
    requires at == b * bs && Holds(image, at, NodeBytes(level, keys, ptrs, bs, v5))
    requires StoresAll(image, bs, ptrs, children)
    ensures Stores(image, bs, b, InnerNode(level, keys, children))
  {
    HeldBlock(image, bs, b, at, NodeBytes(level, keys, ptrs, bs, v5));
    NodeIsStored(level, keys, ptrs, bs, v5);
  }

  lemma {:induction false} AllLaidAreStored(image: Image, ts: seq<Tree>, b: u64, at: nat, bs: u32, v5: bool)
    requires FitAll(ts, bs, v5) && b + PtrCountAll(ts) <= U64_MAX
    requires at == b * bs && Holds(image, at, LayAll(ts, b, bs, v5))
    ensures StoresAll(image, bs, Places(ts, b), ts)
    decreases ts, 0
  {
    if ts != [] {
      var next := b + 1 + PtrCount(ts[0]);
      var nextAt := LaidApart(image, ts, b, at, next, bs, v5);
      LaidIsStored(image, ts[0], b, at, bs, v5);
      AllLaidAreStored(image, ts[1..], next, nextAt, bs, v5);
      PlacesApart(ts, b, next);
      StoresFirstAndRest(image, bs, b, Places(ts[1..], next), Places(ts, b), ts);
    }
  }

  lemma PlacesApart(ts: seq<Tree>, b: nat, next: nat)
    requires ts != [] && b + PtrCountAll(ts) <= U64_MAX && next == b + 1 + PtrCount(ts[0])
    ensures next + PtrCountAll(ts[1..]) <= U64_MAX && Places(ts, b) == [b] + Places(ts[1..], next)
  {}

  lemma StoresFirstAndRest(image: Image, bs: u32, b: u64, rest: seq<u64>, ptrs: seq<u64>, ts: seq<Tree>)
    requires ts != [] && Stores(image, bs, b, ts[0]) && StoresAll(image, bs, rest, ts[1..]) && ptrs == [b] + rest
    ensures StoresAll(image, bs, ptrs, ts)
  {
    assert ptrs[1..] == rest;
  }

  lemma LaidApart(image: Image, ts: seq<Tree>, b: u64, at: nat, next: u64, bs: u32, v5: bool) returns (nextAt: nat)
    requires ts != [] && FitAll(ts, bs, v5) && next == b + 1 + PtrCount(ts[0]) && b + PtrCountAll(ts) <= U64_MAX
    requires at == b * bs && Holds(image, at, LayAll(ts, b, bs, v5))
    ensures Holds(image, at, Lay(ts[0], b, bs, v5))
    ensures nextAt == next * bs && Holds(image, nextAt, LayAll(ts[1..], next, bs, v5))
  {
    var first := Lay(ts[0], b, bs, v5);
    HoldsParts(image, at, first, LayAll(ts[1..], next, bs, v5));
    NextPlace(ts[0], b, at, next, bs, v5);
    nextAt := at + |first|;
  }

  lemma NextPlace(t: Tree, b: u64, at: nat, next: u64, bs: u32, v5: bool)
    requires Fits(t, bs, v5) && next == b + 1 + PtrCount(t) && at == b * bs
    ensures at + |Lay(t, b, bs, v5)| == next * bs
  {
    LaidLength(t, b, bs, v5);
    MulDistributes(b, 1 + PtrCount(t), bs);
  }

  lemma RootIsRead(fork: seq<byte>, level: u16, keys: seq<u64>, ptrs: seq<u64>, size: nat)
    requires |keys| == |ptrs| < 0x1_0000 && 4 + 16 * |keys| <= size && fork == RootFork(level, keys, ptrs, size)
    ensures BeU16(fork, 0) == level && BeU16(fork, 2) == |keys| && HoldsRootPtrs(fork, ptrs)
  {
    var body := Halves(|keys|, BeArray(keys), BeArray(ptrs), size - 4);
    assert Holds(fork, 0, fork);
    HoldsParts(fork, 0, BeBytes(level, 2), BeBytes(|keys|, 2) + body);
    HoldsParts(fork, 2, BeBytes(|keys|, 2), body);
    HeldU16(fork, 0, level);
    HeldU16(fork, 2, |keys|);
    ArraysHeld(fork, 4, keys, ptrs);
  }

  /** Reading a written tree gives its records back, wherever it lies and whatever surrounds it. */
  lemma WrittenTreeIsRead(
      image: Image, ts: seq<Tree>, b: u64, bs: u32, v5: bool, level: nat, keys: seq<u64>, size: nat)
    requires FitAll(ts, bs, v5) && b + PtrCountAll(ts) <= U64_MAX && PtrCountAll(ts) <= 0x10_0000
    requires |keys| == |ts| < 0x1_0000 && 4 + 16 * |keys| <= size && level <= 32
    requires b * bs >= 0 && Holds(image, b * bs, LayAll(ts, b, bs, v5))
    ensures BtreeExtents(image, bs, RootFork(level, keys, Places(ts, b), size)) == FlattenAll(ts)
  {
    AllLaidAreStored(image, ts, b, b * bs, bs, v5);
    var fork := RootFork(level, keys, Places(ts, b), size);
    RootIsRead(fork, level, keys, Places(ts, b), size);
    StoredRootIsRead(image, bs, fork, ts);
  }
}
