/** What the walk does at a block, in terms of the block's bytes. */
module BmapBlocks {
  import opened Wrappers
  import opened Words
  import opened Bytes
  import opened Extent
  import opened Btree

  const BMAP: seq<byte> := [0x42, 0x4d, 0x41, 0x50]
  const BMA3: seq<byte> := [0x42, 0x4d, 0x41, 0x33]

  /** Bytes before the keys or records: 24 on v4, 72 on v5. */
  function HeaderBytes(block: seq<byte>): nat
    requires |block| >= 4
  {
    if block[..4] == BMA3 then 72 else 24
  }

  predicate IsBmapBlock(block: seq<byte>) {
    |block| >= 4 && block[..4] in {BMAP, BMA3}
  }

  lemma MagicNumbers()
    ensures BeNat(BMAP) == 0x424d_4150 && BeNat(BMA3) == 0x424d_4133
  {
    assert BMAP[..3] == [0x42, 0x4d, 0x41] == BMA3[..3];
    assert BMAP[..3][..2] == [0x42, 0x4d];
    assert BMAP[..3][..2][..1] == [0x42];
    assert BMAP[..3][..2][..1][..0] == [];
    assert BeNat([0x42]) == 0x42;
    assert BeNat([0x42, 0x4d]) == 0x424d;
    assert BeNat([0x42, 0x4d, 0x41]) == 0x42_4d41;
  }

  lemma SameNumberSameBytes(a: seq<byte>, b: seq<byte>)
    requires |a| == |b| && BeNat(a) == BeNat(b)
    ensures a == b
  {
    BytesOfBeNat(a);
    BytesOfBeNat(b);
  }

  lemma HeaderIs(block: seq<byte>)
    ensures HeaderLen(block) == if IsBmapBlock(block) then Some(HeaderBytes(block)) else None
  {
    MagicNumbers();
    if |block| >= 4 {
      var magic := block[0..4];
      assert block[..4] == magic;
      if BeNat(magic) == BeNat(BMAP) { SameNumberSameBytes(magic, BMAP); }
      if BeNat(magic) == BeNat(BMA3) { SameNumberSameBytes(magic, BMA3); }
    }
  }

  /**
   A block is passed over exactly when its expected level is 32 or more, it is not
   wholly in the image, or it does not start with one of the two magics.
   */
  lemma SkippedIff(image: Image, bs: u32, fsblock: u64, expectedLevel: nat)
    ensures VisitBlock(image, bs, fsblock, expectedLevel).Skip? <==>
      || expectedLevel >= 32
      || BlockSlice(image, fsblock, bs).None?
      || !IsBmapBlock(BlockSlice(image, fsblock, bs).value)
  {
    if BlockSlice(image, fsblock, bs).Some? {
      HeaderIs(BlockSlice(image, fsblock, bs).value);
    }
  }

  /** Whole 16-byte items that fit after the header. */
  function Room(size: nat, hdr: nat): nat {
    if size < hdr then 0 else (size - hdr) / 16
  }

  /** A block of level 0 gives its records: as many as it counts, or as fit when it counts more. */
  lemma LeafGives(block: seq<byte>)
    requires IsBmapBlock(block) && BeU16(block, 4) == 0
    ensures var hdr, visit := HeaderBytes(block), VisitData(block);
      && visit.Leaf?
      && |visit.recs| == Min(BeU16(block, 6), Room(|block|, hdr))
      && forall i :: 0 <= i < |visit.recs| ==> visit.recs[i] == Unpack(block[hdr + 16 * i..hdr + 16 * i + 16])
  {
    var hdr := HeaderBytes(block);
    HeaderIs(block);
    if hdr <= |block| {
      RecordsAfter(Unpack, block, hdr, BeU16(block, 6), LeafRecs(block, hdr, BeU16(block, 6)));
    }
  }

  lemma RecordsAfter<T>(decode: seq<byte> -> T, block: seq<byte>, hdr: nat, n: nat, recs: seq<T>)
    requires hdr <= |block| && recs == Records(decode, block[hdr..], n)
    ensures |recs| == Min(n, Room(|block|, hdr))
    ensures forall i :: 0 <= i < |recs| ==> recs[i] == decode(block[hdr + 16 * i..hdr + 16 * i + 16])
  {
    forall i | 0 <= i < |recs| ensures recs[i] == decode(block[hdr + 16 * i..hdr + 16 * i + 16]) {
      SliceOfSlice(block, hdr, |block|, 16 * i, 16 * i + 16);
    }
  }

  /** A block of another level gives its pointers, after the room for as many keys as fit, and its level less one. */
  lemma NodeGives(block: seq<byte>)
    requires IsBmapBlock(block) && BeU16(block, 4) > 0
    ensures var hdr, visit := HeaderBytes(block), VisitData(block);
      && visit.Interior? && visit.childLevel == BeU16(block, 4) - 1
      && |visit.ptrs| == Min(BeU16(block, 6), Room(|block|, hdr))
      && forall i :: 0 <= i < |visit.ptrs| ==>
        visit.ptrs[i] == BeU64(block, hdr + 8 * Room(|block|, hdr) + 8 * i)
  {
    HeaderIs(block);
  }

  /** The root: four header bytes, no magic, and the room computed from the fork's length. */
  lemma RootGives(fork: seq<byte>)
    ensures var ptrs := RootPtrs(fork);
      && |ptrs| == Min(BeU16(fork, 2), Room(|fork|, 4))
      && forall i :: 0 <= i < |ptrs| ==> ptrs[i] == BeU64(fork, 4 + 8 * Room(|fork|, 4) + 8 * i)
  {}
}
