/**
 The analyzer's reverse of the inode split: from a byte offset in the image back
 to an allocation group and an inode number, and the proof that under coherent
 geometry the two directions undo each other.
 */
module InodeMap {
  import opened Wrappers
  import opened Words
  import opened Superblock

  function Quot(x: u64, d: nat): u64
    requires d >= 1
  {
    DivShrinks(x, d);
    x / d
  }

  function Rem(x: u64, d: nat): u64
    requires d >= 1
  {
    ModShrinks(x, d);
    x % d
  }

  function OffsetToInode(sb: Superblock, off: u64): Option<(u64, u64)> {
    if sb.blocksize == 0 || sb.agblocks == 0 || sb.inodesize == 0 then None
    else
      match CheckedMul(sb.agblocks, sb.blocksize)
      case None => None
      case Some(agBytes) =>
        MulMono(1, sb.agblocks, sb.blocksize);
        var agno := Quot(off, agBytes);
        var within := Rem(off, agBytes);
        var agblock := Quot(within, sb.blocksize);
        var slot := Quot(Rem(within, sb.blocksize), sb.inodesize);
        var inopblog := sb.inopblog;
        var aginoBits := sb.agblklog + inopblog;
        if inopblog >= 64 || aginoBits >= 64 then None
        else
          var agino := Or64(Shl(agblock, inopblog), slot);
          Some((agno, Or64(Shl(agno, aginoBits), agino)))
  }

  /** For any geometry: when an offset has a number, and its group. */
  lemma NumberedIff(sb: Superblock, off: u64)
    ensures OffsetToInode(sb, off).Some? <==>
      sb.blocksize > 0 && sb.agblocks > 0 && sb.inodesize > 0 && sb.agblklog + sb.inopblog < 64
    ensures OffsetToInode(sb, off).Some? ==>
      sb.agblocks * sb.blocksize > 0 && OffsetToInode(sb, off).value.0 == off / (sb.agblocks * sb.blocksize)
  {
    MulMono(sb.agblocks, 0xFFFF_FFFF, sb.blocksize);
    MulMono(sb.blocksize, 0xFFFF_FFFF, 0xFFFF_FFFF);
    if sb.agblocks > 0 {
      MulMono(1, sb.agblocks, sb.blocksize);
    }
  }

  /**
   Geometry as a formatter writes it: a block holds `2^inopblog` inodes and
   `agblklog` is the logarithm of `agblocks`, rounded up.
   */
  predicate Coherent(sb: Superblock) {
    && sb.inodesize >= 2
    && sb.agblocks > 0
    && sb.blocksize == Pow2(sb.inopblog) * sb.inodesize
    && sb.agblocks <= Pow2(sb.agblklog) < 2 * sb.agblocks
  }

  /** An inode number whose block lies in its group and whose position needs no clamping. */
  predicate ValidInode(sb: Superblock, ino: u64) {
    var loc := sb.InodeToLocation(ino);
    loc.agblock < sb.agblocks && ExactByte(sb, loc) <= U64_MAX
  }

  /** Coherent geometry exists: 4096-byte blocks of eight 512-byte inodes, in groups of 1000 blocks. */
  lemma TypicalGeometry(sb: Superblock)
    requires sb.blocksize == 4096 && sb.inodesize == 512 && sb.inopblog == 3
    requires sb.agblocks == 1000 && sb.agblklog == 10
    ensures Coherent(sb) && sb.InodeToLocation(128).byteOffset == 65536 && ValidInode(sb, 128)
  {
    Pow2Widths();
    Pow2Add(8, 2);
    assert Pow2(3) == 8 && Pow2(2) == 4;
    LocationOf128(sb);
    LocationIsClamped(sb, 128);
  }

  lemma LocationOf128(sb: Superblock)
    requires sb.inopblog == 3 && sb.agblklog == 10
    ensures var loc := sb.InodeToLocation(128); loc.agno == 0 && loc.agblock == 16 && loc.offset == 0
  {
    LocationRecoversInode(sb, 128);
    var loc := sb.InodeToLocation(128);
    Pow2Widths();
    Pow2Add(8, 5);
    assert Pow2(3) == 8 && Pow2(5) == 32;
    DivModUnique(128, 8192, loc.agno, loc.agino);
    DivModUnique(128, 8192, 0, 128);
  }

  // ------------------------------------------------------------------ the layout

  lemma BlockHolds(sb: Superblock, slot: nat)
    requires Coherent(sb) && slot < Pow2(sb.inopblog)
    ensures 0 <= slot * sb.inodesize <= sb.blocksize - sb.inodesize
  {
    MulMono(slot + 1, Pow2(sb.inopblog), sb.inodesize);
    MulSucc(slot, sb.inodesize);
    MulNonNegative(slot, sb.inodesize);
  }

  lemma SplitBlock(block: nat, bs: nat, agb: nat, rest: nat, off: nat)
    requires agb > 0 && rest < bs && off == block * bs + rest
    ensures agb * bs > 0
    ensures off / (agb * bs) == block / agb
    ensures off % (agb * bs) == (block % agb) * bs + rest
  {
    var q, r := block / agb, block % agb;
    DivModFact(block, agb);
    MulDistributes(q * agb, r, bs);
    MulAssociates(q, agb, bs);
    MulMono(r + 1, agb, bs);
    MulSucc(r, bs);
    MulNonNegative(r, bs);
    DivModUnique(off, agb * bs, q, r * bs + rest);
  }

  /** Byte position of (agno, agblock, slot) plus `extra` inside the slot, and its decomposition. */
  lemma PositionSplits(sb: Superblock, agno: nat, agblock: nat, slot: nat, extra: nat, off: nat)
    requires Coherent(sb) && agblock < sb.agblocks && slot < Pow2(sb.inopblog) && extra < sb.inodesize
    requires off == (agno * sb.agblocks + agblock) * sb.blocksize + slot * sb.inodesize + extra
    ensures sb.agblocks * sb.blocksize > 0 && sb.blocksize > 0
    ensures off / (sb.agblocks * sb.blocksize) == agno
    ensures off % (sb.agblocks * sb.blocksize) / sb.blocksize == agblock
    ensures off % (sb.agblocks * sb.blocksize) % sb.blocksize / sb.inodesize == slot
    ensures off % sb.inodesize == extra
  {
    var rest := slot * sb.inodesize + extra;
    var block := agno * sb.agblocks + agblock;
    BlockHolds(sb, slot);
    MulNonNegative(agno, sb.agblocks);
    DivModUnique(block, sb.agblocks, agno, agblock);
    SplitBlock(block, sb.blocksize, sb.agblocks, rest, off);
    DivModUnique(agblock * sb.blocksize + rest, sb.blocksize, agblock, rest);
    DivModUnique(rest, sb.inodesize, slot, extra);
    SlotAligned(sb, block, slot);
    DivModFact(off - extra, sb.inodesize);
    DivModUnique(off, sb.inodesize, (off - extra) / sb.inodesize, extra);
  }

  lemma SlotAligned(sb: Superblock, block: nat, slot: nat)
    requires Coherent(sb)
    ensures (block * sb.blocksize + slot * sb.inodesize) % sb.inodesize == 0
  {
    var k, isz := Pow2(sb.inopblog), sb.inodesize;
    MulNonNegative(block, k);
    MulAssociates(block, k, isz);
    MulDistributes(block * k, slot, isz);
    DivModUnique((block * k + slot) * isz, isz, block * k + slot, 0);
  }

  lemma ShiftsBelow64(sb: Superblock)
    requires Coherent(sb)
    ensures sb.inopblog + sb.agblklog < 64
  {
    Pow2Widths();
    MulMono(2, sb.inodesize, Pow2(sb.inopblog));
    assert 2 * Pow2(sb.inopblog) <= sb.blocksize;
    if sb.inopblog >= 31 {
      assert 2 * Pow2(31) == Pow2(32);
      Pow2Mono(31, sb.inopblog);
    }
    if sb.agblklog >= 33 {
      assert Pow2(33) == 2 * Pow2(32);
      Pow2Mono(33, sb.agblklog);
    }
  }

  /** An inode number assembled from in-range parts splits back into them. */
  lemma SplitOfParts(sb: Superblock, ino: u64, agno: nat, agblock: nat, slot: nat)
    requires agblock < Pow2(sb.agblklog) && slot < Pow2(sb.inopblog)
    requires ino == agno * Pow2(sb.agblklog + sb.inopblog) + (agblock * Pow2(sb.inopblog) + slot)
    ensures var loc := sb.InodeToLocation(ino);
      loc.agno == agno && loc.agblock == agblock && loc.offset == slot
  {
    var loc := sb.InodeToLocation(ino);
    LocationRecoversInode(sb, ino);
    AginoBelow(sb, agblock, slot);
    DivModUnique(ino, Pow2(sb.agblklog + sb.inopblog), agno, agblock * Pow2(sb.inopblog) + slot);
    DivModUnique(ino, Pow2(sb.agblklog + sb.inopblog), loc.agno, loc.agino);
    DivModUnique(loc.agino, Pow2(sb.inopblog), agblock, slot);
    DivModUnique(loc.agino, Pow2(sb.inopblog), loc.agblock, loc.offset);
  }

  lemma AginoBelow(sb: Superblock, agblock: nat, slot: nat)
    requires agblock < Pow2(sb.agblklog) && slot < Pow2(sb.inopblog)
    ensures 0 <= agblock * Pow2(sb.inopblog) + slot < Pow2(sb.agblklog + sb.inopblog)
  {
    Pow2Add(sb.agblklog, sb.inopblog);
    MulMono(agblock + 1, Pow2(sb.agblklog), Pow2(sb.inopblog));
    assert (agblock + 1) * Pow2(sb.inopblog) == agblock * Pow2(sb.inopblog) + Pow2(sb.inopblog);
    MulNonNegative(agblock, Pow2(sb.inopblog));
  }

  /** The program's shifts and ors assemble the number without losing a bit. */
  lemma PartsAssemble(sb: Superblock, agno: u64, agblock: u64, slot: u64, ino: nat)
    requires sb.agblklog + sb.inopblog < 64
    requires agblock < Pow2(sb.agblklog) && slot < Pow2(sb.inopblog)
    requires ino == agno * Pow2(sb.agblklog + sb.inopblog) + (agblock * Pow2(sb.inopblog) + slot)
    requires ino <= U64_MAX
    ensures Or64(Shl(agno, sb.agblklog + sb.inopblog), Or64(Shl(agblock, sb.inopblog), slot)) == ino
  {
    var bits := sb.agblklog + sb.inopblog;
    AginoBelow(sb, agblock, slot);
    MulNonNegative(agno, Pow2(bits));
    ShlMultiplies(agblock, sb.inopblog);
    OrAdds(agblock, slot, sb.inopblog);
    ShlMultiplies(agno, bits);
    OrAdds(agno, agblock * Pow2(sb.inopblog) + slot, bits);
  }

  /** A group number that occurs in an in-range position fits above the shift. */
  lemma GroupFits(sb: Superblock, agno: nat, agblock: nat, slot: nat, off: nat)
    requires Coherent(sb)
    requires off == (agno * sb.agblocks + agblock) * sb.blocksize + slot * sb.inodesize
    ensures agno * Pow2(sb.agblklog + sb.inopblog) + (agblock * Pow2(sb.inopblog) + slot) <= off
  {
    var k := Pow2(sb.inopblog);
    Pow2Add(sb.agblklog, sb.inopblog);
    DoubledGroup(agno, Pow2(sb.agblklog), sb.agblocks, k);
    var high, low := (agno * sb.agblocks) * k, agblock * k + slot;
    MulNonNegative(agno, sb.agblocks);
    MulNonNegative(agno * sb.agblocks, k);
    MulNonNegative(agblock, k);
    InodesIn(agno * sb.agblocks, agblock, k, sb.inodesize, slot);
    MulMono(2, sb.inodesize, high + low);
  }

  lemma DoubledGroup(agno: nat, a: nat, agb: nat, k: nat)
    requires a < 2 * agb
    ensures agno * (a * k) <= 2 * ((agno * agb) * k)
  {
    MulMono(a, 2 * agb, agno);
    assert agno * (2 * agb) == 2 * (agno * agb);
    MulMono(agno * a, 2 * (agno * agb), k);
    MulAssociates(agno, a, k);
  }

  lemma InodesIn(p: nat, agblock: nat, k: nat, isz: nat, slot: nat)
    ensures (p + agblock) * (k * isz) + slot * isz == (p * k + (agblock * k + slot)) * isz
  {
    MulAssociates(p + agblock, k, isz);
    MulDistributes(p, agblock, k);
    MulNonNegative(p + agblock, k);
    MulDistributes((p + agblock) * k, slot, isz);
  }

  // -------------------------------------------------------------------- theorems

  /** From an inode number to its byte offset and back. */
  lemma InodeThenOffset(sb: Superblock, ino: u64)
    requires Coherent(sb) && ValidInode(sb, ino)
    ensures var loc := sb.InodeToLocation(ino);
      && OffsetToInode(sb, loc.byteOffset) == Some((loc.agno, ino))
      && loc.byteOffset % sb.inodesize == 0
  {
    var loc := sb.InodeToLocation(ino);
    LocationIsClamped(sb, ino);
    LocationRecoversInode(sb, ino);
    ShiftsBelow64(sb);
    PositionSplits(sb, loc.agno, loc.agblock, loc.offset, 0, loc.byteOffset);
    OffsetComputes(sb, loc.byteOffset, loc.agno, loc.agblock, loc.offset, 0);
    PartsAssemble(sb, loc.agno, loc.agblock, loc.offset, ino);
  }

  lemma AgBytesFit(sb: Superblock)
    requires Coherent(sb)
    ensures CheckedMul(sb.agblocks, sb.blocksize) == Some(sb.agblocks * sb.blocksize)
  {
    MulMono(sb.agblocks, 0xFFFF_FFFF, sb.blocksize);
    MulMono(sb.blocksize, 0xFFFF_FFFF, 0xFFFF_FFFF);
  }

  /**
   From a byte offset to an inode number and back: the start of the slot the
   offset lies in, hence the offset itself exactly when it is slot-aligned.
   */
  lemma OffsetThenInode(sb: Superblock, off: u64)
    requires Coherent(sb)
    ensures OffsetToInode(sb, off).Some?
    ensures var (agno, ino) := OffsetToInode(sb, off).value;
      && ValidInode(sb, ino)
      && sb.InodeToLocation(ino).agno == agno
      && sb.InodeToLocation(ino).byteOffset == off - off % sb.inodesize
      && (sb.InodeToLocation(ino).byteOffset == off <==> off % sb.inodesize == 0)
  {
    var agno, agblock, slot, ino := OffsetEncodes(sb, off);
    SplitOfParts(sb, ino, agno, agblock, slot);
    LocationIsClamped(sb, ino);
  }

  /** The reverse map in closed form. */
  lemma OffsetEncodes(sb: Superblock, off: u64) returns (agno: u64, agblock: u64, slot: u64, ino: u64)
    requires Coherent(sb)
    ensures agblock < sb.agblocks && slot < Pow2(sb.inopblog)
    ensures off - off % sb.inodesize == (agno * sb.agblocks + agblock) * sb.blocksize + slot * sb.inodesize
    ensures ino == agno * Pow2(sb.agblklog + sb.inopblog) + (agblock * Pow2(sb.inopblog) + slot)
    ensures OffsetToInode(sb, off) == Some((agno, ino))
  {
    var extra;
    agno, agblock, slot, extra := OffsetParts(sb, off);
    ShiftsBelow64(sb);
    OffsetComputes(sb, off, agno, agblock, slot, extra);
    ModShrinks(off, sb.inodesize);
    ino := InodeOfParts(sb, agno, agblock, slot, off - extra);
    PartsAssemble(sb, agno, agblock, slot, ino);
  }

  lemma OffsetComputes(sb: Superblock, off: u64, agno: u64, agblock: u64, slot: u64, extra: u64)
    requires Coherent(sb) && agblock < sb.agblocks && slot < Pow2(sb.inopblog) && extra < sb.inodesize
    requires off == (agno * sb.agblocks + agblock) * sb.blocksize + slot * sb.inodesize + extra
    requires sb.agblklog + sb.inopblog < 64
    ensures OffsetToInode(sb, off) ==
      Some((agno, Or64(Shl(agno, sb.agblklog + sb.inopblog), Or64(Shl(agblock, sb.inopblog), slot))))
    ensures off % sb.inodesize == extra
  {
    PositionSplits(sb, agno, agblock, slot, extra, off);
    AgBytesFit(sb);
  }

  lemma InodeOfParts(sb: Superblock, agno: u64, agblock: u64, slot: u64, pos: u64) returns (ino: u64)
    requires Coherent(sb)
    requires pos == (agno * sb.agblocks + agblock) * sb.blocksize + slot * sb.inodesize
    ensures ino == agno * Pow2(sb.agblklog + sb.inopblog) + (agblock * Pow2(sb.inopblog) + slot)
  {
    GroupFits(sb, agno, agblock, slot, pos);
    MulNonNegative(agno, Pow2(sb.agblklog + sb.inopblog));
    MulNonNegative(agblock, Pow2(sb.inopblog));
    ino := agno * Pow2(sb.agblklog + sb.inopblog) + (agblock * Pow2(sb.inopblog) + slot);
  }

  lemma OffsetParts(sb: Superblock, off: u64) returns (agno: u64, agblock: u64, slot: u64, extra: u64)
    requires Coherent(sb)
    ensures agblock < sb.agblocks && slot < Pow2(sb.inopblog) && extra < sb.inodesize
    ensures off == (agno * sb.agblocks + agblock) * sb.blocksize + slot * sb.inodesize + extra
  {
    BlockHolds(sb, 0);
    var block, rest := Quot(off, sb.blocksize), Rem(off, sb.blocksize);
    DivModFact(off, sb.blocksize);
    agno, agblock := Quot(block, sb.agblocks), Rem(block, sb.agblocks);
    DivModFact(block, sb.agblocks);
    slot, extra := Quot(rest, sb.inodesize), Rem(rest, sb.inodesize);
    DivModFact(rest, sb.inodesize);
    if slot >= Pow2(sb.inopblog) {
      MulMono(Pow2(sb.inopblog), slot, sb.inodesize);
    }
  }

  /** Distinct valid inodes occupy disjoint byte windows. */
  lemma ValidInodesDisjoint(sb: Superblock, ino1: u64, ino2: u64)
    requires Coherent(sb) && ValidInode(sb, ino1) && ValidInode(sb, ino2) && ino1 != ino2
    ensures var p1, p2 := sb.InodeToLocation(ino1).byteOffset, sb.InodeToLocation(ino2).byteOffset;
      p1 + sb.inodesize <= p2 || p2 + sb.inodesize <= p1
  {
    var p1, p2 := sb.InodeToLocation(ino1).byteOffset, sb.InodeToLocation(ino2).byteOffset;
    InodeThenOffset(sb, ino1);
    InodeThenOffset(sb, ino2);
    assert p1 != p2;
    if p1 < p2 {
      MultiplesApart(p1, p2, sb.inodesize);
    } else {
      MultiplesApart(p2, p1, sb.inodesize);
    }
  }
}
