/** The superblock's geometry and the split of an inode number into a location. */
module Superblock {
  import opened Wrappers
  import opened Words
  import opened Bytes
  import opened Crc

  const XFS_SB_MAGIC: u32 := 0x5846_5342
  const SB_MIN_LEN: nat := 220
  const SB_VERSION2_FTYPE: u32 := 0x200
  const FEAT_INCOMPAT_FTYPE: u32 := 0x1
  const FEAT_INCOMPAT_NREXT64: u32 := 0x20

  datatype InodeLocation = InodeLocation(
    agno: u64, agino: u64, agblock: u64, offset: u64, fsblock: u64, byteOffset: u64)

  datatype Superblock = Superblock(
    blocksize: u32, rootino: u64, agblocks: u32, agcount: u32, versionnum: u16,
    inodesize: u16, inopblog: u8, agblklog: u8, features2: u32, featuresIncompat: u32,
    crcValid: Option<bool>)
  {
    predicate IsV5() {
      And(versionnum, 0x000f) == 5
    }

    predicate HasFtype() {
      if IsV5() then And(featuresIncompat, FEAT_INCOMPAT_FTYPE) != 0
      else And(features2, SB_VERSION2_FTYPE) != 0
    }

    predicate HasNrext64() {
      IsV5() && And(featuresIncompat, FEAT_INCOMPAT_NREXT64) != 0
    }

    /** The split of an inode number; every product and sum saturates. */
    function InodeToLocation(ino: u64): InodeLocation {
      var aginoBits := agblklog + inopblog;
      var agno := Shr(ino, aginoBits);
      var agino := And64(ino, LowMask(aginoBits));
      var agblock := Shr(agino, inopblog);
      var offset := And64(agino, LowMask(inopblog));
      var fsblock := SatAdd(SatMul(agno, agblocks), agblock);
      var byteOffset := SatAdd(SatMul(fsblock, blocksize), SatMul(offset, inodesize));
      InodeLocation(agno, agino, agblock, offset, fsblock, byteOffset)
    }

    /** The inode-sized slice the reader fetches for `ino`. */
    function InodeSlice(image: Image, ino: u64): Result<Image> {
      var start := InodeToLocation(ino).byteOffset;
      var end := SatAdd(start, inodesize);
      match Get(image, start, end)
      case Some(slice) => Success(slice)
      case None => Failure(Truncated(end, |image|))
    }
  }

  function ParseSuperblock(data: seq<byte>): Result<Superblock> {
    if BeU32(data, 0) != XFS_SB_MAGIC then Failure(BadMagic(BeU32(data, 0)))
    else if |data| < SB_MIN_LEN then Failure(Truncated(SB_MIN_LEN, |data|))
    else
      var versionnum := BeU16(data, 100);
      var isV5 := And(versionnum, 0x000f) == 5;
      Success(Superblock(
        BeU32(data, 4), BeU64(data, 56), BeU32(data, 84), BeU32(data, 88), versionnum,
        BeU16(data, 104), U8At(data, 123), U8At(data, 124), BeU32(data, 200), BeU32(data, 216),
        CrcStatus(isV5, data, SB_CRC_OFF)))
  }

  /** When a superblock parses, and where its fields lie. */
  lemma SuperblockFields(data: seq<byte>)
    ensures ParseSuperblock(data).Success? <==> |data| >= 220 && BeU32(data, 0) == 0x5846_5342
    ensures ParseSuperblock(data).Success? ==>
      var sb := ParseSuperblock(data).value;
      && sb.blocksize == BeU32(data, 4) && sb.rootino == BeU64(data, 56)
      && sb.agblocks == BeU32(data, 84) && sb.agcount == BeU32(data, 88)
      && sb.versionnum == BeU16(data, 100) && sb.inodesize == BeU16(data, 104)
      && sb.inopblog == U8At(data, 123) && sb.agblklog == U8At(data, 124)
      && sb.features2 == BeU32(data, 200) && sb.featuresIncompat == BeU32(data, 216)
      && sb.crcValid == (if sb.IsV5() then Some(Verifies(data, 224)) else None)
  {}

  lemma LowNibble(x: nat)
    ensures And(x, 0x000f) == x % 16
  {
    assert Pow2(4) == 16;
    AndOnes(x, 4);
  }

  lemma Bit0(x: nat)
    ensures And(x, 1) == x % 2
  {
    AndOnes(x, 1);
  }

  lemma ThirtySecond(x: nat)
    ensures x / 8 / 2 / 2 == x / 0x20
  {}

  lemma Bit5(x: nat)
    ensures And(x, 0x20) != 0 <==> x / 0x20 % 2 == 1
  {
    ThirtySecond(x);
    AndTimes8(x, 4);
    AndEven(x / 8, 2);
    AndEven(x / 8 / 2, 1);
    Bit0(x / 8 / 2 / 2);
  }

  lemma FiveTwelfth(x: nat)
    ensures x / 8 / 8 / 8 == x / 0x200
  {}

  lemma Bit9(x: nat)
    ensures And(x, 0x200) != 0 <==> x / 0x200 % 2 == 1
  {
    FiveTwelfth(x);
    AndTimes8(x, 64);
    AndTimes8(x / 8, 8);
    AndTimes8(x / 8 / 8, 1);
    Bit0(x / 8 / 8 / 8);
  }

  /** The version is the low four bits; the features are single bits of a field that depends on it. */
  lemma FeatureBits(sb: Superblock)
    ensures sb.IsV5() <==> sb.versionnum % 16 == 5
    ensures sb.HasFtype() <==>
      if sb.versionnum % 16 == 5 then sb.featuresIncompat % 2 == 1 else sb.features2 / 0x200 % 2 == 1
    ensures sb.HasNrext64() <==> sb.versionnum % 16 == 5 && sb.featuresIncompat / 0x20 % 2 == 1
  {
    LowNibble(sb.versionnum);
    Bit0(sb.featuresIncompat);
    Bit5(sb.featuresIncompat);
    Bit9(sb.features2);
  }

  // ------------------------------------------------------ what the split computes

  /** The unclamped block number and byte position of a location. */
  function ExactBlock(sb: Superblock, loc: InodeLocation): nat {
    MulNonNegative(loc.agno, sb.agblocks);
    loc.agno * sb.agblocks + loc.agblock
  }

  function ExactByte(sb: Superblock, loc: InodeLocation): nat {
    MulNonNegative(ExactBlock(sb, loc), sb.blocksize);
    MulNonNegative(loc.offset, sb.inodesize);
    ExactBlock(sb, loc) * sb.blocksize + loc.offset * sb.inodesize
  }

  /**
   The inode number is recovered exactly from (agno, agblock, offset), whatever
   the shift fields are: also when they add up to 64 or more.
   */
  lemma LocationRecoversInode(sb: Superblock, ino: u64)
    ensures var loc := sb.InodeToLocation(ino);
      && loc.offset < Pow2(sb.inopblog)
      && loc.agblock < Pow2(sb.agblklog)
      && loc.agino == loc.agblock * Pow2(sb.inopblog) + loc.offset
      && loc.agino < Pow2(sb.agblklog + sb.inopblog)
      && ino == loc.agno * Pow2(sb.agblklog + sb.inopblog) + loc.agino
  {
    var loc := sb.InodeToLocation(ino);
    var bits := sb.agblklog + sb.inopblog;
    AndMask(ino, bits);
    ShrDivides(ino, bits);
    DivModFact(ino, Pow2(bits));
    AndMask(loc.agino, sb.inopblog);
    ShrDivides(loc.agino, sb.inopblog);
    DivModFact(loc.agino, Pow2(sb.inopblog));
    Pow2Add(sb.agblklog, sb.inopblog);
    if loc.agblock >= Pow2(sb.agblklog) {
      MulMono(Pow2(sb.agblklog), loc.agblock, Pow2(sb.inopblog));
    }
  }

  /** Saturation clamps: both positions are the exact ones or the largest word. */
  lemma LocationIsClamped(sb: Superblock, ino: u64)
    ensures var loc := sb.InodeToLocation(ino);
      && loc.fsblock == Min(U64_MAX, ExactBlock(sb, loc))
      && loc.byteOffset == Min(U64_MAX, ExactByte(sb, loc))
  {
    var loc := sb.InodeToLocation(ino);
    MulNonNegative(loc.agno, sb.agblocks);
    MulNonNegative(loc.fsblock, sb.blocksize);
    MulNonNegative(loc.offset, sb.inodesize);
    if ExactBlock(sb, loc) > U64_MAX {
      if sb.blocksize == 0 {
        assert loc.fsblock * sb.blocksize == 0 && ExactBlock(sb, loc) * sb.blocksize == 0;
      } else {
        MulMono(1, sb.blocksize, U64_MAX);
        MulMono(1, sb.blocksize, ExactBlock(sb, loc));
      }
    }
  }

  /** The reader fetches the inode-sized slice at the location, if it lies in the image. */
  lemma SliceAtLocation(sb: Superblock, image: Image, ino: u64, off: u64)
    requires sb.InodeToLocation(ino).byteOffset == off
    ensures sb.InodeSlice(image, ino).Success? <==> off + sb.inodesize <= |image|
    ensures off + sb.inodesize <= |image| ==> sb.InodeSlice(image, ino) == Success(image[off..off + sb.inodesize])
  {}
}
