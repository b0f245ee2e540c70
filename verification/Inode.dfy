/** The inode core, as the reader and the analyzer use it. */
module Inode {
  import opened Wrappers
  import opened Words
  import opened Bytes
  import opened Crc
  import opened Superblock

  const XFS_DINODE_MAGIC: u16 := 0x494e
  const V2_LITINO_OFFSET: nat := 100
  const V3_LITINO_OFFSET: nat := 176

  datatype InodeFormat = Dev | Local | Extents | Btree | Other(raw: u8)

  datatype Inode = Inode(
    mode: u16, version: u8, format: InodeFormat, size: u64, nextents: u64,
    diIno: Option<u64>, crcValid: Option<bool>, dataFork: Image)

  function FormatOf(raw: u8): InodeFormat {
    if raw == 0 then Dev
    else if raw == 1 then Local
    else if raw == 2 then Extents
    else if raw == 3 then Btree
    else Other(raw)
  }

  function ParseInode(data: Image, nrext64: bool): Result<Inode> {
    if BeU16(data, 0) != XFS_DINODE_MAGIC then Failure(BadMagic(BeU16(data, 0)))
    else
      var version := U8At(data, 4);
      var isV3 := version >= 3;
      var forkOff := if isV3 then V3_LITINO_OFFSET else V2_LITINO_OFFSET;
      if |data| < forkOff then Failure(Truncated(forkOff, |data|))
      else
        Success(Inode(
          BeU16(data, 2), version, FormatOf(U8At(data, 5)), BeU64(data, 56),
          if nrext64 then BeU64(data, 24) else BeU32(data, 76),
          if isV3 then Some(BeU64(data, 152)) else None,
          CrcStatus(isV3, data, DINODE_CRC_OFF),
          data[forkOff..]))
  }

  /** When the core parses, and where its fields lie. */
  lemma InodeFields(data: Image, nrext64: bool)
    ensures var v3, parsed := U8At(data, 4) >= 3, ParseInode(data, nrext64);
      && (parsed.Success? <==> BeU16(data, 0) == 0x494E && |data| >= (if v3 then 176 else 100))
      && (parsed.Success? ==>
        var inode := parsed.value;
        && inode.mode == BeU16(data, 2) && inode.version == U8At(data, 4) && inode.size == BeU64(data, 56)
        && inode.format == (match U8At(data, 5) case 0 => Dev case 1 => Local case 2 => Extents case 3 => Btree
                            case raw => Other(raw))
        && inode.nextents == (if nrext64 then BeU64(data, 24) else BeU32(data, 76))
        && inode.diIno == (if v3 then Some(BeU64(data, 152)) else None)
        && inode.crcValid == (if v3 then Some(Verifies(data, 100)) else None)
        && inode.dataFork == data[if v3 then 176 else 100..])
  {}

  /** The inode the reader fetches for `ino`; the superblock says which field counts its extents. */
  function ReadInode(image: Image, sb: Superblock, ino: u64): Result<Inode> {
    match sb.InodeSlice(image, ino)
    case Failure(e) => Failure(e)
    case Success(slice) => ParseInode(slice, sb.HasNrext64())
  }

  /** Identity and checksum do not depend on how the extents are counted. */
  lemma CountFieldIrrelevant(slice: Image, a: bool, b: bool)
    ensures ParseInode(slice, a).Success? <==> ParseInode(slice, b).Success?
    ensures ParseInode(slice, a).Success? ==>
      && ParseInode(slice, a).value.diIno == ParseInode(slice, b).value.diIno
      && ParseInode(slice, a).value.crcValid == ParseInode(slice, b).value.crcValid
  {}

  /** `read_inode` fetches the slice at the location; the extent count is where the feature bit says. */
  lemma ReadInodeFields(image: Image, sb: Superblock, ino: u64, at: u64)
    requires at == sb.InodeToLocation(ino).byteOffset
    ensures at + sb.inodesize > |image| ==> ReadInode(image, sb, ino) == Failure(Truncated(SatAdd(at, sb.inodesize), |image|))
    ensures at + sb.inodesize <= |image| ==>
      ReadInode(image, sb, ino) == ParseInode(image[at..at + sb.inodesize],
        sb.versionnum % 16 == 5 && sb.featuresIncompat / 0x20 % 2 == 1)
  {
    SliceAtLocation(sb, image, ino, at);
    FeatureBits(sb);
  }
}
