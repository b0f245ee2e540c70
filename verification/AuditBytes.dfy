/**
 The audit's report in terms of the bytes of the image: for every kind of finding,
 exactly which bytes give rise to it.
 */
module AuditBytes {
  import opened Wrappers
  import opened Words
  import opened Bytes
  import opened Crc
  import opened Superblock
  import opened Inode
  import opened InodeMap
  import opened Sweep
  import opened Audit

  /** Bytes in a group. */
  function GroupSize(sb: Superblock): nat {
    MulNonNegative(sb.agblocks, sb.blocksize);
    sb.agblocks * sb.blocksize
  }

  /** Group `agno` exists, and its base is in the image. */
  predicate Reached(image: Image, sb: Superblock, agno: u64, base: nat) {
    && GroupSize(sb) > 0 && agno < sb.agcount
    && base == agno * GroupSize(sb) < |image|
  }

  lemma GroupSizeIs(sb: Superblock)
    ensures AgBytes(sb) == GroupSize(sb)
  {
    MulMono(sb.agblocks, 0xFFFF_FFFF, sb.blocksize);
    MulMono(sb.blocksize, 0xFFFF_FFFF, 0xFFFF_FFFF);
  }

  /** The sector size: the field at 102 when it is a power of two from 512 up, else 512. */
  lemma SectorSizeMeans(image: seq<byte>)
    ensures SectorSize(image) ==
      if BeU16(image, 102) >= 512 && exists n: nat :: Pow2(n) == BeU16(image, 102) then BeU16(image, 102) else 512
  {
    var raw := BeU16(image, 102);
    SevenPowers();
    if raw >= 512 && exists n: nat :: Pow2(n) == raw {
      var n: nat :| Pow2(n) == raw;
      PowerRange(n, raw);
    }
  }

  lemma SevenPowers()
    ensures Pow2(9) == 0x200 && Pow2(10) == 0x400 && Pow2(11) == 0x800 && Pow2(12) == 0x1000
    ensures Pow2(13) == 0x2000 && Pow2(14) == 0x4000 && Pow2(15) == 0x8000 && Pow2(16) == 0x1_0000
  {
    Pow2Widths();
    assert Pow2(9) == 2 * Pow2(8);
    assert Pow2(10) == 2 * Pow2(9) && Pow2(11) == 2 * Pow2(10) && Pow2(12) == 2 * Pow2(11);
    assert Pow2(13) == 2 * Pow2(12) && Pow2(14) == 2 * Pow2(13) && Pow2(15) == 2 * Pow2(14);
  }

  lemma PowerRange(n: nat, raw: nat)
    requires Pow2(n) == raw && 512 <= raw < 0x1_0000
    ensures 9 <= n <= 15
  {
    SevenPowers();
    Pow2Widths();
    if n >= 16 {
      Pow2Mono(16, n);
    } else if n <= 8 {
      Pow2Mono(n, 8);
    }
  }

  lemma SectorFits(image: Image, off: u64, sect: nat)
    requires sect <= 0x8000
    ensures Sector(image, off, sect) == if off + sect <= |image| then Some(image[off..off + sect]) else None
  {}

  // --------------------------------------------------------- from the report to the groups

  lemma {:induction false} InSomeGroup(at: Group, agno: u64, n: u64, x: Anomaly) returns (g: u64)
    requires agno <= n && x in Groups(at, agno, n)
    ensures agno <= g < n && x in at(g)
    decreases n - agno
  {
    if x in at(agno) {
      g := agno;
    } else {
      g := InSomeGroup(at, agno + 1, n, x);
    }
  }

  lemma {:induction false} InGroups(at: Group, agno: u64, n: u64, g: u64, x: Anomaly)
    requires agno <= g < n && x in at(g)
    ensures x in Groups(at, agno, n)
    decreases n - agno
  {
    if agno < g {
      InGroups(at, agno + 1, n, g, x);
    }
  }

  /** Some reached group finds it. */
  ghost predicate FoundInGroup(image: Image, sb: Superblock, x: Anomaly) {
    exists agno: u64, base: u64 ::
      Reached(image, sb, agno, base) && x in GroupFindings(image, sb, SectorSize(image), agno, base)
  }

  lemma ReachedIffVisited(image: Image, sb: Superblock, agno: u64)
    requires GroupSize(sb) > 0
    ensures AgBytes(sb) > 0
    ensures agno < GroupsVisited(sb.agcount, AgBytes(sb), |image|) <==>
      agno < sb.agcount && 0 <= agno * GroupSize(sb) < |image|
    ensures 0 <= agno * GroupSize(sb) < |image| ==> SatMul(agno, AgBytes(sb)) == agno * GroupSize(sb)
  {
    GroupSizeIs(sb);
    MulNonNegative(agno, GroupSize(sb));
    VisitedExactly(sb.agcount, AgBytes(sb), |image|, agno);
  }

  lemma GroupFindingsExactly(image: Image, sb: Superblock, x: Anomaly)
    ensures x in AllGroupFindings(image, sb) <==> FoundInGroup(image, sb, x)
  {
    GroupSizeIs(sb);
    if GroupSize(sb) > 0 {
      var at := GroupsOf(image, sb, SectorSize(image));
      var n := GroupsVisited(sb.agcount, AgBytes(sb), |image|);
      WalkVisits(at, 0, sb.agcount, AgBytes(sb), |image|);
      if x in AllGroupFindings(image, sb) {
        var g := InSomeGroup(at, 0, n, x);
        ReachedIffVisited(image, sb, g);
        assert Reached(image, sb, g, SatMul(g, AgBytes(sb)));
      }
      if agno: u64, base: u64 :|
        Reached(image, sb, agno, base) && x in GroupFindings(image, sb, SectorSize(image), agno, base)
      {
        ReachedIffVisited(image, sb, agno);
        InGroups(at, 0, n, agno, x);
      }
    }
  }

  // ------------------------------------------------------------- the group inode header

  /** A sector of the image that starts with this magic. */
  predicate SectorAt(image: Image, off: nat, sect: nat, magic: u32) {
    off + sect <= |image| && BeU32(image, off) == magic
  }

  lemma AgiOfSector(sector: seq<byte>, isV5: bool)
    requires |sector| >= 512
    ensures ParseAgi(sector, isV5).Success? <==> BeU32(sector, 0) == 0x5841_4749
    ensures ParseAgi(sector, isV5).Success? ==>
      var agi := ParseAgi(sector, isV5).value;
      && agi.crcValid == (if isV5 then Some(Verifies(sector, 312)) else None)
      && |agi.unlinked| == 64
      && forall b :: 0 <= b < 64 ==> agi.unlinked[b] == BeU32(sector, 40 + 4 * b)
  {}

  lemma AgiInImage(image: Image, sector: seq<byte>, off: u64, sect: nat, b: nat)
    requires 512 <= sect <= 0x8000 && off + sect <= |image| && sector == image[off..off + sect] && b < 64
    ensures BeU32(sector, 0) == BeU32(image, off)
    ensures BeU32(sector, 40 + 4 * b) == BeU32(image, off + 40 + 4 * b)
  {
    PartU32(image, sector, off, 0);
    PartU32(image, sector, off, 40 + 4 * b);
  }

  /** The header of the group at `base` is the third sector of the group. */
  lemma AgiPlace(image: Image, isV5: bool, sect: nat, base: u64, off: u64)
    requires 512 <= sect <= 0x8000 && base < |image| && off == base + 2 * sect
    ensures SatAdd(base, SatMul(sect, 2)) == off
    ensures AgiAt(image, isV5, sect, base).Some? <==> SectorAt(image, off, sect, 0x5841_4749)
    ensures AgiAt(image, isV5, sect, base).Some? ==>
      AgiAt(image, isV5, sect, base).value == ParseAgi(image[off..off + sect], isV5).value
  {
    SectorFits(image, off, sect);
    if off + sect <= |image| {
      AgiOfSector(image[off..off + sect], isV5);
      PartU32(image, image[off..off + sect], off, 0);
    }
  }

  lemma SectorSizeRange(image: seq<byte>)
    ensures 512 <= SectorSize(image) <= 0x8000
  {}

  predicate OrphanBytes(image: Image, off: nat, sect: nat, b: nat, v: u32) {
    SectorAt(image, off, sect, 0x5841_4749) && b < 64 && BeU32(image, off + 40 + 4 * b) == v != 0xffff_ffff
  }

  lemma OrphanInAgi(image: Image, isV5: bool, sect: nat, agno: u64, base: u64, off: u64, a: u64, b: nat, v: u32)
    requires 512 <= sect <= 0x8000 && base < |image| && off == base + 2 * sect
    ensures OrphanedInode(a, b, v) in AgiFindings(image, isV5, sect, agno, base) <==>
      a == agno && OrphanBytes(image, off, sect, b, v)
  {
    var agi := AgiAt(image, isV5, sect, base);
    AgiPlace(image, isV5, sect, base, off);
    if agi.Some? {
      var sector := image[off..off + sect];
      AgiOfSector(sector, isV5);
      BucketListed(agno, agi.value.unlinked, 0, OrphanedInode(a, b, v));
      if b < 64 {
        AgiInImage(image, sector, off, sect, b);
      }
    }
  }

  lemma OrphanInGroup(image: Image, sb: Superblock, sect: nat, agno: u64, base: u64, off: u64, a: u64, b: nat, v: u32)
    requires 512 <= sect <= 0x8000 && base < |image| && off == base + 2 * sect
    ensures OrphanedInode(a, b, v) in GroupFindings(image, sb, sect, agno, base) <==>
      a == agno && OrphanBytes(image, off, sect, b, v)
  {
    SecondaryHasOnly(image, sb, sect, agno, base, OrphanedInode(a, b, v));
    OrphanInAgi(image, sb.IsV5(), sect, agno, base, off, a, b, v);
  }

  lemma SecondaryHasOnly(image: Image, sb: Superblock, sect: u64, agno: u64, base: u64, x: Anomaly)
    requires !x.SbMirrorDivergence? && !(x.CrcMismatch? && x.structure == PrimaryOrSecondary)
    ensures x !in SecondaryFindings(image, sb, sect, agno, base)
  {
    var slice := Sector(image, base, sect);
    if agno != 0 && slice.Some? && ParseSuperblock(slice.value).Success? {
      NotInDivergences(agno, base, Checks(sb, ParseSuperblock(slice.value).value), x);
    }
  }

  lemma FromGroups(image: Image, sb: Superblock, x: Anomaly)
    requires Primary(image) == Some(sb) && (x.OrphanedInode? || x.SbMirrorDivergence?
      || (x.CrcMismatch? && (x.structure == Agi || x.structure == Agf)))
    ensures x in AuditFindings(image) <==> FoundInGroup(image, sb, x)
  {
    GroupFindingsExactly(image, sb, x);
    SweepHasOnlyInodes(image, sb, x);
    assert x !in PrimaryFindings(image, sb);
  }

  lemma SweepHasOnlyInodes(image: Image, sb: Superblock, x: Anomaly)
    requires !(x.CrcMismatch? && x.structure == InodeCore)
    ensures x !in SweepFindings(image, sb)
  {
    if x in SweepFindings(image, sb) {
      DivModUnique(0, sb.inodesize, 0, 0);
      var pos := FoundAtSlot(SlotsOf(image, sb), 0, sb.inodesize, |image|, x);
    }
  }

  /** Group `agno` is reached, and `off` is `sectors` sectors into it. */
  predicate GroupSector(image: Image, sb: Superblock, agno: u64, sectors: nat, off: nat) {
    var base := off - sectors * SectorSize(image);
    base >= 0 && Reached(image, sb, agno, base)
  }

  ghost predicate OrphanOnDisk(image: Image, sb: Superblock, agno: u64, b: nat, v: u32) {
    exists off: u64 :: GroupSector(image, sb, agno, 2, off) && OrphanBytes(image, off, SectorSize(image), b, v)
  }

  lemma OrphanOnDiskAt(image: Image, sb: Superblock, agno: u64, base: u64, off: u64, b: nat, v: u32)
    requires Reached(image, sb, agno, base) && off == base + 2 * SectorSize(image)
    requires OrphanBytes(image, off, SectorSize(image), b, v)
    ensures OrphanOnDisk(image, sb, agno, b, v)
  {
    assert GroupSector(image, sb, agno, 2, off);
  }

  lemma OrphanFound(image: Image, sb: Superblock, agno: u64, b: nat, v: u32)
    requires FoundInGroup(image, sb, OrphanedInode(agno, b, v))
    ensures OrphanOnDisk(image, sb, agno, b, v)
  {
    var sect, x := SectorSize(image), OrphanedInode(agno, b, v);
    var g: u64, base: u64 :| Reached(image, sb, g, base) && x in GroupFindings(image, sb, sect, g, base);
    SectorSizeRange(image);
    var off: u64 := base + 2 * sect;
    OrphanInGroup(image, sb, sect, g, base, off, agno, b, v);
    OrphanOnDiskAt(image, sb, g, base, off, b, v);
  }

  lemma OrphanIsFound(image: Image, sb: Superblock, agno: u64, b: nat, v: u32)
    requires OrphanOnDisk(image, sb, agno, b, v)
    ensures FoundInGroup(image, sb, OrphanedInode(agno, b, v))
  {
    var sect := SectorSize(image);
    var off: u64 :| GroupSector(image, sb, agno, 2, off) && OrphanBytes(image, off, sect, b, v);
    SectorSizeRange(image);
    OrphanInGroup(image, sb, sect, agno, off - 2 * sect, off, agno, b, v);
    assert Reached(image, sb, agno, off - 2 * sect);
  }

  /**
   An orphan is reported if and only if its group is reached, the third sector of the
   group starts with the inode header magic, and the bucket holds this number.
   */
  lemma OrphanReportedIff(image: Image, sb: Superblock, agno: u64, b: nat, v: u32)
    requires Primary(image) == Some(sb)
    ensures OrphanedInode(agno, b, v) in AuditFindings(image) <==> OrphanOnDisk(image, sb, agno, b, v)
  {
    FromGroups(image, sb, OrphanedInode(agno, b, v));
    if FoundInGroup(image, sb, OrphanedInode(agno, b, v)) {
      OrphanFound(image, sb, agno, b, v);
    }
    if OrphanOnDisk(image, sb, agno, b, v) {
      OrphanIsFound(image, sb, agno, b, v);
    }
  }

  // ------------------------------------------------------------- checksums of the headers

  /** A sector with this magic whose checksum, at this field, does not verify. */
  predicate BadSector(image: Image, off: nat, sect: nat, magic: u32, field: nat) {
    SectorAt(image, off, sect, magic) && !Verifies(image[off..off + sect], field)
  }

  lemma AgiCrc(image: Image, isV5: bool, sect: nat, agno: u64, base: u64, off: u64)
    requires 512 <= sect <= 0x8000 && base < |image|
    ensures CrcMismatch(Agi, off) in AgiFindings(image, isV5, sect, agno, base) <==>
      isV5 && off == base + 2 * sect && BadSector(image, off, sect, 0x5841_4749, 312)
  {
    var at: u64 := base + 2 * sect;
    AgiPlace(image, isV5, sect, base, at);
    var agi := AgiAt(image, isV5, sect, base);
    if agi.Some? {
      AgiOfSector(image[at..at + sect], isV5);
      BucketListed(agno, agi.value.unlinked, 0, CrcMismatch(Agi, off));
    }
  }

  lemma AgiCrcInGroup(image: Image, sb: Superblock, sect: nat, agno: u64, base: u64, off: u64)
    requires 512 <= sect <= 0x8000 && base < |image|
    ensures CrcMismatch(Agi, off) in GroupFindings(image, sb, sect, agno, base) <==>
      sb.IsV5() && off == base + 2 * sect && BadSector(image, off, sect, 0x5841_4749, 312)
  {
    SecondaryHasOnly(image, sb, sect, agno, base, CrcMismatch(Agi, off));
    AgiCrc(image, sb.IsV5(), sect, agno, base, off);
  }

  lemma AgfOfSector(sector: seq<byte>, isV5: bool)
    requires |sector| >= 512
    ensures ParseAgf(sector, isV5).Success? <==> BeU32(sector, 0) == 0x5841_4746
    ensures ParseAgf(sector, isV5).Success? ==>
      ParseAgf(sector, isV5).value == (if isV5 then Some(Verifies(sector, 216)) else None)
  {}

  lemma AgfOf(image: Image, isV5: bool, sect: nat, base: u64, at: u64, sector: seq<byte>)
    requires 512 <= sect <= 0x8000 && at == base + sect
    requires at + sect <= |image| && sector == image[at..at + sect]
    ensures AgfFindings(image, isV5, sect, base) ==
      if isV5 && BeU32(image, at) == 0x5841_4746 && !Verifies(sector, 216) then [CrcMismatch(Agf, at)] else []
  {
    SectorFits(image, at, sect);
    AgfOfSector(sector, isV5);
    PartU32(image, sector, at, 0);
  }

  lemma AgfCrc(image: Image, isV5: bool, sect: nat, base: u64, off: u64)
    requires 512 <= sect <= 0x8000 && base < |image|
    ensures CrcMismatch(Agf, off) in AgfFindings(image, isV5, sect, base) <==>
      isV5 && off == base + sect && BadSector(image, off, sect, 0x5841_4746, 216)
  {
    var at: u64 := base + sect;
    if at + sect <= |image| {
      AgfOf(image, isV5, sect, base, at, image[at..at + sect]);
    } else {
      AgfOutside(image, isV5, sect, base, at);
    }
  }

  lemma AgfOutside(image: Image, isV5: bool, sect: nat, base: u64, at: u64)
    requires sect <= 0x8000 && at == base + sect && at + sect > |image|
    ensures AgfFindings(image, isV5, sect, base) == []
  {
    SectorFits(image, at, sect);
  }

  lemma AgfCrcInGroup(image: Image, sb: Superblock, sect: nat, agno: u64, base: u64, off: u64)
    requires 512 <= sect <= 0x8000 && base < |image|
    ensures CrcMismatch(Agf, off) in GroupFindings(image, sb, sect, agno, base) <==>
      sb.IsV5() && off == base + sect && BadSector(image, off, sect, 0x5841_4746, 216)
  {
    SecondaryHasOnly(image, sb, sect, agno, base, CrcMismatch(Agf, off));
    AgfCrc(image, sb.IsV5(), sect, base, off);
    AgiHasOnly(image, sb.IsV5(), sect, agno, base, CrcMismatch(Agf, off));
  }

  lemma AgiHasOnly(image: Image, isV5: bool, sect: nat, agno: u64, base: u64, x: Anomaly)
    requires sect <= 0x8000 && !x.OrphanedInode? && !(x.CrcMismatch? && x.structure == Agi)
    ensures x !in AgiFindings(image, isV5, sect, agno, base)
  {
    var agi := AgiAt(image, isV5, sect, base);
    if agi.Some? {
      BucketListed(agno, agi.value.unlinked, 0, x);
    }
  }

  ghost predicate BadHeader(image: Image, sb: Superblock, sectors: nat, off: u64, magic: u32, field: nat) {
    && sb.IsV5()
    && BadSector(image, off, SectorSize(image), magic, field)
    && exists agno: u64 :: GroupSector(image, sb, agno, sectors, off)
  }

  lemma AgiFound(image: Image, sb: Superblock, off: u64)
    requires FoundInGroup(image, sb, CrcMismatch(Agi, off))
    ensures BadHeader(image, sb, 2, off, 0x5841_4749, 312)
  {
    var sect, x := SectorSize(image), CrcMismatch(Agi, off);
    var g: u64, base: u64 :| Reached(image, sb, g, base) && x in GroupFindings(image, sb, sect, g, base);
    SectorSizeRange(image);
    AgiCrcInGroup(image, sb, sect, g, base, off);
    assert GroupSector(image, sb, g, 2, off);
  }

  lemma AgiIsFound(image: Image, sb: Superblock, off: u64)
    requires BadHeader(image, sb, 2, off, 0x5841_4749, 312)
    ensures FoundInGroup(image, sb, CrcMismatch(Agi, off))
  {
    var sect := SectorSize(image);
    var g: u64 :| GroupSector(image, sb, g, 2, off);
    SectorSizeRange(image);
    AgiCrcInGroup(image, sb, sect, g, off - 2 * sect, off);
    assert Reached(image, sb, g, off - 2 * sect);
  }

  /**
   An inode header is reported damaged at an offset if and only if the filesystem is v5
   and a reached group has its third sector there, with the magic, and the checksum at
   byte 312 fails.
   */
  lemma AgiReportedIff(image: Image, sb: Superblock, off: u64)
    requires Primary(image) == Some(sb)
    ensures CrcMismatch(Agi, off) in AuditFindings(image) <==> BadHeader(image, sb, 2, off, 0x5841_4749, 312)
  {
    FromGroups(image, sb, CrcMismatch(Agi, off));
    if FoundInGroup(image, sb, CrcMismatch(Agi, off)) {
      AgiFound(image, sb, off);
    }
    if BadHeader(image, sb, 2, off, 0x5841_4749, 312) {
      AgiIsFound(image, sb, off);
    }
  }

  lemma AgfFound(image: Image, sb: Superblock, off: u64)
    requires FoundInGroup(image, sb, CrcMismatch(Agf, off))
    ensures BadHeader(image, sb, 1, off, 0x5841_4746, 216)
  {
    var sect, x := SectorSize(image), CrcMismatch(Agf, off);
    var g: u64, base: u64 :| Reached(image, sb, g, base) && x in GroupFindings(image, sb, sect, g, base);
    SectorSizeRange(image);
    AgfCrcInGroup(image, sb, sect, g, base, off);
    assert GroupSector(image, sb, g, 1, off);
  }

  lemma AgfIsFound(image: Image, sb: Superblock, off: u64)
    requires BadHeader(image, sb, 1, off, 0x5841_4746, 216)
    ensures FoundInGroup(image, sb, CrcMismatch(Agf, off))
  {
    var sect := SectorSize(image);
    var g: u64 :| GroupSector(image, sb, g, 1, off);
    SectorSizeRange(image);
    AgfCrcInGroup(image, sb, sect, g, off - 1 * sect, off);
    assert Reached(image, sb, g, off - 1 * sect);
  }

  /** A free-space header: the same, in the second sector, with the field at byte 216. */
  lemma AgfReportedIff(image: Image, sb: Superblock, off: u64)
    requires Primary(image) == Some(sb)
    ensures CrcMismatch(Agf, off) in AuditFindings(image) <==> BadHeader(image, sb, 1, off, 0x5841_4746, 216)
  {
    FromGroups(image, sb, CrcMismatch(Agf, off));
    if FoundInGroup(image, sb, CrcMismatch(Agf, off)) {
      AgfFound(image, sb, off);
    }
    if BadHeader(image, sb, 1, off, 0x5841_4746, 216) {
      AgfIsFound(image, sb, off);
    }
  }

  // ----------------------------------------------------------------- the superblocks

  /** The value of a geometry field of the superblock at `off`. */
  function FieldAt(image: Image, off: nat, field: Field): u64 {
    match field
    case AgBlocks => BeU32(image, off + 84)
    case AgCount => BeU32(image, off + 88)
    case BlockSize => BeU32(image, off + 4)
    case InodeSize => BeU16(image, off + 104)
  }

  function FieldOf(sb: Superblock, field: Field): u64 {
    match field
    case AgBlocks => sb.agblocks
    case AgCount => sb.agcount
    case BlockSize => sb.blocksize
    case InodeSize => sb.inodesize
  }

  lemma FieldsInImage(image: Image, part: seq<byte>, off: nat, field: Field)
    requires off + |part| <= |image| && part == image[off..off + |part|]
    requires ParseSuperblock(part).Success?
    ensures FieldOf(ParseSuperblock(part).value, field) == FieldAt(image, off, field)
  {
    SuperblockFields(part);
    match field
    case AgBlocks => PartU32(image, part, off, 84);
    case AgCount => PartU32(image, part, off, 88);
    case BlockSize => PartU32(image, part, off, 4);
    case InodeSize => PartU16(image, part, off, 104);
  }

  /** The bytes the primary's checksum covers. */
  function PrimarySector(image: Image): seq<byte> {
    image[..Min(SectorSize(image), |image|)]
  }

  lemma PrimaryFields(image: Image, sb: Superblock, field: Field)
    requires Primary(image) == Some(sb)
    ensures FieldOf(sb, field) == FieldAt(image, 0, field)
  {
    var part := image[..Min(SectorSize(image), |image|)];
    assert part == image[0..|part|];
    FieldsInImage(image, part, 0, field);
  }

  lemma CrcOfSuperblock(sector: seq<byte>)
    requires ParseSuperblock(sector).Success?
    ensures ParseSuperblock(sector).value.crcValid == Some(false) <==>
      BeU16(sector, 100) % 16 == 5 && !Verifies(sector, 224)
  {
    SuperblockFields(sector);
    FeatureBits(ParseSuperblock(sector).value);
  }

  lemma SecondaryParses(image: Image, sector: seq<byte>, off: u64, sect: nat)
    requires 512 <= sect && off + sect <= |image| && sector == image[off..off + sect]
    ensures ParseSuperblock(sector).Success? <==> BeU32(image, off) == 0x5846_5342
    ensures BeU16(sector, 100) == BeU16(image, off + 100)
  {
    SuperblockFields(sector);
    PartU32(image, sector, off, 0);
    PartU16(image, sector, off, 100);
  }

  predicate Diverges(x: Anomaly, agno: u64, off: u64, check: (Field, u64, u64)) {
    x == SbMirrorDivergence(agno, check.0, check.1, check.2, off) && check.1 != check.2
  }

  lemma {:induction false} DivergencesExactly(agno: u64, off: u64, checks: seq<(Field, u64, u64)>, x: Anomaly)
    ensures x in Divergences(agno, off, checks) <==> exists k :: 0 <= k < |checks| && Diverges(x, agno, off, checks[k])
    decreases |checks|
  {
    if checks != [] {
      var rest := checks[1..];
      DivergencesExactly(agno, off, rest, x);
      var head := if checks[0].1 != checks[0].2
                  then [SbMirrorDivergence(agno, checks[0].0, checks[0].1, checks[0].2, off)] else [];
      InAppend(head, Divergences(agno, off, rest), x);
      if k :| 0 <= k < |rest| && Diverges(x, agno, off, rest[k]) {
        assert Diverges(x, agno, off, checks[k + 1]);
      }
      if k :| 0 <= k < |checks| && Diverges(x, agno, off, checks[k]) {
        assert k > 0 ==> Diverges(x, agno, off, rest[k - 1]);
      }
    }
  }

  /** A divergence carries the primary's value as primary and the secondary's as secondary. */
  lemma DivergenceListed(agno: u64, off: u64, p: Superblock, s: Superblock, x: Anomaly)
    requires x.SbMirrorDivergence?
    ensures x in Divergences(agno, off, Checks(p, s)) <==>
      && x.agno == agno && x.offset == off
      && x.primary == FieldOf(p, x.field) && x.secondary == FieldOf(s, x.field) && x.primary != x.secondary
  {
    var checks := Checks(p, s);
    DivergencesExactly(agno, off, checks, x);
    match x.field
    case AgBlocks => assert checks[0].0 == AgBlocks;
    case AgCount => assert checks[1].0 == AgCount;
    case BlockSize => assert checks[2].0 == BlockSize;
    case InodeSize => assert checks[3].0 == InodeSize;
  }

  /** The rest of the primary: its version and the shifts. */
  lemma PrimaryVersion(image: Image, sb: Superblock)
    requires Primary(image) == Some(sb)
    ensures sb.IsV5() <==> BeU16(image, 100) % 16 == 5
    ensures sb.inopblog == U8At(image, 123) && sb.agblklog == U8At(image, 124)
  {
    var part := PrimarySector(image);
    assert part == image[0..|part|];
    SuperblockFields(part);
    FeatureBits(sb);
    PartU16(image, part, 0, 100);
  }

  /** A v5 superblock in the sector at `off` whose checksum fails. */
  predicate BadSuperblock(image: Image, off: nat, sect: nat) {
    BadSector(image, off, sect, 0x5846_5342, 224) && BeU16(image, off + 100) % 16 == 5
  }

  lemma CrcInSecondary(image: Image, sb: Superblock, sect: nat, agno: u64, base: u64, sector: seq<byte>, off: u64)
    requires 512 <= sect <= 0x8000 && base + sect <= |image| && sector == image[base..base + sect]
    ensures CrcMismatch(PrimaryOrSecondary, off) in SecondaryFindings(image, sb, sect, agno, base) <==>
      && agno >= 1 && off == base && sb.IsV5()
      && ParseSuperblock(sector).Success? && ParseSuperblock(sector).value.crcValid == Some(false)
  {
    SectorFits(image, base, sect);
    if ParseSuperblock(sector).Success? {
      NotInDivergences(agno, base, Checks(sb, ParseSuperblock(sector).value), CrcMismatch(PrimaryOrSecondary, off));
    }
  }

  lemma BadSecondaryBytes(image: Image, base: u64, sect: nat, sector: seq<byte>)
    requires 512 <= sect && base + sect <= |image| && sector == image[base..base + sect]
    ensures ParseSuperblock(sector).Success? && ParseSuperblock(sector).value.crcValid == Some(false) <==>
      BadSuperblock(image, base, sect)
  {
    SecondaryParses(image, sector, base, sect);
    if ParseSuperblock(sector).Success? {
      CrcOfSuperblock(sector);
    }
  }

  lemma SecondaryCrc(image: Image, sb: Superblock, sect: nat, agno: u64, base: u64, off: u64)
    requires 512 <= sect <= 0x8000 && base < |image|
    ensures CrcMismatch(PrimaryOrSecondary, off) in SecondaryFindings(image, sb, sect, agno, base) <==>
      agno >= 1 && off == base && sb.IsV5() && BadSuperblock(image, base, sect)
  {
    if base + sect <= |image| {
      var sector := image[base..base + sect];
      CrcInSecondary(image, sb, sect, agno, base, sector, off);
      BadSecondaryBytes(image, base, sect, sector);
    } else {
      SectorFits(image, base, sect);
    }
  }

  predicate DivergenceBytes(image: Image, sb: Superblock, sect: nat, x: Anomaly)
    requires x.SbMirrorDivergence?
  {
    && x.agno >= 1
    && SectorAt(image, x.offset, sect, 0x5846_5342)
    && x.primary == FieldOf(sb, x.field) && x.secondary == FieldAt(image, x.offset, x.field)
    && x.primary != x.secondary
  }

  lemma SecondaryDivergence(image: Image, sb: Superblock, sect: nat, agno: u64, base: u64, x: Anomaly)
    requires 512 <= sect <= 0x8000 && base < |image| && x.SbMirrorDivergence?
    ensures x in SecondaryFindings(image, sb, sect, agno, base) <==>
      x.agno == agno && x.offset == base && DivergenceBytes(image, sb, sect, x)
  {
    SectorFits(image, base, sect);
    if base + sect <= |image| {
      var sector := image[base..base + sect];
      SecondaryParses(image, sector, base, sect);
      if ParseSuperblock(sector).Success? {
        DivergenceListed(agno, base, sb, ParseSuperblock(sector).value, x);
        FieldsInImage(image, sector, base, x.field);
      }
    }
  }

  lemma OnlyInSecondary(image: Image, sb: Superblock, sect: nat, agno: u64, base: u64, x: Anomaly)
    requires sect <= 0x8000 && (x.SbMirrorDivergence? || (x.CrcMismatch? && x.structure == PrimaryOrSecondary))
    ensures x in GroupFindings(image, sb, sect, agno, base) <==> x in SecondaryFindings(image, sb, sect, agno, base)
  {
    AgiHasOnly(image, sb.IsV5(), sect, agno, base, x);
  }

  /**
   A divergence is reported if and only if its group is reached and not the first, the
   group starts with a superblock, and the two values are those of the field in the
   primary and in that superblock, and differ.
   */
  lemma DivergenceReportedIff(image: Image, sb: Superblock, x: Anomaly)
    requires Primary(image) == Some(sb) && x.SbMirrorDivergence?
    ensures FieldOf(sb, x.field) == FieldAt(image, 0, x.field)
    ensures x in AuditFindings(image) <==>
      Reached(image, sb, x.agno, x.offset) && DivergenceBytes(image, sb, SectorSize(image), x)
  {
    var sect := SectorSize(image);
    SectorSizeRange(image);
    PrimaryFields(image, sb, x.field);
    FromGroups(image, sb, x);
    if FoundInGroup(image, sb, x) {
      var g: u64, base: u64 :| Reached(image, sb, g, base) && x in GroupFindings(image, sb, sect, g, base);
      OnlyInSecondary(image, sb, sect, g, base, x);
      SecondaryDivergence(image, sb, sect, g, base, x);
    }
    if Reached(image, sb, x.agno, x.offset) {
      OnlyInSecondary(image, sb, sect, x.agno, x.offset, x);
      SecondaryDivergence(image, sb, sect, x.agno, x.offset, x);
    }
  }

  /** A group but the first starts at `off` with a bad superblock. */
  ghost predicate BadSecondary(image: Image, sb: Superblock, off: u64) {
    BadSuperblock(image, off, SectorSize(image)) && exists agno: u64 :: agno >= 1 && Reached(image, sb, agno, off)
  }

  lemma SecondaryFoundIff(image: Image, sb: Superblock, off: u64)
    requires sb.IsV5()
    ensures FoundInGroup(image, sb, CrcMismatch(PrimaryOrSecondary, off)) <==> BadSecondary(image, sb, off)
  {
    var sect, x := SectorSize(image), CrcMismatch(PrimaryOrSecondary, off);
    SectorSizeRange(image);
    if FoundInGroup(image, sb, x) {
      var g: u64, base: u64 :| Reached(image, sb, g, base) && x in GroupFindings(image, sb, sect, g, base);
      OnlyInSecondary(image, sb, sect, g, base, x);
      SecondaryCrc(image, sb, sect, g, base, off);
    }
    if BadSecondary(image, sb, off) {
      var g: u64 :| g >= 1 && Reached(image, sb, g, off);
      OnlyInSecondary(image, sb, sect, g, off, x);
      SecondaryCrc(image, sb, sect, g, off, off);
    }
  }

  lemma NotV5NoSecondary(image: Image, sb: Superblock, off: u64)
    requires !sb.IsV5()
    ensures !FoundInGroup(image, sb, CrcMismatch(PrimaryOrSecondary, off))
  {
    var sect, x := SectorSize(image), CrcMismatch(PrimaryOrSecondary, off);
    SectorSizeRange(image);
    if FoundInGroup(image, sb, x) {
      var g: u64, base: u64 :| Reached(image, sb, g, base) && x in GroupFindings(image, sb, sect, g, base);
      OnlyInSecondary(image, sb, sect, g, base, x);
      SecondaryCrc(image, sb, sect, g, base, off);
    }
  }

  lemma PrimaryCrc(image: Image, sb: Superblock)
    requires Primary(image) == Some(sb) && sb.IsV5()
    ensures sb.crcValid == Some(Verifies(PrimarySector(image), 224))
  {
    SuperblockFields(PrimarySector(image));
  }

  /**
   A superblock is reported damaged at an offset if and only if the filesystem is v5
   and the offset is 0 and the first sector fails its checksum, or it is the base of a
   reached group but the first that starts with a v5 superblock failing its own.
   */
  lemma SuperblockReportedIff(image: Image, sb: Superblock, off: u64)
    requires Primary(image) == Some(sb)
    ensures CrcMismatch(PrimaryOrSecondary, off) in AuditFindings(image) <==>
      sb.IsV5() && ((off == 0 && !Verifies(PrimarySector(image), 224)) || BadSecondary(image, sb, off))
  {
    var x := CrcMismatch(PrimaryOrSecondary, off);
    GroupFindingsExactly(image, sb, x);
    SweepHasOnlyInodes(image, sb, x);
    if sb.IsV5() {
      PrimaryCrc(image, sb);
      SecondaryFoundIff(image, sb, off);
    } else {
      NotV5NoSecondary(image, sb, off);
    }
  }

  // --------------------------------------------------------------- geometry and inodes

  /** The count is zero, or the last group's base is not in the image; and how many would fit. */
  predicate GeometryBytes(agcount: u64, group: nat, len: u64, field: Field, value: u64, limit: nat) {
    && field == AgCount && value == agcount
    && if agcount == 0 then limit == 1
       else group > 0 && (agcount - 1) * group >= len && limit == len / group + 1
  }

  lemma GeometryIs(sb: Superblock, len: u64, group: nat, field: Field, value: u64, limit: nat)
    requires AgBytes(sb) == group
    ensures ImpossibleGeometry(field, value, limit) in GeometryFindings(sb, len) <==>
      GeometryBytes(sb.agcount, group, len, field, value, limit)
  {
    if sb.agcount > 0 && group > 0 {
      VisitedExactly(sb.agcount, group, len, sb.agcount - 1);
    }
  }

  /** What an impossible-geometry finding says, exactly. */
  lemma GeometryReportedExactly(image: Image, sb: Superblock, field: Field, value: u64, limit: nat)
    requires Primary(image) == Some(sb)
    ensures ImpossibleGeometry(field, value, limit) in AuditFindings(image) <==>
      GeometryBytes(sb.agcount, GroupSize(sb), |image|, field, value, limit)
  {
    GroupSizeIs(sb);
    GeometryIsFromPrimary(image, sb, ImpossibleGeometry(field, value, limit));
    GeometryIs(sb, |image|, GroupSize(sb), field, value, limit);
  }

  /** The slot holds an inode of version 3 or later that has this number and fails its checksum. */
  predicate BadInodeBytes(image: Image, off: nat, size: nat, ino: u64)
    requires off + size <= |image|
  {
    && BeU16(image, off) == 0x494E
    && U8At(image, off + 4) >= 3
    && BeU64(image, off + 152) == ino
    && !Verifies(image[off..off + size], 100)
  }

  lemma BadSlice(slice: Image, ino: u64)
    requires |slice| >= 176
    ensures var parsed := ParseInode(slice, false);
      parsed.Success? && parsed.value.diIno == Some(ino) && parsed.value.crcValid == Some(false) <==>
        BeU16(slice, 0) == 0x494E && U8At(slice, 4) >= 3 && BeU64(slice, 152) == ino && !Verifies(slice, 100)
  {
    InodeFields(slice, false);
  }

  lemma InodeFieldsInImage(image: Image, slice: seq<byte>, off: u64)
    requires |slice| >= 176 && off + |slice| <= |image| && slice == image[off..off + |slice|]
    ensures BeU16(slice, 0) == BeU16(image, off) && U8At(slice, 4) == U8At(image, off + 4)
    ensures BeU64(slice, 152) == BeU64(image, off + 152)
  {
    PartU16(image, slice, off, 0);
    PartU64(image, slice, off, 152);
  }

  lemma BadSlotHasBytes(image: Image, sb: Superblock, off: u64, slice: Image, ino: u64)
    requires sb.inodesize >= 176 && off + sb.inodesize <= |image| && slice == image[off..off + sb.inodesize]
    requires BadInodeAt(image, sb, off) && ino == OffsetToInode(sb, off).value.1
    ensures BadInodeBytes(image, off, sb.inodesize, ino)
  {
    InodeFieldsInImage(image, slice, off);
    BadSlice(slice, ino);
  }

  lemma BytesMakeBadSlot(image: Image, sb: Superblock, off: u64, slice: Image, ino: u64)
    requires sb.inodesize >= 176 && off + sb.inodesize <= |image| && slice == image[off..off + sb.inodesize]
    requires OffsetToInode(sb, off).Some? && ino == OffsetToInode(sb, off).value.1
    requires BadInodeBytes(image, off, sb.inodesize, ino)
    ensures BadInodeAt(image, sb, off)
  {
    InodeFieldsInImage(image, slice, off);
    BadSlice(slice, ino);
  }

  lemma BadSlotIffSlice(image: Image, sb: Superblock, off: u64, slice: Image, ino: u64)
    requires sb.inodesize >= 176 && off + sb.inodesize <= |image| && slice == image[off..off + sb.inodesize]
    requires OffsetToInode(sb, off).Some? && ino == OffsetToInode(sb, off).value.1
    ensures BadInodeAt(image, sb, off) <==> BadInodeBytes(image, off, sb.inodesize, ino)
  {
    if BadInodeAt(image, sb, off) {
      BadSlotHasBytes(image, sb, off, slice, ino);
    }
    if BadInodeBytes(image, off, sb.inodesize, ino) {
      BytesMakeBadSlot(image, sb, off, slice, ino);
    }
  }

  lemma NoPlaceNotBad(image: Image, sb: Superblock, off: u64)
    requires off + sb.inodesize <= |image| && OffsetToInode(sb, off).None?
    ensures !BadInodeAt(image, sb, off)
  {}

  lemma BadSlotIffBytes(image: Image, sb: Superblock, off: u64)
    requires sb.inodesize >= 176 && off + sb.inodesize <= |image|
    ensures BadInodeAt(image, sb, off) <==>
      OffsetToInode(sb, off).Some? && BadInodeBytes(image, off, sb.inodesize, OffsetToInode(sb, off).value.1)
  {
    if OffsetToInode(sb, off).Some? {
      BadSlotIffSlice(image, sb, off, image[off..off + sb.inodesize], OffsetToInode(sb, off).value.1);
    } else {
      NoPlaceNotBad(image, sb, off);
    }
  }

  /** A whole aligned slot that has a number, and holds a bad inode of that number. */
  predicate BadSlot(image: Image, sb: Superblock, off: u64) {
    && sb.inodesize >= 176 && off % sb.inodesize == 0 && off + sb.inodesize <= |image|
    && OffsetToInode(sb, off).Some?
    && BadInodeBytes(image, off, sb.inodesize, OffsetToInode(sb, off).value.1)
  }

  /** For any geometry: on a v5 filesystem the inode findings are exactly the bad slots. */
  lemma InodeReportedIff(image: Image, sb: Superblock, off: u64)
    requires Primary(image) == Some(sb) && sb.IsV5()
    ensures CrcMismatch(InodeCore, off) in AuditFindings(image) <==> BadSlot(image, sb, off)
  {
    if sb.inodesize >= 176 {
      FoundIffBadSlot(image, sb, off);
      if off + sb.inodesize <= |image| {
        BadSlotIffBytes(image, sb, off);
      }
    } else {
      InodeFindingIsFromSweep(image, sb, off);
    }
  }

  /** On an earlier one there are none. */
  lemma NoInodeReportedBeforeV5(image: Image, sb: Superblock, off: u64)
    requires Primary(image) == Some(sb) && !sb.IsV5()
    ensures CrcMismatch(InodeCore, off) !in AuditFindings(image)
  {
    InodeFindingIsFromSweep(image, sb, off);
  }
}
