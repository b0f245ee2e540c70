/**
 The image auditor: the primary superblock, every allocation group that lies in
 the image, and the sweep of the inode slots.
 */
module Audit {
  import opened Wrappers
  import opened Words
  import opened Bytes
  import opened Crc
  import opened Superblock
  import opened Inode
  import opened InodeMap
  import opened Sweep

  const XFS_AGF_MAGIC: u32 := 0x5841_4746
  const XFS_AGI_MAGIC: u32 := 0x5841_4749
  const AGF_MIN_LEN: nat := 96
  const AGI_UNLINKED_OFF: nat := 40
  const UNLINKED_BUCKETS: nat := 64
  const AGI_MIN_LEN: nat := 296
  const NULL_AGINO: u32 := 0xffff_ffff

  datatype Structure = PrimaryOrSecondary | Agf | Agi | InodeCore

  datatype Field = AgBlocks | AgCount | BlockSize | InodeSize

  datatype Anomaly =
    | CrcMismatch(structure: Structure, offset: u64)
    | SbMirrorDivergence(agno: u64, field: Field, primary: u64, secondary: u64, offset: u64)
    | OrphanedInode(agno: u64, bucket: nat, agino: u32)
    | ImpossibleGeometry(field: Field, value: u64, limit: nat)

  // ------------------------------------------------------------- the group headers

  /** The CRC status of an AGF sector. */
  function ParseAgf(data: seq<byte>, isV5: bool): Result<Option<bool>> {
    if BeU32(data, 0) != XFS_AGF_MAGIC then Failure(BadMagic(BeU32(data, 0)))
    else if |data| < AGF_MIN_LEN then Failure(Truncated(AGF_MIN_LEN, |data|))
    else Success(CrcStatus(isV5, data, AGF_CRC_OFF))
  }

  datatype AgiHeader = AgiHeader(unlinked: seq<u32>, crcValid: Option<bool>)

  function ParseAgi(data: seq<byte>, isV5: bool): (r: Result<AgiHeader>)
    ensures r.Success? ==> |r.value.unlinked| == UNLINKED_BUCKETS
  {
    if BeU32(data, 0) != XFS_AGI_MAGIC then Failure(BadMagic(BeU32(data, 0)))
    else if |data| < AGI_MIN_LEN then Failure(Truncated(AGI_MIN_LEN, |data|))
    else Success(AgiHeader(
      seq(UNLINKED_BUCKETS, i requires 0 <= i => BeU32(data, AGI_UNLINKED_OFF + i * 4)),
      CrcStatus(isV5, data, AGI_CRC_OFF)))
  }

  /** The sector size field, or 512 when it is not a power of two from 512 up. */
  function SectorSize(image: seq<byte>): nat {
    var raw := BeU16(image, 102);
    if raw in {0x200, 0x400, 0x800, 0x1000, 0x2000, 0x4000, 0x8000} then raw else 512
  }

  // ---------------------------------------------------------- findings of one group

  function Checks(p: Superblock, s: Superblock): seq<(Field, u64, u64)> {
    [(AgBlocks, p.agblocks, s.agblocks), (AgCount, p.agcount, s.agcount),
     (BlockSize, p.blocksize, s.blocksize), (InodeSize, p.inodesize, s.inodesize)]
  }

  function Divergences(agno: u64, offset: u64, checks: seq<(Field, u64, u64)>): seq<Anomaly> {
    if checks == [] then []
    else
      var (field, p, s) := checks[0];
      (if p != s then [SbMirrorDivergence(agno, field, p, s, offset)] else [])
        + Divergences(agno, offset, checks[1..])
  }

  function BadCrc(status: Option<bool>, structure: Structure, offset: u64): seq<Anomaly> {
    if status == Some(false) then [CrcMismatch(structure, offset)] else []
  }

  /** Non-null buckets from `b` on, in order. */
  function Orphans(agno: u64, unlinked: seq<u32>, b: nat): seq<Anomaly>
    requires b <= |unlinked|
    decreases |unlinked| - b
  {
    if b == |unlinked| then []
    else
      (if unlinked[b] != NULL_AGINO then [OrphanedInode(agno, b, unlinked[b])] else [])
        + Orphans(agno, unlinked, b + 1)
  }

  function Sector(image: Image, off: u64, sect: u64): Option<seq<byte>> {
    Get(image, off, SatAdd(off, sect))
  }

  function SecondaryFindings(image: Image, sb: Superblock, sect: u64, agno: u64, base: u64): seq<Anomaly> {
    var slice := Sector(image, base, sect);
    if agno == 0 || slice.None? || ParseSuperblock(slice.value).Failure? then []
    else
      var sec := ParseSuperblock(slice.value).value;
      (if sb.IsV5() then BadCrc(sec.crcValid, PrimaryOrSecondary, base) else [])
        + Divergences(agno, base, Checks(sb, sec))
  }

  function AgfFindings(image: Image, isV5: bool, sect: u64, base: u64): seq<Anomaly> {
    var off := SatAdd(base, sect);
    var slice := Sector(image, off, sect);
    if slice.None? || ParseAgf(slice.value, isV5).Failure? then []
    else BadCrc(ParseAgf(slice.value, isV5).value, Agf, off)
  }

  /** The parsed inode header of the group at `base`. */
  function AgiAt(image: Image, isV5: bool, sect: u64, base: u64): Option<AgiHeader> {
    var slice := Sector(image, SatAdd(base, SatMul(sect, 2)), sect);
    if slice.None? || ParseAgi(slice.value, isV5).Failure? then None
    else Some(ParseAgi(slice.value, isV5).value)
  }

  function AgiFindings(image: Image, isV5: bool, sect: u64, agno: u64, base: u64): seq<Anomaly> {
    var agi := AgiAt(image, isV5, sect, base);
    if agi.None? then []
    else BadCrc(agi.value.crcValid, Agi, SatAdd(base, SatMul(sect, 2))) + Orphans(agno, agi.value.unlinked, 0)
  }

  function GroupFindings(image: Image, sb: Superblock, sect: u64, agno: u64, base: u64): seq<Anomaly> {
    SecondaryFindings(image, sb, sect, agno, base)
      + AgfFindings(image, sb.IsV5(), sect, base)
      + AgiFindings(image, sb.IsV5(), sect, agno, base)
  }

  // ------------------------------------------------------------- the walk of the groups

  function AgBytes(sb: Superblock): u64 {
    SatMul(sb.agblocks, sb.blocksize)
  }

  type Group = u64 -> seq<Anomaly>

  function GroupsOf(image: Image, sb: Superblock, sect: u64): Group {
    (agno: u64) => GroupFindings(image, sb, sect, agno, SatMul(agno, AgBytes(sb)))
  }

  /** Groups from `agno` on, up to the first whose base is not in the image. */
  function WalkGroups(at: Group, agno: u64, agcount: u64, agBytes: u64, len: nat): seq<Anomaly>
    requires agno <= agcount
    decreases agcount - agno
  {
    if agno == agcount || SatMul(agno, agBytes) >= len then []
    else at(agno) + WalkGroups(at, agno + 1, agcount, agBytes, len)
  }

  function GeometryFindings(sb: Superblock, len: u64): seq<Anomaly> {
    if sb.agcount == 0 then [ImpossibleGeometry(AgCount, 0, 1)]
    else if AgBytes(sb) > 0 && SatMul(sb.agcount - 1, AgBytes(sb)) >= len then
      [ImpossibleGeometry(AgCount, sb.agcount, Quot(len, AgBytes(sb)) + 1)]
    else []
  }

  // ------------------------------------------------------------------ the inode sweep

  /** A slot whose inode names itself by its position and fails its checksum. */
  predicate BadInodeAt(image: Image, sb: Superblock, off: u64)
    requires off + sb.inodesize <= |image|
  {
    && BeU16(image, off) == XFS_DINODE_MAGIC
    && var parsed := ParseInode(image[off..off + sb.inodesize], false);
    && parsed.Success?
    && OffsetToInode(sb, off).Some?
    && parsed.value.diIno == Some(OffsetToInode(sb, off).value.1)
    && parsed.value.crcValid == Some(false)
  }

  type Slots = nat -> seq<Anomaly>

  function SlotsOf(image: Image, sb: Superblock): Slots {
    (off: nat) =>
      if off + sb.inodesize <= |image| && BadInodeAt(image, sb, off) then [CrcMismatch(InodeCore, off)] else []
  }

  function SweepFindings(image: Image, sb: Superblock): seq<Anomaly> {
    if sb.IsV5() && sb.inodesize >= 176 then SweepFrom(SlotsOf(image, sb), 0, sb.inodesize, |image|) else []
  }

  // --------------------------------------------------------------------- the audit

  /** The primary superblock, parsed over exactly its sector. */
  function Primary(image: Image): Option<Superblock> {
    if |image| < SB_MIN_LEN || BeU32(image, 0) != XFS_SB_MAGIC then None
    else
      match ParseSuperblock(image[..Min(SectorSize(image), |image|)])
      case Failure(_) => None
      case Success(sb) => Some(sb)
  }

  function AuditFindings(image: Image): seq<Anomaly> {
    match Primary(image)
    case None => []
    case Some(sb) => PrimaryFindings(image, sb) + AllGroupFindings(image, sb) + SweepFindings(image, sb)
  }

  function PrimaryFindings(image: Image, sb: Superblock): seq<Anomaly> {
    (if sb.IsV5() then BadCrc(sb.crcValid, PrimaryOrSecondary, 0) else []) + GeometryFindings(sb, |image|)
  }

  function AllGroupFindings(image: Image, sb: Superblock): seq<Anomaly> {
    if AgBytes(sb) == 0 then []
    else WalkGroups(GroupsOf(image, sb, SectorSize(image)), 0, sb.agcount, AgBytes(sb), |image|)
  }

  // ---------------------------------------------------------------------- the program

  method AuditImage(image: Image) returns (out: seq<Anomaly>)
    ensures out == AuditFindings(image)
  {
    var primary := Primary(image);
    if primary.None? {
      return [];
    }
    var sb := primary.value;
    out := PrimaryFindings(image, sb);
    var groups := AuditAllGroups(image, sb);
    out := out + groups;
    var slots := AuditSlots(image, sb);
    out := out + slots;
  }

  method AuditAllGroups(image: Image, sb: Superblock) returns (out: seq<Anomaly>)
    ensures out == AllGroupFindings(image, sb)
  {
    if AgBytes(sb) == 0 {
      return [];
    }
    var sect := SectorSize(image);
    out := AuditGroups(image, sb, sect, GroupsOf(image, sb, sect));
  }

  method AuditSlots(image: Image, sb: Superblock) returns (out: seq<Anomaly>)
    ensures out == SweepFindings(image, sb)
  {
    if !(sb.IsV5() && sb.inodesize >= 176) {
      return [];
    }
    out := SweepInodes(image, sb, SlotsOf(image, sb));
  }

  ghost predicate Shows(at: Group, image: Image, sb: Superblock, sect: u64) {
    forall agno: u64 {:trigger GroupFindings(image, sb, sect, agno, SatMul(agno, AgBytes(sb)))} ::
      at(agno) == GroupFindings(image, sb, sect, agno, SatMul(agno, AgBytes(sb)))
  }

  method AuditGroups(image: Image, sb: Superblock, sect: u64, ghost at: Group) returns (out: seq<Anomaly>)
    requires Shows(at, image, sb, sect)
    ensures out == WalkGroups(at, 0, sb.agcount, AgBytes(sb), |image|)
  {
    out := [];
    var agno: u64 := 0;
    while agno < sb.agcount
      invariant agno <= sb.agcount
      invariant out + WalkGroups(at, agno, sb.agcount, AgBytes(sb), |image|)
        == WalkGroups(at, 0, sb.agcount, AgBytes(sb), |image|)
    {
      var base := SatMul(agno, AgBytes(sb));
      if base >= |image| {
        break;
      }
      var found := AuditGroup(image, sb, sect, agno, base, at);
      WalkStep(at, agno, sb.agcount, AgBytes(sb), |image|, out);
      out := out + found;
      agno := agno + 1;
    }
  }

  lemma WalkStep(at: Group, agno: u64, agcount: u64, agBytes: u64, len: nat, out: seq<Anomaly>)
    requires agno < agcount && SatMul(agno, agBytes) < len
    ensures out + WalkGroups(at, agno, agcount, agBytes, len)
         == (out + at(agno)) + WalkGroups(at, agno + 1, agcount, agBytes, len)
  {}

  method AuditGroup(image: Image, sb: Superblock, sect: u64, agno: u64, base: u64, ghost at: Group)
    returns (out: seq<Anomaly>)
    requires base == SatMul(agno, AgBytes(sb)) && Shows(at, image, sb, sect)
    ensures out == at(agno)
  {
    var secondary := AuditSecondary(image, sb, sect, agno, base);
    var agf := AgfFindings(image, sb.IsV5(), sect, base);
    var agi := AuditAgi(image, sb.IsV5(), sect, agno, base);
    assert at(agno) == GroupFindings(image, sb, sect, agno, SatMul(agno, AgBytes(sb)));
    out := secondary + agf + agi;
  }

  method AuditSecondary(image: Image, sb: Superblock, sect: u64, agno: u64, base: u64) returns (out: seq<Anomaly>)
    ensures out == SecondaryFindings(image, sb, sect, agno, base)
  {
    if agno == 0 {
      return [];
    }
    var slice := Sector(image, base, sect);
    if slice.None? {
      return [];
    }
    var sec := ParseSuperblock(slice.value);
    if sec.Failure? {
      return [];
    }
    out := if sb.IsV5() then BadCrc(sec.value.crcValid, PrimaryOrSecondary, base) else [];
    out := PushSbDivergence(out, agno, base, sb, sec.value);
  }

  method PushSbDivergence(before: seq<Anomaly>, agno: u64, offset: u64, primary: Superblock, secondary: Superblock)
    returns (out: seq<Anomaly>)
    ensures out == before + Divergences(agno, offset, Checks(primary, secondary))
  {
    out := before;
    var checks := Checks(primary, secondary);
    for i := 0 to |checks|
      invariant out + Divergences(agno, offset, checks[i..]) == before + Divergences(agno, offset, checks)
    {
      var (field, p, s) := checks[i];
      assert checks[i..][1..] == checks[i + 1..];
      if p != s {
        out := out + [SbMirrorDivergence(agno, field, p, s, offset)];
      }
    }
  }

  method AuditAgi(image: Image, isV5: bool, sect: u64, agno: u64, base: u64) returns (out: seq<Anomaly>)
    ensures out == AgiFindings(image, isV5, sect, agno, base)
  {
    var agi := AgiAt(image, isV5, sect, base);
    if agi.None? {
      return [];
    }
    out := BadCrc(agi.value.crcValid, Agi, SatAdd(base, SatMul(sect, 2)));
    out := PushOrphans(out, agno, agi.value.unlinked);
  }

  method PushOrphans(before: seq<Anomaly>, agno: u64, unlinked: seq<u32>) returns (out: seq<Anomaly>)
    ensures out == before + Orphans(agno, unlinked, 0)
  {
    out := before;
    for b := 0 to |unlinked|
      invariant out + Orphans(agno, unlinked, b) == before + Orphans(agno, unlinked, 0)
    {
      if unlinked[b] != NULL_AGINO {
        out := out + [OrphanedInode(agno, b, unlinked[b])];
      }
    }
  }

  ghost predicate Sweeps(slots: Slots, image: Image, sb: Superblock) {
    forall off: nat {:trigger BadInodeAt(image, sb, off)} :: off + sb.inodesize <= |image| ==>
      slots(off) == if BadInodeAt(image, sb, off) then [CrcMismatch(InodeCore, off)] else []
  }

  method SweepInodes(image: Image, sb: Superblock, ghost slots: Slots) returns (out: seq<Anomaly>)
    requires sb.inodesize > 0 && Sweeps(slots, image, sb)
    ensures out == SweepFrom(slots, 0, sb.inodesize, |image|)
  {
    out := [];
    var off: u64 := 0;
    while off + sb.inodesize <= |image|
      invariant out + SweepFrom(slots, off, sb.inodesize, |image|) == SweepFrom(slots, 0, sb.inodesize, |image|)
      decreases |image| - off
    {
      var found := AuditSlot(image, sb, off, slots);
      SweepStep(slots, off, sb.inodesize, |image|, out);
      out := out + found;
      off := off + sb.inodesize;
    }
  }

  method AuditSlot(image: Image, sb: Superblock, off: u64, ghost slots: Slots) returns (out: seq<Anomaly>)
    requires off + sb.inodesize <= |image| && Sweeps(slots, image, sb)
    ensures out == slots(off)
  {
    out := if BadInodeAt(image, sb, off) then [CrcMismatch(InodeCore, off)] else [];
  }

  /** There is something to audit exactly when the image can hold a superblock and starts with its magic. */
  lemma PrimaryIff(image: Image)
    ensures Primary(image).Some? <==> |image| >= 220 && BeU32(image, 0) == XFS_SB_MAGIC
  {
    if |image| >= 220 {
      assert image[..Min(SectorSize(image), |image|)][0..4] == image[0..4];
    }
  }

  // --------------------------------------------------- which groups the walk visits

  /** The groups whose base lies in the image: they come first, and their number is exact. */
  function GroupsVisited(agcount: u64, agBytes: u64, len: u64): u64
    requires agBytes > 0
  {
    DivShrinks(len + agBytes - 1, agBytes);
    Min(agcount, (len + agBytes - 1) / agBytes)
  }

  lemma VisitedExactly(agcount: u64, agBytes: u64, len: u64, agno: u64)
    requires agBytes > 0
    ensures agno < GroupsVisited(agcount, agBytes, len) <==> agno < agcount && agno * agBytes < len
    ensures agno * agBytes < len <==> SatMul(agno, agBytes) < len
  {
    var q := (len + agBytes - 1) / agBytes;
    DivModFact(len + agBytes - 1, agBytes);
    if agno < q {
      MulMono(agno + 1, q, agBytes);
      MulSucc(agno, agBytes);
    } else {
      MulMono(q, agno, agBytes);
    }
    MulNonNegative(agno, agBytes);
  }

  function Groups(at: Group, agno: u64, n: u64): seq<Anomaly>
    requires agno <= n
    decreases n - agno
  {
    if agno == n then [] else at(agno) + Groups(at, agno + 1, n)
  }

  /** The walk visits exactly the groups whose base is below the image length, in order. */
  lemma {:induction false} WalkVisits(at: Group, agno: u64, agcount: u64, agBytes: u64, len: u64)
    requires agBytes > 0 && agno <= GroupsVisited(agcount, agBytes, len)
    ensures WalkGroups(at, agno, agcount, agBytes, len) == Groups(at, agno, GroupsVisited(agcount, agBytes, len))
    decreases agcount - agno
  {
    VisitedExactly(agcount, agBytes, len, agno);
    if agno < GroupsVisited(agcount, agBytes, len) {
      WalkVisits(at, agno + 1, agcount, agBytes, len);
    }
  }

  /** The impossible-geometry finding is raised exactly when the walk stops before the last group. */
  lemma GeometryIffWalkStops(sb: Superblock, len: u64)
    requires sb.agcount > 0 && AgBytes(sb) > 0
    ensures GeometryFindings(sb, len) != [] <==> GroupsVisited(sb.agcount, AgBytes(sb), len) < sb.agcount
  {
    VisitedExactly(sb.agcount, AgBytes(sb), len, sb.agcount - 1);
  }

  // ---------------------------------------------------------------- orphaned inodes

  function OrphansIn(fs: seq<Anomaly>): seq<Anomaly> {
    if fs == [] then []
    else (if fs[0].OrphanedInode? then [fs[0]] else []) + OrphansIn(fs[1..])
  }

  lemma {:induction false} OrphansInAppend(a: seq<Anomaly>, b: seq<Anomaly>)
    ensures OrphansIn(a + b) == OrphansIn(a) + OrphansIn(b)
    decreases |a|
  {
    if a == [] {
      assert a + b == b;
    } else {
      assert (a + b)[0] == a[0] && (a + b)[1..] == a[1..] + b;
      OrphansInAppend(a[1..], b);
      var head := if a[0].OrphanedInode? then [a[0]] else [];
      assert head + (OrphansIn(a[1..]) + OrphansIn(b)) == (head + OrphansIn(a[1..])) + OrphansIn(b);
    }
  }

  lemma {:induction false} NoOrphans(fs: seq<Anomaly>)
    requires forall i :: 0 <= i < |fs| ==> !fs[i].OrphanedInode?
    ensures OrphansIn(fs) == []
    decreases |fs|
  {
    if fs != [] {
      NoOrphans(fs[1..]);
    }
  }

  lemma {:induction false} AllOrphans(agno: u64, unlinked: seq<u32>, b: nat)
    requires b <= |unlinked|
    ensures OrphansIn(Orphans(agno, unlinked, b)) == Orphans(agno, unlinked, b)
    decreases |unlinked| - b
  {
    if b < |unlinked| {
      AllOrphans(agno, unlinked, b + 1);
      var head := if unlinked[b] != NULL_AGINO then [OrphanedInode(agno, b, unlinked[b])] else [];
      OrphansInAppend(head, Orphans(agno, unlinked, b + 1));
    }
  }

  lemma {:induction false} DivergencesNoOrphans(agno: u64, offset: u64, checks: seq<(Field, u64, u64)>)
    ensures forall i :: 0 <= i < |Divergences(agno, offset, checks)| ==>
      !Divergences(agno, offset, checks)[i].OrphanedInode?
    decreases |checks|
  {
    if checks != [] {
      DivergencesNoOrphans(agno, offset, checks[1..]);
    }
  }

  /** The non-null buckets of the inode header of group `agno`, or none when it does not parse. */
  function GroupOrphans(image: Image, sb: Superblock, sect: u64, agno: u64): seq<Anomaly> {
    var agi := AgiAt(image, sb.IsV5(), sect, SatMul(agno, AgBytes(sb)));
    if agi.None? then [] else Orphans(agno, agi.value.unlinked, 0)
  }

  lemma OrphansOfGroup(image: Image, sb: Superblock, sect: u64, agno: u64, base: u64)
    requires base == SatMul(agno, AgBytes(sb))
    ensures OrphansIn(GroupFindings(image, sb, sect, agno, base)) == GroupOrphans(image, sb, sect, agno)
  {
    var secondary := SecondaryFindings(image, sb, sect, agno, base);
    var agf := AgfFindings(image, sb.IsV5(), sect, base);
    var agi := AgiFindings(image, sb.IsV5(), sect, agno, base);
    SecondaryNoOrphans(image, sb, sect, agno, base);
    NoOrphans(agf);
    OrphansInAppend(secondary + agf, agi);
    OrphansInAppend(secondary, agf);
    OrphansOfAgi(image, sb.IsV5(), sect, agno, base);
  }

  lemma SecondaryNoOrphans(image: Image, sb: Superblock, sect: u64, agno: u64, base: u64)
    ensures OrphansIn(SecondaryFindings(image, sb, sect, agno, base)) == []
  {
    var slice := Sector(image, base, sect);
    if agno != 0 && slice.Some? && ParseSuperblock(slice.value).Success? {
      DivergencesNoOrphans(agno, base, Checks(sb, ParseSuperblock(slice.value).value));
    }
    NoOrphans(SecondaryFindings(image, sb, sect, agno, base));
  }

  lemma OrphansOfAgi(image: Image, isV5: bool, sect: u64, agno: u64, base: u64)
    ensures OrphansIn(AgiFindings(image, isV5, sect, agno, base)) ==
      match AgiAt(image, isV5, sect, base) case None => [] case Some(agi) => Orphans(agno, agi.unlinked, 0)
  {
    var agi := AgiAt(image, isV5, sect, base);
    if agi.Some? {
      OrphansOfHeader(BadCrc(agi.value.crcValid, Agi, SatAdd(base, SatMul(sect, 2))), agno, agi.value.unlinked);
    }
  }

  lemma OrphansOfHeader(bad: seq<Anomaly>, agno: u64, unlinked: seq<u32>)
    requires forall i :: 0 <= i < |bad| ==> !bad[i].OrphanedInode?
    ensures OrphansIn(bad + Orphans(agno, unlinked, 0)) == Orphans(agno, unlinked, 0)
  {
    NoOrphans(bad);
    OrphansInAppend(bad, Orphans(agno, unlinked, 0));
    AllOrphans(agno, unlinked, 0);
  }

  lemma {:induction false} OrphansOfGroups(at: Group, orphans: Group, agno: u64, n: u64)
    requires agno <= n && forall g: u64 :: OrphansIn(at(g)) == orphans(g)
    ensures OrphansIn(Groups(at, agno, n)) == Groups(orphans, agno, n)
    decreases n - agno
  {
    if agno < n {
      OrphansOfGroups(at, orphans, agno + 1, n);
      OrphansInAppend(at(agno), Groups(at, agno + 1, n));
    }
  }

  lemma {:induction false} SweepNoOrphans(slots: Slots, off: nat, size: nat, len: nat)
    requires size > 0 && forall pos: nat :: OrphansIn(slots(pos)) == []
    ensures OrphansIn(SweepFrom(slots, off, size, len)) == []
    decreases if off <= len then len - off else 0
  {
    if off + size <= len {
      SweepNoOrphans(slots, off + size, size, len);
      OrphansInAppend(slots(off), SweepFrom(slots, off + size, size, len));
    }
  }

  lemma SlotsNoOrphans(image: Image, sb: Superblock, pos: nat)
    ensures OrphansIn(SlotsOf(image, sb)(pos)) == []
  {
    NoOrphans(SlotsOf(image, sb)(pos));
  }

  function GroupOrphansOf(image: Image, sb: Superblock): Group {
    (agno: u64) => GroupOrphans(image, sb, SectorSize(image), agno)
  }

  /** The orphan findings are exactly the non-null buckets of every visited group, group by group. */
  lemma OrphansExactly(image: Image, sb: Superblock)
    requires Primary(image) == Some(sb) && AgBytes(sb) > 0
    ensures OrphansIn(AuditFindings(image))
         == Groups(GroupOrphansOf(image, sb), 0, GroupsVisited(sb.agcount, AgBytes(sb), |image|))
  {
    var primary, groups, sweep := PrimaryFindings(image, sb), AllGroupFindings(image, sb), SweepFindings(image, sb);
    PrimaryNoOrphans(image, sb);
    SweepFindingsNoOrphans(image, sb);
    assert AuditFindings(image) == primary + groups + sweep;
    DropEnds(primary, groups, sweep);
    OrphansOfWalk(image, sb);
  }

  lemma DropEnds(a: seq<Anomaly>, b: seq<Anomaly>, c: seq<Anomaly>)
    requires OrphansIn(a) == OrphansIn(c) == []
    ensures OrphansIn(a + b + c) == OrphansIn(b)
  {
    OrphansInAppend(a + b, c);
    OrphansInAppend(a, b);
  }

  lemma PrimaryNoOrphans(image: Image, sb: Superblock)
    ensures OrphansIn(PrimaryFindings(image, sb)) == []
  {
    NoOrphans(PrimaryFindings(image, sb));
  }

  lemma SweepFindingsNoOrphans(image: Image, sb: Superblock)
    ensures OrphansIn(SweepFindings(image, sb)) == []
  {
    if sb.IsV5() && sb.inodesize >= 176 {
      forall pos: nat ensures OrphansIn(SlotsOf(image, sb)(pos)) == [] {
        SlotsNoOrphans(image, sb, pos);
      }
      SweepNoOrphans(SlotsOf(image, sb), 0, sb.inodesize, |image|);
    }
  }

  lemma OrphansOfWalk(image: Image, sb: Superblock)
    requires AgBytes(sb) > 0
    ensures OrphansIn(AllGroupFindings(image, sb))
         == Groups(GroupOrphansOf(image, sb), 0, GroupsVisited(sb.agcount, AgBytes(sb), |image|))
  {
    var at, orphans := GroupsOf(image, sb, SectorSize(image)), GroupOrphansOf(image, sb);
    WalkVisits(at, 0, sb.agcount, AgBytes(sb), |image|);
    forall g: u64 ensures OrphansIn(at(g)) == orphans(g) {
      OrphansOfGroup(image, sb, SectorSize(image), g, SatMul(g, AgBytes(sb)));
    }
    OrphansOfGroups(at, orphans, 0, GroupsVisited(sb.agcount, AgBytes(sb), |image|));
  }

  /** Earlier group, or the same group and an earlier bucket. */
  predicate Before(a: Anomaly, b: Anomaly) {
    a.OrphanedInode? && b.OrphanedInode? && (a.agno < b.agno || (a.agno == b.agno && a.bucket < b.bucket))
  }

  predicate InOrder(fs: seq<Anomaly>) {
    forall i, j :: 0 <= i < j < |fs| ==> Before(fs[i], fs[j])
  }

  predicate Listed(agno: u64, unlinked: seq<u32>, b: nat, x: Anomaly) {
    x.OrphanedInode? && x.agno == agno && b <= x.bucket < |unlinked| && x.agino == unlinked[x.bucket] != NULL_AGINO
  }

  lemma {:induction false} BucketListed(agno: u64, unlinked: seq<u32>, b: nat, x: Anomaly)
    requires b <= |unlinked|
    ensures x in Orphans(agno, unlinked, b) <==> Listed(agno, unlinked, b, x)
    decreases |unlinked| - b
  {
    if b < |unlinked| {
      var head := if unlinked[b] != NULL_AGINO then [OrphanedInode(agno, b, unlinked[b])] else [];
      BucketListed(agno, unlinked, b + 1, x);
      ListedStep(agno, unlinked, b, x);
      InAppend(head, Orphans(agno, unlinked, b + 1), x);
    }
  }

  lemma ListedStep(agno: u64, unlinked: seq<u32>, b: nat, x: Anomaly)
    requires b < |unlinked|
    ensures Listed(agno, unlinked, b, x) <==>
      (x == OrphanedInode(agno, b, unlinked[b]) && unlinked[b] != NULL_AGINO) || Listed(agno, unlinked, b + 1, x)
  {}

  lemma InAppend(a: seq<Anomaly>, b: seq<Anomaly>, x: Anomaly)
    ensures x in a + b <==> x in a || x in b
  {}

  lemma {:induction false} BucketsInOrder(agno: u64, unlinked: seq<u32>, b: nat)
    requires b <= |unlinked|
    ensures InOrder(Orphans(agno, unlinked, b))
    decreases |unlinked| - b
  {
    if b < |unlinked| {
      var tail := Orphans(agno, unlinked, b + 1);
      BucketsInOrder(agno, unlinked, b + 1);
      forall j | 0 <= j < |tail| ensures Before(OrphanedInode(agno, b, unlinked[b]), tail[j]) {
        BucketListed(agno, unlinked, b + 1, tail[j]);
      }
    }
  }

  lemma {:induction false} GroupsInOrder(orphans: Group, agno: u64, n: u64)
    requires agno <= n
    requires forall g: u64 :: InOrder(orphans(g)) && forall x :: x in orphans(g) ==> x.OrphanedInode? && x.agno == g
    ensures InOrder(Groups(orphans, agno, n))
    ensures forall x :: x in Groups(orphans, agno, n) <==>
      x.OrphanedInode? && agno <= x.agno < n && x in orphans(x.agno)
    decreases n - agno
  {
    if agno < n {
      GroupsInOrder(orphans, agno + 1, n);
    }
  }

  lemma GroupOrphansExactly(image: Image, sb: Superblock, sect: u64, agno: u64)
    ensures InOrder(GroupOrphans(image, sb, sect, agno))
    ensures forall x :: x in GroupOrphans(image, sb, sect, agno) <==>
      var agi := AgiAt(image, sb.IsV5(), sect, SatMul(agno, AgBytes(sb)));
      agi.Some? && Listed(agno, agi.value.unlinked, 0, x)
  {
    var agi := AgiAt(image, sb.IsV5(), sect, SatMul(agno, AgBytes(sb)));
    if agi.Some? {
      BucketsInOrder(agno, agi.value.unlinked, 0);
      forall x ensures x in Orphans(agno, agi.value.unlinked, 0) <==> Listed(agno, agi.value.unlinked, 0, x) {
        BucketListed(agno, agi.value.unlinked, 0, x);
      }
    }
  }

  /** Hence they come once each, in (group, bucket) order. */
  lemma OrphansOnceInOrder(image: Image, sb: Superblock)
    requires Primary(image) == Some(sb) && AgBytes(sb) > 0
    ensures InOrder(OrphansIn(AuditFindings(image)))
  {
    OrphansExactly(image, sb);
    var orphans := GroupOrphansOf(image, sb);
    forall g: u64 ensures InOrder(orphans(g)) && forall x :: x in orphans(g) ==> x.OrphanedInode? && x.agno == g {
      GroupOrphansExactly(image, sb, SectorSize(image), g);
    }
    GroupsInOrder(orphans, 0, GroupsVisited(sb.agcount, AgBytes(sb), |image|));
  }

  // -------------------------------------------------------------- bad inodes, both ways

  lemma {:induction false} NotInDivergences(agno: u64, offset: u64, checks: seq<(Field, u64, u64)>, x: Anomaly)
    requires !x.SbMirrorDivergence?
    ensures x !in Divergences(agno, offset, checks)
    decreases |checks|
  {
    if checks != [] {
      NotInDivergences(agno, offset, checks[1..], x);
    }
  }

  /** No group reports impossible geometry or an inode. */
  predicate NotOfGroup(x: Anomaly) {
    x.ImpossibleGeometry? || (x.CrcMismatch? && x.structure == InodeCore)
  }

  lemma SecondaryHasNone(image: Image, sb: Superblock, sect: u64, agno: u64, base: u64, x: Anomaly)
    requires NotOfGroup(x)
    ensures x !in SecondaryFindings(image, sb, sect, agno, base)
  {
    var slice := Sector(image, base, sect);
    if agno != 0 && slice.Some? && ParseSuperblock(slice.value).Success? {
      NotInDivergences(agno, base, Checks(sb, ParseSuperblock(slice.value).value), x);
    }
  }

  lemma AgiHasNone(image: Image, isV5: bool, sect: u64, agno: u64, base: u64, x: Anomaly)
    requires NotOfGroup(x)
    ensures x !in AgiFindings(image, isV5, sect, agno, base)
  {
    var agi := AgiAt(image, isV5, sect, base);
    if agi.Some? {
      BucketListed(agno, agi.value.unlinked, 0, x);
    }
  }

  lemma GroupHasNone(image: Image, sb: Superblock, sect: u64, agno: u64, base: u64, x: Anomaly)
    requires NotOfGroup(x)
    ensures x !in GroupFindings(image, sb, sect, agno, base)
  {
    SecondaryHasNone(image, sb, sect, agno, base, x);
    AgiHasNone(image, sb.IsV5(), sect, agno, base, x);
  }

  lemma {:induction false} WalkHasNone(at: Group, agno: u64, agcount: u64, agBytes: u64, len: nat, x: Anomaly)
    requires agno <= agcount && forall g: u64 :: x !in at(g)
    ensures x !in WalkGroups(at, agno, agcount, agBytes, len)
    decreases agcount - agno
  {
    if agno < agcount && SatMul(agno, agBytes) < len {
      WalkHasNone(at, agno + 1, agcount, agBytes, len, x);
    }
  }

  lemma GroupsHaveNone(image: Image, sb: Superblock, x: Anomaly)
    requires NotOfGroup(x)
    ensures x !in AllGroupFindings(image, sb)
  {
    if AgBytes(sb) > 0 {
      var at := GroupsOf(image, sb, SectorSize(image));
      forall g: u64 ensures x !in at(g) {
        GroupHasNone(image, sb, SectorSize(image), g, SatMul(g, AgBytes(sb)), x);
      }
      WalkHasNone(at, 0, sb.agcount, AgBytes(sb), |image|, x);
    }
  }

  /** An inode CRC finding comes from the sweep and from nowhere else. */
  lemma InodeFindingIsFromSweep(image: Image, sb: Superblock, off: u64)
    requires Primary(image) == Some(sb)
    ensures CrcMismatch(InodeCore, off) in AuditFindings(image) <==>
      CrcMismatch(InodeCore, off) in SweepFindings(image, sb)
  {
    var x := CrcMismatch(InodeCore, off);
    assert x !in PrimaryFindings(image, sb);
    GroupsHaveNone(image, sb, x);
  }

  lemma SweepHasNoGeometry(image: Image, sb: Superblock, x: Anomaly)
    requires x.ImpossibleGeometry?
    ensures x !in SweepFindings(image, sb)
  {
    if x in SweepFindings(image, sb) {
      DivModUnique(0, sb.inodesize, 0, 0);
      var pos := FoundAtSlot(SlotsOf(image, sb), 0, sb.inodesize, |image|, x);
    }
  }

  /** A geometry finding comes from the check of the primary and from nowhere else. */
  lemma GeometryIsFromPrimary(image: Image, sb: Superblock, x: Anomaly)
    requires Primary(image) == Some(sb) && x.ImpossibleGeometry?
    ensures x in AuditFindings(image) <==> x in GeometryFindings(sb, |image|)
  {
    GroupsHaveNone(image, sb, x);
    SweepHasNoGeometry(image, sb, x);
    assert x in PrimaryFindings(image, sb) <==> x in GeometryFindings(sb, |image|);
  }

  ghost predicate ReportsGeometry(findings: seq<Anomaly>) {
    exists x :: x in findings && x.ImpossibleGeometry?
  }

  /** For nonzero group size and count, the audit reports impossible geometry exactly when its walk stops early. */
  lemma GeometryReportedIff(image: Image, sb: Superblock)
    requires Primary(image) == Some(sb) && sb.agcount > 0 && AgBytes(sb) > 0
    ensures ReportsGeometry(AuditFindings(image)) <==>
      GroupsVisited(sb.agcount, AgBytes(sb), |image|) < sb.agcount
  {
    var found := GeometryFindings(sb, |image|);
    GeometryIffWalkStops(sb, |image|);
    if found != [] {
      GeometryIsFromPrimary(image, sb, found[0]);
    }
    if x :| x in AuditFindings(image) && x.ImpossibleGeometry? {
      GeometryIsFromPrimary(image, sb, x);
    }
  }

  lemma SlotHolds(slots: Slots, image: Image, sb: Superblock, pos: nat, off: u64)
    requires Sweeps(slots, image, sb) && pos + sb.inodesize <= |image|
    ensures CrcMismatch(InodeCore, off) in slots(pos) <==> pos == off && BadInodeAt(image, sb, pos)
  {
    assert slots(pos) == if BadInodeAt(image, sb, pos) then [CrcMismatch(InodeCore, pos)] else [];
  }

  /** The sweep reports exactly the bad inodes at slot-aligned offsets inside the image. */
  lemma SweepExactly(slots: Slots, image: Image, sb: Superblock, off: u64)
    requires sb.inodesize > 0 && Sweeps(slots, image, sb)
    ensures CrcMismatch(InodeCore, off) in SweepFrom(slots, 0, sb.inodesize, |image|) <==>
      off % sb.inodesize == 0 && off + sb.inodesize <= |image| && BadInodeAt(image, sb, off)
  {
    var x := CrcMismatch(InodeCore, off);
    DivModUnique(0, sb.inodesize, 0, 0);
    if x in SweepFrom(slots, 0, sb.inodesize, |image|) {
      var pos := FoundAtSlot(slots, 0, sb.inodesize, |image|, x);
      SlotHolds(slots, image, sb, pos, off);
    } else if off % sb.inodesize == 0 && off + sb.inodesize <= |image| && BadInodeAt(image, sb, off) {
      SlotHolds(slots, image, sb, off, off);
      SlotIsFound(slots, 0, off, sb.inodesize, |image|, x);
    }
  }

  /** The slice the reader fetches for `ino`, parsed as the sweep does, names itself `ino` and fails its checksum. */
  predicate BadInode(image: Image, sb: Superblock, ino: u64) {
    var slice := sb.InodeSlice(image, ino);
    && slice.Success?
    && BeU16(slice.value, 0) == XFS_DINODE_MAGIC
    && var parsed := ParseInode(slice.value, false);
    && parsed.Success?
    && parsed.value.diIno == Some(ino)
    && parsed.value.crcValid == Some(false)
  }

  /** That is, the inode the reader returns for `ino` does, although reader and sweep count extents differently. */
  lemma BadInodeIsRead(image: Image, sb: Superblock, ino: u64)
    ensures BadInode(image, sb, ino) <==>
      var inode := ReadInode(image, sb, ino);
      inode.Success? && inode.value.diIno == Some(ino) && inode.value.crcValid == Some(false)
  {
    var slice := sb.InodeSlice(image, ino);
    if slice.Success? {
      CountFieldIrrelevant(slice.value, false, sb.HasNrext64());
    }
  }

  lemma BadSlotIsBadInode(image: Image, sb: Superblock, off: u64) returns (ino: u64)
    requires Coherent(sb) && off % sb.inodesize == 0 && off + sb.inodesize <= |image| && BadInodeAt(image, sb, off)
    ensures ValidInode(sb, ino) && sb.InodeToLocation(ino).byteOffset == off && BadInode(image, sb, ino)
  {
    OffsetThenInode(sb, off);
    ino := OffsetToInode(sb, off).value.1;
    SlotIsFetched(image, sb, off, ino);
  }

  lemma BadInodeIsBadSlot(image: Image, sb: Superblock, off: u64, ino: u64)
    requires Coherent(sb) && ValidInode(sb, ino)
    requires sb.InodeToLocation(ino).byteOffset == off && BadInode(image, sb, ino)
    ensures off % sb.inodesize == 0 && off + sb.inodesize <= |image| && BadInodeAt(image, sb, off)
  {
    InodeThenOffset(sb, ino);
    FetchedIsSlot(image, sb, off, ino);
  }

  lemma FoundIffBadSlot(image: Image, sb: Superblock, off: u64)
    requires Primary(image) == Some(sb) && sb.IsV5() && sb.inodesize >= 176
    ensures CrcMismatch(InodeCore, off) in AuditFindings(image) <==>
      off % sb.inodesize == 0 && off + sb.inodesize <= |image| && BadInodeAt(image, sb, off)
  {
    InodeFindingIsFromSweep(image, sb, off);
    SweepExactly(SlotsOf(image, sb), image, sb, off);
  }

  /** A valid inode located at `off` is bad. */
  ghost predicate BadInodeLocatedAt(image: Image, sb: Superblock, off: u64) {
    exists ino: u64 :: ValidInode(sb, ino) && sb.InodeToLocation(ino).byteOffset == off && BadInode(image, sb, ino)
  }

  lemma BadSlotIffLocated(image: Image, sb: Superblock, off: u64)
    requires Coherent(sb)
    ensures BadInodeLocatedAt(image, sb, off) <==>
      off % sb.inodesize == 0 && off + sb.inodesize <= |image| && BadInodeAt(image, sb, off)
  {
    if off % sb.inodesize == 0 && off + sb.inodesize <= |image| && BadInodeAt(image, sb, off) {
      var ino := BadSlotIsBadInode(image, sb, off);
    }
    if ino: u64 :| ValidInode(sb, ino) && sb.InodeToLocation(ino).byteOffset == off && BadInode(image, sb, ino) {
      BadInodeIsBadSlot(image, sb, off, ino);
    }
  }

  /**
   Under coherent geometry, on a v5 filesystem, the inode CRC findings are exactly
   the bad inodes: a finding at `off` sits where the reader fetches the inode that
   names itself there, and every bad valid inode is found at its place.
   */
  lemma InodeFindingsExactly(image: Image, sb: Superblock, off: u64)
    requires Primary(image) == Some(sb) && Coherent(sb) && sb.IsV5() && sb.inodesize >= 176
    ensures CrcMismatch(InodeCore, off) in AuditFindings(image) <==> BadInodeLocatedAt(image, sb, off)
  {
    FoundIffBadSlot(image, sb, off);
    BadSlotIffLocated(image, sb, off);
  }

  lemma FetchedIsSlot(image: Image, sb: Superblock, off: u64, ino: u64)
    requires sb.InodeToLocation(ino).byteOffset == off && sb.InodeSlice(image, ino).Success?
    ensures off + sb.inodesize <= |image|
    ensures sb.InodeSlice(image, ino).value == image[off..off + sb.inodesize]
    ensures sb.inodesize >= 2 ==> BeU16(image, off) == BeU16(image[off..off + sb.inodesize], 0)
  {
    SliceAtLocation(sb, image, ino, off);
    if sb.inodesize >= 2 {
      SliceOfSlice(image, off, off + sb.inodesize, 0, 2);
    }
  }

  lemma SlotIsFetched(image: Image, sb: Superblock, off: u64, ino: u64)
    requires sb.InodeToLocation(ino).byteOffset == off && off + sb.inodesize <= |image|
    ensures sb.InodeSlice(image, ino) == Success(image[off..off + sb.inodesize])
    ensures sb.inodesize >= 2 ==> BeU16(image, off) == BeU16(image[off..off + sb.inodesize], 0)
  {
    SliceAtLocation(sb, image, ino, off);
    FetchedIsSlot(image, sb, off, ino);
  }
}
