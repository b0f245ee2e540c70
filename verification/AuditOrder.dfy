/**
 The order of the audit's report: the primary first, then the groups in order and
 within a group its headers in order, then the inode slots in order; nothing twice.
 */
module AuditOrder {
  import opened Wrappers
  import opened Words
  import opened Bytes
  import opened Superblock
  import opened Sweep
  import opened Audit
  import opened AuditBytes

  /** Where a finding stands: the part of the audit, then the group or offset, then the place in the group. */
  datatype Place = Place(part: nat, major: nat, minor: nat)

  predicate Less(a: Place, b: Place) {
    a.part < b.part || (a.part == b.part && (a.major < b.major || (a.major == b.major && a.minor < b.minor)))
  }

  function FieldRank(field: Field): nat {
    match field
    case AgBlocks => 0
    case AgCount => 1
    case BlockSize => 2
    case InodeSize => 3
  }

  function Quotient(x: nat, d: nat): (q: nat)
    requires d > 0
    ensures q == x / d
  {
    DivShrinks(x, d);
    x / d
  }

  /** The place of a finding, for groups of `group` bytes and sectors of `sect`. */
  function PlaceOf(x: Anomaly, group: nat, sect: nat): Place
    requires group > 0
  {
    match x
    case CrcMismatch(PrimaryOrSecondary, off) => if off == 0 then Place(0, 0, 0) else Place(1, Quotient(off, group), 0)
    case ImpossibleGeometry(_, _, _) => Place(0, 1, 0)
    case SbMirrorDivergence(agno, field, _, _, _) => Place(1, agno, 1 + FieldRank(field))
    case CrcMismatch(Agf, off) => Place(1, Quotient(SatSub(off, sect), group), 5)
    case CrcMismatch(Agi, off) => Place(1, Quotient(SatSub(off, 2 * sect), group), 6)
    case OrphanedInode(agno, bucket, _) => Place(1, agno, 7 + bucket)
    case CrcMismatch(InodeCore, off) => Place(2, off, 0)
  }

  predicate Sorted(fs: seq<Anomaly>, group: nat, sect: nat)
    requires group > 0
  {
    forall i, j :: 0 <= i < j < |fs| ==> Less(PlaceOf(fs[i], group, sect), PlaceOf(fs[j], group, sect))
  }

  /** Everything in the list lies from `lo` on and before `hi`. */
  predicate Within(fs: seq<Anomaly>, group: nat, sect: nat, lo: Place, hi: Place)
    requires group > 0
  {
    forall x :: x in fs ==> !Less(PlaceOf(x, group, sect), lo) && Less(PlaceOf(x, group, sect), hi)
  }

  /** A sorted list within bounds. */
  predicate Ranked(fs: seq<Anomaly>, group: nat, sect: nat, lo: Place, hi: Place)
    requires group > 0
  {
    Sorted(fs, group, sect) && Within(fs, group, sect, lo, hi)
  }

  lemma RankedAppend(a: seq<Anomaly>, b: seq<Anomaly>, group: nat, sect: nat, lo: Place, mid: Place, hi: Place)
    requires group > 0 && Ranked(a, group, sect, lo, mid) && Ranked(b, group, sect, mid, hi)
    requires !Less(mid, lo) && !Less(hi, mid)
    ensures Ranked(a + b, group, sect, lo, hi)
  {
    var fs := a + b;
    forall i, j | 0 <= i < j < |fs| ensures Less(PlaceOf(fs[i], group, sect), PlaceOf(fs[j], group, sect)) {
      if i < |a| && j >= |a| {
        assert fs[i] in a && fs[j] in b;
      } else if i < |a| {
        assert fs[i] == a[i] && fs[j] == a[j];
      } else {
        assert fs[i] == b[i - |a|] && fs[j] == b[j - |a|];
      }
    }
    forall x | x in fs
      ensures !Less(PlaceOf(x, group, sect), lo) && Less(PlaceOf(x, group, sect), hi)
    {
      assert x in a || x in b;
    }
  }

  lemma RankedOne(x: Anomaly, group: nat, sect: nat, lo: Place, hi: Place)
    requires group > 0 && PlaceOf(x, group, sect) == lo && Less(lo, hi)
    ensures Ranked([x], group, sect, lo, hi) && Ranked([], group, sect, lo, hi)
  {}

  // ------------------------------------------------------------------- within a group

  lemma {:induction false} OrphansRanked(agno: u64, unlinked: seq<u32>, b: nat, group: nat, sect: nat)
    requires group > 0 && b <= |unlinked|
    ensures Ranked(Orphans(agno, unlinked, b), group, sect, Place(1, agno, 7 + b), Place(1, agno, 7 + |unlinked|))
    decreases |unlinked| - b
  {
    if b < |unlinked| {
      var here, next, last := Place(1, agno, 7 + b), Place(1, agno, 8 + b), Place(1, agno, 7 + |unlinked|);
      OrphansRanked(agno, unlinked, b + 1, group, sect);
      RankedOne(OrphanedInode(agno, b, unlinked[b]), group, sect, here, next);
      var head := if unlinked[b] != NULL_AGINO then [OrphanedInode(agno, b, unlinked[b])] else [];
      RankedAppend(head, Orphans(agno, unlinked, b + 1), group, sect, here, next, last);
    }
  }

  lemma {:induction false} DivergencesRanked(agno: u64, off: u64, checks: seq<(Field, u64, u64)>, k: nat,
                                             group: nat, sect: nat)
    requires group > 0 && forall i :: 0 <= i < |checks| ==> FieldRank(checks[i].0) == k + i
    ensures Ranked(Divergences(agno, off, checks), group, sect, Place(1, agno, 1 + k), Place(1, agno, 1 + k + |checks|))
    decreases |checks|
  {
    if checks != [] {
      var here, next, last := Place(1, agno, 1 + k), Place(1, agno, 2 + k), Place(1, agno, 1 + k + |checks|);
      var x := SbMirrorDivergence(agno, checks[0].0, checks[0].1, checks[0].2, off);
      DivergencesRanked(agno, off, checks[1..], k + 1, group, sect);
      RankedOne(x, group, sect, here, next);
      RankedAppend(if checks[0].1 != checks[0].2 then [x] else [], Divergences(agno, off, checks[1..]),
                   group, sect, here, next, last);
    }
  }

  lemma BaseQuotient(agno: nat, group: nat)
    requires group > 0
    ensures agno * group >= 0 && Quotient(agno * group, group) == agno
  {
    MulNonNegative(agno, group);
    DivModUnique(agno * group, group, agno, 0);
  }

  lemma CopyRanked(p: Superblock, s: Superblock, agno: u64, base: u64, group: nat, sect: nat)
    requires group > 0 && base > 0 && Quotient(base, group) == agno
    ensures Ranked((if p.IsV5() then BadCrc(s.crcValid, PrimaryOrSecondary, base) else [])
                     + Divergences(agno, base, Checks(p, s)), group, sect, Place(1, agno, 0), Place(1, agno, 5))
  {
    var crc := if p.IsV5() then BadCrc(s.crcValid, PrimaryOrSecondary, base) else [];
    DivergencesRanked(agno, base, Checks(p, s), 0, group, sect);
    RankedOne(CrcMismatch(PrimaryOrSecondary, base), group, sect, Place(1, agno, 0), Place(1, agno, 1));
    RankedAppend(crc, Divergences(agno, base, Checks(p, s)), group, sect,
                 Place(1, agno, 0), Place(1, agno, 1), Place(1, agno, 5));
  }

  lemma SecondaryRanked(image: Image, sb: Superblock, sect: nat, agno: u64, base: u64, group: nat)
    requires group > 0 && sect <= 0x8000 && base == agno * group
    ensures Ranked(SecondaryFindings(image, sb, sect, agno, base), group, sect, Place(1, agno, 0), Place(1, agno, 5))
  {
    BaseQuotient(agno, group);
    var slice := Sector(image, base, sect);
    if agno != 0 && slice.Some? && ParseSuperblock(slice.value).Success? {
      MulMono(1, agno, group);
      CopyRanked(sb, ParseSuperblock(slice.value).value, agno, base, group, sect);
    }
  }

  lemma AgfRanked(image: Image, isV5: bool, sect: nat, agno: u64, base: u64, group: nat)
    requires group > 0 && sect <= 0x8000 && base == agno * group < |image|
    ensures Ranked(AgfFindings(image, isV5, sect, base), group, sect, Place(1, agno, 5), Place(1, agno, 6))
  {
    BaseQuotient(agno, group);
    RankedOne(CrcMismatch(Agf, SatAdd(base, sect)), group, sect, Place(1, agno, 5), Place(1, agno, 6));
  }

  lemma AgiRanked(image: Image, isV5: bool, sect: nat, agno: u64, base: u64, group: nat)
    requires group > 0 && sect <= 0x8000 && base == agno * group < |image|
    ensures Ranked(AgiFindings(image, isV5, sect, agno, base), group, sect, Place(1, agno, 6), Place(1, agno + 1, 0))
  {
    var agi := AgiAt(image, isV5, sect, base);
    if agi.Some? {
      var off := SatAdd(base, SatMul(sect, 2));
      BaseQuotient(agno, group);
      HeaderRanked(agno, agi.value, off, group, sect);
    }
  }

  lemma HeaderRanked(agno: u64, agi: AgiHeader, off: u64, group: nat, sect: nat)
    requires group > 0 && Quotient(SatSub(off, 2 * sect), group) == agno
    ensures Ranked(BadCrc(agi.crcValid, Agi, off) + Orphans(agno, agi.unlinked, 0), group, sect,
                   Place(1, agno, 6), Place(1, agno + 1, 0))
  {
    OrphansRanked(agno, agi.unlinked, 0, group, sect);
    RankedOne(CrcMismatch(Agi, off), group, sect, Place(1, agno, 6), Place(1, agno, 7));
    RankedAppend(BadCrc(agi.crcValid, Agi, off), Orphans(agno, agi.unlinked, 0), group, sect,
                 Place(1, agno, 6), Place(1, agno, 7), Place(1, agno + 1, 0));
  }

  lemma GroupRanked(image: Image, sb: Superblock, sect: nat, agno: u64, base: u64, group: nat)
    requires group > 0 && sect <= 0x8000 && base == agno * group < |image|
    ensures Ranked(GroupFindings(image, sb, sect, agno, base), group, sect, Place(1, agno, 0), Place(1, agno + 1, 0))
  {
    var a, b := SecondaryFindings(image, sb, sect, agno, base), AgfFindings(image, sb.IsV5(), sect, base);
    var c := AgiFindings(image, sb.IsV5(), sect, agno, base);
    SecondaryRanked(image, sb, sect, agno, base, group);
    AgfRanked(image, sb.IsV5(), sect, agno, base, group);
    AgiRanked(image, sb.IsV5(), sect, agno, base, group);
    RankedAppend(a, b, group, sect, Place(1, agno, 0), Place(1, agno, 5), Place(1, agno, 6));
    RankedAppend(a + b, c, group, sect, Place(1, agno, 0), Place(1, agno, 6), Place(1, agno + 1, 0));
  }

  // ------------------------------------------------------------------ the whole report

  lemma {:induction false} GroupsRanked(at: Group, agno: u64, n: u64, group: nat, sect: nat)
    requires group > 0 && agno <= n
    requires forall g: u64 :: agno <= g < n ==> Ranked(at(g), group, sect, Place(1, g, 0), Place(1, g + 1, 0))
    ensures Ranked(Groups(at, agno, n), group, sect, Place(1, agno, 0), Place(1, n, 0))
    decreases n - agno
  {
    if agno < n {
      GroupsRanked(at, agno + 1, n, group, sect);
      RankedAppend(at(agno), Groups(at, agno + 1, n), group, sect,
                   Place(1, agno, 0), Place(1, agno + 1, 0), Place(1, n, 0));
    }
  }

  lemma AllGroupsRanked(image: Image, sb: Superblock, group: nat, sect: nat)
    requires group == Max(GroupSize(sb), 1) && sect == SectorSize(image)
    ensures Ranked(AllGroupFindings(image, sb), group, sect, Place(1, 0, 0), Place(2, 0, 0))
  {
    GroupSizeIs(sb);
    SectorSizeRange(image);
    if GroupSize(sb) > 0 {
      var at, n := GroupsOf(image, sb, sect), GroupsVisited(sb.agcount, AgBytes(sb), |image|);
      forall g: u64 | 0 <= g < n ensures Ranked(at(g), group, sect, Place(1, g, 0), Place(1, g + 1, 0)) {
        ReachedIffVisited(image, sb, g);
        GroupRanked(image, sb, sect, g, SatMul(g, AgBytes(sb)), group);
      }
      WalkVisits(at, 0, sb.agcount, AgBytes(sb), |image|);
      GroupsRanked(at, 0, n, group, sect);
    }
  }

  lemma {:induction false} SweepRanked(at: Slots, off: nat, step: nat, len: nat, group: nat, sect: nat)
    requires group > 0 && step > 0
    requires forall o: nat :: Ranked(at(o), group, sect, Place(2, o, 0), Place(2, o + 1, 0))
    ensures Ranked(SweepFrom(at, off, step, len), group, sect, Place(2, off, 0), Place(3, 0, 0))
    decreases if off <= len then len - off else 0
  {
    if off + step <= len {
      SweepRanked(at, off + step, step, len, group, sect);
      Widen(at(off), group, sect, Place(2, off, 0), Place(2, off + 1, 0), Place(2, off + step, 0));
      RankedAppend(at(off), SweepFrom(at, off + step, step, len), group, sect,
                   Place(2, off, 0), Place(2, off + step, 0), Place(3, 0, 0));
    }
  }

  lemma Widen(fs: seq<Anomaly>, group: nat, sect: nat, lo: Place, hi: Place, higher: Place)
    requires group > 0 && Ranked(fs, group, sect, lo, hi) && !Less(higher, hi)
    ensures Ranked(fs, group, sect, lo, higher)
  {}

  lemma SlotRanked(image: Image, sb: Superblock, o: nat, group: nat, sect: nat)
    requires group > 0
    ensures Ranked(SlotsOf(image, sb)(o), group, sect, Place(2, o, 0), Place(2, o + 1, 0))
  {
    if o + sb.inodesize <= |image| {
      RankedOne(CrcMismatch(InodeCore, o), group, sect, Place(2, o, 0), Place(2, o + 1, 0));
    }
  }

  lemma SweepFindingsRanked(image: Image, sb: Superblock, group: nat, sect: nat)
    requires group > 0
    ensures Ranked(SweepFindings(image, sb), group, sect, Place(2, 0, 0), Place(3, 0, 0))
  {
    if sb.IsV5() && sb.inodesize >= 176 {
      forall o: nat ensures Ranked(SlotsOf(image, sb)(o), group, sect, Place(2, o, 0), Place(2, o + 1, 0)) {
        SlotRanked(image, sb, o, group, sect);
      }
      SweepRanked(SlotsOf(image, sb), 0, sb.inodesize, |image|, group, sect);
    }
  }

  lemma PrimaryRanked(image: Image, sb: Superblock, group: nat, sect: nat)
    requires group > 0
    ensures Ranked(PrimaryFindings(image, sb), group, sect, Place(0, 0, 0), Place(1, 0, 0))
  {
    var crc := if sb.IsV5() then BadCrc(sb.crcValid, PrimaryOrSecondary, 0) else [];
    var geometry := GeometryFindings(sb, |image|);
    RankedOne(CrcMismatch(PrimaryOrSecondary, 0), group, sect, Place(0, 0, 0), Place(0, 1, 0));
    if geometry != [] {
      RankedOne(geometry[0], group, sect, Place(0, 1, 0), Place(1, 0, 0));
    }
    RankedAppend(crc, geometry, group, sect, Place(0, 0, 0), Place(0, 1, 0), Place(1, 0, 0));
  }

  /** The report is strictly increasing in place, on every image. */
  lemma ReportIsOrdered(image: Image, sb: Superblock)
    requires Primary(image) == Some(sb)
    ensures Sorted(AuditFindings(image), Max(GroupSize(sb), 1), SectorSize(image))
  {
    var group, sect := Max(GroupSize(sb), 1), SectorSize(image);
    var a, b, c := PrimaryFindings(image, sb), AllGroupFindings(image, sb), SweepFindings(image, sb);
    PrimaryRanked(image, sb, group, sect);
    AllGroupsRanked(image, sb, group, sect);
    SweepFindingsRanked(image, sb, group, sect);
    RankedAppend(a, b, group, sect, Place(0, 0, 0), Place(1, 0, 0), Place(2, 0, 0));
    RankedAppend(a + b, c, group, sect, Place(0, 0, 0), Place(2, 0, 0), Place(3, 0, 0));
  }

  /** And there is no report when there is no superblock. */
  lemma NoPrimaryNoReport(image: Image)
    requires Primary(image) == None
    ensures AuditFindings(image) == []
  {}
}
