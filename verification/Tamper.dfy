/** Damage to a group's free-space header is reported, wherever in the image the group lies. */
module Tamper {
  import opened Wrappers
  import opened Words
  import opened Bytes
  import opened Crc
  import opened Superblock
  import opened Audit

  lemma {:induction false} VisitedIsReported(at: Group, agno: u64, n: u64, g: u64, x: Anomaly)
    requires agno <= g < n && x in at(g)
    ensures x in Groups(at, agno, n)
    decreases n - agno
  {
    if agno < g {
      VisitedIsReported(at, agno + 1, n, g, x);
    }
  }

  /** What a visited group finds is in the report. */
  lemma GroupFindingIsReported(image: Image, sb: Superblock, agno: u64, x: Anomaly)
    requires Primary(image) == Some(sb) && AgBytes(sb) > 0
    requires agno < sb.agcount && SatMul(agno, AgBytes(sb)) < |image|
    requires x in GroupFindings(image, sb, SectorSize(image), agno, SatMul(agno, AgBytes(sb)))
    ensures x in AuditFindings(image)
  {
    var at := GroupsOf(image, sb, SectorSize(image));
    var n := GroupsVisited(sb.agcount, AgBytes(sb), |image|);
    VisitedExactly(sb.agcount, AgBytes(sb), |image|, agno);
    VisitedIsReported(at, 0, n, agno, x);
    WalkVisits(at, 0, sb.agcount, AgBytes(sb), |image|);
  }

  /** A change at or past the end of the first sector leaves the primary superblock as it was. */
  lemma PrimaryUnaffected(image: Image, p: nat, v: byte)
    requires SectorSize(image) <= p < |image|
    ensures SectorSize(image[p := v]) == SectorSize(image) && Primary(image[p := v]) == Primary(image)
  {
    var sect := SectorSize(image);
    assert image[p := v][102..104] == image[102..104];
    assert image[p := v][0..4] == image[0..4];
    assert image[p := v][..sect] == image[..sect];
  }

  lemma SectorAfterChange(image: Image, p: nat, v: byte, off: u64, sect: u64)
    requires off <= p < off + sect <= |image|
    ensures Sector(image, off, sect) == Some(image[off..off + sect])
    ensures Sector(image[p := v], off, sect) == Some(image[off..off + sect][p - off := v])
  {
    assert image[p := v][off..off + sect] == image[off..off + sect][p - off := v];
  }

  lemma ChangedAgfFails(data: seq<byte>, i: nat, v: byte)
    requires ParseAgf(data, true) == Success(Some(true)) && 4 <= i < |data| && v != data[i]
    ensures ParseAgf(data[i := v], true) == Success(Some(false))
  {
    SingleByteIsDetected(data, AGF_CRC_OFF, i, v);
    assert data[i := v][0..4] == data[0..4];
  }

  /** The audit of a v5 image reaches group `agno`, whose free-space header is at `off`. */
  predicate Reaches(image: Image, sb: Superblock, agno: u64, off: u64) {
    && Primary(image) == Some(sb) && sb.IsV5() && AgBytes(sb) > 0
    && agno < sb.agcount && SatMul(agno, AgBytes(sb)) < |image|
    && off == SatAdd(SatMul(agno, AgBytes(sb)), SectorSize(image))
  }

  /** The sector at `off` is a free-space header with this CRC status. */
  predicate AgfAt(image: Image, off: u64, status: bool) {
    var sector := Sector(image, off, SectorSize(image));
    sector.Some? && ParseAgf(sector.value, true) == Success(Some(status))
  }

  lemma BadAgfIsReported(image: Image, sb: Superblock, agno: u64, off: u64)
    requires Reaches(image, sb, agno, off) && AgfAt(image, off, false)
    ensures CrcMismatch(Agf, off) in AuditFindings(image)
  {
    var base := SatMul(agno, AgBytes(sb));
    assert AgfFindings(image, true, SectorSize(image), base) == [CrcMismatch(Agf, off)];
    GroupFindingIsReported(image, sb, agno, CrcMismatch(Agf, off));
  }

  lemma ChangedSectorFails(image: Image, off: u64, sect: u64, p: nat, v: byte)
    requires off + 4 <= p < off + sect <= |image| && v != image[p]
    requires ParseAgf(image[off..off + sect], true) == Success(Some(true))
    ensures Sector(image[p := v], off, sect).Some?
    ensures ParseAgf(Sector(image[p := v], off, sect).value, true) == Success(Some(false))
  {
    SectorAfterChange(image, p, v, off, sect);
    ChangedAgfFails(image[off..off + sect], p - off, v);
  }

  lemma AgfMeans(image: Image, off: u64, status: bool)
    requires AgfAt(image, off, status)
    ensures off + SectorSize(image) <= |image|
    ensures ParseAgf(image[off..off + SectorSize(image)], true) == Success(Some(status))
  {}

  lemma ChangedAgfIsBad(image: Image, tampered: Image, off: u64, p: nat, v: byte)
    requires AgfAt(image, off, true) && SectorSize(image) <= off
    requires off + 4 <= p < SatAdd(off, SectorSize(image)) && v != image[p] && tampered == image[p := v]
    ensures AgfAt(tampered, off, false)
  {
    PrimaryUnaffected(image, p, v);
    AgfMeans(image, off, true);
    ChangedSectorFails(image, off, SectorSize(image), p, v);
  }

  lemma StillReached(image: Image, tampered: Image, sb: Superblock, agno: u64, off: u64, p: nat, v: byte)
    requires Reaches(image, sb, agno, off) && off <= p < |image| && tampered == image[p := v]
    ensures Reaches(tampered, sb, agno, off)
  {
    PrimaryUnaffected(image, p, v);
  }

  /**
   In a v5 image, take any group the audit reaches whose free-space header verifies.
   After any change of any one byte of that sector past its magic, the audit of the
   changed image reports the header, at its place.
   */
  lemma TamperedAgfIsReported(
      image: Image, tampered: Image, sb: Superblock, agno: u64, off: u64, p: nat, v: byte)
    requires Reaches(image, sb, agno, off) && AgfAt(image, off, true)
    requires off + 4 <= p < SatAdd(off, SectorSize(image)) && v != image[p] && tampered == image[p := v]
    ensures CrcMismatch(Agf, off) in AuditFindings(tampered)
  {
    StillReached(image, tampered, sb, agno, off, p, v);
    ChangedAgfIsBad(image, tampered, off, p, v);
    BadAgfIsReported(tampered, sb, agno, off);
  }
}
