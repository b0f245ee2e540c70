/** Directories: the short form, data blocks, and the multi-block listing. */
module Dir {
  import opened Wrappers
  import opened Words
  import opened Bytes
  import opened Extent
  import opened Refragment
  import opened ParseLoop

  const XFS_DIR3_BLOCK_MAGIC: u32 := 0x5844_4233
  const XFS_DIR2_BLOCK_MAGIC: u32 := 0x5844_3242
  const XFS_DIR3_DATA_MAGIC: u32 := 0x5844_4433
  const XFS_DIR2_DATA_MAGIC: u32 := 0x5844_3244
  const DIR3_DATA_HDR_LEN: nat := 64
  const DIR2_DATA_HDR_LEN: nat := 16
  const XFS_DIR2_LEAF_OFFSET: nat := 0x8_0000_0000
  const BLOCK_TAIL_LEN: nat := 8
  const LEAF_ENTRY_LEN: nat := 8
  const DATA_FREE_TAG: u16 := 0xffff

  datatype DirEntry = DirEntry(name: seq<byte>, inode: u64, ftype: Option<u8>)

  // ------------------------------------------------------------------ the short form

  function InumWidth(i8count: u8): nat {
    if i8count == 0 then 4 else 8
  }

  function ReadInum(bytes: seq<byte>): u64 {
    if |bytes| == 4 then BeU32(bytes, 0) else BeU64(bytes, 0)
  }

  /** namelen, two offset bytes, name, the ftype byte if the feature is on, inode number. */
  function ShortDirent(fork: seq<byte>, off: nat, hasFtype: bool, width: nat): Option<(DirEntry, nat)> {
    var nameStart := off + 3;
    var nameEnd := nameStart + U8At(fork, off);
    match Get(fork, nameStart, nameEnd)
    case None => None
    case Some(name) =>
      var inumOff := if hasFtype then nameEnd + 1 else nameEnd;
      match Get(fork, inumOff, inumOff + width)
      case None => None
      case Some(inum) =>
        Some((DirEntry(name, ReadInum(inum), if hasFtype then Some(U8At(fork, nameEnd)) else None),
              inumOff + width))
  }

  function DirentParser(hasFtype: bool, width: nat): Parser<DirEntry> {
    (fork: seq<byte>, off: nat) => ShortDirent(fork, off, hasFtype, width)
  }

  function ShortformDir(fork: seq<byte>, hasFtype: bool): seq<DirEntry> {
    var width := InumWidth(U8At(fork, 1));
    Run(DirentParser(hasFtype, width), fork, 2 + width, U8At(fork, 0))
  }

  method ReadShortformDir(fork: Image, hasFtype: bool) returns (entries: seq<DirEntry>)
    ensures entries == ShortformDir(fork, hasFtype)
  {
    var count: nat, width := U8At(fork, 0), InumWidth(U8At(fork, 1));
    entries := ReadDirents(fork, hasFtype, width, count, DirentParser(hasFtype, width));
  }

  ghost predicate Parses(p: Parser<DirEntry>, hasFtype: bool, width: nat) {
    forall fork: seq<byte>, off: nat {:trigger ShortDirent(fork, off, hasFtype, width)} ::
      p(fork, off) == ShortDirent(fork, off, hasFtype, width)
  }

  method ReadDirents(fork: Image, hasFtype: bool, width: nat, count: nat, ghost p: Parser<DirEntry>)
    returns (entries: seq<DirEntry>)
    requires Parses(p, hasFtype, width)
    ensures entries == Run(p, fork, 2 + width, count)
  {
    entries := [];
    var off: nat := 2 + width;
    for i := 0 to count
      invariant entries + Run(p, fork, off, count - i) == Run(p, fork, 2 + width, count)
    {
      var entry := ShortDirent(fork, off, hasFtype, width);
      assert p(fork, off) == entry;
      if entry.None? {
        break;
      }
      RunStep(p, fork, off, count - i, entries);
      entries := entries + [entry.value.0];
      off := entry.value.1;
    }
  }

  /** An entry as the short form stores it; the offset bytes are not used for listing. */
  datatype RawDirent = RawDirent(name: Short, off0: byte, off1: byte, ftype: u8, inode: u64)

  function DirentBytes(d: RawDirent, hasFtype: bool, width: nat): seq<byte> {
    [|d.name|] + ([d.off0, d.off1] + (d.name + ((if hasFtype then [d.ftype] else []) + BeBytes(d.inode, width))))
  }

  function DirentDecoded(d: RawDirent, hasFtype: bool): DirEntry {
    DirEntry(d.name, d.inode, if hasFtype then Some(d.ftype) else None)
  }

  predicate InumFits(d: RawDirent, width: nat) {
    width == 8 || (width == 4 && d.inode < 0x1_0000_0000)
  }

  lemma InumReads(inode: u64, width: nat)
    requires width == 8 || (width == 4 && inode < 0x1_0000_0000)
    ensures ReadInum(BeBytes(inode, width)) == inode
  {
    var bytes := BeBytes(inode, width);
    assert bytes[0..width] == bytes;
    if width == 4 { HeldU32(bytes, 0, inode); } else { HeldU64(bytes, 0, inode); }
  }

  lemma DirentHeld(fork: seq<byte>, o: nat, d: RawDirent, hasFtype: bool, width: nat)
    requires Holds(fork, o, DirentBytes(d, hasFtype, width)) && InumFits(d, width)
    ensures ShortDirent(fork, o, hasFtype, width)
         == Some((DirentDecoded(d, hasFtype), o + |DirentBytes(d, hasFtype, width)|))
  {
    var f := if hasFtype then [d.ftype] else [];
    FiveParts(fork, o, [|d.name|], [d.off0, d.off1], d.name, f, BeBytes(d.inode, width));
    HeldU8(fork, o, |d.name|);
    if hasFtype { HeldU8(fork, o + 3 + |d.name|, d.ftype); }
    InumReads(d.inode, width);
  }

  lemma DirentReads(pre: seq<byte>, d: RawDirent, post: seq<byte>, hasFtype: bool, width: nat)
    requires InumFits(d, width)
    ensures ShortDirent(pre + DirentBytes(d, hasFtype, width) + post, |pre|, hasFtype, width)
         == Some((DirentDecoded(d, hasFtype), |pre| + |DirentBytes(d, hasFtype, width)|))
  {
    HoldsMiddle(pre, DirentBytes(d, hasFtype, width), post);
    DirentHeld(pre + DirentBytes(d, hasFtype, width) + post, |pre|, d, hasFtype, width);
  }

  function Encoder(hasFtype: bool, width: nat): RawDirent -> seq<byte> {
    (d: RawDirent) => DirentBytes(d, hasFtype, width)
  }

  function Decoded(hasFtype: bool): RawDirent -> DirEntry {
    (d: RawDirent) => DirentDecoded(d, hasFtype)
  }

  lemma DirentsReadBack(hasFtype: bool, width: nat)
    ensures ReadsBack(DirentParser(hasFtype, width), Encoder(hasFtype, width), Decoded(hasFtype),
                      (d: RawDirent) => InumFits(d, width))
  {
    forall pre: seq<byte>, d: RawDirent, post: seq<byte> | InumFits(d, width)
      ensures ShortDirent(pre + DirentBytes(d, hasFtype, width) + post, |pre|, hasFtype, width)
           == Some((DirentDecoded(d, hasFtype), |pre| + |DirentBytes(d, hasFtype, width)|))
    {
      DirentReads(pre, d, post, hasFtype, width);
    }
  }

  lemma DirentsRun(pre: seq<byte>, ds: seq<RawDirent>, post: seq<byte>, hasFtype: bool, width: nat)
    requires forall d :: d in ds ==> InumFits(d, width)
    ensures Run(DirentParser(hasFtype, width), pre + EncodeAll(Encoder(hasFtype, width), ds) + post, |pre|, |ds|)
         == MapAll(Decoded(hasFtype), ds)
  {
    DirentsReadBack(hasFtype, width);
    RunReadsBack(DirentParser(hasFtype, width), Encoder(hasFtype, width), Decoded(hasFtype),
                 (d: RawDirent) => InumFits(d, width), pre, ds, post);
  }

  lemma HeaderBytes(hdr: seq<byte>, body: seq<byte>, post: seq<byte>)
    requires |hdr| >= 2
    ensures U8At(hdr + body + post, 0) == hdr[0] && U8At(hdr + body + post, 1) == hdr[1]
  {}

  lemma ShortformDirIs(fork: seq<byte>, hasFtype: bool, count: u8, width: nat)
    requires U8At(fork, 0) == count && InumWidth(U8At(fork, 1)) == width
    ensures ShortformDir(fork, hasFtype) == Run(DirentParser(hasFtype, width), fork, 2 + width, count)
  {}

  /** Parsing an encoded short-form directory gives its entries in order, for both inode widths, with or without ftype. */
  lemma ShortformDirRoundTrip(fork: seq<byte>, hdr: seq<byte>, ds: seq<RawDirent>, post: seq<byte>,
                              hasFtype: bool, width: nat)
    requires fork == hdr + EncodeAll(Encoder(hasFtype, width), ds) + post
    requires |hdr| == 2 + width && hdr[0] == |ds| && width == (if hdr[1] == 0 then 4 else 8)
    requires forall d :: d in ds ==> InumFits(d, width)
    ensures ShortformDir(fork, hasFtype) == MapAll(Decoded(hasFtype), ds)
  {
    HeaderBytes(hdr, EncodeAll(Encoder(hasFtype, width), ds), post);
    ShortformDirIs(fork, hasFtype, |ds|, width);
    DirentsRun(hdr, ds, post, hasFtype, width);
  }

  lemma DirentStable(a: seq<byte>, b: seq<byte>, o: nat, hasFtype: bool, width: nat)
    requires a <= b && width > 0 && ShortDirent(a, o, hasFtype, width).Some?
    ensures ShortDirent(b, o, hasFtype, width) == ShortDirent(a, o, hasFtype, width)
  {
    var nameEnd := o + 3 + U8At(a, o);
    var inumOff := if hasFtype then nameEnd + 1 else nameEnd;
    GetOfPrefix(a, b, o + 3, nameEnd);
    GetOfPrefix(a, b, inumOff, inumOff + width);
  }

  lemma DirentParserStable(hasFtype: bool, width: nat)
    requires width > 0
    ensures Stable(DirentParser(hasFtype, width))
  {
    forall a: seq<byte>, b: seq<byte>, o: nat | a <= b && ShortDirent(a, o, hasFtype, width).Some?
      ensures ShortDirent(b, o, hasFtype, width) == ShortDirent(a, o, hasFtype, width)
    {
      DirentStable(a, b, o, hasFtype, width);
    }
  }

  /** On any bytes, truncating the fork yields a prefix of the listing. */
  lemma ShortformDirTruncates(a: seq<byte>, b: seq<byte>, hasFtype: bool)
    requires a <= b
    ensures ShortformDir(a, hasFtype) <= ShortformDir(b, hasFtype)
  {
    var width := InumWidth(U8At(a, 1));
    if |a| >= 2 {
      DirentParserStable(hasFtype, width);
      RunOfPrefix(DirentParser(hasFtype, width), a, b, 2 + width, U8At(a, 0));
    } else {
      assert ShortDirent(a, 2 + width, hasFtype, width).None?;
    }
  }

  // ------------------------------------------------------------------ data blocks

  /** Round up to a multiple of eight: add seven, saturating, and clear the low three bits. */
  function Align8(n: u64): (r: u64)
    ensures n + 7 <= U64_MAX ==> r == n + 7 - (n + 7) % 8
  {
    AndNot7(SatAdd(n, 7));
    And(SatAdd(n, 7), 0xFFFF_FFFF_FFFF_FFF8)
  }

  function EntryLen(namelen: u8, hasFtype: bool): nat {
    Align8(8 + 1 + namelen + (if hasFtype then 1 else 0) + 2)
  }

  /** What lies at the cursor: nothing usable, a free record, or an entry; and where to go next. */
  datatype Cell = Stop | Skip(next: nat) | Take(entry: DirEntry, next: nat)

  /** The name is bounded by the block, not by the end of the entry region. */
  function CellAt(block: seq<byte>, off: nat, hasFtype: bool): Cell {
    if BeU16(block, off) == DATA_FREE_TAG then Skip(off + Max(BeU16(block, off + 2), Align8(1)))
    else
      var namelen := U8At(block, off + 8);
      if namelen == 0 then Stop
      else
        match Get(block, off + 9, off + 9 + namelen)
        case None => Stop
        case Some(name) =>
          var ftype := if hasFtype then Some(U8At(block, off + 9 + namelen)) else None;
          Take(DirEntry(name, BeU64(block, off), ftype), off + EntryLen(namelen, hasFtype))
  }

  type Cells = nat -> Cell

  ghost predicate Advances(cells: Cells) {
    forall o: nat :: !cells(o).Stop? ==> cells(o).next >= o + 8
  }

  /** Entries whose start lies below `end`. */
  function Scan(cells: Cells, off: nat, end: nat): seq<DirEntry>
    requires Advances(cells)
    decreases SatSub(end, off)
  {
    if off + 3 > end then []
    else
      match cells(off)
      case Stop => []
      case Skip(next) => Scan(cells, next, end)
      case Take(entry, next) => [entry] + Scan(cells, next, end)
  }

  function CellsOf(block: seq<byte>, hasFtype: bool): Cells {
    (off: nat) => CellAt(block, off, hasFtype)
  }

  /** On all inputs the cursor moves by at least eight bytes. */
  lemma CursorAdvances(block: seq<byte>, hasFtype: bool)
    ensures Advances(CellsOf(block, hasFtype))
  {
    forall o: nat | !CellAt(block, o, hasFtype).Stop? ensures CellAt(block, o, hasFtype).next >= o + 8 {}
  }

  function DataEntries(block: seq<byte>, off: nat, end: nat, hasFtype: bool): seq<DirEntry> {
    CursorAdvances(block, hasFtype);
    Scan(CellsOf(block, hasFtype), off, end)
  }

  method WalkDataEntries(block: Image, start: nat, end: nat, hasFtype: bool) returns (entries: seq<DirEntry>)
    ensures entries == DataEntries(block, start, end, hasFtype)
  {
    CursorAdvances(block, hasFtype);
    entries := ScanBlock(block, start, end, hasFtype, CellsOf(block, hasFtype));
  }

  ghost predicate Lists(cells: Cells, block: seq<byte>, hasFtype: bool) {
    forall o: nat {:trigger CellAt(block, o, hasFtype)} :: cells(o) == CellAt(block, o, hasFtype)
  }

  method ScanBlock(block: Image, start: nat, end: nat, hasFtype: bool, ghost cells: Cells)
    returns (entries: seq<DirEntry>)
    requires Advances(cells) && Lists(cells, block, hasFtype)
    ensures entries == Scan(cells, start, end)
  {
    entries := [];
    var off := start;
    while off + 3 <= end
      invariant entries + Scan(cells, off, end) == Scan(cells, start, end)
      decreases end + 8 - off
    {
      var cell := ReadCell(block, off, hasFtype);
      assert cells(off) == cell;
      match cell {
        case Stop => break;
        case Skip(next) => off := next;
        case Take(entry, next) =>
          TakeStep(cells, off, end, entries, entry);
          entries := entries + [entry];
          off := next;
      }
    }
  }

  /** One turn of the loop, in the program's order. */
  method ReadCell(block: Image, off: nat, hasFtype: bool) returns (cell: Cell)
    ensures cell == CellAt(block, off, hasFtype)
  {
    if BeU16(block, off) == DATA_FREE_TAG {
      var freeLen := BeU16(block, off + 2);
      return Skip(off + Max(freeLen, Align8(1)));
    }
    var inode := BeU64(block, off);
    var namelen := U8At(block, off + 8);
    if namelen == 0 {
      return Stop;
    }
    var nameEnd := off + 9 + namelen;
    var name := Get(block, off + 9, nameEnd);
    if name.None? {
      return Stop;
    }
    var ftype := if hasFtype then Some(U8At(block, nameEnd)) else None;
    cell := Take(DirEntry(name.value, inode, ftype), off + EntryLen(namelen, hasFtype));
  }

  lemma TakeStep(cells: Cells, off: nat, end: nat, entries: seq<DirEntry>, entry: DirEntry)
    requires Advances(cells) && off + 3 <= end && cells(off).Take? && cells(off).entry == entry
    ensures entries + Scan(cells, off, end) == (entries + [entry]) + Scan(cells, cells(off).next, end)
  {}

  /** An earlier stop boundary only truncates the listing. */
  lemma {:induction false} EarlierEndTruncates(cells: Cells, off: nat, end1: nat, end2: nat)
    requires Advances(cells) && end1 <= end2
    ensures Scan(cells, off, end1) <= Scan(cells, off, end2)
    decreases SatSub(end1, off)
  {
    if off + 3 <= end1 && !cells(off).Stop? {
      EarlierEndTruncates(cells, cells(off).next, end1, end2);
    }
  }

  lemma ScanUnfolds(cells: Cells, off: nat, end: nat)
    requires Advances(cells) && off + 3 <= end
    ensures cells(off).Stop? ==> Scan(cells, off, end) == []
    ensures cells(off).Skip? ==> Scan(cells, off, end) == Scan(cells, cells(off).next, end)
    ensures cells(off).Take? ==> Scan(cells, off, end) == [cells(off).entry] + Scan(cells, cells(off).next, end)
  {}

  /** The first multiple of eight from `n` on. */
  function NextEight(n: nat): nat {
    (n + 7) / 8 * 8
  }

  /** On any bytes: a free record moves the cursor by its length, or by eight if that is more. */
  lemma FreeStep(block: seq<byte>, off: nat, end: nat, hasFtype: bool)
    requires off + 3 <= end && BeU16(block, off) == 0xffff
    ensures DataEntries(block, off, end, hasFtype)
         == DataEntries(block, off + Max(BeU16(block, off + 2), 8), end, hasFtype)
  {
    CursorAdvances(block, hasFtype);
    ScanUnfolds(CellsOf(block, hasFtype), off, end);
  }

  /** An empty name, or one that runs out of the block, ends the walk. */
  lemma StopStep(block: seq<byte>, off: nat, end: nat, hasFtype: bool)
    requires off + 3 <= end ==> BeU16(block, off) != 0xffff
    requires off + 3 <= end ==> U8At(block, off + 8) == 0 || off + 9 + U8At(block, off + 8) > |block|
    ensures DataEntries(block, off, end, hasFtype) == []
  {
    CursorAdvances(block, hasFtype);
    if off + 3 <= end {
      ScanUnfolds(CellsOf(block, hasFtype), off, end);
    }
  }

  /** The entry at `off`: number, then a name of this length, then the type if the feature is on. */
  function EntryBytes(block: seq<byte>, off: nat, namelen: u8, hasFtype: bool): DirEntry
    requires off + 9 + namelen <= |block|
  {
    DirEntry(block[off + 9..off + 9 + namelen], BeU64(block, off),
             if hasFtype then Some(U8At(block, off + 9 + namelen)) else None)
  }

  lemma CellIsEntry(block: seq<byte>, off: nat, namelen: u8, hasFtype: bool)
    requires BeU16(block, off) != 0xffff && namelen == U8At(block, off + 8) > 0 && off + 9 + namelen <= |block|
    ensures CellAt(block, off, hasFtype) ==
      Take(EntryBytes(block, off, namelen, hasFtype), off + EntryLen(namelen, hasFtype))
  {}

  lemma TakeUnfolds(cells: Cells, off: nat, end: nat, entry: DirEntry, next: nat)
    requires Advances(cells) && off + 3 <= end && cells(off) == Take(entry, next)
    ensures Scan(cells, off, end) == [entry] + Scan(cells, next, end)
  {}

  /** Any other bytes are an entry, and the cursor moves to the next multiple of eight past it. */
  lemma EntryStep(block: seq<byte>, off: nat, end: nat, namelen: u8, hasFtype: bool, entry: DirEntry, next: nat)
    requires off + 3 <= end && BeU16(block, off) != 0xffff
    requires namelen == U8At(block, off + 8) > 0 && off + 9 + namelen <= |block|
    requires entry == EntryBytes(block, off, namelen, hasFtype)
    requires next == off + NextEight(11 + namelen + if hasFtype then 1 else 0)
    ensures DataEntries(block, off, end, hasFtype) == [entry] + DataEntries(block, next, end, hasFtype)
  {
    CellIsEntry(block, off, namelen, hasFtype);
    EntryLenIsNextEight(namelen, hasFtype);
    CellTaken(block, off, end, hasFtype, entry, next);
  }

  lemma CellTaken(block: seq<byte>, off: nat, end: nat, hasFtype: bool, entry: DirEntry, next: nat)
    requires off + 3 <= end && CellAt(block, off, hasFtype) == Take(entry, next)
    ensures DataEntries(block, off, end, hasFtype) == [entry] + DataEntries(block, next, end, hasFtype)
  {
    CursorAdvances(block, hasFtype);
    TakeUnfolds(CellsOf(block, hasFtype), off, end, entry, next);
  }

  lemma EntryLenIsNextEight(namelen: u8, hasFtype: bool)
    ensures EntryLen(namelen, hasFtype) == NextEight(11 + namelen + if hasFtype then 1 else 0)
  {}

  // ------------------------------------------------------------ the record encoder

  /** A live entry with its padding and two-byte tag, or a free record with its contents. */
  datatype Record =
    | Live(inode: u64, name: Short, ftype: u8, tail: seq<byte>)
    | Free(filler: seq<byte>)

  predicate WellFormed(r: Record, hasFtype: bool) {
    match r
    case Live(inode, name, _, tail) =>
      && inode < 0xFFFF_0000_0000_0000
      && name != []
      && 2 <= |tail| <= 9
      && (9 + |name| + (if hasFtype then 1 else 0) + |tail|) % 8 == 0
    case Free(filler) => 4 <= |filler| && 4 + |filler| < 0x1_0000
  }

  function RecordBytes(r: Record, hasFtype: bool): seq<byte> {
    match r
    case Live(inode, name, ftype, tail) =>
      BeBytes(inode, 8) + ([|name|] + (name + ((if hasFtype then [ftype] else []) + tail)))
    case Free(filler) => [0xFF, 0xFF] + (BeBytes(4 + |filler|, 2) + filler)
  }

  function RecordEncoder(hasFtype: bool): Record -> seq<byte> {
    (r: Record) => RecordBytes(r, hasFtype)
  }

  function AllBytes(rs: seq<Record>, hasFtype: bool): seq<byte> {
    EncodeAll(RecordEncoder(hasFtype), rs)
  }

  function EntryOf(r: Record, hasFtype: bool): DirEntry
    requires r.Live?
  {
    DirEntry(r.name, r.inode, if hasFtype then Some(r.ftype) else None)
  }

  function LiveEntries(rs: seq<Record>, hasFtype: bool): seq<DirEntry> {
    if rs == [] then []
    else (if rs[0].Live? then [EntryOf(rs[0], hasFtype)] else []) + LiveEntries(rs[1..], hasFtype)
  }

  lemma {:induction false} BeNatAppend(a: seq<byte>, b: seq<byte>)
    ensures BeNat(a + b) == BeNat(a) * Pow2(8 * |b|) + BeNat(b)
    decreases |b|
  {
    if b == [] {
      assert a + b == a;
    } else {
      var init, last := b[..|b| - 1], b[|b| - 1];
      assert (a + b)[..|a + b| - 1] == a + init;
      BeNatAppend(a, init);
      Pow2Widths();
      Pow2Add(8, 8 * |init|);
      MulAssociates(BeNat(a), 256, Pow2(8 * |init|));
      MulAssociates(256, BeNat(a), Pow2(8 * |init|));
    }
  }

  /** An inode number below 0xFFFF in its top 16 bits does not start like a free record. */
  lemma LiveIsNotFree(block: seq<byte>, at: nat, inode: u64)
    requires inode < 0xFFFF_0000_0000_0000 && Holds(block, at, BeBytes(inode, 8))
    ensures BeU16(block, at) != DATA_FREE_TAG
  {
    var s := BeBytes(inode, 8);
    TopBytes(s, inode);
    SliceOfSlice(block, at, at + 8, 0, 2);
    assert block[at..at + 2] == s[0..2];
  }

  lemma TopBytes(s: seq<byte>, inode: u64)
    requires inode < 0xFFFF_0000_0000_0000 && s == BeBytes(inode, 8)
    ensures BeNat(s[0..2]) < 0xFFFF
  {
    Pow2At64();
    BeNatOfBytes(inode, 8);
    BeNatAppend(s[0..2], s[2..]);
    assert s == s[0..2] + s[2..];
    Pow2At48();
    HighPart(BeNat(s[0..2]), BeNat(s[2..]));
  }

  lemma HighPart(hi: nat, lo: nat)
    requires hi * 0x1_0000_0000_0000 + lo < 0xFFFF_0000_0000_0000
    ensures hi < 0xFFFF
  {}

  lemma Pow2At48()
    ensures Pow2(48) == 0x1_0000_0000_0000
  {
    Pow2Widths();
    Pow2Add(16, 32);
  }

  lemma LiveFields(block: seq<byte>, at: nat, r: Record, hasFtype: bool)
    requires r.Live? && WellFormed(r, hasFtype) && Holds(block, at, RecordBytes(r, hasFtype))
    ensures BeU16(block, at) != DATA_FREE_TAG && BeU64(block, at) == r.inode
    ensures U8At(block, at + 8) == |r.name|
    ensures Get(block, at + 9, at + 9 + |r.name|) == Some(r.name)
    ensures hasFtype ==> U8At(block, at + 9 + |r.name|) == r.ftype
  {
    var f := if hasFtype then [r.ftype] else [];
    FiveParts(block, at, BeBytes(r.inode, 8), [|r.name|], r.name, f, r.tail);
    LiveIsNotFree(block, at, r.inode);
    HeldU64(block, at, r.inode);
    HeldU8(block, at + 8, |r.name|);
    if hasFtype { HeldU8(block, at + 9 + |r.name|, r.ftype); }
  }

  lemma FiveParts(data: seq<byte>, at: nat, a: seq<byte>, b: seq<byte>, c: seq<byte>, d: seq<byte>, e: seq<byte>)
    requires Holds(data, at, a + (b + (c + (d + e))))
    ensures Holds(data, at, a) && Holds(data, at + |a|, b) && Holds(data, at + |a| + |b|, c)
    ensures Holds(data, at + |a| + |b| + |c|, d) && Holds(data, at + |a| + |b| + |c| + |d|, e)
  {
    HoldsParts(data, at, a, b + (c + (d + e)));
    HoldsParts(data, at + |a|, b, c + (d + e));
    HoldsParts(data, at + |a| + |b|, c, d + e);
    HoldsParts(data, at + |a| + |b| + |c|, d, e);
  }

  lemma LiveRecordReads(block: seq<byte>, at: nat, r: Record, hasFtype: bool)
    requires r.Live? && WellFormed(r, hasFtype) && Holds(block, at, RecordBytes(r, hasFtype))
    ensures CellAt(block, at, hasFtype) == Take(EntryOf(r, hasFtype), at + |RecordBytes(r, hasFtype)|)
  {
    LiveFields(block, at, r, hasFtype);
    EntryLenIs(|r.name|, hasFtype, |r.tail|);
  }

  /** The program steps over a record: name, ftype, and the padding and tag up to a multiple of eight. */
  lemma EntryLenIs(namelen: u8, hasFtype: bool, tail: nat)
    requires 2 <= tail <= 9 && (9 + namelen + (if hasFtype then 1 else 0) + tail) % 8 == 0
    ensures EntryLen(namelen, hasFtype) == 9 + namelen + (if hasFtype then 1 else 0) + tail
  {}

  lemma FreeRecordIsSkipped(block: seq<byte>, at: nat, r: Record, hasFtype: bool)
    requires r.Free? && WellFormed(r, hasFtype) && Holds(block, at, RecordBytes(r, hasFtype))
    ensures CellAt(block, at, hasFtype) == Skip(at + |RecordBytes(r, hasFtype)|)
  {
    var len := 4 + |r.filler|;
    HoldsParts(block, at, [0xFF, 0xFF], BeBytes(len, 2) + r.filler);
    HoldsParts(block, at + 2, BeBytes(len, 2), r.filler);
    HeldU16(block, at + 2, len);
    FreeTagBytes();
    HeldU16(block, at, DATA_FREE_TAG);
  }

  lemma FreeTagBytes()
    ensures BeBytes(DATA_FREE_TAG, 2) == [0xFF, 0xFF]
  {
    assert BeBytes(0xFF, 1) == BeBytes(0, 0) + [0xFF];
  }

  /** What the cursor meets at a record that ends at `next`. */
  function Shown(r: Record, next: nat, hasFtype: bool): Cell {
    if r.Live? then Take(EntryOf(r, hasFtype), next) else Skip(next)
  }

  /** Wherever the block holds an encoded record, the cells show it. */
  ghost predicate ShowsRecords(cells: Cells, block: seq<byte>, enc: Record -> seq<byte>, hasFtype: bool) {
    forall at: nat, r: Record {:trigger Holds(block, at, enc(r))} ::
      WellFormed(r, hasFtype) && Holds(block, at, enc(r)) ==> cells(at) == Shown(r, at + |enc(r)|, hasFtype)
  }

  lemma CellsShowRecords(block: seq<byte>, hasFtype: bool)
    ensures ShowsRecords(CellsOf(block, hasFtype), block, RecordEncoder(hasFtype), hasFtype)
  {
    forall at: nat, r: Record | WellFormed(r, hasFtype) && Holds(block, at, RecordBytes(r, hasFtype))
      ensures CellAt(block, at, hasFtype) == Shown(r, at + |RecordBytes(r, hasFtype)|, hasFtype)
    {
      if r.Live? {
        LiveRecordReads(block, at, r, hasFtype);
      } else {
        FreeRecordIsSkipped(block, at, r, hasFtype);
      }
    }
  }

  /** The records are listed, and then whatever follows them. */
  lemma {:induction false} ScanRecords(cells: Cells, block: seq<byte>, at: nat, rs: seq<Record>,
                                       enc: Record -> seq<byte>, end: nat, hasFtype: bool)
    requires Advances(cells) && ShowsRecords(cells, block, enc, hasFtype)
    requires forall r :: r in rs ==> WellFormed(r, hasFtype)
    requires Holds(block, at, EncodeAll(enc, rs)) && at + |EncodeAll(enc, rs)| <= end
    ensures Scan(cells, at, end) == LiveEntries(rs, hasFtype) + Scan(cells, at + |EncodeAll(enc, rs)|, end)
    decreases |rs|
  {
    if rs != [] {
      var first := enc(rs[0]);
      HoldsParts(block, at, first, EncodeAll(enc, rs[1..]));
      assert cells(at) == Shown(rs[0], at + |first|, hasFtype);
      ScanRecords(cells, block, at + |first|, rs[1..], enc, end, hasFtype);
    }
  }

  /** Any mix of live entries and free records is read back as exactly the live entries, in order. */
  lemma RecordsReadBack(block: seq<byte>, at: nat, rs: seq<Record>, hasFtype: bool)
    requires forall r :: r in rs ==> WellFormed(r, hasFtype)
    requires Holds(block, at, AllBytes(rs, hasFtype))
    ensures DataEntries(block, at, at + |AllBytes(rs, hasFtype)|, hasFtype) == LiveEntries(rs, hasFtype)
  {
    CursorAdvances(block, hasFtype);
    CellsShowRecords(block, hasFtype);
    ScanAll(CellsOf(block, hasFtype), block, at, rs, RecordEncoder(hasFtype), hasFtype);
  }

  lemma ScanAll(cells: Cells, block: seq<byte>, at: nat, rs: seq<Record>, enc: Record -> seq<byte>, hasFtype: bool)
    requires Advances(cells) && ShowsRecords(cells, block, enc, hasFtype)
    requires forall r :: r in rs ==> WellFormed(r, hasFtype)
    requires Holds(block, at, EncodeAll(enc, rs))
    ensures Scan(cells, at, at + |EncodeAll(enc, rs)|) == LiveEntries(rs, hasFtype)
  {
    var end := at + |EncodeAll(enc, rs)|;
    ScanRecords(cells, block, at, rs, enc, end, hasFtype);
    assert Scan(cells, end, end) == [];
  }

  lemma LiveEntryListed(cells: Cells, block: seq<byte>, at: nat, r: Record, next: nat, end: nat, hasFtype: bool)
    requires Advances(cells) && r.Live? && cells(at) == Shown(r, next, hasFtype) && end < next + 3
    ensures Scan(cells, at, end) == if at + 3 <= end then [EntryOf(r, hasFtype)] else []
  {
    if at + 3 <= end {
      assert Scan(cells, next, end) == [];
    }
  }

  /**
   An entry is listed exactly when its first three bytes lie below `end`; whether the
   rest of it does makes no difference. (Here it is the last one `end` can reach.)
   */
  lemma ListedByItsStart(block: seq<byte>, at: nat, r: Record, end: nat, hasFtype: bool)
    requires r.Live? && WellFormed(r, hasFtype) && Holds(block, at, RecordBytes(r, hasFtype))
    requires end < at + |RecordBytes(r, hasFtype)| + 3
    ensures DataEntries(block, at, end, hasFtype) == if at + 3 <= end then [EntryOf(r, hasFtype)] else []
  {
    CursorAdvances(block, hasFtype);
    LiveRecordReads(block, at, r, hasFtype);
    LiveEntryListed(CellsOf(block, hasFtype), block, at, r, at + |RecordBytes(r, hasFtype)|, end, hasFtype);
  }

  // ------------------------------------------------------------ whole directory blocks

  /** A single-block directory: entries up to the leaf array the block tail announces. */
  function BlockDir(block: seq<byte>, hasFtype: bool): Result<seq<DirEntry>> {
    var magic := BeU32(block, 0);
    if magic != XFS_DIR3_BLOCK_MAGIC && magic != XFS_DIR2_BLOCK_MAGIC then Failure(UnsupportedDir)
    else
      var hdr := if magic == XFS_DIR3_BLOCK_MAGIC then DIR3_DATA_HDR_LEN else DIR2_DATA_HDR_LEN;
      Success(DataEntries(block, hdr, RegionEnd(block, hdr), hasFtype))
  }

  function RegionEnd(block: seq<byte>, hdr: nat): nat {
    var leafStart :=
      if |block| >= BLOCK_TAIL_LEN then
        SatSub(|block| - BLOCK_TAIL_LEN, BeU32(block, |block| - BLOCK_TAIL_LEN) * LEAF_ENTRY_LEN)
      else 0;
    Min(Max(leafStart, hdr), |block|)
  }

  /** A data block of a multi-block directory: no tail, entries to the end of the block. */
  function DataDirBlock(block: seq<byte>, hasFtype: bool): Result<seq<DirEntry>> {
    var magic := BeU32(block, 0);
    if magic != XFS_DIR3_DATA_MAGIC && magic != XFS_DIR2_DATA_MAGIC then Failure(UnsupportedDir)
    else
      var hdr := if magic == XFS_DIR3_DATA_MAGIC then DIR3_DATA_HDR_LEN else DIR2_DATA_HDR_LEN;
      Success(DataEntries(block, hdr, |block|, hasFtype))
  }

  /** The header of a directory block: 64 bytes after a v5 magic, 16 after a v4 one. */
  predicate Header(hdr: seq<byte>, v5: seq<byte>, v4: seq<byte>) {
    (|hdr| == 64 && hdr[..4] == v5) || (|hdr| == 16 && hdr[..4] == v4)
  }

  const XDB3: seq<byte> := [0x58, 0x44, 0x42, 0x33]
  const XD2B: seq<byte> := [0x58, 0x44, 0x32, 0x42]
  const XDD3: seq<byte> := [0x58, 0x44, 0x44, 0x33]
  const XD2D: seq<byte> := [0x58, 0x44, 0x32, 0x44]

  lemma DirMagicBytes()
    ensures BeBytes(XFS_DIR3_BLOCK_MAGIC, 4) == XDB3 && BeBytes(XFS_DIR2_BLOCK_MAGIC, 4) == XD2B
    ensures BeBytes(XFS_DIR3_DATA_MAGIC, 4) == XDD3 && BeBytes(XFS_DIR2_DATA_MAGIC, 4) == XD2D
  {
    assert BeBytes(0x5844, 2) == [0x58, 0x44];
    assert BeBytes(0x5844_42, 3) == [0x58, 0x44, 0x42];
    assert BeBytes(0x5844_32, 3) == [0x58, 0x44, 0x32];
    assert BeBytes(0x5844_44, 3) == [0x58, 0x44, 0x44];
  }

  lemma MagicRead(hdr: seq<byte>, magic: u32)
    requires |hdr| >= 4 && hdr[..4] == BeBytes(magic, 4)
    ensures BeU32(hdr, 0) == magic
  {
    assert hdr[0..4] == hdr[..4];
    HeldU32(hdr, 0, magic);
  }

  lemma BlockHeaderRead(hdr: seq<byte>)
    requires Header(hdr, XDB3, XD2B)
    ensures BeU32(hdr, 0) in {XFS_DIR3_BLOCK_MAGIC, XFS_DIR2_BLOCK_MAGIC}
    ensures |hdr| == if BeU32(hdr, 0) == XFS_DIR3_BLOCK_MAGIC then DIR3_DATA_HDR_LEN else DIR2_DATA_HDR_LEN
  {
    DirMagicBytes();
    MagicRead(hdr, if |hdr| == 64 then XFS_DIR3_BLOCK_MAGIC else XFS_DIR2_BLOCK_MAGIC);
  }

  lemma DataHeaderRead(hdr: seq<byte>)
    requires Header(hdr, XDD3, XD2D)
    ensures BeU32(hdr, 0) in {XFS_DIR3_DATA_MAGIC, XFS_DIR2_DATA_MAGIC}
    ensures |hdr| == if BeU32(hdr, 0) == XFS_DIR3_DATA_MAGIC then DIR3_DATA_HDR_LEN else DIR2_DATA_HDR_LEN
  {
    DirMagicBytes();
    MagicRead(hdr, if |hdr| == 64 then XFS_DIR3_DATA_MAGIC else XFS_DIR2_DATA_MAGIC);
  }

  lemma MagicOfPrefix(hdr: seq<byte>, rest: seq<byte>)
    requires |hdr| >= 4
    ensures BeU32(hdr + rest, 0) == BeU32(hdr, 0)
  {
    assert (hdr + rest)[0..4] == hdr[0..4];
  }

  /** Encoding a multi-block data block and parsing it gives exactly the live entries. */
  lemma DataDirBlockRoundTrip(hdr: seq<byte>, rs: seq<Record>, hasFtype: bool)
    requires Header(hdr, XDD3, XD2D)
    requires forall r :: r in rs ==> WellFormed(r, hasFtype)
    ensures DataDirBlock(hdr + AllBytes(rs, hasFtype), hasFtype) == Success(LiveEntries(rs, hasFtype))
  {
    var body := AllBytes(rs, hasFtype);
    DataHeaderRead(hdr);
    MagicOfPrefix(hdr, body);
    HoldsMiddle(hdr, body, []);
    assert hdr + body + [] == hdr + body;
    RecordsReadBack(hdr + body, |hdr|, rs, hasFtype);
  }

  /** Encoding a single-block directory, leaf array and tail included, and parsing it gives exactly the live entries. */
  lemma BlockDirRoundTrip(hdr: seq<byte>, rs: seq<Record>, leaf: seq<byte>, count: u32, stale: seq<byte>, hasFtype: bool)
    requires Header(hdr, XDB3, XD2B)
    requires |leaf| == 8 * count && |stale| == 4
    requires forall r :: r in rs ==> WellFormed(r, hasFtype)
    ensures BlockDir(hdr + AllBytes(rs, hasFtype) + (leaf + (BeBytes(count, 4) + stale)), hasFtype)
         == Success(LiveEntries(rs, hasFtype))
  {
    var body, tail := AllBytes(rs, hasFtype), BeBytes(count, 4) + stale;
    var block := hdr + body + (leaf + tail);
    BlockHeaderRead(hdr);
    TailedBlock(hdr, body, leaf, |body|, count, stale);
    HoldsMiddle(hdr, body, leaf + tail);
    RecordsReadBack(block, |hdr|, rs, hasFtype);
  }

  /** The leaf array and the tail take what the tail announces; the entries end `used` bytes into the body. */
  lemma TailedBlock(hdr: seq<byte>, body: seq<byte>, leaf: seq<byte>, used: nat, count: u32, stale: seq<byte>)
    requires |hdr| >= 4 && used <= |body| && |body| - used + |leaf| == 8 * count && |stale| == 4
    ensures var block := hdr + body + (leaf + (BeBytes(count, 4) + stale));
      BeU32(block, 0) == BeU32(hdr, 0) && RegionEnd(block, |hdr|) == |hdr| + used
  {
    var tail := BeBytes(count, 4) + stale;
    var block := hdr + body + (leaf + tail);
    assert block == hdr + (body + (leaf + tail));
    MagicOfPrefix(hdr, body + (leaf + tail));
    TailCount(hdr + body + leaf, count, stale);
    assert block == hdr + body + leaf + tail;
    EndOfRegion(block, |hdr|, used, count);
  }

  lemma EndOfRegion(block: seq<byte>, hdr: nat, used: nat, count: u32)
    requires |block| == hdr + used + 8 * count + 8 && BeU32(block, |block| - 8) == count
    ensures RegionEnd(block, hdr) == hdr + used
  {}

  lemma TailCount(front: seq<byte>, count: u32, stale: seq<byte>)
    requires |stale| == 4
    ensures var block := front + (BeBytes(count, 4) + stale);
      BeU32(block, |block| - 8) == count
  {
    var block := front + (BeBytes(count, 4) + stale);
    assert block[|front|..|front| + 4] == BeBytes(count, 4);
    HeldU32(block, |front|, count);
  }

  /**
   A single-block directory whose tail announces a leaf array that starts `used` bytes
   into a live record: the record is listed exactly when `used` is at least 3, although
   it runs past the end of the entries.
   */
  lemma CutRecordListed(block: seq<byte>, hdr: seq<byte>, rs: seq<Record>, r: Record, used: nat,
                        leaf: seq<byte>, count: u32, stale: seq<byte>, hasFtype: bool)
    requires Header(hdr, XDB3, XD2B) && |stale| == 4
    requires r.Live? && WellFormed(r, hasFtype) && forall x :: x in rs ==> WellFormed(x, hasFtype)
    requires used <= |RecordBytes(r, hasFtype)| && |RecordBytes(r, hasFtype)| - used + |leaf| == 8 * count
    requires block == hdr + (AllBytes(rs, hasFtype) + RecordBytes(r, hasFtype)) + (leaf + (BeBytes(count, 4) + stale))
    ensures BlockDir(block, hasFtype)
         == Success(LiveEntries(rs, hasFtype) + if used >= 3 then [EntryOf(r, hasFtype)] else [])
  {
    var front, last, tail := AllBytes(rs, hasFtype), RecordBytes(r, hasFtype), BeBytes(count, 4) + stale;
    BlockHeaderRead(hdr);
    TailedBlock(hdr, front + last, leaf, |front| + used, count, stale);
    HoldsMiddle(hdr, front + last, leaf + tail);
    CutEntries(block, |hdr|, rs, r, used, hasFtype);
  }

  lemma CutEntries(block: seq<byte>, at: nat, rs: seq<Record>, r: Record, used: nat, hasFtype: bool)
    requires r.Live? && WellFormed(r, hasFtype) && forall x :: x in rs ==> WellFormed(x, hasFtype)
    requires Holds(block, at, AllBytes(rs, hasFtype) + RecordBytes(r, hasFtype)) && used <= |RecordBytes(r, hasFtype)|
    ensures DataEntries(block, at, at + |AllBytes(rs, hasFtype)| + used, hasFtype)
         == LiveEntries(rs, hasFtype) + if used >= 3 then [EntryOf(r, hasFtype)] else []
  {
    CursorAdvances(block, hasFtype);
    CellsShowRecords(block, hasFtype);
    CutCells(CellsOf(block, hasFtype), block, at, rs, r, RecordEncoder(hasFtype), used, hasFtype);
  }

  lemma CutCells(cells: Cells, block: seq<byte>, at: nat, rs: seq<Record>, r: Record,
                 enc: Record -> seq<byte>, used: nat, hasFtype: bool)
    requires Advances(cells) && ShowsRecords(cells, block, enc, hasFtype)
    requires r.Live? && WellFormed(r, hasFtype) && forall x :: x in rs ==> WellFormed(x, hasFtype)
    requires Holds(block, at, EncodeAll(enc, rs) + enc(r)) && used <= |enc(r)|
    ensures Scan(cells, at, at + |EncodeAll(enc, rs)| + used)
         == LiveEntries(rs, hasFtype) + if used >= 3 then [EntryOf(r, hasFtype)] else []
  {
    var next := at + |EncodeAll(enc, rs)|;
    HoldsParts(block, at, EncodeAll(enc, rs), enc(r));
    ScanRecords(cells, block, at, rs, enc, next + used, hasFtype);
    CutCell(cells, block, next, r, enc, used, hasFtype);
  }

  lemma CutCell(cells: Cells, block: seq<byte>, at: nat, r: Record, enc: Record -> seq<byte>, used: nat, hasFtype: bool)
    requires Advances(cells) && ShowsRecords(cells, block, enc, hasFtype)
    requires r.Live? && WellFormed(r, hasFtype) && Holds(block, at, enc(r)) && used <= |enc(r)|
    ensures Scan(cells, at, at + used) == if used >= 3 then [EntryOf(r, hasFtype)] else []
  {
    assert cells(at) == Shown(r, at + |enc(r)|, hasFtype);
    LiveEntryListed(cells, block, at, r, at + |enc(r)|, at + used, hasFtype);
  }

  lemma MagicIs(block: seq<byte>, magic: u32, bytes: seq<byte>)
    requires |bytes| == 4 && BeBytes(magic, 4) == bytes && magic != 0
    ensures BeU32(block, 0) == magic <==> |block| >= 4 && block[..4] == bytes
  {
    if |block| >= 4 {
      assert block[0..4] == block[..4];
      BytesOfBeNat(block[0..4]);
      Pow2Widths();
      BeNatOfBytes(magic, 4);
    }
  }

  /** Where the entries of a single-block directory end: before the announced leaf array, but not before the header. */
  function EntriesEnd(block: seq<byte>, hdr: nat): nat
    requires |block| >= 8
  {
    var leaf := 8 + 8 * BeU32(block, |block| - 8);
    Min(Max(SatSub(|block|, leaf), hdr), |block|)
  }

  /** Any bytes as a single-block directory: refused without the magic, else the entries up to that end. */
  lemma BlockDirOnBytes(block: seq<byte>, hasFtype: bool)
    requires |block| >= 8
    ensures BlockDir(block, hasFtype) ==
      if block[..4] == XDB3 then Success(DataEntries(block, 64, EntriesEnd(block, 64), hasFtype))
      else if block[..4] == XD2B then Success(DataEntries(block, 16, EntriesEnd(block, 16), hasFtype))
      else Failure(UnsupportedDir)
  {
    DirMagicBytes();
    MagicIs(block, XFS_DIR3_BLOCK_MAGIC, XDB3);
    MagicIs(block, XFS_DIR2_BLOCK_MAGIC, XD2B);
  }

  /** Any bytes as a data block of a larger directory. */
  lemma DataDirBlockOnBytes(block: seq<byte>, hasFtype: bool)
    requires |block| >= 4
    ensures DataDirBlock(block, hasFtype) ==
      if block[..4] == XDD3 then Success(DataEntries(block, 64, |block|, hasFtype))
      else if block[..4] == XD2D then Success(DataEntries(block, 16, |block|, hasFtype))
      else Failure(UnsupportedDir)
  {
    DirMagicBytes();
    MagicIs(block, XFS_DIR3_DATA_MAGIC, XDD3);
    MagicIs(block, XFS_DIR2_DATA_MAGIC, XD2D);
  }

  // -------------------------------------------------------------- multi-block listing

  /** The entries of one filesystem block; a block out of the image or of another kind adds nothing. */
  function BlockEntries(image: Image, bs: u32, hasFtype: bool, fsblock: u64): seq<DirEntry> {
    match CheckedMul(fsblock, bs)
    case None => []
    case Some(start) =>
      match Get(image, start, SatAdd(start, bs))
      case None => []
      case Some(block) => EntriesIn(block, hasFtype)
  }

  function EntriesIn(block: seq<byte>, hasFtype: bool): seq<DirEntry> {
    match DataDirBlock(block, hasFtype)
    case Failure(_) => []
    case Success(entries) => entries
  }

  lemma EntriesOfBlockAt(image: Image, bs: u32, hasFtype: bool, fsblock: u64, start: nat)
    requires start == fsblock * bs && start + bs <= |image|
    ensures BlockEntries(image, bs, hasFtype, fsblock) == EntriesIn(image[start..start + bs], hasFtype)
  {
    assert CheckedMul(fsblock, bs) == Some(start);
    assert Get(image, start, SatAdd(start, bs)) == Some(image[start..start + bs]);
  }

  /** What each filesystem block contributes to a listing. */
  type Contents = u64 -> seq<DirEntry>

  function ContentsOf(image: Image, bs: u32, hasFtype: bool): Contents {
    (fsblock: u64) => BlockEntries(image, bs, hasFtype, fsblock)
  }

  /** Blocks `b` to `n` of the run starting at `startblock`. */
  function RunEntries(contents: Contents, startblock: u64, b: u64, n: u64): seq<DirEntry>
    requires b <= n
    decreases n - b
  {
    if b == n then [] else contents(SatAdd(startblock, b)) + RunEntries(contents, startblock, b + 1, n)
  }

  /** Data extents lie below the leaf boundary; the others hold index blocks and are skipped. */
  function Listing(contents: Contents, boundary: nat, recs: seq<BmbtRec>): seq<DirEntry> {
    if recs == [] then []
    else
      (if recs[0].startoff >= boundary then [] else RunEntries(contents, recs[0].startblock, 0, recs[0].blockcount))
        + Listing(contents, boundary, recs[1..])
  }

  function LeafBoundary(bs: u32): nat {
    XFS_DIR2_LEAF_OFFSET / Max(bs, 1)
  }

  function MultiblockDir(image: Image, bs: u32, hasFtype: bool, recs: seq<BmbtRec>): seq<DirEntry> {
    Listing(ContentsOf(image, bs, hasFtype), LeafBoundary(bs), recs)
  }

  method ReadMultiblockDir(image: Image, bs: u32, hasFtype: bool, recs: seq<BmbtRec>) returns (entries: seq<DirEntry>)
    ensures entries == MultiblockDir(image, bs, hasFtype, recs)
  {
    entries := ListExtents(image, bs, hasFtype, recs, ContentsOf(image, bs, hasFtype));
  }

  ghost predicate ListsBlocks(contents: Contents, image: Image, bs: u32, hasFtype: bool) {
    forall f: u64 {:trigger BlockEntries(image, bs, hasFtype, f)} ::
      contents(f) == BlockEntries(image, bs, hasFtype, f)
  }

  method ListExtents(image: Image, bs: u32, hasFtype: bool, recs: seq<BmbtRec>, ghost contents: Contents)
    returns (entries: seq<DirEntry>)
    requires ListsBlocks(contents, image, bs, hasFtype)
    ensures entries == Listing(contents, LeafBoundary(bs), recs)
  {
    entries := [];
    var boundary := LeafBoundary(bs);
    for k := 0 to |recs|
      invariant entries + Listing(contents, boundary, recs[k..]) == Listing(contents, boundary, recs)
    {
      var rec := recs[k];
      ListingStep(contents, boundary, recs, k, entries);
      if rec.startoff >= boundary {
        continue;
      }
      var es := ListRun(image, bs, hasFtype, rec, contents);
      entries := entries + es;
    }
  }

  lemma ListingStep(contents: Contents, boundary: nat, recs: seq<BmbtRec>, k: nat, entries: seq<DirEntry>)
    requires k < |recs|
    ensures var r := recs[k];
      entries + Listing(contents, boundary, recs[k..]) ==
        (if r.startoff >= boundary then entries
         else entries + RunEntries(contents, r.startblock, 0, r.blockcount)) + Listing(contents, boundary, recs[k + 1..])
  {
    assert recs[k..][1..] == recs[k + 1..];
  }

  method ListRun(image: Image, bs: u32, hasFtype: bool, rec: BmbtRec, ghost contents: Contents)
    returns (entries: seq<DirEntry>)
    requires ListsBlocks(contents, image, bs, hasFtype)
    ensures entries == RunEntries(contents, rec.startblock, 0, rec.blockcount)
  {
    entries := [];
    var b: u64 := 0;
    while b < rec.blockcount
      invariant b <= rec.blockcount
      invariant entries + RunEntries(contents, rec.startblock, b, rec.blockcount)
        == RunEntries(contents, rec.startblock, 0, rec.blockcount)
    {
      var fsblock := SatAdd(rec.startblock, b);
      var es := ReadDirBlock(image, bs, hasFtype, fsblock);
      assert es == contents(fsblock);
      RunStepAppends(contents, rec.startblock, b, rec.blockcount, entries);
      entries := entries + es;
      b := b + 1;
    }
  }

  lemma RunStepAppends(contents: Contents, startblock: u64, b: u64, n: u64, entries: seq<DirEntry>)
    requires b < n
    ensures entries + RunEntries(contents, startblock, b, n)
         == (entries + contents(SatAdd(startblock, b))) + RunEntries(contents, startblock, b + 1, n)
  {}

  method ReadDirBlock(image: Image, bs: u32, hasFtype: bool, fsblock: u64) returns (entries: seq<DirEntry>)
    ensures entries == BlockEntries(image, bs, hasFtype, fsblock)
  {
    var start := CheckedMul(fsblock, bs);
    if start.None? {
      return [];
    }
    var block := Get(image, start.value, SatAdd(start.value, bs));
    if block.None? {
      return [];
    }
    var listed := DataDirBlock(block.value, hasFtype);
    entries := if listed.Success? then listed.value else [];
  }

  // ----------------------------------------------------------------- refragmenting

  lemma {:induction false} ListingAppend(contents: Contents, boundary: nat, a: seq<BmbtRec>, b: seq<BmbtRec>)
    ensures Listing(contents, boundary, a + b) == Listing(contents, boundary, a) + Listing(contents, boundary, b)
    decreases |a|
  {
    if a == [] {
      assert a + b == b;
    } else {
      assert (a + b)[1..] == a[1..] + b;
      ListingAppend(contents, boundary, a[1..], b);
    }
  }

  /** A run of blocks divides at any block. */
  lemma {:induction false} RunSplits(contents: Contents, startblock: u64, b: u64, k: u64, n: u64)
    requires b <= k <= n && startblock + n <= U64_MAX
    ensures RunEntries(contents, startblock, b, n)
         == RunEntries(contents, startblock, b, k) + RunEntries(contents, startblock + k, 0, n - k)
    decreases k - b
  {
    if b < k {
      RunSplits(contents, startblock, b + 1, k, n);
    } else {
      RunShifts(contents, startblock, k, 0, n - k);
    }
  }

  lemma {:induction false} RunShifts(contents: Contents, startblock: u64, k: u64, b: u64, n: u64)
    requires b <= n && startblock + k + n <= U64_MAX
    ensures RunEntries(contents, startblock, k + b, k + n) == RunEntries(contents, startblock + k, b, n)
    decreases n - b
  {
    if b < n {
      RunShifts(contents, startblock, k, b + 1, n);
    }
  }

  lemma SplitAlone(contents: Contents, boundary: nat, r: BmbtRec, k: nat)
    requires Packable(r) && k <= r.blockcount
    ensures Listing(contents, boundary, [FirstPart(r, k), SecondPart(r, k)]) ==
      if r.startoff < boundary <= r.startoff + k then Listing(contents, boundary, [FirstPart(r, k)])
      else Listing(contents, boundary, [r])
  {
    var r1, r2 := FirstPart(r, k), SecondPart(r, k);
    ListingAppend(contents, boundary, [r1], [r2]);
    assert [r1] + [r2] == [r1, r2];
    ListingOne(contents, boundary, r);
    ListingOne(contents, boundary, r1);
    ListingOne(contents, boundary, r2);
    RunSplits(contents, r.startblock, 0, k, r.blockcount);
  }

  /**
   Splitting a directory extent: on one side of the leaf boundary the listing is
   unchanged; across it, exactly the blocks of the part above the boundary are lost.
   */
  lemma SplitDirExtent(contents: Contents, boundary: nat, pre: seq<BmbtRec>, r: BmbtRec, k: nat, post: seq<BmbtRec>)
    requires Packable(r) && k <= r.blockcount
    ensures Listing(contents, boundary, pre + [FirstPart(r, k), SecondPart(r, k)] + post) ==
      if r.startoff < boundary <= r.startoff + k then Listing(contents, boundary, pre + [FirstPart(r, k)] + post)
      else Listing(contents, boundary, pre + [r] + post)
  {
    ListingAround(contents, boundary, pre, [r], post);
    ListingAround(contents, boundary, pre, [FirstPart(r, k)], post);
    ListingAround(contents, boundary, pre, [FirstPart(r, k), SecondPart(r, k)], post);
    SplitAlone(contents, boundary, r, k);
  }

  lemma ListingOne(contents: Contents, boundary: nat, r: BmbtRec)
    ensures Listing(contents, boundary, [r])
         == if r.startoff >= boundary then [] else RunEntries(contents, r.startblock, 0, r.blockcount)
  {}

  lemma ListingAround(contents: Contents, boundary: nat, pre: seq<BmbtRec>, mid: seq<BmbtRec>, post: seq<BmbtRec>)
    ensures Listing(contents, boundary, pre + mid + post) ==
      Listing(contents, boundary, pre) + Listing(contents, boundary, mid) + Listing(contents, boundary, post)
  {
    ListingAppend(contents, boundary, pre + mid, post);
    ListingAppend(contents, boundary, pre, mid);
  }
}
