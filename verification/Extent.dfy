/**
 Extent records: the 128-bit packing, the inline extent list, and the assembly
 of a file's bytes from its extents.
 */
module Extent {
  import opened Words
  import opened Bytes

  datatype BmbtRec = BmbtRec(startoff: u64, startblock: u64, blockcount: u64, unwritten: bool)

  const STARTOFF_BITS := 54
  const STARTBLOCK_HI_BITS := 9
  const STARTBLOCK_LO_BITS := 43
  const BLOCKCOUNT_BITS := 21
  const REC_LEN: nat := 16

  /** The packed record: two big-endian words. */
  function Unpack(raw: seq<byte>): BmbtRec {
    UnpackWords(BeU64(raw, 0), BeU64(raw, 8))
  }

  /** The bit fields of the two words; the start block is split across them. */
  function UnpackWords(l0: u64, l1: u64): BmbtRec {
    var startblockHi := And64(l0, LowMask(STARTBLOCK_HI_BITS));
    var startblockLo := And64(Shr(l1, BLOCKCOUNT_BITS), LowMask(STARTBLOCK_LO_BITS));
    BmbtRec(
      And64(Shr(l0, STARTBLOCK_HI_BITS), LowMask(STARTOFF_BITS)),
      Or64(Shl(startblockHi, STARTBLOCK_LO_BITS), startblockLo),
      And64(l1, LowMask(BLOCKCOUNT_BITS)),
      And64(Shr(l0, 63), 1) == 1)
  }

  /** The field widths of a record that fits the packing. */
  predicate Packable(r: BmbtRec) {
    r.startoff < 0x40_0000_0000_0000 && r.startblock < 0x10_0000_0000_0000 && r.blockcount < 0x20_0000
  }

  /** The 16 bytes the format prescribes for a record. */
  function Pack(r: BmbtRec): (raw: seq<byte>)
    ensures |raw| == REC_LEN
  {
    BeBytes(Word0(r), 8) + BeBytes(Word1(r), 8)
  }

  function Word0(r: BmbtRec): nat {
    (if r.unwritten then 0x8000_0000_0000_0000 else 0) + r.startoff * 0x200 + r.startblock / 0x800_0000_0000
  }

  function Word1(r: BmbtRec): nat {
    r.startblock % 0x800_0000_0000 * 0x20_0000 + r.blockcount
  }

  function PackAll(rs: seq<BmbtRec>): (fork: seq<byte>)
    ensures |fork| == REC_LEN * |rs|
  {
    if rs == [] then [] else Pack(rs[0]) + PackAll(rs[1..])
  }

  // ------------------------------------------------------------- the bijection

  lemma Pow2Fields()
    ensures Pow2(9) == 0x200 && Pow2(21) == 0x20_0000 && Pow2(43) == 0x800_0000_0000
    ensures Pow2(54) == 0x40_0000_0000_0000 && Pow2(63) == 0x8000_0000_0000_0000
  {
    Pow2Widths();
    Pow2Add(8, 1);
    Pow2Add(9, 9);
    assert Pow2(3) == 8;
    Pow2Add(18, 3);
    Pow2Add(21, 21);
    Pow2Add(42, 1);
    Pow2Add(43, 11);
    Pow2Add(9, 2);
    Pow2Add(54, 9);
  }

  /** The record in terms of the numeric values of its two words. */
  function FromWords(l0: nat, l1: nat): (nat, nat, nat, bool) {
    (l0 / 0x200 % 0x40_0000_0000_0000,
     l0 % 0x200 * 0x800_0000_0000 + l1 / 0x20_0000 % 0x800_0000_0000,
     l1 % 0x20_0000,
     l0 / 0x8000_0000_0000_0000 % 2 == 1)
  }

  lemma UnpackMeans(raw: seq<byte>)
    requires |raw| == REC_LEN
    ensures BeNat(raw[..8]) <= U64_MAX && BeNat(raw[8..]) <= U64_MAX
    ensures Unpack(raw) == UnpackWords(BeNat(raw[..8]), BeNat(raw[8..]))
  {
    Pow2At64();
    assert raw[0..8] == raw[..8] && raw[8..16] == raw[8..];
  }

  lemma UnpackWordsMeans(l0: u64, l1: u64)
    ensures var r := UnpackWords(l0, l1);
      (r.startoff, r.startblock, r.blockcount, r.unwritten) == FromWords(l0, l1)
  {
    UnpackStartoff(l0, l1);
    UnpackStartblock(l0, l1);
    UnpackBlockcount(l0, l1);
    UnpackFlag(l0, l1);
  }

  lemma UnpackStartoff(l0: u64, l1: u64)
    ensures UnpackWords(l0, l1).startoff == FromWords(l0, l1).0
  {
    HighWordMeans(l0);
  }

  lemma UnpackStartblock(l0: u64, l1: u64)
    ensures UnpackWords(l0, l1).startblock == FromWords(l0, l1).1
  {
    HighWordMeans(l0);
    LowWordMeans(l1);
    JoinMeans(l0 % 0x200, l1 / 0x20_0000 % 0x800_0000_0000);
  }

  lemma UnpackBlockcount(l0: u64, l1: u64)
    ensures UnpackWords(l0, l1).blockcount == FromWords(l0, l1).2
  {
    LowWordMeans(l1);
  }

  lemma UnpackFlag(l0: u64, l1: u64)
    ensures UnpackWords(l0, l1).unwritten == FromWords(l0, l1).3
  {
    HighWordMeans(l0);
  }

  lemma HighWordMeans(l0: u64)
    ensures And(l0, LowMask(9)) == l0 % 0x200
    ensures And(Shr(l0, 9), LowMask(54)) == l0 / 0x200 % 0x40_0000_0000_0000
    ensures And(Shr(l0, 63), 1) == l0 / 0x8000_0000_0000_0000 % 2
  {
    Pow2Fields();
    ShrDivides(l0, 9);
    ShrDivides(l0, 63);
    AndMask(l0, 9);
    AndMask(Shr(l0, 9), 54);
    AndOne(Shr(l0, 63));
  }

  lemma LowWordMeans(l1: u64)
    ensures And(Shr(l1, 21), LowMask(43)) == l1 / 0x20_0000 % 0x800_0000_0000
    ensures And(l1, LowMask(21)) == l1 % 0x20_0000
  {
    Pow2Fields();
    ShrDivides(l1, 21);
    AndMask(Shr(l1, 21), 43);
    AndMask(l1, 21);
  }

  lemma JoinMeans(hi: u64, lo: u64)
    requires hi < 0x200 && lo < 0x800_0000_0000
    ensures Or(Shl(hi, 43), lo) == hi * 0x800_0000_0000 + lo
  {
    Pow2Fields();
    ShlMultiplies(hi, 43);
    OrAdds(hi, lo, 43);
  }

  lemma AndOne(x: u64)
    ensures And(x, 1) == x % 2
  {
    AndOnes(x, 1);
  }

  lemma WordsRoundTrip(r: BmbtRec)
    requires Packable(r)
    ensures Word0(r) <= U64_MAX && Word1(r) <= U64_MAX
    ensures FromWords(Word0(r), Word1(r)) == (r.startoff, r.startblock, r.blockcount, r.unwritten)
  {
    var flag := if r.unwritten then 1 else 0;
    var hi, lo := r.startblock / 0x800_0000_0000, r.startblock % 0x800_0000_0000;
    FieldsOfWord0(flag, r.startoff, hi);
    DivModUnique(Word1(r), 0x20_0000, lo, r.blockcount);
  }

  lemma FieldsOfWord0(flag: nat, startoff: nat, hi: nat)
    requires flag <= 1 && startoff < 0x40_0000_0000_0000 && hi < 0x200
    ensures var l0 := flag * 0x8000_0000_0000_0000 + startoff * 0x200 + hi;
      && l0 / 0x8000_0000_0000_0000 == flag
      && l0 / 0x200 % 0x40_0000_0000_0000 == startoff
      && l0 % 0x200 == hi
  {
    var l0 := flag * 0x8000_0000_0000_0000 + startoff * 0x200 + hi;
    DivModUnique(l0, 0x8000_0000_0000_0000, flag, startoff * 0x200 + hi);
    DivModUnique(l0, 0x200, flag * 0x40_0000_0000_0000 + startoff, hi);
    DivModUnique(l0 / 0x200, 0x40_0000_0000_0000, flag, startoff);
  }

  lemma FromWordsInjective(l0: u64, l1: u64, m0: u64, m1: u64)
    requires FromWords(l0, l1) == FromWords(m0, m1)
    ensures l0 == m0 && l1 == m1
  {
    Word0Parts(l0);
    Word0Parts(m0);
    StartblockParts(l0 % 0x200, l1 / 0x20_0000 % 0x800_0000_0000);
    StartblockParts(m0 % 0x200, m1 / 0x20_0000 % 0x800_0000_0000);
  }

  lemma Word0Parts(l0: u64)
    ensures l0 == (l0 / 0x8000_0000_0000_0000 % 2) * 0x8000_0000_0000_0000
                  + (l0 / 0x200 % 0x40_0000_0000_0000) * 0x200 + l0 % 0x200
  {}

  lemma StartblockParts(hi: nat, lo: nat)
    requires lo < 0x800_0000_0000
    ensures (hi * 0x800_0000_0000 + lo) / 0x800_0000_0000 == hi
    ensures (hi * 0x800_0000_0000 + lo) % 0x800_0000_0000 == lo
  {
    DivModUnique(hi * 0x800_0000_0000 + lo, 0x800_0000_0000, hi, lo);
  }

  lemma FromWordsPackable(l0: u64, l1: u64)
    ensures var (so, sb, bc, _) := FromWords(l0, l1);
      so < 0x40_0000_0000_0000 && sb < 0x10_0000_0000_0000 && bc < 0x20_0000
  {}

  /** Unpacking undoes packing. */
  lemma UnpackPack(r: BmbtRec)
    requires Packable(r)
    ensures Unpack(Pack(r)) == r
  {
    var raw := Pack(r);
    assert raw[..8] == BeBytes(Word0(r), 8) && raw[8..] == BeBytes(Word1(r), 8);
    WordsRoundTrip(r);
    Pow2At64();
    BeNatOfBytes(Word0(r), 8);
    BeNatOfBytes(Word1(r), 8);
    UnpackMeans(raw);
    UnpackWordsMeans(Word0(r), Word1(r));
  }

  /** Packing undoes unpacking: every 16-byte string is the packing of one record. */
  lemma PackUnpack(raw: seq<byte>)
    requires |raw| == REC_LEN
    ensures Packable(Unpack(raw)) && Pack(Unpack(raw)) == raw
  {
    var r := Unpack(raw);
    var l0, l1 := BeNat(raw[..8]), BeNat(raw[8..]);
    Pow2At64();
    UnpackMeans(raw);
    UnpackWordsMeans(l0, l1);
    FromWordsPackable(l0, l1);
    WordsRoundTrip(r);
    FromWordsInjective(Word0(r), Word1(r), l0, l1);
    BytesOfBeNat(raw[..8]);
    BytesOfBeNat(raw[8..]);
    assert raw == raw[..8] + raw[8..];
  }

  // ------------------------------------------------------- the inline extent list

  /** The whole 16-byte records at the start of `data`, at most `n` of them, decoded one by one. */
  function Records<T>(decode: seq<byte> -> T, data: seq<byte>, n: nat): (recs: seq<T>)
    ensures |recs| == Min(n, |data| / REC_LEN)
  {
    seq(Min(n, |data| / REC_LEN), i requires 0 <= i < |data| / REC_LEN =>
      decode(data[REC_LEN * i..REC_LEN * i + REC_LEN]))
  }

  lemma RecordsExtend<T>(decode: seq<byte> -> T, data: seq<byte>, i: nat)
    requires REC_LEN * i + REC_LEN <= |data|
    ensures Records(decode, data, i + 1)
         == Records(decode, data, i) + [decode(data[REC_LEN * i..REC_LEN * i + REC_LEN])]
  {}

  lemma RecordsStop<T>(decode: seq<byte> -> T, data: seq<byte>, i: nat, n: nat)
    requires i <= n && REC_LEN * i <= |data| && (i == n || |data| < REC_LEN * i + REC_LEN)
    ensures Records(decode, data, n) == Records(decode, data, i)
  {}

  /** Record `i` of the data decodes to `recs[i]`. */
  ghost predicate DecodesTo<T>(decode: seq<byte> -> T, data: seq<byte>, recs: seq<T>) {
    REC_LEN * |recs| <= |data| &&
    forall i :: 0 <= i < |recs| ==> decode(data[REC_LEN * i..REC_LEN * i + REC_LEN]) == recs[i]
  }

  lemma RecordsAre<T>(decode: seq<byte> -> T, data: seq<byte>, n: nat, recs: seq<T>)
    requires DecodesTo(decode, data, recs) && n <= |recs|
    ensures Records(decode, data, n) == recs[..n]
  {}

  /** The loop of `read_extents` and of the bmap leaf reader: stop at the first record that does not fit. */
  method ReadRecords<T>(decode: seq<byte> -> T, data: seq<byte>, n: nat) returns (recs: seq<T>)
    ensures recs == Records(decode, data, n)
  {
    recs := [];
    var i := 0;
    while i < n
      invariant i <= n && REC_LEN * i <= |data|
      invariant recs == Records(decode, data, i)
    {
      var start := i * REC_LEN;
      var chunk := Get(data, start, start + REC_LEN);
      if chunk.None? {
        break;
      }
      RecordsExtend(decode, data, i);
      recs := recs + [decode(chunk.value)];
      i := i + 1;
    }
    RecordsStop(decode, data, i, n);
  }

  /** The records that fit the fork, at most `nextents` of them. */
  function ExtentList(fork: seq<byte>, nextents: nat): seq<BmbtRec> {
    Records(Unpack, fork, nextents)
  }

  method ReadExtents(fork: Image, nextents: u64) returns (recs: seq<BmbtRec>)
    ensures recs == ExtentList(fork, nextents)
  {
    recs := ReadRecords(Unpack, fork, nextents);
  }

  lemma {:induction false} PackAllAt(rs: seq<BmbtRec>, i: nat)
    requires i < |rs|
    ensures PackAll(rs)[REC_LEN * i..REC_LEN * i + REC_LEN] == Pack(rs[i])
  {
    if i > 0 {
      var rest := PackAll(rs[1..]);
      PackAllAt(rs[1..], i - 1);
      assert PackAll(rs)[REC_LEN * i..REC_LEN * i + REC_LEN]
          == rest[REC_LEN * (i - 1)..REC_LEN * (i - 1) + REC_LEN];
    }
  }

  lemma UnpackPackAll(rs: seq<BmbtRec>, i: nat)
    requires i < |rs| && Packable(rs[i])
    ensures Unpack(PackAll(rs)[REC_LEN * i..REC_LEN * i + REC_LEN]) == rs[i]
  {
    PackAllAt(rs, i);
    UnpackPack(rs[i]);
  }

  lemma UnpackHeld(fork: seq<byte>, rs: seq<BmbtRec>, i: nat)
    requires i < |rs| && Packable(rs[i]) && Holds(fork, 0, PackAll(rs))
    ensures REC_LEN * i + REC_LEN <= |fork|
    ensures Unpack(fork[REC_LEN * i..REC_LEN * i + REC_LEN]) == rs[i]
  {
    SliceOfPart(fork, 0, PackAll(rs), REC_LEN * i, REC_LEN * i + REC_LEN);
    assert fork[0..] == fork;
    UnpackPackAll(rs, i);
  }

  lemma PackedDecodes(fork: seq<byte>, rs: seq<BmbtRec>)
    requires (forall i :: 0 <= i < |rs| ==> Packable(rs[i])) && Holds(fork, 0, PackAll(rs))
    ensures DecodesTo(Unpack, fork, rs)
  {
    forall i | 0 <= i < |rs| ensures Unpack(fork[REC_LEN * i..REC_LEN * i + REC_LEN]) == rs[i] {
      UnpackHeld(fork, rs, i);
    }
  }

  /** Reading a fork that starts with packed records gives the first `nextents` of them back. */
  lemma ListOfPacked(fork: seq<byte>, rs: seq<BmbtRec>, nextents: nat)
    requires nextents <= |rs| && forall i :: 0 <= i < |rs| ==> Packable(rs[i])
    requires Holds(fork, 0, PackAll(rs))
    ensures ExtentList(fork, nextents) == rs[..nextents]
  {
    PackedDecodes(fork, rs);
    RecordsAre(Unpack, fork, nextents, rs);
  }

  /** Chunk `i` of the bytes is record `i` packed. */
  ghost predicate PacksTo(recs: seq<BmbtRec>, bytes: seq<byte>) {
    |bytes| == REC_LEN * |recs| &&
    forall i :: 0 <= i < |recs| ==> Pack(recs[i]) == bytes[REC_LEN * i..REC_LEN * i + REC_LEN]
  }

  lemma {:induction false} PackAllOfChunks(recs: seq<BmbtRec>, bytes: seq<byte>)
    requires PacksTo(recs, bytes)
    ensures PackAll(recs) == bytes
    decreases |recs|
  {
    if recs != [] {
      var rest := bytes[REC_LEN..];
      forall i | 0 <= i < |recs| - 1
        ensures Pack(recs[1..][i]) == rest[REC_LEN * i..REC_LEN * i + REC_LEN]
      {
        assert Pack(recs[i + 1]) == bytes[REC_LEN * (i + 1)..REC_LEN * (i + 1) + REC_LEN];
      }
      PackAllOfChunks(recs[1..], rest);
      assert bytes == bytes[..REC_LEN] + rest;
      assert Pack(recs[0]) == bytes[REC_LEN * 0..REC_LEN * 0 + REC_LEN];
    }
  }

  lemma ListPacksTo(fork: seq<byte>)
    ensures PacksTo(ExtentList(fork, |fork|), fork[..|fork| / REC_LEN * REC_LEN])
  {
    var recs, bytes := ExtentList(fork, |fork|), fork[..|fork| / REC_LEN * REC_LEN];
    forall i | 0 <= i < |recs|
      ensures Pack(recs[i]) == bytes[REC_LEN * i..REC_LEN * i + REC_LEN]
    {
      var raw := fork[REC_LEN * i..REC_LEN * i + REC_LEN];
      PackUnpack(raw);
      assert raw == bytes[REC_LEN * i..REC_LEN * i + REC_LEN];
    }
  }

  /** Packing what was read gives the whole records of the fork back, byte for byte. */
  lemma PackedList(fork: seq<byte>)
    ensures PackAll(ExtentList(fork, |fork|)) == fork[..|fork| / REC_LEN * REC_LEN]
  {
    ListPacksTo(fork);
    PackAllOfChunks(ExtentList(fork, |fork|), fork[..|fork| / REC_LEN * REC_LEN]);
  }

  lemma ExtentListPackable(fork: seq<byte>, nextents: nat)
    ensures forall r :: r in ExtentList(fork, nextents) ==> Packable(r)
  {
    forall i | 0 <= i < |ExtentList(fork, nextents)| ensures Packable(ExtentList(fork, nextents)[i]) {
      PackUnpack(fork[REC_LEN * i..REC_LEN * i + REC_LEN]);
    }
  }
}
