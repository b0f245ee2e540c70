/** Extended attributes: the short form, leaf blocks, and remote values. */
module Xattr {
  import opened Wrappers
  import opened Words
  import opened Bytes
  import opened Extent
  import opened Assemble
  import opened ParseLoop

  const ATTR_LOCAL: u8 := 0x01
  const ATTR_ROOT: u8 := 0x02
  const ATTR_SECURE: u8 := 0x04
  const ATTR_INCOMPLETE: u8 := 0x80
  const SF_HDR_LEN: nat := 4
  const LEAF_HDR_LEN: nat := 80
  const LEAF_HDR_LEN_V4: nat := 32
  const LEAF_COUNT_OFF: nat := 56
  const LEAF_COUNT_OFF_V4: nat := 12
  const LEAF_ENTRY_LEN: nat := 8
  const RMT_HDR_LEN: nat := 56
  const RMT_MAGIC: u32 := 0x5841_524D
  const MAX_VALUE_LEN: nat := 0x100_0000

  datatype Namespace = User | Trusted | Security

  datatype Storage = Shortform | LeafLocal | LeafRemote(valueblk: u32)

  datatype Xattr = Xattr(name: seq<byte>, namespace: Namespace, value: seq<byte>, storage: Storage, incomplete: bool)

  function NamespaceOf(flags: u8): Namespace {
    if And(flags, ATTR_ROOT) != 0 then Trusted
    else if And(flags, ATTR_SECURE) != 0 then Security
    else User
  }

  /** The flag bits: bit 1 is trusted, else bit 2 security, else user; the top bit is incomplete. */
  lemma FlagsMean(flags: u8)
    ensures NamespaceOf(flags) ==
      if flags / 2 % 2 == 1 then Trusted else if flags / 4 % 2 == 1 then Security else User
    ensures And(flags, ATTR_LOCAL) == flags % 2
    ensures And(flags, ATTR_INCOMPLETE) != 0 <==> flags >= 128
  {
    AndOnes(flags, 1);
    AndEven(flags, 1);
    AndOnes(flags / 2, 1);
    AndEven(flags, 2);
    AndEven(flags / 2, 1);
    AndOnes(flags / 2 / 2, 1);
    AndTimes8(flags, 16);
    AndTimes8(flags / 8, 2);
    AndEven(flags / 8 / 8, 1);
    AndOnes(flags / 8 / 8 / 2, 1);
  }

  // ---------------------------------------------------------------- remote values

  function Payload(bs: u32, v5: bool): nat {
    if v5 then SatSub(bs, RMT_HDR_LEN) else bs
  }

  /**
   The value bytes of one logical block: nothing when the block is unmapped, out
   of the image, or (v5) not a remote-value block.
   */
  function BlockBody(image: Image, bs: u32, recs: seq<BmbtRec>, logical: u64, v5: bool): Option<seq<byte>> {
    match MapLogical(recs, logical)
    case None => None
    case Some(fsblock) =>
      match BlockSlice(image, fsblock, bs)
      case None => None
      case Some(block) => BodyOf(block, v5)
  }

  /** What the program takes of the block: all of it on v4, what follows the header on v5. */
  function BodyOf(block: seq<byte>, v5: bool): Option<seq<byte>> {
    if !v5 then Some(block)
    else if BeU32(block, 0) != RMT_MAGIC then None
    else if RMT_HDR_LEN <= |block| then Some(block[RMT_HDR_LEN..])
    else Some([])
  }

  lemma BodyLength(image: Image, bs: u32, recs: seq<BmbtRec>, logical: u64, v5: bool)
    ensures BlockBody(image, bs, recs, logical, v5).Some? ==>
      |BlockBody(image, bs, recs, logical, v5).value| == Payload(bs, v5)
  {
    var fsblock := MapLogical(recs, logical);
    if fsblock.Some? {
      BlockSliceMeans(image, fsblock.value, bs);
    }
  }

  /** What the logical blocks of a remote value hold. */
  type Bodies = u64 -> Option<seq<byte>>

  function BodiesOf(image: Image, bs: u32, recs: seq<BmbtRec>, v5: bool): Bodies {
    (logical: u64) => BlockBody(image, bs, recs, logical, v5)
  }

  ghost predicate AllOfLength(bodies: Bodies, payload: nat) {
    forall logical :: bodies(logical).Some? ==> |bodies(logical).value| == payload
  }

  /** Up to `need` bytes gathered from consecutive logical blocks. */
  function Gather(bodies: Bodies, logical: u64, need: nat): (value: seq<byte>)
    decreases need
  {
    if need == 0 || logical == U64_MAX || bodies(logical).None? || bodies(logical).value == [] then []
    else
      var take := Min(need, |bodies(logical).value|);
      bodies(logical).value[..take] + Gather(bodies, logical + 1, need - take)
  }

  function RemoteValue(image: Image, bs: u32, recs: seq<BmbtRec>, valueblk: u32, valuelen: nat, v5: bool): seq<byte> {
    if valuelen > MAX_VALUE_LEN || Payload(bs, v5) == 0 then []
    else Gather(BodiesOf(image, bs, recs, v5), valueblk, valuelen)
  }

  method ReadRemoteValue(image: Image, bs: u32, recs: seq<BmbtRec>, valueblk: u32, valuelen: u32, v5: bool)
    returns (out: seq<byte>)
    ensures out == RemoteValue(image, bs, recs, valueblk, valuelen, v5)
  {
    if valuelen > MAX_VALUE_LEN {
      return [];
    }
    var payload := Payload(bs, v5);
    if payload == 0 {
      return [];
    }
    out := GatherBlocks(image, bs, recs, valueblk, valuelen, v5, BodiesOf(image, bs, recs, v5));
  }

  ghost predicate Reads(bodies: Bodies, image: Image, bs: u32, recs: seq<BmbtRec>, v5: bool) {
    forall l: u64 {:trigger BlockBody(image, bs, recs, l, v5)} :: bodies(l) == BlockBody(image, bs, recs, l, v5)
  }

  /** The loop: every iteration adds at least one byte, until the value is complete or a block is unreadable. */
  method GatherBlocks(image: Image, bs: u32, recs: seq<BmbtRec>, valueblk: u32, valuelen: u32, v5: bool,
                      ghost bodies: Bodies)
    returns (out: seq<byte>)
    requires Payload(bs, v5) > 0 && valuelen <= MAX_VALUE_LEN && Reads(bodies, image, bs, recs, v5)
    ensures out == Gather(bodies, valueblk, valuelen)
  {
    out := [];
    var logical: u64 := valueblk;
    ghost var rest := Gather(bodies, valueblk, valuelen);
    while |out| < valuelen
      invariant |out| <= valuelen && logical <= valueblk + |out|
      invariant rest == Gather(bodies, logical, valuelen - |out|)
      invariant Gather(bodies, valueblk, valuelen) == out + rest
      decreases valuelen - |out|
    {
      var body := BlockBody(image, bs, recs, logical, v5);
      assert bodies(logical) == body;
      if body.None? {
        break;
      }
      BodyLength(image, bs, recs, logical, v5);
      var want := Min(valuelen - |out|, |body.value|);
      rest := GatherStep(bodies, logical, valuelen - |out|, out);
      out := out + body.value[..want];
      logical := logical + 1;
    }
  }

  lemma GatherStep(bodies: Bodies, logical: u64, need: nat, out: seq<byte>) returns (rest: seq<byte>)
    requires 0 < need && logical < U64_MAX && bodies(logical).Some? && |bodies(logical).value| > 0
    ensures var take := Min(need, |bodies(logical).value|);
      && rest == Gather(bodies, logical + 1, need - take)
      && out + Gather(bodies, logical, need) == (out + bodies(logical).value[..take]) + rest
  {
    var take := Min(need, |bodies(logical).value|);
    rest := Gather(bodies, logical + 1, need - take);
    assert out + (bodies(logical).value[..take] + rest) == (out + bodies(logical).value[..take]) + rest;
  }

  /** The gathered bytes, one by one: byte `j` is byte `j % payload` of logical block `j / payload`. */
  lemma {:induction false} GatherByte(bodies: Bodies, payload: nat, logical: u64, need: nat, j: nat)
    requires AllOfLength(bodies, payload) && payload > 0 && logical + need < U64_MAX
    requires j < |Gather(bodies, logical, need)|
    ensures logical + j / payload <= U64_MAX && bodies(logical + j / payload).Some?
    ensures j % payload < |bodies(logical + j / payload).value|
    ensures Gather(bodies, logical, need)[j] == bodies(logical + j / payload).value[j % payload]
    decreases need
  {
    var take := Min(need, payload);
    if j < take {
      DivModUnique(j, payload, 0, j);
    } else {
      GatherByte(bodies, payload, logical + 1, need - take, j - payload);
      DivModFact(j - payload, payload);
      MulSucc((j - payload) / payload, payload);
      DivModUnique(j, payload, (j - payload) / payload + 1, (j - payload) % payload);
    }
  }

  /** With `good` readable blocks before the first unreadable one, the length is exactly theirs, or the value's. */
  lemma {:induction false} GatherLength(bodies: Bodies, payload: nat, logical: u64, need: nat, good: nat)
    requires AllOfLength(bodies, payload) && payload > 0 && logical + need < U64_MAX && logical + good <= U64_MAX
    requires forall l: u64 :: logical <= l < logical + good ==> bodies(l).Some?
    requires bodies(logical + good).None?
    ensures good * payload >= 0 && |Gather(bodies, logical, need)| == Min(need, good * payload)
    decreases need
  {
    MulNonNegative(good, payload);
    if need > 0 && good > 0 {
      var take := Min(need, payload);
      MulSucc(good - 1, payload);
      MulNonNegative(good - 1, payload);
      GatherLength(bodies, payload, logical + 1, need - take, good - 1);
    }
  }

  function Concat(chunks: seq<seq<byte>>): seq<byte> {
    if chunks == [] then [] else chunks[0] + Concat(chunks[1..])
  }

  /** A value cut into payload-size chunks: all full but the last, which is not empty. */
  predicate CutInto(chunks: seq<seq<byte>>, payload: nat) {
    forall k :: 0 <= k < |chunks| ==>
      if k < |chunks| - 1 then |chunks[k]| == payload else 0 < |chunks[k]| <= payload
  }

  /** Logical block `first + k` starts with chunk `k`. */
  ghost predicate Scattered(bodies: Bodies, first: u64, chunks: seq<seq<byte>>) {
    first + |chunks| <= U64_MAX &&
    forall l: u64 :: first <= l < first + |chunks| ==> bodies(l).Some? && chunks[l - first] <= bodies(l).value
  }

  /** Scatter, then gather: the value comes back exactly. */
  lemma {:induction false} GatherScattered(bodies: Bodies, payload: nat, first: u64, chunks: seq<seq<byte>>)
    requires AllOfLength(bodies, payload) && payload > 0
    requires CutInto(chunks, payload) && Scattered(bodies, first, chunks)
    ensures Gather(bodies, first, |Concat(chunks)|) == Concat(chunks)
    decreases |chunks|
  {
    if chunks != [] {
      var rest := chunks[1..];
      assert bodies(first).Some? && chunks[0] <= bodies(first).value;
      GatherScattered(bodies, payload, first + 1, rest);
      if rest == [] {
        assert Concat(chunks) == chunks[0] + [];
      }
    }
  }

  lemma BodiesHaveLength(image: Image, bs: u32, recs: seq<BmbtRec>, v5: bool)
    ensures AllOfLength(BodiesOf(image, bs, recs, v5), Payload(bs, v5))
  {
    var bodies := BodiesOf(image, bs, recs, v5);
    forall logical: u64 | bodies(logical).Some? ensures |bodies(logical).value| == Payload(bs, v5) {
      BodyLength(image, bs, recs, logical, v5);
    }
  }

  /** A v5 block of a remote value starts with 56 header bytes, "XARM" first; a v4 one has no header. */
  predicate RemoteHeader(hdr: seq<byte>, v5: bool) {
    if v5 then |hdr| == 56 && hdr[..4] == [0x58, 0x41, 0x52, 0x4D] else hdr == []
  }

  /** Room for the value in one block. */
  function Room(bs: u32, v5: bool): nat {
    if !v5 then bs else if bs < 56 then 0 else bs - 56
  }

  /** The chunk follows the header in the block at byte `at`, which lies in the image. */
  ghost predicate ChunkIn(image: Image, bs: u32, at: nat, v5: bool, chunk: seq<byte>) {
    at + bs <= |image| &&
    exists hdr :: RemoteHeader(hdr, v5) && |hdr| + |chunk| <= bs && Holds(image, at, hdr + chunk)
  }

  /** The chunk is in the block that the first extent covering the logical block gives for it. */
  ghost predicate ChunkAt(image: Image, bs: u32, recs: seq<BmbtRec>, logical: u64, v5: bool, chunk: seq<byte>) {
    exists f: nat :: FirstMapper(recs, logical, f)
      && BlockFor(recs[f], logical) * bs >= 0
      && ChunkIn(image, bs, BlockFor(recs[f], logical) * bs, v5, chunk)
  }

  /** Chunk `k` is at logical block `first + k` of the fork. */
  ghost predicate Placed(image: Image, bs: u32, recs: seq<BmbtRec>, first: u64, v5: bool, chunks: seq<seq<byte>>) {
    first + |chunks| <= U64_MAX &&
    forall k :: 0 <= k < |chunks| ==> ChunkAt(image, bs, recs, first + k, v5, chunks[k])
  }

  lemma RoomIsPayload(bs: u32, v5: bool)
    ensures Room(bs, v5) == Payload(bs, v5)
  {}

  lemma RemoteMagicBytes()
    ensures BeBytes(RMT_MAGIC, 4) == [0x58, 0x41, 0x52, 0x4D]
  {
    assert BeBytes(0x5841, 2) == [0x58, 0x41];
    assert BeBytes(0x5841_52, 3) == [0x58, 0x41, 0x52];
  }

  lemma HeaderIsStripped(block: seq<byte>, hdr: seq<byte>, chunk: seq<byte>, v5: bool)
    requires RemoteHeader(hdr, v5) && Holds(block, 0, hdr + chunk)
    ensures BodyOf(block, v5).Some? && chunk <= BodyOf(block, v5).value
  {
    HoldsParts(block, 0, hdr, chunk);
    if v5 {
      assert block[0..4] == hdr[..4];
      RemoteMagicBytes();
      HeldU32(block, 0, RMT_MAGIC);
    }
  }

  lemma BlockHolds(image: Image, bs: u32, at: nat, part: seq<byte>)
    requires at + bs <= |image| && |part| <= bs && Holds(image, at, part)
    ensures Holds(image[at..at + bs], 0, part)
  {
    SliceOfSlice(image, at, at + bs, 0, |part|);
  }

  lemma MappedBlock(image: Image, bs: u32, recs: seq<BmbtRec>, logical: u64, f: nat)
    requires bs > 0 && FirstMapper(recs, logical, f)
    requires 0 <= BlockFor(recs[f], logical) * bs && BlockFor(recs[f], logical) * bs + bs <= |image|
    ensures var at := BlockFor(recs[f], logical) * bs;
      MapLogical(recs, logical).Some? && BlockSlice(image, MapLogical(recs, logical).value, bs) == Some(image[at..at + bs])
  {
    FirstMapperWins(recs, logical, f);
    MulMono(1, bs, BlockFor(recs[f], logical));
    BlockSliceMeans(image, BlockFor(recs[f], logical), bs);
  }

  lemma ChunkIsBody(image: Image, bs: u32, recs: seq<BmbtRec>, logical: u64, v5: bool, chunk: seq<byte>)
    requires bs > 0 && ChunkAt(image, bs, recs, logical, v5, chunk)
    ensures var body := BlockBody(image, bs, recs, logical, v5); body.Some? && chunk <= body.value
  {
    var f: nat :| FirstMapper(recs, logical, f) && BlockFor(recs[f], logical) * bs >= 0
      && ChunkIn(image, bs, BlockFor(recs[f], logical) * bs, v5, chunk);
    var at := BlockFor(recs[f], logical) * bs;
    MappedBlock(image, bs, recs, logical, f);
    ChunkInBody(image, bs, at, v5, chunk);
  }

  lemma ChunkInBody(image: Image, bs: u32, at: nat, v5: bool, chunk: seq<byte>)
    requires ChunkIn(image, bs, at, v5, chunk)
    ensures var body := BodyOf(image[at..at + bs], v5); body.Some? && chunk <= body.value
  {
    var hdr :| RemoteHeader(hdr, v5) && |hdr| + |chunk| <= bs && Holds(image, at, hdr + chunk);
    BlockHolds(image, bs, at, hdr + chunk);
    HeaderIsStripped(image[at..at + bs], hdr, chunk, v5);
  }

  lemma PlacedChunk(image: Image, bs: u32, recs: seq<BmbtRec>, first: u64, v5: bool, chunks: seq<seq<byte>>, l: u64)
    requires bs > 0 && Placed(image, bs, recs, first, v5, chunks) && first <= l < first + |chunks|
    ensures var body := BlockBody(image, bs, recs, l, v5); body.Some? && chunks[l - first] <= body.value
  {
    var k := l - first;
    assert ChunkAt(image, bs, recs, first + k, v5, chunks[k]);
    ChunkIsBody(image, bs, recs, l, v5, chunks[k]);
  }

  lemma PlacedIsScattered(image: Image, bs: u32, recs: seq<BmbtRec>, first: u64, v5: bool, chunks: seq<seq<byte>>)
    requires bs > 0 && Placed(image, bs, recs, first, v5, chunks)
    ensures Scattered(BodiesOf(image, bs, recs, v5), first, chunks)
  {
    forall l: u64 | first <= l < first + |chunks|
      ensures var body := BlockBody(image, bs, recs, l, v5); body.Some? && chunks[l - first] <= body.value
    {
      PlacedChunk(image, bs, recs, first, v5, chunks, l);
    }
  }

  /**
   A value cut into chunks of the room in a block, each placed after its header in the
   block the extent map gives for the next logical block, is read back exactly.
   */
  lemma RemoteValueRoundTrip(image: Image, bs: u32, recs: seq<BmbtRec>, valueblk: u32, chunks: seq<seq<byte>>, v5: bool)
    requires Room(bs, v5) > 0 && |Concat(chunks)| <= 0x100_0000
    requires CutInto(chunks, Room(bs, v5)) && Placed(image, bs, recs, valueblk, v5, chunks)
    ensures RemoteValue(image, bs, recs, valueblk, |Concat(chunks)|, v5) == Concat(chunks)
  {
    RoomIsPayload(bs, v5);
    BodiesHaveLength(image, bs, recs, v5);
    PlacedIsScattered(image, bs, recs, valueblk, v5, chunks);
    GatherScattered(BodiesOf(image, bs, recs, v5), Payload(bs, v5), valueblk, chunks);
  }

  /** The logical block is not mapped, or its block is not wholly in the image, or (v5) lacks the magic. */
  predicate Unreadable(image: Image, bs: u32, recs: seq<BmbtRec>, logical: u64, v5: bool) {
    var fsblock := MapLogical(recs, logical);
    fsblock.None? ||
    var at := fsblock.value * bs;
    at < 0 || at + bs > |image| || (v5 && (bs < 4 || image[at..at + 4] != [0x58, 0x41, 0x52, 0x4D]))
  }

  lemma XarmIs(block: seq<byte>)
    ensures BeU32(block, 0) == RMT_MAGIC <==> |block| >= 4 && block[0..4] == [0x58, 0x41, 0x52, 0x4D]
  {
    RemoteMagicBytes();
    if |block| >= 4 {
      BytesOfBeNat(block[0..4]);
      Pow2Widths();
      BeNatOfBytes(RMT_MAGIC, 4);
    }
  }

  lemma BodyOfBytes(block: seq<byte>, v5: bool)
    ensures BodyOf(block, v5).None? <==> v5 && !(|block| >= 4 && block[0..4] == [0x58, 0x41, 0x52, 0x4D])
    ensures BodyOf(block, v5).Some? && |block| >= 56 ==> BodyOf(block, v5).value == if v5 then block[56..] else block
  {
    XarmIs(block);
  }

  lemma BodyMissingIff(image: Image, bs: u32, recs: seq<BmbtRec>, logical: u64, v5: bool)
    ensures BlockBody(image, bs, recs, logical, v5).None? <==> Unreadable(image, bs, recs, logical, v5)
  {
    var fsblock := MapLogical(recs, logical);
    if fsblock.Some? {
      BlockSliceMeans(image, fsblock.value, bs);
      var at := fsblock.value * bs;
      if 0 <= at && at + bs <= |image| {
        BodyOfBytes(image[at..at + bs], v5);
        if bs >= 4 {
          SliceOfSlice(image, at, at + bs, 0, 4);
        }
      }
    }
  }

  /** A result is cut short exactly at the first unreadable block. */
  lemma RemoteValueStops(image: Image, bs: u32, recs: seq<BmbtRec>, valueblk: u32, valuelen: u32, v5: bool, good: nat)
    requires Room(bs, v5) > 0 && valuelen <= 0x100_0000 && valueblk + good <= U64_MAX
    requires forall l: u64 :: valueblk <= l < valueblk + good ==> !Unreadable(image, bs, recs, l, v5)
    requires Unreadable(image, bs, recs, valueblk + good, v5)
    ensures good * Room(bs, v5) >= 0
    ensures |RemoteValue(image, bs, recs, valueblk, valuelen, v5)| == Min(valuelen, good * Room(bs, v5))
  {
    var bodies := BodiesOf(image, bs, recs, v5);
    RoomIsPayload(bs, v5);
    BodiesHaveLength(image, bs, recs, v5);
    forall l: u64 | valueblk <= l < valueblk + good ensures bodies(l).Some? {
      BodyMissingIff(image, bs, recs, l, v5);
    }
    BodyMissingIff(image, bs, recs, valueblk + good, v5);
    GatherLength(bodies, Payload(bs, v5), valueblk, valuelen, good);
  }

  /** Nothing is read for a value over 16 MiB, or when a block has no room for it. */
  lemma OversizedIsEmpty(image: Image, bs: u32, recs: seq<BmbtRec>, valueblk: u32, valuelen: u32, v5: bool)
    requires valuelen > 0x100_0000 || Room(bs, v5) == 0
    ensures RemoteValue(image, bs, recs, valueblk, valuelen, v5) == []
  {
    RoomIsPayload(bs, v5);
  }

  lemma BodyByte(image: Image, bs: u32, recs: seq<BmbtRec>, logical: u64, v5: bool, i: nat)
    requires BlockBody(image, bs, recs, logical, v5).Some? && i < |BlockBody(image, bs, recs, logical, v5).value|
    requires v5 ==> bs >= 56
    ensures MapLogical(recs, logical).Some?
    ensures var pos := MapLogical(recs, logical).value * bs + (if v5 then 56 else 0) + i;
      0 <= pos < |image| && BlockBody(image, bs, recs, logical, v5).value[i] == image[pos]
  {
    var fsblock := MapLogical(recs, logical);
    BlockSliceMeans(image, fsblock.value, bs);
    var at := fsblock.value * bs;
    BodyOfBytes(image[at..at + bs], v5);
  }

  lemma RemoteIsGather(image: Image, bs: u32, recs: seq<BmbtRec>, valueblk: u32, valuelen: u32, v5: bool)
    requires RemoteValue(image, bs, recs, valueblk, valuelen, v5) != []
    ensures RemoteValue(image, bs, recs, valueblk, valuelen, v5) == Gather(BodiesOf(image, bs, recs, v5), valueblk, valuelen)
    ensures valuelen <= 0x100_0000
  {}

  lemma GatheredByte(image: Image, bs: u32, recs: seq<BmbtRec>, first: u64, need: nat, v5: bool, j: nat, q: nat, i: nat)
    requires Room(bs, v5) > 0 && first + need < U64_MAX && q == j / Room(bs, v5) && i == j % Room(bs, v5)
    requires j < |Gather(BodiesOf(image, bs, recs, v5), first, need)|
    ensures first + q <= U64_MAX && BlockBody(image, bs, recs, first + q, v5).Some?
    ensures i < |BlockBody(image, bs, recs, first + q, v5).value|
    ensures Gather(BodiesOf(image, bs, recs, v5), first, need)[j] == BlockBody(image, bs, recs, first + q, v5).value[i]
  {
    RoomIsPayload(bs, v5);
    BodiesHaveLength(image, bs, recs, v5);
    GatherByte(BodiesOf(image, bs, recs, v5), Payload(bs, v5), first, need, j);
  }

  /** Byte `j` of a value is in the block mapped for logical block `valueblk + j / room`, after the header. */
  lemma RemoteValueByte(image: Image, bs: u32, recs: seq<BmbtRec>, valueblk: u32, valuelen: u32, v5: bool,
                        j: nat, q: nat, i: nat)
    requires Room(bs, v5) > 0 && j < |RemoteValue(image, bs, recs, valueblk, valuelen, v5)|
    requires q == j / Room(bs, v5) && i == j % Room(bs, v5)
    ensures valueblk + q <= U64_MAX && MapLogical(recs, valueblk + q).Some?
    ensures var pos := MapLogical(recs, valueblk + q).value * bs + (if v5 then 56 else 0) + i;
      0 <= pos < |image| && RemoteValue(image, bs, recs, valueblk, valuelen, v5)[j] == image[pos]
  {
    RemoteIsGather(image, bs, recs, valueblk, valuelen, v5);
    GatheredByte(image, bs, recs, valueblk, valuelen, v5, j, q, i);
    BodyByte(image, bs, recs, valueblk + q, v5, i);
  }

  // ----------------------------------------------------------------- the short form

  /** One packed entry: namelen, valuelen, flags, name, value. */
  function ShortEntry(fork: seq<byte>, off: nat): Option<(Xattr, nat)> {
    if off + 3 > |fork| then None
    else
      var namelen, valuelen, flags := fork[off], fork[off + 1], fork[off + 2];
      var nameStart := off + 3;
      var valueStart := nameStart + namelen;
      match Get(fork, nameStart, valueStart)
      case None => None
      case Some(name) =>
        match Get(fork, valueStart, valueStart + valuelen)
        case None => None
        case Some(value) =>
          Some((Xattr(name, NamespaceOf(flags), value, Shortform, And(flags, ATTR_INCOMPLETE) != 0),
                valueStart + valuelen))
  }

  function ShortformAttrs(fork: seq<byte>): seq<Xattr> {
    if |fork| < SF_HDR_LEN then [] else Run(ShortEntry, fork, SF_HDR_LEN, U8At(fork, 2))
  }

  method ParseShortform(fork: Image) returns (out: seq<Xattr>)
    ensures out == ShortformAttrs(fork)
  {
    if |fork| < SF_HDR_LEN {
      return [];
    }
    var count: nat := U8At(fork, 2);
    out := [];
    var off := SF_HDR_LEN;
    for i := 0 to count
      invariant out + Run(ShortEntry, fork, off, count - i) == ShortformAttrs(fork)
    {
      var entry := ShortEntry(fork, off);
      if entry.None? {
        break;
      }
      RunStep(ShortEntry, fork, off, count - i, out);
      out := out + [entry.value.0];
      off := entry.value.1;
    }
  }

  /** An attribute as the format stores it. */
  datatype RawAttr = RawAttr(name: Short, value: Short, flags: u8)

  function ShortBytes(a: RawAttr): seq<byte> {
    [|a.name|, |a.value|, a.flags] + a.name + a.value
  }

  function ShortDecoded(a: RawAttr): Xattr {
    Xattr(a.name, NamespaceOf(a.flags), a.value, Shortform, And(a.flags, ATTR_INCOMPLETE) != 0)
  }

  lemma ShortEntryReads(pre: seq<byte>, a: RawAttr, post: seq<byte>)
    ensures ShortEntry(pre + ShortBytes(a) + post, |pre|) == Some((ShortDecoded(a), |pre| + |ShortBytes(a)|))
  {
    var fork, o := pre + ShortBytes(a) + post, |pre|;
    var e := ShortBytes(a);
    assert fork[o] == e[0] && fork[o + 1] == e[1] && fork[o + 2] == e[2];
    var n, m := |a.name|, |a.value|;
    assert fork[o + 3..o + 3 + n] == e[3..3 + n] == a.name;
    assert fork[o + 3 + n..o + 3 + n + m] == e[3 + n..3 + n + m] == a.value;
  }

  lemma ShortReadsBack()
    ensures ReadsBack(ShortEntry, ShortBytes, ShortDecoded, (a: RawAttr) => true)
  {
    forall pre: seq<byte>, a: RawAttr, post: seq<byte>
      ensures ShortEntry(pre + ShortBytes(a) + post, |pre|) == Some((ShortDecoded(a), |pre| + |ShortBytes(a)|))
    {
      ShortEntryReads(pre, a, post);
    }
  }

  lemma AttrsRun(pre: seq<byte>, attrs: seq<RawAttr>, post: seq<byte>)
    ensures Run(ShortEntry, pre + EncodeAll(ShortBytes, attrs) + post, |pre|, |attrs|) == MapAll(ShortDecoded, attrs)
  {
    ShortReadsBack();
    RunReadsBack(ShortEntry, ShortBytes, ShortDecoded, (a: RawAttr) => true, pre, attrs, post);
  }

  /** Parsing an encoded short-form fork gives its attributes in order, whatever follows them. */
  lemma ShortformRoundTrip(fork: seq<byte>, hdr: seq<byte>, attrs: seq<RawAttr>, post: seq<byte>)
    requires fork == hdr + EncodeAll(ShortBytes, attrs) + post
    requires |hdr| == 4 && hdr[2] == |attrs|
    ensures ShortformAttrs(fork) == MapAll(ShortDecoded, attrs)
  {
    assert fork[2] == hdr[2];
    AttrsRun(hdr, attrs, post);
  }

  lemma ShortEntryStable(a: seq<byte>, b: seq<byte>, o: nat)
    requires a <= b && ShortEntry(a, o).Some?
    ensures ShortEntry(b, o) == ShortEntry(a, o)
  {
    var nameStart := o + 3;
    var valueStart := nameStart + a[o];
    GetOfPrefix(a, b, nameStart, valueStart);
    GetOfPrefix(a, b, valueStart, valueStart + a[o + 1]);
  }

  /** On any bytes, truncating the fork yields a prefix of the attributes. */
  lemma ShortformTruncates(a: seq<byte>, b: seq<byte>)
    requires a <= b
    ensures ShortformAttrs(a) <= ShortformAttrs(b)
  {
    if |a| >= SF_HDR_LEN {
      forall x: seq<byte>, y: seq<byte>, o: nat | x <= y && ShortEntry(x, o).Some?
        ensures ShortEntry(y, o) == ShortEntry(x, o)
      {
        ShortEntryStable(x, y, o);
      }
      RunOfPrefix(ShortEntry, a, b, SF_HDR_LEN, U8At(a, 2));
    }
  }

  // ---------------------------------------------------------------------- leaf blocks

  function LeafHdr(v5: bool): nat {
    if v5 then LEAF_HDR_LEN else LEAF_HDR_LEN_V4
  }

  function CountOff(v5: bool): nat {
    if v5 then LEAF_COUNT_OFF else LEAF_COUNT_OFF_V4
  }

  /** Name and value laid end to end in the block. */
  function LocalEntry(block: seq<byte>, nameidx: nat, flags: u8): Option<Xattr> {
    var valuelen, namelen := BeU16(block, nameidx), U8At(block, nameidx + 2);
    var ns := nameidx + 3;
    match Get(block, ns, ns + namelen)
    case None => None
    case Some(name) =>
      match Get(block, ns + namelen, ns + namelen + valuelen)
      case None => None
      case Some(value) =>
        Some(Xattr(name, NamespaceOf(flags), value, LeafLocal, And(flags, ATTR_INCOMPLETE) != 0))
  }

  /** The name in the block, the value in blocks of its own. */
  function RemoteEntry(image: Image, bs: u32, recs: seq<BmbtRec>, block: seq<byte>, v5: bool,
                       nameidx: nat, flags: u8): Option<Xattr> {
    var valueblk, valuelen, namelen := BeU32(block, nameidx), BeU32(block, nameidx + 4), U8At(block, nameidx + 8);
    var ns := nameidx + 9;
    match Get(block, ns, ns + namelen)
    case None => None
    case Some(name) =>
      Some(Xattr(name, NamespaceOf(flags), RemoteValue(image, bs, recs, valueblk, valuelen, v5),
                 LeafRemote(valueblk), And(flags, ATTR_INCOMPLETE) != 0))
  }

  function LeafEntry(image: Image, bs: u32, recs: seq<BmbtRec>, block: seq<byte>, v5: bool, i: nat): Option<Xattr> {
    var eo := LeafHdr(v5) + i * LEAF_ENTRY_LEN;
    NamedEntry(image, bs, recs, block, v5, BeU16(block, eo + 4), U8At(block, eo + 6))
  }

  /** The attribute whose name record is at `nameidx`. */
  function NamedEntry(image: Image, bs: u32, recs: seq<BmbtRec>, block: seq<byte>, v5: bool,
                      nameidx: nat, flags: u8): Option<Xattr> {
    if And(flags, ATTR_LOCAL) != 0 then LocalEntry(block, nameidx, flags)
    else RemoteEntry(image, bs, recs, block, v5, nameidx, flags)
  }

  function LeafEntries(image: Image, bs: u32, recs: seq<BmbtRec>, block: seq<byte>, v5: bool): nat -> Option<Xattr> {
    (i: nat) => LeafEntry(image, bs, recs, block, v5, i)
  }

  function LeafCount(block: seq<byte>, v5: bool): nat {
    Min(BeU16(block, CountOff(v5)), SatSub(|block|, LeafHdr(v5)) / LEAF_ENTRY_LEN)
  }

  /** The attributes of the block; an entry whose name or value does not fit is passed over. */
  function LeafAttrs(image: Image, bs: u32, recs: seq<BmbtRec>, block: seq<byte>, v5: bool): seq<Xattr> {
    Collect(LeafEntries(image, bs, recs, block, v5), 0, LeafCount(block, v5))
  }

  method ParseLeafBlock(image: Image, bs: u32, block: seq<byte>, recs: seq<BmbtRec>, v5: bool, before: seq<Xattr>)
    returns (out: seq<Xattr>)
    ensures out == before + LeafAttrs(image, bs, recs, block, v5)
  {
    out := CollectEntries(image, bs, block, recs, v5, before, LeafEntries(image, bs, recs, block, v5));
  }

  ghost predicate Lists(entries: nat -> Option<Xattr>, image: Image, bs: u32, recs: seq<BmbtRec>,
                        block: seq<byte>, v5: bool) {
    forall i: nat {:trigger LeafEntry(image, bs, recs, block, v5, i)} ::
      entries(i) == LeafEntry(image, bs, recs, block, v5, i)
  }

  method CollectEntries(image: Image, bs: u32, block: seq<byte>, recs: seq<BmbtRec>, v5: bool, before: seq<Xattr>,
                        ghost entries: nat -> Option<Xattr>)
    returns (out: seq<Xattr>)
    requires Lists(entries, image, bs, recs, block, v5)
    ensures out == before + Collect(entries, 0, LeafCount(block, v5))
  {
    var n := LeafCount(block, v5);
    out := before;
    for i := 0 to n
      invariant before + Collect(entries, 0, n) == out + Collect(entries, i, n)
    {
      var entry := ReadLeafEntry(image, bs, recs, block, v5, i);
      assert entry == entries(i);
      CollectStep(entries, i, n, out);
      if entry.Some? {
        out := out + [entry.value];
      }
    }
  }

  method ReadLeafEntry(image: Image, bs: u32, recs: seq<BmbtRec>, block: seq<byte>, v5: bool, i: nat)
    returns (entry: Option<Xattr>)
    ensures entry == LeafEntry(image, bs, recs, block, v5, i)
  {
    var eo := LeafHdr(v5) + i * LEAF_ENTRY_LEN;
    var nameidx, flags := BeU16(block, eo + 4), U8At(block, eo + 6);
    EntryIsNamed(image, bs, recs, block, v5, i, eo);
    entry := ReadNamedEntry(image, bs, recs, block, v5, nameidx, flags);
  }

  lemma EntryIsNamed(image: Image, bs: u32, recs: seq<BmbtRec>, block: seq<byte>, v5: bool, i: nat, eo: nat)
    requires eo == LeafHdr(v5) + i * LEAF_ENTRY_LEN
    ensures LeafEntry(image, bs, recs, block, v5, i)
         == NamedEntry(image, bs, recs, block, v5, BeU16(block, eo + 4), U8At(block, eo + 6))
  {}

  method ReadNamedEntry(image: Image, bs: u32, recs: seq<BmbtRec>, block: seq<byte>, v5: bool, nameidx: nat, flags: u8)
    returns (entry: Option<Xattr>)
    ensures entry == NamedEntry(image, bs, recs, block, v5, nameidx, flags)
  {
    if And(flags, ATTR_LOCAL) != 0 {
      entry := LocalEntry(block, nameidx, flags);
    } else {
      entry := ReadRemoteEntry(image, bs, recs, block, v5, nameidx, flags);
    }
  }

  method ReadRemoteEntry(image: Image, bs: u32, recs: seq<BmbtRec>, block: seq<byte>, v5: bool, nameidx: nat, flags: u8)
    returns (entry: Option<Xattr>)
    ensures entry == RemoteEntry(image, bs, recs, block, v5, nameidx, flags)
  {
    var valueblk, valuelen := BeU32(block, nameidx), BeU32(block, nameidx + 4);
    var ns := nameidx + 9;
    var name := Get(block, ns, ns + U8At(block, nameidx + 8));
    if name.None? {
      return None;
    }
    var value := ReadRemoteValue(image, bs, recs, valueblk, valuelen, v5);
    entry := Some(Xattr(name.value, NamespaceOf(flags), value, LeafRemote(valueblk),
                        And(flags, ATTR_INCOMPLETE) != 0));
  }

  /** An attribute as a leaf block stores it. */
  datatype StoredAttr =
    | StoredLocal(name: Short, value: seq<byte>, flags: u8)
    | StoredRemote(name: Short, valueblk: u32, chunks: seq<seq<byte>>, flags: u8)

  function AttrOf(a: StoredAttr): Xattr {
    match a
    case StoredLocal(name, value, flags) =>
      Xattr(name, NamespaceOf(flags), value, LeafLocal, And(flags, ATTR_INCOMPLETE) != 0)
    case StoredRemote(name, valueblk, chunks, flags) =>
      Xattr(name, NamespaceOf(flags), Concat(chunks), LeafRemote(valueblk), And(flags, ATTR_INCOMPLETE) != 0)
  }

  /** The bytes of the name record in the block. */
  function NameRecord(a: StoredAttr): seq<byte> {
    match a
    case StoredLocal(name, value, _) => BeBytes(|value|, 2) + ([|name|] + (name + value))
    case StoredRemote(name, valueblk, chunks, _) =>
      BeBytes(valueblk, 4) + (BeBytes(|Concat(chunks)|, 4) + ([|name|] + name))
  }

  /** The entries follow a header of 80 bytes on v5, 32 on v4; their count is at byte 56 or 12 of it. */
  function EntryAt(v5: bool, i: nat): nat {
    (if v5 then 80 else 32) + 8 * i
  }

  /** The attribute's name record is at `at` in the block, and a remote value is in its blocks. */
  ghost predicate NameAt(image: Image, bs: u32, recs: seq<BmbtRec>, block: seq<byte>, v5: bool, at: nat, a: StoredAttr) {
    && Holds(block, at, NameRecord(a))
    && (a.flags % 2 == 1 <==> a.StoredLocal?)
    && match a
       case StoredLocal(_, value, _) => |value| < 0x1_0000
       case StoredRemote(_, valueblk, chunks, _) =>
         && Room(bs, v5) > 0 && |Concat(chunks)| <= 0x100_0000
         && CutInto(chunks, Room(bs, v5))
         && Placed(image, bs, recs, valueblk, v5, chunks)
  }

  /** The entry at `eo` has the attribute's flags and points at its name record. */
  ghost predicate StoresAttr(image: Image, bs: u32, recs: seq<BmbtRec>, block: seq<byte>, v5: bool, eo: nat,
                             a: StoredAttr) {
    U8At(block, eo + 6) == a.flags && NameAt(image, bs, recs, block, v5, BeU16(block, eo + 4), a)
  }

  lemma EntryAtMeans(v5: bool, i: nat)
    ensures EntryAt(v5, i) == LeafHdr(v5) + i * LEAF_ENTRY_LEN
  {}

  lemma StoredLocalReads(block: seq<byte>, at: nat, a: StoredAttr)
    requires a.StoredLocal? && |a.value| < 0x1_0000 && Holds(block, at, NameRecord(a))
    ensures LocalEntry(block, at, a.flags) == Some(AttrOf(a))
  {
    HoldsParts(block, at, BeBytes(|a.value|, 2), [|a.name|] + (a.name + a.value));
    HeldU16(block, at, |a.value|);
    HoldsParts(block, at + 2, [|a.name|], a.name + a.value);
    HeldU8(block, at + 2, |a.name|);
    HoldsParts(block, at + 3, a.name, a.value);
  }

  lemma StoredRemoteReads(image: Image, bs: u32, recs: seq<BmbtRec>, block: seq<byte>, v5: bool, at: nat, a: StoredAttr)
    requires a.StoredRemote? && |Concat(a.chunks)| <= 0x100_0000 && Holds(block, at, NameRecord(a))
    requires RemoteValue(image, bs, recs, a.valueblk, |Concat(a.chunks)|, v5) == Concat(a.chunks)
    ensures RemoteEntry(image, bs, recs, block, v5, at, a.flags) == Some(AttrOf(a))
  {
    var len: u32 := |Concat(a.chunks)|;
    HoldsParts(block, at, BeBytes(a.valueblk, 4), BeBytes(len, 4) + ([|a.name|] + a.name));
    HeldU32(block, at, a.valueblk);
    HoldsParts(block, at + 4, BeBytes(len, 4), [|a.name|] + a.name);
    HeldU32(block, at + 4, len);
    HoldsParts(block, at + 8, [|a.name|], a.name);
    HeldU8(block, at + 8, |a.name|);
  }

  lemma NamedByFlag(image: Image, bs: u32, recs: seq<BmbtRec>, block: seq<byte>, v5: bool, at: nat, flags: u8)
    ensures NamedEntry(image, bs, recs, block, v5, at, flags) ==
      if flags % 2 == 1 then LocalEntry(block, at, flags) else RemoteEntry(image, bs, recs, block, v5, at, flags)
  {
    FlagsMean(flags);
  }

  lemma StoredNameReads(image: Image, bs: u32, recs: seq<BmbtRec>, block: seq<byte>, v5: bool, at: nat, a: StoredAttr)
    requires NameAt(image, bs, recs, block, v5, at, a)
    ensures NamedEntry(image, bs, recs, block, v5, at, a.flags) == Some(AttrOf(a))
  {
    NamedByFlag(image, bs, recs, block, v5, at, a.flags);
    match a
    case StoredLocal(_, _, _) => StoredLocalReads(block, at, a);
    case StoredRemote(_, valueblk, chunks, _) =>
      RemoteValueRoundTrip(image, bs, recs, valueblk, chunks, v5);
      StoredRemoteReads(image, bs, recs, block, v5, at, a);
  }

  lemma StoredAttrReads(image: Image, bs: u32, recs: seq<BmbtRec>, block: seq<byte>, v5: bool, i: nat, eo: nat,
                        a: StoredAttr)
    requires StoresAttr(image, bs, recs, block, v5, eo, a) && eo == LeafHdr(v5) + i * LEAF_ENTRY_LEN
    ensures LeafEntry(image, bs, recs, block, v5, i) == Some(AttrOf(a))
  {
    EntryIsNamed(image, bs, recs, block, v5, i, eo);
    StoredNameReads(image, bs, recs, block, v5, BeU16(block, eo + 4), a);
  }

  /** The name, or the value of a local attribute, runs out of the block. */
  predicate Misfit(block: seq<byte>, eo: nat) {
    var at := BeU16(block, eo + 4);
    if U8At(block, eo + 6) % 2 == 1 then at + 3 + U8At(block, at + 2) + BeU16(block, at) > |block|
    else at + 9 + U8At(block, at + 8) > |block|
  }

  lemma MisfitReadsNone(image: Image, bs: u32, recs: seq<BmbtRec>, block: seq<byte>, v5: bool, i: nat, eo: nat)
    requires Misfit(block, eo) && eo == LeafHdr(v5) + i * LEAF_ENTRY_LEN
    ensures LeafEntry(image, bs, recs, block, v5, i) == None
  {
    EntryIsNamed(image, bs, recs, block, v5, i, eo);
    NamedByFlag(image, bs, recs, block, v5, BeU16(block, eo + 4), U8At(block, eo + 6));
  }

  /** What the entry at `eo` stores: an attribute, or one that does not fit. */
  ghost predicate EntryIs(image: Image, bs: u32, recs: seq<BmbtRec>, block: seq<byte>, v5: bool, eo: nat,
                          a: Option<StoredAttr>) {
    if a.Some? then StoresAttr(image, bs, recs, block, v5, eo, a.value) else Misfit(block, eo)
  }

  lemma EntryReads(image: Image, bs: u32, recs: seq<BmbtRec>, block: seq<byte>, v5: bool, i: nat, a: Option<StoredAttr>)
    requires EntryIs(image, bs, recs, block, v5, EntryAt(v5, i), a)
    ensures LeafEntry(image, bs, recs, block, v5, i) == Decode(AttrOf, a)
  {
    EntryAtMeans(v5, i);
    if a.Some? {
      StoredAttrReads(image, bs, recs, block, v5, i, EntryAt(v5, i), a.value);
    } else {
      MisfitReadsNone(image, bs, recs, block, v5, i, EntryAt(v5, i));
    }
  }

  lemma EntriesCollected(entries: nat -> Option<Xattr>, image: Image, bs: u32, recs: seq<BmbtRec>,
                         block: seq<byte>, v5: bool, attrs: seq<Option<StoredAttr>>)
    requires Lists(entries, image, bs, recs, block, v5)
    requires forall k :: 0 <= k < |attrs| ==> EntryIs(image, bs, recs, block, v5, EntryAt(v5, k), attrs[k])
    ensures Collect(entries, 0, |attrs|) == MapAll(AttrOf, Present(attrs))
  {
    forall k | 0 <= k < |attrs| ensures entries(k) == Decode(AttrOf, attrs[k]) {
      EntryReads(image, bs, recs, block, v5, k, attrs[k]);
      assert entries(k) == LeafEntry(image, bs, recs, block, v5, k);
    }
    CollectPresent(entries, AttrOf, 0, attrs);
    assert attrs[0..] == attrs;
  }

  /** The entries the program looks at: as many as counted, or as fit when more are counted. */
  function Counted(block: seq<byte>, v5: bool): nat {
    var room := if |block| < EntryAt(v5, 0) then 0 else (|block| - EntryAt(v5, 0)) / 8;
    Min(BeU16(block, if v5 then 56 else 12), room)
  }

  lemma CountIs(block: seq<byte>, v5: bool)
    ensures LeafCount(block, v5) == Counted(block, v5)
  {}

  /**
   A leaf block whose entries store attributes, local and remote, or do not fit, parses
   to exactly the attributes stored, in order; those that do not fit are passed over.
   */
  lemma LeafBlockRoundTrip(image: Image, bs: u32, recs: seq<BmbtRec>, block: seq<byte>, v5: bool,
                           attrs: seq<Option<StoredAttr>>)
    requires Counted(block, v5) == |attrs|
    requires forall k :: 0 <= k < |attrs| ==> EntryIs(image, bs, recs, block, v5, EntryAt(v5, k), attrs[k])
    ensures LeafAttrs(image, bs, recs, block, v5) == MapAll(AttrOf, Present(attrs))
  {
    EntriesCollected(LeafEntries(image, bs, recs, block, v5), image, bs, recs, block, v5, attrs);
    CountIs(block, v5);
  }
}
