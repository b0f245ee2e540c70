/**
 CRC-32C (RFC 3720, section 12.1) and the verification of self-describing
 metadata: zero the checksum field in a scratch copy, checksum the copy,
 compare with the stored little-endian field.

 The checksum is modelled as the reflected shift register it is, one bit at a
 time; each register step is injective and linear, which is where the detection
 theorems come from.
 */
module Crc {
  import opened Wrappers
  import opened Words
  import opened Bytes

  /** The Castagnoli polynomial 0x1EDC6F41, bits reflected. */
  const POLY: u32 := 0x82F6_3B78
  const ONES: u32 := 0xFFFF_FFFF

  const SB_CRC_OFF: u64 := 224
  const AGF_CRC_OFF: u64 := 216
  const AGI_CRC_OFF: u64 := 312
  const DINODE_CRC_OFF: u64 := 100

  // ------------------------------------------------------------ the checksum

  function Xor32(a: u32, b: u32): (r: u32)
    ensures r == Xor(a, b)
  {
    Pow2Widths();
    XorBelow(a, b, 32);
    Xor(a, b)
  }

  /** The lowest bit leaves the register; when it is set the polynomial is added. */
  function BitStep(c: u32): u32 {
    if c % 2 == 1 then Xor32(c / 2, POLY) else c / 2
  }

  function Iterate<S>(f: S -> S, s: S, n: nat): S
    decreases n
  {
    if n == 0 then s else Iterate(f, f(s), n - 1)
  }

  function Fold<S>(f: (S, byte) -> S, s: S, data: seq<byte>): S
    decreases |data|
  {
    if data == [] then s else Fold(f, f(s, data[0]), data[1..])
  }

  function FeedByte(c: u32, b: byte): u32 {
    Iterate(BitStep, Xor32(c, b), 8)
  }

  function Feed(c: u32, data: seq<byte>): u32 {
    Fold(FeedByte, c, data)
  }

  function Crc32c(data: seq<byte>): u32 {
    Xor32(Feed(ONES, data), ONES)
  }

  // -------------------------------------------------------------- the verifier

  /** The little-endian number the bytes spell. */
  function LeNat(s: seq<byte>): nat
    decreases |s|
  {
    if s == [] then 0 else s[0] + 256 * LeNat(s[1..])
  }

  function LeBytes(n: nat, width: nat): (s: seq<byte>)
    ensures |s| == width
    decreases width
  {
    if width == 0 then [] else [n % 256] + LeBytes(n / 256, width - 1)
  }

  function Zeroed(buffer: seq<byte>, off: nat): (z: seq<byte>)
    requires off + 4 <= |buffer|
    ensures |z| == |buffer|
  {
    buffer[..off] + [0, 0, 0, 0] + buffer[off + 4..]
  }

  predicate Verifies(buffer: seq<byte>, off: nat) {
    off + 4 <= |buffer| && Crc32c(Zeroed(buffer, off)) == LeNat(buffer[off..off + 4])
  }

  method VerifyCrc(buffer: Image, crcOffset: u64) returns (ok: bool)
    ensures ok == Verifies(buffer, crcOffset)
  {
    var end := CheckedAdd(crcOffset, 4);
    if end.None? {
      return false;
    }
    var stored := Get(buffer, crcOffset, end.value);
    if stored.None? {
      return false;
    }
    var scratch := new byte[|buffer|](i requires 0 <= i < |buffer| => buffer[i]);
    for i := crcOffset to end.value
      invariant forall j :: 0 <= j < |buffer| ==>
        scratch[j] == if crcOffset <= j < i then 0 else buffer[j]
    {
      scratch[i] := 0;
    }
    assert scratch[..] == Zeroed(buffer, crcOffset);
    ok := Crc32c(scratch[..]) == LeNat(stored.value);
  }

  /** No CRC is claimed for a v4 structure. */
  function CrcStatus(isV5: bool, buffer: seq<byte>, off: nat): Option<bool> {
    if isV5 then Some(Verifies(buffer, off)) else None
  }

  /** The buffer with its checksum field filled in. */
  function Stamp(buffer: seq<byte>, off: nat): (s: seq<byte>)
    requires off + 4 <= |buffer|
    ensures |s| == |buffer|
  {
    buffer[..off] + LeBytes(Crc32c(Zeroed(buffer, off)), 4) + buffer[off + 4..]
  }

  // ----------------------------------------------------------- register algebra

  lemma {:induction false} FoldAppend<S>(f: (S, byte) -> S, s: S, a: seq<byte>, b: seq<byte>)
    ensures Fold(f, s, a + b) == Fold(f, Fold(f, s, a), b)
    decreases |a|
  {
    if a == [] {
      assert a + b == b;
    } else {
      assert (a + b)[1..] == a[1..] + b;
      FoldAppend(f, f(s, a[0]), a[1..], b);
    }
  }

  lemma {:induction false} FoldInjective<S(!new)>(f: (S, byte) -> S, s: S, t: S, data: seq<byte>)
    requires forall x, y, b :: f(x, b) == f(y, b) ==> x == y
    requires Fold(f, s, data) == Fold(f, t, data)
    ensures s == t
    decreases |data|
  {
    if data != [] {
      FoldInjective(f, f(s, data[0]), f(t, data[0]), data[1..]);
    }
  }

  lemma {:induction false} IterateInjective<S(!new)>(f: S -> S, s: S, t: S, n: nat)
    requires forall x, y :: f(x) == f(y) ==> x == y
    requires Iterate(f, s, n) == Iterate(f, t, n)
    ensures s == t
    decreases n
  {
    if n > 0 {
      IterateInjective(f, f(s), f(t), n - 1);
    }
  }

  lemma {:induction false} IterateDistributes<S(!new)>(f: S -> S, op: (S, S) -> S, s: S, t: S, n: nat)
    requires forall x, y :: f(op(x, y)) == op(f(x), f(y))
    ensures Iterate(f, op(s, t), n) == op(Iterate(f, s, n), Iterate(f, t, n))
    decreases n
  {
    if n > 0 {
      IterateDistributes(f, op, f(s), f(t), n - 1);
    }
  }

  lemma BitStepLinear(a: u32, b: u32)
    ensures BitStep(Xor32(a, b)) == Xor32(BitStep(a), BitStep(b))
  {
    XorHalves(a, b);
    var x, y := a / 2, b / 2;
    XorSwap(x, POLY, y, POLY);
    XorSelf(POLY);
    XorAssociates(x, y, POLY);
    XorCommutes(y, POLY);
    XorAssociates(x, POLY, y);
  }

  lemma BitStepInjective(a: u32, b: u32)
    requires BitStep(a) == BitStep(b)
    ensures a == b
  {
    var x, y := a / 2, b / 2;
    if a % 2 == 1 && b % 2 == 1 {
      XorCancel(x, y, POLY);
    } else if a % 2 != b % 2 {
      // The polynomial has bit 31 set; the halves do not.
      Pow2Widths();
      assert Pow2(32) == 2 * Pow2(31);
      XorBelow(x, y, 31);
      XorUndo(POLY, x);
      XorUndo(POLY, y);
      XorCommutes(x, POLY);
      XorCommutes(y, POLY);
      XorCommutes(x, y);
    }
  }

  lemma ByteStepsLinear(a: u32, b: u32)
    ensures Iterate(BitStep, Xor32(a, b), 8) == Xor32(Iterate(BitStep, a, 8), Iterate(BitStep, b, 8))
  {
    forall x: u32, y: u32 ensures BitStep(Xor32(x, y)) == Xor32(BitStep(x), BitStep(y)) {
      BitStepLinear(x, y);
    }
    IterateDistributes(BitStep, Xor32, a, b, 8);
  }

  /** The register never merges two different states. */
  lemma ByteStepsInjective(a: u32, b: u32)
    requires Iterate(BitStep, a, 8) == Iterate(BitStep, b, 8)
    ensures a == b
  {
    forall x: u32, y: u32 | BitStep(x) == BitStep(y) ensures x == y {
      BitStepInjective(x, y);
    }
    IterateInjective(BitStep, a, b, 8);
  }

  lemma FeedByteInjective(a: u32, b: u32, v: byte)
    requires FeedByte(a, v) == FeedByte(b, v)
    ensures a == b
  {
    ByteStepsInjective(Xor32(a, v), Xor32(b, v));
    XorCancel(a, b, v);
  }

  lemma {:induction false} StepsShift(c: u32, w: nat, n: nat)
    requires c == w * Pow2(n)
    ensures Iterate(BitStep, c, n) == w
    decreases n
  {
    if n > 0 {
      PullTwo(w, Pow2(n - 1));
      assert c == 2 * (w * Pow2(n - 1));
      StepsShift(BitStep(c), w, n - 1);
    }
  }

  lemma ByteFields(v: nat, w: nat, d: byte)
    ensures Xor(256 * v, 256 * w) == 256 * Xor(v, w)
    ensures Xor(256 * v, d) == d + 256 * v
  {
    var p := Pow2(8);
    assert p == 256 by { Pow2Widths(); }
    XorScales(v, w, 8);
    XorAdds(v, d, 8);
    assert v * p == 256 * v && w * p == 256 * w;
  }

  lemma XorBelow24(v: nat, w: nat)
    requires v < 0x100_0000 && w < 0x100_0000
    ensures Xor(v, w) < 0x100_0000
  {
    Pow2Widths();
    Pow2Add(8, 16);
    XorBelow(v, w, 24);
  }

  /** Registers that end `diff` apart after eight steps were `256 * diff` apart, when that fits. */
  lemma Preimage(x: u32, y: u32, diff: nat)
    requires diff < 0x100_0000
    requires Xor(Iterate(BitStep, x, 8), Iterate(BitStep, y, 8)) == diff
    ensures Xor(x, y) == 256 * diff
  {
    var c: u32 := 256 * diff;
    ByteStepsLinear(x, y);
    assert c == diff * Pow2(8) by { Pow2Widths(); }
    StepsShift(c, diff, 8);
    ByteStepsInjective(Xor32(x, y), c);
  }

  /** Two registers that meet after one byte each differed by exactly those bytes. */
  lemma ByteMeets(a: u32, b: u32, d: byte, e: byte, v: nat, w: nat)
    requires Xor(Xor(a, d), Xor(b, e)) == 256 * Xor(v, w)
    ensures Xor(a, b) == Xor(d + 256 * v, e + 256 * w)
  {
    ByteFields(v, w, d);
    ByteFields(w, v, e);
    ByteMeetsAlgebra(a, b, d, e, 256 * v, 256 * w);
  }

  lemma ByteMeetsAlgebra(a: nat, b: nat, d: nat, e: nat, v: nat, w: nat)
    requires Xor(Xor(a, d), Xor(b, e)) == Xor(v, w)
    ensures Xor(a, b) == Xor(Xor(v, d), Xor(w, e))
  {
    XorSwap(a, d, b, e);
    XorUndo(Xor(a, b), Xor(d, e));
    XorSwap(v, w, d, e);
  }

  lemma LeBelow24(s: seq<byte>)
    requires |s| <= 3
    ensures LeNat(s) < 0x100_0000
  {
    if |s| > 0 {
      var t := s[1..];
      if |t| > 0 {
        assert t[1..] == [] || t[1..][1..] == [];
      }
    }
  }

  ghost predicate MeetsOnly(f: (u32, byte) -> u32) {
    forall a: u32, b: u32, d: byte, e: byte, v: nat, w: nat ::
      v < 0x100_0000 && w < 0x100_0000 && Xor(f(a, d), f(b, e)) == Xor(v, w)
      ==> Xor(a, b) == Xor(d + 256 * v, e + 256 * w)
  }

  lemma FeedByteMeetsOnly()
    ensures MeetsOnly(FeedByte)
  {
    forall a: u32, b: u32, d: byte, e: byte, v: nat, w: nat
      | v < 0x100_0000 && w < 0x100_0000 && Xor(FeedByte(a, d), FeedByte(b, e)) == Xor(v, w)
      ensures Xor(a, b) == Xor(d + 256 * v, e + 256 * w)
    {
      XorBelow24(v, w);
      Preimage(Xor32(a, d), Xor32(b, e), Xor(v, w));
      ByteMeets(a, b, d, e, v, w);
    }
  }

  /** Two runs over at most four bytes that meet differed by exactly those bytes. */
  lemma {:induction false} FoldMeets(f: (u32, byte) -> u32, a: u32, b: u32, d: seq<byte>, e: seq<byte>)
    requires MeetsOnly(f)
    requires |d| == |e| <= 4 && Fold(f, a, d) == Fold(f, b, e)
    ensures Xor(a, b) == Xor(LeNat(d), LeNat(e))
    decreases |d|
  {
    if d == [] {
      XorSelf(a);
    } else {
      FoldMeets(f, f(a, d[0]), f(b, e[0]), d[1..], e[1..]);
      LeBelow24(d[1..]);
      LeBelow24(e[1..]);
    }
  }

  lemma {:induction false} LeNatInjective(d: seq<byte>, e: seq<byte>)
    requires |d| == |e| && LeNat(d) == LeNat(e)
    ensures d == e
    decreases |d|
  {
    if d != [] {
      LeNatInjective(d[1..], e[1..]);
      assert d == [d[0]] + d[1..] && e == [e[0]] + e[1..];
    }
  }

  lemma {:induction false} LeNatOfBytes(n: nat, width: nat)
    requires n < Pow2(8 * width)
    ensures LeNat(LeBytes(n, width)) == n
    decreases width
  {
    if width > 0 {
      Pow2Add(8, 8 * (width - 1));
      Pow2Widths();
      LeNatOfBytes(n / 256, width - 1);
      assert LeBytes(n, width)[1..] == LeBytes(n / 256, width - 1);
    }
  }

  // ------------------------------------------------------------------- theorems

  /** Replacing at most four consecutive bytes by others changes the checksum. */
  lemma BurstChangesCrc(pre: seq<byte>, d: seq<byte>, e: seq<byte>, post: seq<byte>)
    requires |d| == |e| <= 4 && d != e
    ensures Crc32c(pre + d + post) != Crc32c(pre + e + post)
  {
    if Crc32c(pre + d + post) == Crc32c(pre + e + post) {
      XorCancel(Feed(ONES, pre + d + post), Feed(ONES, pre + e + post), ONES);
      FoldAppend(FeedByte, ONES, pre + d, post);
      FoldAppend(FeedByte, ONES, pre + e, post);
      FoldAppend(FeedByte, ONES, pre, d);
      FoldAppend(FeedByte, ONES, pre, e);
      var c := Feed(ONES, pre);
      forall x: u32, y: u32, b: byte | FeedByte(x, b) == FeedByte(y, b) ensures x == y {
        FeedByteInjective(x, y, b);
      }
      FoldInjective(FeedByte, Feed(c, d), Feed(c, e), post);
      FeedByteMeetsOnly();
      FoldMeets(FeedByte, c, c, d, e);
      XorSelf(c);
      XorSelf(LeNat(e));
      XorCancel(LeNat(d), LeNat(e), LeNat(e));
      LeNatInjective(d, e);
    }
  }

  /** Stamping a buffer makes it verify, and touches only the checksum field. */
  lemma StampVerifies(buffer: seq<byte>, off: nat)
    requires off + 4 <= |buffer|
    ensures Verifies(Stamp(buffer, off), off)
    ensures Zeroed(Stamp(buffer, off), off) == Zeroed(buffer, off)
  {
    var s := Stamp(buffer, off);
    assert Zeroed(s, off) == Zeroed(buffer, off);
    assert s[off..off + 4] == LeBytes(Crc32c(Zeroed(buffer, off)), 4);
    Pow2Widths();
    LeNatOfBytes(Crc32c(Zeroed(buffer, off)), 4);
  }

  /** The stored field of a verifying buffer is determined by the other bytes. */
  lemma VerifiesIffStamped(buffer: seq<byte>, off: nat)
    requires off + 4 <= |buffer|
    ensures Verifies(buffer, off) <==> buffer == Stamp(buffer, off)
  {
    StampVerifies(buffer, off);
    var s := Stamp(buffer, off);
    if Verifies(buffer, off) {
      LeNatInjective(buffer[off..off + 4], s[off..off + 4]);
      assert buffer == buffer[..off] + buffer[off..off + 4] + buffer[off + 4..];
      assert s == s[..off] + s[off..off + 4] + s[off + 4..];
    }
  }

  /** The scratch-copy checksum equals the two-range streaming one. */
  lemma StreamingAgrees(buffer: seq<byte>, off: nat)
    requires off + 4 <= |buffer|
    ensures Crc32c(Zeroed(buffer, off))
         == Xor32(Feed(Feed(Feed(ONES, buffer[..off]), [0, 0, 0, 0]), buffer[off + 4..]), ONES)
  {
    FoldAppend(FeedByte, ONES, buffer[..off] + [0, 0, 0, 0], buffer[off + 4..]);
    FoldAppend(FeedByte, ONES, buffer[..off], [0, 0, 0, 0]);
  }

  /** Every byte outside `[p, p + n)` is the same in both buffers. */
  predicate SameOutside(a: seq<byte>, b: seq<byte>, p: nat, n: nat) {
    |a| == |b| && forall i :: 0 <= i < |a| && !(p <= i < p + n) ==> a[i] == b[i]
  }

  lemma SameWindow(a: seq<byte>, b: seq<byte>, p: nat, n: nat)
    requires p + n <= |a| && SameOutside(a, b, p, n)
    ensures a[p..p + n] == b[p..p + n] <==> a == b
    ensures b == a[..p] + b[p..p + n] + a[p + n..]
  {
    assert a == a[..p] + a[p..p + n] + a[p + n..];
  }

  /**
   Altering at most four consecutive bytes of a verifying buffer, all of them
   before, all of them after, or all of them in its checksum field, is detected.
   */
  lemma BurstIsDetected(a: seq<byte>, b: seq<byte>, off: nat, p: nat, n: nat)
    requires Verifies(a, off) && SameOutside(a, b, p, n) && a != b
    requires n <= 4 && p + n <= |a|
    requires p + n <= off || off + 4 <= p || off <= p <= p + n <= off + 4
    ensures !Verifies(b, off)
  {
    if off <= p <= p + n <= off + 4 {
      assert Zeroed(a, off) == Zeroed(b, off);
      SameWindow(a, b, off, 4);
      if Verifies(b, off) {
        LeNatInjective(a[off..off + 4], b[off..off + 4]);
      }
    } else {
      BurstOutsideField(a, b, off, p, n);
    }
  }

  lemma ZeroedElsewhere(a: seq<byte>, off: nat, p: nat, n: nat)
    requires off + 4 <= |a| && p + n <= |a|
    requires p + n <= off || off + 4 <= p
    ensures Zeroed(a, off)[p..p + n] == a[p..p + n]
  {}

  lemma BurstOutsideField(a: seq<byte>, b: seq<byte>, off: nat, p: nat, n: nat)
    requires Verifies(a, off) && SameOutside(a, b, p, n) && a != b
    requires n <= 4 && p + n <= |a|
    requires p + n <= off || off + 4 <= p
    ensures !Verifies(b, off)
  {
    var za, zb := Zeroed(a, off), Zeroed(b, off);
    SameWindow(a, b, p, n);
    SameWindow(za, zb, p, n);
    SameWindow(za, za, p, n);
    ZeroedElsewhere(a, off, p, n);
    ZeroedElsewhere(b, off, p, n);
    BurstChangesCrc(za[..p], za[p..p + n], zb[p..p + n], za[p + n..]);
    assert a[off..off + 4] == b[off..off + 4];
  }

  /** Altering any single byte of a verifying buffer, the checksum field included, is detected. */
  lemma SingleByteIsDetected(a: seq<byte>, off: nat, p: nat, v: byte)
    requires Verifies(a, off) && p < |a| && v != a[p]
    ensures !Verifies(a[p := v], off)
  {
    assert a[p := v][p] != a[p];
    BurstIsDetected(a, a[p := v], off, p, 1);
  }
}
