/** Bounds-checked big-endian reads over byte slices, and their encoders. */
module Bytes {
  import opened Wrappers
  import opened Words

  type byte = u8

  /** No slice is longer than `isize::MAX`. */
  type Image = s: seq<byte> | |s| < 0x8000_0000_0000_0000 witness []

  /** A name or value whose length is kept in one byte. */
  type Short = s: seq<byte> | |s| < 256 witness []

  /** `data.get(lo..hi)`. */
  function Get(data: seq<byte>, lo: nat, hi: nat): Option<seq<byte>> {
    if lo <= hi <= |data| then Some(data[lo..hi]) else None
  }

  /** The big-endian number the bytes spell. */
  function BeNat(s: seq<byte>): (n: nat)
    ensures n < Pow2(8 * |s|)
  {
    if s == [] then 0
    else
      Pow2Add(8, 8 * (|s| - 1)); Pow2Widths();
      256 * BeNat(s[..|s| - 1]) + s[|s| - 1]
  }

  /** The `width` bytes that spell `n`, most significant first. */
  function BeBytes(n: nat, width: nat): (s: seq<byte>)
    ensures |s| == width
  {
    if width == 0 then [] else BeBytes(n / 256, width - 1) + [n % 256]
  }

  function U8At(data: seq<byte>, off: nat): u8 {
    if off < |data| then data[off] else 0
  }

  function BeU16(data: seq<byte>, off: nat): u16 {
    Pow2Widths();
    if off + 2 <= |data| then BeNat(data[off..off + 2]) else 0
  }

  function BeU32(data: seq<byte>, off: nat): u32 {
    Pow2Widths();
    if off + 4 <= |data| then BeNat(data[off..off + 4]) else 0
  }

  function BeU64(data: seq<byte>, off: nat): u64 {
    Pow2At64();
    if off + 8 <= |data| then BeNat(data[off..off + 8]) else 0
  }

  /** The bytes of one filesystem block, by checked arithmetic. */
  function BlockSlice(image: Image, fsblock: u64, blocksize: u32): Option<seq<byte>> {
    match CheckedMul(fsblock, blocksize)
    case None => None
    case Some(start) =>
      match CheckedAdd(start, blocksize)
      case None => None
      case Some(end) => Get(image, start, end)
  }

  /** A block is delivered exactly when it lies wholly in the image. */
  lemma BlockSliceMeans(image: Image, fsblock: u64, blocksize: u32)
    ensures BlockSlice(image, fsblock, blocksize) ==
      if fsblock * blocksize + blocksize <= |image| && fsblock * blocksize >= 0
      then Some(image[fsblock * blocksize..fsblock * blocksize + blocksize]) else None
  {
    MulNonNegative(fsblock, blocksize);
  }

  lemma {:induction false} BeNatOfBytes(n: nat, width: nat)
    requires n < Pow2(8 * width)
    ensures BeNat(BeBytes(n, width)) == n
  {
    if width > 0 {
      LeadingFits(n, width);
      BeNatOfBytes(n / 256, width - 1);
      var s := BeBytes(n, width);
      assert s[..width - 1] == BeBytes(n / 256, width - 1);
    }
  }

  lemma LeadingFits(n: nat, width: nat)
    requires width > 0 && n < Pow2(8 * width)
    ensures n / 256 < Pow2(8 * (width - 1))
  {
    Pow2Add(8, 8 * (width - 1));
    Pow2Widths();
  }

  lemma {:induction false} BytesOfBeNat(s: seq<byte>)
    ensures BeBytes(BeNat(s), |s|) == s
  {
    if s != [] {
      var init := s[..|s| - 1];
      BytesOfBeNat(init);
      assert BeNat(s) / 256 == BeNat(init) && BeNat(s) % 256 == s[|s| - 1];
      assert s == init + [s[|s| - 1]];
    }
  }

  lemma SliceOfSlice<T>(s: seq<T>, a: nat, b: nat, i: nat, j: nat)
    requires a <= b <= |s| && i <= j <= b - a
    ensures s[a..b][i..j] == s[a + i..a + j]
    ensures s[a..][i..j] == s[a + i..a + j]
  {
    var x, y, z := s[a..b][i..j], s[a..][i..j], s[a + i..a + j];
    assert |x| == |y| == |z|;
    assert forall k :: 0 <= k < |z| ==> x[k] == z[k] == y[k];
  }

  /** A slice of a part found at `at` is a slice of the data from `at` on. */
  lemma SliceOfPart<T>(s: seq<T>, at: nat, part: seq<T>, i: nat, j: nat)
    requires at + |part| <= |s| && s[at..at + |part|] == part && i <= j <= |part|
    ensures s[at..][i..j] == part[i..j]
  {
    SliceOfSlice(s, at, at + |part|, i, j);
  }

  /** The data holds `part` at offset `at`. */
  predicate Holds(data: seq<byte>, at: nat, part: seq<byte>) {
    at + |part| <= |data| && data[at..at + |part|] == part
  }

  lemma HoldsMiddle(a: seq<byte>, b: seq<byte>, c: seq<byte>)
    ensures Holds(a + b + c, |a|, b)
  {}

  /** What holds a concatenation holds both parts. */
  lemma HoldsParts(data: seq<byte>, at: nat, a: seq<byte>, b: seq<byte>)
    requires Holds(data, at, a + b)
    ensures Holds(data, at, a) && Holds(data, at + |a|, b)
  {
    SliceOfSlice(data, at, at + |a + b|, 0, |a|);
    SliceOfSlice(data, at, at + |a + b|, |a|, |a + b|);
    assert (a + b)[0..|a|] == a && (a + b)[|a|..|a + b|] == b;
  }

  /** Two parts, each followed by padding. */
  lemma HoldsPadded(data: seq<byte>, at: nat, a: seq<byte>, padA: seq<byte>, b: seq<byte>, padB: seq<byte>)
    requires Holds(data, at, (a + padA) + (b + padB))
    ensures Holds(data, at, a) && Holds(data, at + |a| + |padA|, b)
  {
    HoldsParts(data, at, a + padA, b + padB);
    HoldsParts(data, at, a, padA);
    HoldsParts(data, at + |a + padA|, b, padB);
  }

  lemma HeldU8(data: seq<byte>, at: nat, v: byte)
    requires Holds(data, at, [v])
    ensures U8At(data, at) == v
  {
    assert data[at..at + 1][0] == data[at];
  }

  lemma HeldU16(data: seq<byte>, at: nat, n: u16)
    requires Holds(data, at, BeBytes(n, 2))
    ensures BeU16(data, at) == n
  {
    Pow2Widths();
    BeNatOfBytes(n, 2);
  }

  lemma HeldU32(data: seq<byte>, at: nat, n: u32)
    requires Holds(data, at, BeBytes(n, 4))
    ensures BeU32(data, at) == n
  {
    Pow2Widths();
    BeNatOfBytes(n, 4);
  }

  lemma HeldU64(data: seq<byte>, at: nat, n: u64)
    requires Holds(data, at, BeBytes(n, 8))
    ensures BeU64(data, at) == n
  {
    Pow2At64();
    BeNatOfBytes(n, 8);
  }

  /** The data holds an array of big-endian 64-bit words at offset `at`. */
  predicate HoldsWords(data: seq<byte>, at: nat, words: seq<u64>) {
    at + 8 * |words| <= |data| && forall i :: 0 <= i < |words| ==> BeU64(data, at + 8 * i) == words[i]
  }

  function BeArray(words: seq<u64>): (s: seq<byte>)
    ensures |s| == 8 * |words|
  {
    if words == [] then [] else BeBytes(words[0], 8) + BeArray(words[1..])
  }

  lemma {:induction false} HeldWord(data: seq<byte>, at: nat, words: seq<u64>, i: nat)
    requires i < |words| && Holds(data, at, BeArray(words))
    ensures BeU64(data, at + 8 * i) == words[i]
    decreases i
  {
    HoldsParts(data, at, BeBytes(words[0], 8), BeArray(words[1..]));
    if i == 0 {
      HeldU64(data, at, words[0]);
    } else {
      HeldWord(data, at + 8, words[1..], i - 1);
    }
  }

  lemma HeldArray(data: seq<byte>, at: nat, words: seq<u64>)
    requires Holds(data, at, BeArray(words))
    ensures HoldsWords(data, at, words)
  {
    if i :| 0 <= i < |words| && BeU64(data, at + 8 * i) != words[i] {
      HeldWord(data, at, words, i);
    }
  }

  /** Reading a field in a part of the data is reading it in the data, that much further on. */
  lemma PartU16(data: seq<byte>, part: seq<byte>, lo: nat, at: nat)
    requires lo + |part| <= |data| && part == data[lo..lo + |part|] && at + 2 <= |part|
    ensures BeU16(part, at) == BeU16(data, lo + at)
  {
    SliceOfSlice(data, lo, lo + |part|, at, at + 2);
  }

  lemma PartU32(data: seq<byte>, part: seq<byte>, lo: nat, at: nat)
    requires lo + |part| <= |data| && part == data[lo..lo + |part|] && at + 4 <= |part|
    ensures BeU32(part, at) == BeU32(data, lo + at)
  {
    SliceOfSlice(data, lo, lo + |part|, at, at + 4);
  }

  lemma PartU64(data: seq<byte>, part: seq<byte>, lo: nat, at: nat)
    requires lo + |part| <= |data| && part == data[lo..lo + |part|] && at + 8 <= |part|
    ensures BeU64(part, at) == BeU64(data, lo + at)
  {
    SliceOfSlice(data, lo, lo + |part|, at, at + 8);
  }

  lemma GetOfPrefix(a: seq<byte>, b: seq<byte>, lo: nat, hi: nat)
    requires a <= b && Get(a, lo, hi).Some?
    ensures Get(b, lo, hi) == Get(a, lo, hi)
  {
    SliceOfSlice(b, 0, |a|, lo, hi);
    assert a == b[0..|a|];
  }
}
