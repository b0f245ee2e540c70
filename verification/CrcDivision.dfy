/**
 CRC-32C as RFC 3720, section 12.1, defines it: the remainder of a polynomial
 division. Here the division is long division on bits; the proof that the shift
 register computes it is below.
 */
module CrcDivision {
  import opened Words
  import opened Bytes
  import opened Crc

  type Bits = seq<bool>

  /** The generator: x^32 + x^28 + x^27 + ... + 1. */
  const EXPONENTS: set<nat> := {32, 28, 27, 26, 25, 23, 22, 20, 19, 18, 14, 13, 11, 10, 9, 8, 6, 0}

  /** Its coefficients, from that of x^32 down. */
  function Generator(): (g: Bits)
    ensures |g| == 33
  {
    seq(33, k requires 0 <= k < 33 => (32 - k) in EXPONENTS)
  }

  /** The low `w` bits of a number, least significant first. */
  function BitsOf(n: nat, w: nat): (bits: Bits)
    ensures |bits| == w
  {
    if w == 0 then [] else [n % 2 == 1] + BitsOf(n / 2, w - 1)
  }

  function ValueOf(bits: Bits): nat {
    if bits == [] then 0 else (if bits[0] then 1 else 0) + 2 * ValueOf(bits[1..])
  }

  /** The bits of the message, each byte least significant bit first. */
  function MessageBits(data: seq<byte>): Bits {
    if data == [] then [] else BitsOf(data[0], 8) + MessageBits(data[1..])
  }

  /** The dividend: the message times x^32, its first 32 coefficients complemented. */
  function Dividend(message: Bits): (d: Bits)
    ensures |d| == |message| + 32
  {
    seq(|message| + 32, i requires 0 <= i => (i < |message| && message[i]) != (i < 32))
  }

  /** Take the divisor away from the leading coefficients if the first of them is set, and drop that one. */
  function Reduce(d: Bits, g: Bits): (r: Bits)
    requires 0 < |g| <= |d|
    ensures |r| == |d| - 1
  {
    if d[0] then seq(|d|, i requires 0 <= i < |d| => d[i] != (i < |g| && g[i]))[1..] else d[1..]
  }

  /** Long division: what is left when the divisor no longer fits. */
  function Remainder(d: Bits, g: Bits): (r: Bits)
    requires 0 < |g| <= |d| + 1
    ensures |r| == |g| - 1
    decreases |d|
  {
    if |d| < |g| then d else Remainder(Reduce(d, g), g)
  }

  /** The remainder complemented; the coefficient of x^31 is the lowest bit. */
  function Checksum(data: seq<byte>): nat {
    var r := Remainder(Dividend(MessageBits(data)), Generator());
    ValueOf(seq(32, k requires 0 <= k < 32 => !r[k]))
  }

  // --------------------------------------------------------------------- bits of numbers

  lemma {:induction false} ValueOfBits(n: nat, w: nat)
    requires n < Pow2(w)
    ensures ValueOf(BitsOf(n, w)) == n
    decreases w
  {
    if w > 0 {
      ValueOfBits(n / 2, w - 1);
      assert BitsOf(n, w)[1..] == BitsOf(n / 2, w - 1);
    }
  }

  lemma {:induction false} TopBitClear(n: nat, w: nat)
    requires n < Pow2(w)
    ensures BitsOf(n, w + 1) == BitsOf(n, w) + [false]
    decreases w
  {
    if w > 0 {
      TopBitClear(n / 2, w - 1);
    }
  }

  lemma XorBits(x: nat, y: nat)
    ensures Xor(x, y) % 2 == 1 <==> x % 2 != y % 2
    ensures Xor(x, y) / 2 == Xor(x / 2, y / 2)
  {}

  lemma {:induction false} BitsOfXor(x: nat, y: nat, w: nat)
    ensures forall i :: 0 <= i < w ==> BitsOf(Xor(x, y), w)[i] == (BitsOf(x, w)[i] != BitsOf(y, w)[i])
    decreases w
  {
    if w > 0 {
      XorBits(x, y);
      BitsOfXor(x / 2, y / 2, w - 1);
    }
  }

  /** The number's bits are the coefficients from x^(w - 1) down of the polynomial with these exponents. */
  ghost predicate Matches(n: nat, w: nat, exponents: set<nat>) {
    forall i :: 0 <= i < w ==> BitsOf(n, w)[i] == ((w - 1 - i) in exponents)
  }

  lemma MatchesStep(n: nat, w: nat, e: set<nat>)
    requires w > 0 && Matches(n / 2, w - 1, e) && (n % 2 == 1 <==> (w - 1) in e)
    ensures Matches(n, w, e)
  {}

  lemma MatchesNibble(n: nat, w: nat, e: set<nat>)
    requires w >= 4 && Matches(n / 16, w - 4, e)
    requires (n % 2 == 1 <==> (w - 1) in e) && (n / 2 % 2 == 1 <==> (w - 2) in e)
    requires (n / 4 % 2 == 1 <==> (w - 3) in e) && (n / 8 % 2 == 1 <==> (w - 4) in e)
    ensures Matches(n, w, e)
  {
    assert n / 8 / 2 == n / 16 && n / 4 / 2 == n / 8 && n / 2 / 2 == n / 4;
    MatchesStep(n / 8, w - 3, e);
    MatchesStep(n / 4, w - 2, e);
    MatchesStep(n / 2, w - 1, e);
    MatchesStep(n, w, e);
  }

  /** The register's polynomial is the generator without its leading coefficient. */
  lemma PolyMatches()
    ensures Matches(POLY, 32, EXPONENTS)
  {
    MatchesNibble(0x8, 4, EXPONENTS);
    MatchesNibble(0x82, 8, EXPONENTS);
    MatchesNibble(0x82F, 12, EXPONENTS);
    MatchesNibble(0x82F6, 16, EXPONENTS);
    MatchesNibble(0x8_2F63, 20, EXPONENTS);
    MatchesNibble(0x82_F63B, 24, EXPONENTS);
    MatchesNibble(0x82F_63B7, 28, EXPONENTS);
    MatchesNibble(0x82F6_3B78, 32, EXPONENTS);
  }

  /** The divisor of degree `w` whose lower coefficients are the bits of `p`. */
  ghost predicate Divisor(g: Bits, p: nat, w: nat) {
    |g| == w + 1 && g[0] && forall i :: 0 <= i < w ==> BitsOf(p, w)[i] == g[i + 1]
  }

  lemma MatchedDivisor(g: Bits, p: nat, w: nat, e: set<nat>)
    requires |g| == w + 1 && Matches(p, w, e) && w in e
    requires forall k :: 0 <= k <= w ==> g[k] == ((w - k) in e)
    ensures Divisor(g, p, w)
  {}

  lemma PolyIsDivisor()
    ensures Divisor(Generator(), POLY, 32)
  {
    PolyMatches();
    MatchedDivisor(Generator(), POLY, 32, EXPONENTS);
  }

  lemma {:induction false} OnesBits(n: nat, w: nat)
    requires n == Pow2(w) - 1
    ensures forall i :: 0 <= i < w ==> BitsOf(n, w)[i]
    decreases w
  {
    if w > 0 {
      OnesBits(n / 2, w - 1);
    }
  }

  lemma OnesBits32()
    ensures forall i :: 0 <= i < 32 ==> BitsOf(ONES, 32)[i]
  {
    Pow2Widths();
    OnesBits(ONES, 32);
  }

  // ----------------------------------------------------- the register, one bit at a time

  function Bit(b: bool): u32 {
    if b then 1 else 0
  }

  function FeedBits(c: u32, m: Bits): u32
    decreases |m|
  {
    if m == [] then c else FeedBits(BitStep(Xor32(c, Bit(m[0]))), m[1..])
  }

  lemma {:induction false} FeedBitsAppend(c: u32, a: Bits, b: Bits)
    ensures FeedBits(c, a + b) == FeedBits(FeedBits(c, a), b)
    decreases |a|
  {
    if a == [] {
      assert a + b == b;
    } else {
      assert (a + b)[1..] == a[1..] + b;
      FeedBitsAppend(BitStep(Xor32(c, Bit(a[0]))), a[1..], b);
    }
  }

  lemma PeelBit(c: u32, b: u32)
    ensures BitStep(Xor32(c, b)) == Xor32(BitStep(Xor32(c, Bit(b % 2 == 1))), b / 2)
  {
    var low: u32, high: u32 := b % 2, 2 * (b / 2);
    assert Xor(low, high) == b by { XorBits(low, high); XorPieces(low, b / 2); }
    XorAssociates(c, low, high);
    BitStepLinear(Xor32(c, low), high);
  }

  lemma XorPieces(low: nat, half: nat)
    requires low < 2
    ensures Xor(low, 2 * half) == low + 2 * half
  {
    XorBits(low, 2 * half);
  }

  /** Feeding a number's low bits one by one is feeding it at once. */
  lemma {:induction false} FeedNumber(c: u32, b: u32, n: nat)
    requires b < Pow2(n)
    ensures FeedBits(c, BitsOf(b, n)) == Iterate(BitStep, Xor32(c, b), n)
    decreases n
  {
    if n > 0 {
      var next := BitStep(Xor32(c, Bit(b % 2 == 1)));
      PeelBit(c, b);
      FeedNumber(next, b / 2, n - 1);
      assert BitsOf(b, n)[1..] == BitsOf(b / 2, n - 1);
    }
  }

  lemma {:induction false} FeedIsSerial(c: u32, data: seq<byte>)
    ensures Feed(c, data) == FeedBits(c, MessageBits(data))
    decreases |data|
  {
    if data != [] {
      assert data[0] < Pow2(8) by { Pow2Widths(); }
      FeedNumber(c, data[0], 8);
      FeedBitsAppend(c, BitsOf(data[0], 8), MessageBits(data[1..]));
      FeedIsSerial(FeedByte(c, data[0]), data[1..]);
    }
  }

  // ----------------------------------------------------------- the register divides

  function At(s: Bits, i: nat): bool {
    i < |s| && s[i]
  }

  /** The dividend that is left with register `r` and message `m`. */
  function Mix(r: Bits, m: Bits): (d: Bits)
    ensures |d| == |m| + |r|
  {
    seq(|m| + |r|, i requires 0 <= i => At(m, i) != At(r, i))
  }

  /** The register after one message bit, as bits. */
  function Next(r: Bits, b: bool, g: Bits): (s: Bits)
    requires 0 < |r| == |g| - 1
    ensures |s| == |r|
  {
    seq(|r|, i requires 0 <= i < |r| => At(r, i + 1) != (r[0] != b && g[i + 1]))
  }

  lemma ReduceMix(r: Bits, m: Bits, g: Bits)
    requires 0 < |r| == |g| - 1 && g[0] && m != []
    ensures Reduce(Mix(r, m), g) == Mix(Next(r, m[0], g), m[1..])
  {
    var d, e := Mix(r, m), Mix(Next(r, m[0], g), m[1..]);
    forall i | 0 <= i < |e| ensures Reduce(d, g)[i] == e[i] {
      assert At(m[1..], i) == At(m, i + 1);
    }
  }

  lemma HalfBits(c: nat, w: nat)
    requires w > 0 && c < Pow2(w)
    ensures forall i :: 0 <= i < w ==> BitsOf(c / 2, w)[i] == At(BitsOf(c, w), i + 1)
  {
    TopBitClear(c / 2, w - 1);
    assert BitsOf(c, w) == [c % 2 == 1] + BitsOf(c / 2, w - 1);
  }

  lemma StepWithPolyAt(c: nat, p: nat, g: Bits, w: nat, i: nat)
    requires w > 0 && c < Pow2(w) && Divisor(g, p, w) && i < w
    ensures BitsOf(Xor(c / 2, p), w)[i] == (At(BitsOf(c, w), i + 1) != g[i + 1])
  {
    HalfBits(c, w);
    BitsOfXor(c / 2, p, w);
  }

  /** One step of a register of width `w`, on numbers. */
  function StepOf(c: nat, b: bool, p: nat): nat {
    if (c % 2 == 1) != b then Xor(c / 2, p) else c / 2
  }

  lemma StepBits(c: nat, b: bool, p: nat, g: Bits, w: nat)
    requires w > 0 && c < Pow2(w) && Divisor(g, p, w)
    ensures BitsOf(StepOf(c, b, p), w) == Next(BitsOf(c, w), b, g)
  {
    forall i | 0 <= i < w ensures BitsOf(StepOf(c, b, p), w)[i] == Next(BitsOf(c, w), b, g)[i] {
      if (c % 2 == 1) != b {
        StepWithPolyAt(c, p, g, w, i);
      } else {
        HalfBits(c, w);
      }
    }
  }

  lemma StepIsStepOf(c: u32, b: bool)
    ensures BitStep(Xor32(c, Bit(b))) == StepOf(c, b, POLY)
  {
    XorBits(c, Bit(b));
  }

  lemma {:induction false} RegisterDivides(c: u32, m: Bits, g: Bits, w: nat)
    requires w == 32 && Divisor(g, POLY, w)
    ensures Remainder(Mix(BitsOf(c, w), m), g) == BitsOf(FeedBits(c, m), w)
    decreases |m|
  {
    var r := BitsOf(c, w);
    if m == [] {
      assert Mix(r, m) == r;
    } else {
      Pow2Widths();
      ReduceMix(r, m, g);
      StepIsStepOf(c, m[0]);
      StepBits(c, m[0], POLY, g, w);
      RegisterDivides(BitStep(Xor32(c, Bit(m[0]))), m[1..], g, w);
    }
  }

  lemma DividendIsMix(m: Bits)
    ensures Dividend(m) == Mix(BitsOf(ONES, 32), m)
  {
    OnesBits32();
  }

  lemma ComplementValue(x: u32)
    ensures ValueOf(seq(32, k requires 0 <= k < 32 => !BitsOf(x, 32)[k])) == Xor(x, ONES)
  {
    BitsOfXor(x, ONES, 32);
    OnesBits32();
    assert seq(32, k requires 0 <= k < 32 => !BitsOf(x, 32)[k]) == BitsOf(Xor32(x, ONES), 32);
    Pow2Widths();
    ValueOfBits(Xor32(x, ONES), 32);
  }

  /** On all data the shift register computes the checksum of the standard. */
  lemma RegisterIsStandard(data: seq<byte>)
    ensures Crc32c(data) == Checksum(data)
  {
    var m := MessageBits(data);
    DividendIsMix(m);
    PolyIsDivisor();
    RegisterDivides(ONES, m, Generator(), 32);
    FeedIsSerial(ONES, data);
    ComplementValue(Feed(ONES, data));
  }

  lemma LeNatOfFour(s: seq<byte>)
    requires |s| == 4
    ensures LeNat(s) == (s[0] as int) + 0x100 * (s[1] as int) + 0x1_0000 * (s[2] as int) + 0x100_0000 * (s[3] as int)
  {
    assert LeNat(s[3..]) == s[3] as int + 256 * LeNat([]);
    assert s[2..][1..] == s[3..] && LeNat(s[2..]) == s[2] as int + 256 * LeNat(s[3..]);
    assert s[1..][1..] == s[2..] && LeNat(s[1..]) == s[1] as int + 256 * LeNat(s[2..]);
  }

  /** A buffer verifies exactly when its little-endian field is the checksum of the rest, the field taken as zero. */
  lemma VerifiesByStandard(buffer: seq<byte>, off: nat)
    ensures Verifies(buffer, off) <==>
      && off + 4 <= |buffer|
      && (buffer[off] as int) + 0x100 * (buffer[off + 1] as int)
           + 0x1_0000 * (buffer[off + 2] as int) + 0x100_0000 * (buffer[off + 3] as int)
         == Checksum(buffer[..off] + [0, 0, 0, 0] + buffer[off + 4..])
  {
    if off + 4 <= |buffer| {
      LeNatOfFour(buffer[off..off + 4]);
      RegisterIsStandard(Zeroed(buffer, off));
    }
  }
}
