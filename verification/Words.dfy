/**
 Machine words: the unsigned widths the program computes in, its saturating and
 checked operations, and its shifts and masks.

 Bitwise `&` and `|` are defined bit by bit, so that the program's shift-and-mask
 expressions can be written down as they are; the lemmas say what they compute
 in terms of quotients and remainders.
 */
module Words {
  import opened Wrappers

  type u8 = x: int | 0 <= x < 0x100
  type u16 = x: int | 0 <= x < 0x1_0000
  type u32 = x: int | 0 <= x < 0x1_0000_0000
  type u64 = x: int | 0 <= x <= 0xFFFF_FFFF_FFFF_FFFF

  const U64_MAX: u64 := 0xFFFF_FFFF_FFFF_FFFF

  function Min(a: int, b: int): int {
    if a < b then a else b
  }

  function Max(a: int, b: int): int {
    if a < b then b else a
  }

  function SatSub(a: nat, b: nat): nat {
    if a < b then 0 else a - b
  }

  function SatAdd(a: u64, b: u64): u64 {
    if a + b <= U64_MAX then a + b else U64_MAX
  }

  function SatMul(a: u64, b: u64): u64 {
    MulNonNegative(a, b);
    if a * b <= U64_MAX then a * b else U64_MAX
  }

  function CheckedMul(a: u64, b: u64): Option<u64> {
    MulNonNegative(a, b);
    if a * b <= U64_MAX then Some(a * b) else None
  }

  function CheckedAdd(a: u64, b: u64): Option<u64> {
    if a + b <= U64_MAX then Some(a + b) else None
  }

  function Pow2(n: nat): (p: nat)
    ensures p >= 1
  {
    if n == 0 then 1 else 2 * Pow2(n - 1)
  }

  /** `checked_shr(n).unwrap_or(0)`: a shift of the whole width or more gives 0. */
  function Shr(x: u64, n: nat): u64 {
    DivShrinks(x, Pow2(n));
    if n >= 64 then 0 else x / Pow2(n)
  }

  /** `<<` on 64 bits: the bits shifted out at the top are lost. */
  function Shl(x: u64, n: nat): u64
    requires n < 64
  {
    x * Pow2(n) % 0x1_0000_0000_0000_0000
  }

  /** The low `n` bits set, all 64 of them when `n` is 64 or more. */
  function LowMask(n: nat): u64 {
    if n >= 64 then U64_MAX else Pow2Below(n, 64); Pow2(n) - 1
  }

  function And(x: nat, y: nat): nat {
    if x == 0 || y == 0 then 0
    else (if x % 2 == 1 && y % 2 == 1 then 1 else 0) + 2 * And(x / 2, y / 2)
  }

  function Or(x: nat, y: nat): nat {
    if x == 0 then y
    else if y == 0 then x
    else (if x % 2 == 1 || y % 2 == 1 then 1 else 0) + 2 * Or(x / 2, y / 2)
  }

  function Xor(x: nat, y: nat): nat {
    if x == 0 then y
    else if y == 0 then x
    else (if x % 2 != y % 2 then 1 else 0) + 2 * Xor(x / 2, y / 2)
  }

  // ---------------------------------------------------------------- arithmetic

  lemma MulNonNegative(a: nat, b: nat)
    ensures a * b >= 0
  {}

  lemma MulMono(a: nat, b: nat, k: nat)
    requires a <= b
    ensures a * k <= b * k && k * a <= k * b
  {}

  lemma DivShrinks(x: nat, d: nat)
    requires d >= 1
    ensures 0 <= x / d <= x
  {
    if x / d > x {
      MulMono(1, d, x / d);
    }
  }

  lemma DivModUnique(x: nat, d: nat, q: nat, r: nat)
    requires r < d && x == q * d + r
    ensures x / d == q && x % d == r
  {
    var q', r' := x / d, x % d;
    assert x == q' * d + r';
    assert (q - q') * d == r' - r;
    if q > q' { MulMono(1, q - q', d); }
    if q < q' { MulMono(1, q' - q, d); }
  }

  lemma DivModFact(x: nat, d: nat)
    requires d >= 1
    ensures x == (x / d) * d + x % d && 0 <= x % d < d && x / d >= 0
  {}

  lemma QuotientBounds(x: nat, len: nat, bs: nat)
    requires bs > 0
    ensures x <= len / bs <==> x * bs <= len
  {
    DivModFact(len, bs);
    if x <= len / bs {
      MulMono(x, len / bs, bs);
    } else {
      MulMono(len / bs + 1, x, bs);
      MulSucc(len / bs, bs);
    }
  }

  lemma ModShrinks(x: nat, d: nat)
    requires d >= 1
    ensures 0 <= x % d <= x
  {
    DivModFact(x, d);
    MulNonNegative(x / d, d);
  }

  lemma MulSucc(a: nat, k: nat)
    ensures (a + 1) * k == a * k + k
  {}

  lemma MulAssociates(a: nat, b: nat, c: nat)
    ensures a * (b * c) == (a * b) * c
  {}

  lemma MulDistributes(a: nat, b: nat, k: nat)
    ensures (a + b) * k == a * k + b * k
  {}

  /** Two different multiples of `d` are at least `d` apart. */
  lemma MultiplesApart(x: nat, y: nat, d: nat)
    requires d >= 1 && x % d == 0 && y % d == 0 && x < y
    ensures x + d <= y
  {
    DivModFact(x, d);
    DivModFact(y, d);
    var p, q := x / d, y / d;
    if p >= q { MulMono(q, p, d); }
    MulMono(p + 1, q, d);
    MulSucc(p, d);
  }

  // -------------------------------------------------------------------- powers

  lemma {:induction false} Pow2Add(m: nat, n: nat)
    ensures Pow2(m + n) == Pow2(m) * Pow2(n)
  {
    if m > 0 {
      Pow2Add(m - 1, n);
      assert Pow2(m + n) == 2 * Pow2(m - 1 + n);
    }
  }

  lemma {:induction false} Pow2Mono(m: nat, n: nat)
    requires m <= n
    ensures Pow2(m) <= Pow2(n)
  {
    Pow2Add(n - m, m);
    MulMono(1, Pow2(n - m), Pow2(m));
  }

  lemma Pow2Widths()
    ensures Pow2(8) == 0x100 && Pow2(16) == 0x1_0000 && Pow2(32) == 0x1_0000_0000
  {
    assert Pow2(4) == 16;
    Pow2Add(4, 4);
    Pow2Add(8, 8);
    Pow2Add(16, 16);
  }

  lemma Pow2At64()
    ensures Pow2(64) == 0x1_0000_0000_0000_0000
  {
    Pow2Widths();
    Pow2Add(32, 32);
  }

  lemma Pow2Below(n: nat, limit: nat)
    requires n < limit <= 64
    ensures 2 * Pow2(n) <= Pow2(limit) <= 0x1_0000_0000_0000_0000
  {
    Pow2At64();
    Pow2Mono(n + 1, limit);
    Pow2Mono(limit, 64);
  }

  // --------------------------------------------------- what the bit forms compute

  /** A right shift divides, also for shift counts of 64 and more. */
  lemma ShrDivides(x: u64, n: nat)
    ensures Shr(x, n) == x / Pow2(n)
  {
    if n >= 64 {
      Pow2At64();
      Pow2Mono(64, n);
      DivModUnique(x, Pow2(n), 0, x);
    }
  }

  lemma ModPeelsBit(x: nat, p: nat)
    requires p >= 1
    ensures x % (2 * p) == 2 * ((x / 2) % p) + x % 2
  {
    DivModFact(x / 2, p);
    var q, m := (x / 2) / p, (x / 2) % p;
    PullTwo(q, p);
    MulAssociates(2, q, p);
    DivModUnique(x, 2 * p, q, 2 * m + x % 2);
  }

  lemma {:induction false} AndOnes(x: nat, n: nat)
    ensures And(x, Pow2(n) - 1) == x % Pow2(n)
  {
    if n > 0 {
      AndOnes(x / 2, n - 1);
      var p := Pow2(n - 1);
      ModPeelsBit(x, p);
      var y := 2 * p - 1;
      assert y % 2 == 1 && y / 2 == p - 1;
      if x > 0 {
        assert And(x, y) == x % 2 + 2 * And(x / 2, p - 1);
      }
    }
  }

  /** Masking keeps the remainder, also for mask widths of 64 and more. */
  lemma AndEven(x: nat, y: nat)
    ensures And(x, 2 * y) == 2 * And(x / 2, y)
  {}

  lemma QuotientOfHalf(x: nat)
    ensures x / 2 / 2 == x / 4 && x / 4 / 2 == x / 8
  {}

  lemma AndTimes8(x: nat, m: nat)
    ensures And(x, 8 * m) == 8 * And(x / 8, m)
  {
    AndEven(x, 4 * m);
    AndEven(x / 2, 2 * m);
    AndEven(x / 4, m);
    QuotientOfHalf(x);
  }

  lemma And61Ones(x: nat)
    requires x <= 0x1FFF_FFFF_FFFF_FFFF
    ensures And(x, 0x1FFF_FFFF_FFFF_FFFF) == x
  {
    Pow2At61();
    AndOnes(x, 61);
  }

  /** `& !7` clears the low three bits. */
  lemma AndNot7(x: u64)
    ensures And(x, 0xFFFF_FFFF_FFFF_FFF8) == x - x % 8
  {
    AndTimes8(x, 0x1FFF_FFFF_FFFF_FFFF);
    And61Ones(x / 8);
  }

  lemma Pow2At61()
    ensures Pow2(61) == 0x2000_0000_0000_0000
  {
    Pow2At64();
    Pow2Add(61, 3);
    assert Pow2(3) == 8;
  }

  lemma AndMask(x: u64, n: nat)
    ensures And(x, LowMask(n)) == x % Pow2(n)
  {
    Pow2At64();
    if n < 64 {
      AndOnes(x, n);
    } else {
      AndOnes(x, 64);
      Pow2Mono(64, n);
      DivModUnique(x, Pow2(64), 0, x);
      DivModUnique(x, Pow2(n), 0, x);
    }
  }

  /** Or-ing disjoint bit fields adds them. */
  lemma {:induction false} OrAdds(x: nat, y: nat, n: nat)
    requires y < Pow2(n)
    ensures Or(x * Pow2(n), y) == x * Pow2(n) + y
  {
    if n == 0 {
      assert Or(x, 0) == x;
    } else if x > 0 && y > 0 {
      var h := x * Pow2(n - 1);
      assert x * Pow2(n) == 2 * h;
      assert h >= 1 by { MulMono(1, x, Pow2(n - 1)); }
      OrAdds(x, y / 2, n - 1);
    } else {
      assert x == 0 ==> x * Pow2(n) == 0;
    }
  }

  lemma {:induction false} OrBelow(x: nat, y: nat, n: nat)
    requires x < Pow2(n) && y < Pow2(n)
    ensures Or(x, y) < Pow2(n)
  {
    if x > 0 && y > 0 {
      OrBelow(x / 2, y / 2, n - 1);
    }
  }

  lemma {:induction false} AndAtMost(x: nat, y: nat)
    ensures And(x, y) <= x
  {
    if x > 0 && y > 0 {
      AndAtMost(x / 2, y / 2);
    }
  }

  function And64(x: u64, y: nat): (r: u64)
    ensures r == And(x, y)
  {
    AndAtMost(x, y);
    And(x, y)
  }

  function Or64(x: u64, y: u64): (r: u64)
    ensures r == Or(x, y)
  {
    Pow2At64();
    OrBelow(x, y, 64);
    Or(x, y)
  }

  /** A left shift that loses no bit multiplies. */
  lemma ShlMultiplies(x: u64, n: nat)
    requires n < 64 && x * Pow2(n) <= U64_MAX
    ensures Shl(x, n) == x * Pow2(n)
  {
    MulNonNegative(x, Pow2(n));
  }

  // ----------------------------------------------------------- exclusive or

  lemma {:induction false} XorHalves(x: nat, y: nat)
    ensures Xor(x, y) / 2 == Xor(x / 2, y / 2)
    ensures Xor(x, y) % 2 == if x % 2 != y % 2 then 1 else 0
  {}

  lemma {:induction false} XorCommutes(x: nat, y: nat)
    ensures Xor(x, y) == Xor(y, x)
  {
    if x > 0 && y > 0 {
      XorCommutes(x / 2, y / 2);
    }
  }

  lemma {:induction false} XorAssociates(x: nat, y: nat, z: nat)
    ensures Xor(Xor(x, y), z) == Xor(x, Xor(y, z))
    decreases x + y + z
  {
    if x > 0 && y > 0 && z > 0 {
      XorHalves(x, y);
      XorHalves(y, z);
      XorHalves(Xor(x, y), z);
      XorHalves(x, Xor(y, z));
      XorAssociates(x / 2, y / 2, z / 2);
    }
  }

  lemma {:induction false} XorSelf(x: nat)
    ensures Xor(x, x) == 0
  {
    if x > 0 {
      XorSelf(x / 2);
    }
  }

  lemma XorUndo(x: nat, k: nat)
    ensures Xor(Xor(x, k), k) == x
  {
    XorAssociates(x, k, k);
    XorSelf(k);
  }

  lemma XorCancel(x: nat, y: nat, k: nat)
    requires Xor(x, k) == Xor(y, k)
    ensures x == y
  {
    XorUndo(x, k);
    XorUndo(y, k);
  }

  lemma XorSwap(p: nat, q: nat, r: nat, s: nat)
    ensures Xor(Xor(p, q), Xor(r, s)) == Xor(Xor(p, r), Xor(q, s))
  {
    XorAssociates(p, q, Xor(r, s));
    XorAssociates(q, r, s);
    XorCommutes(q, r);
    XorAssociates(r, q, s);
    XorAssociates(p, r, Xor(q, s));
  }

  lemma {:induction false} XorBelow(x: nat, y: nat, n: nat)
    requires x < Pow2(n) && y < Pow2(n)
    ensures Xor(x, y) < Pow2(n)
  {
    if x > 0 && y > 0 {
      XorBelow(x / 2, y / 2, n - 1);
    }
  }

  /** Xor-ing disjoint bit fields adds them. */
  lemma {:induction false} XorAdds(x: nat, y: nat, n: nat)
    requires y < Pow2(n)
    ensures Xor(x * Pow2(n), y) == x * Pow2(n) + y
  {
    if n == 0 {
      assert Xor(x, 0) == x;
    } else if x > 0 && y > 0 {
      var h := x * Pow2(n - 1);
      assert x * Pow2(n) == 2 * h;
      assert h >= 1 by { MulMono(1, x, Pow2(n - 1)); }
      XorAdds(x, y / 2, n - 1);
    } else {
      assert x == 0 ==> x * Pow2(n) == 0;
    }
  }

  lemma XorDouble(x: nat, y: nat)
    ensures Xor(2 * x, 2 * y) == 2 * Xor(x, y)
  {
    XorHalves(2 * x, 2 * y);
  }

  lemma {:induction false} XorScales(x: nat, y: nat, n: nat)
    ensures Xor(x * Pow2(n), y * Pow2(n)) == Xor(x, y) * Pow2(n)
    decreases n
  {
    if n > 0 {
      XorScales(2 * x, 2 * y, n - 1);
      XorDouble(x, y);
      PullTwo(x, Pow2(n - 1));
      PullTwo(y, Pow2(n - 1));
      PullTwo(Xor(x, y), Pow2(n - 1));
    }
  }

  lemma PullTwo(x: nat, p: nat)
    ensures x * (2 * p) == (2 * x) * p
  {}
}
