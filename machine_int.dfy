/** Fixed-width unsigned integers of the Rust source, modelled as bounded ints,
    with the bitwise operations the driver uses written out arithmetically. */
module MachineInt {

  type u8 = x: int | 0 <= x < 0x100
  type u16 = x: int | 0 <= x < 0x1_0000
  type u32 = x: int | 0 <= x < 0x1_0000_0000
  type u64 = x: int | 0 <= x < 0x1_0000_0000_0000_0000
  type i32 = x: int | -0x8000_0000 <= x < 0x8000_0000

  const U32_MAX: int := 0xFFFF_FFFF
  const U64_MAX: int := 0xFFFF_FFFF_FFFF_FFFF

  function Pow2(n: nat): (r: nat)
    ensures r >= 1
  {
    if n == 0 then 1 else 2 * Pow2(n - 1)
  }

  /** The powers of two the driver's constants are written with. */
  lemma Pow2Values()
    ensures Pow2(1) == 2 && Pow2(2) == 4 && Pow2(3) == 8 && Pow2(5) == 32
    ensures Pow2(8) == 0x100 && Pow2(12) == 0x1000
    ensures Pow2(15) == 0x8000 && Pow2(16) == 0x1_0000
    ensures Pow2(21) == 0x20_0000
    ensures Pow2(23) == 0x80_0000 && Pow2(24) == 0x100_0000
    ensures Pow2(32) == 0x1_0000_0000
    ensures Pow2(55) == 0x80_0000_0000_0000
    ensures Pow2(63) == 0x8000_0000_0000_0000
    ensures Pow2(64) == 0x1_0000_0000_0000_0000
  {
    assert Pow2(8) == 0x100;
    assert Pow2(12) == 0x1000;
    assert Pow2(16) == 0x1_0000;
    assert Pow2(21) == 0x20_0000;
    assert Pow2(24) == 0x100_0000;
    assert Pow2(32) == 0x1_0000_0000;
    assert Pow2(40) == 0x100_0000_0000;
    assert Pow2(48) == 0x1_0000_0000_0000;
    assert Pow2(55) == 0x80_0000_0000_0000;
    assert Pow2(56) == 0x100_0000_0000_0000;
    assert Pow2(63) == 0x8000_0000_0000_0000;
  }

  lemma {:induction false} Pow2Add(a: nat, b: nat)
    ensures Pow2(a + b) == Pow2(a) * Pow2(b)
  {
    if a > 0 {
      Pow2Add(a - 1, b);
    }
  }

  lemma {:induction false} Pow2Monotone(a: nat, b: nat)
    requires a <= b
    ensures Pow2(a) <= Pow2(b)
  {
    if a < b {
      Pow2Monotone(a, b - 1);
    }
  }

  /** `u64::saturating_add` */
  function SatAdd64(a: u64, b: u64): (r: u64)
    ensures r == if a + b <= U64_MAX then a + b else U64_MAX
  {
    if a + b <= U64_MAX then a + b else U64_MAX
  }

  /** `u64::saturating_sub` */
  function SatSub64(a: u64, b: u64): (r: u64)
    ensures r == if a >= b then a - b else 0
  {
    if a >= b then a - b else 0
  }

  /** Unchecked `u64` arithmetic as a release build performs it: the
      mathematical result modulo 2^64. */
  function WrapU64(x: nat): (r: u64)
    ensures x <= U64_MAX ==> r == x
  {
    x % 0x1_0000_0000_0000_0000
  }

  /** Bitwise NOT of a `u64` */
  function Not64(a: u64): u64 {
    U64_MAX - a
  }

  /** `u32::div_ceil`: how many `b`-sized pieces cover `a`, counted one piece at a time. */
  function DivCeil(a: nat, b: nat): nat
    requires b > 0
    decreases a
  {
    if a == 0 then 0 else if a <= b then 1 else 1 + DivCeil(a - b, b)
  }

  /** `DivCeil` is the quotient rounded up. */
  lemma {:induction false} DivCeilIsCeiling(a: nat, b: nat)
    requires b > 0
    ensures DivCeil(a, b) == a / b + (if a % b == 0 then 0 else 1)
    decreases a
  {
    if a == 0 {
      DivModUnique(0, b, 0, 0);
    } else if a == b {
      DivModUnique(a, b, 1, 0);
    } else if a < b {
      DivModUnique(a, b, 0, a);
    } else {
      DivCeilIsCeiling(a - b, b);
      var q, r := (a - b) / b, (a - b) % b;
      assert a - b == q * b + r;
      assert a == (q + 1) * b + r;
      DivModUnique(a, b, q + 1, r);
    }
  }

  /** A positive divisor needs no more pieces than there are units. */
  lemma {:induction false} DivCeilAtMost(a: nat, b: nat)
    requires b > 0
    ensures DivCeil(a, b) <= a
    decreases a
  {
    if a > b {
      DivCeilAtMost(a - b, b);
    }
  }

  /** Bitwise AND of two naturals, bit by bit from the least-significant end. */
  function And(a: nat, b: nat): nat
    decreases a
  {
    if a == 0 || b == 0 then 0 else 2 * And(a / 2, b / 2) + (if a % 2 == 1 && b % 2 == 1 then 1 else 0)
  }

  /** Division and remainder are determined by any decomposition `x == q * d + r`. */
  lemma DivModUnique(x: int, d: int, q: int, r: int)
    requires d > 0 && 0 <= r < d && x == q * d + r
    ensures x / d == q && x % d == r
  {
    var q', r' := x / d, x % d;
    assert x == q' * d + r';
    assert (q' - q) * d == r - r';
    MulBound(q' - q, d);
  }

  lemma MulPred(a: int, b: int)
    ensures (a - 1) * b == a * b - b
  {
  }

  lemma MulBound(a: int, d: int)
    requires d > 0
    ensures a >= 1 ==> a * d >= d
    ensures a <= -1 ==> a * d <= -d
  {
  }

  lemma ModTwice(x: nat, m: nat)
    requires m > 0
    ensures x % (2 * m) == 2 * ((x / 2) % m) + x % 2
  {
    var q, r := x / 2, x % 2;
    var t, s := q / m, q % m;
    assert q == t * m + s;
    assert x == t * (2 * m) + (2 * s + r);
    DivModUnique(x, 2 * m, t, 2 * s + r);
  }

  /** A sum of multiples of `d` is a multiple of `d`. */
  lemma AddMultiples(x: int, y: int, d: int)
    requires d > 0 && x % d == 0 && y % d == 0
    ensures (x + y) % d == 0
  {
    var a, c := x / d, y / d;
    assert x == a * d;
    assert y == c * d;
    assert x + y == (a + c) * d;
    DivModUnique(x + y, d, a + c, 0);
  }

  lemma {:induction false} AndBoundedByLeft(a: nat, b: nat)
    ensures And(a, b) <= a
  {
    if a != 0 && b != 0 {
      AndBoundedByLeft(a / 2, b / 2);
    }
  }

  /** One step of `And` when the right operand is odd: the low bit is that of `x`. */
  lemma AndOdd(x: nat, b: nat, m: nat)
    requires x > 0 && b == 2 * m + 1
    ensures And(x, b) == 2 * And(x / 2, m) + x % 2
  {
    assert b / 2 == m && b % 2 == 1;
  }

  /** One step of `And` when the right operand is even and non-zero: the low bit is clear. */
  lemma AndEven(x: nat, b: nat, m: nat)
    requires x > 0 && m > 0 && b == 2 * m
    ensures And(x, b) == 2 * And(x / 2, m)
  {
    assert b / 2 == m && b % 2 == 0;
  }

  /** The low `k` bits of `x`, read off one at a time. */
  function Low(x: nat, k: nat): nat {
    if k == 0 then 0 else 2 * Low(x / 2, k - 1) + x % 2
  }

  /** The low `k` bits of `x` are `x` modulo 2^k. */
  lemma {:induction false} LowIsMod(x: nat, k: nat)
    ensures Low(x, k) == x % Pow2(k)
  {
    if k > 0 {
      LowIsMod(x / 2, k - 1);
      ModTwice(x, Pow2(k - 1));
    }
  }

  /** An `n`-bit value is its own low `n` bits. */
  lemma {:induction false} LowOfSmall(x: nat, n: nat)
    requires x < Pow2(n)
    ensures Low(x, n) == x
  {
    if n > 0 {
      LowOfSmall(x / 2, n - 1);
    }
  }

  /** `n` one-bits. */
  function Ones(n: nat): nat {
    if n == 0 then 0 else 2 * Ones(n - 1) + 1
  }

  /** One-bits at positions `k` to `n - 1`. */
  function HighMask(n: nat, k: nat): nat
    requires k <= n
  {
    if k == 0 then Ones(n) else 2 * HighMask(n - 1, k - 1)
  }

  lemma {:induction false} OnesIsPow2(n: nat)
    ensures Ones(n) == Pow2(n) - 1
  {
    if n > 0 {
      OnesIsPow2(n - 1);
    }
  }

  lemma {:induction false} HighMaskIsPow2(n: nat, k: nat)
    requires k <= n
    ensures HighMask(n, k) == Pow2(n) - Pow2(k)
  {
    if k == 0 {
      OnesIsPow2(n);
    } else {
      HighMaskIsPow2(n - 1, k - 1);
    }
  }

  /** Masking with `n` one-bits keeps the low `n` bits. */
  lemma {:induction false} AndOnes(x: nat, n: nat)
    ensures And(x, Ones(n)) == Low(x, n)
  {
    if n > 0 && x != 0 {
      AndOdd(x, Ones(n), Ones(n - 1));
      AndOnes(x / 2, n - 1);
    } else if n > 0 {
      AndOnes(0, n - 1);
    }
  }

  /** The inductive step of `AndHighMask` on plain numbers. */
  lemma AndClearStep(x: nat, b: nat, m: nat, lowHalf: nat, low: nat)
    requires x > 0 && m > 0 && b == 2 * m
    requires And(x / 2, m) == x / 2 - lowHalf && low == 2 * lowHalf + x % 2
    ensures And(x, b) == x - low
  {
    AndEven(x, b, m);
  }

  /** Masking an `n`-bit value with the bits from `k` up clears its low `k` bits. */
  lemma {:induction false} AndHighMask(x: nat, n: nat, k: nat)
    requires k <= n && x < Pow2(n)
    ensures And(x, HighMask(n, k)) == x - Low(x, k)
  {
    if k == n {
      HighMaskIsPow2(n, k);
      LowOfSmall(x, n);
    } else if k == 0 {
      AndOnes(x, n);
      LowOfSmall(x, n);
    } else if x != 0 {
      HighMaskIsPow2(n - 1, k - 1);
      Pow2Monotone(k, n - 1);
      AndHighMask(x / 2, n - 1, k - 1);
      AndClearStep(x, HighMask(n, k), HighMask(n - 1, k - 1), Low(x / 2, k - 1), Low(x, k));
    } else {
      LowOfSmall(0, k);
    }
  }

  /** Masking with the low `k` one-bits is reduction modulo 2^k. */
  lemma AndLowMask(x: nat, k: nat)
    ensures And(x, Pow2(k) - 1) == x % Pow2(k)
  {
    var b := Pow2(k) - 1;
    OnesIsPow2(k);
    assert b == Ones(k);
    AndOnes(x, k);
    assert And(x, b) == Low(x, k);
    LowIsMod(x, k);
  }

  /** Clearing the low `k` bits of an `n`-bit value rounds it down to a multiple of 2^k. */
  lemma AndClearLow(x: nat, n: nat, k: nat)
    requires k <= n && x < Pow2(n)
    ensures Pow2(k) <= Pow2(n)
    ensures And(x, Pow2(n) - Pow2(k)) == x - x % Pow2(k)
  {
    Pow2Monotone(k, n);
    var b := Pow2(n) - Pow2(k);
    HighMaskIsPow2(n, k);
    assert b == HighMask(n, k);
    AndHighMask(x, n, k);
    assert And(x, b) == x - Low(x, k);
    LowIsMod(x, k);
  }
}
