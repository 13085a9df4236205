/** The unsigned and signed machine integers of the kernel, and the few
    bitwise operators it uses (`&`, `|`, `!`, `>>` and truncating `as` casts),
    defined on mathematical integers. */
module Bits {

  const U64_LIMIT: int := 0x1_0000_0000_0000_0000
  const U32_LIMIT: int := 0x1_0000_0000

  type u64 = x: int | 0 <= x < U64_LIMIT
  type u32 = x: int | 0 <= x < U32_LIMIT
  type u8 = x: int | 0 <= x < 256
  type i32 = x: int | -0x8000_0000 <= x < 0x8000_0000
  type i8 = x: int | -128 <= x < 128

  function Pow2(k: nat): (r: nat)
    ensures r >= 1
  {
    if k == 0 then 1 else 2 * Pow2(k - 1)
  }

  /** Bitwise AND of two unsigned integers (Rust `a & b`). */
  function BitAnd(a: nat, b: nat): (r: nat)
    ensures r <= a && r <= b
    decreases a
  {
    if a == 0 || b == 0 then 0
    else 2 * BitAnd(a / 2, b / 2) + (if a % 2 == 1 && b % 2 == 1 then 1 else 0)
  }

  /** Bitwise OR of two unsigned integers (Rust `a | b`). */
  function BitOr(a: nat, b: nat): nat
    decreases a + b
  {
    if a == 0 then b
    else if b == 0 then a
    else 2 * BitOr(a / 2, b / 2) + (if a % 2 == 1 || b % 2 == 1 then 1 else 0)
  }

  /** Bitwise NOT at a fixed width (Rust `!a` on an unsigned integer of `width` bits). */
  function BitNot(a: nat, width: nat): (r: nat)
    requires a < Pow2(width)
    ensures r < Pow2(width)
  {
    Pow2(width) - 1 - a
  }

  /** Logical shift right (Rust `a >> k` on an unsigned integer), one bit at a time. */
  function Shr(a: nat, k: nat): nat
  {
    if k == 0 then a else Shr(a / 2, k - 1)
  }

  /** `x as i8`: keeps the low 8 bits, read as two's complement. */
  function ToI8(x: int): (r: i8)
    ensures (r - x) % 256 == 0
    ensures -128 <= x < 128 ==> r == x
  {
    var v := x % 256;
    if v >= 128 then v - 256 else v
  }

  /** `x as i32`: keeps the low 32 bits, read as two's complement. */
  function ToI32(x: int): (r: i32)
    ensures (r - x) % U32_LIMIT == 0
    ensures -0x8000_0000 <= x < 0x8000_0000 ==> r == x
  {
    var v := x % U32_LIMIT;
    if v >= 0x8000_0000 then v - U32_LIMIT else v
  }

  /** The low k bits of a, collected one bit at a time (LowIsMod: `a % 2^k`). */
  function Low(a: nat, k: nat): (r: nat)
  {
    if k == 0 then 0 else 2 * Low(a / 2, k - 1) + a % 2
  }

  // ----- arithmetic facts behind the bitwise lemmas -----

  lemma MulSign(x: int, d: nat)
    ensures x >= 1 ==> x * d >= d
    ensures x <= -1 ==> x * d <= -(d as int)
  {
  }

  /** Quotient and remainder are determined by `a == q * d + r, 0 <= r < d`. */
  lemma DivModUnique(a: int, d: nat, q: int, r: int)
    requires d > 0 && a == q * d + r && 0 <= r < d
    ensures a / d == q && a % d == r
  {
    var x := a / d - q;
    assert x * d == r - a % d;
    MulSign(x, d);
  }

  lemma {:induction false} Pow2Add(a: nat, b: nat)
    ensures Pow2(a + b) == Pow2(a) * Pow2(b)
  {
    if a > 0 {
      Pow2Add(a - 1, b);
    }
  }

  /** The low k bits of a are its low bit plus twice the low k-1 bits of a/2. */
  lemma {:induction false} ModPow2Step(a: nat, k: nat)
    requires k > 0
    ensures a % Pow2(k) == 2 * ((a / 2) % Pow2(k - 1)) + a % 2
  {
    var p := Pow2(k - 1);
    var q, s := (a / 2) / p, (a / 2) % p;
    assert a / 2 == q * p + s;
    assert a == q * (2 * p) + (2 * s + a % 2);
    DivModUnique(a, 2 * p, q, 2 * s + a % 2);
  }

  lemma {:induction false} LowIsMod(a: nat, k: nat)
    ensures Low(a, k) == a % Pow2(k)
  {
    if k > 0 {
      LowIsMod(a / 2, k - 1);
      ModPow2Step(a, k);
    }
  }

  /** A value below 2^k is its own low k bits. */
  lemma {:induction false} LowOfSmall(a: nat, k: nat)
    requires a < Pow2(k)
    ensures Low(a, k) == a
  {
    if k > 0 {
      LowOfSmall(a / 2, k - 1);
    }
  }

  lemma {:induction false} LowBound(a: nat, k: nat)
    ensures Low(a, k) < Pow2(k)
  {
    if k > 0 {
      LowBound(a / 2, k - 1);
    }
  }

  // ----- bitwise lemmas, on Low -----

  lemma {:induction false} BitAndLowMaskLow(a: nat, k: nat)
    ensures BitAnd(a, Pow2(k) - 1) == Low(a, k)
  {
    if k > 0 {
      var m := Pow2(k) - 1;
      assert m / 2 == Pow2(k - 1) - 1 && m % 2 == 1;
      BitAndLowMaskLow(a / 2, k - 1);
      if a == 0 {
        BitAndZeroLow(0, k);
      }
    }
  }

  lemma {:induction false} BitAndZeroLow(a: nat, k: nat)
    ensures Low(0, k) == 0
  {
    if k > 0 {
      BitAndZeroLow(a, k - 1);
    }
  }

  lemma {:induction false} BitAndHighMaskLow(a: nat, n: nat, k: nat)
    requires k <= n && Pow2(k) <= Pow2(n) && a < Pow2(n)
    ensures BitAnd(a, Pow2(n) - Pow2(k)) == a - Low(a, k)
    decreases k, 1
  {
    if k == 0 {
      BitAndLowMaskLow(a, n);
      LowOfSmall(a, n);
    } else {
      HighMaskStep(a, n, k);
    }
  }

  lemma {:induction false} HighMaskStep(a: nat, n: nat, k: nat)
    requires 0 < k <= n && Pow2(k) <= Pow2(n) && a < Pow2(n)
    ensures BitAnd(a, Pow2(n) - Pow2(k)) == a - Low(a, k)
    decreases k, 0
  {
    var p, q := Pow2(n - 1), Pow2(k - 1);
    assert Pow2(n) == 2 * p && Pow2(k) == 2 * q;
    assert a / 2 < p;
    Pow2Monotone(k - 1, n - 1);
    BitAndHighMaskLow(a / 2, n - 1, k - 1);
    BitAndEven(a, p - q);
    var l := Low(a / 2, k - 1);
    assert Low(a, k) == 2 * l + a % 2;
    assert BitAnd(a, Pow2(n) - Pow2(k)) == 2 * (a / 2 - l);
  }

  lemma BitAndEven(a: nat, m: nat)
    ensures BitAnd(a, 2 * m) == 2 * BitAnd(a / 2, m)
  {
    if a != 0 && m != 0 {
      assert (2 * m) / 2 == m && (2 * m) % 2 == 0;
    }
  }

  lemma {:induction false} BitAndLowBitsLow(a: nat, m: nat, k: nat)
    requires m < Pow2(k)
    ensures BitAnd(a, m) == BitAnd(Low(a, k), m)
  {
    if m == 0 {
    } else {
      assert k > 0;
      var a' := Low(a, k);
      assert a' / 2 == Low(a / 2, k - 1) && a' % 2 == a % 2;
      BitAndLowBitsLow(a / 2, m / 2, k - 1);
      if a' == 0 {
        assert Low(a / 2, k - 1) == 0 && a % 2 == 0;
        BitAndZeroMask(a / 2, m / 2, k - 1);
      }
      if a == 0 {
        BitAndZeroLow(0, k);
      }
    }
  }

  lemma {:induction false} BitAndZeroMask(a: nat, m: nat, k: nat)
    requires m < Pow2(k) && Low(a, k) == 0
    ensures BitAnd(a, m) == 0
  {
    if k > 0 && a != 0 && m != 0 {
      BitAndZeroMask(a / 2, m / 2, k - 1);
    }
  }

  lemma {:induction false} BitOrAlignedLow(a: nat, b: nat, k: nat)
    requires Low(a, k) == 0 && b < Pow2(k)
    ensures BitOr(a, b) == a + b
  {
    if k > 0 && a != 0 && b != 0 {
      BitOrAlignedLow(a / 2, b / 2, k - 1);
    }
  }

  /** Shifting right by k is dividing by 2^k. */
  lemma {:induction false} ShrIsDiv(a: nat, k: nat)
    ensures a == Shr(a, k) * Pow2(k) + Low(a, k)
    ensures Shr(a, k) == a / Pow2(k)
  {
    if k > 0 {
      ShrIsDiv(a / 2, k - 1);
      var q, p := Shr(a / 2, k - 1), Pow2(k - 1);
      assert a / 2 == q * p + Low(a / 2, k - 1);
      assert q * Pow2(k) == 2 * (q * p);
    }
    LowBound(a, k);
    DivModUnique(a, Pow2(k), Shr(a, k), Low(a, k));
  }

  lemma Pow2Monotone(j: nat, k: nat)
    requires j <= k
    ensures Pow2(j) <= Pow2(k)
  {
  }

  // ----- bitwise lemmas -----

  /** `a & (2^k - 1)` keeps the low k bits. */
  lemma BitAndLowMask(a: nat, k: nat)
    ensures BitAnd(a, Pow2(k) - 1) == a % Pow2(k)
  {
    BitAndLowMaskLow(a, k);
    LowIsMod(a, k);
  }

  /** For a below 2^n, `a & (2^n - 2^k)` clears the low k bits. */
  lemma BitAndHighMask(a: nat, n: nat, k: nat)
    requires k <= n && Pow2(k) <= Pow2(n) && a < Pow2(n)
    ensures BitAnd(a, Pow2(n) - Pow2(k)) == a - a % Pow2(k)
  {
    BitAndHighMaskLow(a, n, k);
    LowIsMod(a, k);
  }

  /** Only the low k bits of a matter when the mask is below 2^k. */
  lemma BitAndLowBits(a: nat, m: nat, k: nat)
    requires m < Pow2(k)
    ensures BitAnd(a, m) == BitAnd(a % Pow2(k), m)
  {
    BitAndLowBitsLow(a, m, k);
    LowIsMod(a, k);
  }

  /** An aligned value OR'd with a value below the alignment is their sum. */
  lemma BitOrAligned(a: nat, b: nat, k: nat)
    requires a % Pow2(k) == 0 && b < Pow2(k)
    ensures BitOr(a, b) == a + b
  {
    LowIsMod(a, k);
    BitOrAlignedLow(a, b, k);
  }

  lemma Pow2Values()
    ensures Pow2(1) == 2 && Pow2(8) == 256 && Pow2(12) == 4096 && Pow2(32) == U32_LIMIT
    ensures Pow2(64) == U64_LIMIT
  {
    assert Pow2(4) == 16;
    Pow2Add(4, 4);
    Pow2Add(8, 4);
    Pow2Add(8, 8);
    Pow2Add(16, 16);
    Pow2Add(32, 32);
  }
}
