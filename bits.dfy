/**
 * Integer arithmetic shared by both revisions of the growable buffer and by
 * the string set: powers of two, the `next_pow2` rounding, fixed-width
 * wrap-around, and bitwise AND, OR and XOR on naturals.
 */
module Bits {

  const U8: nat := 0x100
  const U16: nat := 0x1_0000
  const U24: nat := 0x100_0000
  const U32: nat := 0x1_0000_0000

  /** Truncation of a C integer to `uint32_t` (Dafny's `%` is Euclidean, so negative values wrap as in C). */
  function Wrap32(x: int): (r: nat)
    ensures r < U32
  { x % U32 }

  /** The low 24 bits: what is left of a `uint32_t` shifted left by 8 once it is shifted back. */
  function Wrap24(x: int): (r: nat)
    ensures r < U24
  { x % U24 }

  /** Truncation to `uint16_t`. */
  function Wrap16(x: int): (r: nat)
    ensures r < U16
  { x % U16 }

  /** Truncation to `uint8_t`. */
  function Wrap8(x: int): (r: nat)
    ensures r < U8
  { x % U8 }

  /** Euclidean division is unique: a quotient and remainder in range are the ones `/` and `%` give. */
  lemma DivModUnique(x: int, m: nat, q: int, r: int)
    requires m > 0 && x == q * m + r && 0 <= r < m
    ensures x / m == q && x % m == r
  {
    var q0, r0 := x / m, x % m;
    assert (q - q0) * m == r0 - r;
    if q > q0 {
      MulLower(q - q0, m);
    } else if q < q0 {
      MulLower(q0 - q, m);
    }
  }

  lemma MulLower(d: int, m: nat)
    requires m > 0 && d >= 1
    ensures d * m >= m
  {
  }


  function Pow2(k: nat): (r: nat)
    ensures r >= 1
  {
    if k == 0 then 1 else 2 * Pow2(k - 1)
  }

  predicate IsPow2(x: nat)
    decreases x
  {
    x == 1 || (x >= 2 && x % 2 == 0 && IsPow2(x / 2))
  }

  lemma {:induction false} Pow2IsPow2(k: nat)
    ensures IsPow2(Pow2(k))
  {
    if k > 0 {
      Pow2IsPow2(k - 1);
      assert Pow2(k) / 2 == Pow2(k - 1);
    }
  }

  lemma {:induction false} Pow2Monotone(j: nat, k: nat)
    requires j <= k
    ensures Pow2(j) <= Pow2(k)
    decreases k
  {
    if j < k {
      Pow2Monotone(j, k - 1);
    }
  }

  lemma {:induction false} Pow2Add(j: nat, k: nat)
    ensures Pow2(j + k) == Pow2(j) * Pow2(k)
    decreases j
  {
    if j > 0 {
      Pow2Add(j - 1, k);
    }
  }

  lemma Pow2Constants()
    ensures Pow2(8) == U8 && Pow2(16) == U16 && Pow2(24) == U24
    ensures Pow2(31) == 0x8000_0000 && Pow2(32) == U32
  {
    assert Pow2(4) == 16;
    Pow2Add(4, 4);
    Pow2Add(8, 8);
    Pow2Add(16, 8);
    Pow2Add(16, 16);
    Pow2Add(1, 31);
  }

  /** Doubling a power of two gives a power of two. */
  lemma DoublePow2(x: nat)
    requires IsPow2(x)
    ensures IsPow2(2 * x)
  {
    assert (2 * x) / 2 == x;
  }

  /** A power of two below another power of two is at most half of it. */
  lemma {:induction false} Pow2Gap(x: nat, y: nat)
    requires IsPow2(x) && IsPow2(y) && x < y
    ensures 2 * x <= y
    decreases x
  {
    if x >= 2 {
      Pow2Gap(x / 2, y / 2);
    }
  }

  /** The number of significant bits of `n`, i.e. `32 - stdc_leading_zeros_ui(n)` for `n < 2^32`. */
  function BitLength(n: nat): (r: nat)
  {
    if n == 0 then 0 else 1 + BitLength(n / 2)
  }

  lemma {:induction false} BitLengthBounds(n: nat)
    ensures n < Pow2(BitLength(n))
    ensures n > 0 ==> Pow2(BitLength(n) - 1) <= n
  {
    if n > 0 {
      BitLengthBounds(n / 2);
    }
  }

  lemma {:induction false} BitLengthAtMost(n: nat, k: nat)
    requires n < Pow2(k)
    ensures BitLength(n) <= k
  {
    if n > 0 {
      BitLengthBounds(n);
      if BitLength(n) > k {
        Pow2Monotone(k, BitLength(n) - 1);
      }
    }
  }

  /** `stdc_leading_zeros_ui(n)` for a 32-bit `n`. */
  function LeadingZeros32(n: nat): (r: nat)
    requires n < U32
    ensures r <= 32
  {
    Pow2Constants();
    BitLengthAtMost(n, 32);
    32 - BitLength(n)
  }

  /**
   * `next_pow2(n)` = `1 << (32 - leading_zeros(n))`. The shift amount is
   * below 32 (so the shift is defined) exactly when `n < 2^31`.
   * The result is the least power of two strictly greater than `n`.
   */
  function NextPow2(n: nat): (r: nat)
    requires n < 0x8000_0000
    ensures IsPow2(r) && n < r && r <= 0x8000_0000
    ensures r == 1 || r / 2 <= n
  {
    Pow2Constants();
    BitLengthAtMost(n, 31);
    BitLengthBounds(n);
    Pow2IsPow2(BitLength(n));
    Pow2Monotone(BitLength(n), 31);
    Pow2(32 - LeadingZeros32(n))
  }

  /** `next_pow2(n)` is below every power of two that exceeds `n`: it is the least one. */
  lemma NextPow2Least(n: nat, k: nat)
    requires n < 0x8000_0000 && n < Pow2(k)
    ensures NextPow2(n) <= Pow2(k)
  {
    BitLengthAtMost(n, k);
    Pow2Monotone(BitLength(n), k);
  }

  /** Bitwise AND of two naturals, bit by bit from the least significant one. */
  function BitAnd(a: nat, b: nat): (r: nat)
    ensures r <= a && r <= b
    decreases a
  {
    if a == 0 || b == 0 then 0
    else 2 * BitAnd(a / 2, b / 2) + (if a % 2 == 1 && b % 2 == 1 then 1 else 0)
  }

  /** Bitwise exclusive OR of two naturals, bit by bit from the least significant one. */
  function BitXor(a: nat, b: nat): nat
    decreases a
  {
    if a == 0 then b
    else if b == 0 then a
    else 2 * BitXor(a / 2, b / 2) + (if a % 2 == b % 2 then 0 else 1)
  }

  /** Bitwise OR of two naturals, bit by bit from the least significant one. */
  function BitOr(a: nat, b: nat): nat
    decreases a
  {
    if a == 0 then b
    else if b == 0 then a
    else 2 * BitOr(a / 2, b / 2) + (if a % 2 == 1 || b % 2 == 1 then 1 else 0)
  }

  /** OR of a multiple of `2^k` with a number below `2^k` sets disjoint bits: it is their sum. */
  lemma {:induction false} OrDisjoint(a: nat, b: nat, k: nat)
    requires a % Pow2(k) == 0 && b < Pow2(k)
    ensures BitOr(a, b) == a + b
    decreases k
  {
    if a != 0 && b != 0 {
      var m := a / Pow2(k);
      assert a == m * Pow2(k);
      assert Pow2(k) == 2 * Pow2(k - 1);
      DivModUnique(a, 2, m * Pow2(k - 1), 0);
      DivModUnique(a / 2, Pow2(k - 1), m, 0);
      OrDisjoint(a / 2, b / 2, k - 1);
    }
  }

  /** Exclusive OR of two `k`-bit numbers is a `k`-bit number. */
  lemma {:induction false} XorBelow(a: nat, b: nat, k: nat)
    requires a < Pow2(k) && b < Pow2(k)
    ensures BitXor(a, b) < Pow2(k)
    decreases a
  {
    if a != 0 && b != 0 {
      assert k > 0;
      XorBelow(a / 2, b / 2, k - 1);
    }
  }

  /** Masking with `m - 1` for a power of two `m` always yields a slot index below `m`. */
  lemma {:induction false} MaskBelow(a: nat, m: nat)
    requires IsPow2(m)
    ensures BitAnd(a, m - 1) < m
    decreases m
  {
    if m >= 2 && a > 0 {
      MaskBelow(a / 2, m / 2);
    }
  }

  /** Masking leaves every index below the power of two `m` unchanged. */
  lemma {:induction false} MaskIdentity(a: nat, m: nat)
    requires IsPow2(m) && a < m
    ensures BitAnd(a, m - 1) == a
    decreases m
  {
    if m >= 2 && a > 0 {
      MaskIdentity(a / 2, m / 2);
    }
  }

  /** Masking `m` itself with `m - 1` wraps around to slot 0. */
  lemma {:induction false} MaskWrap(m: nat)
    requires IsPow2(m)
    ensures BitAnd(m, m - 1) == 0
    decreases m
  {
    if m >= 2 {
      MaskWrap(m / 2);
    }
  }

  /** The slot after `i` in a table of `m` slots, wrapping from the last slot to slot 0. */
  function NextSlot(i: nat, m: nat): (r: nat)
    requires i < m
    ensures r < m
  {
    if i + 1 < m then i + 1 else 0
  }

  /** `(i + 1) & (m - 1)` is the next slot, wrapping around. */
  lemma MaskedIncrement(i: nat, m: nat)
    requires IsPow2(m) && i < m
    ensures BitAnd(i + 1, m - 1) == NextSlot(i, m)
  {
    if i + 1 < m {
      MaskIdentity(i + 1, m);
    } else {
      MaskWrap(m);
    }
  }

  /** The slot reached after `k` steps of linear probing from `home`. */
  function ProbeAt(home: nat, k: nat, m: nat): (r: nat)
    requires home < m
    ensures r < m
  {
    if k == 0 then home else NextSlot(ProbeAt(home, k - 1, m), m)
  }

  /** Within one round, probing from `home` visits `home + k`, wrapped once. */
  lemma {:induction false} ProbeAtIs(home: nat, k: nat, m: nat)
    requires home < m && k < m
    ensures ProbeAt(home, k, m) == if home + k < m then home + k else home + k - m
  {
    if k > 0 {
      ProbeAtIs(home, k - 1, m);
    }
  }

  /** Every slot is reached from `home` within fewer than `m` probes. */
  lemma ProbeReaches(home: nat, e: nat, m: nat)
    requires home < m && e < m
    ensures var d := if home <= e then e - home else m - home + e;
            d < m && ProbeAt(home, d, m) == e
  {
    var d := if home <= e then e - home else m - home + e;
    ProbeAtIs(home, d, m);
  }
}
