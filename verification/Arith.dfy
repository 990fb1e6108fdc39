/** Machine integers and the few facts about flooring division that the fee, floor and reward proofs share. */
module Arith {
  const TWO_64: int := 0x1_0000_0000_0000_0000
  const U64_MAX: int := TWO_64 - 1
  const I64_MAX: int := 0x7FFF_FFFF_FFFF_FFFF
  const I64_MIN: int := -0x8000_0000_0000_0000
  const TWO_128: int := TWO_64 * TWO_64

  type u8 = x: int | 0 <= x < 256
  type u32 = x: int | 0 <= x < 0x1_0000_0000
  type u64 = x: int | 0 <= x < 0x1_0000_0000_0000_0000
  type i64 = x: int | -0x8000_0000_0000_0000 <= x < 0x8000_0000_0000_0000

  function Min(a: int, b: int): int {
    if a <= b then a else b
  }

  /** A cast of a wide value to `u64`, which drops the high bits. */
  function AsU64(x: int): u64 {
    x % TWO_64
  }

  lemma CastFits(x: int)
    requires 0 <= x < TWO_64
    ensures AsU64(x) == x
  {
  }

  /** `i64::saturating_sub`. */
  function SaturatingSubI64(a: i64, b: i64): i64 {
    if a - b > I64_MAX then I64_MAX else if a - b < I64_MIN then I64_MIN else a - b
  }

  /** `u64::saturating_add`. */
  function SaturatingAddU64(a: u64, b: u64): u64 {
    Min(a + b, U64_MAX)
  }

  function Pow2(n: nat): (p: nat)
    ensures p >= 1
  {
    if n == 0 then 1 else 2 * Pow2(n - 1)
  }

  lemma {:induction false} Pow2Add(m: nat, n: nat)
    ensures Pow2(m + n) == Pow2(m) * Pow2(n)
  {
    if m > 0 {
      Pow2Add(m - 1, n);
      assert Pow2(m + n) == 2 * Pow2((m - 1) + n);
      MulAssoc(2, Pow2(m - 1), Pow2(n));
    }
  }

  lemma {:induction false} Pow2Mono(m: nat, n: nat)
    requires m <= n
    ensures Pow2(m) <= Pow2(n)
  {
    if m < n {
      Pow2Mono(m, n - 1);
    }
  }

  /** Multiplying both sides of an order by a non-negative factor. */
  lemma MulMono(a: int, b: int, k: int)
    requires a <= b && 0 <= k
    ensures a * k <= b * k && k * a <= k * b
  {
  }

  lemma MulAssoc(a: int, b: int, c: int)
    ensures (a * b) * c == a * (b * c) == (a * c) * b
  {
  }

  lemma MulAdd(a: int, b: int, c: int)
    ensures (a + b) * c == a * c + b * c
  {
  }

  /** A strict order between multiples of one positive number is an order between the factors. */
  lemma CancelFactor(a: int, b: int, k: int)
    requires k > 0 && a * k < b * k
    ensures a < b
  {
    if b <= a {
      MulMono(b, a, k);
    }
  }

  /** The two inequalities that define the floor of `a / d`. */
  lemma DivBounds(a: int, d: int)
    requires d > 0
    ensures (a / d) * d <= a < (a / d) * d + d
  {
  }

  /** A lower bound of `a / d` from a product. */
  lemma DivAtLeast(a: int, d: int, q: int)
    requires d > 0 && q * d <= a
    ensures q <= a / d
  {
    DivBounds(a, d);
    if a / d < q {
      MulMono(a / d + 1, q, d);
      assert false;
    }
  }

  /** An upper bound of `a / d` from a product. */
  lemma DivBelow(a: int, d: int, q: int)
    requires d > 0 && a < q * d
    ensures a / d < q
  {
    DivBounds(a, d);
    if q <= a / d {
      MulMono(q, a / d, d);
      assert false;
    }
  }

  lemma DivMono(a: int, b: int, d: int)
    requires d > 0 && a <= b
    ensures a / d <= b / d
  {
    DivBounds(a, d);
    DivAtLeast(b, d, a / d);
  }

  /** Two successive divisions are one division by the product. */
  lemma DivDiv(a: nat, m: nat, n: nat)
    requires m > 0 && n > 0
    ensures m * n > 0
    ensures a / m / n == a / (m * n)
  {
    var x := a / m;
    var q := x / n;
    DivBounds(a, m);
    DivBounds(x, n);
    MulMono(1, m, n);
    MulMono(q * n, x, m);
    MulAssoc(q, n, m);
    MulAdd(q, 1, n);
    MulMono(x + 1, (q + 1) * n, m);
    MulAdd(x, 1, m);
    MulAssoc(q + 1, n, m);
    FloorIs(a, m * n, q);
  }

  lemma FloorIs(a: int, d: int, q: int)
    requires d > 0 && q * d <= a < (q + 1) * d
    ensures a / d == q
  {
    DivAtLeast(a, d, q);
    DivBelow(a, d, q + 1);
  }

  /** Flooring division by a positive number does not stretch a difference. */
  lemma DivNonExpansive(x: nat, y: nat, d: nat)
    requires d > 0 && y <= x
    ensures x / d - y / d <= x - y
  {
    DivBounds(y, d);
    assert x < (y / d + (x - y) + 1) * d by {
      MulMono(1, d, x - y);
      assert (y / d + (x - y) + 1) * d == (y / d) * d + (x - y) * d + d;
    }
    DivBelow(x, d, y / d + (x - y) + 1);
  }
}
