/** Machine integers and the failure-carrying datatypes shared by every module.

    Rust's fixed-width integers are modelled as bounded mathematical integers, so every
    wrap-around, saturation or checked addition of the source is written out. */
module Machine {
  const U64_MAX := 0xFFFF_FFFF_FFFF_FFFF

  type u64 = x: int | 0 <= x <= 0xFFFF_FFFF_FFFF_FFFF
  type u32 = x: int | 0 <= x <= 0xFFFF_FFFF
  type u16 = x: int | 0 <= x <= 0xFFFF
  type byte = x: int | 0 <= x <= 0xFF

  datatype Option<+T> = None | Some(value: T) {
    predicate IsFailure() { None? }

    function PropagateFailure<U>(): Option<U>
      requires None?
    {
      None
    }

    function Extract(): T
      requires Some?
    {
      value
    }
  }

  datatype Result<+T, +E> = Ok(value: T) | Err(error: E)

  function Min(a: int, b: int): int { if a <= b then a else b }

  function Max(a: int, b: int): int { if a >= b then a else b }

  /** 2 to the power n. */
  function Pow2(n: nat): (r: nat)
    ensures r >= 1
  {
    if n == 0 then 1 else 2 * Pow2(n - 1)
  }

  lemma {:induction false} Pow2Add(m: nat, n: nat)
    ensures Pow2(m + n) == Pow2(m) * Pow2(n)
  {
    if n > 0 {
      Pow2Add(m, n - 1);
      TwiceFactor(Pow2(m), Pow2(n - 1));
    }
  }

  lemma TwiceFactor(a: int, b: int)
    ensures a * (2 * b) == 2 * (a * b)
  {
  }

  /** The powers that occur as sizes: pointers, blocks and pages. */
  lemma Pow2Values()
    ensures Pow2(0) == 1 && Pow2(1) == 2 && Pow2(2) == 4 && Pow2(3) == 8
    ensures Pow2(12) == 0x1000 && Pow2(21) == 0x20_0000 && Pow2(30) == 0x4000_0000
    ensures Pow2(64) == 0x1_0000_0000_0000_0000
  {
    assert Pow2(6) == 64;
    Pow2Add(6, 6);
    Pow2Add(12, 6);
    Pow2Add(18, 3);
    Pow2Add(18, 12);
    Pow2Add(30, 30);
    Pow2Add(60, 2);
    Pow2Add(62, 2);
  }

  /** A power of two that fits 64 bits divides 2 to the power 64. */
  lemma DividesWord(x: int)
    requires IsPow2(x)
    ensures 0x1_0000_0000_0000_0000 % x == 0
  {
    var k: nat :| k < 64 && x == Pow2(k);
    Pow2Values();
    Pow2Add(64 - k, k);
    hide Pow2;
    DivModUnique(0x1_0000_0000_0000_0000, Pow2(64 - k), 0, x);
  }

  /** What `count_ones() == 1` tests for a 64-bit value. */
  predicate IsPow2(x: int): (b: bool)
    ensures b ==> x >= 1
  {
    exists k: nat :: k < 64 && x == Pow2(k)
  }

  /** A number below the modulus is its own remainder. */
  lemma ModSmall(x: int, m: int)
    requires 0 <= x < m
    ensures x % m == x && x / m == 0
  {
  }

  /** Adding a multiple of the modulus changes the quotient only. */
  lemma {:induction false} ModAddMultiple(x: int, k: int, m: int)
    requires m > 0
    ensures (x + k * m) % m == x % m && (x + k * m) / m == x / m + k
  {
    DivModUnique(x + k * m, x / m + k, x % m, m);
  }

  lemma MulMonotone(a: int, b: int, m: int)
    requires a <= b && m >= 0
    ensures a * m <= b * m
  {
    assert (b - a) * m >= 0;
    assert (b - a) * m == b * m - a * m;
  }

  /** Quotient and remainder are determined by the division equation. */
  lemma DivModUnique(x: int, q: int, r: int, m: int)
    requires 0 <= r < m && x == q * m + r
    ensures x / m == q && x % m == r
  {
    var p := x / m;
    assert (q + 1) * m == q * m + m && (p + 1) * m == p * m + m;
    if p > q {
      MulMonotone(q + 1, p, m);
    } else if p < q {
      MulMonotone(p + 1, q, m);
    }
  }
}
