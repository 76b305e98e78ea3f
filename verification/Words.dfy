/** Bytes, machine words and the bit operations the codec performs on them.
    C's unsigned words are naturals below a power of two; shifts and masks are written as
    multiplication, division and remainder. */
module Words {
  type byte = b: int | 0 <= b < 256

  const WORD32: nat := 0x1_0000_0000
  const WORD64: nat := 0x1_0000_0000_0000_0000

  function Pow2(n: nat): (p: nat)
    ensures p >= 1
  {
    if n == 0 then 1 else 2 * Pow2(n - 1)
  }

  /** C's `a | b` on unsigned words. */
  function BitOr(a: nat, b: nat): nat
    decreases a + b
  {
    if a == 0 then b
    else if b == 0 then a
    else (if a % 2 == 1 || b % 2 == 1 then 1 else 0) + 2 * BitOr(a / 2, b / 2)
  }

  /** C's `a ^ b` on unsigned words. */
  function BitXor(a: nat, b: nat): nat
    decreases a + b
  {
    if a == 0 then b
    else if b == 0 then a
    else (if a % 2 != b % 2 then 1 else 0) + 2 * BitXor(a / 2, b / 2)
  }

  /** C's conversion of an integer to the signed type with `m` values. */
  function SignedWrap(n: int, m: nat): int
    requires m > 0
  {
    var r := n % m;
    if r < m / 2 then r else r - m
  }

  lemma {:induction false} Pow2Add(a: nat, b: nat)
    ensures Pow2(a + b) == Pow2(a) * Pow2(b)
  {
    if a > 0 {
      Pow2Add(a - 1, b);
    }
  }

  lemma {:induction false} Pow2Monotone(a: nat, b: nat)
    requires a <= b
    ensures Pow2(a) <= Pow2(b)
  {
    if a < b {
      Pow2Monotone(a, b - 1);
    }
  }

  lemma Pow2Values()
    ensures Pow2(7) == 0x80 && Pow2(14) == 0x4000 && Pow2(21) == 0x20_0000 && Pow2(28) == 0x1000_0000
    ensures Pow2(31) == 0x8000_0000 && Pow2(32) == WORD32 && Pow2(35) == 0x8_0000_0000
    ensures Pow2(63) == 0x8000_0000_0000_0000 && Pow2(64) == WORD64
  {
    Pow2Add(7, 7); Pow2Add(7, 14); Pow2Add(14, 14); Pow2Add(28, 3);
    Pow2Add(31, 1); Pow2Add(28, 7); Pow2Add(28, 35); Pow2Add(32, 32);
  }

  /** OR-ing a value shifted above every set bit of `a` is addition. */
  lemma {:induction false} BitOrIsAdd(a: nat, c: nat, k: nat)
    requires a < Pow2(k)
    ensures BitOr(a, c * Pow2(k)) == a + c * Pow2(k)
    decreases k
  {
    if a != 0 && c != 0 {
      var high := c * Pow2(k - 1);
      assert c * Pow2(k) == 2 * high;
      assert (2 * high) / 2 == high && (2 * high) % 2 == 0;
      BitOrIsAdd(a / 2, c, k - 1);
    }
  }

  /** So is XOR-ing it. */
  lemma {:induction false} BitXorIsAdd(a: nat, c: nat, k: nat)
    requires a < Pow2(k)
    ensures BitXor(a, c * Pow2(k)) == a + c * Pow2(k)
    decreases k
  {
    if a != 0 && c != 0 {
      var high := c * Pow2(k - 1);
      assert c * Pow2(k) == 2 * high;
      assert (2 * high) / 2 == high && (2 * high) % 2 == 0;
      BitXorIsAdd(a / 2, c, k - 1);
    }
  }

  // ---------- Products, quotients and remainders ----------

  lemma SplitProduct(g: nat, p: nat, q: nat)
    requires q > 0
    ensures g * p == g % q * p + g / q * (p * q)
    ensures 0 <= g % q * p && g % q * p + p <= p * q
  {
    var r, d := g % q, g / q;
    MulDistribute(r, d, p, q);
    MulMonotone(r + 1, q, p);
    MulMonotone(0, r, p);
  }

  lemma MulDistribute(r: int, d: int, p: int, q: int)
    ensures (r + d * q) * p == r * p + d * (p * q)
  {
    assert d * q * p == d * (p * q);
  }

  lemma MulMonotone(a: int, b: int, p: nat)
    requires a <= b
    ensures a * p <= b * p
  {
  }

  lemma ModShift(x: int, d: int, m: nat)
    requires 0 <= x < m
    ensures (x + d * m) % m == x
  {
    DivModUnique(x + d * m, d, x, m);
  }

  lemma DivModUnique(n: int, q: int, r: int, m: nat)
    requires n == q * m + r && 0 <= r < m
    ensures n % m == r
  {
    var q', r' := n / m, n % m;
    assert (q - q') * m == r' - r;
    if q > q' {
      MulMonotone(1, q - q', m);
    } else if q < q' {
      MulMonotone(q - q', -1, m);
    }
  }

  lemma SmallMod(x: nat, m: nat)
    requires x < m
    ensures x % m == x
  {
  }

  lemma MulAssoc(a: int, b: int, c: int)
    ensures a * (b * c) == (a * b) * c
  {
  }

  lemma ModAddMultiple(x: nat, d: nat, m: nat)
    requires m > 0
    ensures (x + d * m) % m == x % m
  {
    assert x + d * m == (x / m + d) * m + x % m by { MulDistribute(x / m, d, m, 1); }
    DivModUnique(x + d * m, x / m + d, x % m, m);
  }
}
