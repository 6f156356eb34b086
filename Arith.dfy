/**
 * Integer facts the register arithmetic relies on: powers of two and
 * the division identities behind C's `>>` on non-negative values and
 * on GCC's arithmetic right shift of negative ones.
 */
module Arith {

  /** `2^n`; C's `1 << n` for n < 31. */
  function Pow2(n: nat): (r: nat)
    ensures r >= 1
  {
    if n == 0 then 1 else 2 * Pow2(n - 1)
  }

  lemma {:induction false} Pow2Add(a: nat, b: nat)
    ensures Pow2(a + b) == Pow2(a) * Pow2(b)
  {
    if a > 0 {
      Pow2Add(a - 1, b);
      assert Pow2(a + b) == 2 * Pow2(a - 1 + b);
    }
  }

  lemma {:induction false} Pow2Mono(a: nat, b: nat)
    requires a <= b
    ensures Pow2(a) <= Pow2(b)
  {
    if a < b {
      Pow2Mono(a, b - 1);
    }
  }

  lemma MulMono(d: int, a: int, b: int)
    requires d > 0 && a <= b
    ensures d * a <= d * b
  {
    assert d * b - d * a == d * (b - a);
  }

  /** Quotient and remainder are determined by `x == d * q + r, 0 <= r < d`. */
  lemma DivUnique(x: int, d: int, q: int, r: int)
    requires d > 0 && 0 <= r < d && x == d * q + r
    ensures x / d == q && x % d == r
  {
    var q', r' := x / d, x % d;
    assert x == d * q' + r';
    if q' > q {
      assert d * q' >= d * (q + 1) by { MulMono(d, q + 1, q'); }
      assert false;
    } else if q' < q {
      assert d * q >= d * (q' + 1) by { MulMono(d, q' + 1, q); }
      assert false;
    }
  }

  /** Shifting by a then by b is shifting by a and b at once. */
  lemma DivDiv(x: int, a: int, b: int)
    requires a > 0 && b > 0
    ensures x / (a * b) == (x / a) / b
  {
    var q := x / a;
    var r := x % a;
    var q2 := q / b;
    var r2 := q % b;
    assert x == a * q + r;
    assert q == b * q2 + r2;
    assert x == (a * b) * q2 + (a * r2 + r) by {
      assert a * q == a * (b * q2 + r2);
      assert a * (b * q2 + r2) == (a * b) * q2 + a * r2;
    }
    assert a * r2 <= a * (b - 1) by { MulMono(a, r2, b - 1); }
    assert a * (b - 1) == a * b - a;
    DivUnique(x, a * b, q2, a * r2 + r);
  }

  /** Bit i of x: `x >> i & 1`. */
  function IntBit(x: int, i: nat): (b: int)
    ensures 0 <= b <= 1
  {
    (x / Pow2(i)) % 2
  }

  /** The value of bits 0..n-1 of x. */
  function IntBits(x: int, n: nat): int
  {
    if n == 0 then 0 else IntBits(x, n - 1) + IntBit(x, n - 1) * Pow2(n - 1)
  }

  /** One more bit of a remainder: x mod 2a from x mod a and bit "a" of x. */
  lemma ModStep(x: int, a: int)
    requires a > 0
    ensures x % (a * 2) == a * ((x / a) % 2) + x % a
  {
    DivDiv(x, a, 2);
    var q := x / a;
    assert x == a * q + x % a;
    assert q == 2 * (q / 2) + q % 2;
    assert x == (a * 2) * (q / 2) + (a * (q % 2) + x % a) by {
      assert a * q == a * (2 * (q / 2) + q % 2);
      assert a * (2 * (q / 2) + q % 2) == (a * 2) * (q / 2) + a * (q % 2);
    }
    assert a * (q % 2) <= a by { MulMono(a, q % 2, 1); }
    DivUnique(x, a * 2, q / 2, a * (q % 2) + x % a);
  }

  /** Bits 0..n-1 of x make up x mod 2^n. */
  lemma {:induction false} IntBitsMod(x: int, n: nat)
    ensures IntBits(x, n) == x % Pow2(n)
  {
    if n > 0 {
      IntBitsMod(x, n - 1);
      ModStep(x, Pow2(n - 1));
    }
  }
}
