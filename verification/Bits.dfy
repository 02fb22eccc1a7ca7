/** Bit operations of the source, on naturals below 2^32 (or 2^64). */
module Bits {

  const TWO32: nat := 0x1_0000_0000

  type uint32 = x: nat | x < TWO32

  function Pow2(k: nat): (p: nat)
    ensures p >= 1
  {
    if k == 0 then 1 else 2 * Pow2(k - 1)
  }

  function Quotient(v: nat, p: nat): nat
    requires p > 0
  {
    v / p
  }

  /** v >> k */
  function Shr(v: nat, k: nat): nat {
    Quotient(v, Pow2(k))
  }

  ghost predicate IsPow2(n: nat) {
    exists k: nat :: n == Pow2(k)
  }

  /** x & y */
  function And(x: nat, y: nat): nat {
    if x == 0 || y == 0 then 0 else 2 * And(x / 2, y / 2) + (x % 2) * (y % 2)
  }

  /** bits.OnesCount32 */
  function OnesCount(x: nat): nat {
    if x == 0 then 0 else OnesCount(x / 2) + x % 2
  }

  /** bits.Len32: the number of bits needed to write x. */
  function BitLen(x: nat): (k: nat)
    ensures x < Pow2(k)
    ensures x > 0 ==> k > 0 && Pow2(k - 1) <= x
  {
    if x == 0 then 0 else 1 + BitLen(x / 2)
  }

  lemma {:induction false} OnesCountZero(x: nat)
    requires OnesCount(x) == 0
    ensures x == 0
  {
    if x != 0 { OnesCountZero(x / 2); }
  }

  /** Exactly one bit set: a power of two. */
  lemma {:induction false} OnesCountOne(x: nat)
    ensures OnesCount(x) == 1 <==> IsPow2(x)
  {
    if x == 0 {
      assert forall k: nat :: Pow2(k) >= 1;
    } else if x % 2 == 1 {
      if OnesCount(x) == 1 {
        OnesCountZero(x / 2);
        assert x == Pow2(0);
      }
      if k: nat :| x == Pow2(k) {
        assert k == 0;
      }
    } else {
      OnesCountOne(x / 2);
      if IsPow2(x / 2) {
        var k: nat :| x / 2 == Pow2(k);
        assert x == Pow2(k + 1);
      }
      if k: nat :| x == Pow2(k) {
        assert k > 0 && x / 2 == Pow2(k - 1);
      }
    }
  }

  lemma AndOdd(x: nat, p: nat)
    requires p > 0
    ensures And(x, 2 * p - 1) == 2 * And(x / 2, p - 1) + x % 2
  {
    var y: nat := 2 * p - 1;
    assert y % 2 == 1 && y / 2 == p - 1;
  }

  /** Masking with 2^k - 1 is the remainder by 2^k. */
  lemma {:induction false} AndMask(x: nat, k: nat)
    ensures And(x, Pow2(k) - 1) == x % Pow2(k)
  {
    if k > 0 {
      var p := Pow2(k - 1);
      AndOdd(x, p);
      AndMask(x / 2, k - 1);
      DoubleMod(x, p);
    }
  }

  lemma ModSmall(x: nat, m: nat)
    requires x < m
    ensures x % m == x && x / m == 0
  {
  }

  lemma MulSmall(d: int, m: int)
    requires -m < d * m < m
    ensures d == 0
  {
  }

  lemma DivModUnique(x: int, m: int, q: int, r: int)
    requires 0 <= r < m && x == q * m + r
    ensures x / m == q && x % m == r
  {
    var q', r' := x / m, x % m;
    assert x == q' * m + r' && 0 <= r' < m;
    calc {
      (q - q') * m;
      q * m - q' * m;
      r' - r;
    }
    MulSmall(q - q', m);
  }

  lemma DoubleMod(x: nat, p: nat)
    requires p > 0
    ensures x % (2 * p) == 2 * ((x / 2) % p) + x % 2
  {
    var q, r := (x / 2) / p, (x / 2) % p;
    assert x == q * (2 * p) + (2 * r + x % 2);
    DivModUnique(x, 2 * p, q, 2 * r + x % 2);
  }

  lemma {:induction false} Pow2Add(a: nat, b: nat)
    ensures Pow2(a + b) == Pow2(a) * Pow2(b)
  {
    if a > 0 { Pow2Add(a - 1, b); }
  }

  lemma {:induction false} Pow2Mono(a: nat, b: nat)
    requires a <= b
    ensures Pow2(a) <= Pow2(b)
  {
    if a < b { Pow2Mono(a, b - 1); }
  }

  lemma Pow2Strict(a: nat, b: nat)
    requires a < b
    ensures Pow2(a) < Pow2(b)
  {
    Pow2Mono(a + 1, b);
  }

  /** x*n >> 32 lies below n: Lemire's range reduction. */
  lemma FastRangeBound(x: uint32, n: nat)
    requires n > 0
    ensures (x * n) / TWO32 < n
  {
    assert x * n < TWO32 * n by { MulStrict(x, TWO32, n); }
    var q, r := (x * n) / TWO32, (x * n) % TWO32;
    assert x * n == q * TWO32 + r;
  }

  lemma MulStrict(a: nat, b: nat, n: nat)
    requires a < b && n > 0
    ensures a * n < b * n
  {
    assert (b - a) * n > 0;
  }
}
