/** Integer helpers shared by the memory-management model: powers of two,
    flipping one bit of an unsigned number (what `x ^ (1UL << b)` computes),
    alignment to a power of two, and the C integer conversions the kernel
    code relies on. */
module Common {

  datatype Option<T> = None | Some(value: T)

  /** 2^64: unsigned 64-bit arithmetic wraps modulo this value. */
  const U64_LIMIT: nat := 0x1_0000_0000_0000_0000

  /** `1 << k` on unbounded integers. */
  function Pow2(k: nat): (r: nat)
    ensures r >= 1
  {
    if k == 0 then 1 else 2 * Pow2(k - 1)
  }

  /** Conversion of an unsigned value to a 32-bit `int`, as GCC performs it
      (keep the low 32 bits, read them as two's complement). */
  function ToInt32(x: nat): (r: int)
    ensures -0x8000_0000 <= r < 0x8000_0000
    ensures x < 0x8000_0000 ==> r == x
  {
    var m := x % 0x1_0000_0000;
    if m >= 0x8000_0000 then m - 0x1_0000_0000 else m
  }

  /** Bit b of x, read off by halving x b times. */
  predicate TestBit(x: nat, b: nat)
  {
    if b == 0 then x % 2 == 1 else TestBit(x / 2, b - 1)
  }

  /** `x ^ (1 << b)` for a non-negative x: bit b of x is flipped. */
  function FlipBit(x: nat, b: nat): int
  {
    if TestBit(x, b) then x - Pow2(b) else x + Pow2(b)
  }

  /** Flips the bit of x whose weight is P (a power of two). */
  function FlipAt(x: int, P: int): int
    requires P > 0
  {
    if (x / P) % 2 == 0 then x + P else x - P
  }

  lemma Pow2Add(a: nat, b: nat)
    ensures Pow2(a + b) == Pow2(a) * Pow2(b)
    decreases b
  {
    if b > 0 {
      Pow2Add(a, b - 1);
      assert Pow2(a + b) == 2 * Pow2(a + b - 1);
    }
  }

  lemma Pow2Monotone(a: nat, b: nat)
    requires a <= b
    ensures Pow2(a) <= Pow2(b)
    decreases b
  {
    if a < b { Pow2Monotone(a, b - 1); }
  }

  lemma MulNonNeg(a: int, b: int)
    requires a >= 0 && b >= 0
    ensures a * b >= 0
  {
  }

  lemma MulAtLeast(m: int, d: int)
    requires m > 0 && d >= 1
    ensures m * d >= m
  {
    assert m * d == m + m * (d - 1);
    MulNonNeg(m, d - 1);
  }

  /** Euclidean division is determined by any decomposition x = m*q + r with 0 <= r < m. */
  lemma DivModUnique(x: int, m: int, q: int, r: int)
    requires m > 0 && 0 <= r < m && x == m * q + r
    ensures x / m == q && x % m == r
  {
    var q', r' := x / m, x % m;
    assert x == m * q' + r';
    if q' > q {
      assert m * q' - m * q == m * (q' - q);
      MulAtLeast(m, q' - q);
    } else if q' < q {
      assert m * q - m * q' == m * (q - q');
      MulAtLeast(m, q - q');
    }
  }

  /** A multiple of a*b is a multiple of a. */
  lemma MultipleOfFactor(x: int, a: int, b: int)
    requires a > 0 && b > 0 && x % (a * b) == 0
    ensures x % a == 0
  {
    var q := x / (a * b);
    assert x == (a * b) * q;
    assert x == a * (b * q);
    DivModUnique(x, a, b * q, 0);
  }

  /** Being a multiple of a power of two is kept when the power gets smaller. */
  lemma AlignedWeaken(x: int, j: nat, k: nat)
    requires j <= k && x % Pow2(k) == 0
    ensures x % Pow2(j) == 0
  {
    Pow2Add(j, k - j);
    MultipleOfFactor(x, Pow2(j), Pow2(k - j));
  }

  lemma AlignedAdd(x: int, y: int, m: int)
    requires m > 0 && x % m == 0 && y % m == 0
    ensures (x + y) % m == 0
  {
    var a, b := x / m, y / m;
    assert x == m * a && y == m * b;
    assert x + y == m * (a + b);
    DivModUnique(x + y, m, a + b, 0);
  }

  /** Two distinct multiples of m are at least m apart. */
  lemma AlignedGap(a: int, b: int, m: int)
    requires m > 0 && a % m == 0 && b % m == 0 && a < b
    ensures a + m <= b
  {
    var qa, qb := a / m, b / m;
    assert a == m * qa && b == m * qb;
    assert b - a == m * (qb - qa);
    if qb - qa < 1 {
      MulNonNeg(m, qa - qb);
    } else {
      MulAtLeast(m, qb - qa);
    }
  }

  /** FlipAt read off a decomposition x = P*q + r: it adds P when q is even and
      subtracts it when q is odd. */
  lemma FlipAtOf(x: int, P: int, q: int, r: int)
    requires P > 0 && 0 <= r < P && x == P * q + r
    ensures FlipAt(x, P) == if q % 2 == 0 then x + P else x - P
  {
    DivModUnique(x, P, q, r);
  }

  /** Flipping a bit twice restores the number, whatever the other bits. */
  lemma FlipAtInvolution(x: int, P: int)
    requires P > 0 && x >= 0
    ensures FlipAt(x, P) >= 0
    ensures FlipAt(FlipAt(x, P), P) == x
  {
    var q, r := x / P, x % P;
    assert x == P * q + r;
    if q % 2 == 0 {
      FlipAtEven(x, P, q, r);
    } else {
      FlipAtOdd(x, P, q, r);
    }
  }

  lemma FlipAtEven(x: int, P: int, q: int, r: int)
    requires P > 0 && 0 <= r < P && x == P * q + r && q % 2 == 0
    ensures FlipAt(x, P) == x + P && FlipAt(x + P, P) == x
  {
    FlipAtOf(x, P, q, r);
    assert x + P == P * (q + 1) + r;
    FlipAtOf(x + P, P, q + 1, r);
  }

  lemma FlipAtOdd(x: int, P: int, q: int, r: int)
    requires P > 0 && 0 <= r < P && x == P * q + r && q % 2 == 1
    ensures FlipAt(x, P) == x - P && FlipAt(x - P, P) == x
    ensures x >= 0 ==> x - P >= 0
  {
    FlipAtOf(x, P, q, r);
    assert x - P == P * (q - 1) + r;
    FlipAtOf(x - P, P, q - 1, r);
    if x >= 0 {
      QuotientNonNeg(x, P, q, r);
      MulNonNeg(P, q - 1);
    }
  }

  lemma QuotientNonNeg(x: int, P: int, q: int, r: int)
    requires P > 0 && 0 <= r < P && x == P * q + r && x >= 0
    ensures q >= 0
  {
    if q < 0 {
      MulAtLeast(P, -q);
    }
  }

  /** On a multiple of P, the flip yields the other half of the 2P-aligned pair. */
  lemma FlipAtAligned(x: int, P: int)
    requires P > 0 && x >= 0 && x % P == 0
    ensures FlipAt(x, P) % P == 0
    ensures var y := FlipAt(x, P);
            var lo := if x < y then x else y;
            lo % (2 * P) == 0 && lo + P == (if x < y then y else x)
  {
    var q := x / P;
    assert x == P * q + 0;
    FlipAtOf(x, P, q, 0);
    if q % 2 == 0 {
      DivModUnique(x + P, P, q + 1, 0);
      HalvesAligned(x, P, q / 2);
    } else {
      DivModUnique(x - P, P, q - 1, 0);
      HalvesAligned(x - P, P, (q - 1) / 2);
    }
  }

  lemma HalvesAligned(y: int, P: int, t: int)
    requires P > 0 && y == P * (2 * t)
    ensures y % (2 * P) == 0
  {
    assert y == (2 * P) * t;
    DivModUnique(y, 2 * P, t, 0);
  }

  /** Flipping bit k twice restores the number. */
  lemma FlipBitInvolution(x: nat, k: nat)
    ensures FlipBit(x, k) >= 0
    ensures FlipBit(FlipBit(x, k) as nat, k) == x
  {
    FlipBitIsFlipAt(x, k);
    FlipAtInvolution(x, Pow2(k));
    FlipBitIsFlipAt(FlipBit(x, k) as nat, k);
  }

  /** Flipping bit k of a multiple of 2^k: x and FlipBit(x, k) are the two halves
      of one 2^(k+1)-aligned block. */
  lemma FlipBitAligned(x: nat, k: nat)
    requires x % Pow2(k) == 0
    ensures FlipBit(x, k) >= 0
    ensures FlipBit(x, k) % Pow2(k) == 0
    ensures FlipBit(FlipBit(x, k) as nat, k) == x
    ensures var lo := if x < FlipBit(x, k) then x else FlipBit(x, k);
            lo % Pow2(k + 1) == 0 && lo + Pow2(k) == (if x < FlipBit(x, k) then FlipBit(x, k) else x)
  {
    FlipBitInvolution(x, k);
    FlipBitIsFlipAt(x, k);
    FlipAtAligned(x, Pow2(k));
  }

  /** Flipping bit k of the upper half of a 2^(k+1)-aligned pair yields the
      lower half. */
  lemma FlipUpperHalf(x: nat, k: nat)
    requires x % Pow2(k + 1) == 0
    ensures FlipBit(x + Pow2(k), k) == x
  {
    var P := Pow2(k);
    var t := x / (2 * P);
    assert x == (2 * P) * t;
    assert x + P == P * (2 * t + 1) + 0;
    FlipBitIsFlipAt(x + P, k);
    FlipAtOf(x + P, P, 2 * t + 1, 0);
  }

  /** Bit k + c of (2^c * f + r), r < 2^c, is bit k of f. */
  lemma ShiftedBit(f: nat, r: nat, c: nat, k: nat)
    requires r < Pow2(c)
    ensures (Pow2(c) * f + r) / Pow2(k + c) == f / Pow2(k)
  {
    Pow2Add(c, k);
    var C, P := Pow2(c), Pow2(k);
    var q, rem := f / P, f % P;
    ShiftedDiv(f, r, C, P, q, rem);
  }

  lemma ShiftedDiv(f: int, r: int, C: int, P: int, q: int, rem: int)
    requires C > 0 && P > 0 && 0 <= r < C && 0 <= rem < P && f == P * q + rem
    ensures (C * f + r) / (C * P) == q
  {
    assert C * f + r == (C * P) * q + (C * rem + r);
    assert C * rem + r < C * P by {
      assert C * (P - 1 - rem) >= 0 by { MulNonNeg(C, P - 1 - rem); }
    }
    MulNonNeg(C, rem);
    DivModUnique(C * f + r, C * P, q, C * rem + r);
  }

  /** Bit b of x is the parity of x / 2^b. */
  lemma {:induction false} TestBitDiv(x: nat, b: nat)
    ensures TestBit(x, b) <==> (x / Pow2(b)) % 2 == 1
  {
    if b > 0 {
      TestBitDiv(x / 2, b - 1);
      ModSplit(x, 2, Pow2(b - 1));
    }
  }

  /** FlipBit is the flip of the bit of weight 2^b. */
  lemma FlipBitIsFlipAt(x: nat, b: nat)
    ensures FlipBit(x, b) == FlipAt(x, Pow2(b))
  {
    TestBitDiv(x, b);
  }

  /** Splitting x modulo a*b into its digit above a and its remainder below a;
      dividing by a and then by b is dividing by a*b. */
  lemma ModSplit(x: int, a: int, b: int)
    requires x >= 0 && a > 0 && b > 0
    ensures x % (a * b) == a * ((x / a) % b) + x % a
    ensures (x / a) / b == x / (a * b)
  {
    var q, r := x / (a * b), x % (a * b);
    var s, t := r / a, r % a;
    assert r == a * s + t;
    assert x == a * (b * q + s) + t by {
      assert x == (a * b) * q + r;
      assert (a * b) * q == a * (b * q);
    }
    DivModUnique(x, a, b * q + s, t);
    DivModUnique(b * q + s, b, q, s);
  }

  /** Reducing modulo a*b and then modulo a is reducing modulo a. */
  lemma ModOfMod(x: int, a: int, b: int)
    requires x >= 0 && a > 0 && b > 0
    ensures (x % (a * b)) % a == x % a
  {
    ModSplit(x, a, b);
    DivModUnique(x % (a * b), a, (x / a) % b, x % a);
  }

  /** Two numbers less than m apart (and not equal) differ modulo m. */
  lemma DistinctMod(x: int, y: int, m: int)
    requires m > 0 && x < y < x + m
    ensures x % m != y % m
  {
    var qx, qy := x / m, y / m;
    if x % m == y % m {
      assert y - x == m * (qy - qx);
      if qy - qx >= 1 {
        MulAtLeast(m, qy - qx);
      } else {
        MulNonNeg(m, qx - qy);
      }
    }
  }
}
