/** Bitwise AND, powers of two and wrap-around counters over the natural numbers. */
module Bits {
  import opened Common

  const WORD: nat := 0x1_0000_0000

  function Pow2(k: nat): (r: nat)
    ensures r >= 1
  {
    if k == 0 then 1 else 2 * Pow2(k - 1)
  }

  /** 32-bit unsigned subtraction and increment. */
  function Sub32(a: U32, b: U32): U32 { (a - b) % 0x1_0000_0000 }
  function Inc32(a: U32): U32 { (a + 1) % 0x1_0000_0000 }

  /** The C operator `&` on unsigned values. */
  function And(a: nat, b: nat): (r: nat)
    ensures r <= a
  {
    if a == 0 then 0 else 2 * And(a / 2, b / 2) + (if a % 2 == 1 && b % 2 == 1 then 1 else 0)
  }

  lemma AndOdd(a: nat, p: nat)
    requires p >= 1
    ensures And(a, 2 * p - 1) == 2 * And(a / 2, p - 1) + a % 2
  {
    assert (2 * p - 1) / 2 == p - 1 && (2 * p - 1) % 2 == 1;
  }

  lemma AndEven(a: nat, p: nat)
    ensures And(a, 2 * p) == 2 * And(a / 2, p)
  {
    assert 2 * p / 2 == p && 2 * p % 2 == 0;
  }

  /** Masking with 2^k - 1 is the remainder modulo 2^k. */
  lemma {:induction false} AndMask(a: nat, k: nat)
    ensures And(a, Pow2(k) - 1) == a % Pow2(k)
  {
    hide And;
    if k == 0 {
      AndZero(a);
    } else {
      AndMask(a / 2, k - 1);
      AndOdd(a, Pow2(k - 1));
      HalfMod(a, Pow2(k - 1));
    }
  }

  lemma {:induction false} AndZero(a: nat)
    ensures And(a, 0) == 0
  {
    if a > 0 { AndZero(a / 2); }
  }

  lemma HalfMod(a: nat, p: nat)
    requires p > 0
    ensures a % (2 * p) == 2 * (a / 2 % p) + a % 2
  {
    var q, r := a / 2 / p, a / 2 % p;
    assert a == 2 * (p * q + r) + a % 2;
    assert a == (2 * p) * q + (2 * r + a % 2);
    DivModUnique(a, 2 * p, q, 2 * r + a % 2);
  }

  lemma SmallDifference(a: U32, b: U32)
    requires b <= a
    ensures Sub32(a, b) == a - b
  {
  }

  lemma MulMonotone(d: nat, x: int, y: int)
    ensures x <= y ==> d * x <= d * y
  {
  }

  /** Euclidean division is unique. */
  lemma DivModUnique(a: nat, d: nat, q: nat, r: nat)
    requires d > 0 && r < d && a == d * q + r
    ensures a / d == q && a % d == r
  {
    MulMonotone(d, q + 1, a / d);
    MulMonotone(d, a / d + 1, q);
  }

  /** Masking with the complement of 2^k - 1 in an m-bit word clears the low k bits. */
  lemma {:induction false} AndHigh(a: nat, k: nat, m: nat)
    requires k <= m && a < Pow2(m)
    ensures Pow2(k) <= Pow2(m) && And(a, Pow2(m) - Pow2(k)) == a - a % Pow2(k)
  {
    hide And;
    Pow2Monotone(k, m);
    if k == 0 {
      AndMask(a, m);
      ModSmall(a, Pow2(m));
    } else {
      AndHigh(a / 2, k - 1, m - 1);
      AndEven(a, Pow2(m - 1) - Pow2(k - 1));
      HalfMod(a, Pow2(k - 1));
    }
  }

  lemma ModSmall(a: nat, d: nat)
    requires a < d
    ensures a % d == a && a / d == 0
  {
  }

  lemma {:induction false} Pow2Monotone(k: nat, m: nat)
    requires k <= m
    ensures Pow2(k) <= Pow2(m)
    decreases m
  {
    if k < m { Pow2Monotone(k, m - 1); }
  }

  lemma {:induction false} Pow2Add(j: nat, k: nat)
    ensures Pow2(j + k) == Pow2(j) * Pow2(k)
  {
    if j > 0 {
      Pow2Add(j - 1, k);
      assert Pow2(j + k) == 2 * Pow2(j - 1 + k);
      assert Pow2(j) * Pow2(k) == 2 * Pow2(j - 1) * Pow2(k);
    }
  }

  lemma Pow2Word()
    ensures Pow2(32) == WORD && Pow2(64) == WORD * WORD && Pow2(6) == 64
    ensures Pow2(16) == 0x1_0000 && Pow2(24) == 0x100_0000 && Pow2(28) == 0x1000_0000 && Pow2(30) == 0x4000_0000
    ensures Pow2(31) == 0x8000_0000
  {
    assert Pow2(6) == 64;
    assert Pow2(12) == 4096 by { Pow2Add(6, 6); }
    assert Pow2(4) == 16;
    assert Pow2(16) == 0x1_0000 by { Pow2Add(12, 4); }
    assert Pow2(8) == 256;
    assert Pow2(24) == 0x100_0000 by { Pow2Add(16, 8); }
    assert Pow2(28) == 0x1000_0000 by { Pow2Add(24, 4); }
    Pow2Add(16, 16);
    assert Pow2(30) == 0x4000_0000 by { Pow2Add(28, 2); }
    assert Pow2(31) == 0x8000_0000 by { Pow2Add(30, 1); }
    Pow2Add(32, 32);
  }

  lemma MulRegroup(p: nat, c: nat, q: nat, s: nat)
    ensures (p * c) * q + p * s == p * (c * q + s)
  {
    assert p * (c * q + s) == p * (c * q) + p * s;
    assert (p * c) * q == p * (c * q);
  }

  lemma ModOfRemainder(n: nat, w: nat, p: nat, c: nat)
    requires p > 0 && w == p * c && w > 0
    ensures n % w % p == n % p
  {
    var q, r := n / w, n % w;
    var s, t := r / p, r % p;
    assert n == w * q + r && r == p * s + t;
    MulRegroup(p, c, q, s);
    DivModUnique(n, p, c * q + s, t);
  }

  /** Reducing a counter modulo 2^32 first does not change its slot in a ring of 2^k entries. */
  lemma WrapMod(n: nat, k: nat)
    requires k <= 32
    ensures n % WORD % Pow2(k) == n % Pow2(k)
  {
    Pow2Word();
    Pow2Add(k, 32 - k);
    ModOfRemainder(n, WORD, Pow2(k), Pow2(32 - k));
  }

  /** The masked index of a wrapped counter. */
  lemma MaskedCounter(n: nat, k: nat)
    requires k <= 32
    ensures And(n % WORD, Pow2(k) - 1) == n % Pow2(k) < Pow2(k)
  {
    AndMask(n % WORD, k);
    WrapMod(n, k);
  }

  /** The difference of two wrapped counters, when it is less than 2^32. */
  lemma WrapDifference(a: nat, b: nat)
    requires b <= a && a - b < WORD
    ensures Sub32(a % WORD, b % WORD) == a - b
  {
  }

  lemma WrapIncrement(a: nat)
    ensures Inc32(a % WORD) == (a + 1) % WORD
  {
  }

  /** Two different numbers less than `n` apart have different remainders modulo `n`. */
  lemma ModDistinct(a: nat, b: nat, n: nat)
    requires 0 < b - a < n
    ensures a % n != b % n
  {
    var q, r, d := a / n, a % n, b - a;
    if r + d < n {
      DivModUnique(b, n, q, r + d);
    } else {
      assert n * (q + 1) == n * q + n;
      DivModUnique(b, n, q + 1, r + d - n);
    }
  }
}
