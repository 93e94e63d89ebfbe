/** Integer powers, primality and congruence modulo a positive integer: the
    arithmetic vocabulary shared by every other module of the model. */
module Modular {

  /** b raised to the power e. */
  function Pow(b: int, e: nat): (r: int)
  {
    if e == 0 then 1 else b * Pow(b, e - 1)
  }

  /** Two raised to the power e. */
  function Pow2(e: nat): (r: nat)
    ensures r >= 1
  {
    if e == 0 then 1 else 2 * Pow2(e - 1)
  }

  /** p is a prime number: at least 2 and without a divisor strictly between 1 and p. */
  ghost predicate IsPrime(p: int)
  {
    p >= 2 && forall d :: 2 <= d < p ==> p % d != 0
  }

  /** a and b are congruent modulo m. */
  predicate Cong(a: int, b: int, m: int)
    requires m > 0
  {
    (a - b) % m == 0
  }

  lemma MulAtLeast(m: int, k: int)
    requires m > 0 && k >= 1
    ensures m * k >= m
  {
  }

  /** Euclidean division is unique: the quotient and remainder are determined. */
  lemma ModUnique(a: int, m: int, q: int, r: int)
    requires m > 0 && 0 <= r < m && a == m * q + r
    ensures a % m == r && a / m == q
  {
    var q', r' := a / m, a % m;
    assert m * (q - q') == r' - r;
    if q - q' >= 1 {
      MulAtLeast(m, q - q');
    } else if q' - q >= 1 {
      MulAtLeast(m, q' - q);
    }
  }

  lemma MultipleMod(m: int, k: int)
    requires m > 0
    ensures (m * k) % m == 0
  {
    ModUnique(m * k, m, k, 0);
  }

  lemma ModZeroMultiple(x: int, m: int)
    requires m > 0 && x % m == 0
    ensures x == m * (x / m)
  {
  }

  lemma CongRefl(a: int, m: int)
    requires m > 0
    ensures Cong(a, a, m)
  {
  }

  lemma CongSym(a: int, b: int, m: int)
    requires m > 0 && Cong(a, b, m)
    ensures Cong(b, a, m)
  {
    var k := (a - b) / m;
    ModZeroMultiple(a - b, m);
    ModUnique(b - a, m, -k, 0);
  }

  lemma CongTrans(a: int, b: int, c: int, m: int)
    requires m > 0 && Cong(a, b, m) && Cong(b, c, m)
    ensures Cong(a, c, m)
  {
    ModZeroMultiple(a - b, m);
    ModZeroMultiple(b - c, m);
    ModUnique(a - c, m, (a - b) / m + (b - c) / m, 0);
  }

  lemma CongAdd(a: int, b: int, c: int, d: int, m: int)
    requires m > 0 && Cong(a, b, m) && Cong(c, d, m)
    ensures Cong(a + c, b + d, m)
  {
    ModZeroMultiple(a - b, m);
    ModZeroMultiple(c - d, m);
    ModUnique(a + c - (b + d), m, (a - b) / m + (c - d) / m, 0);
  }

  lemma CongSub(a: int, b: int, c: int, d: int, m: int)
    requires m > 0 && Cong(a, b, m) && Cong(c, d, m)
    ensures Cong(a - c, b - d, m)
  {
    ModZeroMultiple(a - b, m);
    ModZeroMultiple(c - d, m);
    ModUnique(a - c - (b - d), m, (a - b) / m - (c - d) / m, 0);
  }

  lemma CongMul(a: int, b: int, c: int, d: int, m: int)
    requires m > 0 && Cong(a, b, m) && Cong(c, d, m)
    ensures Cong(a * c, b * d, m)
  {
    var k1, k2 := (a - b) / m, (c - d) / m;
    ModZeroMultiple(a - b, m);
    ModZeroMultiple(c - d, m);
    assert a * c - b * d == a * (c - d) + d * (a - b);
    assert a * (c - d) == m * (a * k2);
    assert d * (a - b) == m * (d * k1);
    ModUnique(a * c - b * d, m, a * k2 + d * k1, 0);
  }

  /** Reducing modulo m keeps the congruence class. */
  lemma CongMod(a: int, m: int)
    requires m > 0
    ensures Cong(a % m, a, m)
  {
    ModUnique(a % m - a, m, -(a / m), 0);
  }

  /** Congruent numbers leave the same remainder, and conversely. */
  lemma CongIffSameMod(a: int, b: int, m: int)
    requires m > 0
    ensures Cong(a, b, m) <==> a % m == b % m
  {
    if Cong(a, b, m) {
      ModZeroMultiple(a - b, m);
      ModUnique(a, m, b / m + (a - b) / m, b % m);
    } else if a % m == b % m {
      ModUnique(a - b, m, a / m - b / m, 0);
    }
  }

  /** Adding a multiple of m does not change the remainder. */
  lemma ModAddMultiple(a: int, m: int, k: int)
    requires m > 0
    ensures (a + m * k) % m == a % m
  {
    ModUnique(a + m * k, m, a / m + k, a % m);
  }

  lemma PowAdd(b: int, e1: nat, e2: nat)
    ensures Pow(b, e1 + e2) == Pow(b, e1) * Pow(b, e2)
  {
    if e1 > 0 {
      PowAdd(b, e1 - 1, e2);
      assert Pow(b, e1 + e2) == b * Pow(b, e1 - 1 + e2);
    }
  }

  /** A multiple of m times anything is a multiple of m. */
  lemma MulOfMultiple(a: int, b: int, m: int)
    requires m > 0 && a % m == 0
    ensures (a * b) % m == 0 && (b * a) % m == 0
  {
    ModZeroMultiple(a, m);
    assert a * b == m * ((a / m) * b);
    MultipleMod(m, (a / m) * b);
  }

  /** m divides t exactly when it divides -t. */
  lemma NegMod(t: int, m: int)
    requires m > 0
    ensures t % m == 0 <==> (-t) % m == 0
  {
    if t % m == 0 {
      var k := t / m;
      ModZeroMultiple(t, m);
      NegateProduct(t, m, k);
      MultipleMod(m, -k);
    }
    if (-t) % m == 0 {
      var k := (-t) / m;
      ModZeroMultiple(-t, m);
      NegateProduct(-t, m, k);
      MultipleMod(m, -k);
    }
  }

  lemma NegateProduct(t: int, m: int, k: int)
    requires t == m * k
    ensures -t == m * -k
  {
  }

  /** A non-zero number smaller in size than m is not a multiple of m. */
  lemma SmallNonZeroMod(d: int, m: int)
    requires m > 0 && d != 0 && -m < d < m
    ensures d % m != 0
  {
    if d > 0 {
      ModUnique(d, m, 0, d);
    } else {
      ModUnique(d, m, -1, d + m);
    }
  }
}
