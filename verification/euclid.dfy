/** The modular-arithmetic kernel of the secret-sharing scheme: the extended
    Euclidean algorithm and the modular division built on its first Bézout
    coefficient (share.py, `_extended_gcd` and `_divmod`; the file holds two
    identical copies, modelled once). */
module Euclid {
  import opened Modular

  /** The last non-zero value of the Euclidean remainder sequence a, b, a % b, …
      (the value the source's loop leaves in `a`). */
  function Gcd(a: int, b: nat): (g: int)
    decreases b
  {
    if b == 0 then a else Gcd(b, a % b)
  }

  /** The Bézout coefficients of (a, b), computed by the recursive form of
      the extended Euclidean algorithm: the reference definition the
      iterative loop of the source is proved against. */
  function Bezout(a: int, b: nat): (c: (int, int))
    decreases b
  {
    if b == 0 then (1, 0)
    else
      var c' := Bezout(b, a % b);
      (c'.1, c'.0 - (a / b) * c'.1)
  }

  /** Bézout's identity: the coefficients combine a and b into Gcd(a, b). */
  lemma {:induction false} BezoutIdentity(a: int, b: nat)
    ensures a * Bezout(a, b).0 + b * Bezout(a, b).1 == Gcd(a, b)
    decreases b
  {
    if b > 0 {
      var c' := Bezout(b, a % b);
      var q := a / b;
      BezoutIdentity(b, a % b);
      RemainderStep(a, b, q, a % b, c'.0, c'.1);
    }
  }

  /** The extended Euclidean algorithm as the source writes it: a loop that
      replaces (a, b) by (b, a % b) and updates the coefficient pairs
      (x, last_x) and (y, last_y) together. It returns (last_x, last_y). */
  method ExtendedGcd(a: int, b: nat) returns (x: int, y: int)
    ensures (x, y) == Bezout(a, b)
    ensures a * x + b * y == Gcd(a, b)
  {
    var a': int, b': nat := a, b;
    var x', lastX := 0, 1;
    var y', lastY := 1, 0;
    while b' != 0
      invariant Gcd(a', b') == Gcd(a, b)
      invariant Bezout(a, b).0 == lastX * Bezout(a', b').0 + x' * Bezout(a', b').1
      invariant Bezout(a, b).1 == lastY * Bezout(a', b').0 + y' * Bezout(a', b').1
      decreases b'
    {
      var quot := a' / b';
      CoefficientStep(a', b', lastX, x');
      CoefficientStep(a', b', lastY, y');
      a', b' := b', a' % b';
      x', lastX := lastX - quot * x', x';
      y', lastY := lastY - quot * y', y';
    }
    x, y := lastX, lastY;
    BezoutIdentity(a, b);
  }

  /** One loop iteration of ExtendedGcd keeps the pairing of the accumulated
      coefficients with the Bézout coefficients of the remaining pair. */
  lemma CoefficientStep(a: int, b: nat, last: int, cur: int)
    requires b > 0
    ensures last * Bezout(a, b).0 + cur * Bezout(a, b).1
         == cur * Bezout(b, a % b).0 + (last - (a / b) * cur) * Bezout(b, a % b).1
  {
    var c, c' := Bezout(a, b), Bezout(b, a % b);
    var q := a / b;
    assert c.0 == c'.1 && c.1 == c'.0 - q * c'.1;
    Regroup(last, cur, c'.0, c'.1, q);
    assert last * c.0 + cur * c.1 == last * c'.1 + cur * (c'.0 - q * c'.1);
  }

  lemma RemainderStep(a: int, b: int, q: int, r: int, u: int, v: int)
    requires r == a - q * b
    ensures a * v + b * (u - q * v) == b * u + r * v
  {
  }

  lemma Regroup(last: int, cur: int, u: int, v: int, q: int)
    ensures last * v + cur * (u - q * v) == cur * u + (last - q * cur) * v
  {
  }

  /** Modular division as the source performs it: the numerator times the
      first Bézout coefficient of (den, p), not reduced modulo p. */
  function DivMod(num: int, den: int, p: nat): (q: int)
  {
    num * Bezout(den, p).0
  }

  /** For b > 0 the Euclidean value is positive and divides both inputs. */
  lemma {:induction false} GcdDivides(a: int, b: nat)
    requires a > 0 || b > 0
    ensures Gcd(a, b) > 0 && a % Gcd(a, b) == 0 && b % Gcd(a, b) == 0
    decreases b
  {
    if b > 0 {
      var g := Gcd(b, a % b);
      GcdDivides(b, a % b);
      var q := a / b;
      assert a == b * q + a % b;
      CongIffSameMod(b, 0, g);
      CongIffSameMod(a % b, 0, g);
      CongRefl(q, g);
      CongMul(b, 0, q, q, g);
      CongAdd(b * q, 0 * q, a % b, 0, g);
      CongIffSameMod(a, 0, g);
    } else {
      ModUnique(a, a, 1, 0);
      ModUnique(0, a, 0, 0);
    }
  }

  /** Gcd is the greatest common divisor: for b > 0 it is a positive common
      divisor of a and b, and every positive common divisor divides it. */
  lemma GcdIsGreatestCommonDivisor(a: int, b: nat, d: int)
    requires b > 0 && d > 0 && a % d == 0 && b % d == 0
    ensures Gcd(a, b) > 0 && a % Gcd(a, b) == 0 && b % Gcd(a, b) == 0
    ensures Gcd(a, b) % d == 0
  {
    GcdDivides(a, b);
    var c := Bezout(a, b);
    BezoutIdentity(a, b);
    CongIffSameMod(a, 0, d);
    CongIffSameMod(b, 0, d);
    CongRefl(c.0, d);
    CongRefl(c.1, d);
    CongMul(a, 0, c.0, c.0, d);
    CongMul(b, 0, c.1, c.1, d);
    CongAdd(a * c.0, 0 * c.0, b * c.1, 0 * c.1, d);
    CongIffSameMod(Gcd(a, b), 0, d);
  }

  lemma PositiveFactor(g: int, k: int)
    requires g > 0 && g * k > 0
    ensures k >= 1
  {
  }

  /** A positive divisor of a positive number is at most that number. */
  lemma DivisorAtMost(g: int, n: int)
    requires g > 0 && n > 0 && n % g == 0
    ensures g <= n
  {
    ModZeroMultiple(n, g);
    PositiveFactor(g, n / g);
    MulAtLeast(g, n / g);
  }

  /** Modulo a prime p, any a that p does not divide has Gcd(a, p) == 1. */
  lemma PrimeGcdIsOne(a: int, p: int)
    requires IsPrime(p) && a % p != 0
    ensures Gcd(a, p) == 1
  {
    var g := Gcd(a, p);
    GcdDivides(a, p);
    DivisorAtMost(g, p);
    assert g != p;
  }

  /** Euclid's lemma: a prime dividing a product divides one of its factors. */
  lemma EuclidLemma(a: int, b: int, p: int)
    requires IsPrime(p) && (a * b) % p == 0
    ensures a % p == 0 || b % p == 0
  {
    if a % p != 0 {
      PrimeGcdIsOne(a, p);
      var c := Bezout(a, p);
      BezoutIdentity(a, p);
      // b == (a * b) * c.0 + p * (b * c.1), and both addends are multiples of p
      assert b == (a * b) * c.0 + p * (b * c.1) by {
        assert b * (a * c.0 + p * c.1) == b;
      }
      CongIffSameMod(a * b, 0, p);
      CongRefl(c.0, p);
      CongMul(a * b, 0, c.0, c.0, p);
      MultipleMod(p, b * c.1);
      CongIffSameMod(p * (b * c.1), 0, p);
      CongAdd((a * b) * c.0, 0 * c.0, p * (b * c.1), 0, p);
      CongIffSameMod(b, 0, p);
    }
  }

  /** The source's inverse is an inverse: modulo a prime p, for any den that
      p does not divide (negative ones included), den * inv ≡ 1. */
  lemma BezoutInverse(den: int, p: int)
    requires IsPrime(p) && den % p != 0
    ensures Cong(den * Bezout(den, p).0, 1, p)
  {
    PrimeGcdIsOne(den, p);
    var c := Bezout(den, p);
    BezoutIdentity(den, p);
    MultipleMod(p, c.1);
    ModAddMultiple(den * c.0, p, c.1);
    CongIffSameMod(den * c.0, 1, p);
  }

  /** DivMod divides: modulo a prime p and for den not divisible by p,
      DivMod(num, den, p) * den ≡ num. */
  lemma DivModIsDivision(num: int, den: int, p: int)
    requires IsPrime(p) && den % p != 0
    ensures Cong(DivMod(num, den, p) * den, num, p)
  {
    var inv := Bezout(den, p).0;
    BezoutInverse(den, p);
    CongRefl(num, p);
    CongMul(num, num, den * inv, 1, p);
    assert DivMod(num, den, p) * den == num * (den * inv);
  }
}
