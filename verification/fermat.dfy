/** Fermat's little theorem, the number-theoretic fact behind the
    Miller–Rabin test: for a prime p and any a that p does not divide,
    a^(p-1) ≡ 1 (mod p). It is proved from the binomial rows of (X + 1)^n:
    every inner coefficient of (X + 1)^p is a multiple of p, so
    (a + 1)^p ≡ a^p + 1, and induction on a gives a^p ≡ a. */
module Fermat {
  import opened Modular
  import opened Euclid
  import opened Polynomial

  /** The binomial coefficient C(n, k), by Pascal's rule. */
  function Binom(n: nat, k: nat): (c: nat)
  {
    if k == 0 then 1 else if n == 0 then 0 else Binom(n - 1, k - 1) + Binom(n - 1, k)
  }

  /** The coefficients of (X + 1)^n, constant term first: row n of Pascal's triangle. */
  function Row(n: nat): (r: seq<int>)
    ensures |r| == n + 1
  {
    seq(n + 1, k requires 0 <= k <= n => Binom(n, k))
  }

  lemma {:induction false} BinomBeyond(n: nat, k: nat)
    requires k > n
    ensures Binom(n, k) == 0
  {
    if n > 0 {
      BinomBeyond(n - 1, k - 1);
      BinomBeyond(n - 1, k);
    }
  }

  lemma {:induction false} BinomDiagonal(n: nat)
    ensures Binom(n, n) == 1
  {
    if n > 0 {
      BinomDiagonal(n - 1);
      BinomBeyond(n - 1, n);
    }
  }

  /** Each row is the previous row shifted by one place plus itself, which is
      multiplication by (X + 1). */
  lemma RowStep(n: nat)
    requires n >= 1
    ensures Row(n) == Add([0] + Row(n - 1), Row(n - 1))
  {
    var prev := Row(n - 1);
    var r, s := Row(n), Add([0] + prev, prev);
    forall k | 0 <= k <= n
      ensures r[k] == s[k]
    {
      RowStepAt(n, k);
    }
  }

  lemma RowStepAt(n: nat, k: nat)
    requires 1 <= n && k <= n
    ensures Row(n)[k] == Add([0] + Row(n - 1), Row(n - 1))[k]
  {
    var prev := Row(n - 1);
    var shifted := [0] + prev;
    assert Add(shifted, prev)[k] == Coef(shifted, k) + Coef(prev, k);
    assert Coef(shifted, k) == if k == 0 then 0 else Binom(n - 1, k - 1);
    if k == n {
      BinomBeyond(n - 1, n);
    }
    assert Coef(prev, k) == Binom(n - 1, k);
    assert Row(n)[k] == Binom(n, k);
  }

  lemma {:induction false} EvalRow(n: nat, a: int)
    ensures Eval(Row(n), a) == Pow(a + 1, n)
  {
    if n == 0 {
      assert Row(0) == [1];
      assert Eval([1], a) == 1 + a * Eval([], a);
    } else {
      var prev := Row(n - 1);
      RowStep(n);
      EvalRow(n - 1, a);
      EvalAdd([0] + prev, prev, a);
      assert ([0] + prev)[1..] == prev;
      assert Eval([0] + prev, a) == 0 + a * Eval(prev, a);
      OnePlus(a, Pow(a + 1, n - 1));
    }
  }

  lemma OnePlus(a: int, w: int)
    ensures 0 + a * w + w == (a + 1) * w
  {
  }

  /** The absorption identity k · C(n, k) == n · C(n - 1, k - 1). */
  lemma {:induction false} Absorption(n: nat, k: nat)
    requires 1 <= k <= n
    ensures k * Binom(n, k) == n * Binom(n - 1, k - 1)
  {
    if k == n {
      BinomDiagonal(n);
      BinomDiagonal(n - 1);
    } else if k == 1 {
      // C(n, 1) == 1 + C(n - 1, 1) == 1 + (n - 1)
      Absorption(n - 1, 1);
    } else {
      Absorption(n - 1, k);
      Absorption(n - 1, k - 1);
      AbsorptionAlgebra(k, n, Binom(n - 1, k - 1), Binom(n - 1, k), Binom(n - 2, k - 2), Binom(n - 2, k - 1));
    }
  }

  lemma AbsorptionAlgebra(k: int, n: int, b: int, c: int, e: int, f: int)
    requires k * c == (n - 1) * f
    requires (k - 1) * b == (n - 1) * e
    requires b == e + f
    ensures k * (b + c) == n * b
  {
  }

  /** The inner binomial coefficients of a prime row are multiples of the prime. */
  lemma PrimeRowInner(p: int, k: nat)
    requires IsPrime(p) && 0 < k < p
    ensures Binom(p, k) % p == 0
  {
    Absorption(p, k);
    MultipleMod(p, Binom(p - 1, k - 1));
    EuclidLemma(k, Binom(p, k), p);
    SmallNonZeroMod(k, p);
  }

  /** The polynomial X^m. */
  function Monomial(m: nat): (r: seq<int>)
    ensures |r| == m + 1
  {
    seq(m, _ => 0) + [1]
  }

  lemma {:induction false} EvalMonomial(m: nat, a: int)
    ensures Eval(Monomial(m), a) == Pow(a, m)
  {
    if m > 0 {
      EvalMonomial(m - 1, a);
      assert Monomial(m)[1..] == Monomial(m - 1);
    }
  }

  /** Polynomials whose coefficients agree modulo p agree modulo p at every point. */
  lemma {:induction false} EvalCong(P: seq<int>, Q: seq<int>, a: int, p: int)
    requires p > 0 && |P| == |Q|
    requires forall k :: 0 <= k < |P| ==> Cong(P[k], Q[k], p)
    ensures Cong(Eval(P, a), Eval(Q, a), p)
    decreases |P|
  {
    if |P| == 0 {
      CongRefl(0, p);
    } else {
      EvalCong(P[1..], Q[1..], a, p);
      CongRefl(a, p);
      CongMul(a, a, Eval(P[1..], a), Eval(Q[1..], a), p);
      CongAdd(P[0], Q[0], a * Eval(P[1..], a), a * Eval(Q[1..], a), p);
    }
  }

  /** The "freshman's dream": (a + 1)^p ≡ a^p + 1 modulo a prime p. */
  lemma FreshmansDream(p: int, a: int)
    requires IsPrime(p)
    ensures Cong(Pow(a + 1, p), Pow(a, p) + 1, p)
  {
    var row := Row(p);
    var ends := [1] + Monomial(p - 1);
    BinomDiagonal(p);
    forall k | 0 <= k < |row|
      ensures Cong(row[k], ends[k], p)
    {
      if k == 0 || k == p {
        assert row[k] == 1 && ends[k] == 1;
        CongRefl(1, p);
      } else {
        PrimeRowInner(p, k);
        assert ends[k] == 0;
        assert (row[k] - ends[k]) % p == 0;
      }
    }
    EvalCong(row, ends, a, p);
    EvalRow(p, a);
    EvalMonomial(p - 1, a);
    assert ends[1..] == Monomial(p - 1);
    assert Eval(ends, a) == 1 + a * Pow(a, p - 1);
  }

  /** a^p ≡ a modulo a prime p, for every a >= 0. */
  lemma {:induction false} FermatPower(p: int, a: nat)
    requires IsPrime(p)
    ensures Cong(Pow(a, p), a, p)
  {
    if a == 0 {
      assert Pow(0, p) == 0 * Pow(0, p - 1);
      CongRefl(0, p);
    } else {
      FermatPower(p, a - 1);
      FreshmansDream(p, a - 1);
      CongRefl(1, p);
      CongAdd(Pow(a - 1, p), a - 1, 1, 1, p);
      CongTrans(Pow(a, p), Pow(a - 1, p) + 1, a, p);
    }
  }

  /** Fermat's little theorem: a^(p-1) ≡ 1 modulo a prime p that does not divide a. */
  lemma FermatLittle(p: int, a: nat)
    requires IsPrime(p) && a % p != 0
    ensures Pow(a, p - 1) % p == 1
  {
    FermatPower(p, a);
    assert Pow(a, p) == a * Pow(a, p - 1);
    // a * (a^(p-1) - 1) ≡ 0, and p does not divide a
    CongRefl(a, p);
    CongSub(a * Pow(a, p - 1), a, a, a, p);
    assert a * (Pow(a, p - 1) - 1) == a * Pow(a, p - 1) - a;
    CongIffSameMod(a * (Pow(a, p - 1) - 1), 0, p);
    ModUnique(0, p, 0, 0);
    EuclidLemma(a, Pow(a, p - 1) - 1, p);
    CongIffSameMod(Pow(a, p - 1) - 1, 0, p);
    CongRefl(1, p);
    CongAdd(Pow(a, p - 1) - 1, 0, 1, 1, p);
    CongIffSameMod(Pow(a, p - 1), 1, p);
    ModUnique(1, p, 0, 1);
  }
}
