/** Polynomials over the integers, written as coefficient sequences with the
    constant term first, as the source stores them (`poly[0]` is the secret).
    The module holds the source's Horner evaluation modulo a prime
    (share.py, `_eval_at`) and the algebra the reconstruction proof needs:
    sums, scaling, multiplication by a linear factor, synthetic division and
    the fact that a polynomial with more roots modulo a prime than
    coefficients vanishes everywhere modulo that prime. */
module Polynomial {
  import opened Modular
  import opened Euclid

  /** Horner's rule: poly[0] + x * (poly[1] + x * (poly[2] + …)). */
  function Eval(poly: seq<int>, x: int): (v: int)
    decreases |poly|
  {
    if |poly| == 0 then 0 else poly[0] + x * Eval(poly[1..], x)
  }

  /** The polynomial as a sum of monomials: Σ poly[i] · x^i. */
  function PolySum(poly: seq<int>, x: int): (v: int)
    decreases |poly|
  {
    if |poly| == 0 then 0
    else PolySum(poly[..|poly| - 1], x) + poly[|poly| - 1] * Pow(x, |poly| - 1)
  }

  lemma {:induction false} PolySumFront(poly: seq<int>, x: int)
    requires |poly| > 0
    ensures PolySum(poly, x) == poly[0] + x * PolySum(poly[1..], x)
    decreases |poly|
  {
    var n := |poly|;
    if n > 1 {
      var init := poly[..n - 1];
      PolySumFront(init, x);
      assert init[1..] == poly[1..][..n - 2];
      assert init[0] == poly[0];
      var s := PolySum(init[1..], x);
      assert PolySum(poly, x) == init[0] + x * s + poly[n - 1] * Pow(x, n - 1);
      assert PolySum(poly[1..], x) == s + poly[n - 1] * Pow(x, n - 2);
      assert Pow(x, n - 1) == x * Pow(x, n - 2);
      FrontAlgebra(poly[0], x, s, poly[n - 1], Pow(x, n - 2), Pow(x, n - 1));
    }
  }

  lemma FrontAlgebra(a: int, x: int, s: int, c: int, w: int, w1: int)
    requires w1 == x * w
    ensures a + x * s + c * w1 == a + x * (s + c * w)
  {
  }

  /** Horner's rule computes the sum of monomials. */
  lemma {:induction false} HornerIsSum(poly: seq<int>, x: int)
    ensures Eval(poly, x) == PolySum(poly, x)
    decreases |poly|
  {
    if |poly| > 0 {
      HornerIsSum(poly[1..], x);
      PolySumFront(poly, x);
    }
  }

  /** `_eval_at`: Horner's rule over the reversed coefficients, reducing the
      accumulator modulo the prime after every step. The result is the
      polynomial's value at x, reduced into [0, prime). */
  method EvalAt(poly: seq<int>, x: int, prime: int) returns (accum: int)
    requires prime > 0
    ensures 0 <= accum < prime
    ensures accum == PolySum(poly, x) % prime
  {
    accum := 0;
    var i := |poly|;
    while i > 0
      invariant 0 <= i <= |poly|
      invariant 0 <= accum < prime
      invariant accum == Eval(poly[i..], x) % prime
    {
      i := i - 1;
      ghost var rest := Eval(poly[i + 1..], x);
      assert poly[i..][1..] == poly[i + 1..];
      CongMod(rest, prime);
      CongRefl(x, prime);
      CongMul(accum, rest, x, x, prime);
      CongRefl(poly[i], prime);
      CongAdd(accum * x, rest * x, poly[i], poly[i], prime);
      CongIffSameMod(accum * x + poly[i], poly[i] + x * rest, prime);
      accum := accum * x;
      accum := accum + poly[i];
      accum := accum % prime;
    }
    assert poly[0..] == poly;
    HornerIsSum(poly, x);
  }

  /** Coefficient k of poly, zero past its end. */
  function Coef(poly: seq<int>, k: nat): (c: int)
  {
    if k < |poly| then poly[k] else 0
  }

  /** The sum of two polynomials. */
  function Add(p: seq<int>, q: seq<int>): (r: seq<int>)
    ensures |r| == if |p| < |q| then |q| else |p|
    ensures forall k :: 0 <= k < |r| ==> r[k] == Coef(p, k) + Coef(q, k)
    decreases |p| + |q|
  {
    if |p| == 0 then q
    else if |q| == 0 then p
    else [p[0] + q[0]] + Add(p[1..], q[1..])
  }

  /** A polynomial multiplied by a constant. */
  function Scale(c: int, p: seq<int>): (r: seq<int>)
    ensures |r| == |p|
    ensures forall k :: 0 <= k < |r| ==> r[k] == c * p[k]
  {
    seq(|p|, k requires 0 <= k < |p| => c * p[k])
  }

  /** A polynomial multiplied by the linear factor (X - c). */
  function MulLinear(p: seq<int>, c: int): (r: seq<int>)
    ensures |r| == |p| + 1
  {
    Add([0] + p, Scale(-c, p))
  }

  lemma {:induction false} EvalAdd(p: seq<int>, q: seq<int>, x: int)
    ensures Eval(Add(p, q), x) == Eval(p, x) + Eval(q, x)
    decreases |p| + |q|
  {
    if |p| > 0 && |q| > 0 {
      var rest := Add(p[1..], q[1..]);
      EvalAdd(p[1..], q[1..], x);
      assert Add(p, q) == [p[0] + q[0]] + rest;
      assert Add(p, q)[1..] == rest;
      assert Eval(Add(p, q), x) == p[0] + q[0] + x * Eval(rest, x);
      Distribute(x, Eval(p[1..], x), Eval(q[1..], x));
    }
  }

  lemma Distribute(x: int, a: int, b: int)
    ensures x * (a + b) == x * a + x * b
  {
  }

  lemma ScaleAlgebra(c: int, p0: int, x: int, e: int)
    ensures c * p0 + x * (c * e) == c * (p0 + x * e)
  {
  }

  lemma {:induction false} EvalScale(c: int, p: seq<int>, x: int)
    ensures Eval(Scale(c, p), x) == c * Eval(p, x)
    decreases |p|
  {
    if |p| > 0 {
      var e := Eval(p[1..], x);
      EvalScale(c, p[1..], x);
      assert Scale(c, p)[1..] == Scale(c, p[1..]);
      assert Eval(Scale(c, p), x) == c * p[0] + x * (c * e);
      ScaleAlgebra(c, p[0], x, e);
    }
  }

  lemma EvalMulLinear(p: seq<int>, c: int, x: int)
    ensures Eval(MulLinear(p, c), x) == Eval(p, x) * (x - c)
  {
    EvalAdd([0] + p, Scale(-c, p), x);
    EvalScale(-c, p, x);
    assert ([0] + p)[1..] == p;
    assert x * Eval(p, x) + (-c) * Eval(p, x) == Eval(p, x) * (x - c);
  }

  /** The quotient of poly by (X - r), by synthetic division. */
  function Quot(poly: seq<int>, r: int): (q: seq<int>)
    ensures |q| == if |poly| == 0 then 0 else |poly| - 1
    decreases |poly|
  {
    if |poly| <= 1 then [] else [Eval(poly[1..], r)] + Quot(poly[1..], r)
  }

  lemma QuotAlgebra(p0: int, z: int, r: int, e: int, w: int, ez: int)
    requires ez == (z - r) * w + e
    ensures p0 + z * ez == (z - r) * (e + z * w) + (p0 + r * e)
  {
  }

  /** Synthetic division: poly(z) == (z - r) * Quot(poly, r)(z) + poly(r). */
  lemma {:induction false} QuotEval(poly: seq<int>, r: int, z: int)
    ensures Eval(poly, z) == (z - r) * Eval(Quot(poly, r), z) + Eval(poly, r)
    decreases |poly|
  {
    if |poly| == 1 {
      assert Eval(poly, z) == poly[0];
      assert Eval(poly, r) == poly[0];
    } else if |poly| > 1 {
      var tail := poly[1..];
      QuotEval(tail, r, z);
      var q := Quot(poly, r);
      assert q[1..] == Quot(tail, r);
      assert Eval(q, z) == Eval(tail, r) + z * Eval(Quot(tail, r), z);
      assert Eval(poly, z) == poly[0] + z * Eval(tail, z);
      assert Eval(poly, r) == poly[0] + r * Eval(tail, r);
      QuotAlgebra(poly[0], z, r, Eval(tail, r), Eval(Quot(tail, r), z), Eval(tail, z));
    }
  }

  /** The values of xs are pairwise distinct modulo m. */
  predicate DistinctMod(xs: seq<int>, m: int)
    requires m > 0
  {
    forall i, j :: 0 <= i < j < |xs| ==> (xs[i] - xs[j]) % m != 0
  }

  /** A polynomial with no more coefficients than it has roots modulo a
      prime p, the roots pairwise distinct modulo p, is zero modulo p at
      every point. */
  lemma {:induction false} RootsVanish(poly: seq<int>, roots: seq<int>, p: int, z: int)
    requires IsPrime(p) && |poly| <= |roots| && DistinctMod(roots, p)
    requires forall i :: 0 <= i < |roots| ==> Eval(poly, roots[i]) % p == 0
    ensures Eval(poly, z) % p == 0
    decreases |roots|
  {
    if |poly| > 0 {
      var n := |roots|;
      var r := roots[n - 1];
      var q := Quot(poly, r);
      var rest := roots[..n - 1];
      forall i | 0 <= i < |rest|
        ensures Eval(q, rest[i]) % p == 0
      {
        var s := rest[i];
        assert (s - r) % p != 0;
        QuotEval(poly, r, s);
        VanishingDifference(Eval(poly, s), Eval(poly, r), p);
        assert (s - r) * Eval(q, s) == Eval(poly, s) - Eval(poly, r);
        EuclidLemma(s - r, Eval(q, s), p);
      }
      RootsVanish(q, rest, p, z);
      QuotEval(poly, r, z);
      MultipleOfVanishing(z - r, Eval(q, z), Eval(poly, r), p);
    }
  }

  lemma VanishingDifference(a: int, b: int, p: int)
    requires p > 0 && a % p == 0 && b % p == 0
    ensures (a - b) % p == 0
  {
    CongIffSameMod(a, 0, p);
    CongIffSameMod(b, 0, p);
    CongSub(a, 0, b, 0, p);
    CongIffSameMod(a - b, 0, p);
  }

  lemma MultipleOfVanishing(c: int, a: int, b: int, p: int)
    requires p > 0 && a % p == 0 && b % p == 0
    ensures (c * a + b) % p == 0
  {
    CongIffSameMod(a, 0, p);
    CongIffSameMod(b, 0, p);
    CongRefl(c, p);
    CongMul(c, c, a, 0, p);
    CongAdd(c * a, c * 0, b, 0, p);
    CongIffSameMod(c * a + b, 0, p);
  }
}
