/** The Miller–Rabin probable-prime test and the prime-candidate generator
    (share.py, `is_prime` and `generate_prime_candidate`). The random
    witnesses and the random bits are parameters. The test is the standard
    per-witness Miller–Rabin loop: every witness is checked, and a
    witness that reveals n as composite ends the test with false. */
module Primality {
  import opened Modular
  import opened Euclid
  import opened Fermat

  /** m == 2^s · d with d odd: the split of a positive m into its power of
      two and its odd part. */
  function Split(m: nat): (sd: (nat, nat))
    requires m > 0
    ensures sd.1 % 2 == 1
    ensures m == Pow2(sd.0) * sd.1
    decreases m
  {
    if m % 2 == 1 then (0, m)
    else
      var sd := Split(m / 2);
      DoubleProduct(m, sd.0, sd.1);
      (sd.0 + 1, sd.1)
  }

  lemma DoubleProduct(m: nat, s: nat, d: nat)
    requires m % 2 == 0 && m / 2 == Pow2(s) * d
    ensures m == Pow2(s + 1) * d
  {
    assert Pow2(s + 1) * d == 2 * (Pow2(s) * d);
  }

  /** The halving loop of `is_prime`: strips the factors of two from n - 1,
      counting them in s, and leaves the odd part in r. */
  method Decompose(n: int) returns (s: nat, r: nat)
    requires n >= 2
    ensures (s, r) == Split(n - 1)
    ensures r % 2 == 1 && n - 1 == Pow2(s) * r
  {
    s, r := 0, n - 1;
    while r % 2 == 0
      invariant r > 0
      invariant Split(n - 1) == (s + Split(r).0, Split(r).1)
      decreases r
    {
      s, r := s + 1, r / 2;
    }
  }

  /** Python's three-argument pow(b, e, n) for n > 0: b^e reduced into [0, n). */
  function ModPow(b: int, e: nat, n: int): (r: int)
    requires n > 0
    ensures 0 <= r < n
  {
    Pow(b, e) % n
  }

  /** x squared j times modulo n. */
  function Chain(x: int, j: nat, n: int): (c: int)
    requires n > 0 && 0 <= x < n
    ensures 0 <= c < n
  {
    if j == 0 then x else ModPow(Chain(x, j - 1, n), 2, n)
  }

  /** Miller–Rabin's condition for one witness a against an odd n with
      n - 1 == 2^s · d: a^d ≡ 1, or one of a^d, a^(2d), …, a^(2^(s-1)·d) is
      ≡ -1, all modulo n. */
  ghost predicate WitnessPasses(n: int, a: int)
    requires n >= 3
  {
    var sd := Split(n - 1);
    var x := ModPow(a, sd.1, n);
    x == 1 || exists j :: 0 <= j < sd.0 && Chain(x, j, n) == n - 1
  }

  /** The test of one witness: x = a^d mod n, then up to s - 1 squarings
      looking for n - 1; reaching 1 first, or never reaching n - 1, shows
      that n is composite. */
  method WitnessTest(n: int, a: int, s: nat, d: nat) returns (passes: bool)
    requires n >= 3 && n % 2 == 1 && (s, d) == Split(n - 1)
    ensures passes == WitnessPasses(n, a)
  {
    var x0 := ModPow(a, d, n);
    var x := x0;
    if x == 1 || x == n - 1 {
      assert x == 1 || Chain(x0, 0, n) == n - 1;
      return true;
    }
    var j := 1;
    while j < s && x != n - 1
      invariant 1 <= j <= s
      invariant x == Chain(x0, j - 1, n)
      invariant forall i :: 0 <= i < j - 1 ==> Chain(x0, i, n) != n - 1
      decreases s - j
    {
      x := ModPow(x, 2, n);
      if x == 1 {
        forall i | j <= i < s
          ensures Chain(x0, i, n) != n - 1
        {
          ChainStaysOne(x0, j, i, n);
        }
        return false;
      }
      j := j + 1;
    }
    return x == n - 1;
  }

  /** Once the chain reaches 1 it stays at 1. */
  lemma {:induction false} ChainStaysOne(x: int, j: nat, i: nat, n: int)
    requires n > 1 && 0 <= x < n && j <= i && Chain(x, j, n) == 1
    ensures Chain(x, i, n) == 1
    decreases i - j
  {
    if i > j {
      ChainStaysOne(x, j, i - 1, n);
      ModUnique(1, n, 0, 1);
    }
  }

  /** `is_prime(n, k)` with its k random witnesses given as `witnesses`,
      each drawn from [2, n - 2]. It answers true for 2 and 3, false for
      n <= 1 and for even n, and otherwise true exactly when every witness
      passes. A prime is never rejected. */
  method IsProbablePrime(n: int, witnesses: seq<int>) returns (probablyPrime: bool)
    requires n >= 5 && n % 2 == 1 ==> forall i :: 0 <= i < |witnesses| ==> 2 <= witnesses[i] <= n - 2
    ensures n == 2 || n == 3 ==> probablyPrime
    ensures n <= 1 || (n != 2 && n % 2 == 0) ==> !probablyPrime
    ensures n >= 5 && n % 2 == 1 ==>
      (probablyPrime <==> forall i :: 0 <= i < |witnesses| ==> WitnessPasses(n, witnesses[i]))
    ensures IsPrime(n) ==> probablyPrime
  {
    if n == 2 || n == 3 {
      return true;
    }
    if n <= 1 || n % 2 == 0 {
      return false;
    }
    var s, r := Decompose(n);
    var k := 0;
    while k < |witnesses|
      invariant 0 <= k <= |witnesses|
      invariant forall i :: 0 <= i < k ==> WitnessPasses(n, witnesses[i])
    {
      var passes := WitnessTest(n, witnesses[k], s, r);
      if !passes {
        if IsPrime(n) {
          PrimePassesEveryWitness(n, witnesses[k]);
        }
        return false;
      }
      k := k + 1;
    }
    return true;
  }

  /** How a call of the test ends as share.py indents it. */
  datatype Outcome = Returned(verdict: bool) | NameUnbound | Diverges

  /** `is_prime` as its lines are indented in share.py: the witness loop
      only rebinds a and x, so the last witness alone is examined, after
      the loop and only when there is one (otherwise x is unbound); j is
      bound only when x is neither 1 nor n - 1, and it is never advanced
      inside the squaring loop, which therefore squares until it meets
      n - 1, or forever. */
  ghost function IsPrimeAsWritten(n: int, witnesses: seq<int>): (o: Outcome)
  {
    if n == 2 || n == 3 then Returned(true)
    else if n <= 1 || n % 2 == 0 then Returned(false)
    else if |witnesses| == 0 then NameUnbound
    else
      var sd := Split(n - 1);
      var x := ModPow(witnesses[|witnesses| - 1], sd.1, n);
      if x == 1 || x == n - 1 then NameUnbound
      else if sd.0 <= 1 then Returned(false)
      else if exists i :: Chain(x, i, n) == n - 1 then Returned(true)
      else Diverges
  }

  lemma SevenIsPrime()
    ensures IsPrime(7)
  {
    forall d | 2 <= d < 7
      ensures 7 % d != 0
    {
      ModUnique(7, d, 7 / d, 7 % d);
    }
  }

  /** The indentation makes the test fail on the prime 7 with witness 2,
      which passes the per-witness test: 7 - 1 == 2 · 3 and 2^3 ≡ 1 modulo 7,
      so the squaring loop reads j before anything binds it. */
  lemma AsWrittenFailsOnSeven()
    ensures IsPrime(7) && WitnessPasses(7, 2)
    ensures IsPrimeAsWritten(7, [2]) == NameUnbound
  {
    SevenIsPrime();
    assert Split(3) == (0, 3);
    assert Split(6) == (1, 3);
    assert Pow(2, 3) == 8;
    PrimePassesEveryWitness(7, 2);
  }

  /** Chain from a^d walks through the powers a^(2^j · d). */
  lemma {:induction false} ChainPow(a: int, d: nat, j: nat, n: int)
    requires n > 0
    ensures Chain(ModPow(a, d, n), j, n) == ModPow(a, Pow2(j) * d, n)
  {
    if j > 0 {
      ChainPow(a, d, j - 1, n);
      var e := Pow2(j - 1) * d;
      var y := Chain(ModPow(a, d, n), j - 1, n);
      assert Chain(ModPow(a, d, n), j, n) == ModPow(y, 2, n);
      SquareStep(a, e, y, n);
      DoubleExponent(j, d);
    }
  }

  /** Squaring a value congruent to a^e gives a^(2e). */
  lemma SquareStep(a: int, e: nat, y: int, n: int)
    requires n > 0 && y == Pow(a, e) % n
    ensures ModPow(y, 2, n) == ModPow(a, e + e, n)
  {
    Square(y);
    CongMod(Pow(a, e), n);
    CongMul(y, Pow(a, e), y, Pow(a, e), n);
    PowAdd(a, e, e);
    CongIffSameMod(y * y, Pow(a, e + e), n);
  }

  lemma Square(y: int)
    ensures Pow(y, 2) == y * y
  {
    assert Pow(y, 1) == y * Pow(y, 0);
  }

  lemma DoubleExponent(j: nat, d: nat)
    requires j > 0
    ensures Pow2(j - 1) * d + Pow2(j - 1) * d == Pow2(j) * d
  {
  }

  /** The only square roots of 1 modulo a prime are 1 and -1. */
  lemma SquareRootsOfOne(x: int, n: int)
    requires IsPrime(n) && 0 <= x < n && (x * x) % n == 1
    ensures x == 1 || x == n - 1
  {
    ModUnique(1, n, 0, 1);
    CongIffSameMod(x * x, 1, n);
    assert (x - 1) * (x + 1) == x * x - 1;
    CongRefl(1, n);
    CongSub(x * x, 1, 1, 1, n);
    CongIffSameMod((x - 1) * (x + 1), 0, n);
    ModUnique(0, n, 0, 0);
    EuclidLemma(x - 1, x + 1, n);
    if (x - 1) % n == 0 {
      SmallMultipleIsZero(x - 1, n);
    } else {
      ModAddMultiple(x + 1 - n, n, 1);
      SmallMultipleIsZero(x + 1 - n, n);
    }
  }

  /** The only multiple of n strictly between -n and n is 0. */
  lemma SmallMultipleIsZero(t: int, n: int)
    requires n > 0 && -n < t < n && t % n == 0
    ensures t == 0
  {
    if t != 0 {
      SmallNonZeroMod(t, n);
      assert false;
    }
  }

  /** If a chain that does not start at 1 reaches 1 after j squarings, one of
      its first j values is -1 modulo the prime n. */
  lemma {:induction false} ReachesMinusOne(x: int, j: nat, n: int)
    requires IsPrime(n) && 0 <= x < n && x != 1 && Chain(x, j, n) == 1
    ensures exists i :: 0 <= i < j && Chain(x, i, n) == n - 1
  {
    if j > 0 {
      var y := Chain(x, j - 1, n);
      assert Chain(x, j, n) == Pow(y, 2) % n;
      Square(y);
      SquareRootsOfOne(y, n);
      if y == 1 {
        ReachesMinusOne(x, j - 1, n);
      }
    }
  }

  /** Soundness of Miller–Rabin: a prime n passes the test for every witness
      in [1, n - 1], so a failing witness proves n composite. */
  lemma PrimePassesEveryWitness(n: int, a: int)
    requires IsPrime(n) && n >= 3 && 1 <= a < n
    ensures WitnessPasses(n, a)
  {
    var sd := Split(n - 1);
    var x := ModPow(a, sd.1, n);
    ChainPow(a, sd.1, sd.0, n);
    ModUnique(a, n, 0, a);
    FermatLittle(n, a);
    if x != 1 {
      ReachesMinusOne(x, sd.0, n);
    }
  }

  /** Bit i of v. */
  function Bit(v: nat, i: nat): (b: nat)
    ensures b < 2
  {
    (v / Pow2(i)) % 2
  }

  /** v with bit i set, Python's v | (1 << i). */
  function SetBit(v: nat, i: nat): (w: nat)
  {
    if Bit(v, i) == 1 then v else v + Pow2(i)
  }

  /** `generate_prime_candidate(length)` with the random bits given as
      `bits`: the top bit and the lowest bit are forced on. */
  function GeneratePrimeCandidate(length: nat, bits: nat): (c: nat)
    requires length >= 1 && bits < Pow2(length)
  {
    SetBit(SetBit(bits, length - 1), 0)
  }

  /** A candidate is odd, has exactly `length` bits, and keeps the bits of
      `bits` strictly between the lowest and the top one. */
  lemma CandidateShape(length: nat, bits: nat)
    requires length >= 1 && bits < Pow2(length)
    ensures GeneratePrimeCandidate(length, bits) % 2 == 1
    ensures Pow2(length - 1) <= GeneratePrimeCandidate(length, bits) < Pow2(length)
    ensures length >= 2 ==>
      (GeneratePrimeCandidate(length, bits) / 2) % Pow2(length - 2) == (bits / 2) % Pow2(length - 2)
  {
    var top := Pow2(length - 1);
    var s1 := SetBit(bits, length - 1);
    TopBit(bits, length);
    ModUnique(s1, 1, s1, 0);
    assert Bit(s1, 0) == s1 % 2;
    if length >= 2 {
      var q := Pow2(length - 2);
      assert top == 2 * q;
      if s1 != bits {
        ModUnique(bits + 2 * q, 2, bits / 2 + q, bits % 2);
        ModAddMultiple(bits / 2, q, 1);
      }
      assert (s1 / 2) % q == (bits / 2) % q;
      if s1 % 2 == 0 {
        ModUnique(s1 + 1, 2, s1 / 2, 1);
      }
    }
  }

  /** Setting the top bit of a value below 2^length lands it in
      [2^(length-1), 2^length). */
  lemma TopBit(v: nat, length: nat)
    requires length >= 1 && v < Pow2(length)
    ensures Pow2(length - 1) <= SetBit(v, length - 1) < Pow2(length)
    ensures SetBit(v, length - 1) == v || SetBit(v, length - 1) == v + Pow2(length - 1)
  {
    var top := Pow2(length - 1);
    if v < top {
      ModUnique(v, top, 0, v);
    } else {
      ModUnique(v, top, 1, v - top);
    }
  }
}
