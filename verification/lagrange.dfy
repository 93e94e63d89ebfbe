/** Secret reconstruction (share.py, `secgen`): Lagrange interpolation of
    the shares at a point, computed the way `_lagrange_interpolate` does it
    (per-point numerator and denominator products, a common denominator, and
    modular division by Bézout coefficients), and `recover_secret`, which
    interpolates at x = 0. The module proves that this computation is the
    Lagrange formula and that the formula gives back the value of any
    polynomial with at most as many coefficients as there are shares. */
module Lagrange {
  import opened Modular
  import opened Euclid
  import opened Polynomial
  import opened SharingTypes
  import opened Shares

  /** The product of a sequence of integers, the empty product being 1. */
  function Prod(vals: seq<int>): (r: int)
    decreases |vals|
  {
    if |vals| == 0 then 1 else Prod(vals[..|vals| - 1]) * vals[|vals| - 1]
  }

  /** `PI`: multiplies the values into an accumulator that starts at 1. */
  method Product(vals: seq<int>) returns (accum: int)
    ensures accum == Prod(vals)
  {
    accum := 1;
    for i := 0 to |vals|
      invariant accum == Prod(vals[..i])
    {
      assert vals[..i + 1][..i] == vals[..i];
      accum := accum * vals[i];
    }
    assert vals[..|vals|] == vals;
  }

  /** Modulo a prime, a product vanishes exactly when one of its factors does. */
  lemma {:induction false} ProdZeroIff(vals: seq<int>, p: int)
    requires IsPrime(p)
    ensures Prod(vals) % p == 0 <==> exists i :: 0 <= i < |vals| && vals[i] % p == 0
    decreases |vals|
  {
    if |vals| == 0 {
      ModUnique(1, p, 0, 1);
    } else {
      var n := |vals|;
      var init := vals[..n - 1];
      ProdZeroIff(init, p);
      if Prod(vals) % p == 0 {
        EuclidLemma(Prod(init), vals[n - 1], p);
        if Prod(init) % p == 0 {
          var i :| 0 <= i < |init| && init[i] % p == 0;
          assert vals[i] == init[i];
        }
      }
      if exists i :: 0 <= i < n && vals[i] % p == 0 {
        var i :| 0 <= i < n && vals[i] % p == 0;
        if i == n - 1 {
          MulOfMultiple(vals[n - 1], Prod(init), p);
        } else {
          assert init[i] == vals[i];
          MulOfMultiple(Prod(init), vals[n - 1], p);
        }
      }
    }
  }

  /** A product with a zero factor is zero. */
  lemma {:induction false} ProdWithZero(vals: seq<int>, j: int)
    requires 0 <= j < |vals| && vals[j] == 0
    ensures Prod(vals) == 0
    decreases |vals|
  {
    var n := |vals|;
    if j < n - 1 {
      ProdWithZero(vals[..n - 1], j);
    }
  }

  /** `others = list(x_s); others.pop(i)`: the sequence without position i. */
  function RemoveAt(xs: seq<int>, i: int): (r: seq<int>)
    requires 0 <= i < |xs|
  {
    xs[..i] + xs[i + 1..]
  }

  /** The differences z - o for the values o of os. */
  function Diffs(z: int, os: seq<int>): (r: seq<int>)
  {
    seq(|os|, j requires 0 <= j < |os| => z - os[j])
  }

  /** ∏_{j ≠ i} (x - xs[j]): the numerator of the i-th Lagrange basis value at x. */
  function Numerator(x: int, xs: seq<int>, i: int): (r: int)
    requires 0 <= i < |xs|
  {
    Prod(Diffs(x, RemoveAt(xs, i)))
  }

  /** ∏_{j ≠ i} (xs[i] - xs[j]): the denominator of the i-th Lagrange basis value. */
  function Denominator(xs: seq<int>, i: int): (r: int)
    requires 0 <= i < |xs|
  {
    Numerator(xs[i], xs, i)
  }

  /** The loop of `_lagrange_interpolate` that appends, for every point i,
      the product of x - o and the product of xs[i] - o over the other
      points o. */
  method NumsDens(x: int, xs: seq<int>) returns (nums: seq<int>, dens: seq<int>)
    ensures |nums| == |xs| && |dens| == |xs|
    ensures forall i :: 0 <= i < |xs| ==> nums[i] == Numerator(x, xs, i)
    ensures forall i :: 0 <= i < |xs| ==> dens[i] == Denominator(xs, i)
  {
    nums, dens := [], [];
    var i := 0;
    while i < |xs|
      invariant 0 <= i <= |xs|
      invariant |nums| == i && |dens| == i
      invariant forall j :: 0 <= j < i ==> nums[j] == Numerator(x, xs, j)
      invariant forall j :: 0 <= j < i ==> dens[j] == Denominator(xs, j)
    {
      var others := RemoveAt(xs, i);
      var cur := xs[i];
      var num := Product(Diffs(x, others));
      var den := Product(Diffs(cur, others));
      assert num == Numerator(x, xs, i) && den == Denominator(xs, i);
      nums := nums + [num];
      dens := dens + [den];
      i := i + 1;
    }
  }

  /** The Lagrange formula, term by term: Σ_{i<n} ys[i] · Numerator_i / Denominator_i,
      each division done by the kernel's DivMod. */
  function LagrangeSum(x: int, xs: seq<int>, ys: seq<int>, p: nat, n: nat): (s: int)
    requires |xs| == |ys| && n <= |xs|
  {
    if n == 0 then 0
    else LagrangeSum(x, xs, ys, p, n - 1) + DivMod(ys[n - 1] * Numerator(x, xs, n - 1), Denominator(xs, n - 1), p)
  }

  /** The value at x of the polynomial through the points (xs[i], ys[i]),
      by the Lagrange formula, reduced into [0, p). */
  function LagrangeAt(x: int, xs: seq<int>, ys: seq<int>, p: int): (v: int)
    requires p > 0 && |xs| == |ys|
    ensures 0 <= v < p
  {
    LagrangeSum(x, xs, ys, p, |xs|) % p
  }

  /** The sum of line 151: every numerator is scaled by the common
      denominator den and by its y-value and reduced modulo p before the
      division by its own denominator. */
  function ScaledSum(nums: seq<int>, dens: seq<int>, ys: seq<int>, den: int, p: int, n: nat): (s: int)
    requires p > 0 && |nums| == |dens| == |ys| && n <= |nums|
  {
    if n == 0 then 0
    else ScaledSum(nums, dens, ys, den, p, n - 1) + DivMod(nums[n - 1] * den * ys[n - 1] % p, dens[n - 1], p)
  }

  /** Scaling by the common denominator before the division is harmless:
      the scaled sum is congruent to den times the Lagrange sum. */
  lemma {:induction false} ScaledSumCong(x: int, xs: seq<int>, ys: seq<int>, nums: seq<int>, dens: seq<int>,
                                          den: int, p: int, n: nat)
    requires p > 0 && |xs| == |ys| == |nums| == |dens| && n <= |xs|
    requires forall i :: 0 <= i < |xs| ==> nums[i] == Numerator(x, xs, i) && dens[i] == Denominator(xs, i)
    ensures Cong(ScaledSum(nums, dens, ys, den, p, n), den * LagrangeSum(x, xs, ys, p, n), p)
  {
    if n == 0 {
      CongRefl(0, p);
    } else {
      var i := n - 1;
      ScaledSumCong(x, xs, ys, nums, dens, den, p, i);
      var inv := Bezout(dens[i], p).0;
      var t := nums[i] * den * ys[i];
      CongMod(t, p);
      CongRefl(inv, p);
      CongMul(t % p, t, inv, inv, p);
      var s := LagrangeSum(x, xs, ys, p, i);
      assert LagrangeSum(x, xs, ys, p, n) == s + (ys[i] * nums[i]) * inv;
      ScaledTerm(nums[i], den, ys[i], inv, s);
      CongAdd(ScaledSum(nums, dens, ys, den, p, i), den * s, (t % p) * inv, t * inv, p);
    }
  }

  lemma ScaledTerm(num: int, den: int, y: int, inv: int, s: int)
    ensures den * s + (num * den * y) * inv == den * (s + (y * num) * inv)
  {
  }

  /** Modulo a prime, the denominator of a point differs from zero when the
      x-coordinates are pairwise distinct modulo that prime. */
  lemma DenominatorNonZero(xs: seq<int>, i: int, p: int)
    requires IsPrime(p) && 0 <= i < |xs| && DistinctMod(xs, p)
    ensures Denominator(xs, i) % p != 0
  {
    var ds := Diffs(xs[i], RemoveAt(xs, i));
    forall j | 0 <= j < |ds|
      ensures ds[j] % p != 0
    {
      var k := if j < i then j else j + 1;
      assert ds[j] == xs[i] - xs[k];
      if k < i {
        NegMod(xs[k] - xs[i], p);
      }
    }
    ProdZeroIff(ds, p);
  }

  /** `_lagrange_interpolate(x, x_s, y_s, p)`: fails on a repeated
      x-coordinate; otherwise returns a value in [0, p), which is the Lagrange
      formula's value at x whenever p is prime and the x-coordinates are
      distinct modulo p. */
  method LagrangeInterpolate(x: int, xs: seq<int>, ys: seq<int>, p: int) returns (r: Result<int>)
    requires p > 0 && |xs| == |ys|
    ensures r.Err? <==> !Distinct(xs)
    ensures r.Err? ==> r.error == DuplicateIndex
    ensures r.Ok? ==> 0 <= r.value < p
    ensures IsPrime(p) && DistinctMod(xs, p) ==> r == Ok(LagrangeAt(x, xs, ys, p))
  {
    if !Distinct(xs) {
      DistinctModIsDistinct(xs, p);
      return Err(DuplicateIndex);
    }
    var nums, dens := NumsDens(x, xs);
    var den := Product(dens);
    var num := ScaledSum(nums, dens, ys, den, p, |xs|);
    var value := (DivMod(num, den, p) + p) % p;
    r := Ok(value);
    if IsPrime(p) && DistinctMod(xs, p) {
      ScaledSumCong(x, xs, ys, nums, dens, den, p, |xs|);
      CommonDenominatorNonZero(xs, dens, p);
      DivideByCommonDenominator(num, den, LagrangeSum(x, xs, ys, p, |xs|), p);
    }
  }

  /** Values distinct modulo p are distinct. */
  lemma DistinctModIsDistinct(xs: seq<int>, p: int)
    requires p > 0
    ensures DistinctMod(xs, p) ==> Distinct(xs)
  {
    ModUnique(0, p, 0, 0);
  }

  /** Dividing a multiple of den by den: if num ≡ den * s and den * inv ≡ 1,
      then num * inv, shifted into [0, p), is s modulo p. */
  lemma CancelUnit(num: int, den: int, s: int, inv: int, p: int)
    requires p > 0 && Cong(num, den * s, p) && Cong(den * inv, 1, p)
    ensures (num * inv + p) % p == s % p
  {
    CongRefl(inv, p);
    CongMul(num, den * s, inv, inv, p);
    CongRefl(s, p);
    CongMul(s, s, den * inv, 1, p);
    assert (den * s) * inv == s * (den * inv);
    CongTrans(num * inv, s * (den * inv), s, p);
    ModAddMultiple(num * inv, p, 1);
    CongIffSameMod(num * inv, s, p);
  }

  /** Dividing by the common denominator: modulo a prime p, if num ≡ den · s
      and p does not divide den, the source's final step
      (DivMod(num, den, p) + p) % p gives s reduced into [0, p). */
  lemma DivideByCommonDenominator(num: int, den: int, s: int, p: int)
    requires IsPrime(p) && den % p != 0 && Cong(num, den * s, p)
    ensures (DivMod(num, den, p) + p) % p == s % p
  {
    BezoutInverse(den, p);
    CancelUnit(num, den, s, Bezout(den, p).0, p);
  }

  /** Modulo a prime, the common denominator of points with x-coordinates
      distinct modulo that prime is not zero. */
  lemma CommonDenominatorNonZero(xs: seq<int>, dens: seq<int>, p: int)
    requires IsPrime(p) && DistinctMod(xs, p) && |dens| == |xs|
    requires forall i :: 0 <= i < |xs| ==> dens[i] == Denominator(xs, i)
    ensures Prod(dens) % p != 0
  {
    forall i | 0 <= i < |dens|
      ensures dens[i] % p != 0
    {
      DenominatorNonZero(xs, i, p);
    }
    ProdZeroIff(dens, p);
  }

  /** `recover_secret(shares, prime)`: fails with fewer than two shares or a
      repeated x-coordinate; otherwise interpolates the shares at x = 0. */
  method RecoverSecret(shares: seq<Share>, prime: int) returns (r: Result<int>)
    requires prime > 0
    ensures |shares| < 2 ==> r == Err(InsufficientShares)
    ensures |shares| >= 2 ==> (r.Err? <==> !Distinct(Xs(shares)))
    ensures |shares| >= 2 && r.Err? ==> r.error == DuplicateIndex
    ensures r.Ok? ==> 0 <= r.value < prime
    ensures |shares| >= 2 && IsPrime(prime) && DistinctMod(Xs(shares), prime) ==>
      r == Ok(LagrangeAt(0, Xs(shares), Ys(shares), prime))
  {
    if |shares| < 2 {
      return Err(InsufficientShares);
    }
    r := LagrangeInterpolate(0, Xs(shares), Ys(shares), prime);
  }

  // ---------------------------------------------------------------------
  // Exactness of the Lagrange formula

  /** The polynomial ∏ (X - o) over the values o of os. */
  function LinProd(os: seq<int>): (r: seq<int>)
    ensures |r| == |os| + 1
    decreases |os|
  {
    if |os| == 0 then [1] else MulLinear(LinProd(os[..|os| - 1]), os[|os| - 1])
  }

  lemma {:induction false} EvalLinProd(os: seq<int>, z: int)
    ensures Eval(LinProd(os), z) == Prod(Diffs(z, os))
    decreases |os|
  {
    var n := |os|;
    if n == 0 {
      assert Eval([1], z) == 1 + z * Eval([], z);
    } else {
      EvalLinProd(os[..n - 1], z);
      EvalMulLinear(LinProd(os[..n - 1]), os[n - 1], z);
      assert Diffs(z, os)[..n - 1] == Diffs(z, os[..n - 1]);
    }
  }

  /** The Lagrange polynomial: Σ_{i<n} ys[i] · inv(Denominator_i) · ∏_{j≠i} (X - xs[j]). */
  function LagrangePoly(xs: seq<int>, ys: seq<int>, p: nat, n: nat): (r: seq<int>)
    requires |xs| == |ys| && n <= |xs|
    ensures |r| <= |xs|
  {
    if n == 0 then []
    else Add(LagrangePoly(xs, ys, p, n - 1),
             Scale(ys[n - 1] * Bezout(Denominator(xs, n - 1), p).0, LinProd(RemoveAt(xs, n - 1))))
  }

  /** The Lagrange polynomial evaluates to the Lagrange sum. */
  lemma {:induction false} EvalLagrangePoly(xs: seq<int>, ys: seq<int>, p: nat, n: nat, z: int)
    requires |xs| == |ys| && n <= |xs|
    ensures Eval(LagrangePoly(xs, ys, p, n), z) == LagrangeSum(z, xs, ys, p, n)
  {
    if n > 0 {
      var i := n - 1;
      var inv := Bezout(Denominator(xs, i), p).0;
      var c := ys[i] * inv;
      var basis := LinProd(RemoveAt(xs, i));
      assert LagrangePoly(xs, ys, p, n) == Add(LagrangePoly(xs, ys, p, i), Scale(c, basis));
      EvalLagrangePoly(xs, ys, p, i, z);
      EvalAdd(LagrangePoly(xs, ys, p, i), Scale(c, basis), z);
      EvalScale(c, basis, z);
      EvalLinProd(RemoveAt(xs, i), z);
      Reassociate(ys[i], inv, Numerator(z, xs, i));
      assert LagrangeSum(z, xs, ys, p, n)
          == LagrangeSum(z, xs, ys, p, i) + (ys[i] * Numerator(z, xs, i)) * inv;
    }
  }

  lemma Reassociate(y: int, inv: int, num: int)
    ensures (y * inv) * num == (y * num) * inv
  {
  }

  /** At another point's x-coordinate, the numerator of point i vanishes. */
  lemma NumeratorAtOtherPoint(xs: seq<int>, i: int, m: int)
    requires 0 <= i < |xs| && 0 <= m < |xs| && i != m
    ensures Numerator(xs[m], xs, i) == 0
  {
    var ds := Diffs(xs[m], RemoveAt(xs, i));
    var j := if m < i then m else m - 1;
    assert ds[j] == xs[m] - xs[m];
    ProdWithZero(ds, j);
  }

  /** At point m, only term m of the Lagrange sum survives. */
  lemma {:induction false} LagrangeSumAtPoint(xs: seq<int>, ys: seq<int>, p: nat, m: int, n: nat)
    requires |xs| == |ys| && n <= |xs| && 0 <= m < |xs|
    ensures LagrangeSum(xs[m], xs, ys, p, n)
         == if m < n then DivMod(ys[m] * Denominator(xs, m), Denominator(xs, m), p) else 0
  {
    if n > 0 {
      var i := n - 1;
      LagrangeSumAtPoint(xs, ys, p, m, i);
      var num := Numerator(xs[m], xs, i);
      var term := DivMod(ys[i] * num, Denominator(xs, i), p);
      assert LagrangeSum(xs[m], xs, ys, p, n) == LagrangeSum(xs[m], xs, ys, p, i) + term;
      if i != m {
        NumeratorAtOtherPoint(xs, i, m);
        ZeroTerm(ys[i], num, Bezout(Denominator(xs, i), p).0);
        assert term == 0;
      } else {
        assert num == Denominator(xs, m);
      }
    }
  }

  lemma ZeroTerm(y: int, num: int, c: int)
    requires num == 0
    ensures (y * num) * c == 0
  {
  }

  /** The Lagrange formula reproduces the y-values at the points themselves. */
  lemma LagrangeAtPoint(xs: seq<int>, ys: seq<int>, p: int, m: int)
    requires IsPrime(p) && |xs| == |ys| && DistinctMod(xs, p) && 0 <= m < |xs|
    ensures Cong(LagrangeSum(xs[m], xs, ys, p, |xs|), ys[m], p)
  {
    var d := Denominator(xs, m);
    LagrangeSumAtPoint(xs, ys, p, m, |xs|);
    DenominatorNonZero(xs, m, p);
    BezoutInverse(d, p);
    TimesUnit(ys[m], d, Bezout(d, p).0, p);
  }

  lemma TimesUnit(y: int, d: int, inv: int, p: int)
    requires p > 0 && Cong(d * inv, 1, p)
    ensures Cong((y * d) * inv, y, p)
  {
    CongRefl(y, p);
    CongMul(y, y, d * inv, 1, p);
    assert (y * d) * inv == y * (d * inv);
  }

  /** Exactness: if p is prime, the x-coordinates are distinct modulo p and
      every y-value is congruent to poly's value at its x-coordinate, for a
      polynomial with at most as many coefficients as there are points, then
      the Lagrange formula gives poly's value at every x, modulo p. */
  lemma InterpolationExact(poly: seq<int>, x: int, xs: seq<int>, ys: seq<int>, p: int)
    requires IsPrime(p) && |xs| == |ys| && DistinctMod(xs, p) && |poly| <= |xs|
    requires forall i :: 0 <= i < |xs| ==> Cong(ys[i], PolySum(poly, xs[i]), p)
    ensures LagrangeAt(x, xs, ys, p) == PolySum(poly, x) % p
  {
    var k := |xs|;
    var diff := Add(poly, Scale(-1, LagrangePoly(xs, ys, p, k)));
    forall i | 0 <= i < k
      ensures Eval(diff, xs[i]) % p == 0
    {
      DifferenceVanishesAtPoint(poly, xs, ys, p, i);
    }
    RootsVanish(diff, xs, p, x);
    DifferenceVanishes(poly, xs, ys, p, x);
  }

  /** poly minus the Lagrange polynomial vanishes modulo p at each point. */
  lemma DifferenceVanishesAtPoint(poly: seq<int>, xs: seq<int>, ys: seq<int>, p: int, i: int)
    requires IsPrime(p) && |xs| == |ys| && DistinctMod(xs, p) && 0 <= i < |xs|
    requires Cong(ys[i], PolySum(poly, xs[i]), p)
    ensures Eval(Add(poly, Scale(-1, LagrangePoly(xs, ys, p, |xs|))), xs[i]) % p == 0
  {
    DifferenceAt(poly, xs, ys, p, xs[i]);
    LagrangeAtPoint(xs, ys, p, i);
    CongSym(ys[i], PolySum(poly, xs[i]), p);
    VanishingGap(PolySum(poly, xs[i]), LagrangeSum(xs[i], xs, ys, p, |xs|), ys[i], p);
  }

  /** Where the difference vanishes modulo p, the Lagrange formula agrees with poly. */
  lemma DifferenceVanishes(poly: seq<int>, xs: seq<int>, ys: seq<int>, p: int, x: int)
    requires p > 0 && |xs| == |ys|
    requires Eval(Add(poly, Scale(-1, LagrangePoly(xs, ys, p, |xs|))), x) % p == 0
    ensures LagrangeAt(x, xs, ys, p) == PolySum(poly, x) % p
  {
    var s := LagrangeSum(x, xs, ys, p, |xs|);
    DifferenceAt(poly, xs, ys, p, x);
    SumOfVanishing(PolySum(poly, x) - s, s, p);
  }

  lemma SumOfVanishing(d: int, s: int, p: int)
    requires p > 0 && d % p == 0
    ensures (d + s) % p == s % p
  {
    CongIffSameMod(d, 0, p);
    CongRefl(s, p);
    CongAdd(d, 0, s, s, p);
    CongIffSameMod(d + s, s, p);
  }

  /** The difference between poly and the Lagrange polynomial, evaluated. */
  lemma DifferenceAt(poly: seq<int>, xs: seq<int>, ys: seq<int>, p: nat, z: int)
    requires |xs| == |ys|
    ensures Eval(Add(poly, Scale(-1, LagrangePoly(xs, ys, p, |xs|))), z)
         == PolySum(poly, z) - LagrangeSum(z, xs, ys, p, |xs|)
  {
    var lp := LagrangePoly(xs, ys, p, |xs|);
    EvalAdd(poly, Scale(-1, lp), z);
    EvalScale(-1, lp, z);
    EvalLagrangePoly(xs, ys, p, |xs|, z);
    HornerIsSum(poly, z);
  }

  lemma VanishingGap(a: int, b: int, y: int, p: int)
    requires p > 0 && Cong(a, y, p) && Cong(b, y, p)
    ensures (a - b) % p == 0
  {
    CongSub(a, y, b, y, p);
    CongIffSameMod(a - b, 0, p);
  }

  /** The shares at the chosen positions of a share list. */
  function Pick(points: seq<Share>, picks: seq<int>): (sub: seq<Share>)
    requires forall j :: 0 <= j < |picks| ==> 0 <= picks[j] < |points|
    ensures |sub| == |picks|
  {
    seq(|picks|, j requires 0 <= j < |picks| => points[picks[j]])
  }

  /** The round trip: for a prime larger than the number of shares, any
      `minimum` or more distinct shares from `MakeRandomShares` have
      x-coordinates distinct modulo the prime, and the Lagrange formula at
      x = 0 over them (what `RecoverSecret` returns for them) is the secret
      reduced modulo the prime. */
  lemma ShareRoundTrip(minimum: int, shares: int, prime: int, draws: seq<int>, picks: seq<int>)
    requires IsPrime(prime) && shares < prime
    requires minimum <= shares ==> |draws| == (if minimum < 0 then 0 else minimum)
    requires MakeRandomShares(minimum, shares, prime, draws).Ok?
    requires forall j :: 0 <= j < |picks| ==> 0 <= picks[j] < shares
    requires forall j, k :: 0 <= j < k < |picks| ==> picks[j] != picks[k]
    requires |picks| >= minimum
    ensures var (secret, points) := MakeRandomShares(minimum, shares, prime, draws).value;
      var sub := Pick(points, picks);
      DistinctMod(Xs(sub), prime) && LagrangeAt(0, Xs(sub), Ys(sub), prime) == secret % prime
  {
    var (secret, points) := MakeRandomShares(minimum, shares, prime, draws).value;
    var sub := Pick(points, picks);
    PickedDistinct(points, picks, prime);
    PickedOnPolynomial(points, picks, draws, prime);
    InterpolationExact(draws, 0, Xs(sub), Ys(sub), prime);
    SecretIsValueAtZero(draws);
  }

  /** The round trip with the coefficients drawn from [0, prime), the range
      the field calls for: the recovered value is the secret itself. */
  lemma InFieldRoundTrip(minimum: int, shares: int, prime: int, draws: seq<int>, picks: seq<int>)
    requires IsPrime(prime) && shares < prime
    requires minimum <= shares ==> |draws| == (if minimum < 0 then 0 else minimum)
    requires MakeRandomShares(minimum, shares, prime, draws).Ok?
    requires 0 <= draws[0] < prime
    requires forall j :: 0 <= j < |picks| ==> 0 <= picks[j] < shares
    requires forall j, k :: 0 <= j < k < |picks| ==> picks[j] != picks[k]
    requires |picks| >= minimum
    ensures var (secret, points) := MakeRandomShares(minimum, shares, prime, draws).value;
      var sub := Pick(points, picks);
      LagrangeAt(0, Xs(sub), Ys(sub), prime) == secret
  {
    ShareRoundTrip(minimum, shares, prime, draws, picks);
    ModUnique(draws[0], prime, 0, draws[0]);
  }

  /** Shares at distinct positions below a prime have x-coordinates distinct
      modulo that prime. */
  lemma PickedDistinct(points: seq<Share>, picks: seq<int>, prime: int)
    requires prime > 0 && |points| < prime
    requires forall i :: 0 <= i < |points| ==> points[i].x == i + 1
    requires forall j :: 0 <= j < |picks| ==> 0 <= picks[j] < |points|
    requires forall j, k :: 0 <= j < k < |picks| ==> picks[j] != picks[k]
    ensures DistinctMod(Xs(Pick(points, picks)), prime)
  {
    var xs := Xs(Pick(points, picks));
    forall j, k | 0 <= j < k < |xs|
      ensures (xs[j] - xs[k]) % prime != 0
    {
      assert xs[j] == picks[j] + 1 && xs[k] == picks[k] + 1;
      SmallNonZeroMod(xs[j] - xs[k], prime);
    }
  }

  /** Every picked share lies on the polynomial modulo the prime. */
  lemma PickedOnPolynomial(points: seq<Share>, picks: seq<int>, draws: seq<int>, prime: int)
    requires prime > 0
    requires forall i :: 0 <= i < |points| ==> points[i].y == PolySum(draws, points[i].x) % prime
    requires forall j :: 0 <= j < |picks| ==> 0 <= picks[j] < |points|
    ensures var sub := Pick(points, picks);
      forall i :: 0 <= i < |sub| ==> Cong(Ys(sub)[i], PolySum(draws, Xs(sub)[i]), prime)
  {
    var sub := Pick(points, picks);
    forall i | 0 <= i < |sub|
      ensures Cong(Ys(sub)[i], PolySum(draws, Xs(sub)[i]), prime)
    {
      var pt := points[picks[i]];
      assert Ys(sub)[i] == pt.y && Xs(sub)[i] == pt.x;
      CongMod(PolySum(draws, pt.x), prime);
    }
  }

  /** The constant term is the polynomial's value at 0. */
  lemma SecretIsValueAtZero(poly: seq<int>)
    requires |poly| > 0
    ensures PolySum(poly, 0) == poly[0]
  {
    HornerIsSum(poly, 0);
    assert Eval(poly, 0) == poly[0] + 0 * Eval(poly[1..], 0);
  }
}
