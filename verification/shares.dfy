/** Share generation (share.py, `make_random_shares`): the secret is the
    constant term of a polynomial with `minimum` coefficients, and share i is
    the point (i, poly(i) mod prime) for i = 1 .. shares. The coefficients
    come from the system's random source; here they are the argument
    `draws`, one value per coefficient. */
module Shares {
  import opened Modular
  import opened Polynomial
  import opened SharingTypes

  /** The shares of the polynomial `poly`: (i, poly(i) mod prime) for
      i = 1 .. count, each value found by Horner's rule as `_eval_at` does
      and equal to the sum of the monomials. */
  function SharePoints(poly: seq<int>, count: nat, prime: int): (points: seq<Share>)
    requires prime > 0
    ensures |points| == count
    ensures forall i :: 0 <= i < count ==> points[i].x == i + 1
    ensures forall i :: 0 <= i < count ==> 0 <= points[i].y < prime
    ensures forall i :: 0 <= i < count ==> points[i].y == PolySum(poly, i + 1) % prime
  {
    var points := seq(count, i requires 0 <= i < count => Share(i + 1, Eval(poly, i + 1) % prime));
    assert forall i :: 0 <= i < count ==> points[i].y == PolySum(poly, i + 1) % prime by {
      forall i | 0 <= i < count
        ensures points[i].y == PolySum(poly, i + 1) % prime
      {
        HornerIsSum(poly, i + 1);
      }
    }
    points
  }

  /** `make_random_shares(minimum, shares, prime)` with the random
      coefficients given as `draws`. It fails when the threshold exceeds the
      number of shares, and when the threshold is below one (the source then
      reads the first element of an empty coefficient list). Otherwise it
      returns the secret draws[0] and `shares` points. */
  function MakeRandomShares(minimum: int, shares: int, prime: int, draws: seq<int>): (r: Result<(int, seq<Share>)>)
    requires prime > 0
    requires minimum <= shares ==> |draws| == (if minimum < 0 then 0 else minimum)
    ensures minimum > shares ==> r == Err(PoolIrrecoverable)
    ensures minimum <= shares && minimum < 1 ==> r == Err(EmptyPolynomial)
    ensures 1 <= minimum <= shares ==> r.Ok? && r.value.0 == draws[0] && |r.value.1| == shares
    ensures r.Ok? ==> Distinct(Xs(r.value.1))
    ensures r.Ok? ==> forall i :: 0 <= i < |r.value.1| ==>
      r.value.1[i].x == i + 1 && 0 <= r.value.1[i].y < prime &&
      r.value.1[i].y == PolySum(draws, i + 1) % prime
  {
    if minimum > shares then Err(PoolIrrecoverable)
    else if minimum < 1 then Err(EmptyPolynomial)
    else Ok((draws[0], SharePoints(draws, shares, prime)))
  }
}
