# Shamir secret sharing over a prime field, verified in Dafny

This project models the computational core of `share.py`, a small
Shamir (t, n) threshold secret-sharing tool.

To generate shares, the tool picks a random polynomial whose constant term
is the secret. It evaluates the polynomial modulo a prime at x = 1 … n, and
the resulting points are the shares. To recover the secret, it performs
Lagrange interpolation of any t shares at x = 0. Division there goes through
the inverse that the extended Euclidean algorithm yields. The file also
holds a Miller–Rabin probable-prime test and a generator of prime
candidates.

The model takes every random value as a parameter:
- the polynomial's coefficients (`draws`),
- the Miller–Rabin witnesses (`witnesses`),
- the candidate's raw bits (`bits`).

The field prime is a parameter too. The secret-sharing operations
report their failures as a `Result` value instead of raising.

Modules, one file each:

- `Modular` (`modular.dfy`): powers, primality as a predicate, and
  congruence modulo m with the lemmas for adding, multiplying and reducing
  congruent values.
- `SharingTypes` (`types.dfy`): shares, the error outcomes, `Result`, and
  the coordinate projections.
- `Euclid` (`euclid.dfy`):
  - `_extended_gcd` as an imperative loop, proved equal to the recursive
    extended Euclid.
  - `_divmod`.
  - Bézout's identity.
  - The inverse property modulo a prime.
  - Euclid's lemma.
- `Polynomial` (`polynomial.dfy`):
  - `_eval_at` as Horner's loop, proved equal to Σ poly[i]·x^i mod prime.
  - The polynomial algebra used by the reconstruction proof: sums,
    scaling, synthetic division, and root counting modulo a prime.
- `Shares` (`shares.dfy`): `make_random_shares`.
- `Lagrange` (`lagrange.dfy`):
  - `PI`, and the nums/dens loop.
  - `_lagrange_interpolate` and `recover_secret`. The interpolation is
    proved equal to the Lagrange formula.
  - The formula is proved exact for polynomials with at most k
    coefficients.
  - The end-to-end round trip: any `minimum` distinct shares give back
    the secret.
- `Fermat` (`fermat.dfy`): binomial coefficients and Fermat's little
  theorem, which the Miller–Rabin soundness proof needs.
- `Primality` (`primality.dfy`):
  - The n − 1 = 2^s·r halving loop.
  - The per-witness squaring test, and the whole test.
  - Its soundness: a prime is never rejected.
  - `generate_prime_candidate`.
  - A model of `is_prime` as it is indented in the source (see Findings).
- `Scenarios` (`scenarios.dfy`):
  - The secret 11 split with threshold 2 over the prime 17, and recovered
    by `recover_secret` from two different pairs of shares.
  - Its refusals of a single share and of a repeated x-coordinate.
  - Splitting followed by recovery, for any parameters.
  - The secret drawn equal to the prime (see Findings).

Notes on the model:

- Python's `//` and `%` agree with Dafny's `/` and `%` everywhere they are
  used here. Each divisor is positive: `b` in `_extended_gcd` once it is
  non-zero, and the prime in every reduction. `_extended_gcd`'s second
  argument is therefore a `nat` in the model, since the source only ever
  passes it the prime.
- The bit test `r & 1` is modelled as `r % 2` on the positive `r`.
- `pow(b, e, n)` is modelled as `Pow(b, e) % n`.
- `x | (1 << i)` is modelled as `SetBit`.
- `make_random_shares` and `recover_secret` default their prime to the
  global `_PRIME`. Here the prime is an argument and must be positive
  (`prime > 0`). The source reduces modulo it, which fails for zero. Python
  would also accept a negative modulus and give results in (prime, 0];
  negative moduli are excluded as well, since the prime is never negative.

## Model

| member | source | states |
|---|---|---|
| Euclid.ExtendedGcd | share.py:118-128 | The loop's final (last_x, last_y) are exactly the Bézout coefficients of the recursive extended Euclid on (a, b), and a·x + b·y equals the last non-zero remainder |
| Euclid.BezoutIdentity | share.py:118-128 | For every a and every b ≥ 0, a·x + b·y == Gcd(a, b) for the coefficients the algorithm returns |
| Euclid.GcdDivides | share.py:123-125 | When a or b is positive, the remainder sequence ends in a positive number that divides both a and b |
| Euclid.GcdIsGreatestCommonDivisor | share.py:118-128 | For b > 0, every positive common divisor of a and b divides the returned gcd, so it is the greatest common divisor |
| Euclid.BezoutInverse | share.py:130-132 | For a prime p and any den (negative ones included) not divisible by p, den · inv ≡ 1 (mod p), with inv the first coefficient `_divmod` uses |
| Euclid.DivModIsDivision | share.py:130-132 | Modulo a prime p and for den ≢ 0, `Euclid.DivMod`, the model of `_divmod(num, den, p)`, satisfies DivMod · den ≡ num, so it divides modulo p |
| Polynomial.EvalAt | share.py:47-53 | The accumulator ends in [0, prime) and equals (Σ poly[i] · x^i) mod prime, for any coefficients, any x, and the empty polynomial |
| Polynomial.HornerIsSum | share.py:49-52 | The Horner nesting over the reversed coefficients equals the sum of monomials Σ poly[i] · x^i |
| Shares.SharePoints | share.py:59 | Exactly `count` points, the i-th with x == i + 1. Its y is computed by Horner's rule, as `_eval_at` does, and equals the sum of monomials Σ poly[k] · (i + 1)^k reduced into [0, prime) |
| Shares.MakeRandomShares | share.py:55-60 | Fails with PoolIrrecoverable when minimum > shares, and with EmptyPolynomial when minimum < 1 (poly[0] of an empty list). Otherwise it returns draws[0] as the secret and exactly `shares` points: x-coordinates 1..shares in order and pairwise distinct, each y the polynomial's value at x reduced into [0, prime) |
| Lagrange.Product | share.py:138-142 | The accumulator loop returns the product of all values, 1 for none |
| Lagrange.ProdZeroIff | share.py:138-142 | Modulo a prime, a product is ≡ 0 exactly when one of its factors is ≡ 0 (both directions) |
| Lagrange.NumsDens | share.py:143-149 | For every point i, nums[i] == ∏_{j≠i} (x − xs[j]) and dens[i] == ∏_{j≠i} (xs[i] − xs[j]), in the order of the points |
| Lagrange.DenominatorNonZero | share.py:149 | Modulo a prime, each point's denominator is non-zero when the x-coordinates are pairwise distinct modulo that prime |
| Lagrange.CommonDenominatorNonZero | share.py:150 | The common denominator PI(dens) is non-zero modulo the prime under the same condition |
| Lagrange.ScaledSumCong | share.py:151 | `Lagrange.ScaledSum`, the model of the sum of `_divmod(nums[i]·den·y[i] % p, dens[i], p)`, is congruent modulo p to den times the Lagrange sum Σ y[i]·nums[i]/dens[i] |
| Lagrange.DivideByCommonDenominator | share.py:152 | If num ≡ den · s modulo a prime and den ≢ 0, then (`_divmod(num, den, p)` + p) % p == s mod p |
| Lagrange.LagrangeInterpolate | share.py:134-152 | Fails exactly when two x-coordinates repeat. Otherwise the result lies in [0, p), and for a prime p with x-coordinates distinct modulo p it equals the Lagrange formula's value at x |
| Lagrange.RecoverSecret | share.py:100-104 | Fails with fewer than two shares. Fails with DuplicateIndex exactly when an x-coordinate repeats. An Ok result lies in [0, prime) and is the interpolation at x = 0 |
| Lagrange.LagrangeAtPoint | share.py:143-152 | Evaluated at a share's own x-coordinate, the Lagrange formula gives that share's y modulo p |
| Lagrange.InterpolationExact | share.py:143-152 | For a prime p, if the points lie on a polynomial with at most as many coefficients as points, with x-coordinates distinct modulo p, then the formula gives that polynomial's value at every x, modulo p |
| Lagrange.ShareRoundTrip | share.py:55-60 | Take a prime larger than the number of shares. Then any choice of at least `minimum` distinct shares produced by make_random_shares has x-coordinates distinct modulo the prime, and interpolates at 0 to the secret modulo the prime |
| Scenarios.ElevenSplitIntoThree | share.py:55-60 | The polynomial 11 + 7x with threshold 2 and three shares over 17 gives the secret 11 and the shares (1, 1), (2, 8), (3, 15) |
| Scenarios.SecretEqualToPrimeLost | share.py:7 | With the secret drawn equal to the prime 17, the shares of 17 + 7x are (1, 7), (2, 14), (3, 4), and two of them interpolate to 0, not to 17 |
| Lagrange.InFieldRoundTrip | share.py:55-60 | When the secret lies in [0, prime), any `minimum` or more distinct shares interpolate at 0 to exactly the secret |
| Scenarios.RecoverFirstPair | share.py:100-104 | `recover_secret` on the shares (1, 1) and (2, 8) over 17 returns 11 |
| Scenarios.RecoverLastPair | share.py:100-104 | `recover_secret` on the shares (2, 8) and (3, 15) over 17 returns 11 |
| Scenarios.RecoverFromOneShare | share.py:101-102 | `recover_secret` refuses a single share |
| Scenarios.RecoverFromRepeatedIndex | share.py:136 | `recover_secret` refuses two shares with the same x-coordinate |
| Scenarios.SplitThenRecover | share.py:55-60 | Splitting and then recovering from at least `minimum` distinct shares returns the secret modulo the prime, and exactly the secret when it lies in [0, prime); a single share is refused |
| Scenarios.FirstPairRecovers | share.py:100-104 | Interpolating the shares (1, 1) and (2, 8) at 0 modulo 17 gives 11 |
| Scenarios.LastPairRecovers | share.py:100-104 | Interpolating the shares (2, 8) and (3, 15) at 0 modulo 17 gives 11 |
| Primality.Split | share.py:16-20 | Every positive m is 2^s · d with d odd |
| Primality.Decompose | share.py:16-20 | The halving loop ends with (s, r) == Split(n − 1): r odd and n − 1 == 2^s · r |
| Primality.WitnessTest | share.py:22-32 | One witness a passes exactly when a^r ≡ 1 or one of a^r, a^(2r), …, a^(2^(s−1)·r) is ≡ −1 modulo n (the Miller–Rabin condition) |
| Primality.ChainStaysOne | share.py:26-29 | Once the squaring chain reaches 1 it stays at 1, so stopping with false there misses no later −1 |
| Primality.ChainPow | share.py:23-27 | After j squarings the chain from a^r mod n holds a^(2^j · r) mod n |
| Primality.IsProbablePrime | share.py:11-33 | True for 2 and 3. False for n ≤ 1 and for even n other than 2. For odd n ≥ 5, true exactly when every witness passes. Every prime is accepted whatever the witnesses, so a false verdict proves n composite |
| Primality.PrimePassesEveryWitness | share.py:21-33 | Soundness of Miller–Rabin: for a prime n ≥ 3, every witness in [1, n − 1] passes |
| Primality.AsWrittenFailsOnSeven | share.py:21-32 | `Primality.IsPrimeAsWritten` models the test as indented in the source. On the prime 7 with witness 2 it reads the unbound j, although that witness passes the per-witness test |
| Primality.CandidateShape | share.py:35-38 | The candidate `Primality.GeneratePrimeCandidate` returns is odd and 2^(length−1) ≤ p < 2^length, and bits 1 … length−2 of the raw bits are kept |
| Primality.TopBit | share.py:37 | Setting bit length−1 of a value below 2^length puts it in [2^(length−1), 2^length), adding 2^(length−1) or nothing |

## Left out

- `upload.py` is not part of this model. It is a wrapper around an image-hosting SDK, with environment configuration and console output, and has no algorithmic content.
- Console I/O is not modelled. This covers the prime read from standard input (share.py:6), `maingen` (106-113), `mainsec` (160-170), and every `print`. The prime, the threshold and the shares are arguments instead.
- Random sources are parameters:
  - `_RINT` (share.py:7) supplies the coefficients.
  - `randrange` (share.py:22) supplies the witnesses.
  - `getrandbits` (share.py:36) supplies the raw bits.
  - The coefficient draws may be any integers. The source draws from `randint(0, prime)`, which includes `prime` itself; the consequence for the secret is recorded under Findings.
  - Probabilistic claims are not modelled: the 4^(−k) error bound of Miller–Rabin, and the claim that fewer than `minimum` shares reveal nothing about the secret.
- `generate_prime_number` (share.py:40-44) is not modelled. It retries random candidates in an unbounded loop with no termination guarantee. Its parts, the candidate generator and the test, are modelled.
- `keygen` holds copies of several functions:
  - Its `_extended_gcd` and `_divmod` (share.py:62-76) are identical to `secgen`'s and are modelled once.
  - Its `_lagrange_interpolate` (share.py:78-98) is not modelled. The `nums`/`dens` appends sit after its loop, so it fails for more than one share. Only `keygen`'s `recover_secret` (share.py:100-104) calls it, and nothing calls that `recover_secret`.
- `recover_secret`'s guard: `secgen`'s version (share.py:155-156) compares against a module-level `uni` that stays 0 and only prints, so it never rejects. `Lagrange.RecoverSecret` uses the raising guard of `keygen`'s copy (share.py:101-102) instead.
- Primality.IsProbablePrime: models the intended per-witness Miller–Rabin loop, not the control flow of share.py:21-32 as indented. The as-indented behaviour is modelled separately under Findings. With no witnesses at all, the model answers true for odd n ≥ 5, where the source raises because `x` is unbound.
- Primality.IsProbablePrime: requires each witness to lie in [2, n − 2] for odd n ≥ 5, which is the range `randrange(2, n - 1)` draws from.
- Primality.CandidateShape: requires length ≥ 1 and raw bits below 2^length. For length 0 the source's `1 << -1` raises, and that error is not modelled.
- Lagrange.LagrangeInterpolate: says nothing about the value when the prime is not prime, or when distinct x-coordinates coincide modulo it. The computation is modelled in those cases too, but `_divmod` does not divide there.
- Python's `assert` (share.py:136) is modelled as the DuplicateIndex error. Running Python with assertions disabled, which skips it, is not modelled.

## Findings

| source | as written | input that shows it | evidently intended | confidence | as-written member | corrected member |
|---|---|---|---|---|---|---|
| share.py:21-32 | Only the last witness is examined, because the witness loop body stops after `x = pow(a, r, n)`. `j` is bound only when x ∉ {1, n−1}. The squaring loop never advances `j`. | n = 7 with witnesses [2]: 7 − 1 = 2 · 3 and 2^3 mod 7 = 1, so line 26 reads the unbound `j` and the call raises for a prime | each witness gets its own chain of at most s − 1 squarings, and a prime is never rejected | high; not executed | Primality.AsWrittenFailsOnSeven | Primality.IsProbablePrime |
| share.py:7, share.py:58 | The coefficients, the secret among them, are drawn by `randint(0, prime)`, whose range includes `prime` | minimum 2, shares 3, prime 17, draws [17, 7]: the secret returned is 17, but the shares (1, 7), (2, 14), (3, 4) recover 0 | draws from [0, prime), so that the recovered value is the secret itself | medium; not executed | Scenarios.SecretEqualToPrimeLost | Lagrange.InFieldRoundTrip |
