/** A worked instance of the scheme over the prime 17: the secret 11 with
    threshold 2 is split into three shares by the polynomial 11 + 7x, and
    any two of the shares give 11 back. The recovered values follow from the
    round-trip theorem, not from evaluating the interpolation. The module
    also shows `recover_secret`'s refusals and the whole split-and-recover
    cycle. */
module Scenarios {
  import opened Modular
  import opened Polynomial
  import opened SharingTypes
  import opened Shares
  import opened Lagrange

  lemma SeventeenIsPrime()
    ensures IsPrime(17)
  {
    forall d | 2 <= d < 17
      ensures 17 % d != 0
    {
      if d < 9 {
        ModUnique(17, d, 17 / d, 17 % d);
      } else {
        ModUnique(17, d, 1, 17 - d);
      }
    }
  }

  /** The polynomial 11 + 7x gives the shares (1, 1), (2, 8) and (3, 15)
      modulo 17. */
  lemma ElevenSplitIntoThree()
    ensures MakeRandomShares(2, 3, 17, [11, 7]) == Ok((11, [Share(1, 1), Share(2, 8), Share(3, 15)]))
  {
    forall x | 1 <= x <= 3
      ensures PolySum([11, 7], x) == 11 + 7 * x
    {
      assert [11, 7][..1] == [11];
      assert [11][..0] == [];
    }
    assert SharePoints([11, 7], 3, 17) == [Share(1, 1), Share(2, 8), Share(3, 15)];
  }

  /** With the secret drawn equal to the prime, which the source's inclusive
      range `randint(0, prime)` allows, the polynomial 17 + 7x over 17 gives
      shares that recover 0 rather than the secret 17. */
  lemma SecretEqualToPrimeLost()
    ensures MakeRandomShares(2, 3, 17, [17, 7]) == Ok((17, [Share(1, 7), Share(2, 14), Share(3, 4)]))
    ensures LagrangeAt(0, [1, 2], [7, 14], 17) == 0
  {
    forall x | 1 <= x <= 3
      ensures PolySum([17, 7], x) == 17 + 7 * x
    {
      assert [17, 7][..1] == [17];
      assert [17][..0] == [];
    }
    assert SharePoints([17, 7], 3, 17) == [Share(1, 7), Share(2, 14), Share(3, 4)];
    SeventeenIsPrime();
    ShareRoundTrip(2, 3, 17, [17, 7], [0, 1]);
    var sub := Pick([Share(1, 7), Share(2, 14), Share(3, 4)], [0, 1]);
    assert sub == [Share(1, 7), Share(2, 14)];
    assert Xs(sub) == [1, 2] && Ys(sub) == [7, 14];
  }

  /** The shares (1, 1) and (2, 8) interpolate back to 11 at x = 0. */
  lemma FirstPairRecovers()
    ensures LagrangeAt(0, [1, 2], [1, 8], 17) == 11
  {
    ElevenSplitIntoThree();
    SeventeenIsPrime();
    ShareRoundTrip(2, 3, 17, [11, 7], [0, 1]);
    var sub := Pick([Share(1, 1), Share(2, 8), Share(3, 15)], [0, 1]);
    assert sub == [Share(1, 1), Share(2, 8)];
    assert Xs(sub) == [1, 2] && Ys(sub) == [1, 8];
  }

  /** The shares (2, 8) and (3, 15) interpolate back to 11 at x = 0. */
  lemma LastPairRecovers()
    ensures LagrangeAt(0, [2, 3], [8, 15], 17) == 11
  {
    ElevenSplitIntoThree();
    SeventeenIsPrime();
    ShareRoundTrip(2, 3, 17, [11, 7], [1, 2]);
    var sub := Pick([Share(1, 1), Share(2, 8), Share(3, 15)], [1, 2]);
    assert sub == [Share(2, 8), Share(3, 15)];
    assert Xs(sub) == [2, 3] && Ys(sub) == [8, 15];
  }

  /** `recover_secret` on the shares (1, 1) and (2, 8) over 17 returns 11. */
  method RecoverFirstPair() returns (r: Result<int>)
    ensures r == Ok(11)
  {
    var pair := [Share(1, 1), Share(2, 8)];
    SeventeenIsPrime();
    FirstPairRecovers();
    assert Xs(pair) == [1, 2] && Ys(pair) == [1, 8];
    assert (1 - 2) % 17 == 16;
    r := RecoverSecret(pair, 17);
  }

  /** `recover_secret` on the shares (2, 8) and (3, 15) over 17 returns 11. */
  method RecoverLastPair() returns (r: Result<int>)
    ensures r == Ok(11)
  {
    var pair := [Share(2, 8), Share(3, 15)];
    SeventeenIsPrime();
    LastPairRecovers();
    assert Xs(pair) == [2, 3] && Ys(pair) == [8, 15];
    assert (2 - 3) % 17 == 16;
    r := RecoverSecret(pair, 17);
  }

  /** A single share is refused. */
  method RecoverFromOneShare() returns (r: Result<int>)
    ensures r == Err(InsufficientShares)
  {
    r := RecoverSecret([Share(1, 1)], 17);
  }

  /** Two shares with the same x-coordinate are refused. */
  method RecoverFromRepeatedIndex() returns (r: Result<int>)
    ensures r == Err(DuplicateIndex)
  {
    var pair := [Share(1, 1), Share(1, 8)];
    assert Xs(pair) == [1, 1];
    r := RecoverSecret(pair, 17);
  }

  /** Splitting a secret and recovering it from any two or more of the
      shares, at least `minimum` of them, gives the secret reduced modulo
      the prime; one share alone is refused. */
  method SplitThenRecover(minimum: int, shares: int, prime: int, draws: seq<int>, picks: seq<int>)
      returns (r: Result<int>)
    requires IsPrime(prime) && shares < prime
    requires 1 <= minimum <= shares && |draws| == minimum
    requires forall j :: 0 <= j < |picks| ==> 0 <= picks[j] < shares
    requires forall j, k :: 0 <= j < k < |picks| ==> picks[j] != picks[k]
    requires |picks| >= minimum
    ensures |picks| < 2 ==> r == Err(InsufficientShares)
    ensures |picks| >= 2 ==> r == Ok(draws[0] % prime)
    ensures |picks| >= 2 && 0 <= draws[0] < prime ==> r == Ok(draws[0])
  {
    var made := MakeRandomShares(minimum, shares, prime, draws);
    var points := made.value.1;
    ShareRoundTrip(minimum, shares, prime, draws, picks);
    if 0 <= draws[0] < prime {
      InFieldRoundTrip(minimum, shares, prime, draws, picks);
    }
    r := RecoverSecret(Pick(points, picks), prime);
  }
}
