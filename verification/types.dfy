/** The values exchanged by the secret-sharing operations: shares and the
    error outcomes the source raises. */
module SharingTypes {

  /** One share: the point (x, y) of the secret polynomial, y reduced modulo the prime. */
  datatype Share = Share(x: int, y: int)

  /** The failures of share generation and reconstruction. */
  datatype Error =
    | PoolIrrecoverable   // `ValueError`: the threshold exceeds the number of shares
    | EmptyPolynomial     // `IndexError`: a threshold below one leaves no coefficient to read
    | InsufficientShares  // `ValueError`: reconstruction was given fewer than two shares
    | DuplicateIndex      // `AssertionError`: two shares have the same x-coordinate

  datatype Result<T> = Ok(value: T) | Err(error: Error)

  /** The x-coordinates of a list of shares. */
  function Xs(shares: seq<Share>): (xs: seq<int>)
    ensures |xs| == |shares|
  {
    seq(|shares|, i requires 0 <= i < |shares| => shares[i].x)
  }

  /** The y-coordinates of a list of shares. */
  function Ys(shares: seq<Share>): (ys: seq<int>)
    ensures |ys| == |shares|
  {
    seq(|shares|, i requires 0 <= i < |shares| => shares[i].y)
  }

  /** No value occurs twice in xs. */
  predicate Distinct(xs: seq<int>)
  {
    forall i, j :: 0 <= i < j < |xs| ==> xs[i] != xs[j]
  }
}
