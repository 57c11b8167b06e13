/** Python integer arithmetic that differs from Dafny's: the built-in `round`
    (half to even), `math.ceil` of an exact quotient and the floor-based `%`. */
module PyMath {

  /** Python's `round(n / 2)`: the nearest integer to n/2, ties going to the
      even neighbour, so round(1/2) = 0, round(3/2) = 2, round(5/2) = 2. */
  function RoundHalf(n: nat): (r: nat)
    ensures -0.5 <= (r as real) - (n as real) / 2.0 <= 0.5
    ensures (r as real) - (n as real) / 2.0 in {-0.5, 0.5} ==> r % 2 == 0
    ensures r <= n
  {
    var k := n / 2;
    if n % 2 == 0 || k % 2 == 0 then k else k + 1
  }

  /** The two rounding conditions single out one integer, so any other
      rounding that meets them agrees with RoundHalf. */
  lemma RoundHalfUnique(n: nat, r: int)
    requires -0.5 <= (r as real) - (n as real) / 2.0 <= 0.5
    requires (r as real) - (n as real) / 2.0 in {-0.5, 0.5} ==> r % 2 == 0
    ensures r == RoundHalf(n)
  {
    var q := RoundHalf(n);
    if r < q {
      assert false;
    } else if r > q {
      assert false;
    }
  }

  /** Halving small pools: a pool of one keeps none, of three or five keeps two. */
  lemma RoundHalfExamples()
    ensures RoundHalf(1) == 0 && RoundHalf(3) == 2 && RoundHalf(5) == 2
    ensures RoundHalf(4) == 2 && RoundHalf(0) == 0
  {
  }

  /** `math.ceil(n / k)` for a positive divisor: the least multiple count
      that covers n. */
  function CeilDiv(n: nat, k: nat): (r: nat)
    requires k > 0
    ensures r * k >= n
    ensures r * k < n + k
  {
    (n + k - 1) / k
  }

  /** Python's `a % b`: the remainder takes the sign of the divisor, and it
      is zero exactly when b divides a. */
  function PyMod(a: int, b: int): (r: int)
    requires b != 0
    ensures b > 0 ==> 0 <= r < b
    ensures b < 0 ==> b < r <= 0
    ensures r == 0 <==> a % b == 0
  {
    var m := a % b;
    if b > 0 || m == 0 then m else m + b
  }
}
