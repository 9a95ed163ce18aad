/** Imperative computation of the curve inverses.

    The amount a payment buys is found as the closed-form candidate
    floor(sqrt(s² + payment/(coef/2))) − s, taken from an integer square root,
    followed by a local correction: step up while one more unit is still
    affordable, step down while the current amount is not. The correction
    makes the floor property hold whatever the candidate is, so the result is
    exact for every input, including a zero payment. */
module Search {
  import opened Pricing

  /** Integer square root by bisection over [0, x + 1). */
  method IntegerSqrt(x: nat) returns (r: nat)
    ensures r * r <= x < (r + 1) * (r + 1)
    ensures r == Isqrt(x)
  {
    var lo, hi := 0, x + 1;
    assert x < hi * hi by {
      MulMono(hi, 1, hi);
    }
    while lo + 1 < hi
      invariant lo < hi
      invariant lo * lo <= x < hi * hi
      decreases hi - lo
    {
      var mid := (lo + hi) / 2;
      if mid * mid <= x {
        lo := mid;
      } else {
        hi := mid;
      }
    }
    r := lo;
    IsqrtUnique(x, r);
  }

  /** Units bought by `payment` at tradable supply `s`: the largest `n` with
      MintCost(n) <= payment. */
  method ComputeMintAmount(coef: Coefficient, s: nat, payment: nat) returns (n: nat)
    ensures MintCost(coef, s, n) <= payment < MintCost(coef, s, n + 1)
    ensures n == MintAmount(coef, s, payment)
  {
    var root := IntegerSqrt(s * s + payment / Half(coef));
    n := if root >= s then root - s else 0;
    // one more unit is still affordable: step up
    while MintCost(coef, s, n + 1) <= payment
      decreases payment - MintCost(coef, s, n)
    {
      MintCostStrictlyIncreasing(coef, s, n, n + 1);
      n := n + 1;
    }
    // the current amount is not affordable: step down
    assert MintCost(coef, s, 0) == 0;
    while payment < MintCost(coef, s, n)
      invariant payment < MintCost(coef, s, n + 1)
      decreases n
    {
      n := n - 1;
    }
    MintAmountUnique(coef, s, payment, n);
  }

  /** Units of the `s` tradable ones whose burn yields at most `target`: the
      largest `n <= s` with BurnRevenue(n) <= target. */
  method ComputeBurnAmount(coef: Coefficient, s: nat, target: nat) returns (n: nat)
    requires target <= Area(coef, s)
    ensures n <= s && BurnRevenue(coef, s, n) <= target
    ensures n < s ==> target < BurnRevenue(coef, s, n + 1)
    ensures n == BurnAmount(coef, s, target)
  {
    var rest := s * s - target / Half(coef);
    var left := 0;
    if rest > 0 {
      var root := IntegerSqrt(rest);
      left := if root * root == rest then root else root + 1;
    }
    n := if left <= s then s - left else 0;
    // one more unit still stays within the target: step up
    while n < s && BurnRevenue(coef, s, n + 1) <= target
      invariant n <= s
      decreases s - n
    {
      n := n + 1;
    }
    // the current amount overshoots the target: step down
    while target < BurnRevenue(coef, s, n)
      invariant n <= s
      invariant n < s ==> target < BurnRevenue(coef, s, n + 1)
      decreases n
    {
      n := n - 1;
    }
    BurnAmountUnique(coef, s, target, n);
  }

  /** The floor root is unique. */
  lemma IsqrtUnique(x: nat, r: nat)
    requires r * r <= x < (r + 1) * (r + 1)
    ensures r == Isqrt(x)
  {
    var q := Isqrt(x);
    if q < r {
      SquareMono(q + 1, r);
    } else if r < q {
      SquareMono(r + 1, q);
    }
  }
}
