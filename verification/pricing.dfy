/** The linear bonding curve: the price of the tradable supply grows as
    `coefficient · x`, so minting from supply `s` to `s + n` costs the area
    under that line between the two points and burning back down refunds
    the same area. Every quantity is an exact integer because the
    coefficient is even. The two inverses turn an amount of custody currency
    back into a whole number of units, always rounding down. */
module Pricing {

  /** createToken accepts a coefficient only when it is positive and even. */
  predicate ValidCoefficient(coef: nat)
  {
    coef > 0 && coef % 2 == 0
  }

  type Coefficient = c: nat | ValidCoefficient(c) witness 2

  /** Half the slope; the area formulas multiply by it. */
  function Half(coef: Coefficient): (h: nat)
    ensures h > 0 && 2 * h == coef
  {
    assert ValidCoefficient(coef);
    coef / 2
  }

  /** The area under the price line `coef · x` from 0 to `s`, that is coef/2 · s². */
  function Area(coef: Coefficient, s: nat): nat
  {
    Half(coef) * (s * s)
  }

  /** The instantaneous (marginal) price at tradable supply `s`. */
  function CurrentPrice(coef: Coefficient, s: nat): nat
  {
    coef * s
  }

  /** The cost of minting `n` units at tradable supply `s`: coef/2 · n · (2s + n),
      which is coef/2 · ((s+n)² − s²). */
  function MintCost(coef: Coefficient, s: nat, n: nat): (cost: nat)
    ensures Area(coef, s) + cost == Area(coef, s + n)
  {
    SquareOfSum(s, n);
    DistributeLeft(Half(coef), s * s, n * (2 * s + n));
    Half(coef) * (n * (2 * s + n))
  }

  /** The revenue of burning `n` of the `s` tradable units: coef/2 · n · (2s − n),
      which is coef/2 · (s² − (s−n)²). Burning more than the tradable supply has
      no revenue; callers reject it. */
  function BurnRevenue(coef: Coefficient, s: nat, n: nat): (revenue: nat)
    requires n <= s
    ensures Area(coef, s - n) + revenue == Area(coef, s)
  {
    SquareOfSum(s - n, n);
    assert n * (2 * (s - n) + n) == n * (2 * s - n);
    DistributeLeft(Half(coef), (s - n) * (s - n), n * (2 * s - n));
    Half(coef) * (n * (2 * s - n))
  }

  /** The floor of the square root of `x`. */
  function Isqrt(x: nat): (r: nat)
    ensures r * r <= x < (r + 1) * (r + 1)
    decreases x
  {
    if x < 4 then (if x == 0 then 0 else 1)
    else
      var q := Isqrt(x / 4);
      IsqrtStep(x, q);
      if (2 * q + 1) * (2 * q + 1) <= x then 2 * q + 1 else 2 * q
  }

  /** The least `m` whose square is at least `x`. */
  function CeilSqrt(x: nat): (m: nat)
    ensures x <= m * m
    ensures m > 0 ==> (m - 1) * (m - 1) < x
  {
    var r := Isqrt(x);
    if r * r == x then r else r + 1
  }

  /** The largest number of units that `payment` can buy at tradable supply `s`:
      the floor of sqrt(s² + payment/(coef/2)) − s. */
  function MintAmount(coef: Coefficient, s: nat, payment: nat): (n: nat)
    ensures MintCost(coef, s, n) <= payment < MintCost(coef, s, n + 1)
  {
    var budget := s * s + payment / Half(coef);
    var root := Isqrt(budget);
    RootAtLeast(s, budget, root);
    MintRootIsFloor(coef, s, payment, root);
    root - s
  }

  /** The largest number of the `s` tradable units whose burn revenue does not
      exceed `target`: s − ceil(sqrt(s² − target/(coef/2))). A target beyond the
      full-burn revenue Area(coef, s) is outside the domain: callers reject it
      rather than clamp it. */
  function BurnAmount(coef: Coefficient, s: nat, target: nat): (n: nat)
    requires target <= Area(coef, s)
    ensures n <= s
    ensures BurnRevenue(coef, s, n) <= target
    ensures n < s ==> target < BurnRevenue(coef, s, n + 1)
  {
    var m := BurnRoot(coef, s, target);
    BurnRootIsFloor(coef, s, target, m);
    s - m
  }

  /** ceil(sqrt(s² − target/(coef/2))): the tradable supply left after the burn. */
  function BurnRoot(coef: Coefficient, s: nat, target: nat): (m: nat)
    requires target <= Area(coef, s)
    ensures target / Half(coef) <= s * s
    ensures var rest := s * s - target / Half(coef);
      m <= s && rest <= m * m && (m > 0 ==> (m - 1) * (m - 1) < rest)
  {
    var h, sq := Half(coef), s * s;
    QuotientBound(target, h, sq);
    var rest := sq - target / h;
    CeilRootAtMost(s, rest);
    CeilSqrt(rest)
  }

  /** The closed form of MintAmount meets the floor property. */
  lemma MintRootIsFloor(coef: Coefficient, s: nat, payment: nat, root: nat)
    requires var budget := s * s + payment / Half(coef);
      s <= root && root * root <= budget < (root + 1) * (root + 1)
    ensures MintCost(coef, s, root - s) <= payment < MintCost(coef, s, root - s + 1)
  {
    var h, q := Half(coef), payment / Half(coef);
    DivBounds(payment, h);
    var n := root - s;
    // h·root² <= h·(s² + q) = Area(s) + h·q <= Area(s) + payment
    assert Area(coef, s + n) == h * (root * root);
    MulMono(h, root * root, s * s + q);
    DistributeLeft(h, s * s, q);
    // h·(root+1)² >= h·(s² + q + 1) = Area(s) + h·q + h > Area(s) + payment
    assert Area(coef, s + (n + 1)) == h * ((root + 1) * (root + 1));
    MulMono(h, s * s + (q + 1), (root + 1) * (root + 1));
    DistributeLeft(h, s * s, q + 1);
    DistributeLeft(h, q, 1);
  }

  /** The closed form of BurnAmount meets the floor property. */
  lemma BurnRootIsFloor(coef: Coefficient, s: nat, target: nat, m: nat)
    requires target / Half(coef) <= s * s
    requires var rest := s * s - target / Half(coef);
      m <= s && rest <= m * m && (m > 0 ==> (m - 1) * (m - 1) < rest)
    ensures BurnRevenue(coef, s, s - m) <= target
    ensures s - m < s ==> target < BurnRevenue(coef, s, s - m + 1)
  {
    var h, q := Half(coef), target / Half(coef);
    DivBounds(target, h);
    var rest := s * s - q;
    var n := s - m;
    // Area(s) = h·rest + h·q and Area(m) >= h·rest
    DistributeLeft(h, rest, q);
    MulMono(h, rest, m * m);
    assert BurnRevenue(coef, s, n) + h * (m * m) == h * (s * s);
    if n < s {
      // Area(m − 1) <= h·rest − h, so the next unit's revenue exceeds h·q + h − 1 >= target
      var k := m - 1;
      assert s - (n + 1) == k;
      MulMono(h, k * k + 1, rest);
      DistributeLeft(h, k * k, 1);
      DistributeLeft(h, q, 1);
      assert BurnRevenue(coef, s, n + 1) + h * (k * k) == h * (s * s);
    }
  }

  // ---------------------------------------------------------------------
  // Properties of the curve

  /** With an even coefficient the area is exactly the integral coef · s² / 2. */
  lemma AreaIsExactIntegral(coef: Coefficient, s: nat)
    ensures 2 * Area(coef, s) == coef * (s * s)
  {
  }

  /** Area grows strictly with the supply (the coefficient is positive). */
  lemma {:induction false} AreaStrictlyIncreasing(coef: Coefficient, s: nat, t: nat)
    requires s < t
    ensures Area(coef, s) < Area(coef, t)
  {
    var h := Half(coef);
    SquareMono(s, t - 1);
    assert (t - 1) * (t - 1) + 2 * t - 1 == t * t;
    MulMono(h, s * s, t * t - 1);
    DistributeLeft(h, t * t - 1, 1);
  }

  /** Minting in two steps costs the same as minting at once: the cost only
      depends on where the supply starts and ends. */
  lemma MintCostAdditive(coef: Coefficient, s: nat, a: nat, b: nat)
    ensures MintCost(coef, s, a + b) == MintCost(coef, s, a) + MintCost(coef, s + a, b)
  {
  }

  /** More units always cost strictly more. */
  lemma MintCostStrictlyIncreasing(coef: Coefficient, s: nat, a: nat, b: nat)
    requires a < b
    ensures MintCost(coef, s, a) < MintCost(coef, s, b)
  {
    AreaStrictlyIncreasing(coef, s + a, s + b);
  }

  /** Burning more units always pays strictly more. */
  lemma BurnRevenueStrictlyIncreasing(coef: Coefficient, s: nat, a: nat, b: nat)
    requires a < b <= s
    ensures BurnRevenue(coef, s, a) < BurnRevenue(coef, s, b)
  {
    AreaStrictlyIncreasing(coef, s - b, s - a);
  }

  /** Each minted unit costs between the marginal price where the mint starts
      and the marginal price where it ends. */
  lemma MintCostBetweenPrices(coef: Coefficient, s: nat, n: nat)
    ensures CurrentPrice(coef, s) * n <= MintCost(coef, s, n) <= CurrentPrice(coef, s + n) * n
  {
    var h := Half(coef);
    assert CurrentPrice(coef, s) * n == h * (n * (2 * s));
    assert CurrentPrice(coef, s + n) * n == h * (n * (2 * s + 2 * n));
    MulMono(n, 2 * s, 2 * s + n);
    MulMono(h, n * (2 * s), n * (2 * s + n));
    MulMono(n, 2 * s + n, 2 * s + 2 * n);
    MulMono(h, n * (2 * s + n), n * (2 * s + 2 * n));
  }

  /** Burning the units just minted refunds exactly what they cost. */
  lemma BurnRevenueUndoesMintCost(coef: Coefficient, s: nat, n: nat)
    ensures BurnRevenue(coef, s + n, n) == MintCost(coef, s, n)
  {
  }

  /** The floor property pins MintAmount down: any `k` with
      MintCost(k) <= payment < MintCost(k + 1) is MintAmount. */
  lemma MintAmountUnique(coef: Coefficient, s: nat, payment: nat, k: nat)
    requires MintCost(coef, s, k) <= payment < MintCost(coef, s, k + 1)
    ensures MintAmount(coef, s, payment) == k
  {
    var n := MintAmount(coef, s, payment);
    if n < k {
      if n + 1 < k {
        MintCostStrictlyIncreasing(coef, s, n + 1, k);
      }
    } else if k < n {
      if k + 1 < n {
        MintCostStrictlyIncreasing(coef, s, k + 1, n);
      }
    }
  }

  /** Paying exactly the cost of `n` units buys exactly `n` units. */
  lemma MintAmountOfMintCost(coef: Coefficient, s: nat, n: nat)
    ensures MintAmount(coef, s, MintCost(coef, s, n)) == n
  {
    MintCostStrictlyIncreasing(coef, s, n, n + 1);
    MintAmountUnique(coef, s, MintCost(coef, s, n), n);
  }

  /** A larger payment never buys fewer units. */
  lemma MintAmountMonotone(coef: Coefficient, s: nat, p: nat, q: nat)
    requires p <= q
    ensures MintAmount(coef, s, p) <= MintAmount(coef, s, q)
  {
    var a, b := MintAmount(coef, s, p), MintAmount(coef, s, q);
    if b < a && b + 1 < a {
      MintCostStrictlyIncreasing(coef, s, b + 1, a);
    }
  }

  /** The floor property pins BurnAmount down. */
  lemma BurnAmountUnique(coef: Coefficient, s: nat, target: nat, k: nat)
    requires target <= Area(coef, s)
    requires k <= s && BurnRevenue(coef, s, k) <= target
    requires k < s ==> target < BurnRevenue(coef, s, k + 1)
    ensures BurnAmount(coef, s, target) == k
  {
    var n := BurnAmount(coef, s, target);
    if n < k {
      if n + 1 < k {
        BurnRevenueStrictlyIncreasing(coef, s, n + 1, k);
      }
    } else if k < n {
      if k + 1 < n {
        BurnRevenueStrictlyIncreasing(coef, s, k + 1, n);
      }
    }
  }

  /** Asking for exactly the revenue of burning `n` units gives back `n`. */
  lemma BurnAmountOfBurnRevenue(coef: Coefficient, s: nat, n: nat)
    requires n <= s
    ensures BurnRevenue(coef, s, n) <= Area(coef, s)
    ensures BurnAmount(coef, s, BurnRevenue(coef, s, n)) == n
  {
    if n < s {
      BurnRevenueStrictlyIncreasing(coef, s, n, n + 1);
    }
    BurnAmountUnique(coef, s, BurnRevenue(coef, s, n), n);
  }

  // ---------------------------------------------------------------------
  // Arithmetic helpers

  lemma SquareOfSum(a: nat, b: nat)
    ensures (a + b) * (a + b) == a * a + b * (2 * a + b)
  {
  }

  lemma DistributeLeft(h: nat, a: nat, b: nat)
    ensures h * a + h * b == h * (a + b)
  {
  }

  lemma MulMono(h: nat, a: nat, b: nat)
    requires a <= b
    ensures h * a <= h * b
  {
  }

  lemma SquareMono(a: nat, b: nat)
    requires a <= b
    ensures a * a <= b * b
  {
    MulMono(a, a, b);
    MulMono(b, a, b);
  }

  /** If s² <= x, the floor root of x is at least s. */
  lemma RootAtLeast(s: nat, x: nat, r: nat)
    requires s * s <= x < (r + 1) * (r + 1)
    ensures s <= r
  {
    if r < s {
      SquareMono(r + 1, s);
    }
  }

  /** If x <= s², the ceiling root of x is at most s. */
  lemma CeilRootAtMost(s: nat, x: nat)
    requires x <= s * s
    ensures CeilSqrt(x) <= s
  {
    var m := CeilSqrt(x);
    if m > s {
      SquareMono(s, m - 1);
    }
  }

  /** Doubling the root of x/4 brackets the root of x. */
  lemma IsqrtStep(x: nat, q: nat)
    requires x >= 4
    requires q * q <= x / 4 < (q + 1) * (q + 1)
    ensures (2 * q) * (2 * q) <= x < (2 * q + 2) * (2 * q + 2)
  {
    var d := x / 4;
    assert 4 * d <= x < 4 * d + 4;
    assert (2 * q) * (2 * q) == 4 * (q * q);
    assert (2 * q + 2) * (2 * q + 2) == 4 * ((q + 1) * (q + 1));
    assert (q + 1) * (q + 1) >= d + 1;
  }

  lemma DivBounds(t: nat, h: nat)
    requires h > 0
    ensures h * (t / h) <= t < h * (t / h) + h
  {
  }

  lemma QuotientBound(t: nat, h: nat, a: nat)
    requires h > 0 && t <= h * a
    ensures t / h <= a
  {
    if t / h > a {
      MulMono(h, a + 1, t / h);
    }
  }
}
