# Creator token: a linear bonding-curve ledger

This project models the creator-token contract: each creator issues one
fungible token whose tradable supply is priced by a linear bonding curve.
The marginal price at tradable supply `s` is `coefficient · s`. Minting `n`
units costs the area under that line from `s` to `s + n`, and burning them
refunds the area back down. Every creator also gets a fixed base supply of
10000 units, and the total supply never drops below this base supply. The
contract holds a single custody reserve, which must always equal the summed
curve areas of all tradable supplies. A swap burns units of one token and
spends the whole revenue on the most whole units of another token that it
buys. The remainder is refunded.

The model is derived from the contract's test suite, `test/creator.spec.ts`,
which asserts exact integer values. It does not follow the contract source,
`CreatorToken.solpp`, line by line. It reproduces the suite's assertions and
proves the general properties behind them.

Modules (one per component):

- `Sums` (`sums.dfy`): sums over finite maps. Both ledger invariants are
  such sums.
- `Pricing` (`pricing.dfy`): curve area, mint cost, burn revenue, current
  price, and the floor inverses mint amount and burn amount. The inverses
  use an integer square root (closed form).
- `Search` (`search.dfy`): the same inverses computed with loops. An integer
  square root by bisection gives a candidate, then a correction loop steps up
  or down until the floor property holds.
- `State` (`state.dfy`): the ledger data model, `balanceOf`, the invariants
  (`Valid`), and the two supply movements that mint, burn and swap share.
- `Registry` (`registry.dfy`): `createToken` and the per-token queries.
- `Accounting` (`accounting.dfy`): `transfer`, `mint`, `burn`, and the
  pricing queries `mintCost`, `mintAmount`, `burnRevenue` and `burnAmount`.
- `Swaps` (`swap.dfy`): `swap` and `simulateSwap`.
- `Scenarios` (`scenarios.dfy`): every concrete case of the test suite,
  stated as a lemma. Each ledger state the suite passes through is written
  out as a literal, together with a lemma that the suite's calls reach it.

Host collaborators are parameters or outputs:

- The caller's identity is an `Address` argument.
- The payment attached to a mint is the `paid` argument.
- Refunds and payouts are output amounts (`Receipt.payout`,
  `SwapReceipt.refund`).
- The custody balance is the `reserve` counter.
- Emitted events are an appended `events` log.
- A reverted call returns `Err(e)` and produces no new ledger.

## Model

| member | source | states |
|---|---|---|
| `Pricing.MintCost` | test/creator.spec.ts:113-115 | minting n units from supply s costs exactly the area under `coef·x` between s and s+n (∫₀²⁷ 154x dx = 56133) |
| `Pricing.BurnRevenue` | test/creator.spec.ts:243-247 | burning n of the s tradable units pays exactly the area between s−n and s (∫₂₇²⁵ = −8008) |
| `Pricing.AreaIsExactIntegral` | test/creator.spec.ts:114 | with an even coefficient the curve area is exactly the integral coef·s²/2, with no rounding |
| `Pricing.MintCostAdditive` | test/creator.spec.ts:155-159 | minting in two steps costs the same as minting at once (56133 + 49280 = cost of 37 from 0 = 105413) |
| `Pricing.MintCostBetweenPrices` | test/creator.spec.ts:123-124 | each minted unit costs between the current price at the start and at the end of the mint |
| `Pricing.BurnRevenueUndoesMintCost` | test/creator.spec.ts:301-309 | burning the units just minted refunds exactly their cost, so the minter gets all the currency back |
| `Pricing.Isqrt` | test/creator.spec.ts:358-359 | the result is the floor of the square root (103.62 becomes 103) |
| `Pricing.MintAmount` | test/creator.spec.ts:357-360 | the largest n whose mint cost does not exceed the payment: cost(n) ≤ payment < cost(n+1) |
| `Pricing.BurnAmount` | test/creator.spec.ts:669-678 | for a target within the full-burn revenue, the largest n ≤ s whose burn revenue does not exceed the target |
| `Pricing.MintAmountUnique` | test/creator.spec.ts:357-360 | any k with cost(k) ≤ payment < cost(k+1) is the mint amount: the rounding down is unique |
| `Pricing.MintAmountOfMintCost` | test/creator.spec.ts:620-624 | paying exactly the cost of n units buys exactly n units (56133 buys 27) |
| `Pricing.MintAmountMonotone` | test/creator.spec.ts:356-360 | a larger payment never buys fewer units |
| `Pricing.BurnAmountUnique` | test/creator.spec.ts:669-678 | the floor property determines the burn amount uniquely |
| `Pricing.BurnAmountOfBurnRevenue` | test/creator.spec.ts:669-678 | asking for exactly the revenue of burning n units returns n (8008 gives 2) |
| `Pricing.MintCostStrictlyIncreasing` | test/creator.spec.ts:219-228 | more units always cost strictly more, so any payment below the cost of n units cannot buy n |
| `Pricing.BurnRevenueStrictlyIncreasing` | test/creator.spec.ts:654-666 | burning more units always pays strictly more |
| `Search.IntegerSqrt` | test/creator.spec.ts:358-359 | the loop computes the floor square root, equal to `Pricing.Isqrt` |
| `Search.ComputeMintAmount` | test/creator.spec.ts:357-360 | the candidate-and-correct loops return the largest affordable amount, equal to `Pricing.MintAmount` |
| `Search.ComputeBurnAmount` | test/creator.spec.ts:669-678 | the candidate-and-correct loops return the largest burn within the target, equal to `Pricing.BurnAmount` |
| `State.BalanceOf` | test/creator.spec.ts:364-371 | `balanceOf` returns the holder's stored balance, and 0 for a holder or token without an entry (Bob holds no Alice-tokens until a transfer or swap) |
| `State.BalanceWithinSupply` | test/creator.spec.ts:118-121 | in a valid ledger no holder owns more than the token's total supply, since the balances add up to it |
| `State.EmptyValid` | test/creator.spec.ts:27-48 | a freshly deployed contract meets both invariants, the base case for the preservation lemmas |
| `State.ApplyMint` | test/creator.spec.ts:115-124 | a mint raises the tradable supply and the recipient's balance by n, leaves other holders and tokens alone, adds the mint cost to the reserve and logs the mint |
| `State.ApplyBurn` | test/creator.spec.ts:243-257 | a burn lowers the tradable supply and the owner's balance by n, leaves other holders and tokens alone, takes the burn revenue from the reserve and logs the burn |
| `State.CreditSum` | test/creator.spec.ts:120-121 | crediting n units raises the sum of all balances by exactly n, so a mint keeps it equal to the total supply |
| `State.DebitSum` | test/creator.spec.ts:252-253 | debiting n units lowers the sum of all balances by exactly n, so a burn keeps it equal to the total supply |
| `State.ReserveCoversToken` | test/creator.spec.ts:301-309 | in a valid ledger the reserve covers the whole curve area of any one token, so every burn payout can be made |
| `State.ApplyMintValid` | test/creator.spec.ts:349-352 | a mint keeps both invariants: balances sum to the total supply, and the reserve equals the summed curve areas |
| `State.ApplyBurnValid` | test/creator.spec.ts:243-247 | a burn keeps both invariants |
| `Registry.CreateToken` | test/creator.spec.ts:51-80 | an odd or zero coefficient and a second creation by the same creator are rejected; otherwise the creator holds the 10000 base units, nothing is tradable, and the reserve is unchanged |
| `Registry.CreateTokenValid` | test/creator.spec.ts:51-58 | creation keeps the ledger invariants |
| `Registry.Exists` | test/creator.spec.ts:53 | `exists` holds exactly when the token's coefficient and supply queries answer, and a token that does not exist has no holders |
| `Registry.CreateTokenExists` | test/creator.spec.ts:51-53 | creation succeeds only for a creator whose token does not exist yet, and afterwards exactly the earlier tokens and the creator's exist |
| `Registry.TokenCoefficient` | test/creator.spec.ts:54 | an existing token's coefficient is positive and even |
| `Registry.CreateTokenQueries` | test/creator.spec.ts:52-58 | after any successful creation, the token answers the coefficient it was created with, total supply 10000, tradable supply 0 and price 0 |
| `Registry.TotalSupplyOf` | test/creator.spec.ts:56 | the answer never drops below the base supply; its value after creation, mint, burn and swap is fixed by `Registry.CreateTokenQueries`, `Accounting.MintQueries`, `Accounting.BurnQueries` and `Swaps.SwapQueries` |
| `Registry.TradableSupplyOf` | test/creator.spec.ts:120-122 | the two answers differ by exactly the base supply (10027 = 10000 + 27); the value itself is fixed by the same four query lemmas |
| `Registry.CurrentPriceOf` | test/creator.spec.ts:123-124 | the current price is at most the cost of the next unit and at least the refund of the last unit, it is 0 exactly when nothing is tradable, and price × tradable supply is twice the curve area, so the price is coefficient × tradable supply (154 · 27 = 4158) |
| `Accounting.Transfer` | test/creator.spec.ts:84-105 | a transfer moves exactly `amount` from sender to recipient and touches no one else; it is rejected when the sender holds too little (10001 > 10000) |
| `Accounting.TransferValid` | test/creator.spec.ts:84-98 | a transfer keeps the ledger invariants |
| `Accounting.Mint` | test/creator.spec.ts:108-229 | a mint needs an existing token, a positive amount and a payment of at least the cost; the reserve gains exactly the cost and the rest is refunded |
| `Accounting.MintValid` | test/creator.spec.ts:113-124 | a mint keeps the ledger invariants |
| `Accounting.MintOverpaymentRefunded` | test/creator.spec.ts:198-217 | overpaying gives the identical ledger, and the excess comes back in full |
| `Accounting.MintCostQuoteIsExact` | test/creator.spec.ts:602-608 | paying the mintCost quote mints with no refund, and paying one less is rejected |
| `Accounting.MintAmountQuoteIsAffordable` | test/creator.spec.ts:619-625 | the mintAmount quote can be minted with the same payment, and the refund is less than the next unit's cost |
| `Accounting.Burn` | test/creator.spec.ts:232-330 | a burn needs an existing token and an amount that is positive, within the tradable supply and within the owner's balance; the owner is paid exactly the burn revenue from the reserve |
| `Accounting.BurnValid` | test/creator.spec.ts:243-257 | a burn keeps the ledger invariants |
| `Accounting.BurnRevenueQuoteIsPaid` | test/creator.spec.ts:636-646 | the burnRevenue quote is what the burn actually pays |
| `Accounting.MintThenBurnRestores` | test/creator.spec.ts:275-310 | minting then burning the same units returns the whole payment and restores every balance, supply and the reserve |
| `Accounting.BurnAllEmptiesReserve` | test/creator.spec.ts:301-309 | burning the whole tradable supply pays out the token's entire curve area; with a single token the reserve ends at 0 |
| `Accounting.MintQueries` | test/creator.spec.ts:119-124 | after any mint of n units the tradable and total supply answer n more, the price is the coefficient times the new tradable supply, and the recipient holds n more (27, 10027, 4158) |
| `Accounting.BurnQueries` | test/creator.spec.ts:251-257 | after any burn of n units the tradable and total supply answer n less, the price is the coefficient times the new tradable supply, and the owner holds n less (25, 10025, 3850) |
| `Accounting.MintCostOf` | test/creator.spec.ts:602-616 | mintCost is rejected for a missing token and is otherwise the curve area from the current supply |
| `Accounting.MintAmountOf` | test/creator.spec.ts:619-633 | mintAmount is rejected for a missing token and otherwise rounds down |
| `Accounting.BurnRevenueOf` | test/creator.spec.ts:636-666 | burnRevenue is rejected for a missing token and beyond the tradable supply (28 of 27), and is otherwise the area given back |
| `Accounting.BurnAmountOf` | test/creator.spec.ts:669-700 | burnAmount is rejected for a missing token and for a target above the full-burn revenue (60368 > 56133), and otherwise rounds down |
| `Swaps.Swap` | test/creator.spec.ts:333-511 | a swap needs both tokens, a positive amount within the tradable supply and within the trader's balance; the units received are the most the burn revenue buys, the refund is the revenue left over and cannot buy one more unit, the reserve drops by exactly the refund, and the burn is logged before the mint |
| `Swaps.SimulateSwap` | test/creator.spec.ts:514-599 | the preview applies the same checks, except the balance, and returns the units received and the refund with the same floor guarantee |
| `Swaps.SwapIsBurnThenMint` | test/creator.spec.ts:356-361 | a swap equals a burn followed by a mint paid with the burn's revenue, with the mint's refund as the swap refund |
| `Swaps.SimulateSwapMatchesSwap` | test/creator.spec.ts:537-545 | the preview returns the swap's (units, refund) pair and fails with the swap's error, except the balance error |
| `Swaps.SwapValid` | test/creator.spec.ts:377-383 | a swap keeps the ledger invariants, so the reserve still equals the summed curve areas |
| `Swaps.SwapQueries` | test/creator.spec.ts:362-376 | after any swap the target token's supplies answer the units received on top of the supply left by the burn, with the matching price; for two different tokens the source token's supplies answer the swapped units less (12 and 10012, 103 and 10103) |
| `Scenarios.CreateTokenCases` | test/creator.spec.ts:51-80 | creation with 154 gives balance 10000, total supply 10000, tradable supply 0 and price 0; 153, 0 and a repeated creation are rejected |
| `Scenarios.TransferCases` | test/creator.spec.ts:84-105 | transferring 1 unit logs creation then transfer; transferring 10001 of 10000 is rejected |
| `Scenarios.MintCases` | test/creator.spec.ts:109-135 | 27 units for 56133 give balance and total supply 10027, 27 tradable, price 4158, reserve 56133, and a logged mint |
| `Scenarios.MintTwiceCase` | test/creator.spec.ts:137-183 | 10 more units for 49280 give reserve 105413, supply 10037, 37 tradable, price 5698, and two logged mints |
| `Scenarios.MintFailureCases` | test/creator.spec.ts:185-229 | paying 56135 for 27 units refunds 2 and leaves the state of an exact payment; 0 units, a missing token and a payment of 56132 for 27 units are rejected |
| `Scenarios.BurnCases` | test/creator.spec.ts:233-273 | burning 2 of 27 pays 8008: reserve 48125, supply 10025, price 3850, and the burn is logged after the mint |
| `Scenarios.BurnTwiceCase` | test/creator.spec.ts:275-310 | burning the remaining 25 pays 48125 and empties the reserve, so the two burns return the 56133 paid |
| `Scenarios.BurnFailureCases` | test/creator.spec.ts:312-330 | burning a missing token, 0 units, or 15 units with none tradable is rejected |
| `Scenarios.TwoTokensReached` | test/creator.spec.ts:335-354 | creating both tokens and minting 27 Alice-tokens for 56133 and 89 Bob-tokens for 126736 succeeds with no refund and leaves reserve 182869 |
| `Scenarios.TwoTokensValid` | test/creator.spec.ts:349-352 | the two-token ledger keeps the invariants, and its reserve 182869 is area(154, 27) + area(32, 89) |
| `Scenarios.SwapPreviewCase` | test/creator.spec.ts:537-545 | burning 15 of 27 Alice-tokens yields 45045, which buys 14 Bob-tokens and leaves 2037; simulateSwap returns (14, 2037) |
| `Scenarios.SwapCase` | test/creator.spec.ts:356-409 | the swap gives 14 Bob-tokens and refunds 2037; supplies become 12 and 103, Bob's balance is unchanged, the reserve becomes 180832 = area(154, 12) + area(32, 103), and the burn is logged before the mint |
| `Scenarios.SwapFailureCases` | test/creator.spec.ts:412-599 | swaps and previews are rejected for a missing source or target token, for 0 units, and for more units than are tradable, each from the ledger its test builds (for a missing source, Bob's token with 89 units minted) |
| `Scenarios.QueryCases` | test/creator.spec.ts:602-700 | mintCost 27 gives 56133, mintAmount 56133 gives 27, burnRevenue 2 gives 8008, burnAmount 8008 gives 2; 28 units and 60368 are rejected; a missing token is rejected |
| `Scenarios.MissingTokenMintAsWritten` | test/creator.spec.ts:185-189 | the missing-token mint asks for 0 units, so it is rejected whatever the payment and also when the token exists |
| `Scenarios.MissingTokenMintCorrected` | test/creator.spec.ts:185-189 | 27 units paid in full are rejected with no token, and the same call succeeds once the token exists |
| `Scenarios.UnderpayCaseAsWritten` | test/creator.spec.ts:219-229 | the underpayment case asks for 0 units, so it is rejected whatever the payment |
| `Scenarios.UnderpayCaseCorrected` | test/creator.spec.ts:219-229 | 27 units with 56132 are rejected for the payment, while 56133 succeeds |
| `Scenarios.SwapBeyondBalanceAsWritten` | test/creator.spec.ts:487-511 | in the test's own setup (Alice gives her base units away, then 27 tradable units) swapping 28 is rejected by the tradable check, and it is rejected just the same when Alice holds far more than 28 units |
| `Scenarios.SwapBeyondBalanceCorrected` | test/creator.spec.ts:487-511 | with 37 tradable units of which Alice holds 27, swapping 28 is rejected for her balance |

## Left out

- Host plumbing is not modelled: the provider, accounts, funding,
  compilation and deployment, and `receiveAll` (test/creator.spec.ts:27-48).
  None of it is token logic.
- Native-currency account balances are not modelled. The contract's custody
  balance is the `reserve` counter. What the caller gets back is an output
  amount.
- Event retrieval is not modelled. Events are an appended list, which is
  enough to state their order.
- Query auto-retry and test selection (`it.only`) are test-harness
  behaviour.
- 256-bit overflow of the host VM is not modelled. All quantities are
  unbounded integers.
- The contract source, `CreatorToken.solpp`, is not part of this model. Only
  behaviour the tests assert is modelled. Where the tests are silent, the
  model makes the choices below.
- The order of the rejection checks is not asserted by the tests, which only
  see a revert. The model checks: missing token, then amount, then payment,
  tradable supply or balance.
- Burning base units is allowed. A burn needs only amount ≤ tradable supply
  and amount ≤ balance, so an owner may burn base units as long as enough
  units are tradable. The tests never decide whether base units may be
  burned.
- `Accounting.MintCostOf` and `Accounting.BurnRevenueOf` accept amount 0 and
  quote 0. The tests do not say whether the queries reject 0.
- `Accounting.BurnAmountOf` rejects a target above the full-burn revenue with
  `InsufficientTradable`. The tests show only that 60368 > 56133 reverts.
  Targets between 56133 and 60368 are rejected by the same rule.
- `Registry.TotalSupplyOf`, `Registry.TradableSupplyOf` and
  `Registry.CurrentPriceOf` reject a missing token with `NotFound`. The tests
  never query these for a missing token.
- `Swaps.Swap`: when both sides are the same token, the mint uses the
  supply left after the burn. The tests never swap a token for itself.
- `Swaps.Swap`: its contract states the per-holder balance changes only for
  two different tokens. The same-token case is covered by
  `Swaps.SwapIsBurnThenMint`.
- `Swaps.SimulateSwap` does not check any trader's balance, because the query
  names no trader. The tests never preview a swap that the balance check
  would reject.
- A swap whose revenue buys 0 units still succeeds, refunds the whole
  revenue and logs a mint event of 0 units, although `Accounting.Mint`
  rejects a mint of 0 units. The tests never reach this case.
- Total supply is not stored. It is derived as base supply + tradable supply,
  which is what every assertion of the tests shows.
- The reserve is an integer. `State.Valid` pins it to the summed curve areas,
  which are never negative.

## Findings

These are findings about the test suite. Three tests do not reach the check
their names announce.

| source | as written | input that shows it | evidently intended | confidence | as-written member | corrected member |
|---|---|---|---|---|---|---|
| test/creator.spec.ts:185-189 | "fails to mint a non-existent token" mints 0 units | `mint(alice, 0)` is rejected for the zero amount whatever the payment, and just the same once Alice's token exists | mint 27 units paid in full and see the missing token rejected | high (not executed) | `Scenarios.MissingTokenMintAsWritten` | `Scenarios.MissingTokenMintCorrected` |
| test/creator.spec.ts:219-229 | "fails to underpay a mint call" mints 0 units | `mint(alice, 0)` with 56132 attached is rejected for the zero amount and would be rejected with any payment | mint 27 units with 56132 attached and see the payment rejected | high (not executed) | `Scenarios.UnderpayCaseAsWritten` | `Scenarios.UnderpayCaseCorrected` |
| test/creator.spec.ts:487-511 | "fails to swap more tokens than the balance" swaps 28 units while only 27 are tradable | the same swap is rejected by the tradable check even when Alice holds 10027 units | tradable supply ≥ 28 while the trader holds fewer than 28 | high (not executed) | `Scenarios.SwapBeyondBalanceAsWritten` | `Scenarios.SwapBeyondBalanceCorrected` |
