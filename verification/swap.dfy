/** swap and simulateSwap: sell units of one creator's token back to its
    curve and spend the whole revenue on the most whole units of another
    token that it buys, refunding the remainder in custody currency. */
module Swaps {
  import opened Sums
  import opened Pricing
  import opened State
  import opened Accounting
  import opened Registry

  /** A successful swap: the new ledger, the units of the target token the
      trader received, and the custody currency refunded to the trader. */
  datatype SwapReceipt = SwapReceipt(ledger: Ledger, received: nat, refund: nat)

  /** The target token's tradable supply when its mint happens: the burn has
      already lowered it when both sides are the same token. */
  function SupplyAfterBurn(l: Ledger, fromToken: Address, toToken: Address, amount: nat): nat
    requires fromToken in l.tokens && toToken in l.tokens
    requires amount <= l.tokens[fromToken].tradableSupply
  {
    if fromToken == toToken then l.tokens[toToken].tradableSupply - amount
    else l.tokens[toToken].tradableSupply
  }

  /** The revenue of burning `amount` units of `fromToken`. */
  function SwapValue(l: Ledger, fromToken: Address, amount: nat): nat
    requires fromToken in l.tokens
    requires amount <= l.tokens[fromToken].tradableSupply
  {
    BurnRevenue(l.tokens[fromToken].coefficient, l.tokens[fromToken].tradableSupply, amount)
  }

  /** simulateSwap: what a swap of `amount` units would give, as the pair
      (units received, refund), without changing anything. It checks the
      same things as swap except the trader's balance, since it names no
      trader. The refund is what is left of the burn revenue after buying
      the units, and it is too little to buy one more. */
  function SimulateSwap(l: Ledger, fromToken: Address, toToken: Address, amount: nat): (r: Result<(nat, nat)>)
    ensures fromToken !in l.tokens || toToken !in l.tokens ==> r == Err(NotFound)
    ensures fromToken in l.tokens && toToken in l.tokens && amount == 0 ==> r == Err(InvalidAmount)
    ensures fromToken in l.tokens && toToken in l.tokens && amount > 0
            && amount > l.tokens[fromToken].tradableSupply
            ==> r == Err(InsufficientTradable)
    ensures r.Ok? <==>
      && fromToken in l.tokens && toToken in l.tokens
      && 0 < amount <= l.tokens[fromToken].tradableSupply
    ensures r.Ok? ==>
      var coef := l.tokens[toToken].coefficient;
      var s := SupplyAfterBurn(l, fromToken, toToken, amount);
      var (received, refund) := r.value;
      && MintCost(coef, s, received) + refund == SwapValue(l, fromToken, amount)
      && refund < MintCost(coef, s + received, 1)
  {
    if fromToken !in l.tokens || toToken !in l.tokens then Err(NotFound)
    else if amount == 0 then Err(InvalidAmount)
    else if amount > l.tokens[fromToken].tradableSupply then Err(InsufficientTradable)
    else
      var value := SwapValue(l, fromToken, amount);
      var coef := l.tokens[toToken].coefficient;
      var s := SupplyAfterBurn(l, fromToken, toToken, amount);
      var received := MintAmount(coef, s, value);
      MintCostAdditive(coef, s, received, 1);
      Ok((received, value - MintCost(coef, s, received)))
  }

  /** swap: `trader` burns `amount` units of `fromToken` and, with the
      revenue, mints as many whole units of `toToken` as it pays for; the
      remainder is refunded. The reserve therefore drops by exactly the
      refund, and the log records the burn before the mint. */
  function Swap(l: Ledger, fromToken: Address, toToken: Address, trader: Address, amount: nat): (r: Result<SwapReceipt>)
    ensures fromToken !in l.tokens || toToken !in l.tokens ==> r == Err(NotFound)
    ensures fromToken in l.tokens && toToken in l.tokens && amount == 0 ==> r == Err(InvalidAmount)
    ensures fromToken in l.tokens && toToken in l.tokens && amount > 0
            && amount > l.tokens[fromToken].tradableSupply
            ==> r == Err(InsufficientTradable)
    ensures fromToken in l.tokens && toToken in l.tokens && 0 < amount <= l.tokens[fromToken].tradableSupply
            && BalanceOf(l, fromToken, trader) < amount
            ==> r == Err(InsufficientBalance)
    ensures r.Ok? <==>
      && fromToken in l.tokens && toToken in l.tokens
      && 0 < amount <= l.tokens[fromToken].tradableSupply
      && amount <= BalanceOf(l, fromToken, trader)
    ensures r.Ok? ==>
      var coef := l.tokens[toToken].coefficient;
      var s := SupplyAfterBurn(l, fromToken, toToken, amount);
      var l' := r.value.ledger;
      && MintCost(coef, s, r.value.received) + r.value.refund == SwapValue(l, fromToken, amount)
      && r.value.refund < MintCost(coef, s + r.value.received, 1)
      && l'.reserve + r.value.refund == l.reserve
      && OthersUnchanged(l, l', {fromToken, toToken})
      && l'.events == l.events + [TokenBurned(fromToken, trader, amount), TokenMinted(toToken, trader, r.value.received)]
    ensures r.Ok? && fromToken != toToken ==>
      && Shifted(l, r.value.ledger, fromToken, trader, -(amount as int))
      && Shifted(l, r.value.ledger, toToken, trader, r.value.received)
  {
    if fromToken !in l.tokens || toToken !in l.tokens then Err(NotFound)
    else if amount == 0 then Err(InvalidAmount)
    else if amount > l.tokens[fromToken].tradableSupply then Err(InsufficientTradable)
    else if BalanceOf(l, fromToken, trader) < amount then Err(InsufficientBalance)
    else
      var value := SwapValue(l, fromToken, amount);
      var burned := ApplyBurn(l, fromToken, trader, amount);
      var t := burned.tokens[toToken];
      var received := MintAmount(t.coefficient, t.tradableSupply, value);
      var cost := MintCost(t.coefficient, t.tradableSupply, received);
      var minted := ApplyMint(burned, toToken, trader, received);
      MintCostAdditive(t.coefficient, t.tradableSupply, received, 1);
      assert fromToken != toToken ==>
        && minted.tokens[fromToken] == burned.tokens[fromToken]
        && burned.tokens[toToken] == l.tokens[toToken]
        && (forall o :: BalanceOf(minted, fromToken, o) == BalanceOf(burned, fromToken, o))
        && (forall o :: BalanceOf(burned, toToken, o) == BalanceOf(l, toToken, o));
      Ok(SwapReceipt(minted, received, value - cost))
  }

  // ---------------------------------------------------------------------
  // Properties

  /** A swap is a burn followed by a mint paid with the burn's revenue: the
      burn pays out the swap value, and (when at least one unit is bought)
      minting the received units with that revenue yields the swap's ledger
      and refunds the swap's refund. */
  lemma SwapIsBurnThenMint(l: Ledger, fromToken: Address, toToken: Address, trader: Address, amount: nat)
    requires Swap(l, fromToken, toToken, trader, amount).Ok?
    ensures var sw := Swap(l, fromToken, toToken, trader, amount).value;
      var b := Burn(l, fromToken, trader, amount);
      && b.Ok?
      && b.value.payout == SwapValue(l, fromToken, amount)
      && (sw.received > 0 ==>
            Mint(b.value.ledger, toToken, trader, sw.received, b.value.payout)
            == Ok(Receipt(sw.ledger, sw.refund)))
  {
  }

  /** simulateSwap previews swap exactly: the same units and refund when the
      swap succeeds, and the same error when the swap fails for any reason
      other than the trader's balance. */
  lemma SimulateSwapMatchesSwap(l: Ledger, fromToken: Address, toToken: Address, trader: Address, amount: nat)
    ensures var sw := Swap(l, fromToken, toToken, trader, amount);
      var sim := SimulateSwap(l, fromToken, toToken, amount);
      && (sw.Ok? ==> sim == Ok((sw.value.received, sw.value.refund)))
      && (sw.Err? && sw.error != InsufficientBalance ==> sim == Err(sw.error))
      && (sim.Ok? && amount <= BalanceOf(l, fromToken, trader) ==> sw.Ok?)
  {
  }

  /** swap keeps the ledger invariants; in particular the reserve still equals
      the summed curve areas after the burned value leaves and the minted cost
      comes back. */
  lemma SwapValid(l: Ledger, fromToken: Address, toToken: Address, trader: Address, amount: nat)
    requires Valid(l)
    requires Swap(l, fromToken, toToken, trader, amount).Ok?
    ensures Valid(Swap(l, fromToken, toToken, trader, amount).value.ledger)
  {
    var burned := ApplyBurn(l, fromToken, trader, amount);
    ApplyBurnValid(l, fromToken, trader, amount);
    var t := burned.tokens[toToken];
    var received := MintAmount(t.coefficient, t.tradableSupply, SwapValue(l, fromToken, amount));
    ApplyMintValid(burned, toToken, trader, received);
  }

  /** After a swap the target token's supply queries answer the units
      received on top of the supply left by the burn, and its price follows;
      when the two tokens differ, the source token's supply queries answer
      `amount` less. */
  lemma SwapQueries(l: Ledger, fromToken: Address, toToken: Address, trader: Address, amount: nat)
    requires Swap(l, fromToken, toToken, trader, amount).Ok?
    ensures var sw := Swap(l, fromToken, toToken, trader, amount).value;
      var f := l.tokens[fromToken];
      var t := l.tokens[toToken];
      var s := SupplyAfterBurn(l, fromToken, toToken, amount) + sw.received;
      && TradableSupplyOf(sw.ledger, toToken) == Ok(s)
      && TotalSupplyOf(sw.ledger, toToken) == Ok(BaseSupply + s)
      && CurrentPriceOf(sw.ledger, toToken) == Ok(t.coefficient * s)
      && (fromToken != toToken ==>
            && TradableSupplyOf(sw.ledger, fromToken).Ok?
            && TradableSupplyOf(sw.ledger, fromToken).value + amount == f.tradableSupply
            && TotalSupplyOf(sw.ledger, fromToken).Ok?
            && TotalSupplyOf(sw.ledger, fromToken).value + amount == TotalSupply(f)
            && CurrentPriceOf(sw.ledger, fromToken) == Ok(f.coefficient * TradableSupplyOf(sw.ledger, fromToken).value))
  {
  }
}
