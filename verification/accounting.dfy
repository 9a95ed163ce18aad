/** Balance-moving operations (transfer, mint, burn) and the pricing queries
    a holder uses before calling them. Custody currency does not move here:
    the operations return the amount the host must pay back to the caller
    (the overpayment of a mint, the revenue of a burn) and keep the reserve
    counter that the host's custody balance must match. */
module Accounting {
  import opened Sums
  import opened Pricing
  import opened State
  import opened Registry

  /** A successful mint or burn: the new ledger and the custody currency the
      host pays to the caller. */
  datatype Receipt = Receipt(ledger: Ledger, payout: nat)

  /** transfer: `from` sends `amount` units of `tokenId` to `to`. Supplies and
      the reserve do not move. */
  function Transfer(l: Ledger, tokenId: Address, from: Address, to: Address, amount: nat): (r: Result<Ledger>)
    ensures tokenId !in l.tokens ==> r == Err(NotFound)
    ensures tokenId in l.tokens && BalanceOf(l, tokenId, from) < amount ==> r == Err(InsufficientBalance)
    ensures r.Ok? <==> tokenId in l.tokens && amount <= BalanceOf(l, tokenId, from)
    ensures r.Ok? ==>
      && OthersUnchanged(l, r.value, {tokenId})
      && r.value.tokens[tokenId].coefficient == l.tokens[tokenId].coefficient
      && r.value.tokens[tokenId].tradableSupply == l.tokens[tokenId].tradableSupply
      && (from != to ==>
            && BalanceOf(r.value, tokenId, from) + amount == BalanceOf(l, tokenId, from)
            && BalanceOf(r.value, tokenId, to) == BalanceOf(l, tokenId, to) + amount)
      && (forall o :: o != from && o != to ==> BalanceOf(r.value, tokenId, o) == BalanceOf(l, tokenId, o))
      && BalanceOf(r.value, tokenId, from) + BalanceOf(r.value, tokenId, to)
         == BalanceOf(l, tokenId, from) + BalanceOf(l, tokenId, to)
      && r.value.reserve == l.reserve
      && r.value.events == l.events + [TokenTransferred(tokenId, from, to, amount)]
  {
    if tokenId !in l.tokens then Err(NotFound)
    else if BalanceOf(l, tokenId, from) < amount then Err(InsufficientBalance)
    else
      var t := l.tokens[tokenId];
      var t' := t.(balances := Credit(Debit(t.balances, from, amount), to, amount));
      Ok(l.(tokens := l.tokens[tokenId := t'], events := l.events + [TokenTransferred(tokenId, from, to, amount)]))
  }

  /** mint: `recipient` buys `amount` new units of `tokenId`, attaching `paid`.
      The reserve keeps exactly the curve cost and the rest of the payment is
      refunded. Minting nothing, or paying less than the cost, is rejected. */
  function Mint(l: Ledger, tokenId: Address, recipient: Address, amount: nat, paid: nat): (r: Result<Receipt>)
    ensures tokenId !in l.tokens ==> r == Err(NotFound)
    ensures tokenId in l.tokens && amount == 0 ==> r == Err(InvalidAmount)
    ensures tokenId in l.tokens && amount > 0
            && paid < MintCost(l.tokens[tokenId].coefficient, l.tokens[tokenId].tradableSupply, amount)
            ==> r == Err(InsufficientPayment)
    ensures r.Ok? <==>
      && tokenId in l.tokens
      && amount > 0
      && MintCost(l.tokens[tokenId].coefficient, l.tokens[tokenId].tradableSupply, amount) <= paid
    ensures r.Ok? ==>
      var cost := MintCost(l.tokens[tokenId].coefficient, l.tokens[tokenId].tradableSupply, amount);
      && tokenId in r.value.ledger.tokens
      && OthersUnchanged(l, r.value.ledger, {tokenId})
      && Shifted(l, r.value.ledger, tokenId, recipient, amount)
      && r.value.ledger.reserve == l.reserve + cost
      && r.value.payout + cost == paid
      && r.value.ledger.events == l.events + [TokenMinted(tokenId, recipient, amount)]
  {
    if tokenId !in l.tokens then Err(NotFound)
    else if amount == 0 then Err(InvalidAmount)
    else
      var t := l.tokens[tokenId];
      var cost := MintCost(t.coefficient, t.tradableSupply, amount);
      if paid < cost then Err(InsufficientPayment)
      else Ok(Receipt(ApplyMint(l, tokenId, recipient, amount), paid - cost))
  }

  /** burn: `owner` sells `amount` units of `tokenId` back to the curve and is
      paid the curve revenue out of the reserve. Burning nothing, more than
      the tradable supply, or more than the owner holds is rejected. */
  function Burn(l: Ledger, tokenId: Address, owner: Address, amount: nat): (r: Result<Receipt>)
    ensures tokenId !in l.tokens ==> r == Err(NotFound)
    ensures tokenId in l.tokens && amount == 0 ==> r == Err(InvalidAmount)
    ensures tokenId in l.tokens && amount > 0 && amount > l.tokens[tokenId].tradableSupply
            ==> r == Err(InsufficientTradable)
    ensures tokenId in l.tokens && 0 < amount <= l.tokens[tokenId].tradableSupply
            && BalanceOf(l, tokenId, owner) < amount
            ==> r == Err(InsufficientBalance)
    ensures r.Ok? <==>
      && tokenId in l.tokens
      && 0 < amount <= l.tokens[tokenId].tradableSupply
      && amount <= BalanceOf(l, tokenId, owner)
    ensures r.Ok? ==>
      var revenue := BurnRevenue(l.tokens[tokenId].coefficient, l.tokens[tokenId].tradableSupply, amount);
      && tokenId in r.value.ledger.tokens
      && OthersUnchanged(l, r.value.ledger, {tokenId})
      && Shifted(l, r.value.ledger, tokenId, owner, -(amount as int))
      && r.value.payout == revenue
      && r.value.ledger.reserve == l.reserve - revenue
      && r.value.ledger.events == l.events + [TokenBurned(tokenId, owner, amount)]
  {
    if tokenId !in l.tokens then Err(NotFound)
    else if amount == 0 then Err(InvalidAmount)
    else if amount > l.tokens[tokenId].tradableSupply then Err(InsufficientTradable)
    else if BalanceOf(l, tokenId, owner) < amount then Err(InsufficientBalance)
    else
      var t := l.tokens[tokenId];
      Ok(Receipt(ApplyBurn(l, tokenId, owner, amount), BurnRevenue(t.coefficient, t.tradableSupply, amount)))
  }

  // ---------------------------------------------------------------------
  // Pricing queries

  /** mintCost: what minting `amount` more units costs now. */
  function MintCostOf(l: Ledger, tokenId: Address, amount: nat): (r: Result<nat>)
    ensures r.Ok? <==> tokenId in l.tokens
    ensures r.Err? ==> r.error == NotFound
    ensures r.Ok? ==> Area(l.tokens[tokenId].coefficient, l.tokens[tokenId].tradableSupply) + r.value
                      == Area(l.tokens[tokenId].coefficient, l.tokens[tokenId].tradableSupply + amount)
  {
    if tokenId !in l.tokens then Err(NotFound)
    else Ok(MintCost(l.tokens[tokenId].coefficient, l.tokens[tokenId].tradableSupply, amount))
  }

  /** mintAmount: the most units `payment` buys now (rounded down). */
  function MintAmountOf(l: Ledger, tokenId: Address, payment: nat): (r: Result<nat>)
    ensures r.Ok? <==> tokenId in l.tokens
    ensures r.Err? ==> r.error == NotFound
    ensures r.Ok? ==>
      var t := l.tokens[tokenId];
      MintCost(t.coefficient, t.tradableSupply, r.value) <= payment < MintCost(t.coefficient, t.tradableSupply, r.value + 1)
  {
    if tokenId !in l.tokens then Err(NotFound)
    else Ok(MintAmount(l.tokens[tokenId].coefficient, l.tokens[tokenId].tradableSupply, payment))
  }

  /** burnRevenue: what burning `amount` units pays now; burning past the
      tradable supply is rejected. */
  function BurnRevenueOf(l: Ledger, tokenId: Address, amount: nat): (r: Result<nat>)
    ensures tokenId !in l.tokens ==> r == Err(NotFound)
    ensures tokenId in l.tokens && amount > l.tokens[tokenId].tradableSupply ==> r == Err(InsufficientTradable)
    ensures r.Ok? <==> tokenId in l.tokens && amount <= l.tokens[tokenId].tradableSupply
    ensures r.Ok? ==> Area(l.tokens[tokenId].coefficient, l.tokens[tokenId].tradableSupply - amount) + r.value
                      == TokenArea(l.tokens[tokenId])
  {
    if tokenId !in l.tokens then Err(NotFound)
    else if amount > l.tokens[tokenId].tradableSupply then Err(InsufficientTradable)
    else Ok(BurnRevenue(l.tokens[tokenId].coefficient, l.tokens[tokenId].tradableSupply, amount))
  }

  /** burnAmount: the most units whose burn pays at most `target` (rounded
      down). A target above the revenue of burning the whole tradable supply
      is rejected, not clamped. */
  function BurnAmountOf(l: Ledger, tokenId: Address, target: nat): (r: Result<nat>)
    ensures tokenId !in l.tokens ==> r == Err(NotFound)
    ensures tokenId in l.tokens && target > TokenArea(l.tokens[tokenId]) ==> r == Err(InsufficientTradable)
    ensures r.Ok? <==> tokenId in l.tokens && target <= TokenArea(l.tokens[tokenId])
    ensures r.Ok? ==>
      var t := l.tokens[tokenId];
      && r.value <= t.tradableSupply
      && BurnRevenue(t.coefficient, t.tradableSupply, r.value) <= target
      && (r.value < t.tradableSupply ==> target < BurnRevenue(t.coefficient, t.tradableSupply, r.value + 1))
  {
    if tokenId !in l.tokens then Err(NotFound)
    else if target > TokenArea(l.tokens[tokenId]) then Err(InsufficientTradable)
    else Ok(BurnAmount(l.tokens[tokenId].coefficient, l.tokens[tokenId].tradableSupply, target))
  }

  // ---------------------------------------------------------------------
  // The invariants survive every operation

  lemma TransferValid(l: Ledger, tokenId: Address, from: Address, to: Address, amount: nat)
    requires Valid(l)
    requires Transfer(l, tokenId, from, to, amount).Ok?
    ensures Valid(Transfer(l, tokenId, from, to, amount).value)
  {
    var l' := Transfer(l, tokenId, from, to, amount).value;
    var b := l.tokens[tokenId].balances;
    assert ValidToken(l.tokens[tokenId]);
    DebitSum(b, from, amount);
    CreditSum(Debit(b, from, amount), to, amount);
    assert l'.tokens == l.tokens[tokenId := l'.tokens[tokenId]];
    TokensStayValid(l, l', tokenId);
    assert TokenArea(l'.tokens[tokenId]) == TokenArea(l.tokens[tokenId]);
    ReserveStaysValid(l, l', tokenId);
  }

  lemma MintValid(l: Ledger, tokenId: Address, recipient: Address, amount: nat, paid: nat)
    requires Valid(l)
    requires Mint(l, tokenId, recipient, amount, paid).Ok?
    ensures Valid(Mint(l, tokenId, recipient, amount, paid).value.ledger)
  {
    ApplyMintValid(l, tokenId, recipient, amount);
  }

  lemma BurnValid(l: Ledger, tokenId: Address, owner: Address, amount: nat)
    requires Valid(l)
    requires Burn(l, tokenId, owner, amount).Ok?
    ensures Valid(Burn(l, tokenId, owner, amount).value.ledger)
  {
    ApplyBurnValid(l, tokenId, owner, amount);
  }

  // ---------------------------------------------------------------------
  // How the operations and the queries fit together

  /** Overpaying a mint changes nothing but the refund: the ledger is the same
      as with the exact payment and the excess comes back in full. */
  lemma MintOverpaymentRefunded(l: Ledger, tokenId: Address, recipient: Address, amount: nat, paid: nat, extra: nat)
    requires Mint(l, tokenId, recipient, amount, paid).Ok?
    ensures Mint(l, tokenId, recipient, amount, paid + extra).Ok?
    ensures Mint(l, tokenId, recipient, amount, paid + extra).value.ledger
            == Mint(l, tokenId, recipient, amount, paid).value.ledger
    ensures Mint(l, tokenId, recipient, amount, paid + extra).value.payout
            == Mint(l, tokenId, recipient, amount, paid).value.payout + extra
  {
  }

  /** The mintCost quote is exact: paying it mints with no refund, and paying
      one unit of currency less is rejected. */
  lemma MintCostQuoteIsExact(l: Ledger, tokenId: Address, recipient: Address, amount: nat)
    requires tokenId in l.tokens && amount > 0
    ensures MintCostOf(l, tokenId, amount).Ok?
    ensures var quote := MintCostOf(l, tokenId, amount).value;
      && Mint(l, tokenId, recipient, amount, quote).Ok?
      && Mint(l, tokenId, recipient, amount, quote).value.payout == 0
      && (quote > 0 ==> Mint(l, tokenId, recipient, amount, quote - 1) == Err(InsufficientPayment))
  {
  }

  /** The mintAmount quote is affordable: minting that many units with the
      same payment succeeds, and the refund is less than the next unit costs. */
  lemma MintAmountQuoteIsAffordable(l: Ledger, tokenId: Address, recipient: Address, payment: nat)
    requires MintAmountOf(l, tokenId, payment).Ok?
    requires MintAmountOf(l, tokenId, payment).value > 0
    ensures var n := MintAmountOf(l, tokenId, payment).value;
      var t := l.tokens[tokenId];
      && Mint(l, tokenId, recipient, n, payment).Ok?
      && Mint(l, tokenId, recipient, n, payment).value.payout
         < MintCost(t.coefficient, t.tradableSupply + n, 1)
  {
    var n := MintAmountOf(l, tokenId, payment).value;
    var t := l.tokens[tokenId];
    MintCostAdditive(t.coefficient, t.tradableSupply, n, 1);
  }

  /** The burnRevenue quote is what a burn of the same amount pays out. */
  lemma BurnRevenueQuoteIsPaid(l: Ledger, tokenId: Address, owner: Address, amount: nat)
    requires Burn(l, tokenId, owner, amount).Ok?
    ensures BurnRevenueOf(l, tokenId, amount) == Ok(Burn(l, tokenId, owner, amount).value.payout)
  {
  }

  /** Minting and then burning the same units gives back exactly what was
      paid, and leaves every balance, supply and the reserve as they were. */
  lemma MintThenBurnRestores(l: Ledger, tokenId: Address, holder: Address, amount: nat, paid: nat)
    requires Mint(l, tokenId, holder, amount, paid).Ok?
    ensures var m := Mint(l, tokenId, holder, amount, paid).value;
      var b := Burn(m.ledger, tokenId, holder, amount);
      && b.Ok?
      && m.payout + b.value.payout == paid
      && b.value.ledger.reserve == l.reserve
      && b.value.ledger.tokens.Keys == l.tokens.Keys
      && b.value.ledger.tokens[tokenId].tradableSupply == l.tokens[tokenId].tradableSupply
      && (forall o :: BalanceOf(b.value.ledger, tokenId, o) == BalanceOf(l, tokenId, o))
      && (forall id :: id in l.tokens && id != tokenId ==> b.value.ledger.tokens[id] == l.tokens[id])
  {
    var t := l.tokens[tokenId];
    BurnRevenueUndoesMintCost(t.coefficient, t.tradableSupply, amount);
  }

  /** Burning the whole tradable supply pays out that token's entire curve
      area; when it is the only token the reserve ends at zero. */
  lemma BurnAllEmptiesReserve(l: Ledger, tokenId: Address, owner: Address)
    requires Valid(l)
    requires tokenId in l.tokens
    requires Burn(l, tokenId, owner, l.tokens[tokenId].tradableSupply).Ok?
    ensures var b := Burn(l, tokenId, owner, l.tokens[tokenId].tradableSupply).value;
      && b.payout == TokenArea(l.tokens[tokenId])
      && TokenArea(b.ledger.tokens[tokenId]) == 0
      && (l.tokens.Keys == {tokenId} ==> b.ledger.reserve == 0)
  {
    var b := Burn(l, tokenId, owner, l.tokens[tokenId].tradableSupply).value;
    if l.tokens.Keys == {tokenId} {
      assert l.tokens == map[tokenId := l.tokens[tokenId]];
      assert Areas(l.tokens) == map[tokenId := TokenArea(l.tokens[tokenId])];
      SumSingleton(tokenId, TokenArea(l.tokens[tokenId]));
    }
  }

  /** After a mint of `amount` units the supply queries answer `amount` more,
      the price rises to the coefficient times the new tradable supply, and
      the recipient holds `amount` more. */
  lemma MintQueries(l: Ledger, tokenId: Address, recipient: Address, amount: nat, paid: nat)
    requires Mint(l, tokenId, recipient, amount, paid).Ok?
    ensures var t := l.tokens[tokenId];
      var l' := Mint(l, tokenId, recipient, amount, paid).value.ledger;
      && TradableSupplyOf(l', tokenId) == Ok(t.tradableSupply + amount)
      && TotalSupplyOf(l', tokenId) == Ok(TotalSupply(t) + amount)
      && CurrentPriceOf(l', tokenId) == Ok(t.coefficient * (t.tradableSupply + amount))
      && BalanceOf(l', tokenId, recipient) == BalanceOf(l, tokenId, recipient) + amount
  {
  }

  /** After a burn of `amount` units the supply queries answer `amount` less,
      the price falls to the coefficient times the new tradable supply, and
      the owner holds `amount` less. */
  lemma BurnQueries(l: Ledger, tokenId: Address, owner: Address, amount: nat)
    requires Burn(l, tokenId, owner, amount).Ok?
    ensures var t := l.tokens[tokenId];
      var l' := Burn(l, tokenId, owner, amount).value.ledger;
      && TradableSupplyOf(l', tokenId).Ok?
      && TradableSupplyOf(l', tokenId).value + amount == t.tradableSupply
      && TotalSupplyOf(l', tokenId).Ok?
      && TotalSupplyOf(l', tokenId).value + amount == TotalSupply(t)
      && CurrentPriceOf(l', tokenId) == Ok(t.coefficient * TradableSupplyOf(l', tokenId).value)
      && BalanceOf(l', tokenId, owner) + amount == BalanceOf(l, tokenId, owner)
  {
  }
}
