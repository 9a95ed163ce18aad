/** The concrete cases of the token's test suite, stated as lemmas about the
    model: every number below is one the suite asserts. Alice's token has
    coefficient 154 and Bob's coefficient 32. */
module Scenarios {
  import opened Sums
  import opened Pricing
  import opened State
  import opened Registry
  import opened Accounting
  import opened Swaps

  const Alice: Address := 1
  const Bob: Address := 2

  // ---------------------------------------------------------------------
  // The ledgers the suite passes through, and the calls that reach them

  /** The curve values the suite's comments work out by hand. */
  lemma CurveValues()
    ensures MintCost(154, 0, 27) == 56133
    ensures MintCost(154, 27, 10) == 49280
    ensures BurnRevenue(154, 27, 2) == 8008
    ensures BurnRevenue(154, 25, 25) == 48125
    ensures BurnRevenue(154, 27, 15) == 45045
    ensures MintCost(32, 0, 89) == 126736
    ensures MintCost(32, 89, 14) == 43008
    ensures MintCost(32, 89, 15) == 46320
    ensures MintCost(32, 103, 1) == 3312
    ensures Area(154, 27) == 56133
    ensures Area(32, 89) == 126736
  {
  }

  /** Alice's token just created. */
  function AliceCreated(): Ledger
  {
    Ledger(map[Alice := Token(154, 0, map[Alice := 10000])], 0, [TokenCreated(Alice)])
  }

  /** Alice's token after she mints 27 units. */
  function AliceMinted(): Ledger
  {
    Ledger(map[Alice := Token(154, 27, map[Alice := 10027])], 56133,
      [TokenCreated(Alice), TokenMinted(Alice, Alice, 27)])
  }

  /** Alice's token at supply 27 and Bob's at supply 89, before a swap. */
  function TwoTokens(): Ledger
  {
    Ledger(
      map[Alice := Token(154, 27, map[Alice := 10027]),
          Bob := Token(32, 89, map[Bob := 10089])],
      182869,
      [TokenCreated(Alice), TokenCreated(Bob), TokenMinted(Alice, Alice, 27), TokenMinted(Bob, Bob, 89)])
  }

  lemma AliceCreatedReached()
    ensures CreateToken(Empty(), Alice, 154) == Ok(AliceCreated())
  {
    var c := CreateToken(Empty(), Alice, 154).value;
    assert c.events == AliceCreated().events;
    assert c.tokens[Alice] == AliceCreated().tokens[Alice];
    assert c.tokens == AliceCreated().tokens;
  }

  lemma AliceMintedReached()
    ensures Mint(AliceCreated(), Alice, Alice, 27, 56133) == Ok(Receipt(AliceMinted(), 0))
  {
    CurveValues();
    var l := Mint(AliceCreated(), Alice, Alice, 27, 56133).value.ledger;
    assert l.events == AliceMinted().events;
    assert l.tokens[Alice].balances == AliceMinted().tokens[Alice].balances;
    assert l.tokens[Alice] == AliceMinted().tokens[Alice];
    assert l.tokens == AliceMinted().tokens;
  }

  /** Bob's token just created. */
  function BobCreated(): Ledger
  {
    Ledger(map[Bob := Token(32, 0, map[Bob := 10000])], 0, [TokenCreated(Bob)])
  }

  /** Bob's token after he mints 89 units, with no token of Alice's. */
  function BobMinted(): Ledger
  {
    Ledger(map[Bob := Token(32, 89, map[Bob := 10089])], 126736,
      [TokenCreated(Bob), TokenMinted(Bob, Bob, 89)])
  }

  lemma BobCreatedReached()
    ensures CreateToken(Empty(), Bob, 32) == Ok(BobCreated())
  {
    var c := CreateToken(Empty(), Bob, 32).value;
    assert c.events == BobCreated().events;
    assert c.tokens[Bob] == BobCreated().tokens[Bob];
    assert c.tokens == BobCreated().tokens;
  }

  lemma BobMintedReached()
    ensures Mint(BobCreated(), Bob, Bob, 89, 126736) == Ok(Receipt(BobMinted(), 0))
  {
    CurveValues();
    var l := Mint(BobCreated(), Bob, Bob, 89, 126736).value.ledger;
    assert l.events == BobMinted().events;
    assert l.tokens[Bob].balances == BobMinted().tokens[Bob].balances;
    assert l.tokens[Bob] == BobMinted().tokens[Bob];
    assert l.tokens == BobMinted().tokens;
  }

  /** Both tokens just created. */
  function BothCreated(): Ledger
  {
    Ledger(
      map[Alice := Token(154, 0, map[Alice := 10000]),
          Bob := Token(32, 0, map[Bob := 10000])],
      0,
      [TokenCreated(Alice), TokenCreated(Bob)])
  }

  /** Both tokens created and Alice's minted to supply 27. */
  function AliceFirst(): Ledger
  {
    Ledger(
      map[Alice := Token(154, 27, map[Alice := 10027]),
          Bob := Token(32, 0, map[Bob := 10000])],
      56133,
      [TokenCreated(Alice), TokenCreated(Bob), TokenMinted(Alice, Alice, 27)])
  }

  lemma BothCreatedReached()
    ensures CreateToken(AliceCreated(), Bob, 32) == Ok(BothCreated())
  {
    var l := CreateToken(AliceCreated(), Bob, 32).value;
    assert l.events == BothCreated().events;
    assert l.tokens == BothCreated().tokens;
  }

  lemma AliceFirstReached()
    ensures Mint(BothCreated(), Alice, Alice, 27, 56133) == Ok(Receipt(AliceFirst(), 0))
  {
    CurveValues();
    var l := Mint(BothCreated(), Alice, Alice, 27, 56133).value.ledger;
    assert l.events == AliceFirst().events;
    assert l.tokens[Alice].balances == AliceFirst().tokens[Alice].balances;
    assert l.tokens[Alice] == AliceFirst().tokens[Alice];
    assert l.tokens == AliceFirst().tokens;
  }

  lemma BobSecondReached()
    ensures Mint(AliceFirst(), Bob, Bob, 89, 126736) == Ok(Receipt(TwoTokens(), 0))
  {
    CurveValues();
    var l := Mint(AliceFirst(), Bob, Bob, 89, 126736).value.ledger;
    assert l.events == TwoTokens().events;
    assert l.tokens[Bob].balances == TwoTokens().tokens[Bob].balances;
    assert l.tokens[Bob] == TwoTokens().tokens[Bob];
    assert l.tokens == TwoTokens().tokens;
  }

  /** The suite's setup reaches the two-token ledger: both tokens created,
      Alice mints 27 units for 56133 and Bob mints 89 units for 126736, each
      paying the exact cost; the reserve is then 56133 + 126736 = 182869. */
  lemma TwoTokensReached()
    ensures var a := CreateToken(Empty(), Alice, 154);
      && a.Ok?
      && var ab := CreateToken(a.value, Bob, 32);
      && ab.Ok?
      && var m := Mint(ab.value, Alice, Alice, 27, 56133);
      && m.Ok?
      && m.value.payout == 0
      && m.value.ledger.reserve == 56133
      && var m2 := Mint(m.value.ledger, Bob, Bob, 89, 126736);
      && m2 == Ok(Receipt(TwoTokens(), 0))
  {
    AliceCreatedReached();
    BothCreatedReached();
    AliceFirstReached();
    BobSecondReached();
  }

  /** In the two-token ledger each token's balances add up to its supply. */
  lemma TwoTokensBalancesAddUp()
    ensures forall id :: id in TwoTokens().tokens ==> ValidToken(TwoTokens().tokens[id])
  {
    SumSingleton(Alice, 10027);
    SumSingleton(Bob, 10089);
  }

  /** The two-token ledger keeps the invariants, and its reserve is the sum
      of the two curve areas. */
  lemma TwoTokensValid()
    ensures Valid(TwoTokens())
    ensures TwoTokens().reserve == Area(154, 27) + Area(32, 89)
  {
    CurveValues();
    TwoTokensBalancesAddUp();
    assert Areas(TwoTokens().tokens) == map[Alice := 56133, Bob := 126736];
    SumPair(Alice, Bob, 56133, 126736);
  }

  // ---------------------------------------------------------------------
  // createToken and transfer

  /** Creating a token; odd, zero and repeated creations revert. */
  lemma CreateTokenCases()
    ensures var c := CreateToken(Empty(), Alice, 154);
      && c.Ok?
      && Exists(c.value, Alice)
      && TokenCoefficient(c.value, Alice) == Ok(154)
      && BalanceOf(c.value, Alice, Alice) == 10000
      && TotalSupplyOf(c.value, Alice) == Ok(10000)
      && TradableSupplyOf(c.value, Alice) == Ok(0)
      && CurrentPriceOf(c.value, Alice) == Ok(0)
    ensures CreateToken(Empty(), Alice, 153) == Err(InvalidCoefficient)
    ensures CreateToken(Empty(), Alice, 0) == Err(InvalidCoefficient)
    ensures var c := CreateToken(Empty(), Bob, 154);
      c.Ok? && CreateToken(c.value, Bob, 154) == Err(AlreadyExists)
  {
    AliceCreatedReached();
  }

  /** Transferring one unit logs the creation then the transfer; sending more
      than the balance reverts. */
  lemma TransferCases()
    ensures var c := CreateToken(Empty(), Alice, 154);
      && c.Ok?
      && var t := Transfer(c.value, Alice, Alice, Bob, 1);
      && t.Ok?
      && BalanceOf(t.value, Alice, Alice) == 9999
      && BalanceOf(t.value, Alice, Bob) == 1
      && t.value.events == [TokenCreated(Alice), TokenTransferred(Alice, Alice, Bob, 1)]
      && Transfer(c.value, Alice, Alice, Bob, 10001) == Err(InsufficientBalance)
  {
    AliceCreatedReached();
  }

  // ---------------------------------------------------------------------
  // mint and burn

  /** Minting 27 units for 56133: supply 10027, 27 tradable, price 4158. */
  lemma MintCases()
    ensures var c := CreateToken(Empty(), Alice, 154);
      && c.Ok?
      && var m := Mint(c.value, Alice, Alice, 27, 56133);
      && m.Ok?
      && m.value.payout == 0
      && m.value.ledger.reserve == 56133
      && BalanceOf(m.value.ledger, Alice, Alice) == 10027
      && TotalSupplyOf(m.value.ledger, Alice) == Ok(10027)
      && TradableSupplyOf(m.value.ledger, Alice) == Ok(27)
      && CurrentPriceOf(m.value.ledger, Alice) == Ok(4158)
      && m.value.ledger.events == [TokenCreated(Alice), TokenMinted(Alice, Alice, 27)]
  {
    AliceCreatedReached();
    AliceMintedReached();
  }

  /** Minting 10 more units for 49280: the reserve is 56133 + 49280 = 105413,
      supply 10037, 37 tradable, price 5698, and both mints are logged. */
  lemma MintTwiceCase()
    ensures var m2 := Mint(AliceMinted(), Alice, Alice, 10, 49280);
      && m2.Ok?
      && m2.value.payout == 0
      && m2.value.ledger.reserve == 105413
      && BalanceOf(m2.value.ledger, Alice, Alice) == 10037
      && TotalSupplyOf(m2.value.ledger, Alice) == Ok(10037)
      && TradableSupplyOf(m2.value.ledger, Alice) == Ok(37)
      && CurrentPriceOf(m2.value.ledger, Alice) == Ok(5698)
      && m2.value.ledger.events
         == [TokenCreated(Alice), TokenMinted(Alice, Alice, 27), TokenMinted(Alice, Alice, 10)]
  {
    CurveValues();
  }

  /** Overpaying by 2 refunds 2 and leaves the same state; minting 0 units
      (whatever the payment), minting a token that does not exist, or paying
      one less than the cost of 27 units reverts. */
  lemma MintFailureCases()
    ensures var over := Mint(AliceCreated(), Alice, Alice, 27, 56135);
      && over == Ok(Receipt(AliceMinted(), 2))
    ensures Mint(AliceCreated(), Alice, Alice, 0, 56133) == Err(InvalidAmount)
    ensures Mint(AliceCreated(), Alice, Alice, 0, 56132) == Err(InvalidAmount)
    ensures Mint(AliceCreated(), Alice, Alice, 27, 56132) == Err(InsufficientPayment)
    ensures Mint(Empty(), Alice, Alice, 0, 0) == Err(NotFound)
  {
    CurveValues();
    AliceMintedReached();
    MintOverpaymentRefunded(AliceCreated(), Alice, Alice, 27, 56133, 2);
  }

  /** Burning 2 of 27 units pays 8008: reserve 48125, supply 10025, price
      3850, and the burn is logged after the mint. */
  lemma BurnCases()
    ensures var b := Burn(AliceMinted(), Alice, Alice, 2);
      && b.Ok?
      && b.value.payout == 8008
      && b.value.ledger.reserve == 48125
      && BalanceOf(b.value.ledger, Alice, Alice) == 10025
      && TotalSupplyOf(b.value.ledger, Alice) == Ok(10025)
      && TradableSupplyOf(b.value.ledger, Alice) == Ok(25)
      && CurrentPriceOf(b.value.ledger, Alice) == Ok(3850)
      && b.value.ledger.events == [TokenCreated(Alice), TokenMinted(Alice, Alice, 27), TokenBurned(Alice, Alice, 2)]
  {
    CurveValues();
  }

  /** Burning the remaining 25 units pays 48125 and empties the reserve, so
      Alice has all her currency back. */
  lemma BurnTwiceCase()
    ensures var b := Burn(AliceMinted(), Alice, Alice, 2);
      && b.Ok?
      && var b2 := Burn(b.value.ledger, Alice, Alice, 25);
      && b2.Ok?
      && b2.value.payout == 48125
      && b2.value.ledger.reserve == 0
      && b.value.payout + b2.value.payout == 56133
  {
    CurveValues();
  }

  /** Burning units of a missing token, 0 units, or more units than are
      tradable reverts. */
  lemma BurnFailureCases()
    ensures Burn(Empty(), Alice, Alice, 1) == Err(NotFound)
    ensures Burn(AliceCreated(), Alice, Alice, 0) == Err(InvalidAmount)
    ensures Burn(AliceCreated(), Alice, Alice, 15) == Err(InsufficientTradable)
  {
  }

  // ---------------------------------------------------------------------
  // swap and simulateSwap

  /** The ledger after Alice swaps 15 of her units for 14 of Bob's. */
  function AfterSwap(): Ledger
  {
    Ledger(
      map[Alice := Token(154, 12, map[Alice := 10012]),
          Bob := Token(32, 103, map[Bob := 10089, Alice := 14])],
      180832,
      [TokenCreated(Alice), TokenCreated(Bob), TokenMinted(Alice, Alice, 27), TokenMinted(Bob, Bob, 89),
       TokenBurned(Alice, Alice, 15), TokenMinted(Bob, Alice, 14)])
  }

  /** Burning 15 of Alice's 27 units yields 45045, which buys 14 Bob units
      for 43008 (the exact root 103.62 is rounded down to 103), leaving 2037;
      simulateSwap previews that pair. */
  lemma SwapPreviewCase()
    ensures SwapValue(TwoTokens(), Alice, 15) == 45045
    ensures MintAmount(32, 89, 45045) == 14
    ensures SimulateSwap(TwoTokens(), Alice, Bob, 15) == Ok((14, 2037))
  {
    CurveValues();
    assert SwapValue(TwoTokens(), Alice, 15) == 45045;
    MintAmountUnique(32, 89, 45045, 14);
  }

  /** The ledger halfway through that swap, after the burn. */
  function AfterBurn(): Ledger
  {
    Ledger(
      map[Alice := Token(154, 12, map[Alice := 10012]),
          Bob := Token(32, 89, map[Bob := 10089])],
      137824,
      [TokenCreated(Alice), TokenCreated(Bob), TokenMinted(Alice, Alice, 27), TokenMinted(Bob, Bob, 89),
       TokenBurned(Alice, Alice, 15)])
  }

  lemma AfterBurnReached()
    ensures ApplyBurn(TwoTokens(), Alice, Alice, 15) == AfterBurn()
  {
    CurveValues();
    var l := ApplyBurn(TwoTokens(), Alice, Alice, 15);
    assert l.events == AfterBurn().events;
    assert l.tokens[Alice].balances == AfterBurn().tokens[Alice].balances;
    assert l.tokens[Alice] == AfterBurn().tokens[Alice];
    assert l.tokens == AfterBurn().tokens;
  }

  lemma AfterMintReached()
    ensures ApplyMint(AfterBurn(), Bob, Alice, 14) == AfterSwap()
  {
    CurveValues();
    var l := ApplyMint(AfterBurn(), Bob, Alice, 14);
    assert l.events == AfterSwap().events;
    var b := l.tokens[Bob].balances;
    assert b.Keys == AfterSwap().tokens[Bob].balances.Keys;
    assert b[Alice] == 14 && b[Bob] == 10089;
    assert b == AfterSwap().tokens[Bob].balances;
    assert l.tokens[Bob] == AfterSwap().tokens[Bob];
    assert l.tokens == AfterSwap().tokens;
  }

  lemma AfterSwapReached()
    ensures Swap(TwoTokens(), Alice, Bob, Alice, 15) == Ok(SwapReceipt(AfterSwap(), 14, 2037))
  {
    SwapPreviewCase();
    AfterBurnReached();
    AfterMintReached();
    CurveValues();
  }

  /** After the swap Alice's token is down to 12 tradable units and Bob's
      is up to 103, Alice holds 14 Bob-tokens and Bob's own balance is
      untouched; the reserve is still the sum of the two curve areas, and the
      log shows Alice's burn before the mint of Bob-tokens to Alice. */
  predicate AfterSwapFacts(l: Ledger)
  {
    && BalanceOf(l, Alice, Alice) == 10012
    && TotalSupplyOf(l, Alice) == Ok(10012)
    && TradableSupplyOf(l, Alice) == Ok(12)
    && BalanceOf(l, Bob, Alice) == 14
    && BalanceOf(l, Bob, Bob) == 10089
    && TotalSupplyOf(l, Bob) == Ok(10103)
    && TradableSupplyOf(l, Bob) == Ok(103)
    && l.reserve == 180832
    && l.reserve == Area(154, 12) + Area(32, 103)
    && l.events == [
         TokenCreated(Alice), TokenCreated(Bob),
         TokenMinted(Alice, Alice, 27), TokenMinted(Bob, Bob, 89),
         TokenBurned(Alice, Alice, 15), TokenMinted(Bob, Alice, 14)]
  }

  lemma AfterSwapHasFacts()
    ensures AfterSwapFacts(AfterSwap())
  {
  }

  /** Swapping 15 Alice units gives Alice 14 Bob units and refunds 2037, and
      leaves the ledger described above. */
  lemma SwapCase()
    ensures var sw := Swap(TwoTokens(), Alice, Bob, Alice, 15);
      && sw.Ok?
      && sw.value.received == 14
      && sw.value.refund == 2037
      && AfterSwapFacts(sw.value.ledger)
  {
    AfterSwapHasFacts();
    AfterSwapReached();
  }

  /** Swaps and previews of missing tokens, of 0 units, and of more units than
      are tradable revert. */
  lemma SwapFailureCases()
    ensures var b := CreateToken(Empty(), Bob, 32);
      && b.Ok?
      && var m := Mint(b.value, Bob, Bob, 89, 126736);
      && m.Ok?
      && Swap(m.value.ledger, Alice, Bob, Alice, 15) == Err(NotFound)
      && SimulateSwap(m.value.ledger, Alice, Bob, 15) == Err(NotFound)
    ensures Swap(AliceMinted(), Alice, Bob, Alice, 15) == Err(NotFound)
    ensures SimulateSwap(AliceMinted(), Alice, Bob, 15) == Err(NotFound)
    ensures Swap(TwoTokens(), Alice, Bob, Alice, 0) == Err(InvalidAmount)
    ensures Swap(TwoTokens(), Alice, Bob, Alice, 155) == Err(InsufficientTradable)
    ensures SimulateSwap(TwoTokens(), Alice, Bob, 155) == Err(InsufficientTradable)
  {
    BobCreatedReached();
    BobMintedReached();
  }

  // ---------------------------------------------------------------------
  // The pricing queries

  /** 27 units cost 56133 and 56133 buys 27 units; at supply 27, burning 2
      pays 8008 and 8008 is the revenue of 2 units; burning 28, or asking for
      60368, exceeds the tradable supply; a missing token reverts. */
  lemma QueryCases()
    ensures MintCostOf(AliceCreated(), Alice, 27) == Ok(56133)
    ensures MintAmountOf(AliceCreated(), Alice, 56133) == Ok(27)
    ensures BurnRevenueOf(AliceMinted(), Alice, 2) == Ok(8008)
    ensures BurnRevenueOf(AliceMinted(), Alice, 28) == Err(InsufficientTradable)
    ensures BurnAmountOf(AliceMinted(), Alice, 8008) == Ok(2)
    ensures BurnAmountOf(AliceMinted(), Alice, 60368) == Err(InsufficientTradable)
    ensures MintCostOf(Empty(), Alice, 27) == Err(NotFound)
    ensures MintAmountOf(Empty(), Alice, 56133) == Err(NotFound)
    ensures BurnRevenueOf(Empty(), Alice, 2) == Err(NotFound)
    ensures BurnAmountOf(Empty(), Alice, 8008) == Err(NotFound)
  {
    CurveValues();
    MintAmountOfMintCost(154, 0, 27);
    BurnAmountOfBurnRevenue(154, 27, 2);
  }

  // ---------------------------------------------------------------------
  // Three cases whose test does not reach the check its name announces

  /** The missing-token mint as the suite writes it asks for 0 units: it is
      rejected whatever the payment, and just the same once the token
      exists, so it cannot tell a missing token from a present one. */
  lemma MissingTokenMintAsWritten(paid: nat)
    ensures Mint(Empty(), Alice, Alice, 0, paid).Err?
    ensures var c := CreateToken(Empty(), Alice, 154);
      c.Ok? && Mint(c.value, Alice, Alice, 0, paid) == Err(InvalidAmount)
  {
    AliceCreatedReached();
  }

  /** The missing-token mint as intended: 27 units paid in full are rejected
      because the token is missing, and the same call succeeds once it
      exists. */
  lemma MissingTokenMintCorrected()
    ensures Mint(Empty(), Alice, Alice, 27, 56133) == Err(NotFound)
    ensures var c := CreateToken(Empty(), Alice, 154);
      c.Ok? && Mint(c.value, Alice, Alice, 27, 56133).Ok?
  {
    AliceCreatedReached();
    CurveValues();
  }

  /** The underpayment case as the suite writes it asks for 0 units, so it is
      rejected for the amount whatever the payment: it would pass even with a
      generous payment. */
  lemma UnderpayCaseAsWritten(paid: nat)
    ensures var c := CreateToken(Empty(), Alice, 154);
      c.Ok? && Mint(c.value, Alice, Alice, 0, paid) == Err(InvalidAmount)
  {
    AliceCreatedReached();
  }

  /** The underpayment case as intended: 27 units cost 56133, so paying 56132
      is rejected for the payment, while paying 56133 succeeds. */
  lemma UnderpayCaseCorrected()
    ensures var c := CreateToken(Empty(), Alice, 154);
      && c.Ok?
      && Mint(c.value, Alice, Alice, 27, 56132) == Err(InsufficientPayment)
      && Mint(c.value, Alice, Alice, 27, 56133).Ok?
  {
    AliceCreatedReached();
    CurveValues();
  }

  /** Alice gives her 10000 base units to Bob, then mints 27: she holds only
      her 27 tradable units. */
  function GivenAwayMinted(): Ledger
  {
    Ledger(
      map[Alice := Token(154, 27, map[Alice := 27, Bob := 10000]),
          Bob := Token(32, 0, map[Bob := 10000])],
      56133,
      [TokenCreated(Alice), TokenCreated(Bob), TokenTransferred(Alice, Alice, Bob, 10000),
       TokenMinted(Alice, Alice, 27)])
  }

  /** Both tokens created and Alice's base units given to Bob. */
  function GivenAway(): Ledger
  {
    Ledger(
      map[Alice := Token(154, 0, map[Alice := 0, Bob := 10000]),
          Bob := Token(32, 0, map[Bob := 10000])],
      0,
      [TokenCreated(Alice), TokenCreated(Bob), TokenTransferred(Alice, Alice, Bob, 10000)])
  }

  lemma GivenAwayReached()
    ensures Transfer(BothCreated(), Alice, Alice, Bob, 10000) == Ok(GivenAway())
  {
    var l := Transfer(BothCreated(), Alice, Alice, Bob, 10000).value;
    assert l.events == GivenAway().events;
    var b := l.tokens[Alice].balances;
    assert b.Keys == GivenAway().tokens[Alice].balances.Keys;
    assert b[Alice] == GivenAway().tokens[Alice].balances[Alice];
    assert b[Bob] == GivenAway().tokens[Alice].balances[Bob];
    assert b == GivenAway().tokens[Alice].balances;
    assert l.tokens[Alice] == GivenAway().tokens[Alice];
    assert l.tokens == GivenAway().tokens;
  }

  lemma GivenAwayMintedReached()
    ensures Mint(GivenAway(), Alice, Alice, 27, 56133) == Ok(Receipt(GivenAwayMinted(), 0))
  {
    CurveValues();
    var l := Mint(GivenAway(), Alice, Alice, 27, 56133).value.ledger;
    assert l.events == GivenAwayMinted().events;
    var b := l.tokens[Alice].balances;
    assert b.Keys == GivenAwayMinted().tokens[Alice].balances.Keys;
    assert b[Alice] == GivenAwayMinted().tokens[Alice].balances[Alice];
    assert b[Bob] == GivenAwayMinted().tokens[Alice].balances[Bob];
    assert b == GivenAwayMinted().tokens[Alice].balances;
    assert l.tokens[Alice] == GivenAwayMinted().tokens[Alice];
    assert l.tokens == GivenAwayMinted().tokens;
  }

  /** The swap-beyond-balance case as the suite writes it: Alice has given
      her base units away and holds only the 27 tradable units, Bob mints 89
      of his, and swapping 28 reverts. With 27 tradable units it is the
      tradable check that rejects it, so the swap is rejected just the same
      when Alice keeps her base units and holds far more than 28. */
  lemma SwapBeyondBalanceAsWritten()
    ensures var m2 := Mint(GivenAwayMinted(), Bob, Bob, 89, 126736);
      && m2.Ok?
      && BalanceOf(m2.value.ledger, Alice, Alice) == 27
      && Swap(m2.value.ledger, Alice, Bob, Alice, 28) == Err(InsufficientTradable)
    ensures BalanceOf(TwoTokens(), Alice, Alice) >= 28
    ensures Swap(TwoTokens(), Alice, Bob, Alice, 28) == Err(InsufficientTradable)
  {
    CurveValues();
  }

  /** The swap-beyond-balance case as intended: after Alice gives her base
      units away and Bob also mints 10 Alice-tokens, 37 units are tradable but
      Alice holds 27, and swapping 28 is rejected for her balance. */
  lemma SwapBeyondBalanceCorrected()
    ensures var m2 := Mint(GivenAwayMinted(), Alice, Bob, 10, 49280);
      && m2.Ok?
      && m2.value.ledger.tokens[Alice].tradableSupply == 37
      && BalanceOf(m2.value.ledger, Alice, Alice) == 27
      && Swap(m2.value.ledger, Alice, Bob, Alice, 28) == Err(InsufficientBalance)
  {
    CurveValues();
  }
}
