/** Token creation and the per-token read-only queries. */
module Registry {
  import opened Sums
  import opened Pricing
  import opened State

  /** createToken: `creator` registers its one token with slope `coef`. An odd
      or zero coefficient is rejected, and so is a second token by the same
      creator. The creator receives the whole base supply; nothing is
      tradable yet, so the reserve does not move. */
  function CreateToken(l: Ledger, creator: Address, coef: nat): (r: Result<Ledger>)
    ensures !ValidCoefficient(coef) ==> r == Err(InvalidCoefficient)
    ensures ValidCoefficient(coef) && creator in l.tokens ==> r == Err(AlreadyExists)
    ensures r.Ok? <==> ValidCoefficient(coef) && creator !in l.tokens
    ensures r.Ok? ==>
      && r.value.tokens.Keys == l.tokens.Keys + {creator}
      && (forall id :: id in l.tokens ==> r.value.tokens[id] == l.tokens[id])
      && r.value.tokens[creator].coefficient == coef
      && r.value.tokens[creator].tradableSupply == 0
      && BalanceOf(r.value, creator, creator) == BaseSupply
      && (forall o :: o != creator ==> BalanceOf(r.value, creator, o) == 0)
      && r.value.reserve == l.reserve
      && r.value.events == l.events + [TokenCreated(creator)]
  {
    if !ValidCoefficient(coef) then Err(InvalidCoefficient)
    else if creator in l.tokens then Err(AlreadyExists)
    else
      var t := Token(coef, 0, map[creator := BaseSupply]);
      Ok(Ledger(l.tokens[creator := t], l.reserve, l.events + [TokenCreated(creator)]))
  }

  /** exists: a token exists exactly when its queries answer; a token that
      does not exist has no holders. */
  function Exists(l: Ledger, tokenId: Address): (r: bool)
    ensures r <==> TokenCoefficient(l, tokenId).Ok?
    ensures r <==> TotalSupplyOf(l, tokenId).Ok?
    ensures !r ==> forall o :: BalanceOf(l, tokenId, o) == 0
  {
    tokenId in l.tokens
  }

  /** createToken is what makes a token exist: it succeeds only for a creator
      whose token does not exist yet, and afterwards exactly the earlier
      tokens and the creator's exist. */
  lemma CreateTokenExists(l: Ledger, creator: Address, coef: nat)
    ensures var c := CreateToken(l, creator, coef);
      c.Ok? ==>
        && !Exists(l, creator)
        && forall id :: Exists(c.value, id) <==> Exists(l, id) || id == creator
  {
  }

  /** tokenCoefficient: always a valid coefficient once the token exists. */
  function TokenCoefficient(l: Ledger, tokenId: Address): (r: Result<nat>)
    ensures r.Ok? <==> tokenId in l.tokens
    ensures r.Ok? ==> ValidCoefficient(r.value)
    ensures r.Err? ==> r.error == NotFound
  {
    if tokenId in l.tokens then Ok(l.tokens[tokenId].coefficient) else Err(NotFound)
  }

  /** totalSupply: the base supply plus every unit minted and not burned. */
  function TotalSupplyOf(l: Ledger, tokenId: Address): (r: Result<nat>)
    ensures r.Ok? <==> tokenId in l.tokens
    ensures r.Ok? ==> r.value >= BaseSupply
    ensures r.Err? ==> r.error == NotFound
  {
    if tokenId in l.tokens then Ok(TotalSupply(l.tokens[tokenId])) else Err(NotFound)
  }

  /** tradableSupply */
  function TradableSupplyOf(l: Ledger, tokenId: Address): (r: Result<nat>)
    ensures r.Ok? <==> tokenId in l.tokens
    ensures r.Ok? ==> TotalSupplyOf(l, tokenId) == Ok(BaseSupply + r.value)
    ensures r.Err? ==> r.error == NotFound
  {
    if tokenId in l.tokens then Ok(l.tokens[tokenId].tradableSupply) else Err(NotFound)
  }

  /** currentPrice: the marginal price at the current tradable supply. The
      next unit minted costs at least this much, and the last unit minted
      refunds at most this much. */
  function CurrentPriceOf(l: Ledger, tokenId: Address): (r: Result<nat>)
    ensures r.Ok? <==> tokenId in l.tokens
    ensures r.Ok? ==>
      var t := l.tokens[tokenId];
      && r.value <= MintCost(t.coefficient, t.tradableSupply, 1)
      && (t.tradableSupply > 0 ==> BurnRevenue(t.coefficient, t.tradableSupply, 1) <= r.value)
      && (r.value == 0 <==> t.tradableSupply == 0)
      && r.value * t.tradableSupply == 2 * TokenArea(t)
    ensures r.Err? ==> r.error == NotFound
  {
    if tokenId in l.tokens then
      var t := l.tokens[tokenId];
      MintCostBetweenPrices(t.coefficient, t.tradableSupply, 1);
      if t.tradableSupply > 0 then
        MintCostBetweenPrices(t.coefficient, t.tradableSupply - 1, 1);
        Ok(CurrentPrice(t.coefficient, t.tradableSupply))
      else
        Ok(CurrentPrice(t.coefficient, t.tradableSupply))
    else Err(NotFound)
  }

  /** A token just created answers its queries with the coefficient it was
      created with, the base supply, nothing tradable and a price of 0. */
  lemma CreateTokenQueries(l: Ledger, creator: Address, coef: nat)
    requires CreateToken(l, creator, coef).Ok?
    ensures var l' := CreateToken(l, creator, coef).value;
      && TokenCoefficient(l', creator) == Ok(coef)
      && TotalSupplyOf(l', creator) == Ok(BaseSupply)
      && TradableSupplyOf(l', creator) == Ok(0)
      && CurrentPriceOf(l', creator) == Ok(0)
  {
  }

  /** createToken keeps the ledger invariants. */
  lemma CreateTokenValid(l: Ledger, creator: Address, coef: nat)
    requires Valid(l)
    requires CreateToken(l, creator, coef).Ok?
    ensures Valid(CreateToken(l, creator, coef).value)
  {
    var l' := CreateToken(l, creator, coef).value;
    var t := l'.tokens[creator];
    AreasUpdate(l.tokens, creator, t);
    SumSingleton(creator, BaseSupply);
    assert ValidToken(t);
  }
}
