/** The ledger: one record per creator token plus the single custody reserve,
    its invariants, and the two supply movements (grow by minting, shrink by
    burning) that mint, burn and swap share. */
module State {
  import opened Sums
  import opened Pricing

  /** An account identity. A token is identified by its creator's address. */
  type Address = nat

  /** Units credited to the creator when the token is created; the total
      supply never drops below it. */
  const BaseSupply: nat := 10000

  datatype Error =
    | InvalidCoefficient
    | AlreadyExists
    | NotFound
    | InvalidAmount
    | InsufficientPayment
    | InsufficientTradable
    | InsufficientBalance

  /** Every failing call reverts as a whole: it returns only its error. */
  datatype Result<T> = Ok(value: T) | Err(error: Error)

  datatype Event =
    | TokenCreated(tokenId: Address)
    | TokenTransferred(tokenId: Address, from: Address, to: Address, amount: nat)
    | TokenMinted(tokenId: Address, owner: Address, amount: nat)
    | TokenBurned(tokenId: Address, owner: Address, amount: nat)

  /** Per-token state. The total supply is the base supply plus the tradable
      supply, so it is derived rather than stored. */
  datatype Token = Token(coefficient: Coefficient, tradableSupply: nat, balances: map<Address, nat>)

  /** All tokens keyed by creator, the custody reserve, and the event log. */
  datatype Ledger = Ledger(tokens: map<Address, Token>, reserve: int, events: seq<Event>)

  function TotalSupply(t: Token): nat
  {
    BaseSupply + t.tradableSupply
  }

  /** The curve area a token's tradable supply stands for in the reserve. */
  function TokenArea(t: Token): nat
  {
    Area(t.coefficient, t.tradableSupply)
  }

  function Areas(tokens: map<Address, Token>): map<Address, nat>
  {
    map id | id in tokens :: TokenArea(tokens[id])
  }

  /** The ledger before any token exists. */
  function Empty(): Ledger
  {
    Ledger(map[], 0, [])
  }

  /** balanceOf: the stored balance, and 0 for an owner (or token) without an
      entry, so a query never fails. */
  function BalanceOf(l: Ledger, tokenId: Address, owner: Address): (r: nat)
    ensures tokenId !in l.tokens ==> r == 0
    ensures tokenId in l.tokens && owner !in l.tokens[tokenId].balances ==> r == 0
    ensures tokenId in l.tokens && owner in l.tokens[tokenId].balances ==> r == l.tokens[tokenId].balances[owner]
  {
    if tokenId in l.tokens then Lookup(l.tokens[tokenId].balances, owner) else 0
  }

  /** The balances of a token add up to its total supply. */
  ghost predicate ValidToken(t: Token)
  {
    Sum(t.balances) == TotalSupply(t)
  }

  /** The ledger invariants: every token's balances add up to its total supply,
      and the reserve holds exactly the curve area of every tradable supply.
      Coefficients are positive and even by their type, and a token map keyed
      by creator holds at most one token per creator. */
  ghost predicate Valid(l: Ledger)
  {
    && (forall id :: id in l.tokens ==> ValidToken(l.tokens[id]))
    && l.reserve == Sum(Areas(l.tokens))
  }

  /** `l'` has the same tokens as `l`, and all but those in `ids` are identical. */
  ghost predicate OthersUnchanged(l: Ledger, l': Ledger, ids: set<Address>)
  {
    && l'.tokens.Keys == l.tokens.Keys
    && forall id :: id in l.tokens && id !in ids ==> l'.tokens[id] == l.tokens[id]
  }

  /** Token `tokenId` moved by `delta` units: its tradable supply and `owner`'s
      balance both changed by `delta`, its coefficient and every other
      holder's balance did not. */
  ghost predicate Shifted(l: Ledger, l': Ledger, tokenId: Address, owner: Address, delta: int)
    requires tokenId in l.tokens && tokenId in l'.tokens
  {
    && l'.tokens[tokenId].coefficient == l.tokens[tokenId].coefficient
    && l'.tokens[tokenId].tradableSupply == l.tokens[tokenId].tradableSupply + delta
    && BalanceOf(l', tokenId, owner) == BalanceOf(l, tokenId, owner) + delta
    && forall o :: o != owner ==> BalanceOf(l', tokenId, o) == BalanceOf(l, tokenId, o)
  }

  /** Credit `n` units to `owner`. */
  function Credit(balances: map<Address, nat>, owner: Address, n: nat): (b: map<Address, nat>)
    ensures Lookup(b, owner) == Lookup(balances, owner) + n
    ensures forall o :: o != owner ==> Lookup(b, o) == Lookup(balances, o)
  {
    var v: nat := Lookup(balances, owner) + n;
    LookupUpdate(balances, owner, v);
    balances[owner := v]
  }

  /** Debit `n` units from `owner`, who holds at least that many. */
  function Debit(balances: map<Address, nat>, owner: Address, n: nat): (b: map<Address, nat>)
    requires n <= Lookup(balances, owner)
    ensures Lookup(b, owner) + n == Lookup(balances, owner)
    ensures forall o :: o != owner ==> Lookup(b, o) == Lookup(balances, o)
  {
    var v: nat := Lookup(balances, owner) - n;
    LookupUpdate(balances, owner, v);
    balances[owner := v]
  }

  /** A credit adds exactly `n` to the sum of all balances. */
  lemma CreditSum(balances: map<Address, nat>, owner: Address, n: nat)
    ensures Sum(Credit(balances, owner, n)) == Sum(balances) + n
  {
    var v := Lookup(balances, owner) + n;
    assert Credit(balances, owner, n) == balances[owner := v];
    SumUpdate(balances, owner, v);
  }

  /** A debit takes exactly `n` from the sum of all balances. */
  lemma DebitSum(balances: map<Address, nat>, owner: Address, n: nat)
    requires n <= Lookup(balances, owner)
    ensures Sum(Debit(balances, owner, n)) + n == Sum(balances)
  {
    var v := Lookup(balances, owner) - n;
    assert Debit(balances, owner, n) == balances[owner := v];
    SumUpdate(balances, owner, v);
  }

  /** The state change of minting `n` units of `tokenId` to `owner`: the
      reserve takes in the curve area between the old and the new supply. */
  function ApplyMint(l: Ledger, tokenId: Address, owner: Address, n: nat): (l': Ledger)
    requires tokenId in l.tokens
    ensures tokenId in l'.tokens
    ensures OthersUnchanged(l, l', {tokenId})
    ensures Shifted(l, l', tokenId, owner, n)
    ensures l'.reserve == l.reserve + MintCost(l.tokens[tokenId].coefficient, l.tokens[tokenId].tradableSupply, n)
    ensures l'.events == l.events + [TokenMinted(tokenId, owner, n)]
  {
    var t := l.tokens[tokenId];
    var cost := MintCost(t.coefficient, t.tradableSupply, n);
    var t' := t.(tradableSupply := t.tradableSupply + n, balances := Credit(t.balances, owner, n));
    Ledger(l.tokens[tokenId := t'], l.reserve + cost, l.events + [TokenMinted(tokenId, owner, n)])
  }

  /** The state change of burning `n` of `owner`'s units of `tokenId`: the
      reserve pays out the curve area between the old and the new supply. */
  function ApplyBurn(l: Ledger, tokenId: Address, owner: Address, n: nat): (l': Ledger)
    requires tokenId in l.tokens
    requires n <= l.tokens[tokenId].tradableSupply
    requires n <= BalanceOf(l, tokenId, owner)
    ensures tokenId in l'.tokens
    ensures OthersUnchanged(l, l', {tokenId})
    ensures Shifted(l, l', tokenId, owner, -(n as int))
    ensures l'.reserve == l.reserve - BurnRevenue(l.tokens[tokenId].coefficient, l.tokens[tokenId].tradableSupply, n)
    ensures l'.events == l.events + [TokenBurned(tokenId, owner, n)]
  {
    var t := l.tokens[tokenId];
    var revenue := BurnRevenue(t.coefficient, t.tradableSupply, n);
    var t' := t.(tradableSupply := t.tradableSupply - n, balances := Debit(t.balances, owner, n));
    Ledger(l.tokens[tokenId := t'], l.reserve - revenue, l.events + [TokenBurned(tokenId, owner, n)])
  }

  // ---------------------------------------------------------------------
  // The invariants survive every state change

  /** Replacing one token changes the summed areas by the difference of its areas. */
  lemma AreasUpdate(tokens: map<Address, Token>, id: Address, t: Token)
    ensures Sum(Areas(tokens[id := t])) + Lookup(Areas(tokens), id) == Sum(Areas(tokens)) + TokenArea(t)
  {
    assert Areas(tokens[id := t]) == Areas(tokens)[id := TokenArea(t)];
    SumUpdate(Areas(tokens), id, TokenArea(t));
  }

  /** The reserve always covers the area of any single token, so a burn's
      payout can always be made. */
  lemma ReserveCoversToken(l: Ledger, id: Address)
    requires Valid(l) && id in l.tokens
    ensures TokenArea(l.tokens[id]) <= l.reserve
  {
    SumBoundsEntry(Areas(l.tokens), id);
  }

  /** Under the invariants no holder owns more than the token's total supply. */
  lemma BalanceWithinSupply(l: Ledger, tokenId: Address, owner: Address)
    requires Valid(l) && tokenId in l.tokens
    ensures BalanceOf(l, tokenId, owner) <= TotalSupply(l.tokens[tokenId])
  {
    assert ValidToken(l.tokens[tokenId]);
    SumBoundsEntry(l.tokens[tokenId].balances, owner);
  }

  /** A freshly deployed ledger meets the invariants: the base case of every
      preservation lemma. */
  lemma EmptyValid()
    ensures Valid(Empty())
  {
  }

  /** A mint grows the token's curve area by exactly the mint cost. */
  lemma ApplyMintArea(l: Ledger, tokenId: Address, owner: Address, n: nat)
    requires tokenId in l.tokens
    ensures var t := l.tokens[tokenId];
      TokenArea(ApplyMint(l, tokenId, owner, n).tokens[tokenId])
      == TokenArea(t) + MintCost(t.coefficient, t.tradableSupply, n)
  {
  }

  /** A burn shrinks the token's curve area by exactly the burn revenue. */
  lemma ApplyBurnArea(l: Ledger, tokenId: Address, owner: Address, n: nat)
    requires tokenId in l.tokens
    requires n <= l.tokens[tokenId].tradableSupply
    requires n <= BalanceOf(l, tokenId, owner)
    ensures var t := l.tokens[tokenId];
      TokenArea(ApplyBurn(l, tokenId, owner, n).tokens[tokenId])
      + BurnRevenue(t.coefficient, t.tradableSupply, n) == TokenArea(t)
  {
  }

  /** After replacing token `id` by a token whose balances still add up to
      its total supply, every token's balances still add up. */
  lemma TokensStayValid(l: Ledger, l': Ledger, id: Address)
    requires Valid(l) && id in l.tokens && id in l'.tokens
    requires l'.tokens == l.tokens[id := l'.tokens[id]]
    requires ValidToken(l'.tokens[id])
    ensures forall k :: k in l'.tokens ==> ValidToken(l'.tokens[k])
  {
  }

  /** After replacing token `id`, the reserve matches the summed areas again
      exactly when it moved by the change in that token's area. */
  lemma ReserveStaysValid(l: Ledger, l': Ledger, id: Address)
    requires Valid(l) && id in l.tokens && id in l'.tokens
    requires l'.tokens == l.tokens[id := l'.tokens[id]]
    requires l'.reserve + TokenArea(l.tokens[id]) == l.reserve + TokenArea(l'.tokens[id])
    ensures l'.reserve == Sum(Areas(l'.tokens))
  {
    AreasUpdate(l.tokens, id, l'.tokens[id]);
  }

  lemma ApplyMintValid(l: Ledger, tokenId: Address, owner: Address, n: nat)
    requires tokenId in l.tokens
    requires Valid(l)
    ensures Valid(ApplyMint(l, tokenId, owner, n))
  {
    var l' := ApplyMint(l, tokenId, owner, n);
    assert ValidToken(l.tokens[tokenId]);
    CreditSum(l.tokens[tokenId].balances, owner, n);
    TokensStayValid(l, l', tokenId);
    ApplyMintArea(l, tokenId, owner, n);
    ReserveStaysValid(l, l', tokenId);
  }

  lemma ApplyBurnValid(l: Ledger, tokenId: Address, owner: Address, n: nat)
    requires tokenId in l.tokens
    requires n <= l.tokens[tokenId].tradableSupply
    requires n <= BalanceOf(l, tokenId, owner)
    requires Valid(l)
    ensures Valid(ApplyBurn(l, tokenId, owner, n))
  {
    var l' := ApplyBurn(l, tokenId, owner, n);
    assert ValidToken(l.tokens[tokenId]);
    DebitSum(l.tokens[tokenId].balances, owner, n);
    TokensStayValid(l, l', tokenId);
    ApplyBurnArea(l, tokenId, owner, n);
    ReserveStaysValid(l, l', tokenId);
  }
}
