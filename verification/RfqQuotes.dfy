/** The order a quoter signs for a request for quote, in base units of a millionth
    (src/polymarket/_internal/rfq.py). */
module RfqQuotes {
  import opened Numerals

  const E6: nat := 1_000_000

  datatype Direction = RequesterBuys | RequesterSells

  datatype Source = Collateral | Inventory

  datatype Token = Yes | No

  datatype Side = Buy | Sell

  /** A buy gives `makerAmount` of collateral for `takerAmount` tokens; a sell gives
      `makerAmount` tokens for `takerAmount` of collateral. */
  datatype Order = Order(token: Token, side: Side, makerAmount: int, takerAmount: int)

  datatype Unit = Shares | Notional

  function QuoteOrderToken(direction: Direction, source: Source): Token {
    match (direction, source)
    case (RequesterBuys, Collateral) => No
    case (RequesterBuys, Inventory) => Yes
    case (RequesterSells, Collateral) => Yes
    case (RequesterSells, Inventory) => No
  }

  function QuoteOrderPrice(direction: Direction, source: Source, price: int): int {
    var usesComplement := (direction.RequesterBuys? && source.Collateral?) || (direction.RequesterSells? && source.Inventory?);
    if usesComplement then E6 - price else price
  }

  function QuoteOrderSide(source: Source): Side {
    if source.Collateral? then Buy else Sell
  }

  // Amounts are never negative here, so the divisions round as Python's do.

  function MakerAmount(side: Side, price: nat, size: nat): nat {
    if side.Sell? then size else (price * size + E6 - 1) / E6
  }

  function TakerAmount(side: Side, price: nat, size: nat): nat {
    if side.Sell? then price * size / E6 else size
  }

  function QuoteOrder(direction: Direction, source: Source, price: nat, size: nat): Order
    requires 0 < price < E6
  {
    var orderPrice := QuoteOrderPrice(direction, source, price);
    var side := QuoteOrderSide(source);
    Order(QuoteOrderToken(direction, source), side, MakerAmount(side, orderPrice, size), TakerAmount(side, orderPrice, size))
  }

  function DefaultQuoteSize(unit: Unit, value: nat, price: nat): nat
    requires price > 0
  {
    if unit.Shares? then value else value * E6 / price
  }

  // What an order is worth to its maker once the market resolves: a winning token pays
  // one unit of collateral.

  predicate Wins(token: Token, yesWins: bool) {
    token.Yes? == yesWins
  }

  function WealthChange(order: Order, yesWins: bool): int {
    match order.side
    case Buy => (if Wins(order.token, yesWins) then order.takerAmount else 0) - order.makerAmount
    case Sell => order.takerAmount - (if Wins(order.token, yesWins) then order.makerAmount else 0)
  }

  /** The same trade without rounding, in millionths of a base unit: the maker is on the
      other side of the requester's YES trade. */
  function ExactWealthChange(direction: Direction, price: nat, size: nat, yesWins: bool): int {
    match direction
    case RequesterBuys => price * size - (if yesWins then E6 * size else 0)
    case RequesterSells => (if yesWins then E6 * size else 0) - price * size
  }

  /** Rounding the cost of one side up is rounding the proceeds of the other down. */
  lemma CostPlusProceeds(price: nat, size: nat)
    requires price <= E6
    ensures MakerAmount(Buy, E6 - price, size) + TakerAmount(Sell, price, size) == size
  {
    var q, r := price * size / E6, price * size % E6;
    assert (E6 - price) * size == E6 * size - price * size;
    assert (E6 - price) * size + E6 - 1 == E6 * (size - q) + (E6 - 1 - r);
    DivOfMultiple(size - q, E6 - 1 - r);
  }

  lemma DivOfMultiple(q: int, r: int)
    requires 0 <= r < E6
    ensures (E6 * q + r) / E6 == q
  {}

  /** Quoting from collateral and from inventory are financially the same order. */
  lemma SourcesAreEquivalent(direction: Direction, price: nat, size: nat, yesWins: bool)
    requires 0 < price < E6
    ensures WealthChange(QuoteOrder(direction, Collateral, price, size), yesWins) ==
            WealthChange(QuoteOrder(direction, Inventory, price, size), yesWins)
  {
    CostPlusProceeds(price, size);
    CostPlusProceeds(E6 - price, size);
    assert E6 - (E6 - price) == price;
  }

  /** What the maker holds, or gains and loses in a fill. */
  datatype Balances = Balances(collateral: int, yes: int, no: int)

  /** The change a fill makes to the maker's balances before the market resolves. */
  function Fill(order: Order): Balances {
    match (order.side, order.token)
    case (Buy, Yes) => Balances(-order.makerAmount, order.takerAmount, 0)
    case (Buy, No) => Balances(-order.makerAmount, 0, order.takerAmount)
    case (Sell, Yes) => Balances(order.takerAmount, -order.makerAmount, 0)
    case (Sell, No) => Balances(order.takerAmount, 0, -order.makerAmount)
  }

  /** A quote from collateral needs no tokens: it buys `size` of the side opposite to what
      the requester takes on, and pays for it in collateral alone. */
  lemma CollateralQuoteNeedsNoTokens(direction: Direction, price: nat, size: nat)
    requires 0 < price < E6
    ensures var change := Fill(QuoteOrder(direction, Collateral, price, size));
            && change.collateral <= 0
            && change.yes == (if direction == RequesterBuys then 0 else size)
            && change.no == (if direction == RequesterBuys then size else 0)
  {}

  /** A quote from inventory needs no collateral: exactly `size` of the token that the
      direction calls for leaves, and collateral only comes in. */
  lemma InventoryQuoteNeedsNoCollateral(direction: Direction, price: nat, size: nat)
    requires 0 < price < E6
    ensures var change := Fill(QuoteOrder(direction, Inventory, price, size));
            && change.collateral >= 0
            && change.yes == (if direction == RequesterBuys then 0 - size else 0)
            && change.no == (if direction == RequesterBuys then 0 else 0 - size)
  {}

  /** A winning token pays one unit: that is what the change in wealth counts. */
  lemma WealthIsResolvedBalance(order: Order, yesWins: bool)
    ensures WealthChange(order, yesWins) == Fill(order).collateral + if yesWins then Fill(order).yes else Fill(order).no
  {}

  lemma RoundsUp(x: nat)
    ensures x <= E6 * ((x + E6 - 1) / E6) < x + E6
  {}

  lemma RoundsDown(x: nat)
    ensures x - E6 < E6 * (x / E6) <= x
  {}

  /** Whatever the source and outcome, rounding favours the counterparty by less than one
      base unit. */
  lemma RoundingFavoursCounterparty(direction: Direction, source: Source, price: nat, size: nat, yesWins: bool)
    requires 0 < price < E6
    ensures var exact := ExactWealthChange(direction, price, size, yesWins);
            exact - E6 < E6 * WealthChange(QuoteOrder(direction, source, price, size), yesWins) <= exact
  {
    var p := QuoteOrderPrice(direction, source, price);
    RoundsUp(p * size);
    RoundsDown(p * size);
    assert (E6 - price) * size == E6 * size - price * size;
  }

  /** For a notional request, the largest size whose rounded-up cost stays within it. */
  lemma DefaultSizeIsLargestAffordable(value: nat, price: nat, size: nat)
    requires 0 < price
    ensures MakerAmount(Buy, price, size) <= value <==> size <= DefaultQuoteSize(Notional, value, price)
  {
    var cost, most := price * size, value * E6 / price;
    RoundsUp(cost);
    assert MakerAmount(Buy, price, size) <= value <==> cost <= E6 * value;
    var rest := value * E6 % price;
    assert value * E6 == price * most + rest;
    if size <= most {
      MulMonotone(price, size, most);
    } else {
      MulMonotone(price, most + 1, size);
      assert price * (most + 1) == price * most + price;
    }
  }

  /** A request in shares is quoted the size it asks for, whatever the price. */
  lemma ShareRequestKeepsItsSize(value: nat, price: nat)
    requires price > 0
    ensures DefaultQuoteSize(Shares, value, price) == value
  {}

  /** It is never below the notional itself, so a positive request is quoted a positive size. */
  lemma DefaultSizeCoversNotional(value: nat, price: nat)
    requires 0 < price < E6
    ensures DefaultQuoteSize(Notional, value, price) >= value
  {
    MulMonotone(value, price, E6);
    RoundsUp(price * value);
    assert price * value <= E6 * value;
    DefaultSizeIsLargestAffordable(value, price, value);
  }
}
