/**
 * The values the double auction works on: single-unit bids and asks, the
 * agent actions that carry them, trades, the per-round market summary and
 * the observations handed to agents.
 */
module AuctionTypes {
  import opened Wrappers

  /** Which of the two order classes (`Bid`, `Ask`) an action is. */
  datatype Side = Bid | Ask

  /** A `Bid` or an `Ask`: the fields the mechanism reads. */
  datatype MarketAction = MarketAction(side: Side, price: real, quantity: int)

  /** `AuctionAction`: an agent and the order it submits. */
  datatype AuctionAction = AuctionAction(agentId: string, action: MarketAction)

  /** An `AuctionAction` that its field validator accepted: only these exist. */
  type ValidAction = a: AuctionAction | a.action.quantity == 1
    witness AuctionAction("", MarketAction(Bid, 0.0, 1))

  /** Building an `AuctionAction`: the quantity validator rejects every
      quantity other than 1 with "Quantity must be 1" and accepts the rest
      unchanged. */
  function NewAuctionAction(agentId: string, action: MarketAction): (r: Result<ValidAction, string>)
    ensures r.Success? <==> action.quantity == 1
    ensures r.Success? ==> r.value == AuctionAction(agentId, action)
    ensures r.Failure? ==> r.error == "Quantity must be 1"
  {
    if action.quantity != 1 then Failure("Quantity must be 1")
    else Success(AuctionAction(agentId, action))
  }

  function Price(o: ValidAction): (p: real) { o.action.price }

  datatype Trade = Trade(
    tradeId: int,
    buyerId: string,
    sellerId: string,
    price: real,
    quantity: int,
    goodName: string,
    bidPrice: real,
    askPrice: real)

  /** The trade formed from a crossing pair: midpoint price, one unit. */
  function MakeTrade(tradeId: int, bid: ValidAction, ask: ValidAction, goodName: string): (t: Trade)
  {
    Trade(tradeId, bid.agentId, ask.agentId, (Price(bid) + Price(ask)) / 2.0, 1,
          goodName, Price(bid), Price(ask))
  }

  /** What every trade of the log satisfies: the bid crossed the ask, the
      price is their midpoint, one unit of the session's good. */
  ghost predicate WellFormed(t: Trade, goodName: string)
  {
    && t.bidPrice >= t.askPrice
    && t.price == (t.bidPrice + t.askPrice) / 2.0
    && t.quantity == 1
    && t.goodName == goodName
  }

  /** The price of a well-formed trade lies between the ask and the bid. */
  lemma PriceBetween(t: Trade, goodName: string)
    requires WellFormed(t, goodName)
    ensures t.askPrice <= t.price <= t.bidPrice
  {
  }

  datatype MarketSummary = MarketSummary(
    tradesCount: int,
    averagePrice: real,
    totalVolume: int,
    priceRange: (real, real))

  /** The summary of a round without trades: every field at its default. */
  const EmptySummary := MarketSummary(0, 0.0, 0, (0.0, 0.0))

  datatype AuctionObservation = AuctionObservation(
    trades: seq<Trade>,
    marketSummary: MarketSummary,
    waitingOrders: seq<MarketAction>)

  datatype AuctionLocalObservation = AuctionLocalObservation(agentId: string, observation: AuctionObservation)

  datatype AuctionGlobalObservation = AuctionGlobalObservation(
    observations: map<string, AuctionLocalObservation>,
    allTrades: seq<Trade>,
    marketSummary: MarketSummary)

  /** The `EnvironmentStep` a round returns; `currentRound` is its `info`. */
  datatype AuctionStep = AuctionStep(
    globalObservation: AuctionGlobalObservation,
    done: bool,
    currentRound: int)

  /** The snapshot `get_global_state` returns. */
  datatype AuctionState = AuctionState(
    currentRound: int,
    trades: seq<Trade>,
    waitingBids: seq<ValidAction>,
    waitingAsks: seq<ValidAction>)
}
