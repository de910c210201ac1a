/**
 * `DoubleAuction._create_observations`: the private view of a round that
 * each agent gets, made of the trades it was party to, the round's market
 * summary and its own orders still waiting.
 */
module Observations {
  import opened AuctionTypes

  predicate Involves(t: Trade, agentId: string)
  {
    t.buyerId == agentId || t.sellerId == agentId
  }

  /** The trades in which the agent is buyer or seller, in the order they
      were made. */
  function TradesOf(ts: seq<Trade>, agentId: string): (r: seq<Trade>)
  {
    if ts == [] then []
    else (if Involves(ts[0], agentId) then [ts[0]] else []) + TradesOf(ts[1..], agentId)
  }

  /** The actions of the agent's own orders, in book order. */
  function OrdersOf(orders: seq<ValidAction>, agentId: string): (r: seq<MarketAction>)
  {
    if orders == [] then []
    else (if orders[0].agentId == agentId then [orders[0].action] else []) + OrdersOf(orders[1..], agentId)
  }

  /** Buyers and sellers of the round's trades. */
  function Participants(ts: seq<Trade>): set<string>
  {
    (set t | t in ts :: t.buyerId) + (set t | t in ts :: t.sellerId)
  }

  /** Agents with a bid or an ask still waiting. */
  function WaitingAgents(bids: seq<ValidAction>, asks: seq<ValidAction>): set<string>
  {
    (set o | o in bids :: o.agentId) + (set o | o in asks :: o.agentId)
  }

  /** One observation per agent that traded this round or still has an
      order waiting, each naming its agent and carrying the round's
      summary. */
  function CreateObservations(newTrades: seq<Trade>, summary: MarketSummary,
                              bids: seq<ValidAction>, asks: seq<ValidAction>): (obs: map<string, AuctionLocalObservation>)
    ensures obs.Keys == Participants(newTrades) + WaitingAgents(bids, asks)
    ensures forall a :: a in obs ==> obs[a].agentId == a && obs[a].observation.marketSummary == summary
  {
    map a | a in Participants(newTrades) + WaitingAgents(bids, asks) ::
      AuctionLocalObservation(a, AuctionObservation(TradesOf(newTrades, a), summary, OrdersOf(bids, a) + OrdersOf(asks, a)))
  }

  /** An agent's trades are exactly the round's trades it took part in,
      and there are no more of them than the round's trades. */
  lemma {:induction false} TradesOfExact(ts: seq<Trade>, agentId: string)
    ensures forall t :: t in TradesOf(ts, agentId) <==> t in ts && Involves(t, agentId)
    ensures |TradesOf(ts, agentId)| <= |ts|
  {
    if ts != [] {
      TradesOfExact(ts[1..], agentId);
      assert forall t :: t in ts <==> t == ts[0] || t in ts[1..];
    }
  }

  /** An agent's waiting orders are exactly the actions of its orders. */
  lemma {:induction false} OrdersOfExact(orders: seq<ValidAction>, agentId: string)
    ensures forall a :: a in OrdersOf(orders, agentId) <==> exists o :: o in orders && o.agentId == agentId && o.action == a
  {
    if orders != [] {
      OrdersOfExact(orders[1..], agentId);
      assert forall o :: o in orders <==> o == orders[0] || o in orders[1..];
    }
  }

  /** Who gets an observation, and what it holds: an agent is observed iff
      it bought or sold this round or still has an order waiting; it sees
      the round's trades it took part in and nothing else, the actions of
      its own waiting bids followed by those of its own waiting asks, and
      the round's summary unchanged. */
  lemma ObservationsExact(newTrades: seq<Trade>, summary: MarketSummary,
                          bids: seq<ValidAction>, asks: seq<ValidAction>, agentId: string)
    ensures var obs := CreateObservations(newTrades, summary, bids, asks);
            && (agentId in obs <==>
                  (exists t :: t in newTrades && Involves(t, agentId))
                  || (exists o :: o in bids && o.agentId == agentId)
                  || (exists o :: o in asks && o.agentId == agentId))
            && (agentId in obs ==>
                  && obs[agentId].agentId == agentId
                  && obs[agentId].observation.marketSummary == summary
                  && (forall t :: t in obs[agentId].observation.trades <==> t in newTrades && Involves(t, agentId))
                  && obs[agentId].observation.waitingOrders == OrdersOf(bids, agentId) + OrdersOf(asks, agentId))
  {
    var obs := CreateObservations(newTrades, summary, bids, asks);
    TradesOfExact(newTrades, agentId);
    if exists t :: t in newTrades && Involves(t, agentId) {
      var t :| t in newTrades && Involves(t, agentId);
      assert agentId in Participants(newTrades);
    }
  }

  /** No observation is empty: every observed agent traded this round or
      has an order waiting, and its observation shows it. */
  lemma NoEmptyObservation(newTrades: seq<Trade>, summary: MarketSummary,
                           bids: seq<ValidAction>, asks: seq<ValidAction>, agentId: string)
    requires agentId in CreateObservations(newTrades, summary, bids, asks)
    ensures var o := CreateObservations(newTrades, summary, bids, asks)[agentId].observation;
            o.trades != [] || o.waitingOrders != []
  {
    var o := CreateObservations(newTrades, summary, bids, asks)[agentId].observation;
    TradesOfExact(newTrades, agentId);
    OrdersOfExact(bids, agentId);
    OrdersOfExact(asks, agentId);
    if agentId in Participants(newTrades) {
      var t :| t in newTrades && Involves(t, agentId);
      assert t in o.trades;
    } else if agentId in (set b | b in bids :: b.agentId) {
      var b :| b in bids && b.agentId == agentId;
      assert b.action in OrdersOf(bids, agentId);
    } else {
      var a :| a in asks && a.agentId == agentId;
      assert a.action in OrdersOf(asks, agentId);
    }
  }

  /** Each trade shows up in the observations of both of its parties. */
  lemma BothPartiesSeeTrade(newTrades: seq<Trade>, summary: MarketSummary,
                            bids: seq<ValidAction>, asks: seq<ValidAction>, t: Trade)
    requires t in newTrades
    ensures var obs := CreateObservations(newTrades, summary, bids, asks);
            && t.buyerId in obs && t in obs[t.buyerId].observation.trades
            && t.sellerId in obs && t in obs[t.sellerId].observation.trades
  {
    TradesOfExact(newTrades, t.buyerId);
    TradesOfExact(newTrades, t.sellerId);
  }
}
