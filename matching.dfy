/**
 * `DoubleAuction._match_orders` as a function on the sorted book: only the
 * best bid and the best ask are ever compared; while the bid reaches the
 * ask they trade at the midpoint and both leave the book, at the first
 * pair that does not cross matching stops.
 */
module Matching {
  import opened AuctionTypes
  import opened PriceSort

  /** The trades formed and the bids and asks left waiting. */
  datatype MatchResult = MatchResult(trades: seq<Trade>, bids: seq<ValidAction>, asks: seq<ValidAction>)

  /** Matching from the heads of `bids` and `asks`, numbering trades from
      `nextId`. Each trade consumes one bid and one ask, so the book left
      is what follows the matched prefixes. */
  function Match(bids: seq<ValidAction>, asks: seq<ValidAction>, nextId: int, goodName: string): (m: MatchResult)
    ensures |m.trades| <= |bids| && |m.trades| <= |asks|
    ensures m.bids == bids[|m.trades|..] && m.asks == asks[|m.trades|..]
    decreases |bids|
  {
    if bids == [] || asks == [] || Price(bids[0]) < Price(asks[0]) then MatchResult([], bids, asks)
    else
      var rest := Match(bids[1..], asks[1..], nextId + 1, goodName);
      MatchResult([MakeTrade(nextId, bids[0], asks[0], goodName)] + rest.trades, rest.bids, rest.asks)
  }

  /** Trade `i` is made from the `i`-th bid and the `i`-th ask, with id
      `nextId + i`, and that bid reached that ask. */
  lemma {:induction false} MatchPairs(bids: seq<ValidAction>, asks: seq<ValidAction>, nextId: int, goodName: string)
    ensures var m := Match(bids, asks, nextId, goodName);
            forall i :: 0 <= i < |m.trades| ==>
              m.trades[i] == MakeTrade(nextId + i, bids[i], asks[i], goodName) && Price(bids[i]) >= Price(asks[i])
  {
    if bids == [] || asks == [] || Price(bids[0]) < Price(asks[0]) {
    } else {
      MatchPairs(bids[1..], asks[1..], nextId + 1, goodName);
      var m := Match(bids, asks, nextId, goodName);
      var rest := Match(bids[1..], asks[1..], nextId + 1, goodName);
      forall i | 0 <= i < |m.trades|
        ensures m.trades[i] == MakeTrade(nextId + i, bids[i], asks[i], goodName) && Price(bids[i]) >= Price(asks[i])
      {
        if i > 0 {
          assert m.trades[i] == rest.trades[i - 1];
          assert bids[i] == bids[1..][i - 1] && asks[i] == asks[1..][i - 1];
        }
      }
    }
  }

  /** A trade between a bid and an ask it reaches is well formed. */
  lemma CrossingTradeIsWellFormed(id: int, bid: ValidAction, ask: ValidAction, goodName: string)
    requires Price(bid) >= Price(ask)
    ensures WellFormed(MakeTrade(id, bid, ask, goodName), goodName)
  {
  }

  /** Trade `i` pairs the `i`-th bid with the `i`-th ask, has id
      `nextId + i`, and is well formed: the bid crossed the ask and the
      price is their midpoint. */
  lemma MatchTrades(bids: seq<ValidAction>, asks: seq<ValidAction>, nextId: int, goodName: string)
    ensures var m := Match(bids, asks, nextId, goodName);
            forall i :: 0 <= i < |m.trades| ==>
              && m.trades[i] == MakeTrade(nextId + i, bids[i], asks[i], goodName)
              && m.trades[i].tradeId == nextId + i
              && m.trades[i].buyerId == bids[i].agentId
              && m.trades[i].sellerId == asks[i].agentId
              && WellFormed(m.trades[i], goodName)
  {
    var m := Match(bids, asks, nextId, goodName);
    MatchPairs(bids, asks, nextId, goodName);
    forall i | 0 <= i < |m.trades|
      ensures WellFormed(m.trades[i], goodName)
    {
      CrossingTradeIsWellFormed(nextId + i, bids[i], asks[i], goodName);
    }
  }

  /** Matching never stops while the two heads cross. */
  lemma {:induction false} MatchLeavesNoCrossingHeads(bids: seq<ValidAction>, asks: seq<ValidAction>, nextId: int, goodName: string)
    ensures var m := Match(bids, asks, nextId, goodName);
            m.bids != [] && m.asks != [] ==> Price(m.bids[0]) < Price(m.asks[0])
  {
    if bids == [] || asks == [] || Price(bids[0]) < Price(asks[0]) {
    } else {
      MatchLeavesNoCrossingHeads(bids[1..], asks[1..], nextId + 1, goodName);
    }
  }

  /** The bid a trade consumed, rebuilt from the trade's record of it. */
  function BidOf(t: Trade): ValidAction
  {
    AuctionAction(t.buyerId, MarketAction(Bid, t.bidPrice, 1))
  }

  /** The ask a trade consumed, rebuilt from the trade's record of it. */
  function AskOf(t: Trade): ValidAction
  {
    AuctionAction(t.sellerId, MarketAction(Ask, t.askPrice, 1))
  }

  function ConsumedBids(ts: seq<Trade>): (r: seq<ValidAction>)
    ensures |r| == |ts| && forall i :: 0 <= i < |ts| ==> r[i] == BidOf(ts[i])
  {
    seq(|ts|, i requires 0 <= i < |ts| => BidOf(ts[i]))
  }

  function ConsumedAsks(ts: seq<Trade>): (r: seq<ValidAction>)
    ensures |r| == |ts| && forall i :: 0 <= i < |ts| ==> r[i] == AskOf(ts[i])
  {
    seq(|ts|, i requires 0 <= i < |ts| => AskOf(ts[i]))
  }

  ghost predicate AllOnSide(s: seq<ValidAction>, side: Side)
  {
    forall i :: 0 <= i < |s| ==> s[i].action.side == side
  }

  lemma TradeRecordsItsOrders(id: int, bid: ValidAction, ask: ValidAction, goodName: string)
    requires bid.action.side == Bid && ask.action.side == Ask
    ensures BidOf(MakeTrade(id, bid, ask, goodName)) == bid
    ensures AskOf(MakeTrade(id, bid, ask, goodName)) == ask
  {
    assert bid.action == MarketAction(Bid, Price(bid), 1);
    assert ask.action == MarketAction(Ask, Price(ask), 1);
  }

  /** Conservation: every order is either still waiting or recorded in
      exactly one trade; as multisets, the orders the trades consumed plus
      the orders left are the orders matched. */
  lemma MatchConserves(bids: seq<ValidAction>, asks: seq<ValidAction>, nextId: int, goodName: string)
    requires AllOnSide(bids, Bid) && AllOnSide(asks, Ask)
    ensures var m := Match(bids, asks, nextId, goodName);
            && multiset(ConsumedBids(m.trades)) + multiset(m.bids) == multiset(bids)
            && multiset(ConsumedAsks(m.trades)) + multiset(m.asks) == multiset(asks)
  {
    var m := Match(bids, asks, nextId, goodName);
    var k := |m.trades|;
    ConsumedArePrefixes(bids, asks, nextId, goodName);
    SplitMultiset(bids, k);
    SplitMultiset(asks, k);
  }

  /** The orders the trades record are the matched prefixes of the
      book. */
  lemma ConsumedArePrefixes(bids: seq<ValidAction>, asks: seq<ValidAction>, nextId: int, goodName: string)
    requires AllOnSide(bids, Bid) && AllOnSide(asks, Ask)
    ensures var m := Match(bids, asks, nextId, goodName);
            ConsumedBids(m.trades) == bids[..|m.trades|] && ConsumedAsks(m.trades) == asks[..|m.trades|]
  {
    var m := Match(bids, asks, nextId, goodName);
    var k := |m.trades|;
    MatchPairs(bids, asks, nextId, goodName);
    forall i | 0 <= i < k
      ensures ConsumedBids(m.trades)[i] == bids[i] && ConsumedAsks(m.trades)[i] == asks[i]
    {
      TradeRecordsItsOrders(nextId + i, bids[i], asks[i], goodName);
    }
  }

  lemma SplitMultiset(s: seq<ValidAction>, k: nat)
    requires k <= |s|
    ensures multiset(s[..k]) + multiset(s[k..]) == multiset(s)
  {
    assert s == s[..k] + s[k..];
  }

  /** On a sorted book nothing crossable is left: the book stays sorted and
      every remaining bid is below every remaining ask. */
  lemma MatchOnSortedBook(bids: seq<ValidAction>, asks: seq<ValidAction>, nextId: int, goodName: string)
    requires Sorted(bids, true) && Sorted(asks, false)
    ensures var m := Match(bids, asks, nextId, goodName);
            && Sorted(m.bids, true) && Sorted(m.asks, false)
            && forall i, j :: 0 <= i < |m.bids| && 0 <= j < |m.asks| ==> Price(m.bids[i]) < Price(m.asks[j])
  {
    var m := Match(bids, asks, nextId, goodName);
    var k := |m.trades|;
    SortedSuffix(bids, k, true);
    SortedSuffix(asks, k, false);
    MatchLeavesNoCrossingHeads(bids, asks, nextId, goodName);
    if m.bids != [] && m.asks != [] {
      HeadIsBest(m.bids, true);
      HeadIsBest(m.asks, false);
    }
  }

  /** A suffix of a sorted book is sorted. */
  lemma SortedSuffix(s: seq<ValidAction>, k: nat, descending: bool)
    requires Sorted(s, descending) && k <= |s|
    ensures Sorted(s[k..], descending)
  {
    forall i, j | 0 <= i < j < |s| - k
      ensures Key(s[k..][i], descending) <= Key(s[k..][j], descending)
    {
      assert s[k..][i] == s[k + i] && s[k..][j] == s[k + j];
    }
  }

  /** The head of a sorted book has the best price: the highest bid, the
      lowest ask. */
  lemma HeadIsBest(s: seq<ValidAction>, descending: bool)
    requires Sorted(s, descending) && s != []
    ensures forall i :: 0 <= i < |s| ==> if descending then Price(s[i]) <= Price(s[0]) else Price(s[0]) <= Price(s[i])
  {
    forall i | 0 < i < |s|
      ensures Key(s[0], descending) <= Key(s[i], descending)
    {
    }
  }
}
