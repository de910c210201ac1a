/**
 * The `DoubleAuction` mechanism: a session object holding the round
 * counter, the append-only trade log and the two books of waiting orders,
 * all updated in place by each round.
 */
module DoubleAuctionMechanism {
  import opened AuctionTypes
  import opened PriceSort
  import opened Matching
  import opened MarketSummaries
  import opened Observations

  /** The bids of a batch, in batch order. */
  function BidsIn(batch: seq<ValidAction>): (bids: seq<ValidAction>)
  {
    if batch == [] then []
    else (if batch[0].action.side == Bid then [batch[0]] else []) + BidsIn(batch[1..])
  }

  /** The asks of a batch, in batch order. */
  function AsksIn(batch: seq<ValidAction>): (asks: seq<ValidAction>)
  {
    if batch == [] then []
    else (if batch[0].action.side == Ask then [batch[0]] else []) + AsksIn(batch[1..])
  }

  /** A batch splits into its bids and its asks: each action of the batch
      lands in exactly one of the two books, nothing else is added. */
  lemma {:induction false} BatchSplits(batch: seq<ValidAction>)
    ensures multiset(BidsIn(batch)) + multiset(AsksIn(batch)) == multiset(batch)
  {
    if batch != [] {
      var o, rest := batch[0], batch[1..];
      BatchSplits(rest);
      assert batch == [o] + rest;
      if o.action.side == Bid {
        assert BidsIn(batch) == [o] + BidsIn(rest);
        assert AsksIn(batch) == AsksIn(rest);
      } else {
        assert BidsIn(batch) == BidsIn(rest);
        assert AsksIn(batch) == [o] + AsksIn(rest);
      }
    }
  }

  lemma {:induction false} BatchSides(batch: seq<ValidAction>)
    ensures AllOnSide(BidsIn(batch), Bid) && AllOnSide(AsksIn(batch), Ask)
  {
    if batch != [] {
      BatchSides(batch[1..]);
    }
  }

  lemma {:induction false} BidsInAppend(batch: seq<ValidAction>, o: ValidAction)
    ensures BidsIn(batch + [o]) == BidsIn(batch) + (if o.action.side == Bid then [o] else [])
    ensures AsksIn(batch + [o]) == AsksIn(batch) + (if o.action.side == Ask then [o] else [])
  {
    if batch != [] {
      BidsInAppend(batch[1..], o);
      assert (batch + [o])[1..] == batch[1..] + [o];
    }
  }

  /** The whole matching of one round: the book after ingestion, sorted,
      matched from the next trade id. */
  function RoundMatch(bids: seq<ValidAction>, asks: seq<ValidAction>, batch: seq<ValidAction>,
                      nextId: int, goodName: string): MatchResult
  {
    Match(Sort(bids + BidsIn(batch), true), Sort(asks + AsksIn(batch), false), nextId, goodName)
  }

  /** Sorting keeps every order on its own side. */
  lemma SortKeepsSide(s: seq<ValidAction>, descending: bool, side: Side)
    requires AllOnSide(s, side)
    ensures AllOnSide(Sort(s, descending), side)
  {
    var r := Sort(s, descending);
    forall i | 0 <= i < |r| ensures r[i].action.side == side {
      assert r[i] in multiset(s);
    }
  }

  /** A round leaves each book with orders of its own side only. */
  lemma RoundKeepsSides(bids: seq<ValidAction>, asks: seq<ValidAction>, batch: seq<ValidAction>,
                        nextId: int, goodName: string)
    requires AllOnSide(bids, Bid) && AllOnSide(asks, Ask)
    ensures var m := RoundMatch(bids, asks, batch, nextId, goodName);
            AllOnSide(m.bids, Bid) && AllOnSide(m.asks, Ask)
  {
    BatchSides(batch);
    SortKeepsSide(bids + BidsIn(batch), true, Bid);
    SortKeepsSide(asks + AsksIn(batch), false, Ask);
  }

  /** A round leaves nothing crossable: the books are sorted and every
      remaining bid is below every remaining ask. */
  lemma RoundLeavesNoCross(bids: seq<ValidAction>, asks: seq<ValidAction>, batch: seq<ValidAction>,
                           nextId: int, goodName: string)
    ensures var m := RoundMatch(bids, asks, batch, nextId, goodName);
            && Sorted(m.bids, true) && Sorted(m.asks, false)
            && forall i, j :: 0 <= i < |m.bids| && 0 <= j < |m.asks| ==> Price(m.bids[i]) < Price(m.asks[j])
  {
    SortIsSorted(bids + BidsIn(batch), true);
    SortIsSorted(asks + AsksIn(batch), false);
    MatchOnSortedBook(Sort(bids + BidsIn(batch), true), Sort(asks + AsksIn(batch), false), nextId, goodName);
  }

  /** A round conserves orders: at most one trade per order on either
      side, and the orders its trades consumed plus the orders left waiting
      are exactly the orders that were waiting plus the batch. */
  lemma RoundConserves(bids: seq<ValidAction>, asks: seq<ValidAction>, batch: seq<ValidAction>,
                       nextId: int, goodName: string)
    requires AllOnSide(bids, Bid) && AllOnSide(asks, Ask)
    ensures var m := RoundMatch(bids, asks, batch, nextId, goodName);
            && |m.trades| <= |bids| + |BidsIn(batch)| && |m.trades| <= |asks| + |AsksIn(batch)|
            && multiset(ConsumedBids(m.trades)) + multiset(m.bids) == multiset(bids) + multiset(BidsIn(batch))
            && multiset(ConsumedAsks(m.trades)) + multiset(m.asks) == multiset(asks) + multiset(AsksIn(batch))
  {
    var sb, sa := Sort(bids + BidsIn(batch), true), Sort(asks + AsksIn(batch), false);
    BatchSides(batch);
    SortKeepsSide(bids + BidsIn(batch), true, Bid);
    SortKeepsSide(asks + AsksIn(batch), false, Ask);
    assert |sb| == |multiset(sb)| == |bids + BidsIn(batch)|;
    assert |sa| == |multiset(sa)| == |asks + AsksIn(batch)|;
    MatchConserves(sb, sa, nextId, goodName);
  }

  /** The log's trade ids are its indexes and every trade is well formed. */
  ghost predicate LogValid(log: seq<Trade>, goodName: string)
  {
    forall i :: 0 <= i < |log| ==> log[i].tradeId == i && WellFormed(log[i], goodName)
  }

  /** Extending the log with a matching numbered from the log's length
      keeps the ids consecutive: earlier trades are unchanged, new ones
      continue the count. */
  lemma ExtendKeepsLogValid(log: seq<Trade>, bids: seq<ValidAction>, asks: seq<ValidAction>, goodName: string)
    requires LogValid(log, goodName)
    ensures LogValid(log + Match(bids, asks, |log|, goodName).trades, goodName)
  {
    var ts := Match(bids, asks, |log|, goodName).trades;
    MatchTrades(bids, asks, |log|, goodName);
    forall i | 0 <= i < |log + ts|
      ensures (log + ts)[i].tradeId == i && WellFormed((log + ts)[i], goodName)
    {
      if i >= |log| {
        assert (log + ts)[i] == ts[i - |log|];
      }
    }
  }

  /** The matching `m` continued after the trades `done` already made. */
  function After(done: seq<Trade>, m: MatchResult): MatchResult
  {
    MatchResult(done + m.trades, m.bids, m.asks)
  }

  /** One step of the matching loop: when the heads cross they trade,
      and the rest of the matching goes on from the next id. */
  lemma MatchAdvance(done: seq<Trade>, bids: seq<ValidAction>, asks: seq<ValidAction>, nextId: int, goodName: string)
    requires bids != [] && asks != [] && Price(bids[0]) >= Price(asks[0])
    ensures After(done, Match(bids, asks, nextId, goodName))
         == After(done + [MakeTrade(nextId, bids[0], asks[0], goodName)], Match(bids[1..], asks[1..], nextId + 1, goodName))
  {
    var t := MakeTrade(nextId, bids[0], asks[0], goodName);
    var rest := Match(bids[1..], asks[1..], nextId + 1, goodName);
    assert done + ([t] + rest.trades) == (done + [t]) + rest.trades;
  }

  /** The matching loop stops on an empty side or heads that do not
      cross, and then matching makes nothing more. */
  lemma MatchHalts(bids: seq<ValidAction>, asks: seq<ValidAction>, nextId: int, goodName: string)
    requires bids == [] || asks == [] || Price(bids[0]) < Price(asks[0])
    ensures Match(bids, asks, nextId, goodName) == MatchResult([], bids, asks)
  {
  }

  /** The matching loop of `_match_orders`: while both books are
      non-empty and the best bid reaches the best ask, the two heads trade
      at the midpoint and leave the book; trade ids count up from
      `firstId`. */
  method MatchLoop(bids: seq<ValidAction>, asks: seq<ValidAction>, firstId: int, goodName: string)
    returns (newTrades: seq<Trade>, restBids: seq<ValidAction>, restAsks: seq<ValidAction>)
    ensures MatchResult(newTrades, restBids, restAsks) == Match(bids, asks, firstId, goodName)
  {
    var tradeId := firstId;
    restBids, restAsks := bids, asks;
    ghost var whole := Match(bids, asks, firstId, goodName);
    newTrades := [];
    assert whole == After(newTrades, whole);
    while restBids != [] && restAsks != []
      invariant whole == After(newTrades, Match(restBids, restAsks, tradeId, goodName))
      decreases |restBids|
    {
      var bid, ask := restBids[0], restAsks[0];
      if Price(bid) >= Price(ask) {
        MatchAdvance(newTrades, restBids, restAsks, tradeId, goodName);
        var trade := MakeTrade(tradeId, bid, ask, goodName);
        newTrades := newTrades + [trade];
        tradeId := tradeId + 1;
        restBids := restBids[1..];
        restAsks := restAsks[1..];
      } else {
        MatchHalts(restBids, restAsks, tradeId, goodName);
        break;
      }
    }
    MatchHalts(restBids, restAsks, tradeId, goodName);
    assert After(newTrades, MatchResult([], restBids, restAsks)).trades == newTrades;
  }

  class DoubleAuction {
    const maxRounds: int
    const goodName: string
    var currentRound: int
    var trades: seq<Trade>
    var waitingBids: seq<ValidAction>
    var waitingAsks: seq<ValidAction>

    /** The session invariant: the log's trade ids are its indexes
        0..n-1, every logged trade is well formed, and each book holds
        orders of its own side. */
    ghost predicate Valid()
      reads this
    {
      && LogValid(trades, goodName)
      && AllOnSide(waitingBids, Bid)
      && AllOnSide(waitingAsks, Ask)
    }

    constructor (maxRounds: int, goodName: string)
      ensures Valid()
      ensures this.maxRounds == maxRounds && this.goodName == goodName
      ensures currentRound == 0 && trades == [] && waitingBids == [] && waitingAsks == []
    {
      this.maxRounds := maxRounds;
      this.goodName := goodName;
      currentRound := 0;
      trades := [];
      waitingBids := [];
      waitingAsks := [];
    }

    /** The field defaults: ten rounds of apples. */
    constructor Default()
      ensures Valid()
      ensures maxRounds == 10 && goodName == "apple"
      ensures currentRound == 0 && trades == [] && waitingBids == [] && waitingAsks == []
    {
      maxRounds := 10;
      goodName := "apple";
      currentRound := 0;
      trades := [];
      waitingBids := [];
      waitingAsks := [];
    }

    /** One round: count it, take in the batch, match, log the new trades,
        and report them with their summary, the per-agent observations,
        whether the session is over, and the round number. */
    method Step(batch: seq<ValidAction>) returns (step: AuctionStep)
      requires Valid()
      modifies this
      ensures Valid()
      ensures currentRound == old(currentRound) + 1
      ensures var m := RoundMatch(old(waitingBids), old(waitingAsks), batch, |old(trades)|, goodName);
              && trades == old(trades) + m.trades
              && waitingBids == m.bids && waitingAsks == m.asks
              && step.globalObservation.allTrades == m.trades
              && step.globalObservation.marketSummary == CreateMarketSummary(m.trades)
              && step.globalObservation.observations
                   == CreateObservations(m.trades, CreateMarketSummary(m.trades), m.bids, m.asks)
      ensures step.done == (currentRound >= maxRounds)
      ensures step.currentRound == currentRound
    {
      currentRound := currentRound + 1;
      UpdateWaitingOrders(batch);
      ghost var before := trades;
      RoundKeepsSides(old(waitingBids), old(waitingAsks), batch, |trades|, goodName);
      var newTrades := MatchOrders();
      ExtendKeepsLogValid(before, Sort(old(waitingBids) + BidsIn(batch), true),
                          Sort(old(waitingAsks) + AsksIn(batch), false), goodName);
      trades := trades + newTrades;
      var summary := CreateMarketSummary(newTrades);
      var observations := CreateObservations(newTrades, summary, waitingBids, waitingAsks);
      step := AuctionStep(AuctionGlobalObservation(observations, newTrades, summary),
                          currentRound >= maxRounds, currentRound);
    }

    /** Each bid of the batch joins the waiting bids and each ask the
        waiting asks, in batch order; nothing else changes. */
    method UpdateWaitingOrders(batch: seq<ValidAction>)
      requires Valid()
      modifies this
      ensures Valid()
      ensures waitingBids == old(waitingBids) + BidsIn(batch)
      ensures waitingAsks == old(waitingAsks) + AsksIn(batch)
      ensures trades == old(trades) && currentRound == old(currentRound)
    {
      for k := 0 to |batch|
        invariant Valid()
        invariant waitingBids == old(waitingBids) + BidsIn(batch[..k])
        invariant waitingAsks == old(waitingAsks) + AsksIn(batch[..k])
        invariant trades == old(trades) && currentRound == old(currentRound)
      {
        BidsInAppend(batch[..k], batch[k]);
        assert batch[..k + 1] == batch[..k] + [batch[k]];
        match batch[k].action.side
        case Bid => waitingBids := waitingBids + [batch[k]];
        case Ask => waitingAsks := waitingAsks + [batch[k]];
      }
      assert batch[..|batch|] == batch;
    }

    /** Sorts both books, then crosses their heads while the best bid
        reaches the best ask; the trades are numbered on from the log's
        length. */
    method MatchOrders() returns (newTrades: seq<Trade>)
      modifies this
      ensures var m := Match(Sort(old(waitingBids), true), Sort(old(waitingAsks), false), |trades|, goodName);
              newTrades == m.trades && waitingBids == m.bids && waitingAsks == m.asks
      ensures trades == old(trades) && currentRound == old(currentRound)
    {
      SortWaitingOrders();
      newTrades := CrossBooks();
    }

    /** The two in-place sorts: bids by price descending, asks ascending,
        ties in submission order. */
    method SortWaitingOrders()
      modifies this
      ensures waitingBids == Sort(old(waitingBids), true) && waitingAsks == Sort(old(waitingAsks), false)
      ensures trades == old(trades) && currentRound == old(currentRound)
    {
      waitingBids := Sort(waitingBids, true);
      waitingAsks := Sort(waitingAsks, false);
    }

    /** The matching loop: only the two heads are compared; a crossing pair
        becomes a trade at the midpoint and both heads are popped, the first
        pair that does not cross ends the loop. */
    method CrossBooks() returns (newTrades: seq<Trade>)
      modifies this
      ensures var m := Match(old(waitingBids), old(waitingAsks), |trades|, goodName);
              newTrades == m.trades && waitingBids == m.bids && waitingAsks == m.asks
      ensures trades == old(trades) && currentRound == old(currentRound)
    {
      newTrades, waitingBids, waitingAsks := MatchLoop(waitingBids, waitingAsks, |trades|, goodName);
    }

    /** The state snapshot; reading it changes nothing. */
    function GetGlobalState(): (g: AuctionState)
      reads this
      ensures g.currentRound == currentRound && g.trades == trades
      ensures g.waitingBids == waitingBids && g.waitingAsks == waitingAsks
    {
      AuctionState(currentRound, trades, waitingBids, waitingAsks)
    }

    /** Back to round 0 with an empty log and empty books, whatever the
        state before. */
    method Reset()
      modifies this
      ensures Valid()
      ensures currentRound == 0 && trades == [] && waitingBids == [] && waitingAsks == []
    {
      currentRound := 0;
      trades := [];
      waitingBids := [];
      waitingAsks := [];
    }
  }
}
