/**
 * `DoubleAuction._create_market_summary`: count, mean, volume and price
 * range of one round's trades, with exact (`real`) arithmetic.
 */
module MarketSummaries {
  import opened AuctionTypes

  function Prices(ts: seq<Trade>): (ps: seq<real>)
    ensures |ps| == |ts| && forall i :: 0 <= i < |ts| ==> ps[i] == ts[i].price
  {
    seq(|ts|, i requires 0 <= i < |ts| => ts[i].price)
  }

  function Sum(xs: seq<real>): (total: real)
  {
    if xs == [] then 0.0 else xs[0] + Sum(xs[1..])
  }

  /** Python's `min` of a non-empty list: an element no greater than any. */
  function Min(xs: seq<real>): (m: real)
    requires xs != []
    ensures m in xs && forall i :: 0 <= i < |xs| ==> m <= xs[i]
  {
    if |xs| == 1 then xs[0]
    else
      var rest := Min(xs[1..]);
      assert forall i :: 1 <= i < |xs| ==> xs[i] == xs[1..][i - 1];
      if xs[0] <= rest then xs[0] else rest
  }

  /** Python's `max` of a non-empty list: an element no smaller than any. */
  function Max(xs: seq<real>): (m: real)
    requires xs != []
    ensures m in xs && forall i :: 0 <= i < |xs| ==> xs[i] <= m
  {
    if |xs| == 1 then xs[0]
    else
      var rest := Max(xs[1..]);
      assert forall i :: 1 <= i < |xs| ==> xs[i] == xs[1..][i - 1];
      if xs[0] >= rest then xs[0] else rest
  }

  /** A sum of `n` terms each between `lo` and `hi` lies between `n * lo`
      and `n * hi`. */
  lemma {:induction false} SumBetween(xs: seq<real>, lo: real, hi: real)
    requires forall i :: 0 <= i < |xs| ==> lo <= xs[i] <= hi
    ensures |xs| as real * lo <= Sum(xs) <= |xs| as real * hi
  {
    if xs != [] {
      SumBetween(xs[1..], lo, hi);
      assert |xs[1..]| as real * lo + lo == |xs| as real * lo;
      assert |xs[1..]| as real * hi + hi == |xs| as real * hi;
    }
  }

  lemma DivideBounds(total: real, n: real, lo: real, hi: real)
    requires n > 0.0 && n * lo <= total <= n * hi
    ensures lo <= total / n <= hi
  {
    var q := total / n;
    assert total == n * q;
    assert n * lo <= n * q && n * q <= n * hi;
  }

  /** The mean of values that all lie between `lo` and `hi` lies between
      them too. */
  lemma MeanBetween(xs: seq<real>, lo: real, hi: real)
    requires xs != []
    requires forall i :: 0 <= i < |xs| ==> lo <= xs[i] <= hi
    ensures lo <= Sum(xs) / |xs| as real <= hi
  {
    SumBetween(xs, lo, hi);
    DivideBounds(Sum(xs), |xs| as real, lo, hi);
  }

  /** The round's summary: all defaults when nothing traded; otherwise the
      count and the volume are the number of trades (one unit each), and
      the average lies in the price range, whose ends are the lowest and the
      highest trade price. */
  function CreateMarketSummary(trades: seq<Trade>): (s: MarketSummary)
    ensures trades == [] ==> s == EmptySummary
    ensures trades != [] ==>
              && s.tradesCount == |trades| && s.totalVolume == |trades|
              && s.averagePrice == Sum(Prices(trades)) / |trades| as real
              && s.priceRange.0 <= s.averagePrice <= s.priceRange.1
              && (exists i :: 0 <= i < |trades| && trades[i].price == s.priceRange.0)
              && (exists i :: 0 <= i < |trades| && trades[i].price == s.priceRange.1)
              && (forall i :: 0 <= i < |trades| ==> s.priceRange.0 <= trades[i].price <= s.priceRange.1)
  {
    if trades == [] then EmptySummary
    else
      var prices := Prices(trades);
      MeanBetween(prices, Min(prices), Max(prices));
      MarketSummary(|trades|, Sum(prices) / |prices| as real, |trades|, (Min(prices), Max(prices)))
  }
}
