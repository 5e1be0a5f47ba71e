/** Positions, trades, portfolios and netting sets, and a portfolio's lookup of trades by id. */
module Portfolios {
  import opened Wrappers
  import opened Enums
  import opened Instruments
  import Dict

  datatype Position = Position(positionId: string, instrument: Instrument)

  datatype Trade = Trade(tradeId: string, positionId: string, counterpartyId: string,
                         quantity: real, direction: LongShort)

  datatype Portfolio = Portfolio(portfolioId: string, trades: seq<Trade>)

  datatype NettingSet = NettingSet(nettingSetId: string, counterpartyId: string,
                                   tradeIds: set<string>)

  datatype TradeError = TradeNotFound(tradeId: string)

  /** The ids of all trades of the portfolio. */
  ghost function TradeIds(p: Portfolio): set<string> {
    set t | t in p.trades :: t.tradeId
  }

  /** The trades as (trade id, trade) pairs, in portfolio order. */
  function TradePairs(trades: seq<Trade>): seq<(string, Trade)> {
    seq(|trades|, i requires 0 <= i < |trades| => (trades[i].tradeId, trades[i]))
  }

  /**
   The trades keyed by id, inserted in portfolio order so that a later trade
   replaces an earlier one with the same id. A pure function of the trades, so
   every use agrees.
   */
  function TradeIndex(p: Portfolio): (index: map<string, Trade>)
    ensures index.Keys == TradeIds(p)
    ensures forall id :: id in index ==> index[id] in p.trades && index[id].tradeId == id
  {
    var pairs := TradePairs(p.trades);
    var index := Dict.FromPairs(pairs);
    assert index.Keys == TradeIds(p) by {
      forall id | id in index.Keys ensures id in TradeIds(p) {
        var i :| 0 <= i < |pairs| && pairs[i].0 == id;
        assert p.trades[i] in p.trades;
      }
      forall id | id in TradeIds(p) ensures id in index.Keys {
        var t :| t in p.trades && t.tradeId == id;
        var i :| 0 <= i < |p.trades| && p.trades[i] == t;
        assert pairs[i].0 == id;
      }
    }
    assert forall id :: id in index ==> index[id] in p.trades && index[id].tradeId == id by {
      forall id | id in index ensures index[id] in p.trades && index[id].tradeId == id {
        var i :| Dict.LastWithKey(pairs, i, id) && index[id] == pairs[i].1;
        assert 0 <= i < |pairs|;
        assert p.trades[i] in p.trades;
      }
    }
    index
  }

  /** When several trades share an id, the index holds the last of them. */
  lemma TradeIndexLastWins(p: Portfolio, i: int)
    requires 0 <= i < |p.trades|
    requires forall j :: i < j < |p.trades| ==> p.trades[j].tradeId != p.trades[i].tradeId
    ensures TradeIndex(p)[p.trades[i].tradeId] == p.trades[i]
  {
    var pairs := TradePairs(p.trades);
    assert Dict.LastWithKey(pairs, i, pairs[i].0);
    Dict.FromPairsLastWins(pairs, i);
  }

  /** Position `i` holds the last trade carrying `tradeId`. */
  ghost predicate LastWithId(p: Portfolio, i: int, tradeId: string) {
    Dict.LastWithKey(TradePairs(p.trades), i, tradeId)
  }

  /** The trade carrying the given id, or a not-found error naming that id. */
  function GetTrade(p: Portfolio, tradeId: string): (r: Result<Trade, TradeError>)
    ensures r.Success? <==> exists t :: t in p.trades && t.tradeId == tradeId
    ensures r.Success? ==> r.value in p.trades && r.value.tradeId == tradeId
    ensures r.Success? ==> exists i :: LastWithId(p, i, tradeId) && r.value == p.trades[i]
    ensures r.Failure? ==> r.error == TradeNotFound(tradeId)
  {
    var index := TradeIndex(p);
    if tradeId in index then
      var pairs := TradePairs(p.trades);
      assert exists i :: LastWithId(p, i, tradeId) && index[tradeId] == p.trades[i] by {
        var i :| Dict.LastWithKey(pairs, i, tradeId) && index[tradeId] == pairs[i].1;
        assert 0 <= i < |pairs|;
        assert LastWithId(p, i, tradeId);
      }
      Success(index[tradeId])
    else
      Failure(TradeNotFound(tradeId))
  }

  /** The portfolio's length: the number of trades. */
  function Length(p: Portfolio): nat {
    |p.trades|
  }

  /** No two trades of the portfolio share an id. */
  ghost predicate DistinctTradeIds(p: Portfolio) {
    Dict.DistinctKeys(TradePairs(p.trades))
  }

  /**
   The index never has more entries than the portfolio has trades, and has
   exactly as many iff no trade id repeats.
   */
  lemma LengthCountsIndexedTrades(p: Portfolio)
    ensures |TradeIndex(p)| <= Length(p)
    ensures |TradeIndex(p)| == Length(p) <==> DistinctTradeIds(p)
  {
    Dict.FromPairsSize(TradePairs(p.trades));
  }

  /** With distinct ids every trade is found under its own id. */
  lemma GetTradeFindsEachTrade(p: Portfolio, i: int)
    requires DistinctTradeIds(p)
    requires 0 <= i < |p.trades|
    ensures GetTrade(p, p.trades[i].tradeId) == Success(p.trades[i])
  {
    var pairs := TradePairs(p.trades);
    forall j | i < j < |p.trades| ensures p.trades[j].tradeId != p.trades[i].tradeId {
      assert pairs[i].0 != pairs[j].0;
    }
    TradeIndexLastWins(p, i);
  }
}
