/** The page's market simulation as a whole (app.js): start-up, the once-a-second
    tick that walks the price, and the submission of a user order. The state that
    the page keeps in closures and in the DOM is gathered into one record. */
module Simulation {
  import opened Common
  import opened Candles
  import opened OrderBook
  import opened TradeTape
  import opened Wallet
  import opened Sizing

  /** Everything the simulation keeps between events. */
  datatype Market = Market(
    price: real,          // currentPrice
    live: Option<Candle>, // currentCandle
    book: Book,           // the rendered order book
    tape: seq<Row>,       // the trade-history rows, newest first
    wallet: Wallet,
    baseline: real)       // WALLET.initialBalance

  /** What every reachable state satisfies: a well-formed live candle closing at
      the current price, an uncrossed book of eight levels a side, a tape within
      capacity and a solvent wallet. */
  ghost predicate Inv(m: Market) {
    && m.live.Some? && WellFormed(m.live.value) && m.live.value.close == m.price
    && |m.book.asks| == Depth && |m.book.bids| == Depth
    && NotCrossed(m.book) && Descending(m.book.asks) && Descending(m.book.bids)
    && |m.tape| <= Capacity
    && Solvent(m.wallet)
  }

  /** The PnL that updateWalletUI shows for the state. */
  function Report(m: Market): Pnl {
    ComputePnl(m.wallet, m.baseline, m.price)
  }

  /** Start-up in the order the page runs it: the baseline is taken from the
      initial wallet at CONFIG.initialPrice, then generateInitialData moves the
      current price to the last seed close, then the book is rendered. The first
      PnL shown is therefore the BTC balance times the seed walk's drift, not zero. */
  method Boot(nowMs: int, seed: seq<MinuteDraws>, askDraws: seq<LevelDraws>, bidDraws: seq<LevelDraws>)
    returns (m: Market, chart: seq<Candle>, volume: seq<VolumeBar>)
    requires |seed| == MinutesPerDay
    requires forall i :: 0 <= i < |seed| ==> ValidDraws(seed[i])
    requires ValidLevelDraws(askDraws) && ValidLevelDraws(bidDraws)
    ensures Inv(m)
    ensures m.wallet == InitialWallet && m.tape == []
    ensures m.baseline == Equity(InitialWallet, InitialPrice)
    ensures |chart| == PushedCandles && m.price == chart[|chart| - 1].close
    ensures forall k :: 0 <= k < |chart| ==> IsSeedCandle(seed, StartTime(nowMs), k, chart[k])
    ensures m.price > 0.0
    ensures m.live == Some(Candle(chart[|chart| - 1].time + CandleSeconds, m.price, m.price, m.price, m.price))
    ensures |volume| == |chart|
    ensures forall k :: 0 <= k < |volume| ==>
      && volume[k].time == chart[k].time
      && 0.0 <= volume[k].value < 100.0
      && (volume[k].up <==> chart[k].close >= chart[k].open)
    ensures forall k :: 0 <= k < Depth ==>
      && m.book.asks[k] == AskLevel(m.price, Depth - k, askDraws[k])
      && m.book.bids[k] == BidLevel(m.price, k + 1, bidDraws[k])
    ensures Report(m).absolute == InitialWallet.btc * (m.price - InitialPrice)
  {
    var baseline := Equity(InitialWallet, InitialPrice);
    var price: real;
    var live: Candle;
    chart, volume, price, live := GenerateInitialData(nowMs, seed);
    var book := RenderOrderBook(price, askDraws, bidDraws);
    m := Market(price, Some(live), book, [], InitialWallet, baseline);
    PnlMarkToMarket(InitialWallet, baseline, InitialPrice, price);
    PnlZeroAtBaseline(InitialWallet, InitialPrice);
  }

  /** The random draws of one tick, in the order the source takes them. The
      book's and the simulated trade's draws are supplied on every tick, while the
      source takes them only when their gate passes; they are read only then. The
      book's spread colour and depth bars are display only and left out. */
  datatype TickDraws = TickDraws(
    change: real,
    bookGate: real, asks: seq<LevelDraws>, bids: seq<LevelDraws>,
    tradeGate: real, tradeAmount: real, tradeSide: real)

  predicate ValidTickDraws(d: TickDraws) {
    && IsDraw(d.change) && IsDraw(d.bookGate) && IsDraw(d.tradeGate)
    && IsDraw(d.tradeAmount) && IsDraw(d.tradeSide)
    && ValidLevelDraws(d.asks) && ValidLevelDraws(d.bids)
  }

  /** The random-walk step `(r - 0.5) * 20`. */
  function Step(r: real): real {
    (r - 0.5) * 20.0
  }

  /** tick (the second declaration, which replaces the first): walk the price,
      update the live candle, re-render the book when its draw exceeds 0.3, and
      print a simulated trade when its draw exceeds 0.5. */
  method Tick(m: Market, d: TickDraws) returns (m': Market)
    requires ValidTickDraws(d)
    ensures m'.price == m.price + Step(d.change)
    ensures m.price - 10.0 <= m'.price < m.price + 10.0
    ensures m'.wallet == m.wallet && m'.baseline == m.baseline
    ensures m'.live == UpdateLiveCandle(m.live, m'.price)
    ensures d.bookGate > 0.3 ==> |m'.book.asks| == Depth && |m'.book.bids| == Depth
    ensures d.bookGate > 0.3 ==> forall k :: 0 <= k < Depth ==>
      m'.book.asks[k].price >= m'.price + 5.0 && m'.book.bids[k].price <= m'.price - 5.0
    ensures d.bookGate > 0.3 ==> forall k :: 0 <= k < Depth ==>
      && m'.book.asks[k] == AskLevel(m'.price, Depth - k, d.asks[k])
      && m'.book.bids[k] == BidLevel(m'.price, k + 1, d.bids[k])
    ensures d.bookGate <= 0.3 ==> m'.book == m.book
    ensures d.tradeGate > 0.5 ==>
      m'.tape == AddHistoryRow(m.tape, Row(m'.price, d.tradeAmount, if d.tradeSide > 0.5 then Buy else Sell))
    ensures d.tradeGate <= 0.5 ==> m'.tape == m.tape
    ensures Report(m').absolute - Report(m).absolute == m.wallet.btc * (m'.price - m.price)
    ensures Inv(m) ==> Inv(m')
  {
    var price := m.price + Step(d.change);
    var live := UpdateLiveCandle(m.live, price);
    var book := m.book;
    if d.bookGate > 0.3 {
      book := RenderOrderBook(price, d.asks, d.bids);
    }
    var tape := m.tape;
    if d.tradeGate > 0.5 {
      tape := AddHistoryRow(tape, Row(price, d.tradeAmount, if d.tradeSide > 0.5 then Buy else Sell));
    }
    m' := m.(price := price, live := live, book := book, tape := tape);
    PnlMarkToMarket(m.wallet, m.baseline, m.price, price);
  }

  /** The result of pressing the execute button. */
  datatype Submission = Submission(market: Market, outcome: Outcome)

  /** executeTrade against the simulation: on a fill the wallet changes and the
      trade is printed at the top of the tape; on a rejection nothing changes. */
  function Submit(m: Market, side: Side, priceInput: Option<real>, amountInput: Option<real>): (s: Submission)
    ensures s.outcome == ExecuteTrade(m.wallet, side, priceInput, amountInput, m.price)
    ensures s.outcome.Rejected? ==> s.market == m
    ensures s.outcome.Filled? ==>
      && s.market.wallet == s.outcome.wallet
      && s.market.tape == AddHistoryRow(m.tape, Row(s.outcome.price, s.outcome.amount, side))
      && s.market.price == m.price && s.market.live == m.live && s.market.book == m.book
      && s.market.baseline == m.baseline
    ensures s.outcome.Filled? ==> ComputePnl(s.market.wallet, m.baseline, s.outcome.price) == ComputePnl(m.wallet, m.baseline, s.outcome.price)
    ensures Inv(m) && (side == Buy || ResolvePrice(priceInput, m.price) >= 0.0) ==> Inv(s.market)
  {
    match ExecuteTrade(m.wallet, side, priceInput, amountInput, m.price)
    case Rejected(r) => Submission(m, Rejected(r))
    case Filled(w, p, a) => Submission(m.(wallet := w, tape := AddHistoryRow(m.tape, Row(p, a, side))), Filled(w, p, a))
  }

  /** A percentage click (with the amount truncated to four decimals) followed by
      the execute button in the same market state: at a positive order price, any
      share up to 100% that is not zero fills and keeps the market invariant. With
      an empty price field a tick in between can break this (see
      Sizing.EmptyPriceFieldMarketMoves); SizedSubmitFillsLater covers a typed price. */
  lemma SizedSubmitFills(m: Market, side: Side, pct: int, priceInput: Option<real>)
    requires Inv(m) && 0 <= pct <= 100
    requires ResolvePrice(priceInput, m.price) > 0.0
    requires AmountField(m.wallet, side, pct, priceInput, m.price) != Some(0.0)
    ensures var a := AmountField(m.wallet, side, pct, priceInput, m.price);
      && a.Some?
      && Submit(m, side, priceInput, a).outcome.Filled?
      && Inv(Submit(m, side, priceInput, a).market)
  {
    SizedOrderFills(m.wallet, side, pct, priceInput, m.price);
  }

  /** With a typed positive price, a percentage click in one state and the execute
      button in any later state with the same wallet fill and keep the invariant.
      Ticks and regenerations keep the wallet, so any number of them may intervene. */
  lemma SizedSubmitFillsLater(m: Market, later: Market, side: Side, pct: int, p: real)
    requires Inv(m) && Inv(later) && later.wallet == m.wallet
    requires 0 <= pct <= 100 && p > 0.0
    requires AmountField(m.wallet, side, pct, Some(p), m.price) != Some(0.0)
    ensures var a := AmountField(m.wallet, side, pct, Some(p), m.price);
      && a.Some?
      && Submit(later, side, Some(p), a).outcome.Filled?
      && Inv(Submit(later, side, Some(p), a).market)
  {
    SizedOrderFillsTyped(m.wallet, side, pct, p, m.price, later.price);
  }

  /** A timeframe button: generateInitialData runs again mid-session and replaces
      the current price and the live candle; the wallet, the PnL baseline, the
      rendered book and the tape are kept. */
  method Regenerate(m: Market, nowMs: int, seed: seq<MinuteDraws>) returns (m': Market, chart: seq<Candle>, volume: seq<VolumeBar>)
    requires |seed| == MinutesPerDay
    requires forall i :: 0 <= i < |seed| ==> ValidDraws(seed[i])
    ensures |chart| == PushedCandles && m'.price == chart[|chart| - 1].close
    ensures forall k :: 0 <= k < |chart| ==> IsSeedCandle(seed, StartTime(nowMs), k, chart[k])
    ensures m'.price > 0.0
    ensures m'.live == Some(Candle(chart[|chart| - 1].time + CandleSeconds, m'.price, m'.price, m'.price, m'.price))
    ensures m'.wallet == m.wallet && m'.baseline == m.baseline && m'.book == m.book && m'.tape == m.tape
    ensures Report(m').absolute - Report(m).absolute == m.wallet.btc * (m'.price - m.price)
    ensures Inv(m) ==> Inv(m')
  {
    var price: real;
    var live: Candle;
    chart, volume, price, live := GenerateInitialData(nowMs, seed);
    m' := m.(price := price, live := Some(live));
    PnlMarkToMarket(m.wallet, m.baseline, m.price, price);
  }
}
