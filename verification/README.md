# Paper-trading dashboard, modelled in Dafny

The dashboard page (app.js) simulates a BTC/USDT market in the browser. It seeds a day of
15-minute candles by a random walk and keeps one live candle that a once-a-second tick
moves. It renders a mock order book of eight asks and eight bids around the current price
and prints a trade tape capped at twenty rows. A paper wallet of USDT and BTC trades against
all of this with all-or-nothing market or limit orders. Percentage buttons fill the amount
field, and a PnL panel compares equity with a baseline taken at start-up. The news carousel
(script.js) is a wrap-around slide index with exactly one active slide.

The model is functional:
- JavaScript numbers are Dafny `real`.
- Every `Math.random()` draw is a parameter in `[0, 1)` (`Common.IsDraw`), passed in the
  order the source takes it. Draws the source takes only behind a condition are supplied
  unconditionally and read only when the condition holds:
  - the seed walk's volume draw for every minute (`Candles.MinuteDraws`), taken by the source
    only on pushed minutes (app.js:82-86);
  - a tick's sixteen order-book draws (`Simulation.TickDraws`), taken only when the book is
    re-rendered (app.js:490);
  - a tick's trade amount and side draws, taken only when the trade gate passes (app.js:493-494).
- An input field that `parseFloat` cannot read is `None`.
- A toast becomes a `Rejected` outcome that carries its reason.
- DOM class lists are booleans.

The modules follow the page:
- `Common`: sides, options and the min/max/abs helpers.
- `Candles`: the seed walk and the live candle.
- `OrderBook`: the mock book.
- `TradeTape`: the history rows.
- `Wallet`: order execution and PnL.
- `Sizing`: the percentage buttons.
- `Simulation`: start-up, tick and order submission over one market record.
- `Carousel`: the news slides.

Points where the code, as written, differs from what a reader might expect:
- `tick` is declared twice. The second declaration (app.js:478) replaces the first, so only
  the second is modelled. It also refreshes the PnL.
- The PnL baseline (app.js:213) is computed before start-up runs `generateInitialData`, which
  moves the current price to the last seed close. The baseline is therefore the initial
  wallet at 48234.50. The first PnL shown is 0.15 BTC times the seed walk's drift, not zero.
  `Simulation.Boot` states exactly that. `Wallet.PnlZeroAtBaseline` states the zero that
  holds when the baseline and the mark share a price.
- A typed negative price is not caught by `|| currentPrice`. A sale at such a price fills and
  makes the USDT balance negative (`Wallet.NegativePriceSellOverdraws`), so solvency is proved
  only for sales at a non-negative price.
- The percentage buttons size an order at the market price of the click when the price field
  is empty, and the execute button reads the market price again. A tick in between can make
  a 100% buy unaffordable, with rounding or without (`Sizing.EmptyPriceFieldMarketMoves`).
  With a typed price, the sized order is independent of the market price
  (`Sizing.SizedOrderFillsTyped`, `Simulation.SizedSubmitFillsLater`).
- The "market" order tab does not track the market. It writes the price of the moment of the
  click into the price field and disables it (app.js:343-346), so a "market" order fills at
  that frozen price. The model covers this, since the typed price is an input of each order.
- The trade tape starts empty. Rows the page's markup may already hold are not part of this
  model.

## Model

| member | source | states |
|---|---|---|
| Wallet.ExecuteTrade | app.js:275-303 | A missing, zero or negative amount is rejected as invalid. Otherwise a buy fills exactly when price×amount ≤ USDT and a sale exactly when amount ≤ BTC. A fill moves USDT by ∓price×amount and BTC by ±amount. A rejection reports the required cost or the available BTC. |
| Wallet.ResolvePrice | app.js:277 | The fallback never yields a zero price while the market price is non-zero, so sizing never divides by zero. A typed negative price passes through as a negative order price. A non-zero typed price wins, and otherwise the market price is used. |
| Wallet.FillKeepsSolvent | app.js:285-302 | A fill keeps both balances non-negative, given that a sale is not at a negative price. |
| Wallet.NegativePriceSellOverdraws | app.js:277-302 | A sale of 1 BTC at a typed price of -5 fills and leaves USDT at -5. |
| Wallet.FillKeepsEquity | app.js:285-302 | A fill exchanges equal value: equity marked at the fill price is unchanged. |
| Wallet.BuyThenSellRestores | app.js:285-302 | An affordable buy followed by selling the same amount at the same price fills and restores the wallet exactly. |
| Wallet.ComputePnl | app.js:221-223 | Absolute PnL plus the baseline is the equity at the current price. The percentage exists exactly when the baseline is non-zero, times the baseline it equals 100×PnL, and with a positive baseline it has PnL's sign. |
| Wallet.PnlZeroAtBaseline | app.js:213-223 | With the baseline taken as the wallet's equity at a price, PnL at that price is 0 (and 0%). |
| Wallet.PnlMarkToMarket | app.js:221-222 | Between two marks, PnL changes by the BTC balance times the price change. |
| Wallet.FillKeepsPnl | app.js:292-305 | A fill leaves PnL marked at the fill price unchanged. |
| Sizing.MaxAmount | app.js:461-466 | A buy's maximum times the price is the USDT balance, and no maximum exists at price 0. A sale's maximum is the BTC balance. |
| Sizing.SizeOrder | app.js:459-468 | No amount exists only for a buy at price 0. For 0 ≤ pct ≤ 100, a solvent wallet and a positive price, the sized amount is non-negative. A buy of that amount costs at most the USDT balance and a sale is at most the BTC balance. At 100% it is exactly the whole balance. |
| Sizing.ToFixed4 | app.js:469 | `toFixed(4)` read back has at most four decimals and is within half a unit of 0.0001 of the amount, ties going away from zero. A non-negative amount stays non-negative and a negative one non-positive. |
| Sizing.AmountFieldAsWritten | app.js:459-469 | The field is empty only for a buy at price 0. Otherwise it has four decimals and lies within half a unit of 0.0001 of the sized amount, above it as well as below. This holds for negative sized amounts too. |
| Sizing.FullBuyRejected | app.js:463-469 | At 100% with 10000 USDT and price 60000, the field reads 0.1667, and submitting it is rejected with a required cost of 10002. |
| Sizing.FullSellRejected | app.js:465-469 | At 100% with 0.12345 BTC, the field reads 0.1235, and submitting it is rejected with 0.12345 available. |
| Sizing.TruncateTo4 | app.js:469 | Truncation has at most four decimals, never exceeds a non-negative amount, and falls short of it by less than 0.0001. |
| Sizing.AmountField | app.js:459-469 | The corrected field is empty only for a buy at price 0. Otherwise it has four decimals. For a non-negative sized amount it is never above it and less than 0.0001 below it. For a negative sized amount (a typed negative price) it lies between that amount and zero. |
| Sizing.SizedOrderFills | app.js:453-469 | With truncation, a 0-100% field for a solvent wallet at a positive price is a non-negative amount that fills when submitted at the same market price, or is rejected as invalid if it is zero. |
| Sizing.TypedPriceIgnoresMarket | app.js:277-285 | With a non-zero typed price, neither the sized field nor the order's outcome depends on the market price. |
| Sizing.SizedOrderFillsTyped | app.js:453-469 | With truncation and a typed positive price, a non-zero 0-100% field sized at one market price fills when submitted at any other market price. |
| Sizing.EmptyPriceFieldMarketMoves | app.js:459-469 | With an empty price field, 100% of 10000 USDT at 50000 is 0.2. After one +5 tick the same 0.2 costs 10001 and is rejected. |
| Candles.MoveBound | app.js:75 | A minute's move is at most 0.1% of a non-negative price. |
| Candles.NextPriceBound | app.js:75-77 | From a positive price, the next close stays positive and within 0.1% of it. |
| Candles.SeedMinute | app.js:75-79 | The minute candle opens at the price, closes at the walked price, and satisfies low ≤ min(open, close) ≤ max(open, close) ≤ high. |
| Candles.PriceAfter | app.js:72-91 | The seed walk's price after any number of minutes is positive. |
| Candles.VolumeFor | app.js:84-88 | A volume bar has its candle's time, a value in [0, 100), and is green exactly when close ≥ open. |
| Candles.SeedWalk | app.js:69-93 | The walk over 1440 minutes pushes 96 candles. Candle k is minute 15k of the walk: its time is start + 900k, it opens at the walk's price there and closes one step later, and it is well formed. Volume bar k belongs to candle k. |
| Candles.GenerateInitialData | app.js:68-105 | There are 96 well-formed seed candles, 900 s apart, the first opening at 48234.50 at now − 24 h. The current price is the last close and is positive. The live candle is flat at that price, at the last time + 900. |
| Candles.PushedExactlyAtMultiples | app.js:82 | Before minute i, with the pushed count n tracking the multiples of 15 seen, minute i is pushed exactly when i = 15n. |
| Candles.UpdateLiveCandle | app.js:111-116 | Without a live candle nothing happens. Otherwise time and open are kept, close becomes the price, high and low only widen to take it in, and a well-formed candle stays well formed. |
| Candles.UpdateLiveCandleIdempotent | app.js:111-116 | Applying the same price twice is the same as applying it once. |
| Candles.ApplyPricesCovers | app.js:111-116 | After any non-empty run of ticks the live candle keeps its time and open, stays well formed, closes at the last price, and its high–low range contains every price seen and the original range. |
| OrderBook.RenderOrderBook | app.js:129-152 | Asks are levels 8 down to 1 and bids levels 1 to 8, each from its own draws. Every ask is in [p+5, p+42) and every bid in (p−42, p−5]. Amounts are in [0, 2). Both sides descend strictly. The book is not crossed, with best ask − best bid ≥ 10. |
| TradeTape.AddHistoryRow | app.js:171-184 | The new row is first. Below capacity the old tape follows whole. At capacity the oldest row is dropped. A tape of at most 20 rows stays within 20. |
| TradeTape.AddAllShowsNewest | app.js:182-183 | From an empty tape, any run of rows leaves the newest twenty, newest first. |
| TradeTape.AddAllBounded | app.js:182-183 | Any run of rows keeps a tape of at most 20 rows within 20. |
| Simulation.Boot | app.js:498-501 | Start-up yields a state satisfying the market invariant, with the initial wallet, an empty tape and the baseline taken at 48234.50 (app.js:213). The chart is the seed walk of the given draws: candle k is minute 15k, starting 24 h before the clock reading. The current price is its last close, which is positive, with a flat live candle after it. Volume bar k carries candle k's time, a value in [0, 100) and its up colour. The book is rendered at that price from the given draws, level by level. The first PnL is 0.15 × (price − 48234.50). |
| Simulation.Tick | app.js:478-496 | The new price is the old one plus the step (r − 0.5) × 20, so it moves at most 10 down and less than 10 up. Wallet and baseline are kept. The live candle takes the new price. A re-rendered book is built level by level from the tick's draws at the new price and sits outside ±5 of it. Otherwise the book is kept. A simulated trade is prepended exactly when its draw exceeds 0.5. PnL moves by BTC × the price change. The market invariant is preserved. |
| Simulation.Submit | app.js:275-310 | The outcome is the wallet's execution. A rejection changes nothing. A fill updates the wallet and prepends the trade at its price and amount, leaves price, candle, book and baseline alone, and keeps PnL at the fill price. The market invariant is preserved unless it is a sale at a negative price. |
| Simulation.SizedSubmitFills | app.js:453-469 | After a percentage click with truncation, at 0-100% and a positive order price, a non-zero amount submitted unchanged in the same market state fills and keeps the market invariant. |
| Simulation.SizedSubmitFillsLater | app.js:453-469 | With a typed positive price, a non-zero truncated field sized in one state fills in any later state with the same wallet, which every tick and regeneration keeps, and the invariant holds afterwards. |
| Simulation.Regenerate | app.js:385-396 | A timeframe click re-seeds the chart. The new chart is the seed walk of the given draws. The price becomes its last close, which is positive, with a flat live candle after it. Wallet, baseline, book and tape are kept. PnL jumps by BTC × the price change, and the market invariant is preserved. |
| Carousel.ShowSlide | script.js:35-56 | For any index and at least one slide, the stored index is a slide. An index in range is kept, one past the end wraps to 0, one below 0 wraps to the last slide. Exactly the link and the dot at the stored index are active. |
| Carousel.Init | script.js:31-84 | With no links nothing is initialised. Otherwise slide 0 is shown, in a valid state. |
| Carousel.Next | script.js:59-65 | The next button leaves a valid carousel. |
| Carousel.Prev | script.js:67-73 | The previous button leaves a valid carousel. |
| Carousel.DotClick | script.js:75-81 | Dot k shows slide k, or slide 0 when there is no slide k, and that slide's dot is active. |
| Carousel.NextAdvances | script.js:37-63 | Next moves the index to (current + 1) mod n, so the last slide goes to the first. |
| Carousel.PrevRetreats | script.js:38-71 | Prev moves the index to (current − 1) mod n, so the first slide goes to the last. |
| Carousel.NextPrevInverse | script.js:35-73 | Prev undoes Next and Next undoes Prev on every valid carousel. |
| Carousel.CountOnlyActive | script.js:43-55 | A row with only element k active has one active element when k is in range and none otherwise. |
| Carousel.ExactlyOneActive | script.js:43-55 | In a valid carousel exactly one link is active, and one dot is active exactly when the current slide has a dot. |
| Carousel.NextTimesIndex | script.js:59-65 | k presses of next, for k up to n, move the index k places round the ring of n slides. |
| Carousel.FullTurn | script.js:59-65 | n presses of next return a valid carousel to the same state. |

## Left out

- Charting and the DOM are not modelled: LightweightCharts series and updates, element creation and `innerHTML`, price text and colours, the document title, and the resize handler. None of these affects the numbers.
- Toasts and their timers are not modelled. A rejection's toast text is kept as the `Rejection` payload.
- `setInterval` scheduling is left out. A run of the page is a sequence of `Simulation.Tick` calls.
- IEEE-754 doubles are modelled as exact reals. `toFixed`/`toLocaleString` are display only and left out, except `toFixed(4)` in sizing, whose result is read back as the order amount.
- `parseFloat` and `parseInt` on the input fields and the percentage labels are left out. Their results are model inputs, and NaN is `None`.
- Depth-bar widths and the spread colour in the order book are display only, so their random draws are not modelled.
- The wall-clock time printed on each history row is not modelled, because it is a clock read.
- The first, shadowed `tick` (app.js:187-201) is not modelled, because it is never called.
- The buttons for trade type, book filter, timeframe, chart tools, navigation, connect and notification are UI wiring and are not modelled. A timeframe click's regeneration is modelled as `Simulation.Regenerate`, and its toast and button state are left out. A trade-type click's only effect on orders, the frozen price it writes into the price field, is an input of each order.
- The side buttons are not modelled. The chosen side is an input of each order.
- The search shortcut and the auth-banner toggling in script.js are not modelled, because they are browser events, storage and URL reads.
- db.js is not part of this model. It is a fetch/localStorage wrapper.
- api.php is not part of this model. It is database I/O.
- TradeTape.AddHistoryRow: assumes the history `<tbody>` holds only row elements. The source counts element children (`children.length`) but removes `lastChild`, which can be a whitespace text node from the markup. In that case the first eviction removes the text node and the tape settles at 21 rows. The markup is not part of this model.
- Sizing.SizedOrderFills: promises a fill only when the click and the submission see the same market price. With an empty price field, a tick in between can reject the order (`Sizing.EmptyPriceFieldMarketMoves`). Only the typed-price case is proved across ticks.
- Simulation.SizedSubmitFills: promises the fill for the same market state only, for the same reason. `Simulation.SizedSubmitFillsLater` covers a typed price in any later state.
- Candles.SeedMinute: states the candle envelope but not that each wick is at most the minute's move, or that low stays positive. Those are nonlinear in the draws, and the envelope is what the chart relies on.
- Candles.PriceAfter: states positivity only. The per-step 0.1% bound is `Candles.NextPriceBound`.
- Carousel.NextTimesIndex: stated for up to one full turn, in linear form, rather than as `(current + k) mod n` for every k.

## Findings

| source | as written | input that shows it | evidently intended | confidence | as-written member | corrected member |
|---|---|---|---|---|---|---|
| app.js:469 | The sized amount goes through `toFixed(4)`, which rounds to nearest, so a 100% order can round up past the balance and be rejected. | 10000 USDT, buy at 60000, 100%: the field reads 0.1667, which costs 10002 > 10000, so the order is rejected. | The 100% button fills an amount the wallet can pay for, which means rounding down. | medium, not executed | Sizing.FullBuyRejected | Sizing.SizedOrderFills |
