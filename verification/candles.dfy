/** The price chart of app.js: the day of seed candles built at start-up and
    the single live candle that every tick updates in place. */
module Candles {
  import opened Common

  /** CONFIG.initialPrice: where the seed walk starts. */
  const InitialPrice: real := 48234.50
  /** The seed walk runs over one day of one-minute steps. */
  const MinutesPerDay: nat := 1440
  /** Only every fifteenth minute is pushed to the chart. */
  const CandleEvery: nat := 15
  const PushedCandles: nat := MinutesPerDay / CandleEvery
  const MinuteSeconds: int := 60
  /** Fifteen minutes: the gap between pushed candles and the live candle's offset. */
  const CandleSeconds: int := 900
  const DaySeconds: int := 86400

  /** One OHLC bar; `time` is in seconds. */
  datatype Candle = Candle(time: int, open: real, high: real, low: real, close: real)

  /** A bar of the volume histogram, coloured up when its candle closed at or above its open. */
  datatype VolumeBar = VolumeBar(time: int, value: real, up: bool)

  /** The `Math.random()` draws of one seed minute, in the order the source takes
      them: the move and the two wicks every minute, and the volume, which the
      source draws only on the minutes it pushes (it is read only then). */
  datatype MinuteDraws = MinuteDraws(move: real, high: real, low: real, volume: real)

  predicate ValidDraws(d: MinuteDraws) {
    IsDraw(d.move) && IsDraw(d.high) && IsDraw(d.low) && IsDraw(d.volume)
  }

  /** The candle envelope: the wicks reach at least as far as the body. */
  predicate WellFormed(c: Candle) {
    c.low <= Min(c.open, c.close) && Max(c.open, c.close) <= c.high
  }

  /** A minute's random-walk move at `price` for the draw `r`; 0.002 is CONFIG.volatility. */
  function Move(price: real, r: real): real {
    (r - 0.5) * 0.002 * price
  }

  lemma MulNonNegative(a: real, b: real)
    requires a >= 0.0 && b >= 0.0
    ensures a * b >= 0.0
  {
  }

  /** A minute's move is at most a thousandth of a non-negative price. */
  lemma MoveBound(price: real, r: real)
    requires IsDraw(r) && price >= 0.0
    ensures Abs(Move(price, r)) <= 0.001 * price
  {
    var k := (r - 0.5) * 0.002;
    assert Move(price, r) == k * price;
    MulNonNegative(k + 0.001, price);
    MulNonNegative(0.001 - k, price);
    assert (k + 0.001) * price == k * price + 0.001 * price;
    assert (0.001 - k) * price == 0.001 * price - k * price;
  }

  /** The close of a minute that opens at `price` with move draw `r`. */
  function NextPrice(price: real, r: real): real {
    price + Move(price, r)
  }

  /** A positive price stays positive, moving by at most 0.1%. */
  lemma NextPriceBound(price: real, r: real)
    requires IsDraw(r) && price > 0.0
    ensures NextPrice(price, r) > 0.0
    ensures Abs(NextPrice(price, r) - price) <= 0.001 * price
  {
    MoveBound(price, r);
  }

  /** One seed minute that opens at `price` (the body of the loop of
      generateInitialData): the close moves by `(r - 0.5) * volatility * price` and
      each wick reaches beyond the body by a random fraction of the move's size. */
  method SeedMinute(time: int, price: real, d: MinuteDraws) returns (c: Candle)
    requires ValidDraws(d)
    ensures c.time == time && c.open == price && c.close == NextPrice(price, d.move)
    ensures WellFormed(c)
  {
    var move := Move(price, d.move);
    var close := price + move;
    MulNonNegative(d.high, Abs(move));
    MulNonNegative(d.low, Abs(move));
    c := Candle(time, price, Max(price, close) + d.high * Abs(move), Min(price, close) - d.low * Abs(move), close);
  }

  /** Reference definition of the seed walk: the price at the start of minute `i`. */
  function PriceAfter(draws: seq<MinuteDraws>, i: nat): (p: real)
    requires i <= |draws|
    requires forall k :: 0 <= k < i ==> ValidDraws(draws[k])
    ensures p > 0.0
    decreases i
  {
    if i == 0 then InitialPrice
    else
      var prev := PriceAfter(draws, i - 1);
      assert ValidDraws(draws[i - 1]);
      NextPriceBound(prev, draws[i - 1].move);
      NextPrice(prev, draws[i - 1].move)
  }

  /** The first candle's time: 24 hours before the clock reading `nowMs` (milliseconds),
      floored to whole seconds. */
  function StartTime(nowMs: int): int {
    nowMs / 1000 - DaySeconds
  }

  /** The k-th pushed seed candle is minute 15k of the walk: it is stamped 900k
      seconds after `start`, opens and closes where the walk stands at the start and
      end of that minute, and its wicks enclose its body. */
  ghost predicate IsSeedCandle(draws: seq<MinuteDraws>, start: int, k: nat, c: Candle)
    requires |draws| == MinutesPerDay
    requires forall i :: 0 <= i < |draws| ==> ValidDraws(draws[i])
    requires k < PushedCandles
  {
    && c.time == start + CandleSeconds * k
    && c.open == PriceAfter(draws, CandleEvery * k)
    && c.close == PriceAfter(draws, CandleEvery * k + 1)
    && WellFormed(c)
  }

  /** The volume bar pushed with candle `c`, sized by the draw `d`. */
  function VolumeFor(c: Candle, d: MinuteDraws): (v: VolumeBar)
    requires ValidDraws(d)
    ensures v.time == c.time && 0.0 <= v.value < 100.0
    ensures v.up <==> c.close >= c.open
  {
    VolumeBar(c.time, d.volume * 100.0, c.close >= c.open)
  }

  /** The loop of generateInitialData: one day of minutes from `start`, keeping
      every fifteenth minute's candle together with its volume bar. */
  method SeedWalk(start: int, draws: seq<MinuteDraws>) returns (data: seq<Candle>, volume: seq<VolumeBar>)
    requires |draws| == MinutesPerDay
    requires forall i :: 0 <= i < |draws| ==> ValidDraws(draws[i])
    ensures |data| == PushedCandles
    ensures forall k :: 0 <= k < |data| ==> IsSeedCandle(draws, start, k, data[k])
    ensures |volume| == |data|
    ensures forall k :: 0 <= k < |volume| ==> volume[k] == VolumeFor(data[k], draws[CandleEvery * k])
  {
    var time := start;
    var price := InitialPrice;
    data := [];
    volume := [];
    var i := 0;
    while i < MinutesPerDay
      invariant 0 <= i <= MinutesPerDay
      invariant price == PriceAfter(draws, i)
      invariant time == start + MinuteSeconds * i
      invariant i <= CandleEvery * |data| < i + CandleEvery
      invariant forall k :: 0 <= k < |data| ==> IsSeedCandle(draws, start, k, data[k])
      invariant |volume| == |data|
      invariant forall k :: 0 <= k < |volume| ==> volume[k] == VolumeFor(data[k], draws[CandleEvery * k])
    {
      var c := SeedMinute(time, price, draws[i]);
      PushedExactlyAtMultiples(i, |data|);
      if i % CandleEvery == 0 {
        assert IsSeedCandle(draws, start, |data|, c);
        data := data + [c];
        volume := volume + [VolumeFor(c, draws[i])];
      }
      price := c.close;
      time := time + MinuteSeconds;
      i := i + 1;
    }
  }

  /** generateInitialData: the seed chart of one day ending at the clock reading
      `nowMs`, the last pushed close as the current price, and a flat live candle
      fifteen minutes after the last pushed one. */
  method GenerateInitialData(nowMs: int, draws: seq<MinuteDraws>)
    returns (data: seq<Candle>, volume: seq<VolumeBar>, currentPrice: real, live: Candle)
    requires |draws| == MinutesPerDay
    requires forall i :: 0 <= i < |draws| ==> ValidDraws(draws[i])
    ensures |data| == PushedCandles && |volume| == PushedCandles
    ensures forall k :: 0 <= k < |data| ==> IsSeedCandle(draws, StartTime(nowMs), k, data[k])
    ensures forall k :: 0 <= k < |data| ==> WellFormed(data[k])
    ensures data[0].open == InitialPrice && data[0].time == StartTime(nowMs)
    ensures forall k :: 0 < k < |data| ==> data[k].time == data[k - 1].time + CandleSeconds
    ensures forall k :: 0 <= k < |volume| ==>
      && volume[k].time == data[k].time
      && 0.0 <= volume[k].value < 100.0
      && (volume[k].up <==> data[k].close >= data[k].open)
    ensures currentPrice == data[|data| - 1].close && currentPrice > 0.0
    ensures live == Candle(data[|data| - 1].time + CandleSeconds, currentPrice, currentPrice, currentPrice, currentPrice)
    ensures WellFormed(live)
  {
    data, volume := SeedWalk(StartTime(nowMs), draws);
    assert IsSeedCandle(draws, StartTime(nowMs), 0, data[0]);
    assert IsSeedCandle(draws, StartTime(nowMs), PushedCandles - 1, data[PushedCandles - 1]);
    var last := data[|data| - 1];
    currentPrice := last.close;
    live := Candle(last.time + CandleSeconds, currentPrice, currentPrice, currentPrice, currentPrice);
  }

  /** With `n` candles pushed before minute `i`, minute `i` is pushed exactly when
      it is the next multiple of fifteen. */
  lemma PushedExactlyAtMultiples(i: nat, n: nat)
    requires i <= CandleEvery * n < i + CandleEvery
    ensures i % CandleEvery == 0 <==> i == CandleEvery * n
  {
  }

  /** updateLiveCandle: the tick's price becomes the close and widens the wicks;
      without a live candle nothing happens. */
  function UpdateLiveCandle(live: Option<Candle>, price: real): (r: Option<Candle>)
    ensures live.None? <==> r.None?
    ensures live.Some? ==>
      && r.value.time == live.value.time
      && r.value.open == live.value.open
      && r.value.close == price
      && r.value.low <= price <= r.value.high
      && r.value.low <= live.value.low && live.value.high <= r.value.high
      && (r.value.high == live.value.high || r.value.high == price)
      && (r.value.low == live.value.low || r.value.low == price)
    ensures live.Some? && WellFormed(live.value) ==> WellFormed(r.value)
  {
    match live
    case None => None
    case Some(c) => Some(c.(close := price, high := Max(c.high, price), low := Min(c.low, price)))
  }

  /** A second update with the same price changes nothing. */
  lemma UpdateLiveCandleIdempotent(live: Option<Candle>, price: real)
    ensures UpdateLiveCandle(UpdateLiveCandle(live, price), price) == UpdateLiveCandle(live, price)
  {
  }

  /** The live candle after a run of ticks at `prices`, oldest first. */
  function ApplyPrices(live: Option<Candle>, prices: seq<real>): Option<Candle>
    decreases |prices|
  {
    if |prices| == 0 then live
    else UpdateLiveCandle(ApplyPrices(live, prices[..|prices| - 1]), prices[|prices| - 1])
  }

  /** After a run of ticks the live candle keeps its open and time, closes at the
      last price, and its wicks cover the previous envelope and every tick price. */
  lemma {:induction false} ApplyPricesCovers(c: Candle, prices: seq<real>)
    requires WellFormed(c)
    ensures ApplyPrices(Some(c), prices).Some?
    ensures var r := ApplyPrices(Some(c), prices).value;
      && r.time == c.time && r.open == c.open
      && WellFormed(r)
      && r.low <= c.low && c.high <= r.high
      && (|prices| == 0 ==> r.close == c.close)
      && (|prices| > 0 ==> r.close == prices[|prices| - 1])
      && (forall i :: 0 <= i < |prices| ==> r.low <= prices[i] <= r.high)
    decreases |prices|
  {
    if |prices| > 0 {
      var init := prices[..|prices| - 1];
      ApplyPricesCovers(c, init);
      var r := ApplyPrices(Some(c), prices).value;
      forall i | 0 <= i < |prices|
        ensures r.low <= prices[i] <= r.high
      {
        if i < |prices| - 1 {
          assert prices[i] == init[i];
        }
      }
    }
  }
}
