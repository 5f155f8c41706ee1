/** Percentage order sizing in app.js: clicking "25%" .. "100%" fills the amount
    field with that share of the most the wallet can trade at the order price. */
module Sizing {
  import opened Common
  import opened Wallet

  /** The most the wallet can trade: USDT over the price for a buy (no finite
      value when the price is zero), the whole BTC balance for a sale. */
  function MaxAmount(w: Wallet, side: Side, price: real): (m: Option<real>)
    ensures side == Sell ==> m == Some(w.btc)
    ensures side == Buy ==> (m.None? <==> price == 0.0)
    ensures side == Buy && m.Some? ==> m.value * price == w.usdt
  {
    match side
    case Buy => if price == 0.0 then None else Some(w.usdt / price)
    case Sell => Some(w.btc)
  }

  lemma MulMonotone(a: real, b: real, c: real)
    requires a <= b && c >= 0.0
    ensures a * c <= b * c
  {
    assert (b - a) * c >= 0.0;
  }

  /** A share of a non-negative amount is non-negative and at most the amount,
      and the whole share is the whole amount. */
  lemma ShareBounds(m: real, f: real)
    ensures m >= 0.0 && 0.0 <= f <= 1.0 ==> 0.0 <= m * f <= m
    ensures f == 1.0 ==> m * f == m
  {
    if m >= 0.0 && 0.0 <= f <= 1.0 {
      assert (1.0 - f) * m >= 0.0;
    }
  }

  /** A share of what `usdt` buys at a positive `price` costs at most `usdt`. */
  lemma BuyShareAffordable(m: real, price: real, usdt: real, f: real)
    ensures m * price == usdt && usdt >= 0.0 && price > 0.0 && 0.0 <= f <= 1.0 ==>
      && m * f >= 0.0
      && price * (m * f) <= usdt
      && (f == 1.0 ==> price * (m * f) == usdt)
  {
    if m * price == usdt && usdt >= 0.0 && price > 0.0 && 0.0 <= f <= 1.0 {
      assert m >= 0.0;
      ShareBounds(m, f);
      assert price * (m - m * f) >= 0.0;
    }
  }

  /** `maxAmount * (pct / 100)`, before it is written to the amount field. For a
      share between 0% and 100% of a solvent wallet at a positive price the amount
      is affordable: a buy costs at most the USDT balance and a sale is at most the
      BTC balance, and 100% is exactly the whole balance. */
  function SizeOrder(w: Wallet, side: Side, pct: int, price: real): (r: Option<real>)
    ensures r.None? <==> side == Buy && price == 0.0
    ensures r.Some? ==> r.value == MaxAmount(w, side, price).value * (pct as real / 100.0)
    ensures Solvent(w) && price > 0.0 && 0 <= pct <= 100 ==>
      && r.Some? && r.value >= 0.0
      && (side == Buy ==> price * r.value <= w.usdt)
      && (side == Sell ==> r.value <= w.btc)
      && (pct == 100 && side == Buy ==> price * r.value == w.usdt)
      && (pct == 100 && side == Sell ==> r.value == w.btc)
  {
    match MaxAmount(w, side, price)
    case None => None
    case Some(m) =>
      var f := pct as real / 100.0;
      ShareBounds(m, f);
      BuyShareAffordable(m, price, w.usdt, f);
      Some(m * f)
  }

  /** `r` has at most four decimals: it is a whole number of 0.0001 units. */
  predicate FourDecimals(r: real) {
    (r * 10000.0).Floor as real == r * 10000.0
  }

  lemma UnitsHaveFourDecimals(n: int)
    ensures FourDecimals(n as real / 10000.0)
  {
    assert n as real / 10000.0 * 10000.0 == n as real;
  }

  /** `x.toFixed(4)` read back by `parseFloat`: the nearest multiple of 0.0001,
      ties going away from zero. */
  function ToFixed4(x: real): (r: real)
    ensures FourDecimals(r)
    ensures x >= 0.0 ==> 0.0 <= r && x - 0.00005 < r <= x + 0.00005
    ensures x < 0.0 ==> r <= 0.0 && x - 0.00005 <= r < x + 0.00005
  {
    var n := if x >= 0.0 then (x * 10000.0 + 0.5).Floor else -(-x * 10000.0 + 0.5).Floor;
    UnitsHaveFourDecimals(n);
    n as real / 10000.0
  }

  /** The amount field as the source fills it: the sized amount through
      `toFixed(4)`, a multiple of 0.0001 that may lie above the sized amount. */
  function AmountFieldAsWritten(w: Wallet, side: Side, pct: int, priceInput: Option<real>, current: real): (r: Option<real>)
    ensures r.None? <==> side == Buy && ResolvePrice(priceInput, current) == 0.0
    ensures r.Some? ==> FourDecimals(r.value)
    ensures r.Some? ==> var a := SizeOrder(w, side, pct, ResolvePrice(priceInput, current)).value;
      && (a >= 0.0 ==> a - 0.00005 < r.value <= a + 0.00005)
      && (a < 0.0 ==> a - 0.00005 <= r.value < a + 0.00005)
  {
    match SizeOrder(w, side, pct, ResolvePrice(priceInput, current))
    case None => None
    case Some(a) => Some(ToFixed4(a))
  }

  /** Rounding to nearest can round a 100% order up past the balance: with 10000
      USDT at a price of 60000 the field reads 0.1667, which costs 10002 and is
      rejected. */
  lemma FullBuyRejected()
    ensures AmountFieldAsWritten(Wallet(10000.0, 0.15), Buy, 100, Some(60000.0), 50000.0) == Some(0.1667)
    ensures ExecuteTrade(Wallet(10000.0, 0.15), Buy, Some(60000.0), Some(0.1667), 50000.0)
      == Rejected(InsufficientUsdt(10002.0))
  {
    var w := Wallet(10000.0, 0.15);
    assert SizeOrder(w, Buy, 100, 60000.0) == Some(10000.0 / 60000.0);
    assert (10000.0 / 60000.0 * 10000.0 + 0.5).Floor == 1667;
  }

  /** The same happens on the sell side: a BTC balance of 0.12345 reads back as
      0.1235 at 100% and is rejected. */
  lemma FullSellRejected()
    ensures AmountFieldAsWritten(Wallet(0.0, 0.12345), Sell, 100, None, 50000.0) == Some(0.1235)
    ensures ExecuteTrade(Wallet(0.0, 0.12345), Sell, None, Some(0.1235), 50000.0)
      == Rejected(InsufficientBtc(0.12345))
  {
    assert (0.12345 * 10000.0 + 0.5).Floor == 1235;
  }

  /** Truncation toward zero to four decimals: the amount field never exceeds the
      sized amount and is short of it by less than 0.0001. */
  function TruncateTo4(x: real): (r: real)
    ensures FourDecimals(r)
    ensures x >= 0.0 ==> 0.0 <= r <= x && x - r < 0.0001
    ensures x < 0.0 ==> x <= r <= 0.0
  {
    var n := if x >= 0.0 then (x * 10000.0).Floor else -(-x * 10000.0).Floor;
    UnitsHaveFourDecimals(n);
    n as real / 10000.0
  }

  /** The amount field with the sized amount truncated rather than rounded: a
      multiple of 0.0001 never above the sized amount. */
  function AmountField(w: Wallet, side: Side, pct: int, priceInput: Option<real>, current: real): (r: Option<real>)
    ensures r.None? <==> side == Buy && ResolvePrice(priceInput, current) == 0.0
    ensures r.Some? ==> FourDecimals(r.value)
    ensures r.Some? ==> var a := SizeOrder(w, side, pct, ResolvePrice(priceInput, current)).value;
      && (a >= 0.0 ==> r.value <= a < r.value + 0.0001)
      && (a < 0.0 ==> a <= r.value <= 0.0)
  {
    match SizeOrder(w, side, pct, ResolvePrice(priceInput, current))
    case None => None
    case Some(a) => Some(TruncateTo4(a))
  }

  /** With truncation, any share up to 100% of a solvent wallet at a positive price
      fills when submitted unchanged, unless it truncates to zero (then it is
      rejected as an invalid amount). The click and the submission see the same
      market price `current`; see SizedOrderFillsTyped for a later submission. */
  lemma SizedOrderFills(w: Wallet, side: Side, pct: int, priceInput: Option<real>, current: real)
    requires Solvent(w) && 0 <= pct <= 100
    requires ResolvePrice(priceInput, current) > 0.0
    ensures AmountField(w, side, pct, priceInput, current).Some?
    ensures var a := AmountField(w, side, pct, priceInput, current).value;
      && a >= 0.0
      && (a > 0.0 ==> ExecuteTrade(w, side, priceInput, Some(a), current).Filled?)
      && (a == 0.0 ==> ExecuteTrade(w, side, priceInput, Some(a), current) == Rejected(InvalidAmount))
  {
    var p := ResolvePrice(priceInput, current);
    var exact := SizeOrder(w, side, pct, p).value;
    var a := TruncateTo4(exact);
    if side == Buy {
      MulMonotone(a, exact, p);
      assert p * a <= p * exact;
    }
  }

  /** With a typed (non-zero) price the field does not depend on the market price,
      and neither does the order. */
  lemma TypedPriceIgnoresMarket(w: Wallet, side: Side, pct: int, p: real, c1: real, c2: real, amount: Option<real>)
    requires p != 0.0
    ensures AmountField(w, side, pct, Some(p), c1) == AmountField(w, side, pct, Some(p), c2)
    ensures ExecuteTrade(w, side, Some(p), amount, c1) == ExecuteTrade(w, side, Some(p), amount, c2)
  {
    assert ResolvePrice(Some(p), c1) == p == ResolvePrice(Some(p), c2);
  }

  /** A field sized with a typed positive price, at market price `click`, still
      fills when submitted at any later market price `submit` with the same wallet. */
  lemma SizedOrderFillsTyped(w: Wallet, side: Side, pct: int, p: real, click: real, submit: real)
    requires Solvent(w) && 0 <= pct <= 100 && p > 0.0
    requires AmountField(w, side, pct, Some(p), click) != Some(0.0)
    ensures AmountField(w, side, pct, Some(p), click).Some?
    ensures ExecuteTrade(w, side, Some(p), AmountField(w, side, pct, Some(p), click), submit).Filled?
  {
    SizedOrderFills(w, side, pct, Some(p), click);
    TypedPriceIgnoresMarket(w, side, pct, p, click, submit, AmountField(w, side, pct, Some(p), click));
  }

  /** With an empty price field the click and the submission read the market
      price at different moments: 100% of 10000 USDT sized at 50000 is 0.2, and
      after one tick of +5 the same 0.2 costs 10001 and is rejected. */
  lemma EmptyPriceFieldMarketMoves()
    ensures AmountField(Wallet(10000.0, 0.0), Buy, 100, None, 50000.0) == Some(0.2)
    ensures ExecuteTrade(Wallet(10000.0, 0.0), Buy, None, Some(0.2), 50005.0)
      == Rejected(InsufficientUsdt(10001.0))
  {
    assert (10000.0 / 50000.0 * 10000.0).Floor == 2000;
  }
}
