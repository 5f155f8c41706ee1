/** The paper-trading wallet of app.js: the all-or-nothing order execution of
    executeTrade, and the equity and profit-and-loss shown by updateWalletUI. */
module Wallet {
  import opened Common

  /** The wallet's two balances. */
  datatype Wallet = Wallet(usdt: real, btc: real)

  /** The balances the page starts with. */
  const InitialWallet: Wallet := Wallet(10000.00, 0.1500)

  /** Neither balance is negative. */
  predicate Solvent(w: Wallet) {
    w.usdt >= 0.0 && w.btc >= 0.0
  }

  /** `parseFloat(priceInput.value) || currentPrice`: the typed price, unless it is
      missing, unparsable (`None`) or zero, in which case the market price. A
      negative typed price is kept. */
  function ResolvePrice(input: Option<real>, current: real): (p: real)
    ensures input.Some? && input.value != 0.0 ==> p == input.value
    ensures input.None? || input.value == 0.0 ==> p == current
    ensures current != 0.0 ==> p != 0.0
    ensures input.Some? && input.value < 0.0 ==> p < 0.0
  {
    if input.Some? && input.value != 0.0 then input.value else current
  }

  /** The amount guard `!amount || amount <= 0` fails: a parsed, positive amount. */
  predicate ValidAmount(amount: Option<real>) {
    amount.Some? && amount.value > 0.0
  }

  /** Why an order was refused; the payload is what the rejection toast reports. */
  datatype Rejection = InvalidAmount | InsufficientUsdt(required: real) | InsufficientBtc(available: real)

  /** An order either fills, giving the new wallet and the price and amount it
      filled at, or is rejected and changes nothing. */
  datatype Outcome = Filled(wallet: Wallet, price: real, amount: real) | Rejected(reason: Rejection)

  /** executeTrade: check the amount, then the balance on the paying side, then
      move both balances at once. */
  function ExecuteTrade(w: Wallet, side: Side, priceInput: Option<real>, amountInput: Option<real>, current: real): (o: Outcome)
    ensures !ValidAmount(amountInput) ==> o == Rejected(InvalidAmount)
    ensures ValidAmount(amountInput) ==>
      var p := ResolvePrice(priceInput, current);
      var a := amountInput.value;
      && (o.Filled? <==> (side == Buy ==> p * a <= w.usdt) && (side == Sell ==> a <= w.btc))
      && (o.Filled? ==> o.price == p && o.amount == a)
      && (o.Filled? && side == Buy ==> o.wallet.usdt == w.usdt - p * a && o.wallet.btc == w.btc + a)
      && (o.Filled? && side == Sell ==> o.wallet.btc == w.btc - a && o.wallet.usdt == w.usdt + p * a)
      && (o.Rejected? && side == Buy ==> o.reason == InsufficientUsdt(p * a))
      && (o.Rejected? && side == Sell ==> o.reason == InsufficientBtc(w.btc))
  {
    var p := ResolvePrice(priceInput, current);
    if !ValidAmount(amountInput) then Rejected(InvalidAmount)
    else
      var a := amountInput.value;
      var cost := p * a;
      match side
      case Buy =>
        if cost > w.usdt then Rejected(InsufficientUsdt(cost))
        else Filled(Wallet(w.usdt - cost, w.btc + a), p, a)
      case Sell =>
        if a > w.btc then Rejected(InsufficientBtc(w.btc))
        else Filled(Wallet(w.usdt + cost, w.btc - a), p, a)
  }

  /** A fill keeps a solvent wallet solvent, provided a sale is not at a negative
      price (a buy at any price is safe). */
  lemma FillKeepsSolvent(w: Wallet, side: Side, priceInput: Option<real>, amountInput: Option<real>, current: real)
    requires Solvent(w)
    requires side == Sell ==> ResolvePrice(priceInput, current) >= 0.0
    ensures var o := ExecuteTrade(w, side, priceInput, amountInput, current);
      o.Filled? ==> Solvent(o.wallet)
  {
    var o := ExecuteTrade(w, side, priceInput, amountInput, current);
    if o.Filled? && side == Sell {
      var p := ResolvePrice(priceInput, current);
      var a := amountInput.value;
      assert p * a >= 0.0;
    }
  }

  /** The price guard is missing: a sale at a typed negative price fills and drives
      the USDT balance below zero. */
  lemma NegativePriceSellOverdraws()
    ensures ExecuteTrade(Wallet(0.0, 1.0), Sell, Some(-5.0), Some(1.0), 100.0) == Filled(Wallet(-5.0, 0.0), -5.0, 1.0)
  {
  }

  /** Equity: the USDT balance plus the BTC balance marked at `price`. */
  function Equity(w: Wallet, price: real): real {
    w.usdt + w.btc * price
  }

  /** A fill exchanges value at its own price: equity marked at that price is unchanged. */
  lemma FillKeepsEquity(w: Wallet, side: Side, priceInput: Option<real>, amountInput: Option<real>, current: real)
    ensures var o := ExecuteTrade(w, side, priceInput, amountInput, current);
      o.Filled? ==> Equity(o.wallet, o.price) == Equity(w, o.price)
  {
    var o := ExecuteTrade(w, side, priceInput, amountInput, current);
    if o.Filled? {
      var p := o.price;
      var a := o.amount;
      assert (w.btc + a) * p == w.btc * p + p * a;
      assert (w.btc - a) * p == w.btc * p - p * a;
    }
  }

  /** Selling what was just bought, at the same typed price, fills and restores
      the wallet exactly. */
  lemma BuyThenSellRestores(w: Wallet, price: real, amount: real, current: real)
    requires Solvent(w)
    requires price != 0.0 && amount > 0.0
    requires price * amount <= w.usdt
    ensures ExecuteTrade(w, Buy, Some(price), Some(amount), current).Filled?
    ensures var bought := ExecuteTrade(w, Buy, Some(price), Some(amount), current).wallet;
      ExecuteTrade(bought, Sell, Some(price), Some(amount), current) == Filled(w, price, amount)
  {
  }

  /** The profit-and-loss panel: the absolute PnL and, when the baseline is not
      zero, the percentage (a zero baseline would print a non-finite number). */
  datatype Pnl = Pnl(absolute: real, percent: Option<real>)

  /** updateWalletUI's PnL: equity at `price` minus the baseline, and that as a
      percentage of the baseline. */
  function ComputePnl(w: Wallet, baseline: real, price: real): (r: Pnl)
    ensures r.absolute + baseline == Equity(w, price)
    ensures baseline == 0.0 <==> r.percent.None?
    ensures r.percent.Some? ==> r.percent.value * baseline == r.absolute * 100.0
    ensures baseline > 0.0 ==> (r.percent.value >= 0.0 <==> r.absolute >= 0.0)
  {
    var pnl := Equity(w, price) - baseline;
    if baseline == 0.0 then Pnl(pnl, None)
    else
      PercentScales(pnl, baseline);
      Pnl(pnl, Some(pnl / baseline * 100.0))
  }

  lemma PercentScales(x: real, b: real)
    requires b != 0.0
    ensures (x / b * 100.0) * b == x * 100.0
    ensures b > 0.0 ==> (x / b * 100.0 >= 0.0 <==> x >= 0.0)
  {
    assert (x / b) * b == x;
    if b > 0.0 {
      if x >= 0.0 {
        assert x / b >= 0.0;
      } else {
        assert x / b < 0.0;
      }
    }
  }

  /** With the baseline taken as the wallet's equity at some price, PnL at that
      price is zero until the wallet changes. */
  lemma PnlZeroAtBaseline(w: Wallet, price: real)
    ensures ComputePnl(w, Equity(w, price), price).absolute == 0.0
    ensures Equity(w, price) != 0.0 ==> ComputePnl(w, Equity(w, price), price).percent == Some(0.0)
  {
  }

  /** Between two marks, PnL moves by the BTC balance times the price change. */
  lemma PnlMarkToMarket(w: Wallet, baseline: real, p: real, q: real)
    ensures ComputePnl(w, baseline, q).absolute - ComputePnl(w, baseline, p).absolute == w.btc * (q - p)
  {
    assert w.btc * (q - p) == w.btc * q - w.btc * p;
  }

  /** A fill leaves the PnL marked at the fill price unchanged. */
  lemma FillKeepsPnl(w: Wallet, baseline: real, side: Side, priceInput: Option<real>, amountInput: Option<real>, current: real)
    ensures var o := ExecuteTrade(w, side, priceInput, amountInput, current);
      o.Filled? ==> ComputePnl(o.wallet, baseline, o.price) == ComputePnl(w, baseline, o.price)
  {
    FillKeepsEquity(w, side, priceInput, amountInput, current);
  }
}
