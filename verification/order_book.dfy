/** The mock order book of app.js (renderOrderBook): eight asks above and eight
    bids below the current price, each level offset by five per step plus a random
    jitter, with a random amount. */
module OrderBook {
  import opened Common

  /** Levels per side. */
  const Depth: nat := 8

  /** One row of the book. */
  datatype Level = Level(price: real, amount: real)

  /** The book as rendered: asks in the order they are emitted (farthest first,
      i = 8 down to 1), bids in the order they are emitted (nearest first, i = 1 to 8). */
  datatype Book = Book(asks: seq<Level>, bids: seq<Level>)

  /** The two `Math.random()` draws of one level: its price jitter and its amount. */
  datatype LevelDraws = LevelDraws(jitter: real, amount: real)

  predicate ValidLevelDraws(ds: seq<LevelDraws>) {
    |ds| == Depth && forall k :: 0 <= k < |ds| ==> IsDraw(ds[k].jitter) && IsDraw(ds[k].amount)
  }

  /** The ask `i` steps above `current`: five per step plus a jitter in [0, 2). */
  function AskLevel(current: real, i: int, d: LevelDraws): Level {
    Level(current + (i * 5) as real + d.jitter * 2.0, d.amount * 2.0)
  }

  /** The bid `i` steps below `current`: five per step minus a jitter in [0, 2). */
  function BidLevel(current: real, i: int, d: LevelDraws): Level {
    Level(current - (i * 5) as real - d.jitter * 2.0, d.amount * 2.0)
  }

  /** Every ask lies above every bid. */
  ghost predicate NotCrossed(b: Book) {
    forall a, q :: 0 <= a < |b.asks| && 0 <= q < |b.bids| ==> b.asks[a].price > b.bids[q].price
  }

  /** A side listed in strictly descending price. */
  ghost predicate Descending(levels: seq<Level>) {
    forall j, k :: 0 <= j < k < |levels| ==> levels[j].price > levels[k].price
  }

  /** renderOrderBook: the two loops of the source, the ask loop counting i down
      from 8 and the bid loop counting i up from 1, each taking its draws in order. */
  method RenderOrderBook(current: real, askDraws: seq<LevelDraws>, bidDraws: seq<LevelDraws>) returns (b: Book)
    requires ValidLevelDraws(askDraws) && ValidLevelDraws(bidDraws)
    ensures |b.asks| == Depth && |b.bids| == Depth
    ensures forall k :: 0 <= k < Depth ==>
      && b.asks[k] == AskLevel(current, Depth - k, askDraws[k])
      && b.bids[k] == BidLevel(current, k + 1, bidDraws[k])
    ensures forall k :: 0 <= k < Depth ==>
      && current + 5.0 <= b.asks[k].price < current + 42.0
      && current - 42.0 < b.bids[k].price <= current - 5.0
      && 0.0 <= b.asks[k].amount < 2.0
      && 0.0 <= b.bids[k].amount < 2.0
    ensures Descending(b.asks) && Descending(b.bids)
    ensures NotCrossed(b)
    ensures b.asks[Depth - 1].price - b.bids[0].price >= 10.0
  {
    var asks: seq<Level> := [];
    var i := Depth;
    while i > 0
      invariant 0 <= i <= Depth
      invariant |asks| == Depth - i
      invariant forall k :: 0 <= k < |asks| ==> asks[k] == AskLevel(current, Depth - k, askDraws[k])
      invariant forall k :: 0 <= k < |asks| ==>
        current + ((Depth - k) * 5) as real <= asks[k].price < current + ((Depth - k) * 5) as real + 2.0
    {
      asks := asks + [AskLevel(current, i, askDraws[Depth - i])];
      i := i - 1;
    }
    var bids: seq<Level> := [];
    i := 1;
    while i <= Depth
      invariant 1 <= i <= Depth + 1
      invariant |bids| == i - 1
      invariant forall k :: 0 <= k < |bids| ==> bids[k] == BidLevel(current, k + 1, bidDraws[k])
      invariant forall k :: 0 <= k < |bids| ==>
        current - ((k + 1) * 5) as real - 2.0 < bids[k].price <= current - ((k + 1) * 5) as real
    {
      bids := bids + [BidLevel(current, i, bidDraws[i - 1])];
      i := i + 1;
    }
    b := Book(asks, bids);
  }
}
