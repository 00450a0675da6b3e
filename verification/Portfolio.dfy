/** Positions, prices, limits, and the risk rules as facts about whole portfolios (src/trading/engine.cpp). */
module Portfolio {
  import opened Common

  type Book = map<string, real>

  type Prices = map<string, real>

  /** A limit that is not positive is switched off. */
  datatype Limits = Limits(maxPosition: real, maxExposure: real)

  datatype Side = Buy | Sell

  datatype Order = Order(serial: nat, symbol: string, quantity: real, limitPrice: Option<real>, side: Side)

  function Abs(x: real): real {
    if x < 0.0 then -x else x
  }

  function Signed(o: Order): real {
    if o.side.Buy? then o.quantity else -o.quantity
  }

  function Position(book: Book, symbol: string): real {
    if symbol in book then book[symbol] else 0.0
  }

  /** The book after an order has been executed. */
  function Applied(book: Book, o: Order): Book {
    book[o.symbol := Position(book, o.symbol) + Signed(o)]
  }

  predicate Priced(prices: Prices, symbol: string) {
    symbol in prices && prices[symbol] > 0.0
  }

  predicate AllPriced(book: Book, prices: Prices) {
    forall s <- book :: Priced(prices, s)
  }

  function Notional(prices: Prices, symbol: string, quantity: real): real {
    if Priced(prices, symbol) then Abs(quantity) * prices[symbol] else 0.0
  }

  // Exposure: a sum over a map, independent of the order it is walked in.

  ghost function Pick(s: set<string>): (x: string)
    requires s != {}
    ensures x in s
  {
    var x :| x in s; x
  }

  ghost function Total(book: Book, prices: Prices, symbols: set<string>): real
    requires symbols <= book.Keys
    decreases |symbols|
  {
    if symbols == {} then 0.0 else
      var s := Pick(symbols);
      Notional(prices, s, book[s]) + Total(book, prices, symbols - {s})
  }

  ghost function Exposure(book: Book, prices: Prices): real {
    Total(book, prices, book.Keys)
  }

  /** Any symbol may be taken out of the sum first. */
  lemma {:induction false} TotalSplit(book: Book, prices: Prices, symbols: set<string>, s: string)
    requires symbols <= book.Keys && s in symbols
    ensures Total(book, prices, symbols) == Notional(prices, s, book[s]) + Total(book, prices, symbols - {s})
    decreases |symbols|
  {
    var p := Pick(symbols);
    if p != s {
      TotalSplit(book, prices, symbols - {p}, s);
      TotalSplit(book, prices, symbols - {s}, p);
      assert symbols - {p} - {s} == symbols - {s} - {p};
    }
  }

  lemma {:induction false} TotalCongruent(book: Book, other: Book, prices: Prices, symbols: set<string>)
    requires symbols <= book.Keys && symbols <= other.Keys
    requires forall s <- symbols :: book[s] == other[s]
    ensures Total(book, prices, symbols) == Total(other, prices, symbols)
    decreases |symbols|
  {
    if symbols != {} {
      TotalCongruent(book, other, prices, symbols - {Pick(symbols)});
    }
  }

  lemma {:induction false} TotalNonNegative(book: Book, prices: Prices, symbols: set<string>)
    requires symbols <= book.Keys
    ensures Total(book, prices, symbols) >= 0.0
    decreases |symbols|
  {
    if symbols != {} {
      TotalNonNegative(book, prices, symbols - {Pick(symbols)});
    }
  }

  /** One entry's share of the exposure never exceeds the whole. */
  lemma NotionalWithinExposure(book: Book, prices: Prices, s: string)
    requires s in book
    ensures Notional(prices, s, book[s]) <= Exposure(book, prices)
  {
    TotalSplit(book, prices, book.Keys, s);
    TotalNonNegative(book, prices, book.Keys - {s});
  }

  /** Executing an order changes exactly one term of the exposure. */
  lemma ExposureApplied(book: Book, prices: Prices, o: Order)
    ensures Exposure(Applied(book, o), prices)
         == Notional(prices, o.symbol, Applied(book, o)[o.symbol]) + Total(book, prices, book.Keys - {o.symbol})
  {
    var after := Applied(book, o);
    TotalSplit(after, prices, after.Keys, o.symbol);
    assert after.Keys - {o.symbol} == book.Keys - {o.symbol};
    TotalCongruent(after, book, prices, book.Keys - {o.symbol});
  }

  /** Size times price. */
  function Worth(quantity: real, price: real): real {
    (if quantity < 0.0 then -quantity else quantity) * price
  }

  /** The exposure of the listed symbols, one after the other. */
  function ListExposure(book: Book, prices: Prices, symbols: seq<string>): real
    requires forall s <- symbols :: s in book && s in prices
  {
    if |symbols| == 0 then 0.0 else
      var s := symbols[|symbols| - 1];
      ListExposure(book, prices, symbols[..|symbols| - 1]) + Worth(book[s], prices[s])
  }

  /** The list names every symbol of the set once. */
  ghost predicate Lists(list: seq<string>, symbols: set<string>) {
    && (forall i, j :: 0 <= i < j < |list| ==> list[i] != list[j])
    && (forall s :: s in list <==> s in symbols)
  }

  /** Every set of symbols can be listed. */
  lemma {:induction false} ListOf(symbols: set<string>) returns (list: seq<string>)
    ensures Lists(list, symbols)
    decreases |symbols|
  {
    if symbols == {} {
      list := [];
    } else {
      var s := Pick(symbols);
      var rest := ListOf(symbols - {s});
      assert s !in rest;
      list := rest + [s];
      assert forall i :: 0 <= i < |rest| ==> list[i] == rest[i] && list[i] in rest;
    }
  }

  /** The sum over priced symbols is the sum of size times price, in whatever order they are listed. */
  lemma {:induction false} TotalIsList(book: Book, prices: Prices, symbols: set<string>, list: seq<string>)
    requires symbols <= book.Keys && Lists(list, symbols)
    requires forall s <- list :: s in prices && prices[s] > 0.0
    ensures Total(book, prices, symbols) == ListExposure(book, prices, list)
  {
    if |list| == 0 {
      assert symbols == {};
    } else {
      var n := |list| - 1;
      var s := list[n];
      assert s in list;
      ListsRest(list, symbols);
      assert forall t <- list[..n] :: t in list;
      TotalIsList(book, prices, symbols - {s}, list[..n]);
      TotalSplit(book, prices, symbols, s);
      NotionalIs(prices, s, book[s]);
    }
  }

  lemma NotionalIs(prices: Prices, symbol: string, quantity: real)
    requires symbol in prices && prices[symbol] > 0.0
    ensures Notional(prices, symbol, quantity) == Worth(quantity, prices[symbol])
  {
  }

  lemma ListsRest(list: seq<string>, symbols: set<string>)
    requires |list| > 0 && Lists(list, symbols)
    ensures Lists(list[..|list| - 1], symbols - {list[|list| - 1]})
  {
    var n := |list| - 1;
    forall s ensures s in list[..n] <==> s in symbols && s != list[n] {
      if s in list && s != list[n] {
        var i :| 0 <= i < |list| && list[i] == s;
        assert list[..n][i] == s;
      }
      if s in list[..n] {
        var i :| 0 <= i < n && list[..n][i] == s;
        assert list[i] == s;
      }
    }
  }

  /** The exposure of a fully priced book. */
  lemma ExposureIsList(book: Book, prices: Prices, list: seq<string>)
    requires Lists(list, book.Keys) && forall s <- book :: s in prices && prices[s] > 0.0
    ensures Exposure(book, prices) == ListExposure(book, prices, list)
  {
    TotalIsList(book, prices, book.Keys, list);
  }

  // The rules.

  /** An order passes when the portfolio after it meets the enabled limits, valued at known prices. */
  ghost predicate Accepts(book: Book, prices: Prices, limits: Limits, o: Order) {
    var after := Applied(book, o);
    && (limits.maxPosition > 0.0 ==> Abs(after[o.symbol]) <= limits.maxPosition)
    && (limits.maxExposure > 0.0 ==> AllPriced(after, prices) && Exposure(after, prices) <= limits.maxExposure)
  }

  /** The position an order leads to: a buy adds its quantity to what is held, a sell takes it away. */
  lemma AppliedPosition(book: Book, o: Order)
    ensures o.symbol in Applied(book, o)
    ensures var held := if o.symbol in book then book[o.symbol] else 0.0;
      && (o.side == Buy ==> Applied(book, o)[o.symbol] == held + o.quantity)
      && (o.side == Sell ==> Applied(book, o)[o.symbol] == held - o.quantity)
    ensures forall s :: s != o.symbol ==> (s in Applied(book, o) <==> s in book)
    ensures forall s <- book :: s != o.symbol ==> Applied(book, o)[s] == book[s]
  {
  }

  /**
   The gate written out. `q` is the position the order leads to; `others` lists the other symbols held, in any
   order. An enabled position limit bounds `q` on both sides. With the exposure limit on, the order's symbol and
   all the others must have positive prices, and the sizes times prices must stay within the limit.
   */
  lemma GateMeans(book: Book, prices: Prices, limits: Limits, o: Order, others: seq<string>, q: real)
    requires Lists(others, book.Keys - {o.symbol})
    requires o.side == Buy ==> q == (if o.symbol in book then book[o.symbol] else 0.0) + o.quantity
    requires o.side == Sell ==> q == (if o.symbol in book then book[o.symbol] else 0.0) - o.quantity
    ensures Accepts(book, prices, limits, o)
       <==> && (limits.maxPosition > 0.0 ==> -limits.maxPosition <= q <= limits.maxPosition)
            && (limits.maxExposure > 0.0 ==>
                  && o.symbol in prices && prices[o.symbol] > 0.0
                  && (forall s <- others :: s in prices && prices[s] > 0.0)
                  && Worth(q, prices[o.symbol]) + ListExposure(book, prices, others) <= limits.maxExposure)
  {
    AppliedPosition(book, o);
    AppliedPriced(book, prices, o, others);
    SizeWithin(q, limits.maxPosition);
    AcceptsIs(book, prices, limits, o, q);
    if AllPriced(Applied(book, o), prices) {
      AppliedExposure(book, prices, o, others, q);
    }
  }

  lemma AcceptsIs(book: Book, prices: Prices, limits: Limits, o: Order, q: real)
    requires o.symbol in Applied(book, o) && Applied(book, o)[o.symbol] == q
    ensures Accepts(book, prices, limits, o)
       <==> && (limits.maxPosition > 0.0 ==> Abs(q) <= limits.maxPosition)
            && (limits.maxExposure > 0.0 ==>
                  AllPriced(Applied(book, o), prices) && Exposure(Applied(book, o), prices) <= limits.maxExposure)
  {
  }

  lemma SizeWithin(q: real, limit: real)
    ensures Abs(q) <= limit <==> -limit <= q <= limit
  {
  }

  lemma AppliedExposure(book: Book, prices: Prices, o: Order, others: seq<string>, q: real)
    requires Lists(others, book.Keys - {o.symbol}) && Applied(book, o)[o.symbol] == q
    requires o.symbol in prices && prices[o.symbol] > 0.0
    requires forall s <- others :: s in book && s in prices && prices[s] > 0.0
    ensures Exposure(Applied(book, o), prices)
         == Worth(q, prices[o.symbol]) + ListExposure(book, prices, others)
  {
    ExposureApplied(book, prices, o);
    TotalIsList(book, prices, book.Keys - {o.symbol}, others);
    NotionalIs(prices, o.symbol, q);
  }

  lemma AppliedPriced(book: Book, prices: Prices, o: Order, others: seq<string>)
    requires Lists(others, book.Keys - {o.symbol})
    ensures AllPriced(Applied(book, o), prices)
       <==> && o.symbol in prices && prices[o.symbol] > 0.0
            && forall s <- others :: s in prices && prices[s] > 0.0
  {
    assert forall s :: s in others <==> s in book && s != o.symbol;
    if AllPriced(Applied(book, o), prices) {
      assert Priced(prices, o.symbol);
      forall s | s in others ensures s in prices && prices[s] > 0.0 {
        assert Priced(prices, s);
      }
    }
  }

  datatype Warning =
    | NoPrice(symbol: string)
    | PositionBreach(symbol: string)
    | ExposureBreach(symbol: string)
    | AggregateBreach
    | AggregateUnknown

  /** The warnings that are due. An unpriced symbol's position limit is not looked at. */
  ghost predicate Due(book: Book, prices: Prices, limits: Limits, w: Warning) {
    match w
    case NoPrice(s) => s in book && !Priced(prices, s)
    case PositionBreach(s) =>
      s in book && Priced(prices, s) && limits.maxPosition > 0.0 && Abs(book[s]) > limits.maxPosition
    case ExposureBreach(s) =>
      s in book && Priced(prices, s) && limits.maxExposure > 0.0 && Notional(prices, s, book[s]) > limits.maxExposure
    case AggregateBreach =>
      limits.maxExposure > 0.0 && AllPriced(book, prices) && Exposure(book, prices) > limits.maxExposure
    case AggregateUnknown =>
      limits.maxExposure > 0.0 && !AllPriced(book, prices)
  }

  /** The warnings written out; `list` names the symbols held, in any order. */
  lemma DueMeans(book: Book, prices: Prices, limits: Limits, list: seq<string>, s: string)
    requires Lists(list, book.Keys)
    ensures Due(book, prices, limits, NoPrice(s)) <==> s in book && !(s in prices && prices[s] > 0.0)
    ensures Due(book, prices, limits, PositionBreach(s))
       <==> && s in book && s in prices && prices[s] > 0.0
            && limits.maxPosition > 0.0 && !(-limits.maxPosition <= book[s] <= limits.maxPosition)
    ensures Due(book, prices, limits, ExposureBreach(s))
       <==> && s in book && s in prices && prices[s] > 0.0
            && limits.maxExposure > 0.0 && Worth(book[s], prices[s]) > limits.maxExposure
    ensures Due(book, prices, limits, AggregateBreach)
       <==> && limits.maxExposure > 0.0 && (forall t <- list :: t in prices && prices[t] > 0.0)
            && ListExposure(book, prices, list) > limits.maxExposure
    ensures Due(book, prices, limits, AggregateUnknown)
       <==> limits.maxExposure > 0.0 && exists t <- list :: !(t in prices && prices[t] > 0.0)
  {
    AllPricedIs(book, prices, list);
    if s in book && s in prices && prices[s] > 0.0 {
      SizeWithin(book[s], limits.maxPosition);
      NotionalIs(prices, s, book[s]);
    }
    if AllPriced(book, prices) {
      ExposureIsList(book, prices, list);
    }
  }

  lemma AllPricedIs(book: Book, prices: Prices, list: seq<string>)
    requires Lists(list, book.Keys)
    ensures AllPriced(book, prices) <==> forall t <- list :: t in prices && prices[t] > 0.0
    ensures AllPriced(book, prices) <==> forall t <- book :: t in prices && prices[t] > 0.0
  {
    forall t ensures Priced(prices, t) <==> t in prices && prices[t] > 0.0 {
    }
  }

  /** Every held symbol is priced and the enabled limits hold. */
  ghost predicate Healthy(book: Book, prices: Prices, limits: Limits) {
    && AllPriced(book, prices)
    && (limits.maxPosition > 0.0 ==> forall s <- book :: Abs(book[s]) <= limits.maxPosition)
    && (limits.maxExposure > 0.0 ==> Exposure(book, prices) <= limits.maxExposure)
  }

  /** No warning is due exactly when the portfolio is healthy: a breach by one symbol is a breach of the aggregate. */
  lemma MonitorAgrees(book: Book, prices: Prices, limits: Limits)
    ensures (forall w :: !Due(book, prices, limits, w)) <==> Healthy(book, prices, limits)
  {
    if forall w :: !Due(book, prices, limits, w) {
      forall s | s in book
        ensures Priced(prices, s) && (limits.maxPosition > 0.0 ==> Abs(book[s]) <= limits.maxPosition)
      {
        assert !Due(book, prices, limits, NoPrice(s));
        assert !Due(book, prices, limits, PositionBreach(s));
      }
      assert !Due(book, prices, limits, AggregateBreach);
    }
    if Healthy(book, prices, limits) {
      forall w ensures !Due(book, prices, limits, w) {
        if w.ExposureBreach? && w.symbol in book {
          NotionalWithinExposure(book, prices, w.symbol);
        }
      }
    }
  }

  /** The enabled limits hold, the exposure limit at known prices. */
  ghost predicate WithinLimits(book: Book, prices: Prices, limits: Limits) {
    && (limits.maxPosition > 0.0 ==> forall s <- book :: Abs(book[s]) <= limits.maxPosition)
    && (limits.maxExposure > 0.0 ==> AllPriced(book, prices) && Exposure(book, prices) <= limits.maxExposure)
  }

  /** The gate keeps the enabled limits. */
  lemma AcceptedKeepsLimits(book: Book, prices: Prices, limits: Limits, o: Order)
    requires WithinLimits(book, prices, limits) && Accepts(book, prices, limits, o)
    ensures WithinLimits(Applied(book, o), prices, limits)
  {
  }

  /**
   The gate keeps the monitor silent. With the exposure limit switched off it does not look at prices, so
   silence is kept exactly when the order's symbol has one.
   */
  lemma AcceptedKeepsHealthy(book: Book, prices: Prices, limits: Limits, o: Order)
    requires Healthy(book, prices, limits) && Accepts(book, prices, limits, o)
    ensures Healthy(Applied(book, o), prices, limits) <==> limits.maxExposure > 0.0 || Priced(prices, o.symbol)
  {
  }

  /** An accepted order that makes the monitor speak. */
  lemma AcceptedUnpricedOrder(limits: Limits, o: Order)
    requires limits == Limits(0.0, 0.0) && o == Order(1, "COIN", 1.0, None, Buy)
    ensures Healthy(map[], map[], limits) && Accepts(map[], map[], limits, o)
    ensures Due(Applied(map[], o), map[], limits, NoPrice("COIN"))
  {
  }

  /** An order that brings a position closer to zero, or across it to no greater size, is never blocked. */
  lemma ReducingIsAccepted(book: Book, prices: Prices, limits: Limits, o: Order)
    requires Healthy(book, prices, limits) && o.quantity > 0.0
    requires Abs(Position(book, o.symbol) + Signed(o)) <= Abs(Position(book, o.symbol))
    ensures Accepts(book, prices, limits, o)
  {
    assert o.symbol in book;
    ReducingExposure(book, prices, o);
  }

  lemma ReducingExposure(book: Book, prices: Prices, o: Order)
    requires o.symbol in book
    requires Abs(Applied(book, o)[o.symbol]) <= Abs(book[o.symbol])
    ensures Exposure(Applied(book, o), prices) <= Exposure(book, prices)
  {
    ExposureApplied(book, prices, o);
    TotalSplit(book, prices, book.Keys, o.symbol);
    NotionalMonotone(prices, o.symbol, Applied(book, o)[o.symbol], book[o.symbol]);
  }

  lemma NotionalMonotone(prices: Prices, symbol: string, x: real, y: real)
    requires Abs(x) <= Abs(y)
    ensures Notional(prices, symbol, x) <= Notional(prices, symbol, y)
  {
    if Priced(prices, symbol) {
      MulMonotone(Abs(x), Abs(y), prices[symbol]);
    }
  }

  lemma MulMonotone(x: real, y: real, p: real)
    requires x <= y && p > 0.0
    ensures x * p <= y * p
  {
  }
}
