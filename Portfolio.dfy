/** Portfolio aggregation, `TradingRepository.getPortfolio` (Repository.kt:56-77): a pure
    function of the trade ledger that groups trades by symbol in first-seen order, nets
    each symbol's quantities (SELL negative), averages the BUY execution prices, values
    the position at a fixed mark price and keeps only positions that are net long.

    `GetPortfolio` computes the net quantity exactly; `GetPortfolioAsWritten` keeps the
    source's 32-bit `Int` running sum, which wraps (see the two lemmas at the end). */
module Portfolio {
  import opened Kotlin
  import opened Models

  /** Mock market price every holding is valued at (Repository.kt:74). */
  const MARK_PRICE: real := 2500.0

  // ---------------------------------------------------------------------------
  // The ledger seen one symbol at a time

  /** Index of the first trade for `symbol` in `ledger`, or `|ledger|` when there is none. */
  function FirstIndex(ledger: seq<Trade>, symbol: string): (k: nat)
    ensures k <= |ledger|
  {
    if ledger == [] then 0
    else
      var n := |ledger| - 1;
      var k := FirstIndex(ledger[..n], symbol);
      if k < n then k else if ledger[n].symbol == symbol then n else n + 1
  }

  /** `FirstIndex` is the position of the first trade for the symbol: no earlier trade is
      for it, and the index is in range exactly when some trade is. */
  lemma {:induction false} FirstIndexIsFirst(ledger: seq<Trade>, symbol: string)
    ensures var k := FirstIndex(ledger, symbol);
      && (k < |ledger| ==> ledger[k].symbol == symbol)
      && (forall m :: 0 <= m < k ==> ledger[m].symbol != symbol)
  {
    if ledger != [] {
      FirstIndexIsFirst(ledger[..|ledger| - 1], symbol);
    }
  }

  /** Some trade in `ledger` is for `symbol`. */
  predicate Traded(ledger: seq<Trade>, symbol: string) {
    FirstIndex(ledger, symbol) < |ledger|
  }

  /** The trades for `symbol`, in ledger order. */
  function TradesOf(ledger: seq<Trade>, symbol: string): (r: seq<Trade>)
    ensures !Traded(ledger, symbol) ==> r == []
  {
    if ledger == [] then []
    else
      var n := |ledger| - 1;
      TradesOf(ledger[..n], symbol) + (if ledger[n].symbol == symbol then [ledger[n]] else [])
  }

  /** Selecting a symbol's trades keeps only trades of the ledger, all for that symbol. */
  lemma {:induction false} TradesOfSelects(ledger: seq<Trade>, symbol: string)
    ensures forall t :: t in TradesOf(ledger, symbol) ==> t in ledger && t.symbol == symbol
  {
    if ledger != [] {
      var n := |ledger| - 1;
      TradesOfSelects(ledger[..n], symbol);
      forall t | t in TradesOf(ledger[..n], symbol) ensures t in ledger {
        assert t in ledger[..n];
      }
    }
  }

  /** Symbols listed in the order in which each first occurs in `ledger`; as the order
      is strict, no symbol is listed twice. */
  predicate FirstSeenOrder(ledger: seq<Trade>, symbols: seq<string>) {
    forall i, j :: 0 <= i < j < |symbols| ==>
      FirstIndex(ledger, symbols[i]) < FirstIndex(ledger, symbols[j])
  }

  // ---------------------------------------------------------------------------
  // groupBy { it.symbol }

  /** The map that Kotlin's `groupBy { it.symbol }` builds: each symbol's trades, and the
      order in which the map iterates its keys. */
  datatype Groups = Groups(keys: seq<string>, members: map<string, seq<Trade>>)

  /** `allTrades.groupBy { it.symbol }` (Repository.kt:58): each trade is appended to its
      symbol's list, and a symbol seen for the first time becomes the last key. */
  function GroupBySymbol(ledger: seq<Trade>): (g: Groups)
    ensures forall s :: s in g.members <==> s in g.keys
  {
    if ledger == [] then Groups([], map[])
    else
      var g := GroupBySymbol(ledger[..|ledger| - 1]);
      var t := ledger[|ledger| - 1];
      if t.symbol in g.members then
        Groups(g.keys, g.members[t.symbol := g.members[t.symbol] + [t]])
      else
        Groups(g.keys + [t.symbol], g.members[t.symbol := [t]])
  }

  /** The grouping has one group per traded symbol... */
  ghost predicate KeysAreTraded(ledger: seq<Trade>, g: Groups) {
    forall s :: s in g.members <==> Traded(ledger, s)
  }

  /** ...which holds exactly that symbol's trades, in ledger order. */
  ghost predicate MembersAreTrades(ledger: seq<Trade>, g: Groups) {
    forall s :: s in g.members ==> g.members[s] == TradesOf(ledger, s)
  }

  /** Appending one trade to the ledger moves the first index of no symbol already traded. */
  lemma FirstIndexAppend(ledger: seq<Trade>, s: string)
    requires ledger != []
    ensures var n := |ledger| - 1;
      FirstIndex(ledger, s) ==
        if Traded(ledger[..n], s) then FirstIndex(ledger[..n], s)
        else if ledger[n].symbol == s then n else n + 1
  {
  }

  lemma GroupBySymbolKeysStep(ledger: seq<Trade>)
    requires ledger != []
    requires KeysAreTraded(ledger[..|ledger| - 1], GroupBySymbol(ledger[..|ledger| - 1]))
    ensures KeysAreTraded(ledger, GroupBySymbol(ledger))
  {
    var n := |ledger| - 1;
    forall s
      ensures s in GroupBySymbol(ledger).members <==> Traded(ledger, s)
    {
      FirstIndexAppend(ledger, s);
    }
  }

  lemma GroupBySymbolMembersStep(ledger: seq<Trade>)
    requires ledger != []
    requires KeysAreTraded(ledger[..|ledger| - 1], GroupBySymbol(ledger[..|ledger| - 1]))
    requires MembersAreTrades(ledger[..|ledger| - 1], GroupBySymbol(ledger[..|ledger| - 1]))
    ensures MembersAreTrades(ledger, GroupBySymbol(ledger))
  {
    var n := |ledger| - 1;
    var prefix, t := ledger[..n], ledger[n];
    var g0, g := GroupBySymbol(prefix), GroupBySymbol(ledger);
    forall s | s in g.members
      ensures g.members[s] == TradesOf(ledger, s)
    {
      assert TradesOf(ledger, s) == TradesOf(prefix, s) + (if t.symbol == s then [t] else []);
      if s != t.symbol {
        assert g.members[s] == g0.members[s];
      } else if s !in g0.members {
        assert !Traded(prefix, s);
      }
    }
  }

  lemma SnocKeepsOrder(ledger: seq<Trade>, symbols: seq<string>, symbol: string)
    requires FirstSeenOrder(ledger, symbols)
    requires forall j :: 0 <= j < |symbols| ==> FirstIndex(ledger, symbols[j]) < FirstIndex(ledger, symbol)
    ensures FirstSeenOrder(ledger, symbols + [symbol])
  {
    var all := symbols + [symbol];
    forall i, j | 0 <= i < j < |all|
      ensures FirstIndex(ledger, all[i]) < FirstIndex(ledger, all[j])
    {
      assert all[i] == symbols[i];
      if j < |symbols| {
        assert all[j] == symbols[j];
      }
    }
  }

  lemma GroupBySymbolOrderStep(ledger: seq<Trade>)
    requires ledger != []
    requires KeysAreTraded(ledger[..|ledger| - 1], GroupBySymbol(ledger[..|ledger| - 1]))
    requires FirstSeenOrder(ledger[..|ledger| - 1], GroupBySymbol(ledger[..|ledger| - 1]).keys)
    ensures FirstSeenOrder(ledger, GroupBySymbol(ledger).keys)
  {
    var n := |ledger| - 1;
    var prefix, t := ledger[..n], ledger[n];
    var keys := GroupBySymbol(prefix).keys;
    forall i | 0 <= i < |keys|
      ensures FirstIndex(ledger, keys[i]) == FirstIndex(prefix, keys[i]) < n
    {
      assert keys[i] in GroupBySymbol(prefix).members;
      FirstIndexAppend(ledger, keys[i]);
    }
    assert FirstSeenOrder(ledger, keys);
    if t.symbol !in GroupBySymbol(prefix).members {
      FirstIndexAppend(ledger, t.symbol);
      SnocKeepsOrder(ledger, keys, t.symbol);
    }
  }

  /** The grouping has one group per traded symbol, holding exactly that symbol's trades
      in ledger order, and lists the symbols in first-seen order. */
  lemma {:induction false} GroupBySymbolSpec(ledger: seq<Trade>)
    ensures KeysAreTraded(ledger, GroupBySymbol(ledger))
    ensures MembersAreTrades(ledger, GroupBySymbol(ledger))
    ensures FirstSeenOrder(ledger, GroupBySymbol(ledger).keys)
  {
    if ledger != [] {
      GroupBySymbolSpec(ledger[..|ledger| - 1]);
      GroupBySymbolKeysStep(ledger);
      GroupBySymbolMembersStep(ledger);
      GroupBySymbolOrderStep(ledger);
    }
  }

  // ---------------------------------------------------------------------------
  // One holding per group

  /** A trade's contribution to the net position: the side "SELL" subtracts, any other
      side adds (Repository.kt:62-64). */
  function SignedQuantity(t: Trade): int {
    if t.side == "SELL" then -(t.quantity as int) else t.quantity
  }

  /** Net position of `trades`, computed exactly. */
  function NetQuantity(trades: seq<Trade>): int {
    if trades == [] then 0
    else NetQuantity(trades[..|trades| - 1]) + SignedQuantity(trades[|trades| - 1])
  }

  /** The trades whose side is exactly "SELL". */
  function Sells(trades: seq<Trade>): seq<Trade> {
    if trades == [] then []
    else
      var n := |trades| - 1;
      Sells(trades[..n]) + (if trades[n].side == "SELL" then [trades[n]] else [])
  }

  /** The trades whose side is anything but "SELL". */
  function NonSells(trades: seq<Trade>): seq<Trade> {
    if trades == [] then []
    else
      var n := |trades| - 1;
      NonSells(trades[..n]) + (if trades[n].side != "SELL" then [trades[n]] else [])
  }

  /** Sum of the quantities of `trades`, all counted positive. */
  function TotalQuantity(trades: seq<Trade>): int {
    if trades == [] then 0
    else TotalQuantity(trades[..|trades| - 1]) + trades[|trades| - 1].quantity
  }

  lemma {:induction false} TotalQuantityAppend(trades: seq<Trade>, more: seq<Trade>)
    ensures TotalQuantity(trades + more) == TotalQuantity(trades) + TotalQuantity(more)
  {
    if more != [] {
      var n := |more| - 1;
      var all := trades + more;
      assert all[..|all| - 1] == trades + more[..n];
      assert all[|all| - 1] == more[n];
      assert TotalQuantity(all) == TotalQuantity(trades + more[..n]) + more[n].quantity;
      TotalQuantityAppend(trades, more[..n]);
      assert TotalQuantity(more) == TotalQuantity(more[..n]) + more[n].quantity;
    } else {
      assert trades + more == trades;
    }
  }

  /** The net position is what was bought (every non-SELL trade) minus what was sold. */
  lemma {:induction false} NetQuantityIsBoughtMinusSold(trades: seq<Trade>)
    ensures NetQuantity(trades) == TotalQuantity(NonSells(trades)) - TotalQuantity(Sells(trades))
  {
    if trades != [] {
      var n := |trades| - 1;
      var t := trades[n];
      NetQuantityIsBoughtMinusSold(trades[..n]);
      assert TotalQuantity([t]) == t.quantity by { assert [t][..0] == []; }
      assert NetQuantity(trades) == NetQuantity(trades[..n]) + SignedQuantity(t);
      if t.side == "SELL" {
        assert Sells(trades) == Sells(trades[..n]) + [t];
        assert NonSells(trades) == NonSells(trades[..n]);
        TotalQuantityAppend(Sells(trades[..n]), [t]);
      } else {
        assert NonSells(trades) == NonSells(trades[..n]) + [t];
        assert Sells(trades) == Sells(trades[..n]);
        TotalQuantityAppend(NonSells(trades[..n]), [t]);
      }
    }
  }

  /** Execution prices of the trades whose side is exactly "BUY", in ledger order
      (Repository.kt:67). */
  function BuyPrices(trades: seq<Trade>): (r: seq<real>)
    ensures r == [] <==> forall t :: t in trades ==> t.side != "BUY"
  {
    if trades == [] then []
    else
      var n := |trades| - 1;
      assert trades[n] in trades;
      BuyPrices(trades[..n]) + (if trades[n].side == "BUY" then [trades[n].executionPrice] else [])
  }

  function Sum(xs: seq<real>): real {
    if xs == [] then 0.0 else Sum(xs[..|xs| - 1]) + xs[|xs| - 1]
  }

  /** Arithmetic mean of the BUY execution prices, 0 when there are none (Repository.kt:68). */
  function AverageBuyPrice(trades: seq<Trade>): real {
    var prices := BuyPrices(trades);
    if prices == [] then 0.0 else Sum(prices) / (|prices| as real)
  }

  lemma {:induction false} SumWithin(xs: seq<real>, lo: real, hi: real)
    requires forall x :: x in xs ==> lo <= x <= hi
    ensures |xs| as real * lo <= Sum(xs) <= |xs| as real * hi
  {
    if xs != [] {
      var n := |xs| - 1;
      assert xs[n] in xs;
      forall x | x in xs[..n] ensures lo <= x <= hi {
        assert x in xs;
      }
      SumWithin(xs[..n], lo, hi);
    }
  }

  lemma {:induction false} BuyPricesWithin(trades: seq<Trade>, lo: real, hi: real)
    requires forall t :: t in trades && t.side == "BUY" ==> lo <= t.executionPrice <= hi
    ensures forall p :: p in BuyPrices(trades) ==> lo <= p <= hi
  {
    if trades != [] {
      var n := |trades| - 1;
      assert trades[n] in trades;
      BuyPricesWithin(trades[..n], lo, hi);
    }
  }

  lemma MeanWithin(sum: real, count: real, lo: real, hi: real)
    requires count > 0.0 && count * lo <= sum <= count * hi
    ensures lo <= sum / count <= hi
  {
    assert (sum / count) * count == sum;
  }

  /** The average BUY price is 0 when nothing was bought, and otherwise lies between the
      lowest and the highest BUY price; with positive prices it is 0 only when nothing was
      bought. */
  lemma AverageBuyPriceWithin(trades: seq<Trade>, lo: real, hi: real)
    requires forall t :: t in trades && t.side == "BUY" ==> lo <= t.executionPrice <= hi
    ensures (forall t :: t in trades ==> t.side != "BUY") ==> AverageBuyPrice(trades) == 0.0
    ensures (exists t :: t in trades && t.side == "BUY") ==> lo <= AverageBuyPrice(trades) <= hi
    ensures lo > 0.0 && AverageBuyPrice(trades) == 0.0 ==> forall t :: t in trades ==> t.side != "BUY"
  {
    var prices := BuyPrices(trades);
    if prices == [] {
      assert AverageBuyPrice(trades) == 0.0;
    } else {
      var count, sum := |prices| as real, Sum(prices);
      assert lo <= sum / count <= hi by {
        BuyPricesWithin(trades, lo, hi);
        SumWithin(prices, lo, hi);
        MeanWithin(sum, count, lo, hi);
      }
      assert AverageBuyPrice(trades) == sum / count;
    }
  }

  /** One element of `groupedBySymbol.map { (symbol, tradesList) -> ... }`
      (Repository.kt:60-75), with the net quantity computed exactly. */
  function Summarize(symbol: string, trades: seq<Trade>): PortfolioHolding {
    var quantity := NetQuantity(trades);
    PortfolioHolding(symbol, quantity, AverageBuyPrice(trades), quantity as real * MARK_PRICE)
  }

  /** `groupedBySymbol.map { ... }`: one summary per group, in key order. */
  function Holdings(g: Groups): seq<PortfolioHolding>
    requires forall s :: s in g.keys ==> s in g.members
  {
    seq(|g.keys|, i requires 0 <= i < |g.keys| => Summarize(g.keys[i], g.members[g.keys[i]]))
  }

  /** `.filter { it.quantity > 0 }` (Repository.kt:76). */
  function HeldOnly(holdings: seq<PortfolioHolding>): (r: seq<PortfolioHolding>)
    ensures forall h :: h in r <==> h in holdings && h.quantity > 0
  {
    if holdings == [] then []
    else (if holdings[0].quantity > 0 then [holdings[0]] else []) + HeldOnly(holdings[1..])
  }

  /** The symbols of `holdings`, in order. */
  function Symbols(holdings: seq<PortfolioHolding>): (r: seq<string>)
    ensures |r| == |holdings|
  {
    seq(|holdings|, i requires 0 <= i < |holdings| => holdings[i].symbol)
  }

  lemma ConsKeepsOrder(ledger: seq<Trade>, symbol: string, symbols: seq<string>)
    requires FirstSeenOrder(ledger, symbols)
    requires forall j :: 0 <= j < |symbols| ==> FirstIndex(ledger, symbol) < FirstIndex(ledger, symbols[j])
    ensures FirstSeenOrder(ledger, [symbol] + symbols)
  {
    var all := [symbol] + symbols;
    forall i, j | 0 <= i < j < |all|
      ensures FirstIndex(ledger, all[i]) < FirstIndex(ledger, all[j])
    {
      assert all[j] == symbols[j - 1];
      if i > 0 {
        assert all[i] == symbols[i - 1];
      }
    }
  }

  /** A holding after the first one is first seen after the first one. */
  lemma KeptSymbolFollows(ledger: seq<Trade>, holdings: seq<PortfolioHolding>, h: PortfolioHolding)
    requires FirstSeenOrder(ledger, Symbols(holdings))
    requires |holdings| > 0 && h in holdings[1..]
    ensures FirstIndex(ledger, holdings[0].symbol) < FirstIndex(ledger, h.symbol)
  {
    var syms := Symbols(holdings);
    var k :| 0 <= k < |holdings| - 1 && holdings[1..][k] == h;
    var m := k + 1;
    assert syms[0] == holdings[0].symbol && syms[m] == h.symbol;
  }

  lemma SymbolsCons(h: PortfolioHolding, holdings: seq<PortfolioHolding>)
    ensures Symbols([h] + holdings) == [h.symbol] + Symbols(holdings)
  {
    var all := [h] + holdings;
    var left, right := Symbols(all), [h.symbol] + Symbols(holdings);
    forall i | 0 <= i < |left|
      ensures left[i] == right[i]
    {
      if i > 0 {
        assert all[i] == holdings[i - 1];
      }
    }
  }

  /** Keeping the first holding in front of the filtered rest keeps first-seen order. */
  lemma KeptHeadKeepsOrder(ledger: seq<Trade>, holdings: seq<PortfolioHolding>)
    requires holdings != [] && holdings[0].quantity > 0
    requires FirstSeenOrder(ledger, Symbols(holdings))
    requires FirstSeenOrder(ledger, Symbols(HeldOnly(holdings[1..])))
    ensures FirstSeenOrder(ledger, Symbols(HeldOnly(holdings)))
  {
    var rest := holdings[1..];
    var kept := HeldOnly(rest);
    var ks := Symbols(kept);
    forall j | 0 <= j < |ks|
      ensures FirstIndex(ledger, holdings[0].symbol) < FirstIndex(ledger, ks[j])
    {
      assert kept[j] in rest && ks[j] == kept[j].symbol;
      KeptSymbolFollows(ledger, holdings, kept[j]);
    }
    ConsKeepsOrder(ledger, holdings[0].symbol, ks);
    assert HeldOnly(holdings) == [holdings[0]] + kept;
    SymbolsCons(holdings[0], kept);
  }

  /** Filtering keeps the first-seen order of what remains. */
  lemma {:induction false} HeldOnlyKeepsOrder(ledger: seq<Trade>, holdings: seq<PortfolioHolding>)
    requires FirstSeenOrder(ledger, Symbols(holdings))
    ensures FirstSeenOrder(ledger, Symbols(HeldOnly(holdings)))
  {
    if holdings != [] {
      var rest := holdings[1..];
      assert FirstSeenOrder(ledger, Symbols(rest)) by {
        assert Symbols(rest) == Symbols(holdings)[1..];
      }
      HeldOnlyKeepsOrder(ledger, rest);
      if holdings[0].quantity > 0 {
        KeptHeadKeepsOrder(ledger, holdings);
      } else {
        assert HeldOnly(holdings) == HeldOnly(rest);
      }
    }
  }

  /** `getPortfolio()` on the ledger snapshot, with exact net quantities. */
  function GetPortfolio(ledger: seq<Trade>): (holdings: seq<PortfolioHolding>)
    ensures forall h :: h in holdings ==> h.quantity > 0
  {
    HeldOnly(Holdings(GroupBySymbol(ledger)))
  }

  // ---------------------------------------------------------------------------
  // What the portfolio promises

  /** Before filtering, the holdings summarize each traded symbol's trades, in key order. */
  lemma HoldingsSummarizeTrades(ledger: seq<Trade>)
    ensures forall h :: h in Holdings(GroupBySymbol(ledger)) ==>
      Traded(ledger, h.symbol) && h == Summarize(h.symbol, TradesOf(ledger, h.symbol))
  {
    GroupBySymbolSpec(ledger);
    var g := GroupBySymbol(ledger);
    var all := Holdings(g);
    forall i | 0 <= i < |all|
      ensures Traded(ledger, all[i].symbol) && all[i] == Summarize(all[i].symbol, TradesOf(ledger, all[i].symbol))
    {
      assert g.keys[i] in g.members;
    }
  }

  /** Every holding is the summary of all trades for its symbol: a net long position,
      the mean BUY price, and the position valued at the mark price. */
  lemma PortfolioSummarizesEachSymbol(ledger: seq<Trade>)
    ensures forall h :: h in GetPortfolio(ledger) ==>
      && Traded(ledger, h.symbol)
      && h.quantity > 0
      && h.quantity == NetQuantity(TradesOf(ledger, h.symbol))
      && h.averagePrice == AverageBuyPrice(TradesOf(ledger, h.symbol))
      && h.currentValue == h.quantity as real * MARK_PRICE
  {
    HoldingsSummarizeTrades(ledger);
    var all := Holdings(GroupBySymbol(ledger));
    forall h | h in GetPortfolio(ledger)
      ensures Traded(ledger, h.symbol) && h == Summarize(h.symbol, TradesOf(ledger, h.symbol))
    {
      assert h in all;
    }
  }

  lemma NetLongSymbolIsHeld(ledger: seq<Trade>, s: string)
    requires Traded(ledger, s) && NetQuantity(TradesOf(ledger, s)) > 0
    ensures s in Symbols(GetPortfolio(ledger))
  {
    GroupBySymbolSpec(ledger);
    var g := GroupBySymbol(ledger);
    var all := Holdings(g);
    var p := GetPortfolio(ledger);
    assert s in g.members && g.members[s] == TradesOf(ledger, s);
    var i :| 0 <= i < |g.keys| && g.keys[i] == s;
    assert all[i] == Summarize(s, TradesOf(ledger, s));
    assert all[i] in p;
    var j :| 0 <= j < |p| && p[j] == all[i];
    assert Symbols(p)[j] == s;
  }

  lemma HeldSymbolIsNetLong(ledger: seq<Trade>, s: string)
    requires s in Symbols(GetPortfolio(ledger))
    ensures Traded(ledger, s) && NetQuantity(TradesOf(ledger, s)) > 0
  {
    PortfolioSummarizesEachSymbol(ledger);
    var p := GetPortfolio(ledger);
    var j :| 0 <= j < |p| && Symbols(p)[j] == s;
    assert p[j] in p;
  }

  /** A symbol is in the portfolio if and only if it was traded and its net position is
      positive: closed and net-short positions are hidden. */
  lemma PortfolioHoldsExactlyNetLongSymbols(ledger: seq<Trade>)
    ensures forall s :: s in Symbols(GetPortfolio(ledger)) <==>
      Traded(ledger, s) && NetQuantity(TradesOf(ledger, s)) > 0
  {
    forall s | Traded(ledger, s) && NetQuantity(TradesOf(ledger, s)) > 0
      ensures s in Symbols(GetPortfolio(ledger))
    {
      NetLongSymbolIsHeld(ledger, s);
    }
    forall s | s in Symbols(GetPortfolio(ledger))
      ensures Traded(ledger, s) && NetQuantity(TradesOf(ledger, s)) > 0
    {
      HeldSymbolIsNetLong(ledger, s);
    }
  }

  /** Holdings come in the order their symbols were first traded, each symbol at most once. */
  lemma PortfolioInFirstSeenOrder(ledger: seq<Trade>)
    ensures FirstSeenOrder(ledger, Symbols(GetPortfolio(ledger)))
    ensures forall i, j :: 0 <= i < j < |GetPortfolio(ledger)| ==>
      GetPortfolio(ledger)[i].symbol != GetPortfolio(ledger)[j].symbol
  {
    GroupBySymbolSpec(ledger);
    var g := GroupBySymbol(ledger);
    assert Symbols(Holdings(g)) == g.keys;
    HeldOnlyKeepsOrder(ledger, Holdings(g));
    var p := GetPortfolio(ledger);
    forall i, j | 0 <= i < j < |p|
      ensures p[i].symbol != p[j].symbol
    {
      assert Symbols(p)[i] == p[i].symbol && Symbols(p)[j] == p[j].symbol;
    }
  }

  /** When every BUY in the ledger executed at one price, every holding's average price is
      that price, or 0 for a position built without any BUY trade. */
  lemma PortfolioAverageAtUniformPrice(ledger: seq<Trade>, price: real)
    requires forall t :: t in ledger && t.side == "BUY" ==> t.executionPrice == price
    ensures forall h :: h in GetPortfolio(ledger) ==> h.averagePrice == price || h.averagePrice == 0.0
  {
    PortfolioSummarizesEachSymbol(ledger);
    forall h | h in GetPortfolio(ledger)
      ensures h.averagePrice == price || h.averagePrice == 0.0
    {
      TradesOfSelects(ledger, h.symbol);
      AverageBuyPriceWithin(TradesOf(ledger, h.symbol), price, price);
    }
  }

  // ---------------------------------------------------------------------------
  // Worked examples

  /** A non-empty sequence is its front followed by its last element. */
  lemma DropLastAppend<T>(xs: seq<T>)
    requires xs != []
    ensures xs[..|xs| - 1] + [xs[|xs| - 1]] == xs
  {
  }

  /** Appending a trade of the one symbol already grouped extends that one group. */
  lemma OneSymbolGroupStep(prefix: seq<Trade>, t: Trade, s: string)
    requires t.symbol == s
    requires prefix != [] ==>
      GroupBySymbol(prefix).keys == [s] && GroupBySymbol(prefix).members[s] == prefix
    ensures var g := GroupBySymbol(prefix + [t]); g.keys == [s] && g.members[s] == prefix + [t]
  {
    var ledger := prefix + [t];
    assert ledger[..|prefix|] == prefix && ledger[|prefix|] == t;
    if prefix == [] {
      assert GroupBySymbol([]) == Groups([], map[]);
    } else {
      assert s in GroupBySymbol(prefix).members;
    }
  }

  /** A ledger trading a single symbol groups into that one symbol. */
  lemma {:induction false} OneSymbolGroup(ledger: seq<Trade>, s: string)
    requires ledger != [] && forall t :: t in ledger ==> t.symbol == s
    ensures var g := GroupBySymbol(ledger); g.keys == [s] && g.members[s] == ledger
  {
    var n := |ledger| - 1;
    var prefix, t := ledger[..n], ledger[n];
    assert t in ledger;
    if n > 0 {
      forall u | u in prefix
        ensures u.symbol == s
      {
        assert u in ledger;
      }
      OneSymbolGroup(prefix, s);
    }
    OneSymbolGroupStep(prefix, t, s);
    DropLastAppend(ledger);
  }

  /** The portfolio of a ledger trading one symbol: its summary, if the position is long. */
  lemma OneSymbolPortfolio(ledger: seq<Trade>, s: string)
    requires ledger != [] && forall t :: t in ledger ==> t.symbol == s
    ensures GetPortfolio(ledger) ==
      if NetQuantity(ledger) > 0 then [Summarize(s, ledger)] else []
  {
    OneSymbolGroup(ledger, s);
    var g := GroupBySymbol(ledger);
    var hs := Holdings(g);
    assert |hs| == 1 && hs[0] == Summarize(s, ledger);
    assert HeldOnly(hs[1..]) == [] by { assert hs[1..] == []; }
  }

  /** An empty ledger gives an empty portfolio. */
  lemma EmptyLedgerHoldsNothing()
    ensures GetPortfolio([]) == []
  {
    assert GroupBySymbol([]) == Groups([], map[]);
  }

  /** Ten RELIANCE bought and three sold leave a holding of seven at the mark price. */
  lemma PartialSaleLeavesRemainder()
    ensures GetPortfolio([
        Trade("TRD-1", "RELIANCE", 10, "BUY", 2500.0, "t1"),
        Trade("TRD-2", "RELIANCE", 3, "SELL", 2500.0, "t2")])
      == [PortfolioHolding("RELIANCE", 7, 2500.0, 17500.0)]
  {
    var buy := Trade("TRD-1", "RELIANCE", 10, "BUY", 2500.0, "t1");
    var sell := Trade("TRD-2", "RELIANCE", 3, "SELL", 2500.0, "t2");
    var ledger := [buy, sell];
    assert ledger[..1] == [buy];
    assert [buy][..0] == [];
    assert NetQuantity([buy]) == 10;
    assert NetQuantity(ledger) == 7;
    assert BuyPrices(ledger) == [2500.0];
    assert Sum([2500.0]) == 2500.0 by { assert [2500.0][..0] == []; }
    OneSymbolPortfolio(ledger, "RELIANCE");
  }

  /** A lone TCS sale leaves a short position, which the portfolio does not show. */
  lemma ShortPositionIsHidden()
    ensures GetPortfolio([Trade("TRD-3", "TCS", 5, "SELL", 3400.0, "t3")]) == []
  {
    var tcs := Trade("TRD-3", "TCS", 5, "SELL", 3400.0, "t3");
    assert [tcs][..0] == [];
    assert NetQuantity([tcs]) == -5;
    OneSymbolPortfolio([tcs], "TCS");
  }

  /** A side other than "BUY" or "SELL" still adds to the position but not to the average:
      five shares recorded as "HOLD" are shown as held at an average price of 0. */
  lemma UnknownSideCountsAsBought()
    ensures GetPortfolio([Trade("TRD-4", "TCS", 5, "HOLD", 2500.0, "t4")])
      == [PortfolioHolding("TCS", 5, 0.0, 12500.0)]
  {
    var t := Trade("TRD-4", "TCS", 5, "HOLD", 2500.0, "t4");
    assert [t][..0] == [];
    assert NetQuantity([t]) == 5;
    assert BuyPrices([t]) == [];
    OneSymbolPortfolio([t], "TCS");
  }

  // ---------------------------------------------------------------------------
  // The source's 32-bit running sum

  /** `if (it.type == "SELL") -it.quantity else it.quantity` in `Int` arithmetic. */
  function SignedQuantityInt(t: Trade): Int32 {
    if t.side == "SELL" then Wrap(-(t.quantity as int)) else t.quantity
  }

  /** `tradesList.sumOf { ... }` over `Int` (Repository.kt:62-64): a running sum that wraps. */
  function NetQuantityInt(trades: seq<Trade>): Int32 {
    if trades == [] then 0
    else Wrap(NetQuantityInt(trades[..|trades| - 1]) + SignedQuantityInt(trades[|trades| - 1]))
  }

  /** The `Int` running sum is the exact net position wrapped to 32 bits, so the two agree
      exactly while the net position fits in an `Int`. */
  lemma {:induction false} NetQuantityIntWraps(trades: seq<Trade>)
    ensures NetQuantityInt(trades) == Wrap(NetQuantity(trades))
  {
    if trades != [] {
      var n := |trades| - 1;
      var prefix, t := trades[..n], trades[n];
      var a, b := NetQuantity(prefix), SignedQuantity(t);
      NetQuantityIntWraps(prefix);
      assert SignedQuantityInt(t) == Wrap(b);
      WrapSum(a, b);
      assert NetQuantity(trades) == a + b;
    }
  }

  /** One holding as the source computes it: the `Int` net quantity is what is filtered and valued. */
  function SummarizeAsWritten(symbol: string, trades: seq<Trade>): PortfolioHolding {
    var quantity := NetQuantityInt(trades);
    PortfolioHolding(symbol, quantity, AverageBuyPrice(trades), quantity as real * MARK_PRICE)
  }

  function HoldingsAsWritten(g: Groups): seq<PortfolioHolding>
    requires forall s :: s in g.keys ==> s in g.members
  {
    seq(|g.keys|, i requires 0 <= i < |g.keys| => SummarizeAsWritten(g.keys[i], g.members[g.keys[i]]))
  }

  /** `getPortfolio()` exactly as written, with the 32-bit running sum. */
  function GetPortfolioAsWritten(ledger: seq<Trade>): (holdings: seq<PortfolioHolding>)
    ensures forall h :: h in holdings ==> h.quantity > 0
  {
    HeldOnly(HoldingsAsWritten(GroupBySymbol(ledger)))
  }

  lemma SummarizeAsWrittenInRange(symbol: string, trades: seq<Trade>)
    requires InIntRange(NetQuantity(trades))
    ensures SummarizeAsWritten(symbol, trades) == Summarize(symbol, trades)
  {
    NetQuantityIntWraps(trades);
  }

  /** While every symbol's net position fits in an `Int`, the source's portfolio is the
      exact one. */
  lemma AsWrittenAgreesWithinIntRange(ledger: seq<Trade>)
    requires forall s :: Traded(ledger, s) ==> InIntRange(NetQuantity(TradesOf(ledger, s)))
    ensures GetPortfolioAsWritten(ledger) == GetPortfolio(ledger)
  {
    GroupBySymbolSpec(ledger);
    var g := GroupBySymbol(ledger);
    var written, exact := HoldingsAsWritten(g), Holdings(g);
    forall i | 0 <= i < |g.keys|
      ensures written[i] == exact[i]
    {
      var s := g.keys[i];
      assert s in g.members && Traded(ledger, s);
      SummarizeAsWrittenInRange(s, g.members[s]);
    }
    assert written == exact;
  }

  /** Before filtering, the source's holdings summarize each traded symbol's trades. */
  lemma HoldingsAsWrittenSummarizeTrades(ledger: seq<Trade>)
    ensures forall h :: h in HoldingsAsWritten(GroupBySymbol(ledger)) ==>
      Traded(ledger, h.symbol) && h == SummarizeAsWritten(h.symbol, TradesOf(ledger, h.symbol))
  {
    GroupBySymbolSpec(ledger);
    var g := GroupBySymbol(ledger);
    var all := HoldingsAsWritten(g);
    forall i | 0 <= i < |all|
      ensures Traded(ledger, all[i].symbol)
      ensures all[i] == SummarizeAsWritten(all[i].symbol, TradesOf(ledger, all[i].symbol))
    {
      assert g.keys[i] in g.members;
    }
  }

  /** Every holding the source shows is a traded symbol whose 32-bit net sum is positive,
      with the mean BUY price, valued at the mark price. */
  lemma PortfolioAsWrittenSummarizesEachSymbol(ledger: seq<Trade>)
    ensures forall h :: h in GetPortfolioAsWritten(ledger) ==>
      && Traded(ledger, h.symbol)
      && h.quantity > 0
      && h.quantity == NetQuantityInt(TradesOf(ledger, h.symbol))
      && h.averagePrice == AverageBuyPrice(TradesOf(ledger, h.symbol))
      && h.currentValue == h.quantity as real * MARK_PRICE
  {
    HoldingsAsWrittenSummarizeTrades(ledger);
    var all := HoldingsAsWritten(GroupBySymbol(ledger));
    forall h | h in GetPortfolioAsWritten(ledger)
      ensures Traded(ledger, h.symbol) && h == SummarizeAsWritten(h.symbol, TradesOf(ledger, h.symbol))
    {
      assert h in all;
    }
  }

  lemma PositiveIntSymbolIsShown(ledger: seq<Trade>, s: string)
    requires Traded(ledger, s) && NetQuantityInt(TradesOf(ledger, s)) > 0
    ensures s in Symbols(GetPortfolioAsWritten(ledger))
  {
    GroupBySymbolSpec(ledger);
    var g := GroupBySymbol(ledger);
    var all := HoldingsAsWritten(g);
    var p := GetPortfolioAsWritten(ledger);
    assert s in g.members && g.members[s] == TradesOf(ledger, s);
    var i :| 0 <= i < |g.keys| && g.keys[i] == s;
    assert all[i] == SummarizeAsWritten(s, TradesOf(ledger, s));
    assert all[i] in p;
    var j :| 0 <= j < |p| && p[j] == all[i];
    assert Symbols(p)[j] == s;
  }

  lemma ShownSymbolHasPositiveInt(ledger: seq<Trade>, s: string)
    requires s in Symbols(GetPortfolioAsWritten(ledger))
    ensures Traded(ledger, s) && NetQuantityInt(TradesOf(ledger, s)) > 0
  {
    PortfolioAsWrittenSummarizesEachSymbol(ledger);
    var p := GetPortfolioAsWritten(ledger);
    var j :| 0 <= j < |p| && Symbols(p)[j] == s;
    assert p[j] in p;
  }

  /** The source shows a symbol if and only if it was traded and its 32-bit running sum is
      positive, whatever the exact net position. */
  lemma PortfolioAsWrittenShowsExactlyPositiveIntSums(ledger: seq<Trade>)
    ensures forall s :: s in Symbols(GetPortfolioAsWritten(ledger)) <==>
      Traded(ledger, s) && NetQuantityInt(TradesOf(ledger, s)) > 0
  {
    forall s | Traded(ledger, s) && NetQuantityInt(TradesOf(ledger, s)) > 0
      ensures s in Symbols(GetPortfolioAsWritten(ledger))
    {
      PositiveIntSymbolIsShown(ledger, s);
    }
    forall s | s in Symbols(GetPortfolioAsWritten(ledger))
      ensures Traded(ledger, s) && NetQuantityInt(TradesOf(ledger, s)) > 0
    {
      ShownSymbolHasPositiveInt(ledger, s);
    }
  }

  /** When every BUY executed at one price, every holding the source shows has that
      average price, or 0. */
  lemma PortfolioAsWrittenAverageAtUniformPrice(ledger: seq<Trade>, price: real)
    requires forall t :: t in ledger && t.side == "BUY" ==> t.executionPrice == price
    ensures forall h :: h in GetPortfolioAsWritten(ledger) ==>
      h.averagePrice == price || h.averagePrice == 0.0
  {
    PortfolioAsWrittenSummarizesEachSymbol(ledger);
    forall h | h in GetPortfolioAsWritten(ledger)
      ensures h.averagePrice == price || h.averagePrice == 0.0
    {
      TradesOfSelects(ledger, h.symbol);
      AverageBuyPriceWithin(TradesOf(ledger, h.symbol), price, price);
    }
  }

  /** The source's holdings also come in the order their symbols were first traded, each
      symbol at most once, whether or not a running sum wrapped. */
  lemma PortfolioAsWrittenInFirstSeenOrder(ledger: seq<Trade>)
    ensures FirstSeenOrder(ledger, Symbols(GetPortfolioAsWritten(ledger)))
    ensures forall i, j :: 0 <= i < j < |GetPortfolioAsWritten(ledger)| ==>
      GetPortfolioAsWritten(ledger)[i].symbol != GetPortfolioAsWritten(ledger)[j].symbol
  {
    GroupBySymbolSpec(ledger);
    var g := GroupBySymbol(ledger);
    assert Symbols(HoldingsAsWritten(g)) == g.keys;
    HeldOnlyKeepsOrder(ledger, HoldingsAsWritten(g));
    var p := GetPortfolioAsWritten(ledger);
    forall i, j | 0 <= i < j < |p|
      ensures p[i].symbol != p[j].symbol
    {
      assert Symbols(p)[i] == p[i].symbol && Symbols(p)[j] == p[j].symbol;
    }
  }

  /** The portfolio of a ledger trading one symbol, with the source's 32-bit running sum. */
  lemma OneSymbolPortfolioAsWritten(ledger: seq<Trade>, s: string)
    requires ledger != [] && forall t :: t in ledger ==> t.symbol == s
    ensures GetPortfolioAsWritten(ledger) ==
      if NetQuantityInt(ledger) > 0 then [SummarizeAsWritten(s, ledger)] else []
  {
    OneSymbolGroup(ledger, s);
    var g := GroupBySymbol(ledger);
    var hs := HoldingsAsWritten(g);
    assert |hs| == 1 && hs[0] == SummarizeAsWritten(s, ledger);
    assert HeldOnly(hs[1..]) == [] by { assert hs[1..] == []; }
  }

  /** Two BUY orders of `Int.MAX_VALUE` RELIANCE shares, each a valid request: the running
      `Int` sum wraps to -2, so the source hides a position of 4294967294 shares. */
  lemma AsWrittenHidesOverflowedPosition()
    ensures var big := Trade("TRD-5", "RELIANCE", 0x7fff_ffff, "BUY", 2500.0, "t5");
      var again := Trade("TRD-6", "RELIANCE", 0x7fff_ffff, "BUY", 2500.0, "t6");
      && GetPortfolioAsWritten([big, again]) == []
      && GetPortfolio([big, again]) == [PortfolioHolding("RELIANCE", 4294967294, 2500.0, 10737418235000.0)]
  {
    var big := Trade("TRD-5", "RELIANCE", 0x7fff_ffff, "BUY", 2500.0, "t5");
    var again := Trade("TRD-6", "RELIANCE", 0x7fff_ffff, "BUY", 2500.0, "t6");
    var ledger := [big, again];
    assert ledger[..1] == [big];
    assert [big][..0] == [];
    assert NetQuantityInt([big]) == 0x7fff_ffff;
    assert NetQuantityInt(ledger) == -2;
    OneSymbolPortfolioAsWritten(ledger, "RELIANCE");
    assert NetQuantity([big]) == 0x7fff_ffff;
    assert NetQuantity(ledger) == 4294967294;
    assert BuyPrices(ledger) == [2500.0, 2500.0];
    assert Sum([2500.0, 2500.0]) == 5000.0 by {
      assert [2500.0, 2500.0][..1] == [2500.0];
      assert [2500.0][..0] == [];
    }
    OneSymbolPortfolio(ledger, "RELIANCE");
  }

}
