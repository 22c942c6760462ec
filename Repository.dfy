/** `TradingRepository` (src/main/kotlin/Repository.kt): the static instrument catalog, the
    order-execution rule and the trade table it appends to.

    The trade table is the `ledger` field of class `TradingRepository`; an insert appends one
    row and fails, leaving the table as it was, when the row's id is already a primary key
    (DatabaseSchema.kt:13). Random UUID text and the clock are parameters. */
module Repository {
  import opened Kotlin
  import opened Models
  import Portfolio

  /** The static list of tradable stocks (Repository.kt:18-22). */
  const INSTRUMENTS: seq<Instrument> := [
    Instrument("RELIANCE", "NSE", "EQUITY", 2500.0, 101),
    Instrument("TCS", "NSE", "EQUITY", 3400.0, 102),
    Instrument("BSE-INDEX", "BSE", "INDEX", 52470.88, 12)
  ]

  /** The fixed price every MARKET order fills at, whatever the symbol (Repository.kt:32). */
  const EXECUTION_PRICE: real := 2500.0

  /** Status strings of an order response (Repository.kt:46,49). */
  const EXECUTED: string := "EXECUTED"
  const PLACED: string := "PLACED"

  /** The catalog lists each symbol once. */
  lemma InstrumentSymbolsDistinct()
    ensures forall i, j :: 0 <= i < j < |INSTRUMENTS| ==> INSTRUMENTS[i].symbol != INSTRUMENTS[j].symbol
  {
  }

  /** The fill price is RELIANCE's catalog price, and not the price of any other instrument. */
  lemma ExecutionPriceIgnoresCatalog()
    ensures forall i :: 0 <= i < |INSTRUMENTS| ==>
      (INSTRUMENTS[i].lastTradedPrice == EXECUTION_PRICE <==> INSTRUMENTS[i].symbol == "RELIANCE")
  {
  }

  /** `request.style.uppercase() == "MARKET"` (Repository.kt:31). */
  predicate IsMarket(style: string) {
    Uppercase(style) == "MARKET"
  }

  /** A style is MARKET when it spells "market" in any mix of cases, and only then. */
  lemma MarketStyleIgnoresCase(style: string)
    ensures IsMarket(style) <==>
      |style| == 6 && forall i :: 0 <= i < 6 ==> style[i] == "MARKET"[i] || style[i] == "market"[i]
  {
    UppercaseMatchesIgnoringCase(style, "MARKET");
    assert forall i :: 0 <= i < 6 ==> LowerChar("MARKET"[i]) == "market"[i];
  }

  /** The ids already used as primary keys of the trade table. */
  function TradeIds(ledger: seq<Trade>): set<string> {
    set t | t in ledger :: t.tradeId
  }

  /** No two rows of the trade table share an id. */
  predicate UniqueIds(ledger: seq<Trade>) {
    forall i, j :: 0 <= i < j < |ledger| ==> ledger[i].tradeId != ledger[j].tradeId
  }

  /** Every row was filled at the fixed execution price. */
  predicate AllAtExecutionPrice(ledger: seq<Trade>) {
    forall t :: t in ledger ==> t.executionPrice == EXECUTION_PRICE
  }

  /** An order id: "ORD-" and the first five characters of a random UUID (Repository.kt:29). */
  function OrderId(uuid: string): string {
    "ORD-" + Take(uuid, 5)
  }

  /** A trade id: "TRD-" and the first five characters of a random UUID (Repository.kt:35). */
  function TradeId(uuid: string): string {
    "TRD-" + Take(uuid, 5)
  }

  /** The outcome of `processOrder`: the response, or `None` when saving the trade threw,
      and the trade table afterwards. */
  datatype Processed = Processed(response: Option<OrderResponse>, ledger: seq<Trade>)

  /** What `processOrder(request)` does to the trade table `ledger` (Repository.kt:28-50),
      given the two random UUID strings it draws and the clock reading it takes. */
  function ExecuteOrder(ledger: seq<Trade>, request: OrderRequest, orderUuid: string,
                        tradeUuid: string, now: string): (p: Processed)
    // The table only ever grows, by at most one row.
    ensures |ledger| <= |p.ledger| <= |ledger| + 1 && p.ledger[..|ledger|] == ledger
    // A row is added exactly for a MARKET order whose new trade id is not taken yet.
    ensures |p.ledger| == |ledger| + 1 <==> IsMarket(request.style) && TradeId(tradeUuid) !in TradeIds(ledger)
    // The added row is the request's trade, filled at the fixed price.
    ensures |p.ledger| == |ledger| + 1 ==>
      var t := p.ledger[|ledger|];
      && t.tradeId == TradeId(tradeUuid)
      && t.symbol == request.symbol
      && t.quantity == request.quantity
      && t.side == Uppercase(request.side)
      && t.executionPrice == EXECUTION_PRICE
      && t.timestamp == now
    // EXECUTED is reported exactly when the row was added; a failed insert reports nothing.
    ensures p.response.Some? && p.response.value.status == EXECUTED <==> |p.ledger| == |ledger| + 1
    ensures p.response.None? <==> IsMarket(request.style) && TradeId(tradeUuid) in TradeIds(ledger)
    ensures p.response.Some? ==> p.response.value.orderId == OrderId(orderUuid)
    ensures p.response.Some? && p.response.value.status == EXECUTED ==>
      p.response.value.message == ExecutedAt(EXECUTION_PRICE)
    // Any other style is only acknowledged, with the price the request asked for.
    ensures !IsMarket(request.style) ==>
      p.response == Some(OrderResponse(OrderId(orderUuid), PLACED, LimitPlacedAt(request.price)))
    // The table's invariants survive.
    ensures UniqueIds(ledger) ==> UniqueIds(p.ledger)
    ensures AllAtExecutionPrice(ledger) ==> AllAtExecutionPrice(p.ledger)
  {
    var orderId := OrderId(orderUuid);
    if IsMarket(request.style) then
      var trade := Trade(TradeId(tradeUuid), request.symbol, request.quantity,
                         Uppercase(request.side), EXECUTION_PRICE, now);
      if trade.tradeId in TradeIds(ledger) then
        Processed(None, ledger)
      else
        Processed(Some(OrderResponse(orderId, EXECUTED, ExecutedAt(EXECUTION_PRICE))), ledger + [trade])
    else
      Processed(Some(OrderResponse(orderId, PLACED, LimitPlacedAt(request.price))), ledger)
  }

  /** The repository object: its state is the H2 trade table, kept as a sequence of rows in
      insertion order. */
  class TradingRepository {
    var ledger: seq<Trade>

    ghost predicate Valid()
      reads this
    {
      UniqueIds(ledger)
    }

    /** The table is a file database (Application.kt:20), so it opens with the rows stored
        by earlier runs. */
    constructor (stored: seq<Trade>)
      requires UniqueIds(stored)
      ensures Valid() && ledger == stored
    {
      ledger := stored;
    }

    /** `saveTradeToDb` (Repository.kt:82-93): inserts one row; the insert throws, and
        changes nothing, when the id is already a primary key. */
    method SaveTradeToDb(trade: Trade) returns (saved: bool)
      requires Valid()
      modifies this
      ensures Valid()
      ensures saved <==> trade.tradeId !in TradeIds(old(ledger))
      ensures ledger == if saved then old(ledger) + [trade] else old(ledger)
    {
      saved := trade.tradeId !in TradeIds(ledger);
      if saved {
        ledger := ledger + [trade];
      }
    }

    /** `getAllTradesFromDb` (Repository.kt:98-111): every row, field for field. */
    method GetAllTradesFromDb() returns (trades: seq<Trade>)
      ensures trades == ledger
    {
      trades := ledger;
    }

    /** `processOrder` (Repository.kt:28-50). A `None` response is the exception that a
        failed insert raises. */
    method ProcessOrder(request: OrderRequest, orderUuid: string, tradeUuid: string, now: string)
      returns (response: Option<OrderResponse>)
      requires Valid()
      modifies this
      ensures Valid()
      ensures Processed(response, ledger) == ExecuteOrder(old(ledger), request, orderUuid, tradeUuid, now)
    {
      var newId := OrderId(orderUuid);
      if Uppercase(request.style) == "MARKET" {
        var executionPrice := EXECUTION_PRICE;
        var newTrade := Trade(TradeId(tradeUuid), request.symbol, request.quantity,
                              Uppercase(request.side), executionPrice, now);
        var saved := SaveTradeToDb(newTrade);
        if !saved {
          return None;
        }
        return Some(OrderResponse(newId, EXECUTED, ExecutedAt(executionPrice)));
      }
      return Some(OrderResponse(newId, PLACED, LimitPlacedAt(request.price)));
    }

    /** `getPortfolio` (Repository.kt:56-77): reads the table and changes nothing. It nets
        quantities with a 32-bit `Int` sum, so it agrees with the exact portfolio only while
        every net position fits in an `Int`. */
    method GetPortfolio() returns (holdings: seq<PortfolioHolding>)
      ensures holdings == Portfolio.GetPortfolioAsWritten(ledger)
      ensures (forall s :: Portfolio.Traded(ledger, s) ==>
                 InIntRange(Portfolio.NetQuantity(Portfolio.TradesOf(ledger, s))))
        ==> holdings == Portfolio.GetPortfolio(ledger)
    {
      var allTrades := GetAllTradesFromDb();
      holdings := Portfolio.GetPortfolioAsWritten(allTrades);
      if forall s :: Portfolio.Traded(ledger, s) ==>
           InIntRange(Portfolio.NetQuantity(Portfolio.TradesOf(ledger, s))) {
        Portfolio.AsWrittenAgreesWithinIntRange(ledger);
      }
    }
  }

  /** Saving a trade with a fresh id and then reading the table gives back the earlier rows
      followed by that trade, field for field. */
  method SavedTradeReadsBack(repository: TradingRepository, trade: Trade) returns (trades: seq<Trade>)
    requires repository.Valid() && trade.tradeId !in TradeIds(repository.ledger)
    modifies repository
    ensures trades == old(repository.ledger) + [trade]
    ensures trades[|trades| - 1] == trade
  {
    var saved := repository.SaveTradeToDb(trade);
    trades := repository.GetAllTradesFromDb();
  }

  /** Every trade the repository executes is filled at the fixed price, so the average price
      of every holding shown is that price or 0. */
  lemma ExecutedHoldingsAverageAtExecutionPrice(ledger: seq<Trade>)
    requires AllAtExecutionPrice(ledger)
    ensures forall h :: h in Portfolio.GetPortfolioAsWritten(ledger) ==>
      h.averagePrice == EXECUTION_PRICE || h.averagePrice == 0.0
    ensures forall h :: h in Portfolio.GetPortfolio(ledger) ==>
      h.averagePrice == EXECUTION_PRICE || h.averagePrice == 0.0
  {
    Portfolio.PortfolioAsWrittenAverageAtUniformPrice(ledger, EXECUTION_PRICE);
    Portfolio.PortfolioAverageAtUniformPrice(ledger, EXECUTION_PRICE);
  }
}
