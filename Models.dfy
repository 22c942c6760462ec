/** The records the trading API exchanges and stores (src/main/kotlin/Models.kt).
    Kotlin `Double` fields are exact `real`s here; `Int` fields keep their 32-bit range, except
    `PortfolioHolding.quantity`, which is `int` so that the exact portfolio can report a position
    beyond `Int`. The source's portfolio only ever puts an `Int32` value there. */
module Models {
  import opened Kotlin

  datatype Option<+T> = None | Some(value: T)

  /** A tradable stock in the static catalog. */
  datatype Instrument = Instrument(
    symbol: string,
    exchange: string,
    instrumentType: string,
    lastTradedPrice: real,
    token: Int32)

  /** The body of `POST /api/v1/orders`. `side` is the request's `type` field ("BUY" or "SELL"
      by convention, but any text is accepted); `style` is "MARKET" or "LIMIT" by convention. */
  datatype OrderRequest = OrderRequest(
    symbol: string,
    quantity: Int32,
    price: Option<real>,
    side: string,
    style: string)

  /** The text of an order response, kept as the value it reports:
      "Order executed successfully at <price>" or "Limit order placed at <price or null>". */
  datatype Message = ExecutedAt(price: real) | LimitPlacedAt(requested: Option<real>)

  datatype OrderResponse = OrderResponse(orderId: string, status: string, message: Message)

  /** One row of the trade ledger. `side` is the stored `type` column. */
  datatype Trade = Trade(
    tradeId: string,
    symbol: string,
    quantity: Int32,
    side: string,
    executionPrice: real,
    timestamp: string)

  /** A derived, never stored, summary of the position held in one symbol. */
  datatype PortfolioHolding = PortfolioHolding(
    symbol: string,
    quantity: int,
    averagePrice: real,
    currentValue: real)
}
