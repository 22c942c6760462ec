/** The request handlers of src/main/kotlin/Routing.kt that carry logic: the guard in front of
    `processOrder`, the constant order-status reply, and the read-only listings. Only their
    decisions are modelled; the HTTP framework that dispatches to them is not. */
module Routing {
  import opened Kotlin
  import opened Models
  import opened Repository
  import Portfolio

  const QUANTITY_MESSAGE: string := "Quantity must be greater than zero"
  const LIMIT_PRICE_MESSAGE: string := "Price is mandatory for LIMIT orders"
  /** The body the global handler for any other exception answers with (Application.kt:58-59). */
  const SERVER_ERROR_MESSAGE: string := "Something went wrong!"

  /** What `POST /api/v1/orders` answers: 200 with the order response, 400 with a
      validation message, or 500 when `processOrder` threw. */
  datatype OrderReply =
    | Ok(response: OrderResponse)
    | BadRequest(message: string)
    | InternalServerError(error: string)

  /** `request.style.uppercase() == "LIMIT"` (Routing.kt:81). */
  predicate IsLimit(style: string) {
    Uppercase(style) == "LIMIT"
  }

  /** The two checks made before `processOrder` is called (Routing.kt:75-84): the message the
      request is rejected with, or `None` when it passes. */
  function ValidateOrder(request: OrderRequest): (rejection: Option<string>)
    // A request passes exactly when its quantity is positive and, for a LIMIT order, a
    // positive price is given.
    ensures rejection.None? <==>
      request.quantity > 0 &&
      (IsLimit(request.style) ==> request.price.Some? && request.price.value > 0.0)
    // The quantity check comes first: a request failing it gets its message even when it
    // fails the price check too.
    ensures request.quantity <= 0 ==> rejection == Some(QUANTITY_MESSAGE)
    ensures rejection.Some? && request.quantity > 0 ==> rejection == Some(LIMIT_PRICE_MESSAGE)
    // A MARKET order needs no price.
    ensures IsMarket(request.style) && request.quantity > 0 ==> rejection.None?
  {
    if request.quantity <= 0 then
      Some(QUANTITY_MESSAGE)
    else if IsLimit(request.style) && (request.price.None? || request.price.value <= 0.0) then
      Some(LIMIT_PRICE_MESSAGE)
    else
      None
  }

  /** `POST /api/v1/orders` (Routing.kt:71-88): a rejected request never reaches
      `processOrder` and leaves the trade table as it was; any other request is handed to it. */
  method PostOrder(repository: TradingRepository, request: OrderRequest,
                   orderUuid: string, tradeUuid: string, now: string)
    returns (reply: OrderReply)
    requires repository.Valid()
    modifies repository
    ensures repository.Valid()
    ensures ValidateOrder(request).Some? ==>
      reply == BadRequest(ValidateOrder(request).value) && repository.ledger == old(repository.ledger)
    ensures ValidateOrder(request).None? ==>
      var p := ExecuteOrder(old(repository.ledger), request, orderUuid, tradeUuid, now);
      && repository.ledger == p.ledger
      && reply == if p.response.Some? then Ok(p.response.value) else InternalServerError(SERVER_ERROR_MESSAGE)
  {
    if request.quantity <= 0 {
      return BadRequest(QUANTITY_MESSAGE);
    }
    if Uppercase(request.style) == "LIMIT" && (request.price.None? || request.price.value <= 0.0) {
      return BadRequest(LIMIT_PRICE_MESSAGE);
    }
    var response := repository.ProcessOrder(request, orderUuid, tradeUuid, now);
    if response.None? {
      return InternalServerError(SERVER_ERROR_MESSAGE);
    }
    return Ok(response.value);
  }

  /** The reply of `GET /api/v1/orders/{orderId}`. */
  datatype OrderStatus = OrderStatus(orderId: string, status: string, message: string)

  /** `GET /api/v1/orders/{orderId}` (Routing.kt:91-97): takes no trade table, so whatever
      the id, known or not, it reports the order as executed. A missing path parameter reads
      as "N/A". */
  function GetOrderStatus(orderIdParameter: Option<string>): (reply: OrderStatus)
    ensures reply.status == EXECUTED
    ensures orderIdParameter.Some? ==> reply.orderId == orderIdParameter.value
    ensures orderIdParameter.None? ==> reply.orderId == "N/A"
    ensures reply.message == "Order details for " + reply.orderId + " retrieved successfully"
  {
    var id := if orderIdParameter.Some? then orderIdParameter.value else "N/A";
    OrderStatus(id, "EXECUTED", "Order details for " + id + " retrieved successfully")
  }

  /** `GET /api/v1/trades` (Routing.kt:101-104): the whole trade table, unchanged. */
  method GetTrades(repository: TradingRepository) returns (trades: seq<Trade>)
    ensures trades == repository.ledger
  {
    trades := repository.GetAllTradesFromDb();
  }

  /** `GET /api/v1/portfolio` (Routing.kt:107-110): the portfolio of the current table, as
      the repository computes it; it lists exactly the traded symbols whose 32-bit net sum
      is positive, in the order they were first traded. */
  method GetPortfolio(repository: TradingRepository) returns (holdings: seq<PortfolioHolding>)
    ensures holdings == Portfolio.GetPortfolioAsWritten(repository.ledger)
    ensures forall s :: s in Portfolio.Symbols(holdings) <==>
      Portfolio.Traded(repository.ledger, s) &&
      Portfolio.NetQuantityInt(Portfolio.TradesOf(repository.ledger, s)) > 0
    // Holdings come in first-seen order, each symbol at most once.
    ensures Portfolio.FirstSeenOrder(repository.ledger, Portfolio.Symbols(holdings))
    ensures forall i, j :: 0 <= i < j < |holdings| ==> holdings[i].symbol != holdings[j].symbol
  {
    Portfolio.PortfolioAsWrittenShowsExactlyPositiveIntSums(repository.ledger);
    Portfolio.PortfolioAsWrittenInFirstSeenOrder(repository.ledger);
    holdings := repository.GetPortfolio();
  }
}
