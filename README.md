# Brokerage order execution and portfolio aggregation, in Dafny

This project models the decision logic of a small brokerage API written in Kotlin:

- **Order execution** (`TradingRepository.processOrder`). A MARKET order (style compared
  after upper-casing) becomes one `Trade` row, filled at the fixed price 2500.0 and
  appended to the trade table. The response is `EXECUTED`. Any other style appends nothing
  and is answered `PLACED`.
- **The trade table** (`saveTradeToDb`, `getAllTradesFromDb`). It is the `ledger` field of
  class `Repository.TradingRepository`, a sequence of rows read back in insertion order. The row id
  is the table's primary key. An insert whose id is already taken throws and changes
  nothing.
- **Portfolio aggregation** (`getPortfolio`). A pure function of the ledger. It groups the
  trades by symbol in first-seen order and nets each symbol's quantities, with "SELL"
  negative and any other side positive. It averages the execution prices of the "BUY"
  trades (0 when there are none), values the position at 2500.0 per share, and keeps only
  net-long positions.
- **The request guard** of `POST /api/v1/orders`. The quantity must be positive, and a
  LIMIT order needs a positive price. The quantity is checked first. A rejected request
  never reaches `processOrder`.
- The constant order-status reply, the trade and portfolio listings, and the static
  instrument catalog (`Repository.INSTRUMENTS`, which `GET /api/v1/instruments` returns).

Files: `Kotlin.dfy` holds the Kotlin behaviour the code relies on (32-bit `Int`
wrap-around, `uppercase()`, `take(n)`). `Models.dfy` holds the records. `Portfolio.dfy`
holds the aggregation. `Repository.dfy` holds the catalog, `ExecuteOrder` and the
repository class. `Routing.dfy` holds the handlers.

Inputs the code draws from the environment are parameters: the two random UUID strings
(`orderUuid`, `tradeUuid`, cut to five characters as the code does) and the clock reading
(`now`). Prices are exact `real`s. Kotlin `Int` fields are the subset type `Kotlin.Int32`, except
`PortfolioHolding.quantity`. That field is `int`, so that the exact portfolio can report a position
beyond `Int`. The code's portfolio (`Portfolio.GetPortfolioAsWritten`) only ever puts an `Int32`
value there.

Modelling choices:
- An insert whose id is already taken fails, and the model keeps that failure.
  `processOrder` then throws, and the route answers 500 "Something went wrong!"
  (Application.kt:58-59). The trade id has only five hexadecimal characters of
  randomness, so this case can occur.
- Every MARKET order fills at the hard-coded 2500.0 (Repository.kt:32), and every holding is
  valued at it (Repository.kt:74). `ExecutionPriceIgnoresCatalog` shows that this equals
  only RELIANCE's catalog price.
- The repository's `getPortfolio` and its route are modelled as written, with the 32-bit
  `Int` running sum (`Portfolio.GetPortfolioAsWritten`). `Portfolio.GetPortfolio` is the
  same aggregation with exact sums, the corrected form of the finding below. The two agree
  while every net position fits in an `Int`.

## Model

| member | source | states |
|---|---|---|
| `Kotlin.Wrap` | src/main/kotlin/Repository.kt:62-64 | An `Int` result is the exact result when that fits in 32 bits, and otherwise differs from it by a multiple of 2^32 |
| `Kotlin.WrapSum` | src/main/kotlin/Repository.kt:62-64 | Adding two wrapped `Int`s and wrapping gives the wrapped exact sum |
| `Kotlin.Uppercase` | src/main/kotlin/Repository.kt:39 | `uppercase()` keeps the length and upper-cases each letter in place |
| `Kotlin.UppercaseMatchesIgnoringCase` | src/main/kotlin/Repository.kt:31 | `s.uppercase() == W`, for an upper-case word W, holds exactly when s spells W with each letter in either case |
| `Kotlin.Take` | src/main/kotlin/Repository.kt:29 | `take(n)` is the prefix of length min(n, length) |
| `Portfolio.FirstIndexIsFirst` | src/main/kotlin/Repository.kt:58 | The first-seen position of a symbol is a trade of that symbol with no earlier trade of it; it is in range exactly when the symbol was traded |
| `Portfolio.TradesOfSelects` | src/main/kotlin/Repository.kt:58 | A symbol's trade list holds only ledger trades of that symbol |
| `Portfolio.GroupBySymbol` | src/main/kotlin/Repository.kt:58 | `groupBy` has a list for exactly the keys it iterates |
| `Portfolio.GroupBySymbolSpec` | src/main/kotlin/Repository.kt:58 | `groupBy` has one key per traded symbol, maps it to exactly that symbol's trades in ledger order, and iterates the keys in first-seen order |
| `Portfolio.SignedQuantity` | src/main/kotlin/Repository.kt:63 | Definition: a trade's signed contribution, the quantity negated for side "SELL" and kept for any other side. Its properties are stated by `Portfolio.NetQuantityIsBoughtMinusSold` |
| `Portfolio.NetQuantity` | src/main/kotlin/Repository.kt:62-64 | Definition: the exact sum of the signed quantities. Its properties are stated by `Portfolio.NetQuantityIsBoughtMinusSold` and `Portfolio.NetQuantityIntWraps` |
| `Portfolio.NetQuantityIsBoughtMinusSold` | src/main/kotlin/Repository.kt:62-64 | Net quantity = total quantity of the non-"SELL" trades minus total quantity of the "SELL" trades |
| `Portfolio.BuyPrices` | src/main/kotlin/Repository.kt:67 | The BUY price list is empty exactly when no trade's side is "BUY" |
| `Portfolio.AverageBuyPrice` | src/main/kotlin/Repository.kt:67-68 | Definition: the mean of the BUY execution prices, or 0 when there are none. Its properties are stated by `Portfolio.AverageBuyPriceWithin` |
| `Portfolio.AverageBuyPriceWithin` | src/main/kotlin/Repository.kt:67-68 | The average price is 0 when nothing was bought, and otherwise lies between the lowest and highest BUY execution price. With a positive lowest price, an average of 0 means nothing was bought |
| `Portfolio.Summarize` | src/main/kotlin/Repository.kt:60-75 | Definition: one holding with the exact net quantity, the mean BUY price and the value at 2500 per share. Its properties are stated by `Portfolio.HoldingsSummarizeTrades` and `Portfolio.PortfolioSummarizesEachSymbol` |
| `Portfolio.Holdings` | src/main/kotlin/Repository.kt:60 | Definition: the `map` over the groups, one exact summary per key in key order. Its properties are stated by `Portfolio.HoldingsSummarizeTrades` |
| `Portfolio.HeldOnly` | src/main/kotlin/Repository.kt:76 | The filter keeps exactly the holdings whose quantity is positive |
| `Portfolio.HeldOnlyKeepsOrder` | src/main/kotlin/Repository.kt:76 | Filtering keeps the first-seen order of the holdings that remain |
| `Portfolio.HoldingsSummarizeTrades` | src/main/kotlin/Repository.kt:60-75 | Before filtering, each holding is the summary of all trades of a traded symbol |
| `Portfolio.PortfolioSummarizesEachSymbol` | src/main/kotlin/Repository.kt:56-77 | Each holding is for a traded symbol and is net long. Its quantity is that symbol's net quantity, its average price the mean BUY price, and its value quantity × 2500 |
| `Portfolio.GetPortfolio` | src/main/kotlin/Repository.kt:56-77 | The corrected `getPortfolio`, with exact net sums: every holding has a positive quantity. Its other properties are stated by the `Portfolio.Portfolio*` lemmas |
| `Portfolio.PortfolioHoldsExactlyNetLongSymbols` | src/main/kotlin/Repository.kt:56-77 | A symbol is in the portfolio if and only if it was traded and its net quantity is > 0 |
| `Portfolio.PortfolioInFirstSeenOrder` | src/main/kotlin/Repository.kt:58-60 | Holdings come in the order their symbols were first traded, each symbol at most once |
| `Portfolio.PortfolioAverageAtUniformPrice` | src/main/kotlin/Repository.kt:66-68 | If every BUY trade filled at one price, every holding's average price is that price or 0 |
| `Portfolio.OneSymbolPortfolio` | src/main/kotlin/Repository.kt:56-77 | A ledger trading one symbol gives that symbol's summary if its net position is long, and nothing otherwise |
| `Portfolio.EmptyLedgerHoldsNothing` | src/main/kotlin/Repository.kt:56-77 | An empty ledger gives an empty portfolio |
| `Portfolio.PartialSaleLeavesRemainder` | src/main/kotlin/Repository.kt:56-77 | BUY 10 and SELL 3 RELIANCE give one holding of 7 at average 2500, worth 17500 |
| `Portfolio.ShortPositionIsHidden` | src/main/kotlin/Repository.kt:62-76 | A lone SELL of 5 TCS leaves a net short position, and the portfolio shows nothing |
| `Portfolio.UnknownSideCountsAsBought` | src/main/kotlin/Repository.kt:62-68 | A side that is neither "BUY" nor "SELL" adds to the position but not to the average: 5 "HOLD" shares give a holding of 5 at average 0 |
| `Portfolio.SignedQuantityInt` | src/main/kotlin/Repository.kt:63 | Definition: the signed contribution in `Int` arithmetic, where negation wraps. Its properties are stated by `Portfolio.NetQuantityIntWraps` |
| `Portfolio.NetQuantityInt` | src/main/kotlin/Repository.kt:62-64 | Definition: the `sumOf` running sum in `Int` arithmetic. Its properties are stated by `Portfolio.NetQuantityIntWraps` |
| `Portfolio.NetQuantityIntWraps` | src/main/kotlin/Repository.kt:62-64 | The `Int` running sum of the code is the exact net quantity wrapped to 32 bits |
| `Portfolio.SummarizeAsWritten` | src/main/kotlin/Repository.kt:60-75 | Definition: one holding as the code builds it, with the `Int` net sum. Its properties are stated by `Portfolio.PortfolioAsWrittenSummarizesEachSymbol` |
| `Portfolio.HoldingsAsWritten` | src/main/kotlin/Repository.kt:60 | Definition: the `map` over the groups with the `Int` net sum. Its properties are stated by `Portfolio.HoldingsAsWrittenSummarizeTrades` |
| `Portfolio.GetPortfolioAsWritten` | src/main/kotlin/Repository.kt:56-77 | The code's `getPortfolio`: every holding shown has a positive (32-bit) quantity. Its other properties are stated by the `Portfolio.PortfolioAsWritten*` lemmas |
| `Portfolio.OneSymbolPortfolioAsWritten` | src/main/kotlin/Repository.kt:56-77 | With the code's `Int` sum, a ledger trading one symbol gives its summary exactly when the wrapped sum is positive |
| `Portfolio.PortfolioAsWrittenSummarizesEachSymbol` | src/main/kotlin/Repository.kt:56-77 | Each holding the code shows is for a traded symbol. Its quantity is that symbol's 32-bit net sum and is positive. Its average is the mean BUY price and its value is quantity × 2500 |
| `Portfolio.PortfolioAsWrittenShowsExactlyPositiveIntSums` | src/main/kotlin/Repository.kt:56-77 | The code shows a symbol if and only if it was traded and its 32-bit net sum is > 0 |
| `Portfolio.PortfolioAsWrittenAverageAtUniformPrice` | src/main/kotlin/Repository.kt:66-68 | If every BUY trade filled at one price, every holding the code shows has that average price or 0 |
| `Portfolio.PortfolioAsWrittenInFirstSeenOrder` | src/main/kotlin/Repository.kt:58-60 | The code's holdings come in the order their symbols were first traded, each symbol at most once, even when a sum wrapped |
| `Portfolio.AsWrittenAgreesWithinIntRange` | src/main/kotlin/Repository.kt:56-77 | While every symbol's net quantity fits in an `Int`, the code's portfolio equals the exact one |
| `Portfolio.AsWrittenHidesOverflowedPosition` | src/main/kotlin/Repository.kt:62-76 | Two BUYs of 2147483647 RELIANCE: the code's sum wraps to -2 and the holding is dropped. The exact portfolio shows 4294967294 shares |
| `Repository.INSTRUMENTS` | src/main/kotlin/Repository.kt:18-22 | Definition: the three-instrument catalog. Its properties are stated by `Repository.InstrumentSymbolsDistinct` and `Repository.ExecutionPriceIgnoresCatalog` |
| `Repository.InstrumentSymbolsDistinct` | src/main/kotlin/Repository.kt:18-22 | The catalog lists each symbol once |
| `Repository.ExecutionPriceIgnoresCatalog` | src/main/kotlin/Repository.kt:32 | The fixed fill price equals the catalog price of RELIANCE and of no other instrument |
| `Repository.IsMarket` | src/main/kotlin/Repository.kt:31 | Definition: `style.uppercase() == "MARKET"`. Its meaning is stated by `Repository.MarketStyleIgnoresCase` |
| `Repository.MarketStyleIgnoresCase` | src/main/kotlin/Repository.kt:31 | A style is MARKET exactly when it spells "market" in any mix of cases |
| `Repository.OrderId` | src/main/kotlin/Repository.kt:29 | Definition: "ORD-" followed by the first five characters of the UUID. Its properties are stated by `Kotlin.Take` and `Repository.ExecuteOrder` |
| `Repository.TradeId` | src/main/kotlin/Repository.kt:35 | Definition: "TRD-" followed by the first five characters of the UUID. Its properties are stated by `Kotlin.Take` and `Repository.ExecuteOrder` |
| `Repository.ExecuteOrder` | src/main/kotlin/Repository.kt:28-50 | The table grows by at most one row, and only at its end. A row is added exactly for a MARKET order whose trade id is free, and that row carries the request's symbol and quantity, the upper-cased side, the price 2500, the new trade id and the clock reading. EXECUTED is answered exactly when the row was added, and no answer is given when the insert failed. Any other style is answered PLACED with the requested price. Unique ids and "every row at 2500" are preserved |
| `Repository.TradingRepository.constructor` | src/main/kotlin/DatabaseSchema.kt:5-13 | The repository opens on the rows already stored, with unique ids |
| `Repository.TradingRepository.SaveTradeToDb` | src/main/kotlin/Repository.kt:82-93 | The insert succeeds exactly when the id is free. It then appends the row unchanged; otherwise the table is unchanged |
| `Repository.TradingRepository.GetAllTradesFromDb` | src/main/kotlin/Repository.kt:98-111 | Reading returns every row, field for field, in insertion order (see "Left out" on ordering) |
| `Repository.TradingRepository.ProcessOrder` | src/main/kotlin/Repository.kt:28-50 | The response and the new table are those of `ExecuteOrder` on the old table, and ids stay unique |
| `Repository.TradingRepository.GetPortfolio` | src/main/kotlin/Repository.kt:56-77 | Returns the code's 32-bit portfolio of the current table and changes nothing. While every net position fits in an `Int`, this is the exact portfolio |
| `Repository.SavedTradeReadsBack` | src/main/kotlin/Repository.kt:82-111 | Saving a trade with a free id and then reading the table gives the old rows followed by that trade, field for field |
| `Repository.ExecutedHoldingsAverageAtExecutionPrice` | src/main/kotlin/Repository.kt:32-68 | On a table filled only at 2500, every holding's average price is 2500 or 0, in both the code's and the exact portfolio |
| `Routing.IsLimit` | src/main/kotlin/Routing.kt:81 | Definition: `style.uppercase() == "LIMIT"`. It is used by `Routing.ValidateOrder`, whose contract states the guard |
| `Routing.ValidateOrder` | src/main/kotlin/Routing.kt:75-84 | A request passes exactly when quantity > 0 and, for a LIMIT order, a price > 0 is present. A quantity ≤ 0 gets the quantity message even if the price is also bad. A MARKET order with positive quantity passes without a price |
| `Routing.PostOrder` | src/main/kotlin/Routing.kt:71-88 | A rejected request gets 400 with its message and leaves the table unchanged. A valid one gets `processOrder`'s response and table, or 500 when the insert failed |
| `Routing.GetOrderStatus` | src/main/kotlin/Routing.kt:91-97 | Reports EXECUTED for any id, without consulting the table. A missing id reads as "N/A" |
| `Routing.GetTrades` | src/main/kotlin/Routing.kt:101-104 | Returns the whole trade table |
| `Routing.GetPortfolio` | src/main/kotlin/Routing.kt:107-110 | Returns the repository's portfolio of the current table. It lists exactly the traded symbols whose 32-bit net sum is positive, in first-seen order, each once |

## Left out

- JWT login and verification, the hard-coded secret, and the mock user profile and its route
  (Routing.kt:18-31, 61-68; Application.kt:34-50; Repository.kt:10-15). These are a foreign
  library and static data with no decisions in them.
- Ktor routing, content negotiation, Swagger UI, the `/test` route and request
  deserialization. A malformed body is answered 400 by the framework before the guard runs,
  and that is not modelled.
- H2/Exposed connection, schema creation and `transaction {}` semantics. The table is a
  sequence with unique ids. The column widths of DatabaseSchema.kt:6-11 are not modelled.
  An over-long symbol, side or id would also make the insert throw.
- `Kotlin.Uppercase`: upper-cases the ASCII letters only. Kotlin's full Unicode mapping
  (for example the dotless ı, which upper-cases to I) is not modelled.
- Message text: `OrderResponse.message` keeps the price it reports (`ExecutedAt`,
  `LimitPlacedAt`) instead of the `Double.toString` rendering. Rendering Kotlin doubles is
  not modelled.
- IEEE double rounding in `.average()` and in `quantity * 2500.0`, and NaN prices. Prices are
  exact reals.
- The randomness of the UUIDs and the clock. They are parameters, and no property depends
  on their values beyond the trade id being free or taken.
- Concurrency between requests. Each operation is one atomic step on the table.
- Read order of the table. `selectAll()` (Repository.kt:100) has no ORDER BY, so the code does
  not guarantee the order in which rows come back. The model assumes insertion order, which
  is H2's usual scan order. The order of `GET /api/v1/trades` and the first-seen order of
  the portfolio (`Portfolio.PortfolioInFirstSeenOrder`,
  `Portfolio.PortfolioAsWrittenInFirstSeenOrder` and the order clauses of `Routing.GetPortfolio`)
  rest on that assumption.

## Findings

| source | as written | input that shows it | evidently intended | confidence | as-written member | corrected member |
|---|---|---|---|---|---|---|
| src/main/kotlin/Repository.kt:62-64 | `sumOf` over `Int` wraps at 32 bits, and the wrapped sum is what `.filter { it.quantity > 0 }` tests and what is valued | two valid MARKET BUY orders of 2147483647 RELIANCE: the net sum wraps to -2 and the holding disappears | the position of 4294967294 shares is shown | medium, not executed | `Portfolio.AsWrittenHidesOverflowedPosition` | `Portfolio.PortfolioHoldsExactlyNetLongSymbols` |
