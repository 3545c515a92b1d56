# Order creation: order assembly and stock reconciliation

A Dafny model of `execute` of the order-creation service of the E-Commerce
API, in `src/modules/orders/services/CreateOrderService.ts` (the class there
is declared as `CreateProductService`). Given a request
`{customer_id, products: [{id, quantity}]}`, the service looks up the
customer, looks up all requested products in one batch, checks that the
lookup returned as many records as the request has entries, matches every
returned stock record with the first request entry carrying its id, checks
the stock, and then writes twice: the new stock levels, then the order.

The model is functional:

- `Orders` (`orders.dfy`) holds the records: `ProductRequest`, `OrderRequest`,
  `Customer`, `Product` (the stock record returned by the lookup),
  `QuantityUpdate`, `OrderLine`, `Order`, the three error kinds, and the
  repository calls (`Effect`).
- `CreateOrderService` (`create_order_service.dfy`) holds the operation.
  `Execute(request, customer, found)` takes the customer lookup result
  (`Option<Customer>`) and the batch lookup result (`seq<Product>`) as inputs
  and returns an `Outcome`: a `Result<Order, Error>` together with the trace of
  repository calls made, in order (`FindCustomer`, `FindAllById`,
  `UpdateQuantity`, `CreateOrder`). `Writes(trace)` keeps the calls that change
  stored state. `Reconcile` is the walk over the lookup result (the `map`
  callback), `FindRequest`/`FirstMatch` the `find` over the request.
- `CreateOrderProperties` (`create_order_properties.dfy`) proves what relates
  several calls: exact write order, one update and one line per record,
  all-or-nothing rejection, rejection of repeated ids, and independence from
  the order of the request list.
- `CreateOrderScenarios` (`create_order_scenarios.dfy`) works through concrete
  requests.
- `Wrappers` and `Collections` are small helpers (`Option`/`Result`, and
  cardinality facts about sequences).

Details kept as the code has them:

- The existence check compares the raw length of the lookup result with the
  raw length of the request list, not counts of distinct ids. A request naming
  one product twice is rejected as "product not found" by a lookup that returns
  each product once (`DuplicateRequestRejected`), even though every product
  exists. Under the lookup's contract the check is nevertheless complete: a
  requested id with no record is rejected (`MissingProductRejected`), and a
  successful call resolved every requested id (`SuccessResolvesEveryRequest`).
- Matching uses the first request entry with the record's id; later entries
  with the same id are ignored.
- A returned record whose id is not in the request (the lookup is not
  expected to return one) is not an error: the code returns the record itself,
  so it becomes an order line carrying the record's own stock quantity, and no
  new stock level is written for it (`ScenarioUnrequestedRecord`). The
  properties that need every record to be matched take `OnlyRequested` as an
  explicit precondition, the lookup's contract.
- Requested quantities are not checked to be positive; the model uses `int`
  and does not add that check.
- The stock check rejects when `stock < requested`, so every written stock
  level is `stock - requested >= 0`.
- Order lines and stock levels come out in the order of the lookup result, not
  of the request; reordering the request (without repeated ids) changes
  nothing (`MatchingIgnoresRequestOrder`), but reordering the lookup result
  reorders both lists.
- The id of a written stock level is taken from the request entry (line 64);
  the match compares ids with strict equality, so it is the record's id.

## Model

| member | source | states |
|---|---|---|
| CreateOrderService.FirstMatch | src/modules/orders/services/CreateOrderService.ts:52-54 | the position found is the first request entry with the record's id; no earlier entry has that id, and the end position means no entry has it |
| CreateOrderService.FindRequest | src/modules/orders/services/CreateOrderService.ts:52-56 | a record is matched with a request entry exactly when its id occurs in the request; the match has the record's id and no earlier entry has that id |
| CreateOrderService.Reconcile | src/modules/orders/services/CreateOrderService.ts:51-75 | the walk succeeds exactly when every matched record has at least the requested stock, and otherwise fails with the insufficient-quantity error; on success there is one order line per record, in lookup order, with the record's id and the record's price, and the matched entry's quantity (the record's own quantity when unmatched); every written stock level is non-negative and names a requested id |
| CreateOrderService.Execute | src/modules/orders/services/CreateOrderService.ts:34-89 | the customer is looked up first; customer-not-found exactly when the customer is absent, with no other call made; product-not-found exactly when the two list lengths differ; insufficient-quantity exactly when the lengths agree and some matched record is short; no write on any failure; on success the trace is the two lookups, one stock update, one order creation, and the returned order is the created one for the looked-up customer |
| CreateOrderProperties.SuccessWritesInOrder | src/modules/orders/services/CreateOrderService.ts:77-88 | a successful call makes both lookups before its writes, and its writes are exactly the stock update followed by the order creation |
| CreateOrderProperties.OneUpdatePerRecord | src/modules/orders/services/CreateOrderService.ts:51-71 | when the lookup returns only requested ids, each record yields, in lookup order, one stock level equal to its stock minus the first matching entry's quantity, which is non-negative, and one order line with its id, its price and that quantity |
| CreateOrderProperties.SuccessfulOrder | src/modules/orders/services/CreateOrderService.ts:63-86 | when the lookup returns only requested ids, a successful call writes one stock level per record and creates an order for the looked-up customer with one line per record, each priced from the stock record |
| CreateOrderProperties.InsufficientStockRejectsWholeOrder | src/modules/orders/services/CreateOrderService.ts:51-61 | a single record whose matching entry asks for more than its stock rejects the request with insufficient-quantity and nothing is written, whatever the other records are |
| CreateOrderProperties.DuplicateRequestRejected | src/modules/orders/services/CreateOrderService.ts:41-47 | a request naming some id twice, against a lookup returning each requested product at most once, is rejected as product-not-found with no write |
| CreateOrderProperties.MissingProductRejected | src/modules/orders/services/CreateOrderService.ts:41-47 | when the lookup returns each product at most once and only requested ids, a requested id with no returned record gives product-not-found with no write |
| CreateOrderProperties.SuccessResolvesEveryRequest | src/modules/orders/services/CreateOrderService.ts:41-47 | when the lookup returns each product at most once and only requested ids, a successful call had a request repeating no id, and every requested id has a returned record |
| CreateOrderProperties.FindRequestIgnoresOrder | src/modules/orders/services/CreateOrderService.ts:52-54 | when the request repeats no id, the entry a record is matched with is the same for every reordering of the request |
| CreateOrderProperties.ReconcileDependsOnlyOnMatches | src/modules/orders/services/CreateOrderService.ts:51-75 | two request lists that match every id to the same entry give the same reconciliation |
| CreateOrderProperties.MatchingIgnoresRequestOrder | src/modules/orders/services/CreateOrderService.ts:41-86 | when the request repeats no id, reordering it changes neither the result nor the writes |
| CreateOrderScenarios.ScenarioInStock | src/modules/orders/services/CreateOrderService.ts:34-88 | stock 10, price 5.0, request 3: stock is set to 7 and the order has one line at price 5.0 for 3 |
| CreateOrderScenarios.ScenarioUnknownCustomer | src/modules/orders/services/CreateOrderService.ts:35-39 | an unknown customer is rejected after the customer lookup alone |
| CreateOrderScenarios.ScenarioUnknownProduct | src/modules/orders/services/CreateOrderService.ts:41-47 | a product missing from the catalogue is rejected as product-not-found with no write |
| CreateOrderScenarios.ScenarioInsufficientStock | src/modules/orders/services/CreateOrderService.ts:56-61 | stock 2, request 5: insufficient-quantity with no write |
| CreateOrderScenarios.ScenarioRepeatedProduct | src/modules/orders/services/CreateOrderService.ts:41-47 | the same existing product named twice is rejected as product-not-found |
| CreateOrderScenarios.ScenarioUnrequestedRecord | src/modules/orders/services/CreateOrderService.ts:74 | a returned record with no matching entry becomes an order line with its own stock quantity and gets no stock update |

## Left out

- Dependency injection and the constructor wiring (lines 21-32): framework plumbing; the repositories become inputs and trace entries.
- Repository implementations and persistence: the two lookups are inputs, the two writes are trace entries. The generated order id and timestamps are not modelled; the returned order is the aggregate passed to the order repository.
- async/await and races between concurrent orders on the same product: the lookup result is taken as one consistent snapshot.
- Failures of the repositories themselves (for example a stock update that succeeds followed by an order creation that fails): not modelled.
- Error message text: only the error kind is modelled. The insufficient-quantity message reports the requested quantity under the label of the available one (line 59), so no property is stated about it.
- Prices: a JavaScript number, modelled as `real` and only ever copied; quantities are modelled as unbounded `int` rather than floating point.
