/** The order-assembly and stock-reconciliation step of order creation.
    The two repository reads are inputs (the customer lookup result and the
    batch product lookup result); the calls the service makes are recorded in
    a trace so that their order, and their absence on failure, can be stated. */
module CreateOrderService {
  import opened Wrappers
  import opened Orders

  /** Ids of the request entries, in request order, repeats included. */
  function RequestedIds(requests: seq<ProductRequest>): seq<ProductId>
  {
    seq(|requests|, i requires 0 <= i < |requests| => requests[i].id)
  }

  /** Position of the first request entry for product `id`, or `|requests|`
      when there is none. */
  function FirstMatch(requests: seq<ProductRequest>, id: ProductId): (k: nat)
    ensures k <= |requests|
    ensures k < |requests| ==> requests[k].id == id
    ensures forall j :: 0 <= j < k ==> requests[j].id != id
  {
    if |requests| == 0 then 0
    else if requests[0].id == id then 0
    else 1 + FirstMatch(requests[1..], id)
  }

  /** The request entry that a stock record is matched with: the first entry
      carrying the same id, if any. */
  function FindRequest(requests: seq<ProductRequest>, id: ProductId): (r: Option<ProductRequest>)
    ensures r.None? <==> id !in RequestedIds(requests)
    ensures r.Some? ==> r.value in requests && r.value.id == id
    ensures r.Some? ==> exists k :: 0 <= k < |requests| && requests[k] == r.value
                                    && forall j :: 0 <= j < k ==> requests[j].id != id
  {
    var k := FirstMatch(requests, id);
    assert forall j :: 0 <= j < |requests| ==> RequestedIds(requests)[j] == requests[j].id;
    if k < |requests| then Some(requests[k]) else None
  }

  /** The stock check for one record: it fails only when the record has a
      matching request entry asking for more than is in stock. */
  predicate Sufficient(product: Product, requests: seq<ProductRequest>) {
    match FindRequest(requests, product.id)
    case None => true
    case Some(r) => !(product.quantity < r.quantity)
  }

  predicate AllSufficient(products: seq<Product>, requests: seq<ProductRequest>) {
    forall k :: 0 <= k < |products| ==> Sufficient(products[k], requests)
  }

  /** What the batch lookup is expected to return: only records for ids that
      were asked for. Under it every record has a matching request entry. */
  predicate OnlyRequested(products: seq<Product>, requests: seq<ProductRequest>) {
    forall k :: 0 <= k < |products| ==> products[k].id in RequestedIds(requests)
  }

  /** The two lists built while walking the lookup result. */
  datatype Reconciled = Reconciled(updates: seq<QuantityUpdate>, lines: seq<OrderLine>)

  /** Walks the lookup result in order. For a record with a matching request
      entry it checks the stock, then emits the new stock level and an order
      line with the requested quantity; for a record with no matching entry it
      emits an order line carrying the record itself. Any failed stock check
      rejects the whole walk. */
  function Reconcile(products: seq<Product>, requests: seq<ProductRequest>): (r: Result<Reconciled, Error>)
    ensures r.Success? <==> AllSufficient(products, requests)
    ensures r.Failure? ==> r.error == InsufficientQuantity
    ensures r.Success? ==> |r.value.lines| == |products|
    ensures r.Success? ==> forall k :: 0 <= k < |products| ==>
              && r.value.lines[k].productId == products[k].id
              && r.value.lines[k].price == products[k].price
              && r.value.lines[k].quantity ==
                   (var m := FirstMatch(requests, products[k].id);
                    if m < |requests| then requests[m].quantity else products[k].quantity)
    ensures r.Success? ==> |r.value.updates| <= |products|
    ensures r.Success? ==> forall j :: 0 <= j < |r.value.updates| ==>
              r.value.updates[j].quantity >= 0 && r.value.updates[j].id in RequestedIds(requests)
    decreases |products|
  {
    if |products| == 0 then Success(Reconciled([], []))
    else
      var product := products[0];
      var rest := Reconcile(products[1..], requests);
      match FindRequest(requests, product.id)
      case None =>
        if rest.Failure? then rest
        else
          var line := OrderLine(product.id, product.price, product.quantity);
          Success(Reconciled(rest.value.updates, [line] + rest.value.lines))
      case Some(request) =>
        if product.quantity < request.quantity then Failure(InsufficientQuantity)
        else if rest.Failure? then rest
        else
          var update := QuantityUpdate(request.id, product.quantity - request.quantity);
          var line := OrderLine(product.id, product.price, request.quantity);
          Success(Reconciled([update] + rest.value.updates, [line] + rest.value.lines))
  }

  /** What one call of the service returns, and the repository calls it made,
      in order. */
  datatype Outcome = Outcome(result: Result<Order, Error>, trace: seq<Effect>)

  /** The repository calls of a trace that change stored state, in order. */
  function Writes(trace: seq<Effect>): (w: seq<Effect>)
    ensures |w| <= |trace|
    ensures forall e :: e in w <==> e in trace && e.IsWrite()
  {
    if |trace| == 0 then []
    else if trace[0].IsWrite() then [trace[0]] + Writes(trace[1..])
    else Writes(trace[1..])
  }

  /** Order creation. `customer` is what the customer lookup returned for
      `request.customerId`; `found` is what the batch product lookup returned
      for the request's ids. */
  function Execute(request: OrderRequest, customer: Option<Customer>, found: seq<Product>): (out: Outcome)
    // the customer is looked up first, and nothing else happens without it
    ensures |out.trace| >= 1 && out.trace[0] == FindCustomer(request.customerId)
    ensures out.result == Failure(CustomerNotFound) <==> customer.None?
    ensures customer.None? ==> out.trace == [FindCustomer(request.customerId)]
    // the product check compares raw list lengths
    ensures out.result == Failure(ProductNotFound) <==>
              customer.Some? && |found| != |request.products|
    // one failing stock check rejects the request
    ensures out.result == Failure(InsufficientQuantity) <==>
              customer.Some? && |found| == |request.products| && !AllSufficient(found, request.products)
    // every rejection happens before any write
    ensures out.result.Failure? ==> Writes(out.trace) == []
    // on success: the lookups, then one stock update, then one order creation,
    // and the order returned is the order created for the looked-up customer
    ensures out.result.Success? ==>
              && customer.Some?
              && Reconcile(found, request.products).Success?
              && var rec := Reconcile(found, request.products).value;
                 && out.result.value == Order(customer.value, rec.lines)
                 && out.trace == [FindCustomer(request.customerId),
                                  FindAllById(RequestedIds(request.products)),
                                  UpdateQuantity(rec.updates),
                                  CreateOrder(out.result.value)]
  {
    var lookups := [FindCustomer(request.customerId)];
    if customer.None? then Outcome(Failure(CustomerNotFound), lookups)
    else
      var ids := RequestedIds(request.products);
      var lookups := lookups + [FindAllById(ids)];
      if |found| != |ids| then Outcome(Failure(ProductNotFound), lookups)
      else
        match Reconcile(found, request.products)
        case Failure(e) => Outcome(Failure(e), lookups)
        case Success(rec) =>
          var order := Order(customer.value, rec.lines);
          Outcome(Success(order), lookups + [UpdateQuantity(rec.updates), CreateOrder(order)])
  }
}
