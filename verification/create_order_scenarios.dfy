/** Concrete runs of order creation on small catalogues. */
module CreateOrderScenarios {
  import opened Wrappers
  import opened Orders
  import opened CreateOrderService
  import opened CreateOrderProperties

  const alice := Customer("C1", "Alice", "alice@example.com")

  /** A single in-stock product: stock goes from 10 to 7 and the order line
      carries the stock record's price. */
  lemma ScenarioInStock()
    ensures var out := Execute(OrderRequest("C1", [ProductRequest("P1", 3)]),
                               Some(alice), [Product("P1", "Pen", 5.0, 10)]);
            && out.result == Success(Order(alice, [OrderLine("P1", 5.0, 3)]))
            && Writes(out.trace) == [UpdateQuantity([QuantityUpdate("P1", 7)]),
                                     CreateOrder(Order(alice, [OrderLine("P1", 5.0, 3)]))]
  {
    var request := OrderRequest("C1", [ProductRequest("P1", 3)]);
    var found := [Product("P1", "Pen", 5.0, 10)];
    assert FirstMatch(request.products, "P1") == 0;
    assert FindRequest(request.products, "P1") == Some(ProductRequest("P1", 3));
    assert found[1..] == [];
    assert Reconcile(found[1..], request.products) == Success(Reconciled([], []));
    var rec := Reconcile(found, request.products);
    assert rec.Success?;
    assert rec.value.updates == [QuantityUpdate("P1", 7)];
    assert rec.value.lines == [OrderLine("P1", 5.0, 3)];
    SuccessWritesInOrder(request, Some(alice), found);
  }

  /** An unknown customer stops the call before any product lookup. */
  lemma ScenarioUnknownCustomer()
    ensures var out := Execute(OrderRequest("C9", [ProductRequest("P1", 3)]), None, []);
            && out.result == Failure(CustomerNotFound)
            && out.trace == [FindCustomer("C9")]
  {
  }

  /** A product missing from the catalogue makes the lookup result shorter
      than the request. */
  lemma ScenarioUnknownProduct()
    ensures var out := Execute(OrderRequest("C1", [ProductRequest("P1", 3), ProductRequest("P2", 1)]),
                               Some(alice), [Product("P1", "Pen", 5.0, 10)]);
            && out.result == Failure(ProductNotFound)
            && Writes(out.trace) == []
  {
  }

  /** Asking for more than is in stock writes nothing. */
  lemma ScenarioInsufficientStock()
    ensures var out := Execute(OrderRequest("C1", [ProductRequest("P1", 5)]),
                               Some(alice), [Product("P1", "Pen", 5.0, 2)]);
            && out.result == Failure(InsufficientQuantity)
            && Writes(out.trace) == []
  {
  }

  /** Naming one existing product twice is rejected as a missing product. */
  lemma ScenarioRepeatedProduct()
    ensures var out := Execute(OrderRequest("C1", [ProductRequest("P1", 1), ProductRequest("P1", 2)]),
                               Some(alice), [Product("P1", "Pen", 5.0, 10)]);
            && out.result == Failure(ProductNotFound)
  {
  }

  /** A record the request did not ask for (outside the lookup's contract)
      becomes an order line with the record's own stock quantity and no new
      stock level. */
  lemma ScenarioUnrequestedRecord()
    ensures var out := Execute(OrderRequest("C1", [ProductRequest("P1", 3)]),
                               Some(alice), [Product("P7", "Ink", 2.5, 40)]);
            && out.result == Success(Order(alice, [OrderLine("P7", 2.5, 40)]))
            && Writes(out.trace) == [UpdateQuantity([]), CreateOrder(Order(alice, [OrderLine("P7", 2.5, 40)]))]
  {
    var request := OrderRequest("C1", [ProductRequest("P1", 3)]);
    var found := [Product("P7", "Ink", 2.5, 40)];
    assert FirstMatch(request.products, "P7") == 1;
    assert FindRequest(request.products, "P7") == None;
    assert found[1..] == [];
    assert Reconcile(found[1..], request.products) == Success(Reconciled([], []));
    var rec := Reconcile(found, request.products);
    assert rec.Success?;
    assert rec.value.updates == [];
    assert rec.value.lines == [OrderLine("P7", 2.5, 40)];
    SuccessWritesInOrder(request, Some(alice), found);
  }
}
