/** Properties of order creation that relate several calls, or that need a
    proof beyond the contracts of the service's own functions. */
module CreateOrderProperties {
  import opened Wrappers
  import opened Orders
  import opened Collections
  import opened CreateOrderService

  /** Ids of the stock records, in lookup order. */
  function ProductIds(products: seq<Product>): seq<ProductId>
  {
    seq(|products|, k requires 0 <= k < |products| => products[k].id)
  }

  /** The reads of a successful call are followed by exactly its two writes. */
  lemma WritesOfSuccessTrace(a: Effect, b: Effect, c: Effect, d: Effect)
    requires !a.IsWrite() && !b.IsWrite() && c.IsWrite() && d.IsWrite()
    ensures Writes([a, b, c, d]) == [c, d]
  {
    assert [a, b, c, d][1..] == [b, c, d];
    assert [b, c, d][1..] == [c, d];
    assert [c, d][1..] == [d];
    assert [d][1..] == [];
    assert Writes([d]) == [d] + Writes([]);
    assert Writes([c, d]) == [c] + Writes([d]);
    assert Writes([b, c, d]) == Writes([c, d]);
    assert Writes([a, b, c, d]) == Writes([b, c, d]);
  }

  /** A successful call writes exactly twice, after both lookups: first the
      new stock levels, then the order, and the order it returns is the order
      it created. */
  lemma SuccessWritesInOrder(request: OrderRequest, customer: Option<Customer>, found: seq<Product>)
    requires Execute(request, customer, found).result.Success?
    ensures var out := Execute(request, customer, found);
            && out.trace[..2] == [FindCustomer(request.customerId), FindAllById(RequestedIds(request.products))]
            && Writes(out.trace) == out.trace[2..]
            && Writes(out.trace) == [UpdateQuantity(Reconcile(found, request.products).value.updates),
                                     CreateOrder(out.result.value)]
  {
    var out := Execute(request, customer, found);
    WritesOfSuccessTrace(out.trace[0], out.trace[1], out.trace[2], out.trace[3]);
  }

  /** With a lookup that returns only requested records, each record yields
      one new stock level and one order line, in lookup order: the stock level
      is the record's quantity minus the quantity of the first request entry
      with its id, and is never negative. */
  lemma {:induction false} OneUpdatePerRecord(products: seq<Product>, requests: seq<ProductRequest>)
    requires OnlyRequested(products, requests)
    requires Reconcile(products, requests).Success?
    ensures var rec := Reconcile(products, requests).value;
            && |rec.updates| == |products|
            && forall k :: 0 <= k < |products| ==>
                 var m := FirstMatch(requests, products[k].id);
                 && m < |requests|
                 && rec.updates[k] == QuantityUpdate(products[k].id, products[k].quantity - requests[m].quantity)
                 && rec.updates[k].quantity >= 0
                 && rec.lines[k] == OrderLine(products[k].id, products[k].price, requests[m].quantity)
    decreases |products|
  {
    if |products| > 0 {
      var tail := products[1..];
      assert OnlyRequested(tail, requests) by {
        forall k | 0 <= k < |tail|
          ensures tail[k].id in RequestedIds(requests)
        {
          assert tail[k] == products[k + 1];
        }
      }
      OneUpdatePerRecord(tail, requests);
      assert products[0].id in RequestedIds(requests);
      var rec := Reconcile(products, requests).value;
      var rest := Reconcile(tail, requests).value;
      assert rec.updates[1..] == rest.updates;
      forall k | 0 < k < |products|
        ensures rec.updates[k] == rest.updates[k - 1]
      {
      }
    }
  }

  /** The successful outcome in full, under a lookup that returns only
      requested records. */
  lemma SuccessfulOrder(request: OrderRequest, customer: Option<Customer>, found: seq<Product>)
    requires OnlyRequested(found, request.products)
    requires Execute(request, customer, found).result.Success?
    ensures var out := Execute(request, customer, found);
            var order := out.result.value;
            var writes := Writes(out.trace);
            && customer == Some(order.customer)
            && |writes| == 2 && writes[0].UpdateQuantity? && writes[1] == CreateOrder(order)
            && |writes[0].updates| == |found| == |order.products| == |request.products|
            && forall k :: 0 <= k < |found| ==>
                 var r := FindRequest(request.products, found[k].id);
                 && r.Some?
                 && writes[0].updates[k] == QuantityUpdate(found[k].id, found[k].quantity - r.value.quantity)
                 && writes[0].updates[k].quantity >= 0
                 && order.products[k] == OrderLine(found[k].id, found[k].price, r.value.quantity)
  {
    var out := Execute(request, customer, found);
    var rec := Reconcile(found, request.products).value;
    OneUpdatePerRecord(found, request.products);
    SuccessWritesInOrder(request, customer, found);
    assert Writes(out.trace) == [UpdateQuantity(rec.updates), CreateOrder(out.result.value)];
    assert out.result.value.products == rec.lines;
  }

  /** All or nothing: one record whose matching request entry asks for more
      than is in stock rejects the whole request, whatever the other records
      are, and nothing is written. */
  lemma InsufficientStockRejectsWholeOrder(request: OrderRequest, customer: Customer, found: seq<Product>, k: nat)
    requires |found| == |request.products|
    requires k < |found|
    requires FindRequest(request.products, found[k].id).Some?
    requires found[k].quantity < FindRequest(request.products, found[k].id).value.quantity
    ensures Execute(request, Some(customer), found).result == Failure(InsufficientQuantity)
    ensures Writes(Execute(request, Some(customer), found).trace) == []
  {
  }

  /** The existence check compares the raw lengths of the two lists. A request
      that names one product twice is therefore rejected by a lookup that
      returns each existing product once, even if every product exists. */
  lemma DuplicateRequestRejected(request: OrderRequest, customer: Customer, found: seq<Product>)
    requires !Distinct(RequestedIds(request.products))
    requires Distinct(ProductIds(found))
    requires OnlyRequested(found, request.products)
    ensures Execute(request, Some(customer), found).result == Failure(ProductNotFound)
    ensures Writes(Execute(request, Some(customer), found).trace) == []
  {
    var ids := RequestedIds(request.products);
    var got := ProductIds(found);
    ElementsCardinality(ids);
    ElementsCardinality(got);
    assert Elements(got) <= Elements(ids) by {
      forall x | x in Elements(got)
        ensures x in Elements(ids)
      {
        var k :| 0 <= k < |got| && got[k] == x;
        assert found[k].id in ids;
      }
    }
    SubsetCardinality(Elements(got), Elements(ids));
    assert |found| < |request.products|;
  }

  /** Existence completeness: under the lookup's contract, a requested id for
      which the lookup returned no record makes the call fail with
      product-not-found, and nothing is written. */
  lemma MissingProductRejected(request: OrderRequest, customer: Customer, found: seq<Product>, id: ProductId)
    requires Distinct(ProductIds(found))
    requires OnlyRequested(found, request.products)
    requires id in RequestedIds(request.products)
    requires id !in ProductIds(found)
    ensures Execute(request, Some(customer), found).result == Failure(ProductNotFound)
    ensures Writes(Execute(request, Some(customer), found).trace) == []
  {
    var ids := RequestedIds(request.products);
    var got := ProductIds(found);
    ElementsCardinality(ids);
    ElementsCardinality(got);
    assert Elements(got) <= Elements(ids) - {id} by {
      forall x | x in Elements(got)
        ensures x in Elements(ids) && x != id
      {
        var k :| 0 <= k < |got| && got[k] == x;
        assert found[k].id in ids;
      }
    }
    assert id in Elements(ids);
    assert |Elements(ids) - {id}| == |Elements(ids)| - 1;
    SubsetCardinality(Elements(got), Elements(ids) - {id});
    assert |found| < |request.products|;
  }

  /** The converse: under the lookup's contract, a successful call had a
      request that repeats no id and whose every id the lookup resolved. */
  lemma SuccessResolvesEveryRequest(request: OrderRequest, customer: Option<Customer>, found: seq<Product>)
    requires Distinct(ProductIds(found))
    requires OnlyRequested(found, request.products)
    requires Execute(request, customer, found).result.Success?
    ensures Distinct(RequestedIds(request.products))
    ensures forall i :: 0 <= i < |request.products| ==> request.products[i].id in ProductIds(found)
  {
    if !Distinct(RequestedIds(request.products)) {
      DuplicateRequestRejected(request, customer.value, found);
    }
    forall i | 0 <= i < |request.products|
      ensures request.products[i].id in ProductIds(found)
    {
      var id := request.products[i].id;
      assert RequestedIds(request.products)[i] == id;
      if id !in ProductIds(found) {
        MissingProductRejected(request, customer.value, found, id);
      }
    }
  }

  /** A subset is no larger than its superset. */
  lemma {:induction false} SubsetCardinality<T>(a: set<T>, b: set<T>)
    requires a <= b
    ensures |a| <= |b|
    decreases |a|
  {
    if a != {} {
      var x :| x in a;
      SubsetCardinality(a - {x}, b - {x});
    }
  }

  /** With distinct ids, the request entry a record is matched with does not
      depend on where the entry sits in the request list. */
  lemma FindRequestIgnoresOrder(requests: seq<ProductRequest>, requests': seq<ProductRequest>, id: ProductId)
    requires Distinct(RequestedIds(requests))
    requires multiset(requests) == multiset(requests')
    ensures FindRequest(requests, id) == FindRequest(requests', id)
  {
    var a := FindRequest(requests, id);
    var b := FindRequest(requests', id);
    if a.Some? {
      assert a.value in multiset(requests');
      var i :| 0 <= i < |requests'| && requests'[i] == a.value;
      assert RequestedIds(requests')[i] == id;
    }
    if b.Some? {
      assert b.value in multiset(requests);
      var i :| 0 <= i < |requests| && requests[i] == b.value;
      assert RequestedIds(requests)[i] == id;
    }
    if a.Some? && b.Some? {
      assert b.value in multiset(requests);
      var i :| 0 <= i < |requests| && requests[i] == a.value;
      var j :| 0 <= j < |requests| && requests[j] == b.value;
      assert RequestedIds(requests)[i] == RequestedIds(requests)[j];
    }
  }

  /** Reconciliation sees the request list only through the matching of ids. */
  lemma {:induction false} ReconcileDependsOnlyOnMatches(products: seq<Product>, requests: seq<ProductRequest>, requests': seq<ProductRequest>)
    requires forall id :: FindRequest(requests, id) == FindRequest(requests', id)
    ensures Reconcile(products, requests) == Reconcile(products, requests')
    decreases |products|
  {
    if |products| > 0 {
      ReconcileDependsOnlyOnMatches(products[1..], requests, requests');
    }
  }

  /** Matching is by id, not by position: reordering a request list that
      repeats no id changes neither the outcome nor the writes. */
  lemma MatchingIgnoresRequestOrder(request: OrderRequest, request': OrderRequest, customer: Option<Customer>, found: seq<Product>)
    requires request'.customerId == request.customerId
    requires Distinct(RequestedIds(request.products))
    requires multiset(request.products) == multiset(request'.products)
    ensures Execute(request, customer, found).result == Execute(request', customer, found).result
    ensures Writes(Execute(request, customer, found).trace) == Writes(Execute(request', customer, found).trace)
  {
    assert |request.products| == |multiset(request.products)| == |request'.products|;
    forall id
      ensures FindRequest(request.products, id) == FindRequest(request'.products, id)
    {
      FindRequestIgnoresOrder(request.products, request'.products, id);
    }
    ReconcileDependsOnlyOnMatches(found, request.products, request'.products);
    if Execute(request, customer, found).result.Success? {
      SuccessWritesInOrder(request, customer, found);
      SuccessWritesInOrder(request', customer, found);
    }
  }
}
