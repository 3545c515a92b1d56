/** The records the order-creation service reads and produces. */
module Orders {

  type CustomerId = string
  type ProductId = string

  /** A product price. The service never computes with it; it is copied
      from the stock record into the order line unchanged. */
  type Price = real

  /** One entry of the request's product list: which product, how many. */
  datatype ProductRequest = ProductRequest(id: ProductId, quantity: int)

  /** The request handed to the service. */
  datatype OrderRequest = OrderRequest(customerId: CustomerId, products: seq<ProductRequest>)

  /** A customer as returned by the customer lookup. */
  datatype Customer = Customer(id: CustomerId, name: string, email: string)

  /** A stock record as returned by the product batch lookup. */
  datatype Product = Product(id: ProductId, name: string, price: Price, quantity: int)

  /** An absolute new stock level for one product. */
  datatype QuantityUpdate = QuantityUpdate(id: ProductId, quantity: int)

  /** One line of the order that is created. */
  datatype OrderLine = OrderLine(productId: ProductId, price: Price, quantity: int)

  /** The order aggregate handed to, and returned by, the order repository. */
  datatype Order = Order(customer: Customer, products: seq<OrderLine>)

  /** Why a request was rejected. */
  datatype Error = CustomerNotFound | ProductNotFound | InsufficientQuantity

  /** A call the service makes on one of its repositories. */
  datatype Effect =
    | FindCustomer(customerId: CustomerId)
    | FindAllById(ids: seq<ProductId>)
    | UpdateQuantity(updates: seq<QuantityUpdate>)
    | CreateOrder(order: Order)
  {
    /** True of the calls that change stored state. */
    predicate IsWrite() {
      UpdateQuantity? || CreateOrder?
    }
  }
}
