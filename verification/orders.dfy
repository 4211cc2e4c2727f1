/** Orders, sides and the exceptions the order-book code raises. */
module Orders {

  /** Prices are compared exactly. The source stores floats; see README for this assumption. */
  type Price = int

  type OrderId = string

  datatype Side = Bid | Ask

  /** A resting order. `size` is the only field the book ever changes. */
  datatype Order = Order(
    orderId: OrderId,
    timestamp: string,
    ticker: string,
    price: Price,
    size: int,
    side: Side
  )

  /** The orders of one price level, keyed by order id. */
  type OrderMap = map<OrderId, Order>

  /** The exceptions raised by the modelled code. The first five derive from
      OrderBookError and carry the text `str(err)` yields; the rest are Python
      built-ins that nothing in the order-processing path catches. */
  datatype Error =
    | InvalidOrderSizeZero(message: string)
    | DuplicatedOrderId(message: string)
    | OrderDoesNotExist(message: string)
    | NodeNotFoundInTree(message: string)
    | OrderNotFoundInNodeOrders(message: string)
    | RuntimeError
    | KeyError
    | AttributeError
    | ValueError
    | IndexError
  {
    /** True of the exceptions `except OrderBookError` catches. */
    predicate IsOrderBookError() {
      InvalidOrderSizeZero? || DuplicatedOrderId? || OrderDoesNotExist?
      || NodeNotFoundInTree? || OrderNotFoundInNodeOrders?
    }
  }

  /** A value or Python's None. */
  datatype Option<+T> = None | Some(value: T)

  /** Either a normal return with a value or a raised exception. */
  datatype Outcome<+T> = Ok(value: T) | Raise(error: Error)
}
