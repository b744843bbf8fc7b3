/** Entities of the order/delivery core and the value view of the data store.
    Every entity the services look up by id lives in a map keyed by that id;
    a setter called on a looked-up (managed) entity is an update of its entry. */
module Entities {

  type ClientId = int
  type EmployeeId = int
  type ProductId = int
  type OrderId = int
  type CourierId = int
  type DeliveryId = int

  /** The calendar date stamped on a new order (supplied by the caller: clocks are not modelled). */
  type Date = int
  /** A point in time (supplied by the caller: clocks are not modelled). */
  type Instant = int

  datatype Option<T> = None | Some(value: T)

  datatype Result<T, E> = Ok(value: T) | Err(error: E)

  datatype OrderStatus = Draft | SignedByEmployee | SignedByClient | Finished | DeliveryFinished

  datatype DeliveryStatus = WaitingForDelivery | InProcess | Done

  /** Position of an order status on the workflow DRAFT -> ... -> DELIVERY_FINISHED. */
  function OrderRank(s: OrderStatus): nat {
    match s
    case Draft => 0
    case SignedByEmployee => 1
    case SignedByClient => 2
    case Finished => 3
    case DeliveryFinished => 4
  }

  /** Position of a delivery status on WAITING_FOR_DELIVERY -> IN_PROCESS -> DONE. */
  function DeliveryRank(s: DeliveryStatus): nat {
    match s
    case WaitingForDelivery => 0
    case InProcess => 1
    case Done => 2
  }

  datatype Product = Product(productName: string, cost: int, unit: string, storageAmount: int)

  datatype Order = Order(
    client: ClientId,
    employee: EmployeeId,
    orderDate: Date,
    orderStatus: OrderStatus,
    linkToFolder: string)

  /** A line of a stored order: a snapshot of the product at reservation time. */
  datatype OrderItem = OrderItem(
    product: ProductId,
    orderAmount: int,
    cost: int,
    unit: string,
    name: string,
    order: OrderId)

  datatype Courier = Courier(isActive: bool)

  datatype Delivery = Delivery(
    order: OrderId,
    courier: Option<CourierId>,
    deliveryStatus: DeliveryStatus,
    endTime: Option<Instant>)

  /** One requested line of a new order. */
  datatype OrderItemRequest = OrderItemRequest(productId: ProductId, orderAmount: int)

  datatype OrderRequest = OrderRequest(
    clientId: ClientId,
    employeeId: EmployeeId,
    orderItemList: seq<OrderItemRequest>)

  /** The whole store as a value. `nextOrderId` is the id the order table hands out next. */
  datatype Db = Db(
    clients: set<ClientId>,
    employees: set<EmployeeId>,
    products: map<ProductId, Product>,
    orders: map<OrderId, Order>,
    orderItems: seq<OrderItem>,
    nextOrderId: OrderId,
    couriers: map<CourierId, Courier>,
    deliveries: map<DeliveryId, Delivery>)

  /** The outcome of one service call: the store afterwards and what the call returned or threw. */
  datatype Outcome<T, E> = Outcome(db: Db, res: Result<T, E>)

  /** Every stored order id was handed out before the counter. */
  predicate IdsIssued(db: Db) {
    forall id :: id in db.orders ==> id < db.nextOrderId
  }

  /** No product has a negative stored amount. */
  predicate StockNonNegative(db: Db) {
    forall p :: p in db.products ==> db.products[p].storageAmount >= 0
  }

  /** The store invariant every operation of the core preserves. */
  predicate Valid(db: Db) {
    IdsIssued(db) && StockNonNegative(db)
  }
}
