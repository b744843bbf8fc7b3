# Order workflow and delivery assignment of a retail CRM

A Dafny model of the two service classes that hold the business rules of the CRM:

- `OrderServiceImpl`: creating a DRAFT order for an existing client and employee while reserving
  product stock item by item; moving an order from DRAFT to SIGNED_BY_EMPLOYEE (`generateOrder`)
  and from SIGNED_BY_CLIENT to FINISHED (`finishOrder`); deleting an order while it is DRAFT;
  looking an order up.
- `DeliveryServiceImpl`: a courier taking a WAITING_FOR_DELIVERY delivery
  (`changeStatusToInProgress`), and the assigned courier completing it (`changeStatusToDone`),
  which also reactivates the courier and marks the linked order DELIVERY_FINISHED; looking a
  delivery up.

## How the model is built

- `entities.dfy` (module `Entities`): the entities as datatypes (Product, Order, OrderItem,
  Courier, Delivery, the request records), the statuses, and `Db`, the whole store as a value:
  one map per repository keyed by id, except clients and employees, which are sets of ids because
  the core only checks that they exist. The store also holds the order-line table as a sequence and
  the counter the order table takes new ids from. `Valid` is the store invariant (stored order ids were handed
  out by the counter; no stock is negative).
- `store.dfy` (module `Persistence`): the class `Store`, whose fields are those tables. A setter
  called on a looked-up entity is modelled as replacing that entity's entry in its table.
- `order_workflow.dfy`, `delivery_workflow.dfy`: one function per service call, returning the new
  store and the result or the error code thrown, with the properties of one call in its
  `ensures` and the properties relating several calls as lemmas.
- `order_service.dfy`, `delivery_service.dfy`: the same calls as methods that change a `Store`
  step by step (the item loop of `createDraft` is a `while` loop), each proved to leave the store
  and return exactly what the corresponding workflow function says.

Decisions taken where the code leaves room:

- `createDraft` keeps what it did before a failing item. The draft order is saved first, and each
  earlier item has its stock lowered and its line recorded. No transaction boundary is visible
  in `OrderServiceImpl`, so the model has no rollback (`CreateDraftKeepsPartialWork`).
- The stock test is strict (`storageAmount > orderAmount`). Ordering the whole stock of a product
  is refused with INVALID_ORDER (`WholeStockIsRefused`). The design description of the system
  instead expects an order for all 5 units of a stock of 5 to succeed and leave 0. The model
  follows the code.
- The design description asks that a courier hold at most one active delivery and that an
  inactive courier not be appointed. `changeStatusToInProgress` never reads `isActive`, so
  neither holds (`InProgressIgnoresCourierActivity`, `CourierCanHoldTwoDeliveries`).
- `changeStatusToDone` dereferences the delivery's courier without a null check. The model keeps
  the courier as an `Option`, and `None` gives the error `NullCourier` with the store unchanged.
  A linked order missing from the store gives `NullOrder`. That exception comes after the
  in-memory setters, and the method's transaction rolls them back.
- Couriers are compared by id.
- `changeStatusToDone` marks the linked order DELIVERY_FINISHED whatever status the order has.
- Ids are unbounded integers. The id of a new order is the store's counter, which then moves on.
  The order date and the delivery end time are parameters (`today`, `now`).

## Model

| member | source | states |
|---|---|---|
| OrderWorkflow.FindOne | src/main/java/com/greenatom/service/impl/OrderServiceImpl.java:74-78 | an order is returned exactly when its id is stored, and an unknown id fails with NO_SUCH_ORDER |
| OrderWorkflow.CreateDraftOrder | src/main/java/com/greenatom/service/impl/OrderServiceImpl.java:115-131 | an unknown client fails with NO_SUCH_CLIENT before the employee is looked at, and an unknown employee fails with NO_SUCH_EMPLOYEE; both leave the store unchanged. Success saves, under a fresh id, a DRAFT order with the given client, employee and date and the sample folder link, and changes nothing else |
| OrderWorkflow.ReserveItem | src/main/java/com/greenatom/service/impl/OrderServiceImpl.java:85-98 | an unknown product fails with NO_SUCH_PRODUCT. Otherwise the item succeeds exactly when stock strictly exceeds the amount, else INVALID_ORDER; failures change nothing. On success that product's stock drops by exactly the amount and stays at least 1, and one line is appended copying cost, unit and name, the amount and the order id |
| OrderWorkflow.ReserveItems | src/main/java/com/greenatom/service/impl/OrderServiceImpl.java:84-99 | the item loop fails only with NO_SUCH_PRODUCT or INVALID_ORDER |
| OrderWorkflow.ReserveItemsFrame | src/main/java/com/greenatom/service/impl/OrderServiceImpl.java:84-99 | whatever the outcome, the loop touches only stock and order lines: every product keeps its name, cost and unit, products not named in the list keep their stock, earlier lines stay, and the store invariant holds |
| OrderWorkflow.ReserveItemsSplit | src/main/java/com/greenatom/service/impl/OrderServiceImpl.java:84-99 | running the loop over a + b is running it over a and then, only if that succeeded, over b |
| OrderWorkflow.ReserveItemsStopsAtFirstFailure | src/main/java/com/greenatom/service/impl/OrderServiceImpl.java:84-98 | when items 0..k-1 succeed and item k fails, the call fails with item k's error and leaves the store exactly as items 0..k-1 left it. No item after k is processed |
| OrderWorkflow.ReserveItemsFailureIndex | src/main/java/com/greenatom/service/impl/OrderServiceImpl.java:84-98 | every failing loop has such a first failing item k, with the items before it applied and nothing else |
| OrderWorkflow.ReserveItemsFoundEveryProduct | src/main/java/com/greenatom/service/impl/OrderServiceImpl.java:85-87 | a successful loop found every product its items name |
| OrderWorkflow.ReserveItemsStock | src/main/java/com/greenatom/service/impl/OrderServiceImpl.java:88-89 | after a successful loop each product's stock is its old stock minus the total amount the list requests of it |
| OrderWorkflow.ReserveItemsLeavesStock | src/main/java/com/greenatom/service/impl/OrderServiceImpl.java:88-89 | after a successful loop every product the list names has at least 1 unit left |
| OrderWorkflow.ReserveItemsRecords | src/main/java/com/greenatom/service/impl/OrderServiceImpl.java:90-97 | a successful loop appends exactly one line per item, in list order. Each line copies the product's cost, unit and name, the requested amount and the order id |
| OrderWorkflow.ReserveItemsSucceeds | src/main/java/com/greenatom/service/impl/OrderServiceImpl.java:84-99 | the four facts above together, for one successful loop |
| OrderWorkflow.CreateDraft | src/main/java/com/greenatom/service/impl/OrderServiceImpl.java:81-101 | the client is checked first, then the employee, and either error leaves the store unchanged. With both present, the new DRAFT order is in the store whether or not an item fails, the result is its id on success, and an item failure is NO_SUCH_PRODUCT or INVALID_ORDER. Products the item list does not name keep their stock, every product keeps its name, cost and unit, earlier lines stay, and nothing else but that order changes |
| OrderWorkflow.CreateDraftSucceeds | src/main/java/com/greenatom/service/impl/OrderServiceImpl.java:81-101 | after a successful createDraft the order is DRAFT and every named product existed. Each product's stock fell by its total requested amount and stays at least 1 where named, and one line per item was recorded for the new order |
| OrderWorkflow.CreateDraftKeepsPartialWork | src/main/java/com/greenatom/service/impl/OrderServiceImpl.java:83-98 | a createDraft that fails on item k keeps the saved DRAFT order and the reservations of items 0..k-1, and nothing from item k on |
| OrderWorkflow.WholeStockIsRefused | src/main/java/com/greenatom/service/impl/OrderServiceImpl.java:88-98 | ordering exactly the stored amount fails with INVALID_ORDER and leaves stock unchanged, while the draft order stays saved |
| OrderWorkflow.FinishOrder | src/main/java/com/greenatom/service/impl/OrderServiceImpl.java:104-113 | an unknown id fails with NO_SUCH_ORDER. Otherwise the call succeeds exactly when the order is SIGNED_BY_CLIENT, else INVALID_STATUS with nothing changed. Success sets FINISHED on that order only, one step forward |
| OrderWorkflow.GenerateOrder | src/main/java/com/greenatom/service/impl/OrderServiceImpl.java:134-150 | an unknown id fails with NO_SUCH_ORDER. Otherwise the call succeeds exactly when the order is DRAFT, else CANNOT_ASSIGN_ORDER with nothing changed. Success sets SIGNED_BY_EMPLOYEE on that order only, one step forward |
| OrderWorkflow.DeleteOrder | src/main/java/com/greenatom/service/impl/OrderServiceImpl.java:178-185 | an unknown id fails with NO_SUCH_ORDER. Otherwise the order is removed exactly when it is DRAFT, else CANNOT_DELETE_ORDER and it stays. Stock and order lines are never touched |
| OrderWorkflow.GeneratedOrderIsNotFinishedOrDeleted | src/main/java/com/greenatom/service/impl/OrderServiceImpl.java:104-150 | after a successful generateOrder, finishOrder fails with INVALID_STATUS, deleteOrder with CANNOT_DELETE_ORDER and a second generateOrder with CANNOT_ASSIGN_ORDER |
| OrderWorkflow.DeletedOrderIsGone | src/main/java/com/greenatom/service/impl/OrderServiceImpl.java:74-185 | after a successful delete, every later lookup or transition on that id fails with NO_SUCH_ORDER |
| OrderService.CreateDraftOrder | src/main/java/com/greenatom/service/impl/OrderServiceImpl.java:115-131 | the method leaves the store and returns exactly what OrderWorkflow.CreateDraftOrder gives |
| OrderService.ReserveItem | src/main/java/com/greenatom/service/impl/OrderServiceImpl.java:85-98 | one pass of the loop body leaves the store and returns exactly what OrderWorkflow.ReserveItem gives |
| OrderService.CreateDraft | src/main/java/com/greenatom/service/impl/OrderServiceImpl.java:81-101 | the loop over the items leaves the store and returns exactly what OrderWorkflow.CreateDraft gives |
| OrderService.FinishOrder | src/main/java/com/greenatom/service/impl/OrderServiceImpl.java:104-113 | the method matches OrderWorkflow.FinishOrder |
| OrderService.GenerateOrder | src/main/java/com/greenatom/service/impl/OrderServiceImpl.java:134-150 | the method matches OrderWorkflow.GenerateOrder |
| OrderService.DeleteOrder | src/main/java/com/greenatom/service/impl/OrderServiceImpl.java:178-185 | the method matches OrderWorkflow.DeleteOrder |
| DeliveryWorkflow.FindById | src/main/java/com/greenatom/service/impl/DeliveryServiceImpl.java:44-48 | a delivery is returned exactly when its id is stored, and an unknown id fails with NO_SUCH_DELIVERY |
| DeliveryWorkflow.ChangeStatusToInProgress | src/main/java/com/greenatom/service/impl/DeliveryServiceImpl.java:53-70 | an unknown courier fails with NO_SUCH_COURIER before the delivery is looked up, then an unknown delivery fails with NO_SUCH_DELIVERY. Otherwise the call succeeds exactly when the delivery is WAITING_FOR_DELIVERY, else INVALID_STATUS with nothing changed. Success sets the courier and IN_PROCESS on the delivery and isActive false on the courier, and changes nothing else |
| DeliveryWorkflow.ChangeStatusToDone | src/main/java/com/greenatom/service/impl/DeliveryServiceImpl.java:74-92 | the courier lookup comes first, then the delivery lookup. No assigned courier fails with the null dereference, and a different assigned courier fails with FORBIDDEN whatever the status. The assigned courier on a non-IN_PROCESS delivery gets INVALID_STATUS, and every failure changes nothing. Success sets DONE and the end time, sets isActive true on the courier and sets DELIVERY_FINISHED on the linked order |
| DeliveryWorkflow.InProcessIsNotReassigned | src/main/java/com/greenatom/service/impl/DeliveryServiceImpl.java:61-69 | once a courier has taken a delivery, taking it again fails with INVALID_STATUS for any courier, and the first courier stays assigned |
| DeliveryWorkflow.InProgressIgnoresCourierActivity | src/main/java/com/greenatom/service/impl/DeliveryServiceImpl.java:61-66 | the result is the same whatever the courier's isActive flag was, and on success so are the delivery and courier tables afterwards |
| DeliveryWorkflow.CourierCanHoldTwoDeliveries | src/main/java/com/greenatom/service/impl/DeliveryServiceImpl.java:53-70 | one courier can take two waiting deliveries in a row, and both are then IN_PROCESS with that courier |
| DeliveryWorkflow.InProgressThenDone | src/main/java/com/greenatom/service/impl/DeliveryServiceImpl.java:53-92 | taking a waiting delivery and then completing it as the same courier succeeds. The courier is active again, the delivery is DONE with end time now, and the order is DELIVERY_FINISHED |
| DeliveryWorkflow.DoneOnlyOnce | src/main/java/com/greenatom/service/impl/DeliveryServiceImpl.java:74-92 | after a successful completion, any further completion of that delivery fails, for any courier at any time, and changes nothing. The same courier gets INVALID_STATUS, so the order is marked DELIVERY_FINISHED only once |
| DeliveryService.ChangeStatusToInProgress | src/main/java/com/greenatom/service/impl/DeliveryServiceImpl.java:53-70 | the method leaves the store and returns exactly what DeliveryWorkflow.ChangeStatusToInProgress gives |
| DeliveryService.ChangeStatusToDone | src/main/java/com/greenatom/service/impl/DeliveryServiceImpl.java:74-92 | the method leaves the store and returns exactly what DeliveryWorkflow.ChangeStatusToDone gives |

## Left out

- Persistence mechanics (`save`, `findById`, `delete` of the repositories) are map reads and writes. Whether a setter on a looked-up entity is flushed depends on transaction and session configuration that is not visible, and the model assumes it is.
- Transaction isolation, locking and concurrent requests are left out. Each call is one sequential atomic step.
- `findAll` and `findByPaginationAndFilters` of both services (pagination and filtering) are left out. They are query plumbing with no rule to state.
- `save` and `updateOrder` are left out. They go through the order mapper, which is not part of this model, so their effect cannot be stated.
- The document of `generateOrder` (`OrderGenerator.processGeneration`) and `convertToPDF` are left out. They are file I/O and rendering. `generateOrder` is modelled as its status change, with document generation assumed to return normally.
- `DateTimeUtils.getTodayDate()` and `Instant.now()` are clocks. They are parameters of the calls.
- DTO mapping of results is left out. `createDraft` returns the new order's id, lookups return the entity.
- The width of ids, amounts and costs is not modelled. The Java class definitions of Product and OrderItemRequest (and so their field widths) are not part of this model: the model gives those fields unbounded integers, and an overflow of `storageAmount - orderAmount` is not modelled. Null request fields (a null item list, a null amount) are left out too.
- The unreachable second courier lookup in `changeStatusToInProgress` (DeliveryServiceImpl.java:62-64) is not modelled. Inside the transaction it finds the courier found at line 54.
- The cascade behaviour of deleting an order that still has order lines or a delivery depends on entity mappings that are not part of this model. `deleteOrder` removes only the order entry.
- Delivery start time is not modelled. The shown code never sets it.
- No modelled operation sets SIGNED_BY_CLIENT. Only `save` and `updateOrder`, which are left out, can store it, through the order mapper. So FinishOrder can only succeed on a store that already holds such an order.
- An order status is modelled as one of the five names. The order service stores the status as a string and compares it by name (OrderServiceImpl.java:107, 139, 180), and `changeStatusToDone` sets the enum constant (DeliveryServiceImpl.java:91). The Order entity's definition is not part of this model. A null status, such as one written by `save`, is not represented. On a null status `generateOrder` would throw a NullPointerException at line 139, while `finishOrder` and `deleteOrder` compare null-safely and throw INVALID_STATUS or CANNOT_DELETE_ORDER.
- A delivery status is likewise one of its three names, and a null status is not represented. Both delivery calls compare it null-safely (DeliveryServiceImpl.java:61, 84), so a null status would throw INVALID_STATUS like any status that does not match. No behaviour is lost.
- The preparing-order assignment (employee to preparation task) is left out. Its service implementation is not part of this model.
