/** The order service's state-changing calls, run step by step on the store and proved to do
    what the functions of OrderWorkflow say. */
module OrderService {
  import opened Entities
  import opened Persistence
  import W = OrderWorkflow

  /** Looks the client up, then the employee, then saves a new DRAFT order. */
  method CreateDraftOrder(db: Store, req: OrderRequest, today: Date) returns (r: Result<OrderId, W.OrderError>)
    modifies db
    ensures Outcome(db.Snapshot(), r) == W.CreateDraftOrder(old(db.Snapshot()), req, today)
  {
    if req.clientId !in db.clients {
      return Err(W.NoSuchClient);
    }
    if req.employeeId !in db.employees {
      return Err(W.NoSuchEmployee);
    }
    var order := Order(req.clientId, req.employeeId, today, Draft, W.LinkToFolderSample);
    var id := db.nextOrderId;
    db.orders := db.orders[id := order];
    db.nextOrderId := id + 1;
    r := Ok(id);
  }

  /** One pass of the item loop: looks the product up, lowers its stock by the requested
      amount when more than that is stored, and records the order line. */
  method ReserveItem(db: Store, orderId: OrderId, item: OrderItemRequest) returns (r: Result<(), W.OrderError>)
    modifies db
    ensures Outcome(db.Snapshot(), r) == W.ReserveItem(old(db.Snapshot()), orderId, item)
  {
    if item.productId !in db.products {
      return Err(W.NoSuchProduct);
    }
    var product := db.products[item.productId];
    if product.storageAmount > item.orderAmount {
      db.products := db.products[item.productId := product.(storageAmount := product.storageAmount - item.orderAmount)];
      db.orderItems := db.orderItems + [OrderItem(item.productId, item.orderAmount, product.cost, product.unit, product.productName, orderId)];
      r := Ok(());
    } else {
      r := Err(W.InvalidOrder);
    }
  }

  /** Saves the draft order, then walks the item list in order; the first unknown product or
      short stock ends the call with that error, keeping what was done before it. */
  method CreateDraft(db: Store, req: OrderRequest, today: Date) returns (r: Result<OrderId, W.OrderError>)
    modifies db
    ensures Outcome(db.Snapshot(), r) == W.CreateDraft(old(db.Snapshot()), req, today)
  {
    var items := req.orderItemList;
    var saved := CreateDraftOrder(db, req, today);
    if saved.Err? {
      return saved;
    }
    var orderId := saved.value;
    ghost var whole := W.ReserveItems(db.Snapshot(), orderId, items);
    var i := 0;
    assert items[i..] == items;
    while i < |items|
      invariant 0 <= i <= |items|
      invariant whole == W.ReserveItems(db.Snapshot(), orderId, items[i..])
    {
      assert items[i..][0] == items[i] && items[i..][1..] == items[i + 1..];
      var reserved := ReserveItem(db, orderId, items[i]);
      if reserved.Err? {
        return Err(reserved.error);
      }
      i := i + 1;
    }
    assert items[i..] == [];
    r := Ok(orderId);
  }

  /** SIGNED_BY_CLIENT -> FINISHED. */
  method FinishOrder(db: Store, id: OrderId) returns (r: Result<(), W.OrderError>)
    modifies db
    ensures Outcome(db.Snapshot(), r) == W.FinishOrder(old(db.Snapshot()), id)
  {
    if id !in db.orders {
      return Err(W.NoSuchOrder);
    }
    var order := db.orders[id];
    if order.orderStatus == SignedByClient {
      db.orders := db.orders[id := order.(orderStatus := Finished)];
      r := Ok(());
    } else {
      r := Err(W.InvalidStatus);
    }
  }

  /** DRAFT -> SIGNED_BY_EMPLOYEE, once the order document has been produced. */
  method GenerateOrder(db: Store, id: OrderId) returns (r: Result<(), W.OrderError>)
    modifies db
    ensures Outcome(db.Snapshot(), r) == W.GenerateOrder(old(db.Snapshot()), id)
  {
    if id !in db.orders {
      return Err(W.NoSuchOrder);
    }
    var order := db.orders[id];
    if order.orderStatus == Draft {
      db.orders := db.orders[id := order.(orderStatus := SignedByEmployee)];
      r := Ok(());
    } else {
      r := Err(W.CannotAssignOrder);
    }
  }

  /** Removes a DRAFT order from the order table. */
  method DeleteOrder(db: Store, id: OrderId) returns (r: Result<(), W.OrderError>)
    modifies db
    ensures Outcome(db.Snapshot(), r) == W.DeleteOrder(old(db.Snapshot()), id)
  {
    if id !in db.orders {
      return Err(W.NoSuchOrder);
    }
    if db.orders[id].orderStatus == Draft {
      db.orders := db.orders - {id};
      r := Ok(());
    } else {
      r := Err(W.CannotDeleteOrder);
    }
  }
}
