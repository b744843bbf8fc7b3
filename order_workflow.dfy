/** What the order service does to the store, one function per service call.
    Each function returns the store afterwards and the call's result or the
    error code it throws. */
module OrderWorkflow {
  import opened Entities

  /** The codes of the order service's exception. */
  datatype OrderError =
    | NoSuchOrder
    | NoSuchClient
    | NoSuchEmployee
    | NoSuchProduct
    | InvalidOrder
    | InvalidStatus
    | CannotAssignOrder
    | CannotDeleteOrder

  /** The folder reference every new order gets. */
  const LinkToFolderSample: string := "LINK_TO_FOLDER_SAMPLE"

  /** Lookup of an order by id. */
  function FindOne(db: Db, id: OrderId): (r: Result<Order, OrderError>)
    ensures r.Ok? <==> id in db.orders
    ensures r.Ok? ==> r.value == db.orders[id]
    ensures r.Err? ==> r.error == NoSuchOrder
  {
    if id in db.orders then Ok(db.orders[id]) else Err(NoSuchOrder)
  }

  /** Saves a new DRAFT order for an existing client and employee. */
  function CreateDraftOrder(db: Db, req: OrderRequest, today: Date): (o: Outcome<OrderId, OrderError>)
    ensures req.clientId !in db.clients ==> o == Outcome(db, Err(NoSuchClient))
    ensures req.clientId in db.clients && req.employeeId !in db.employees ==> o == Outcome(db, Err(NoSuchEmployee))
    ensures o.res.Ok? <==> req.clientId in db.clients && req.employeeId in db.employees
    ensures o.res.Ok? ==>
      var id := o.res.value;
      && id == db.nextOrderId
      && id in o.db.orders
      && o.db.orders[id].orderStatus == Draft
      && o.db.orders[id].client == req.clientId
      && o.db.orders[id].employee == req.employeeId
      && o.db.orders[id].orderDate == today
      && o.db.orders[id].linkToFolder == LinkToFolderSample
      && (Valid(db) ==> id !in db.orders)
      && o.db.orders - {id} == db.orders - {id}
      && o.db.nextOrderId > id
      && o.db.(orders := db.orders, nextOrderId := db.nextOrderId) == db
    ensures Valid(db) ==> Valid(o.db)
  {
    if req.clientId !in db.clients then Outcome(db, Err(NoSuchClient))
    else if req.employeeId !in db.employees then Outcome(db, Err(NoSuchEmployee))
    else
      var id := db.nextOrderId;
      var order := Order(req.clientId, req.employeeId, today, Draft, LinkToFolderSample);
      Outcome(db.(orders := db.orders[id := order], nextOrderId := id + 1), Ok(id))
  }

  /** The order line recorded for `amount` units of product `pid` (whose state is `p`). */
  function ItemRecord(pid: ProductId, p: Product, amount: int, orderId: OrderId): OrderItem {
    OrderItem(pid, amount, p.cost, p.unit, p.productName, orderId)
  }

  /** One pass of the reservation loop: look the product up, reserve stock, record the line. */
  function ReserveItem(db: Db, orderId: OrderId, item: OrderItemRequest): (o: Outcome<(), OrderError>)
    ensures item.productId !in db.products ==> o == Outcome(db, Err(NoSuchProduct))
    ensures item.productId in db.products ==>
      (o.res.Ok? <==> db.products[item.productId].storageAmount > item.orderAmount)
    ensures item.productId in db.products && o.res.Err? ==> o.res.error == InvalidOrder
    ensures o.res.Err? ==> o.db == db
    ensures o.res.Ok? ==>
      var pid := item.productId;
      && pid in db.products
      && var p := db.products[pid];
      && o.db.products == db.products[pid := p.(storageAmount := p.storageAmount - item.orderAmount)]
      && o.db.products[pid].storageAmount >= 1
      && o.db.orderItems == db.orderItems + [ItemRecord(pid, p, item.orderAmount, orderId)]
      && o.db.(products := db.products, orderItems := db.orderItems) == db
    ensures Valid(db) ==> Valid(o.db)
  {
    var pid := item.productId;
    if pid !in db.products then Outcome(db, Err(NoSuchProduct))
    else
      var p := db.products[pid];
      if p.storageAmount > item.orderAmount then
        var reserved := p.(storageAmount := p.storageAmount - item.orderAmount);
        Outcome(db.(products := db.products[pid := reserved],
                    orderItems := db.orderItems + [ItemRecord(pid, p, item.orderAmount, orderId)]),
                Ok(()))
      else Outcome(db, Err(InvalidOrder))
  }

  /** The products an item list names. */
  function ProductIds(items: seq<OrderItemRequest>): set<ProductId> {
    if items == [] then {} else {items[0].productId} + ProductIds(items[1..])
  }

  /** The total amount an item list requests of product `pid`. */
  function AmountFor(items: seq<OrderItemRequest>, pid: ProductId): int {
    if items == [] then 0
    else (if items[0].productId == pid then items[0].orderAmount else 0) + AmountFor(items[1..], pid)
  }

  /** Same products, and each keeps its name, cost and unit (only stock may differ). */
  predicate SameCatalog(a: map<ProductId, Product>, b: map<ProductId, Product>) {
    && a.Keys == b.Keys
    && forall p :: p in a ==>
         a[p].productName == b[p].productName && a[p].cost == b[p].cost && a[p].unit == b[p].unit
  }

  /** The reservation loop: items in list order, stopping at the first one that fails.
      The work of the items before the failing one is kept. */
  function ReserveItems(db: Db, orderId: OrderId, items: seq<OrderItemRequest>): (o: Outcome<(), OrderError>)
    decreases |items|
    ensures o.res.Err? ==> o.res.error == NoSuchProduct || o.res.error == InvalidOrder
  {
    if items == [] then Outcome(db, Ok(()))
    else
      var first := ReserveItem(db, orderId, items[0]);
      if first.res.Err? then first else ReserveItems(first.db, orderId, items[1..])
  }

  /** The loop changes only products and order lines, whatever the outcome: every product keeps
      its name, cost and unit, products the list does not name keep their stock, earlier order
      lines stay, and the store invariant is kept. */
  lemma {:induction false} ReserveItemsFrame(db: Db, orderId: OrderId, items: seq<OrderItemRequest>)
    decreases |items|
    ensures
      var o := ReserveItems(db, orderId, items);
      && o.db.(products := db.products, orderItems := db.orderItems) == db
      && SameCatalog(db.products, o.db.products)
      && (forall p :: p in db.products && p !in ProductIds(items) ==> o.db.products[p] == db.products[p])
      && |db.orderItems| <= |o.db.orderItems|
      && o.db.orderItems[..|db.orderItems|] == db.orderItems
      && (Valid(db) ==> Valid(o.db))
  {
    if items != [] {
      var first := ReserveItem(db, orderId, items[0]);
      if first.res.Ok? {
        ReserveItemsFrame(first.db, orderId, items[1..]);
        var o := ReserveItems(first.db, orderId, items[1..]);
        assert o.db.orderItems[..|first.db.orderItems|] == first.db.orderItems;
        assert o.db.orderItems[..|db.orderItems|] == first.db.orderItems[..|db.orderItems|];
      }
    }
  }

  /** Running the loop over `a + b` is running it over `a`, then, if that succeeded, over `b`. */
  lemma {:induction false} ReserveItemsSplit(db: Db, orderId: OrderId, a: seq<OrderItemRequest>, b: seq<OrderItemRequest>)
    decreases |a|
    ensures ReserveItems(db, orderId, a + b) ==
      (var o := ReserveItems(db, orderId, a);
       if o.res.Err? then o else ReserveItems(o.db, orderId, b))
  {
    if a == [] {
      assert a + b == b;
    } else {
      assert (a + b)[0] == a[0];
      assert (a + b)[1..] == a[1..] + b;
      var first := ReserveItem(db, orderId, a[0]);
      if first.res.Ok? {
        ReserveItemsSplit(first.db, orderId, a[1..], b);
      }
    }
  }

  /** When items 0..k-1 succeed and item k fails, the call fails with item k's error and the
      store is the one left by items 0..k-1: no item after k is looked at. */
  lemma {:induction false} ReserveItemsStopsAtFirstFailure(db: Db, orderId: OrderId, items: seq<OrderItemRequest>, k: nat)
    requires k < |items|
    requires ReserveItems(db, orderId, items[..k]).res.Ok?
    requires ReserveItem(ReserveItems(db, orderId, items[..k]).db, orderId, items[k]).res.Err?
    ensures
      var before := ReserveItems(db, orderId, items[..k]).db;
      ReserveItems(db, orderId, items) == Outcome(before, ReserveItem(before, orderId, items[k]).res)
  {
    assert items == items[..k] + items[k..];
    ReserveItemsSplit(db, orderId, items[..k], items[k..]);
    assert items[k..][0] == items[k];
  }

  /** A failing call has a first failing item k; items 0..k-1 went through, and the store is
      exactly what they left. */
  lemma {:induction false} ReserveItemsFailureIndex(db: Db, orderId: OrderId, items: seq<OrderItemRequest>) returns (k: nat)
    requires ReserveItems(db, orderId, items).res.Err?
    decreases |items|
    ensures k < |items|
    ensures ReserveItems(db, orderId, items[..k]).res.Ok?
    ensures
      var before := ReserveItems(db, orderId, items[..k]).db;
      var step := ReserveItem(before, orderId, items[k]);
      step.res.Err? && ReserveItems(db, orderId, items) == Outcome(before, step.res)
  {
    var first := ReserveItem(db, orderId, items[0]);
    if first.res.Err? {
      k := 0;
      assert items[..0] == [];
    } else {
      var j := ReserveItemsFailureIndex(first.db, orderId, items[1..]);
      k := j + 1;
      assert items[..k][0] == items[0];
      assert items[..k][1..] == items[1..][..j];
      assert items[1..][j] == items[k];
    }
  }

  /** A successful loop found every product it names. */
  lemma {:induction false} ReserveItemsFoundEveryProduct(db: Db, orderId: OrderId, items: seq<OrderItemRequest>)
    requires ReserveItems(db, orderId, items).res.Ok?
    decreases |items|
    ensures forall i :: 0 <= i < |items| ==> items[i].productId in db.products
  {
    if items != [] {
      var first := ReserveItem(db, orderId, items[0]);
      var rest := items[1..];
      ReserveItemsFoundEveryProduct(first.db, orderId, rest);
      forall i | 0 <= i < |items| ensures items[i].productId in db.products {
        if i > 0 { assert items[i] == rest[i - 1]; }
      }
    }
  }

  /** A successful loop lowers each product's stock by exactly the total amount requested of it. */
  lemma {:induction false} ReserveItemsStock(db: Db, orderId: OrderId, items: seq<OrderItemRequest>)
    requires ReserveItems(db, orderId, items).res.Ok?
    decreases |items|
    ensures
      var after := ReserveItems(db, orderId, items).db;
      forall p :: p in db.products ==>
        p in after.products &&
        after.products[p].storageAmount == db.products[p].storageAmount - AmountFor(items, p)
  {
    if items != [] {
      var first := ReserveItem(db, orderId, items[0]);
      ReserveItemsStock(first.db, orderId, items[1..]);
    }
  }

  /** After a successful loop every product it names keeps at least one unit in stock. */
  lemma {:induction false} ReserveItemsLeavesStock(db: Db, orderId: OrderId, items: seq<OrderItemRequest>)
    requires ReserveItems(db, orderId, items).res.Ok?
    decreases |items|
    ensures
      var after := ReserveItems(db, orderId, items).db;
      forall p :: p in ProductIds(items) ==> p in after.products && after.products[p].storageAmount >= 1
  {
    if items != [] {
      var first := ReserveItem(db, orderId, items[0]);
      var rest := items[1..];
      ReserveItemsLeavesStock(first.db, orderId, rest);
      ReserveItemsFrame(first.db, orderId, rest);
      var after := ReserveItems(first.db, orderId, rest).db;
      forall p | p in ProductIds(items)
        ensures p in after.products && after.products[p].storageAmount >= 1
      {
        if p !in ProductIds(rest) {
          assert p == items[0].productId;
        }
      }
    }
  }

  /** A successful loop appends one line per item, in list order, copying the product's cost,
      unit and name, the requested amount and the order id. */
  lemma {:induction false} ReserveItemsRecords(db: Db, orderId: OrderId, items: seq<OrderItemRequest>)
    requires ReserveItems(db, orderId, items).res.Ok?
    requires forall i :: 0 <= i < |items| ==> items[i].productId in db.products
    decreases |items|
    ensures
      var after := ReserveItems(db, orderId, items).db;
      && |after.orderItems| == |db.orderItems| + |items|
      && (forall i :: 0 <= i < |items| ==>
            after.orderItems[|db.orderItems| + i] ==
            ItemRecord(items[i].productId, db.products[items[i].productId], items[i].orderAmount, orderId))
  {
    if items != [] {
      var first := ReserveItem(db, orderId, items[0]);
      var rest := items[1..];
      assert forall i :: 0 <= i < |rest| ==> rest[i] == items[i + 1];
      ReserveItemsRecords(first.db, orderId, rest);
      ReserveItemsFrame(first.db, orderId, rest);
      var after := ReserveItems(first.db, orderId, rest).db;
      forall i | 0 <= i < |items|
        ensures after.orderItems[|db.orderItems| + i] ==
                ItemRecord(items[i].productId, db.products[items[i].productId], items[i].orderAmount, orderId)
      {
        if i == 0 {
          assert after.orderItems[..|first.db.orderItems|] == first.db.orderItems;
          assert after.orderItems[|db.orderItems|] == first.db.orderItems[|db.orderItems|];
        } else {
          assert items[i] == rest[i - 1];
          assert |db.orderItems| + i == |first.db.orderItems| + (i - 1);
        }
      }
    }
  }

  /** A successful loop: every named product existed, each product's stock fell by exactly the
      total amount requested of it and every named product keeps at least 1 unit; one line per
      item was appended, in list order. */
  lemma ReserveItemsSucceeds(db: Db, orderId: OrderId, items: seq<OrderItemRequest>)
    requires ReserveItems(db, orderId, items).res.Ok?
    ensures forall i :: 0 <= i < |items| ==> items[i].productId in db.products
    ensures
      var after := ReserveItems(db, orderId, items).db;
      && after.products.Keys == db.products.Keys
      && (forall p :: p in db.products ==>
            after.products[p].storageAmount == db.products[p].storageAmount - AmountFor(items, p))
      && (forall p :: p in ProductIds(items) ==> p in after.products && after.products[p].storageAmount >= 1)
      && |after.orderItems| == |db.orderItems| + |items|
      && (forall i :: 0 <= i < |items| ==>
            after.orderItems[|db.orderItems| + i] ==
            ItemRecord(items[i].productId, db.products[items[i].productId], items[i].orderAmount, orderId))
  {
    ReserveItemsFrame(db, orderId, items);
    ReserveItemsFoundEveryProduct(db, orderId, items);
    ReserveItemsStock(db, orderId, items);
    ReserveItemsLeavesStock(db, orderId, items);
    ReserveItemsRecords(db, orderId, items);
  }

  /** createDraft: save the draft order, then run the reservation loop over the request's items.
      Nothing is rolled back when an item fails: the draft order and the reservations of the
      earlier items stay in the store. */
  function CreateDraft(db: Db, req: OrderRequest, today: Date): (o: Outcome<OrderId, OrderError>)
    ensures req.clientId !in db.clients ==> o == Outcome(db, Err(NoSuchClient))
    ensures req.clientId in db.clients && req.employeeId !in db.employees ==> o == Outcome(db, Err(NoSuchEmployee))
    ensures req.clientId in db.clients && req.employeeId in db.employees ==>
      var id := db.nextOrderId;
      && id in o.db.orders
      && o.db.orders[id] == Order(req.clientId, req.employeeId, today, Draft, LinkToFolderSample)
      && o.db.orders - {id} == db.orders - {id}
      && (o.res.Ok? ==> o.res.value == id)
      && (o.res.Err? ==> o.res.error == NoSuchProduct || o.res.error == InvalidOrder)
      && SameCatalog(db.products, o.db.products)
      && (forall p :: p in db.products && p !in ProductIds(req.orderItemList) ==> o.db.products[p] == db.products[p])
      && |db.orderItems| <= |o.db.orderItems|
      && o.db.orderItems[..|db.orderItems|] == db.orderItems
      && o.db.(products := db.products, orderItems := db.orderItems, orders := db.orders, nextOrderId := db.nextOrderId) == db
    ensures Valid(db) ==> Valid(o.db)
  {
    var draft := CreateDraftOrder(db, req, today);
    if draft.res.Err? then draft
    else
      var reserved := ReserveItems(draft.db, draft.res.value, req.orderItemList);
      ReserveItemsFrame(draft.db, draft.res.value, req.orderItemList);
      Outcome(reserved.db, if reserved.res.Ok? then draft.res else Err(reserved.res.error))
  }

  /** A successful createDraft reserved every item: stock of each product fell by its total
      requested amount and stays at least 1 where named, and the order's lines were recorded. */
  lemma CreateDraftSucceeds(db: Db, req: OrderRequest, today: Date)
    requires CreateDraft(db, req, today).res.Ok?
    ensures req.clientId in db.clients && req.employeeId in db.employees
    ensures
      var o := CreateDraft(db, req, today);
      var id := o.res.value;
      var items := req.orderItemList;
      && id == db.nextOrderId
      && o.db.orders[id].orderStatus == Draft
      && (forall i :: 0 <= i < |items| ==> items[i].productId in db.products)
      && o.db.products.Keys == db.products.Keys
      && (forall p :: p in db.products ==>
            o.db.products[p].storageAmount == db.products[p].storageAmount - AmountFor(items, p))
      && (forall p :: p in ProductIds(items) ==> p in o.db.products && o.db.products[p].storageAmount >= 1)
      && |o.db.orderItems| == |db.orderItems| + |items|
      && (forall i :: 0 <= i < |items| ==>
            o.db.orderItems[|db.orderItems| + i] ==
            ItemRecord(items[i].productId, db.products[items[i].productId], items[i].orderAmount, id))
  {
    var draft := CreateDraftOrder(db, req, today);
    var reserved := ReserveItems(draft.db, draft.res.value, req.orderItemList);
    assert CreateDraft(db, req, today) == Outcome(reserved.db, draft.res);
    assert draft.db.products == db.products && draft.db.orderItems == db.orderItems;
    assert draft.res.value == db.nextOrderId;
    ReserveItemsSucceeds(draft.db, draft.res.value, req.orderItemList);
  }

  /** A createDraft that fails on an item still leaves the draft order saved, the items before
      the failing one reserved, and the failing item and all after it untouched. */
  lemma CreateDraftKeepsPartialWork(db: Db, req: OrderRequest, today: Date) returns (k: nat)
    requires req.clientId in db.clients && req.employeeId in db.employees
    requires CreateDraft(db, req, today).res.Err?
    ensures k < |req.orderItemList|
    ensures
      var o := CreateDraft(db, req, today);
      var items := req.orderItemList;
      var draft := CreateDraftOrder(db, req, today).db;
      var before := ReserveItems(draft, db.nextOrderId, items[..k]);
      && db.nextOrderId in o.db.orders
      && o.db.orders[db.nextOrderId].orderStatus == Draft
      && before.res.Ok?
      && o.db == before.db
      && ReserveItem(before.db, db.nextOrderId, items[k]).res == Err(o.res.error)
  {
    var draft := CreateDraftOrder(db, req, today);
    k := ReserveItemsFailureIndex(draft.db, draft.res.value, req.orderItemList);
  }

  /** finishOrder: SIGNED_BY_CLIENT -> FINISHED. */
  function FinishOrder(db: Db, id: OrderId): (o: Outcome<(), OrderError>)
    ensures id !in db.orders ==> o == Outcome(db, Err(NoSuchOrder))
    ensures id in db.orders ==> (o.res.Ok? <==> db.orders[id].orderStatus == SignedByClient)
    ensures id in db.orders && o.res.Err? ==> o.res.error == InvalidStatus
    ensures o.res.Err? ==> o.db == db
    ensures o.res.Ok? ==>
      && id in db.orders
      && o.db == db.(orders := db.orders[id := db.orders[id].(orderStatus := Finished)])
      && OrderRank(o.db.orders[id].orderStatus) == OrderRank(db.orders[id].orderStatus) + 1
    ensures Valid(db) ==> Valid(o.db)
  {
    if id !in db.orders then Outcome(db, Err(NoSuchOrder))
    else if db.orders[id].orderStatus == SignedByClient then
      Outcome(db.(orders := db.orders[id := db.orders[id].(orderStatus := Finished)]), Ok(()))
    else Outcome(db, Err(InvalidStatus))
  }

  /** generateOrder, status part: DRAFT -> SIGNED_BY_EMPLOYEE (the document is produced
      outside the model). */
  function GenerateOrder(db: Db, id: OrderId): (o: Outcome<(), OrderError>)
    ensures id !in db.orders ==> o == Outcome(db, Err(NoSuchOrder))
    ensures id in db.orders ==> (o.res.Ok? <==> db.orders[id].orderStatus == Draft)
    ensures id in db.orders && o.res.Err? ==> o.res.error == CannotAssignOrder
    ensures o.res.Err? ==> o.db == db
    ensures o.res.Ok? ==>
      && id in db.orders
      && o.db == db.(orders := db.orders[id := db.orders[id].(orderStatus := SignedByEmployee)])
      && OrderRank(o.db.orders[id].orderStatus) == OrderRank(db.orders[id].orderStatus) + 1
    ensures Valid(db) ==> Valid(o.db)
  {
    if id !in db.orders then Outcome(db, Err(NoSuchOrder))
    else if db.orders[id].orderStatus == Draft then
      Outcome(db.(orders := db.orders[id := db.orders[id].(orderStatus := SignedByEmployee)]), Ok(()))
    else Outcome(db, Err(CannotAssignOrder))
  }

  /** deleteOrder: removes a DRAFT order; stock reserved for it is not given back. */
  function DeleteOrder(db: Db, id: OrderId): (o: Outcome<(), OrderError>)
    ensures id !in db.orders ==> o == Outcome(db, Err(NoSuchOrder))
    ensures id in db.orders ==> (o.res.Ok? <==> db.orders[id].orderStatus == Draft)
    ensures id in db.orders && o.res.Err? ==> o.res.error == CannotDeleteOrder
    ensures o.res.Err? ==> o.db == db
    ensures o.res.Ok? ==> id !in o.db.orders && o.db == db.(orders := db.orders - {id})
    ensures o.db.products == db.products && o.db.orderItems == db.orderItems
    ensures Valid(db) ==> Valid(o.db)
  {
    if id !in db.orders then Outcome(db, Err(NoSuchOrder))
    else if db.orders[id].orderStatus == Draft then
      Outcome(db.(orders := db.orders - {id}), Ok(()))
    else Outcome(db, Err(CannotDeleteOrder))
  }

  /** Requesting exactly the whole stock of a product is refused (the check is strict), yet the
      draft order has already been saved. */
  lemma WholeStockIsRefused(db: Db, req: OrderRequest, today: Date, pid: ProductId)
    requires req.clientId in db.clients && req.employeeId in db.employees
    requires pid in db.products
    requires req.orderItemList == [OrderItemRequest(pid, db.products[pid].storageAmount)]
    ensures
      var o := CreateDraft(db, req, today);
      && o.res == Err(InvalidOrder)
      && o.db.products == db.products
      && o.db.orders[db.nextOrderId].orderStatus == Draft
  {
    var draft := CreateDraftOrder(db, req, today);
    assert req.orderItemList[1..] == [];
  }

  /** Once generated, an order can be neither finished (it is not signed by the client) nor
      deleted by this service. */
  lemma GeneratedOrderIsNotFinishedOrDeleted(db: Db, id: OrderId)
    requires GenerateOrder(db, id).res.Ok?
    ensures
      var after := GenerateOrder(db, id).db;
      && FinishOrder(after, id) == Outcome(after, Err(InvalidStatus))
      && DeleteOrder(after, id) == Outcome(after, Err(CannotDeleteOrder))
      && GenerateOrder(after, id) == Outcome(after, Err(CannotAssignOrder))
  {
  }

  /** A deleted draft is gone for every later call on its id. */
  lemma DeletedOrderIsGone(db: Db, id: OrderId)
    requires DeleteOrder(db, id).res.Ok?
    ensures
      var after := DeleteOrder(db, id).db;
      && FindOne(after, id) == Err(NoSuchOrder)
      && DeleteOrder(after, id) == Outcome(after, Err(NoSuchOrder))
      && FinishOrder(after, id) == Outcome(after, Err(NoSuchOrder))
      && GenerateOrder(after, id) == Outcome(after, Err(NoSuchOrder))
  {
  }
}
