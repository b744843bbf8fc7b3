/** The delivery service's state-changing calls, run step by step on the store and proved to
    do what the functions of DeliveryWorkflow say. Each call is one transaction: a call that
    throws leaves the store as it was. */
module DeliveryService {
  import opened Entities
  import opened Persistence
  import W = DeliveryWorkflow

  /** Looks the courier up, then the delivery; a waiting delivery is given to the courier, who
      is marked inactive. */
  method ChangeStatusToInProgress(db: Store, courierId: CourierId, deliveryId: DeliveryId) returns (r: Result<(), W.DeliveryError>)
    modifies db
    ensures Outcome(db.Snapshot(), r) == W.ChangeStatusToInProgress(old(db.Snapshot()), courierId, deliveryId)
  {
    if courierId !in db.couriers {
      return Err(W.NoSuchCourier);
    }
    var courier := db.couriers[courierId];
    if deliveryId !in db.deliveries {
      return Err(W.NoSuchDelivery);
    }
    var delivery := db.deliveries[deliveryId];
    if delivery.deliveryStatus == WaitingForDelivery {
      // The second lookup of the courier finds the one found above.
      delivery := delivery.(courier := Some(courierId));
      delivery := delivery.(deliveryStatus := InProcess);
      db.deliveries := db.deliveries[deliveryId := delivery];
      db.couriers := db.couriers[courierId := courier.(isActive := false)];
      r := Ok(());
    } else {
      r := Err(W.InvalidStatus);
    }
  }

  /** Looks the courier up, then the delivery; only the assigned courier may complete it, and
      only while it is IN_PROCESS. */
  method ChangeStatusToDone(db: Store, courierId: CourierId, deliveryId: DeliveryId, now: Instant) returns (r: Result<(), W.DeliveryError>)
    modifies db
    ensures Outcome(db.Snapshot(), r) == W.ChangeStatusToDone(old(db.Snapshot()), courierId, deliveryId, now)
  {
    if courierId !in db.couriers {
      return Err(W.NoSuchCourier);
    }
    var courier := db.couriers[courierId];
    if deliveryId !in db.deliveries {
      return Err(W.NoSuchDelivery);
    }
    var delivery := db.deliveries[deliveryId];
    if delivery.courier.None? {
      return Err(W.NullCourier);
    }
    if delivery.courier.value != courierId {
      return Err(W.Forbidden);
    }
    if delivery.deliveryStatus != InProcess {
      return Err(W.InvalidStatus);
    }
    if delivery.order !in db.orders {
      // The order reference is dereferenced last; the transaction is rolled back.
      return Err(W.NullOrder);
    }
    var order := db.orders[delivery.order];
    db.deliveries := db.deliveries[deliveryId := delivery.(deliveryStatus := Done, endTime := Some(now))];
    db.couriers := db.couriers[courierId := courier.(isActive := true)];
    db.orders := db.orders[delivery.order := order.(orderStatus := DeliveryFinished)];
    r := Ok(());
  }
}
