/** What the delivery service does to the store, one function per service call. */
module DeliveryWorkflow {
  import opened Entities

  /** The codes the delivery calls throw. NoSuchCourier is the courier exception's code; a
      missing courier on the delivery or a missing linked order stands for the null
      dereference the call would hit. */
  datatype DeliveryError =
    | NoSuchCourier
    | NoSuchDelivery
    | InvalidStatus
    | Forbidden
    | NullCourier
    | NullOrder

  /** Lookup of a delivery by id. */
  function FindById(db: Db, id: DeliveryId): (r: Result<Delivery, DeliveryError>)
    ensures r.Ok? <==> id in db.deliveries
    ensures r.Ok? ==> r.value == db.deliveries[id]
    ensures r.Err? ==> r.error == NoSuchDelivery
  {
    if id in db.deliveries then Ok(db.deliveries[id]) else Err(NoSuchDelivery)
  }

  /** changeStatusToInProgress: a WAITING_FOR_DELIVERY delivery is taken by the courier, who
      becomes inactive. The courier's current activity is not consulted. */
  function ChangeStatusToInProgress(db: Db, courierId: CourierId, deliveryId: DeliveryId): (o: Outcome<(), DeliveryError>)
    ensures courierId !in db.couriers ==> o == Outcome(db, Err(NoSuchCourier))
    ensures courierId in db.couriers && deliveryId !in db.deliveries ==> o == Outcome(db, Err(NoSuchDelivery))
    ensures courierId in db.couriers && deliveryId in db.deliveries ==>
      (o.res.Ok? <==> db.deliveries[deliveryId].deliveryStatus == WaitingForDelivery)
    ensures courierId in db.couriers && deliveryId in db.deliveries && o.res.Err? ==> o.res.error == InvalidStatus
    ensures o.res.Err? ==> o.db == db
    ensures o.res.Ok? ==>
      && courierId in db.couriers && deliveryId in db.deliveries
      && var d := db.deliveries[deliveryId];
      && o.db.deliveries == db.deliveries[deliveryId := d.(courier := Some(courierId), deliveryStatus := InProcess)]
      && o.db.couriers == db.couriers[courierId := db.couriers[courierId].(isActive := false)]
      && o.db.(deliveries := db.deliveries, couriers := db.couriers) == db
      && DeliveryRank(o.db.deliveries[deliveryId].deliveryStatus) == DeliveryRank(d.deliveryStatus) + 1
    ensures Valid(db) ==> Valid(o.db)
  {
    if courierId !in db.couriers then Outcome(db, Err(NoSuchCourier))
    else if deliveryId !in db.deliveries then Outcome(db, Err(NoSuchDelivery))
    else
      var d := db.deliveries[deliveryId];
      if d.deliveryStatus == WaitingForDelivery then
        var taken := d.(courier := Some(courierId), deliveryStatus := InProcess);
        var busy := db.couriers[courierId].(isActive := false);
        Outcome(db.(deliveries := db.deliveries[deliveryId := taken], couriers := db.couriers[courierId := busy]), Ok(()))
      else Outcome(db, Err(InvalidStatus))
  }

  /** changeStatusToDone: the assigned courier completes an IN_PROCESS delivery; the delivery
      is DONE with its end time set, the courier is active again and the linked order is
      DELIVERY_FINISHED. The courier check comes before the status check. */
  function ChangeStatusToDone(db: Db, courierId: CourierId, deliveryId: DeliveryId, now: Instant): (o: Outcome<(), DeliveryError>)
    ensures courierId !in db.couriers ==> o == Outcome(db, Err(NoSuchCourier))
    ensures courierId in db.couriers && deliveryId !in db.deliveries ==> o == Outcome(db, Err(NoSuchDelivery))
    ensures o.res.Err? ==> o.db == db
    ensures courierId in db.couriers && deliveryId in db.deliveries ==>
      var d := db.deliveries[deliveryId];
      && (d.courier == None ==> o.res == Err(NullCourier))
      && (d.courier.Some? && d.courier.value != courierId ==> o.res == Err(Forbidden))
      && (d.courier == Some(courierId) && d.deliveryStatus != InProcess ==> o.res == Err(InvalidStatus))
      && (d.courier == Some(courierId) && d.deliveryStatus == InProcess && d.order !in db.orders ==>
            o.res == Err(NullOrder))
      && (o.res.Ok? <==> d.courier == Some(courierId) && d.deliveryStatus == InProcess && d.order in db.orders)
    ensures o.res.Ok? ==>
      && courierId in db.couriers && deliveryId in db.deliveries
      && var d := db.deliveries[deliveryId];
      && d.order in db.orders
      && o.db.deliveries == db.deliveries[deliveryId := d.(deliveryStatus := Done, endTime := Some(now))]
      && o.db.couriers == db.couriers[courierId := db.couriers[courierId].(isActive := true)]
      && o.db.orders == db.orders[d.order := db.orders[d.order].(orderStatus := DeliveryFinished)]
      && o.db.(deliveries := db.deliveries, couriers := db.couriers, orders := db.orders) == db
      && DeliveryRank(o.db.deliveries[deliveryId].deliveryStatus) == DeliveryRank(d.deliveryStatus) + 1
    ensures Valid(db) ==> Valid(o.db)
  {
    if courierId !in db.couriers then Outcome(db, Err(NoSuchCourier))
    else if deliveryId !in db.deliveries then Outcome(db, Err(NoSuchDelivery))
    else
      var d := db.deliveries[deliveryId];
      if d.courier.None? then Outcome(db, Err(NullCourier))
      else if d.courier.value != courierId then Outcome(db, Err(Forbidden))
      else if d.deliveryStatus != InProcess then Outcome(db, Err(InvalidStatus))
      else if d.order !in db.orders then Outcome(db, Err(NullOrder))
      else
        var done := d.(deliveryStatus := Done, endTime := Some(now));
        var free := db.couriers[courierId].(isActive := true);
        var delivered := db.orders[d.order].(orderStatus := DeliveryFinished);
        Outcome(db.(deliveries := db.deliveries[deliveryId := done],
                    couriers := db.couriers[courierId := free],
                    orders := db.orders[d.order := delivered]),
                Ok(()))
  }

  /** A delivery taken by one courier cannot be taken again, by that courier or another. */
  lemma InProcessIsNotReassigned(db: Db, first: CourierId, second: CourierId, deliveryId: DeliveryId)
    requires ChangeStatusToInProgress(db, first, deliveryId).res.Ok?
    requires second in db.couriers
    ensures
      var after := ChangeStatusToInProgress(db, first, deliveryId).db;
      && ChangeStatusToInProgress(after, second, deliveryId) == Outcome(after, Err(InvalidStatus))
      && after.deliveries[deliveryId].courier == Some(first)
  {
  }

  /** Whether the call succeeds, and what it leaves in the delivery and courier tables, does not
      depend on the courier's isActive flag. */
  lemma InProgressIgnoresCourierActivity(db: Db, courierId: CourierId, deliveryId: DeliveryId, active: bool)
    requires courierId in db.couriers
    ensures
      var flipped := db.(couriers := db.couriers[courierId := db.couriers[courierId].(isActive := active)]);
      var a := ChangeStatusToInProgress(db, courierId, deliveryId);
      var b := ChangeStatusToInProgress(flipped, courierId, deliveryId);
      && a.res == b.res
      && (a.res.Ok? ==> a.db.deliveries == b.db.deliveries && a.db.couriers == b.db.couriers)
  {
  }

  /** A courier who already holds an IN_PROCESS delivery can be given a second one: nothing keeps
      a courier to one active delivery at a time. */
  lemma CourierCanHoldTwoDeliveries(db: Db, courierId: CourierId, d1: DeliveryId, d2: DeliveryId)
    requires courierId in db.couriers
    requires d1 != d2 && d1 in db.deliveries && d2 in db.deliveries
    requires db.deliveries[d1].deliveryStatus == WaitingForDelivery
    requires db.deliveries[d2].deliveryStatus == WaitingForDelivery
    ensures
      var one := ChangeStatusToInProgress(db, courierId, d1);
      var two := ChangeStatusToInProgress(one.db, courierId, d2);
      && one.res.Ok? && two.res.Ok?
      && two.db.deliveries[d1].deliveryStatus == InProcess && two.db.deliveries[d1].courier == Some(courierId)
      && two.db.deliveries[d2].deliveryStatus == InProcess && two.db.deliveries[d2].courier == Some(courierId)
      && !two.db.couriers[courierId].isActive
  {
  }

  /** Taking a waiting delivery and then completing it as the same courier succeeds: the courier
      is active again, the delivery is DONE at `now` and its order is DELIVERY_FINISHED. */
  lemma InProgressThenDone(db: Db, courierId: CourierId, deliveryId: DeliveryId, now: Instant)
    requires courierId in db.couriers && deliveryId in db.deliveries
    requires db.deliveries[deliveryId].deliveryStatus == WaitingForDelivery
    requires db.deliveries[deliveryId].order in db.orders
    ensures
      var taken := ChangeStatusToInProgress(db, courierId, deliveryId);
      var done := ChangeStatusToDone(taken.db, courierId, deliveryId, now);
      var orderId := db.deliveries[deliveryId].order;
      && taken.res.Ok? && done.res.Ok?
      && done.db.couriers[courierId].isActive
      && done.db.deliveries[deliveryId].deliveryStatus == Done
      && done.db.deliveries[deliveryId].endTime == Some(now)
      && done.db.orders[orderId].orderStatus == DeliveryFinished
  {
  }

  /** A completed delivery cannot be completed again, by any courier at any time, so its order is
      marked DELIVERY_FINISHED by one call only. */
  lemma DoneOnlyOnce(db: Db, courierId: CourierId, deliveryId: DeliveryId, now: Instant, other: CourierId, later: Instant)
    requires ChangeStatusToDone(db, courierId, deliveryId, now).res.Ok?
    ensures
      var after := ChangeStatusToDone(db, courierId, deliveryId, now).db;
      var again := ChangeStatusToDone(after, other, deliveryId, later);
      && again.res.Err?
      && again.db == after
      && (other == courierId ==> again.res == Err(InvalidStatus))
  {
  }
}
