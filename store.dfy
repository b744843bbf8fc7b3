/** The data store the services work on: one table per repository. Looking an entity up and
    changing it through its setters is reading and replacing its entry here. */
module Persistence {
  import opened Entities

  class Store {
    var clients: set<ClientId>
    var employees: set<EmployeeId>
    var products: map<ProductId, Product>
    var orders: map<OrderId, Order>
    var orderItems: seq<OrderItem>
    var nextOrderId: OrderId
    var couriers: map<CourierId, Courier>
    var deliveries: map<DeliveryId, Delivery>

    constructor (init: Db)
      ensures Snapshot() == init
    {
      clients, employees := init.clients, init.employees;
      products, orders, orderItems := init.products, init.orders, init.orderItems;
      nextOrderId := init.nextOrderId;
      couriers, deliveries := init.couriers, init.deliveries;
    }

    /** The current contents of every table. */
    function Snapshot(): Db
      reads this
    {
      Db(clients, employees, products, orders, orderItems, nextOrderId, couriers, deliveries)
    }
  }
}
