/**
 * The decision logic of the order endpoints: the duplicate-name check and the
 * three-order cap on creation, the stricter validation on update, payment
 * branching on purchase, and the empty-history answer.
 */
module OrderController {
  import opened Wrappers
  import opened Items
  import opened Http
  import opened Stores
  import opened OrderDtos
  import Service = OrderService

  /** The most orders the store may hold before creation is refused. */
  const MAX_ORDERS := 3

  /** POST: a duplicate name is a conflict, checked before the cap; a full store is
      refused; otherwise the service creates the order or rejects its items. */
  method CreateOrder(repo: OrderRepository, name: string, items: Option<seq<Item>>, status: Status)
    returns (r: Response<Order>)
    requires repo.Valid()
    modifies repo
    ensures repo.Valid()
    ensures Service.IsDuplicateName(old(repo.orders), name) ==>
              r == Respond(CONFLICT, None) && repo.orders == old(repo.orders)
    ensures !Service.IsDuplicateName(old(repo.orders), name) && |old(repo.orders)| >= MAX_ORDERS ==>
              r == Respond(INSUFFICIENT_STORAGE, None) && repo.orders == old(repo.orders)
    ensures !Service.IsDuplicateName(old(repo.orders), name) && |old(repo.orders)| < MAX_ORDERS ==>
              if items.Some? && Service.ValidItems(items.value)
              then r == Respond(CREATED, Some(Order(old(repo.nextId), name, items.value, status))) &&
                   repo.orders == old(repo.orders) + [r.body.value]
              else r == Respond(BAD_REQUEST, None) && repo.orders == old(repo.orders)
    ensures |old(repo.orders)| <= MAX_ORDERS ==> |repo.orders| <= MAX_ORDERS
  {
    if Service.IsDuplicateName(repo.orders, name) {
      return Respond(CONFLICT, None);
    }
    if |repo.orders| >= MAX_ORDERS {
      return Respond(INSUFFICIENT_STORAGE, None);
    }
    var created := Service.CreateOrder(repo, name, items, status);
    if created.Failure? {
      return Respond(BAD_REQUEST, None);
    }
    return Respond(CREATED, Some(created.value));
  }

  /** PUT: an empty item list or a non-positive amount is a conflict and the service is
      not called; otherwise the service replaces the order, or does not find it. */
  method UpdateOrder(repo: OrderRepository, id: int, name: string, items: seq<Item>, status: Status)
    returns (r: Response<Order>)
    requires repo.Valid()
    modifies repo
    ensures repo.Valid()
    ensures !Service.ValidItems(items) ==> r == Respond(CONFLICT, None) && repo.orders == old(repo.orders)
    ensures Service.ValidItems(items) && IndexOfId(old(repo.orders), id).None? ==>
              r == Raised(NotFound) && repo.orders == old(repo.orders)
    ensures Service.ValidItems(items) && IndexOfId(old(repo.orders), id).Some? ==>
              r == Respond(OK, Some(Order(id, name, items, status))) &&
              repo.orders == old(repo.orders)[IndexOfId(old(repo.orders), id).value := Order(id, name, items, status)]
  {
    if |items| == 0 {
      return Respond(CONFLICT, None);
    }
    var k := 0;
    while k < |items|
      invariant 0 <= k <= |items|
      invariant forall i :: 0 <= i < k ==> items[i].amount > 0
    {
      if items[k].amount <= 0 {
        return Respond(CONFLICT, None);
      }
      k := k + 1;
    }
    var updated := Service.UpdateOrder(repo, id, name, Some(items), status);
    if updated.Failure? {
      return Raised(updated.error);
    }
    return Respond(OK, Some(updated.value));
  }

  /** The answer to a parsed payment against the active order's (pre-tax) cost, given
      whether the service accepted the purchase: OK with the change exactly when the
      payment covers the cost and the purchase went through, a conflict otherwise. */
  function PurchaseResponse(paid: real, cost: real, purchased: bool): (r: Response<real>)
    ensures r.Respond?
    ensures r.status == OK <==> cost <= paid && purchased
    ensures r.status == OK ==> r.body == Some(paid - cost) && paid - cost >= 0.0
    ensures r.status != OK ==> r.status == CONFLICT && r.body == None
  {
    if paid < cost then Respond(CONFLICT, None)
    else if purchased then Respond(OK, Some(paid - cost))
    else Respond(CONFLICT, None)
  }

  /** The controller checks the pre-tax cost, the service the taxed total: with a tax rate
      above 1, a payment between the two passes the first check and fails the second. */
  lemma TaxGapConflict(paid: real, cost: real, taxRate: real)
    requires cost > 0.0 && taxRate > 1.0 && cost <= paid < cost * taxRate
    ensures PurchaseResponse(paid, cost, paid >= cost * taxRate) == Respond(CONFLICT, None)
  {
  }

  /** POST /purchase: an unparsable amount is a bad request; no active order escapes as
      not found; under the cost is a conflict without a purchase attempt; otherwise the
      service decides, against the cost times the tax rate. */
  method PurchaseOrder(repo: OrderRepository, paid: Option<real>, taxRate: real) returns (r: Response<real>)
    requires repo.Valid()
    modifies repo
    ensures repo.Valid()
    ensures paid.None? ==> r == Respond(BAD_REQUEST, None) && repo.orders == old(repo.orders)
    ensures paid.Some? && Service.FirstActive(old(repo.orders)).None? ==>
              r == Raised(NotFound) && repo.orders == old(repo.orders)
    ensures paid.Some? && Service.FirstActive(old(repo.orders)).Some? ==>
              var i := Service.FirstActive(old(repo.orders)).value;
              var a := old(repo.orders)[i];
              var purchased := Cost(a.items) <= paid.value && paid.value >= Cost(a.items) * taxRate;
              r == PurchaseResponse(paid.value, Cost(a.items), purchased) &&
              repo.orders == if purchased then old(repo.orders)[i := a.(status := PURCHASED)] else old(repo.orders)
  {
    if paid.None? {
      return Respond(BAD_REQUEST, None);
    }
    var active := Service.GetActiveOrder(repo.orders);
    if active.Failure? {
      return Raised(active.error);
    }
    var a := active.value;
    var dto := new OrderDto.WithAll(Some(a.id), Some(a.name), Some(a.items), a.status);
    var cost := dto.GetOrderCost();
    if paid.value < cost {
      return Respond(CONFLICT, None);
    }
    var purchased := Service.PurchaseOrder(repo, paid.value, taxRate);
    return PurchaseResponse(paid.value, cost, purchased == Success(true));
  }

  /** GET /history: the non-ACTIVE orders, with NO_CONTENT exactly when there are none. */
  function GetOrderHistory(orders: seq<Order>): (r: Response<seq<Order>>)
    ensures r.Respond? && r.body == Some(Service.OrderHistory(orders))
    ensures r.status == NO_CONTENT <==> forall i :: 0 <= i < |orders| ==> orders[i].status == ACTIVE
    ensures r.status != NO_CONTENT ==> r.status == OK
  {
    var history := Service.OrderHistory(orders);
    if |history| == 0 then Respond(NO_CONTENT, Some(history))
    else assert history[0] in orders; Respond(OK, Some(history))
  }
}
