/**
 * The order store operations: validated create and update, making one order
 * the active one, lookups, history, adding quantity to the active order, and
 * purchase against a tax-inclusive total.
 */
module OrderService {
  import opened Wrappers
  import opened Seqs
  import opened Items
  import opened Http
  import opened Stores
  import opened OrderDtos

  // ----- lookups -----

  /** `getOrderById`: the order with that id, or not found. */
  function GetOrderById(orders: seq<Order>, id: int): (r: Result<Order, Error>)
    ensures r.Failure? <==> forall i :: 0 <= i < |orders| ==> orders[i].id != id
    ensures r.Failure? ==> r.error == NotFound
    ensures r.Success? ==> r.value in orders && r.value.id == id
  {
    match IndexOfId(orders, id)
    case Some(i) => Success(orders[i])
    case None => Failure(NotFound)
  }

  /** True of the orders with exactly the given name. */
  function Named(name: string): Order -> bool
  {
    (o: Order) => o.name == name
  }

  /** `getOrderByName`: the first order with exactly that name, or not found. */
  function GetOrderByName(orders: seq<Order>, name: string): (r: Result<Order, Error>)
    ensures r.Failure? <==> forall i :: 0 <= i < |orders| ==> orders[i].name != name
    ensures r.Failure? ==> r.error == NotFound
    ensures r.Success? ==> r.value in orders && r.value.name == name
  {
    match FirstWhere(orders, Named(name))
    case Some(i) => Success(orders[i])
    case None => Failure(NotFound)
  }

  /** `isDuplicateName`: some stored order already has this name. */
  function IsDuplicateName(orders: seq<Order>, name: string): (r: bool)
    ensures r <==> exists i :: 0 <= i < |orders| && orders[i].name == name
  {
    GetOrderByName(orders, name).Success?
  }

  /** Position of the first ACTIVE order, if any. */
  function FirstActive(orders: seq<Order>): (r: Option<nat>)
    ensures r.Some? ==> r.value < |orders| && orders[r.value].status == ACTIVE
    ensures r.Some? ==> forall j :: 0 <= j < r.value ==> orders[j].status != ACTIVE
    ensures r.None? <==> forall j :: 0 <= j < |orders| ==> orders[j].status != ACTIVE
  {
    FirstWhere(orders, HasStatus(ACTIVE))
  }

  /** `getActiveOrder`: the first ACTIVE order in store order, or not found. */
  function GetActiveOrder(orders: seq<Order>): (r: Result<Order, Error>)
    ensures r.Failure? <==> forall j :: 0 <= j < |orders| ==> orders[j].status != ACTIVE
    ensures r.Failure? ==> r.error == NotFound
    ensures r.Success? ==> exists i :: 0 <= i < |orders| && orders[i] == r.value &&
                             r.value.status == ACTIVE &&
                             forall j :: 0 <= j < i ==> orders[j].status != ACTIVE
  {
    if |orders| == 0 then Failure(NotFound)
    else match FirstActive(orders)
      case Some(i) => Success(orders[i])
      case None => Failure(NotFound)
  }

  /** True of the orders that are no longer ACTIVE. */
  function Inactive(): Order -> bool
  {
    (o: Order) => o.status != ACTIVE
  }

  /** `orderHistory`: exactly the orders that are not ACTIVE, in store order. */
  function OrderHistory(orders: seq<Order>): (r: seq<Order>)
    ensures forall i :: 0 <= i < |r| ==> r[i].status != ACTIVE && r[i] in orders
    ensures forall i :: 0 <= i < |orders| && orders[i].status != ACTIVE ==> orders[i] in r
  {
    Filter(orders, Inactive())
  }

  /** The history keeps the store's order: the history of a concatenation is the
      concatenation of the histories. */
  lemma HistoryKeepsOrder(a: seq<Order>, b: seq<Order>)
    ensures OrderHistory(a + b) == OrderHistory(a) + OrderHistory(b)
  {
    FilterConcat(a, b, Inactive());
  }

  /** The history holds each non-ACTIVE order as often as the store does, and nothing else. */
  lemma HistoryCounts(orders: seq<Order>, o: Order)
    ensures multiset(OrderHistory(orders))[o] == if o.status != ACTIVE then multiset(orders)[o] else 0
  {
    FilterCount(orders, Inactive(), o);
  }

  /** At most one stored order is ACTIVE. */
  predicate AtMostOneActive(orders: seq<Order>)
  {
    forall i, j ::
      0 <= i < |orders| && 0 <= j < |orders| && orders[i].status == ACTIVE && orders[j].status == ACTIVE ==> i == j
  }

  // ----- activation -----

  /** The store after `setActiveOrder` has forced the first ACTIVE order (if any) to PICKED_UP. */
  function Demoted(orders: seq<Order>): (r: seq<Order>)
    ensures |r| == |orders| && forall i :: 0 <= i < |orders| ==> r[i].id == orders[i].id
  {
    match FirstActive(orders)
    case None => orders
    case Some(a) => orders[a := orders[a].(status := PICKED_UP)]
  }

  /** After activating the order at position `j`: the target is ACTIVE, the previously
      first ACTIVE order (if another) is PICKED_UP, nothing else changes, and when at
      most one order was ACTIVE before, the target is the only ACTIVE order after. */
  lemma ActivationEffect(orders: seq<Order>, j: nat)
    requires j < |orders|
    ensures var after := Demoted(orders)[j := orders[j].(status := ACTIVE)];
            after[j].status == ACTIVE &&
            (FirstActive(orders).Some? && FirstActive(orders).value != j ==>
               after[FirstActive(orders).value] == orders[FirstActive(orders).value].(status := PICKED_UP)) &&
            (forall k :: 0 <= k < |orders| && k != j && Some(k) != FirstActive(orders) ==> after[k] == orders[k]) &&
            (AtMostOneActive(orders) ==> forall k :: 0 <= k < |orders| ==> (after[k].status == ACTIVE <==> k == j))
  {
  }

  /** With unique ids, activation moves the target only. */
  lemma ActivationByIdFindsTarget(orders: seq<Order>, j: nat)
    requires UniqueIds(orders) && j < |orders|
    ensures IndexOfId(Demoted(orders), orders[j].id) == Some(j)
  {
    IndexOfIdUnique(orders, j);
    IndexOfIdByIds(Demoted(orders), orders, orders[j].id);
  }

  /** `setActiveOrder`: first demote the first ACTIVE order (saving it), then look the
      target up, failing with not-found (the demotion persists), else make it ACTIVE and save. */
  method SetActiveOrder(repo: OrderRepository, id: int) returns (r: Result<Order, Error>)
    requires repo.Valid()
    modifies repo
    ensures repo.Valid()
    ensures IndexOfId(old(repo.orders), id).None? ==>
              r == Failure(NotFound) && repo.orders == Demoted(old(repo.orders))
    ensures IndexOfId(old(repo.orders), id).Some? ==>
              var j := IndexOfId(old(repo.orders), id).value;
              r == Success(Demoted(old(repo.orders))[j].(status := ACTIVE)) &&
              repo.orders == Demoted(old(repo.orders))[j := Demoted(old(repo.orders))[j].(status := ACTIVE)]
    ensures AtMostOneActive(old(repo.orders)) && r.Success? ==>
              forall k :: 0 <= k < |repo.orders| ==>
                (repo.orders[k].status == ACTIVE <==> k == IndexOfId(old(repo.orders), id).value)
  {
    var current := FirstActive(repo.orders);
    if current.Some? {
      var a := current.value;
      IndexOfIdUnique(repo.orders, a);
      repo.Save(repo.orders[a].(status := PICKED_UP));
    }
    assert repo.orders == Demoted(old(repo.orders));
    IndexOfIdByIds(repo.orders, old(repo.orders), id);
    var found := IndexOfId(repo.orders, id);
    if found.None? {
      return Failure(NotFound);
    }
    var order := repo.orders[found.value].(status := ACTIVE);
    ActivationEffect(old(repo.orders), found.value);
    assert order == old(repo.orders)[found.value].(status := ACTIVE);
    repo.Save(order);
    return Success(order);
  }

  // ----- create, update, delete -----

  /** What `createOrder` and `updateOrder` accept: at least one line, every amount positive. */
  predicate ValidItems(items: seq<Item>)
  {
    |items| > 0 && forall i :: 0 <= i < |items| ==> items[i].amount > 0
  }

  /** The item validation both operations share: reject an empty list or a non-positive
      amount, otherwise return an element-wise copy. */
  method CheckItems(items: Option<seq<Item>>) returns (r: Result<seq<Item>, Error>)
    ensures items.Some? && ValidItems(items.value) ==> r == Success(items.value)
    ensures !(items.Some? && ValidItems(items.value)) ==> r == Failure(IllegalArgument)
  {
    if items.None? || |items.value| == 0 {
      return Failure(IllegalArgument);
    }
    var copied: seq<Item> := [];
    var k := 0;
    while k < |items.value|
      invariant 0 <= k <= |items.value|
      invariant copied == items.value[..k]
      invariant forall i :: 0 <= i < k ==> items.value[i].amount > 0
    {
      if items.value[k].amount <= 0 {
        return Failure(IllegalArgument);
      }
      copied := copied + [items.value[k]];
      k := k + 1;
    }
    assert items.value[..k] == items.value;
    return Success(copied);
  }

  /** `createOrder`: invalid items are rejected before anything is saved; otherwise one
      order with the given name, items and status is appended. Other ACTIVE orders are
      not deactivated. */
  method CreateOrder(repo: OrderRepository, name: string, items: Option<seq<Item>>, status: Status)
    returns (r: Result<Order, Error>)
    requires repo.Valid()
    modifies repo
    ensures repo.Valid()
    ensures !(items.Some? && ValidItems(items.value)) ==>
              r == Failure(IllegalArgument) && repo.orders == old(repo.orders)
    ensures items.Some? && ValidItems(items.value) ==>
              r == Success(Order(old(repo.nextId), name, items.value, status)) &&
              repo.orders == old(repo.orders) + [r.value]
    ensures r.Success? && status == ACTIVE && FirstActive(old(repo.orders)).Some? ==> !AtMostOneActive(repo.orders)
  {
    var checked := CheckItems(items);
    if checked.Failure? {
      return Failure(checked.error);
    }
    ghost var before := repo.orders;
    var o := repo.Insert(name, checked.value, status);
    if status == ACTIVE && FirstActive(before).Some? {
      CreateCanAddSecondActive(before, FirstActive(before).value, o);
    }
    return Success(o);
  }

  /** Because creation does not deactivate, creating an ACTIVE order in a store that
      already holds one leaves two ACTIVE orders. */
  lemma CreateCanAddSecondActive(orders: seq<Order>, k: nat, o: Order)
    requires k < |orders| && orders[k].status == ACTIVE && o.status == ACTIVE
    ensures !AtMostOneActive(orders + [o])
  {
    var s := orders + [o];
    assert s[k].status == ACTIVE && s[|orders|].status == ACTIVE;
  }

  /** `updateOrder`: an unknown id is not found; then invalid items are rejected; otherwise
      name, status and items are replaced wholesale. Nothing is saved on failure. */
  method UpdateOrder(repo: OrderRepository, id: int, name: string, items: Option<seq<Item>>, status: Status)
    returns (r: Result<Order, Error>)
    requires repo.Valid()
    modifies repo
    ensures repo.Valid()
    ensures IndexOfId(old(repo.orders), id).None? ==> r == Failure(NotFound) && repo.orders == old(repo.orders)
    ensures IndexOfId(old(repo.orders), id).Some? && !(items.Some? && ValidItems(items.value)) ==>
              r == Failure(IllegalArgument) && repo.orders == old(repo.orders)
    ensures IndexOfId(old(repo.orders), id).Some? && items.Some? && ValidItems(items.value) ==>
              r == Success(Order(id, name, items.value, status)) &&
              repo.orders == old(repo.orders)[IndexOfId(old(repo.orders), id).value := r.value]
  {
    var found := IndexOfId(repo.orders, id);
    if found.None? {
      return Failure(NotFound);
    }
    var checked := CheckItems(items);
    if checked.Failure? {
      return Failure(checked.error);
    }
    var order := Order(id, name, checked.value, status);
    repo.Save(order);
    return Success(order);
  }

  /** `deleteOrder`: an unknown id is not found; otherwise that order's row is removed. */
  method DeleteOrder(repo: OrderRepository, id: int) returns (r: Outcome<Error>)
    requires repo.Valid()
    modifies repo
    ensures repo.Valid()
    ensures IndexOfId(old(repo.orders), id).None? ==> r == Fail(NotFound) && repo.orders == old(repo.orders)
    ensures IndexOfId(old(repo.orders), id).Some? ==>
              var i := IndexOfId(old(repo.orders), id).value;
              r == Pass && repo.orders == old(repo.orders)[..i] + old(repo.orders)[i + 1..]
  {
    var found := IndexOfId(repo.orders, id);
    if found.None? {
      return Fail(NotFound);
    }
    repo.Delete(found.value);
    return Pass;
  }

  // ----- purchase and adding to the active order -----

  /** `purchaseOrder`: with no active order, not found; if the payment is below the active
      order's cost times the tax rate, `false` and no change; otherwise the active order
      becomes PURCHASED and is saved. Inventory is not touched. */
  method PurchaseOrder(repo: OrderRepository, paid: real, taxRate: real) returns (r: Result<bool, Error>)
    requires repo.Valid()
    modifies repo
    ensures repo.Valid()
    ensures FirstActive(old(repo.orders)).None? ==> r == Failure(NotFound) && repo.orders == old(repo.orders)
    ensures FirstActive(old(repo.orders)).Some? ==>
              var i := FirstActive(old(repo.orders)).value;
              var a := old(repo.orders)[i];
              (paid < Cost(a.items) * taxRate ==> r == Success(false) && repo.orders == old(repo.orders)) &&
              (paid >= Cost(a.items) * taxRate ==>
                 r == Success(true) && repo.orders == old(repo.orders)[i := a.(status := PURCHASED)])
  {
    var active := GetActiveOrder(repo.orders);
    if active.Failure? {
      return Failure(active.error);
    }
    var a := active.value;
    var i := FirstActive(repo.orders).value;
    var dto := new OrderDto.WithAll(Some(a.id), Some(a.name), Some(a.items), a.status);
    var cost := dto.GetOrderCost();
    if paid < cost * taxRate {
      return Success(false);
    }
    IndexOfIdUnique(repo.orders, i);
    repo.Save(a.(status := PURCHASED));
    return Success(true);
  }

  /** `addItemToActiveOrder`: a non-positive quantity is rejected; with no active order,
      not found; otherwise the first line whose name matches ignoring case gains the
      quantity, or, with no such line, the request is rejected. Other lines are untouched. */
  method AddItemToActiveOrder(repo: OrderRepository, itemName: string, quantity: int) returns (r: Result<Order, Error>)
    requires repo.Valid()
    modifies repo
    ensures repo.Valid()
    ensures quantity <= 0 ==> r == Failure(IllegalArgument) && repo.orders == old(repo.orders)
    ensures quantity > 0 && FirstActive(old(repo.orders)).None? ==>
              r == Failure(NotFound) && repo.orders == old(repo.orders)
    ensures quantity > 0 && FirstActive(old(repo.orders)).Some? ==>
              var i := FirstActive(old(repo.orders)).value;
              var a := old(repo.orders)[i];
              match FirstNamedIgnoringCase(a.items, itemName)
              case None => r == Failure(IllegalArgument) && repo.orders == old(repo.orders)
              case Some(k) =>
                var o := a.(items := a.items[k := a.items[k].(amount := a.items[k].amount + quantity)]);
                r == Success(o) && repo.orders == old(repo.orders)[i := o]
  {
    if quantity <= 0 {
      return Failure(IllegalArgument);
    }
    var active := GetActiveOrder(repo.orders);
    if active.Failure? {
      return Failure(active.error);
    }
    var a := active.value;
    var i := FirstActive(repo.orders).value;
    var match_ := FirstNamedIgnoringCase(a.items, itemName);
    if match_.None? {
      return Failure(IllegalArgument);
    }
    var k := match_.value;
    var o := a.(items := a.items[k := a.items[k].(amount := a.items[k].amount + quantity)]);
    IndexOfIdUnique(repo.orders, i);
    repo.Save(o);
    return Success(o);
  }
}
