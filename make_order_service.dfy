/**
 * Making an order against the inventory (the stock check that decrements as it
 * goes) and the two soft-failing status transitions of the order lifecycle.
 */
module MakeOrderService {
  import opened Wrappers
  import opened Seqs
  import opened Items
  import opened Http
  import opened Stores
  import opened InventoryEntity
  import opened InventoryDtos
  import opened OrderDtos

  // ----- specification of the stock check -----

  /** The verdict of the stock check together with the inventory it leaves in memory. */
  datatype StockCheck = StockCheck(enough: bool, stock: seq<Item>)

  /** `enoughItems` on values: for each order line in turn, take the first inventory item
      with exactly the same name; if it holds enough, decrement it and go on, otherwise,
      or if there is no such item, stop with `false` and the stock as it is at that point. */
  function Consume(stock: seq<Item>, order: seq<Item>): StockCheck
    decreases |order|
  {
    if |order| == 0 then StockCheck(true, stock)
    else match FirstNamed(stock, order[0].name)
      case None => StockCheck(false, stock)
      case Some(i) =>
        if order[0].amount <= stock[i].amount
        then Consume(stock[i := stock[i].(amount := stock[i].amount - order[0].amount)], order[1..])
        else StockCheck(false, stock)
  }

  /** The check only changes amounts: the inventory keeps its length, names and prices,
      and an inventory without negative amounts never gets one. */
  lemma {:induction false} ConsumeShape(stock: seq<Item>, order: seq<Item>)
    ensures |Consume(stock, order).stock| == |stock|
    ensures SameNames(Consume(stock, order).stock, stock)
    ensures forall i :: 0 <= i < |stock| ==> Consume(stock, order).stock[i].price == stock[i].price
    ensures (forall i :: 0 <= i < |stock| ==> stock[i].amount >= 0) ==>
              forall i :: 0 <= i < |stock| ==> Consume(stock, order).stock[i].amount >= 0
    decreases |order|
  {
    if |order| > 0 {
      match FirstNamed(stock, order[0].name)
      case None =>
      case Some(i) =>
        if order[0].amount <= stock[i].amount {
          ConsumeShape(stock[i := stock[i].(amount := stock[i].amount - order[0].amount)], order[1..]);
        }
    }
  }

  /** The total amount the order asks for under one name. */
  function Demand(order: seq<Item>, name: string): int
    decreases |order|
  {
    if |order| == 0 then 0
    else (if order[0].name == name then order[0].amount else 0) + Demand(order[1..], name)
  }

  /** Line `k` is covered: its name is in stock, and the first item of that name holds
      what lines `0..k` ask for under that name. */
  predicate Covered(stock: seq<Item>, order: seq<Item>, k: nat)
    requires k < |order|
  {
    match FirstNamed(stock, order[k].name)
    case None => false
    case Some(i) => Demand(order[..k + 1], order[k].name) <= stock[i].amount
  }

  /** Every line of the order is covered. */
  predicate Sufficient(stock: seq<Item>, order: seq<Item>)
  {
    forall k :: 0 <= k < |order| ==> Covered(stock, order, k)
  }

  /** The decrement made for `x` shifts coverage of the later lines by exactly `x`'s demand. */
  lemma CoveredShift(stock: seq<Item>, order: seq<Item>, i: nat, k: nat)
    requires |order| > 0 && FirstNamed(stock, order[0].name) == Some(i)
    requires 1 <= k < |order|
    ensures Covered(stock[i := stock[i].(amount := stock[i].amount - order[0].amount)], order[1..], k - 1)
        <==> Covered(stock, order, k)
  {
    var t := stock[i := stock[i].(amount := stock[i].amount - order[0].amount)];
    var n := order[k].name;
    assert order[1..][k - 1] == order[k];
    FirstNamedByNames(t, stock, n);
    assert order[..k + 1][1..] == order[1..][..k];
    assert Demand(order[..k + 1], n)
        == (if order[0].name == n then order[0].amount else 0) + Demand(order[1..][..k], n);
  }

  /** The stock check succeeds exactly when every order line is covered. */
  lemma {:induction false} ConsumeEnoughIff(stock: seq<Item>, order: seq<Item>)
    ensures Consume(stock, order).enough <==> Sufficient(stock, order)
    decreases |order|
  {
    if |order| > 0 {
      assert order[..1] == [order[0]];
      assert Demand(order[..1], order[0].name) == order[0].amount by {
        assert order[..1][1..] == [];
      }
      match FirstNamed(stock, order[0].name)
      case None =>
        assert !Covered(stock, order, 0);
      case Some(i) =>
        if order[0].amount <= stock[i].amount {
          var t := stock[i := stock[i].(amount := stock[i].amount - order[0].amount)];
          ConsumeEnoughIff(t, order[1..]);
          forall k | 1 <= k < |order|
            ensures Covered(t, order[1..], k - 1) <==> Covered(stock, order, k)
          {
            CoveredShift(stock, order, i, k);
          }
          assert Sufficient(t, order[1..]) <==> Sufficient(stock, order) by {
            if Sufficient(t, order[1..]) {
              forall k | 0 <= k < |order| ensures Covered(stock, order, k) {
                if k > 0 {
                  assert Covered(t, order[1..], k - 1);
                }
              }
            }
            if Sufficient(stock, order) {
              forall k | 0 <= k < |order[1..]| ensures Covered(t, order[1..], k) {
                assert Covered(stock, order, k + 1);
              }
            }
          }
        } else {
          assert !Covered(stock, order, 0);
        }
    }
  }

  /** On success, the first item of each name has lost exactly the order's total demand for
      that name, and every other item is untouched. */
  lemma {:induction false} ConsumeStock(stock: seq<Item>, order: seq<Item>)
    requires Consume(stock, order).enough
    ensures |Consume(stock, order).stock| == |stock|
    ensures forall i :: 0 <= i < |stock| ==>
              Consume(stock, order).stock[i] ==
                if IsFirstNamed(stock, i)
                then stock[i].(amount := stock[i].amount - Demand(order, stock[i].name))
                else stock[i]
    decreases |order|
  {
    if |order| > 0 {
      var x := order[0];
      var j := FirstNamed(stock, x.name).value;
      var t := stock[j := stock[j].(amount := stock[j].amount - x.amount)];
      ConsumeStock(t, order[1..]);
      ConsumeShape(stock, order);
      forall i | 0 <= i < |stock|
        ensures Consume(stock, order).stock[i] ==
                  if IsFirstNamed(stock, i)
                  then stock[i].(amount := stock[i].amount - Demand(order, stock[i].name))
                  else stock[i]
      {
        assert IsFirstNamed(t, i) == IsFirstNamed(stock, i);
        FirstNamedIsFirst(stock, i);
        FirstNamedIsFirst(stock, j);
      }
    }
  }

  /** A failed check stops the scan: order lines after the failing one are never examined. */
  lemma {:induction false} FailureIgnoresRest(stock: seq<Item>, order: seq<Item>, more: seq<Item>)
    requires !Consume(stock, order).enough
    ensures Consume(stock, order + more) == Consume(stock, order)
    decreases |order|
  {
    var whole := order + more;
    assert whole[0] == order[0];
    assert whole[1..] == order[1..] + more;
    match FirstNamed(stock, order[0].name)
    case None =>
    case Some(i) =>
      if order[0].amount <= stock[i].amount {
        FailureIgnoresRest(stock[i := stock[i].(amount := stock[i].amount - order[0].amount)], order[1..], more);
      }
  }

  /** Names are matched case-sensitively: "coffee" is not served from "Coffee". */
  lemma CaseSensitiveMatch()
    ensures !Consume([Item("Coffee", 10, 1.0)], [Item("coffee", 1, 1.0)]).enough
  {
    assert [Item("Coffee", 10, 1.0)][0].name != "coffee";
  }

  /** Ten coffees in stock cover an order of five and leave five; they do not cover fifteen. */
  lemma CoffeeStock()
    ensures Consume([Item("Coffee", 10, 1.0)], [Item("Coffee", 5, 1.0)]) == StockCheck(true, [Item("Coffee", 5, 1.0)])
    ensures Consume([Item("Coffee", 10, 1.0)], [Item("Coffee", 15, 1.0)]) == StockCheck(false, [Item("Coffee", 10, 1.0)])
  {
    assert FirstNamed([Item("Coffee", 10, 1.0)], "Coffee") == Some(0);
  }

  // ----- the service operations -----

  /** `enoughItems`: the nested scan over order lines and inventory items, decrementing the
      inventory in place; its verdict and the inventory it leaves are those of `Consume`. */
  method EnoughItems(inventory: Inventory, order: seq<Item>) returns (isEnough: bool)
    requires inventory.items.Some?
    modifies inventory
    ensures inventory.items.Some? && inventory.id == old(inventory.id)
    ensures StockCheck(isEnough, inventory.items.value) == Consume(old(inventory.items.value), order)
  {
    isEnough := true;
    var itemFound := false;
    var i := 0;
    while i < |order|
      invariant 0 <= i <= |order|
      invariant inventory.items.Some? && inventory.id == old(inventory.id)
      invariant isEnough
      invariant Consume(old(inventory.items.value), order) == Consume(inventory.items.value, order[i..])
    {
      assert order[i..][0] == order[i] && order[i..][1..] == order[i + 1..];
      itemFound := false;
      var stock := inventory.items.value;
      var j := 0;
      while j < |stock|
        invariant 0 <= j <= |stock|
        invariant forall k :: 0 <= k < j ==> stock[k].name != order[i].name
        invariant inventory.items == Some(stock) && !itemFound
      {
        if order[i].name == stock[j].name {
          if order[i].amount <= stock[j].amount {
            inventory.items := Some(stock[j := stock[j].(amount := stock[j].amount - order[i].amount)]);
            itemFound := true;
          }
          break;
        }
        j := j + 1;
      }
      if !itemFound {
        isEnough := false;
        break;
      }
      i := i + 1;
    }
  }

  /** `makeOrder`: runs the stock check on a copy of the given inventory and saves the
      decremented inventory only when the check succeeds. The order is only read: its
      status is not changed. */
  method MakeOrder(repo: InventoryRepository, inventory: InventoryDto, order: OrderDto) returns (made: bool)
    requires inventory.items.Some?
    modifies repo
    ensures made == Consume(inventory.items.value, order.items).enough
    ensures made ==> repo.rows == SavedRows(old(repo.rows), Consume(inventory.items.value, order.items).stock)
    ensures !made ==> repo.rows == old(repo.rows)
    ensures order.status == old(order.status) && order.items == old(order.items)
  {
    var copy := new Inventory.WithItems(inventory.id, inventory.items);
    made := EnoughItems(copy, order.items);
    if made {
      repo.Save(copy.items.value);
    }
  }

  // ----- the status transitions -----

  /** The store after moving the order `id` from status `from` to `to`, if it is in `from`. */
  function Transitioned(orders: seq<Order>, id: int, from: Status, to: Status): (r: seq<Order>)
    ensures |r| == |orders|
    ensures forall i :: 0 <= i < |orders| && orders[i].id != id ==> r[i] == orders[i]
    ensures forall i :: 0 <= i < |orders| ==> r[i] == orders[i] || r[i] == orders[i].(status := to)
    ensures forall i :: 0 <= i < |orders| && orders[i].status != from ==> r[i] == orders[i]
  {
    match IndexOfId(orders, id)
    case None => orders
    case Some(i) => if orders[i].status == from then orders[i := orders[i].(status := to)] else orders
  }

  /** With unique ids, the transition moves the target exactly when it is in `from`. */
  lemma TransitionedTarget(orders: seq<Order>, i: nat, from: Status, to: Status)
    requires UniqueIds(orders) && i < |orders|
    ensures Transitioned(orders, orders[i].id, from, to)[i].status ==
              if orders[i].status == from then to else orders[i].status
  {
    IndexOfIdUnique(orders, i);
  }

  /** A purchased order, fulfilled and then picked up, ends PICKED_UP; an order that is
      not yet purchased can be neither fulfilled nor picked up. */
  lemma LifecycleInOrder(orders: seq<Order>, i: nat)
    requires UniqueIds(orders) && i < |orders|
    ensures var id := orders[i].id;
            orders[i].status == PURCHASED ==>
              Transitioned(Transitioned(orders, id, PURCHASED, FULFILLED), id, FULFILLED, PICKED_UP)[i].status == PICKED_UP
    ensures var id := orders[i].id;
            orders[i].status == ACTIVE ==>
              Transitioned(orders, id, PURCHASED, FULFILLED) == orders &&
              Transitioned(orders, id, FULFILLED, PICKED_UP) == orders
  {
    var id := orders[i].id;
    IndexOfIdUnique(orders, i);
    var once := Transitioned(orders, id, PURCHASED, FULFILLED);
    assert UniqueIds(once) by {
      assert forall k :: 0 <= k < |orders| ==> once[k].id == orders[k].id;
    }
    TransitionedTarget(once, i, FULFILLED, PICKED_UP);
  }

  /** `fulfillOrder`: PURCHASED becomes FULFILLED and is saved; any other status is left
      alone and `false` is returned; an unknown id is not found. */
  method FulfillOrder(repo: OrderRepository, id: int) returns (r: Result<bool, Error>)
    requires repo.Valid()
    modifies repo
    ensures repo.Valid()
    ensures IndexOfId(old(repo.orders), id).None? ==> r == Failure(NotFound) && repo.orders == old(repo.orders)
    ensures IndexOfId(old(repo.orders), id).Some? ==>
              r == Success(old(repo.orders)[IndexOfId(old(repo.orders), id).value].status == PURCHASED)
    ensures repo.orders == Transitioned(old(repo.orders), id, PURCHASED, FULFILLED)
  {
    r := Advance(repo, id, PURCHASED, FULFILLED);
  }

  /** `pickupOrder`: FULFILLED becomes PICKED_UP and is saved; any other status is left
      alone and `false` is returned; an unknown id is not found. */
  method PickupOrder(repo: OrderRepository, id: int) returns (r: Result<bool, Error>)
    requires repo.Valid()
    modifies repo
    ensures repo.Valid()
    ensures IndexOfId(old(repo.orders), id).None? ==> r == Failure(NotFound) && repo.orders == old(repo.orders)
    ensures IndexOfId(old(repo.orders), id).Some? ==>
              r == Success(old(repo.orders)[IndexOfId(old(repo.orders), id).value].status == FULFILLED)
    ensures repo.orders == Transitioned(old(repo.orders), id, FULFILLED, PICKED_UP)
  {
    r := Advance(repo, id, FULFILLED, PICKED_UP);
  }

  /** The read-modify-write both transitions share: find by id, check the status, save. */
  method Advance(repo: OrderRepository, id: int, from: Status, to: Status) returns (r: Result<bool, Error>)
    requires repo.Valid()
    modifies repo
    ensures repo.Valid()
    ensures IndexOfId(old(repo.orders), id).None? ==> r == Failure(NotFound) && repo.orders == old(repo.orders)
    ensures IndexOfId(old(repo.orders), id).Some? ==>
              r == Success(old(repo.orders)[IndexOfId(old(repo.orders), id).value].status == from)
    ensures repo.orders == Transitioned(old(repo.orders), id, from, to)
  {
    var found := IndexOfId(repo.orders, id);
    if found.None? {
      return Failure(NotFound);
    }
    var order := repo.orders[found.value];
    if order.status == from {
      repo.Save(order.(status := to));
      return Success(true);
    }
    return Success(false);
  }

  /** `getOrdersToFulfill`: exactly the PURCHASED orders, in store order. */
  function GetOrdersToFulfill(orders: seq<Order>): (r: seq<Order>)
    ensures forall i :: 0 <= i < |r| ==> r[i].status == PURCHASED && r[i] in orders
    ensures forall i :: 0 <= i < |orders| && orders[i].status == PURCHASED ==> orders[i] in r
  {
    Filter(orders, HasStatus(PURCHASED))
  }

  /** `getFulfilledOrders`: exactly the FULFILLED orders, in store order. */
  function GetFulfilledOrders(orders: seq<Order>): (r: seq<Order>)
    ensures forall i :: 0 <= i < |r| ==> r[i].status == FULFILLED && r[i] in orders
    ensures forall i :: 0 <= i < |orders| && orders[i].status == FULFILLED ==> orders[i] in r
  {
    Filter(orders, HasStatus(FULFILLED))
  }

  /** The to-fulfill list keeps store order: the list of two stores placed together is the
      two lists placed together. */
  lemma ToFulfillKeepsOrder(a: seq<Order>, b: seq<Order>)
    ensures GetOrdersToFulfill(a + b) == GetOrdersToFulfill(a) + GetOrdersToFulfill(b)
  {
    FilterConcat(a, b, HasStatus(PURCHASED));
  }

  /** The to-fulfill list holds each PURCHASED order as often as the store does, and nothing else. */
  lemma ToFulfillCounts(orders: seq<Order>, o: Order)
    ensures multiset(GetOrdersToFulfill(orders))[o] == if o.status == PURCHASED then multiset(orders)[o] else 0
  {
    FilterCount(orders, HasStatus(PURCHASED), o);
  }

  /** The fulfilled list keeps store order. */
  lemma FulfilledKeepsOrder(a: seq<Order>, b: seq<Order>)
    ensures GetFulfilledOrders(a + b) == GetFulfilledOrders(a) + GetFulfilledOrders(b)
  {
    FilterConcat(a, b, HasStatus(FULFILLED));
  }

  /** The fulfilled list holds each FULFILLED order as often as the store does, and nothing else. */
  lemma FulfilledCounts(orders: seq<Order>, o: Order)
    ensures multiset(GetFulfilledOrders(orders))[o] == if o.status == FULFILLED then multiset(orders)[o] else 0
  {
    FilterCount(orders, HasStatus(FULFILLED), o);
  }

  /** Fulfilling an order moves it from the to-fulfill list to the fulfilled list. */
  lemma FulfillMovesBetweenLists(orders: seq<Order>, i: nat)
    requires UniqueIds(orders) && i < |orders| && orders[i].status == PURCHASED
    ensures var after := Transitioned(orders, orders[i].id, PURCHASED, FULFILLED);
            after[i] in GetFulfilledOrders(after) && after[i] !in GetOrdersToFulfill(after)
  {
    IndexOfIdUnique(orders, i);
  }
}
