/**
 * An order as exchanged with clients: id, name, item list and status, with
 * the list helpers and the cost computation.
 */
module OrderDtos {
  import opened Wrappers
  import opened Seqs
  import opened Items

  class OrderDto {
    /** Order id; `None` models a null id. */
    var id: Option<int>
    /** Order name; `None` models a null name. */
    var name: Option<string>
    /** The order lines; every constructor and `SetItems` keep this list non-null. */
    var items: seq<Item>
    var status: Status

    /** The default constructor: an empty ACTIVE order. */
    constructor ()
      ensures id == None && name == None && items == [] && status == ACTIVE
    {
      id := None;
      name := None;
      items := [];
      status := ACTIVE;
    }

    /** `OrderDto(id, name)`: an empty ACTIVE order with that id and name. */
    constructor WithName(id: Option<int>, name: Option<string>)
      ensures this.id == id && this.name == name && items == [] && status == ACTIVE
    {
      this.id := id;
      this.name := name;
      items := [];
      status := ACTIVE;
    }

    /** `OrderDto(id, name, items, status)`: a null list becomes an empty one. */
    constructor WithAll(id: Option<int>, name: Option<string>, items: Option<seq<Item>>, status: Status)
      ensures this.id == id && this.name == name && this.status == status
      ensures this.items == if items.Some? then items.value else []
    {
      this.id := id;
      this.name := name;
      this.items := if items.Some? then items.value else [];
      this.status := status;
    }

    /** Appends one line at the end; the earlier lines are untouched and the cost grows by the line's cost. */
    method AddItem(x: Item)
      modifies this
      ensures items == old(items) + [x]
      ensures Cost(items) == Cost(old(items)) + LineCost(x)
      ensures id == old(id) && name == old(name) && status == old(status)
    {
      CostAppend(items, x);
      items := items + [x];
    }

    /** `setItems(null)` empties the list; otherwise the list becomes a copy of the argument. */
    method SetItems(newItems: Option<seq<Item>>)
      modifies this
      ensures items == if newItems.Some? then newItems.value else []
      ensures id == old(id) && name == old(name) && status == old(status)
    {
      if newItems.None? {
        items := [];
      } else {
        items := [];
        items := items + newItems.value;
      }
    }

    /** Removes the first line equal to `x`; a no-op when there is none. */
    method RemoveItem(x: Item)
      modifies this
      ensures items == RemoveFirst(old(items), x)
      ensures x in old(items) ==> multiset(items) == multiset(old(items)) - multiset{x}
      ensures id == old(id) && name == old(name) && status == old(status)
    {
      if x in items {
        RemoveFirstMultiset(items, x);
      }
      items := RemoveFirst(items, x);
    }

    /** The running total of amount times price over the lines: the sum, and 0 for no lines. */
    method GetOrderCost() returns (total: real)
      ensures total == Cost(items)
      ensures total == Sum(items)
      ensures items == [] ==> total == 0.0
    {
      total := 0.0;
      var k := 0;
      while k < |items|
        invariant 0 <= k <= |items|
        invariant total == Cost(items[..k])
      {
        assert items[..k + 1][..k] == items[..k];
        total := total + LineCost(items[k]);
        k := k + 1;
      }
      assert items[..k] == items;
      CostIsSum(items);
    }
  }
}
