/**
 * In-memory stand-ins for the JPA repositories the services use. Each keeps
 * its rows in `findAll` order.
 */
module Stores {
  import opened Wrappers
  import opened Seqs
  import opened Items

  /** The inventory table. The application treats its first row as the single inventory. */
  class InventoryRepository {
    var rows: seq<seq<Item>>

    constructor ()
      ensures rows == []
    {
      rows := [];
    }

    /** Saving a new inventory adds a row. */
    method Insert(items: seq<Item>)
      modifies this
      ensures rows == old(rows) + [items]
    {
      rows := rows + [items];
    }

    /** Saving the singleton inventory overwrites the first row, or creates it. */
    method Save(items: seq<Item>)
      modifies this
      ensures rows == SavedRows(old(rows), items)
    {
      rows := SavedRows(rows, items);
    }
  }

  /** The table after saving the singleton inventory. */
  function SavedRows(rows: seq<seq<Item>>, items: seq<Item>): (r: seq<seq<Item>>)
    ensures |r| == if |rows| == 0 then 1 else |rows|
    ensures r[0] == items && forall i :: 0 < i < |rows| ==> r[i] == rows[i]
  {
    if |rows| == 0 then [items] else rows[0 := items]
  }

  /** True of the order with the given id. */
  function HasId(id: int): Order -> bool
  {
    (o: Order) => o.id == id
  }

  /** True of the orders in the given status (`findByStatus`). */
  function HasStatus(status: Status): Order -> bool
  {
    (o: Order) => o.status == status
  }

  /** Position of the order with the given id, if any (`findById`). */
  function IndexOfId(orders: seq<Order>, id: int): (r: Option<nat>)
    ensures r.Some? ==> r.value < |orders| && orders[r.value].id == id
    ensures r.None? <==> forall i :: 0 <= i < |orders| ==> orders[i].id != id
  {
    FirstWhere(orders, HasId(id))
  }

  /** No two stored orders share an id. */
  predicate UniqueIds(orders: seq<Order>)
  {
    forall i, j :: 0 <= i < j < |orders| ==> orders[i].id != orders[j].id
  }

  /** With unique ids, the order found by id is the only one with that id. */
  lemma IndexOfIdUnique(orders: seq<Order>, i: nat)
    requires UniqueIds(orders) && i < |orders|
    ensures IndexOfId(orders, orders[i].id) == Some(i)
  {
    var r := IndexOfId(orders, orders[i].id);
    assert r.Some?;
    assert !(r.value < i) && !(i < r.value);
  }

  /** Lookups by id only depend on the ids, so they survive changes to other fields. */
  lemma IndexOfIdByIds(a: seq<Order>, b: seq<Order>, id: int)
    requires |a| == |b| && forall i :: 0 <= i < |a| ==> a[i].id == b[i].id
    ensures IndexOfId(a, id) == IndexOfId(b, id)
  {
    var x, y := IndexOfId(a, id), IndexOfId(b, id);
    if x.Some? && y.Some? {
      assert !(x.value < y.value) && !(y.value < x.value);
    }
  }

  /** The order table, with the id generator of the identity column. */
  class OrderRepository {
    var orders: seq<Order>
    /** The id the next inserted order receives. */
    var nextId: int

    /** Ids are unique and all below the next one to be issued. */
    ghost predicate Valid()
      reads this
    {
      UniqueIds(orders) && forall i :: 0 <= i < |orders| ==> orders[i].id < nextId
    }

    constructor ()
      ensures orders == [] && Valid()
    {
      orders := [];
      nextId := 1;
    }

    /** Saving a new order assigns it a fresh id and appends it. */
    method Insert(name: string, items: seq<Item>, status: Status) returns (o: Order)
      requires Valid()
      modifies this
      ensures Valid()
      ensures o == Order(old(nextId), name, items, status)
      ensures orders == old(orders) + [o]
      ensures IndexOfId(old(orders), o.id).None?
    {
      o := Order(nextId, name, items, status);
      orders := orders + [o];
      nextId := nextId + 1;
    }

    /** Saving an existing order replaces the row with its id. */
    method Save(o: Order)
      requires Valid() && IndexOfId(orders, o.id).Some?
      modifies this
      ensures Valid() && nextId == old(nextId)
      ensures orders == old(orders)[IndexOfId(old(orders), o.id).value := o]
    {
      var i := IndexOfId(orders, o.id).value;
      orders := orders[i := o];
    }

    /** Deleting an order removes its row; the others keep their order. */
    method Delete(i: nat)
      requires Valid() && i < |orders|
      modifies this
      ensures Valid() && nextId == old(nextId)
      ensures orders == old(orders)[..i] + old(orders)[i + 1..]
    {
      orders := orders[..i] + orders[i + 1..];
    }
  }
}
