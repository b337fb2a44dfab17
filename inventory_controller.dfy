/**
 * The inventory endpoints: the update endpoint's positive-amount validation in front
 * of the service, and adding a single new item by appending it to the stock.
 */
module InventoryController {
  import opened Wrappers
  import opened Items
  import opened Http
  import opened Stores
  import opened InventoryService

  /** The stock `getInventory` leaves in row 0: the first row, or a fresh empty one. */
  function CurrentStock(rows: seq<seq<Item>>): seq<Item>
  {
    if rows == [] then [] else rows[0]
  }

  /** The rows after `getInventory`: unchanged, or one empty row when there was none. */
  function RowsAfterGet(rows: seq<seq<Item>>): (r: seq<seq<Item>>)
    ensures |r| >= 1 && r[0] == CurrentStock(rows)
    ensures rows != [] ==> r == rows
  {
    if rows == [] then [[]] else rows
  }

  /** PUT: a missing item list, or any amount that is not positive, is a conflict and the
      service is not called; otherwise the service's merged stock is answered with OK,
      and a store without an inventory escapes as not found. */
  method UpdateInventory(repo: InventoryRepository, items: Option<seq<Item>>) returns (r: Response<seq<Item>>)
    modifies repo
    ensures items.None? ==> r == Respond(CONFLICT, None) && repo.rows == old(repo.rows)
    ensures items.Some? && (exists j :: 0 <= j < |items.value| && items.value[j].amount <= 0) ==>
              r == Respond(CONFLICT, items) && repo.rows == old(repo.rows)
    ensures items.Some? && (forall j :: 0 <= j < |items.value| ==> items.value[j].amount > 0) ==>
              if old(repo.rows) == [] then r == Raised(InventoryNotFound) && repo.rows == old(repo.rows)
              else r == Respond(OK, Some(Merge(old(repo.rows)[0], items.value))) &&
                   repo.rows == old(repo.rows)[0 := Merge(old(repo.rows)[0], items.value)]
  {
    if items.None? {
      return Respond(CONFLICT, None);
    }
    var s := items.value;
    var k := 0;
    while k < |s|
      invariant 0 <= k <= |s|
      invariant forall j :: 0 <= j < k ==> s[j].amount > 0
    {
      if s[k].amount <= 0 {
        return Respond(CONFLICT, items);
      }
      k := k + 1;
    }
    var saved := InventoryService.UpdateInventory(repo, s);
    if saved.Failure? {
      return Raised(saved.error);
    }
    return Respond(OK, Some(saved.value));
  }

  /** POST: a non-positive amount is a conflict with nothing changed. Otherwise the
      inventory is fetched (and created if missing); a name already in stock, compared
      exactly, is a conflict; else the stock plus the item is sent as an update. */
  method AddItem(repo: InventoryRepository, item: Item) returns (r: Response<Item>)
    modifies repo
    ensures item.amount <= 0 ==> r == Respond(CONFLICT, Some(item)) && repo.rows == old(repo.rows)
    ensures item.amount > 0 ==>
              var s := CurrentStock(old(repo.rows));
              var rows := RowsAfterGet(old(repo.rows));
              if FirstNamed(s, item.name).Some? then r == Respond(CONFLICT, Some(item)) && repo.rows == rows
              else if exists j :: 0 <= j < |s| && s[j].amount < 0 then
                r == Raised(IllegalArgument) && repo.rows == rows
              else r == Respond(OK, Some(item)) && repo.rows == rows[0 := Merge(s, s + [item])]
    ensures r == Respond(OK, Some(item)) && UniqueNames(CurrentStock(old(repo.rows))) ==>
              repo.rows == RowsAfterGet(old(repo.rows))[0 := CurrentStock(old(repo.rows)) + [item]]
  {
    if item.amount <= 0 {
      return Respond(CONFLICT, Some(item));
    }
    var s := GetInventory(repo);
    var k := 0;
    while k < |s|
      invariant 0 <= k <= |s|
      invariant forall j :: 0 <= j < k ==> s[j].name != item.name
    {
      if s[k].name == item.name {
        return Respond(CONFLICT, Some(item));
      }
      k := k + 1;
    }
    var incoming := s + [item];
    assert forall j :: 0 <= j < |s| ==> incoming[j] == s[j];
    assert incoming[|s|] == item;
    var updated := InventoryService.UpdateInventory(repo, incoming);
    if updated.Failure? {
      return Raised(updated.error);
    }
    if UniqueNames(s) {
      MergeSelfPlusNew(s, item);
    }
    return Respond(OK, Some(item));
  }
}
