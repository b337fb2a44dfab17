/**
 * The inventory as exchanged with clients: an optional id and a list of items that Java code
 * may set to null (`None` here), with in-place list helpers.
 */
module InventoryDtos {
  import opened Wrappers
  import opened Seqs
  import opened Items

  class InventoryDto {
    /** Database id; `None` until the store assigns one. */
    var id: Option<int>
    /** The item list; `None` models a null list, reachable through `SetItems`. */
    var items: Option<seq<Item>>

    /** The default constructor: no id, an empty list. */
    constructor ()
      ensures id == None && items == Some([])
    {
      id := None;
      items := Some([]);
    }

    /** `InventoryDto(id, items)`: a null list becomes an empty one. */
    constructor WithItems(id: Option<int>, items: Option<seq<Item>>)
      ensures this.id == id
      ensures this.items == Some(if items.Some? then items.value else [])
    {
      this.id := id;
      this.items := Some(if items.Some? then items.value else []);
    }

    /** `setItems` stores its argument as given, null included. */
    method SetItems(items: Option<seq<Item>>)
      modifies this
      ensures this.items == items && id == old(id)
    {
      this.items := items;
    }

    /** Appends at the end when the list is non-null; a null list stays null. */
    method AddItemToInventory(x: Item)
      modifies this
      ensures old(items).Some? ==> items == Some(old(items).value + [x])
      ensures old(items).None? ==> items == None
      ensures id == old(id)
    {
      if items.Some? {
        items := Some(items.value + [x]);
      }
    }

    /** Removes the first element equal to `x`; a no-op when there is none or the list is null. */
    method RemoveItemFromInventory(x: Item)
      modifies this
      ensures old(items).Some? ==> items == Some(RemoveFirst(old(items).value, x))
      ensures old(items).None? ==> items == None
      ensures id == old(id)
    {
      if items.Some? {
        items := Some(RemoveFirst(items.value, x));
      }
    }

    /** The first item whose name matches ignoring case; nothing for a null list or no match. */
    method GetItemByName(name: string) returns (r: Option<Item>)
      ensures items.None? ==> r.None?
      ensures items.Some? ==> r == ItemByName(items.value, name)
    {
      if items.Some? {
        r := FindByName(items.value, name);
      } else {
        r := None;
      }
    }
  }
}
