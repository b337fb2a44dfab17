/**
 * The values shared by the inventory and the orders: an item line, an order
 * and its lifecycle status, the order cost, and the two ways the backend
 * matches item names (exactly, and ignoring case).
 */
module Items {
  import opened Wrappers
  import opened Seqs

  /** Lifecycle of an order: ACTIVE -> PURCHASED -> FULFILLED -> PICKED_UP. */
  datatype Status = ACTIVE | PURCHASED | FULFILLED | PICKED_UP

  /** A named stock-keeping unit: a line of the inventory or of an order. */
  datatype Item = Item(name: string, amount: int, price: real)

  /** A stored order; `id` is the key the order store assigned to it. */
  datatype Order = Order(id: int, name: string, items: seq<Item>, status: Status)

  // ----- name matching -----

  /** ASCII lower-casing of one character (the part of Java's case folding modelled here). */
  function LowerAscii(c: char): char
  {
    if 'A' <= c <= 'Z' then (c as int + 32) as char else c
  }

  /** `String.equalsIgnoreCase`, restricted to ASCII letters. */
  predicate EqualsIgnoreCase(a: string, b: string)
  {
    |a| == |b| && forall i :: 0 <= i < |a| ==> LowerAscii(a[i]) == LowerAscii(b[i])
  }

  /** Exact (case-sensitive) name test, as `name.equals(...)`. */
  function HasName(name: string): Item -> bool
  {
    (it: Item) => it.name == name
  }

  /** Case-insensitive name test, as `name.equalsIgnoreCase(...)`. */
  function HasNameIgnoringCase(name: string): Item -> bool
  {
    (it: Item) => EqualsIgnoreCase(it.name, name)
  }

  /** Index of the first item whose name equals `name` exactly. */
  function FirstNamed(s: seq<Item>, name: string): (r: Option<nat>)
    ensures r.Some? ==> r.value < |s| && s[r.value].name == name
    ensures r.Some? ==> forall j :: 0 <= j < r.value ==> s[j].name != name
    ensures r.None? ==> forall j :: 0 <= j < |s| ==> s[j].name != name
  {
    FirstWhere(s, HasName(name))
  }

  /** Index of the first item whose name equals `name` ignoring case. */
  function FirstNamedIgnoringCase(s: seq<Item>, name: string): (r: Option<nat>)
    ensures r.Some? ==> r.value < |s| && EqualsIgnoreCase(s[r.value].name, name)
    ensures r.Some? ==> forall j :: 0 <= j < r.value ==> !EqualsIgnoreCase(s[j].name, name)
    ensures r.None? ==> forall j :: 0 <= j < |s| ==> !EqualsIgnoreCase(s[j].name, name)
  {
    FirstWhere(s, HasNameIgnoringCase(name))
  }

  /** The first item whose name matches `name` ignoring case, or nothing (Java's null). */
  function ItemByName(s: seq<Item>, name: string): (r: Option<Item>)
    ensures r.Some? <==> exists i :: 0 <= i < |s| && EqualsIgnoreCase(s[i].name, name)
    ensures r.Some? ==> exists i :: 0 <= i < |s| && s[i] == r.value &&
                          EqualsIgnoreCase(s[i].name, name) &&
                          forall j :: 0 <= j < i ==> !EqualsIgnoreCase(s[j].name, name)
  {
    match FirstNamedIgnoringCase(s, name)
    case Some(i) => Some(s[i])
    case None => None
  }

  /** The linear search behind `getItemByName`: scan front to back, stop at the first match. */
  method FindByName(s: seq<Item>, name: string) returns (r: Option<Item>)
    ensures r == ItemByName(s, name)
  {
    var k := 0;
    while k < |s|
      invariant 0 <= k <= |s|
      invariant forall j :: 0 <= j < k ==> !EqualsIgnoreCase(s[j].name, name)
    {
      if EqualsIgnoreCase(s[k].name, name) {
        var f := FirstNamedIgnoringCase(s, name);
        assert f.Some? && !(f.value < k) && !(k < f.value);
        return Some(s[k]);
      }
      k := k + 1;
    }
    return None;
  }

  /** The first exact-name match is fixed by the names alone, so it survives changes to amounts. */
  lemma FirstNamedByNames(s: seq<Item>, t: seq<Item>, name: string)
    requires SameNames(s, t)
    ensures FirstNamed(s, name) == FirstNamed(t, name)
  {
    var a, b := FirstNamed(s, name), FirstNamed(t, name);
    if a.Some? && b.Some? {
      assert !(a.value < b.value) && !(b.value < a.value);
    }
  }

  /** Position `i` holds the first item carrying its name. */
  predicate IsFirstNamed(s: seq<Item>, i: nat)
    requires i < |s|
  {
    forall j :: 0 <= j < i ==> s[j].name != s[i].name
  }

  /** The exact-name lookup of an item's own name finds it iff it is the first with that name. */
  lemma FirstNamedIsFirst(s: seq<Item>, i: nat)
    requires i < |s|
    ensures FirstNamed(s, s[i].name) == Some(i) <==> IsFirstNamed(s, i)
  {
    var r := FirstNamed(s, s[i].name);
    if IsFirstNamed(s, i) {
      assert r.Some?;
      assert !(r.value < i) && !(i < r.value);
    }
  }

  /** Appending an item with another name does not change an exact-name lookup. */
  lemma FirstNamedAppendOther(s: seq<Item>, x: Item, name: string)
    requires x.name != name
    ensures FirstNamed(s + [x], name) == FirstNamed(s, name)
  {
    var a, b := FirstNamed(s + [x], name), FirstNamed(s, name);
    if b.Some? {
      assert (s + [x])[b.value] == s[b.value];
      assert !(a.value < b.value) && !(b.value < a.value);
    }
  }

  /** After appending `x`, a case-insensitive lookup of `x`'s name succeeds,
      and it finds `x` itself unless an earlier item already matched. */
  lemma AppendThenLookUp(s: seq<Item>, x: Item)
    ensures FirstNamedIgnoringCase(s + [x], x.name).Some?
    ensures FirstNamedIgnoringCase(s, x.name).None? ==>
              FirstNamedIgnoringCase(s + [x], x.name) == Some(|s|)
    ensures FirstNamedIgnoringCase(s, x.name).Some? ==>
              FirstNamedIgnoringCase(s + [x], x.name) == FirstNamedIgnoringCase(s, x.name)
    ensures ItemByName(s + [x], x.name).Some?
    ensures ItemByName(s, x.name).None? ==> ItemByName(s + [x], x.name) == Some(x)
  {
    var t := s + [x];
    assert EqualsIgnoreCase(t[|s|].name, x.name);
    var r := FirstNamedIgnoringCase(t, x.name);
    var q := FirstNamedIgnoringCase(s, x.name);
    if q.Some? {
      assert t[q.value] == s[q.value];
      assert !(r.value < q.value) && !(q.value < r.value);
    } else {
      assert forall j :: 0 <= j < |s| ==> t[j] == s[j];
    }
  }

  /** Two item lists that agree position by position on names. */
  predicate SameNames(s: seq<Item>, t: seq<Item>)
  {
    |s| == |t| && forall i :: 0 <= i < |s| ==> s[i].name == t[i].name
  }

  /** No two items share a name (exactly). */
  predicate UniqueNames(s: seq<Item>)
  {
    forall i, j :: 0 <= i < j < |s| ==> s[i].name != s[j].name
  }

  // ----- order cost -----

  /** What one line contributes to an order's cost. */
  function LineCost(it: Item): real
  {
    it.amount as real * it.price
  }

  /** `OrderDto.getOrderCost`: the running total, accumulated front to back. */
  function Cost(items: seq<Item>): real
  {
    if |items| == 0 then 0.0
    else Cost(items[..|items| - 1]) + LineCost(items[|items| - 1])
  }

  /** The mathematical sum of the line costs, as an independent reference. */
  function Sum(items: seq<Item>): real
  {
    if |items| == 0 then 0.0 else LineCost(items[0]) + Sum(items[1..])
  }

  lemma {:induction false} SumAppend(items: seq<Item>, x: Item)
    ensures Sum(items + [x]) == Sum(items) + LineCost(x)
  {
    if |items| > 0 {
      assert (items + [x])[1..] == items[1..] + [x];
      SumAppend(items[1..], x);
    } else {
      assert items + [x] == [x];
    }
  }

  /** The accumulated cost is the sum of amount times price over all lines. */
  lemma {:induction false} CostIsSum(items: seq<Item>)
    ensures Cost(items) == Sum(items)
  {
    if |items| > 0 {
      var init := items[..|items| - 1];
      CostIsSum(init);
      SumAppend(init, items[|items| - 1]);
      assert init + [items[|items| - 1]] == items;
    }
  }

  /** Adding a line adds exactly its amount times price. */
  lemma CostAppend(items: seq<Item>, x: Item)
    ensures Cost(items + [x]) == Cost(items) + LineCost(x)
  {
    assert (items + [x])[..|items|] == items;
  }

  /** The cost is additive over concatenation. */
  lemma {:induction false} CostConcat(a: seq<Item>, b: seq<Item>)
    ensures Cost(a + b) == Cost(a) + Cost(b)
  {
    if |b| > 0 {
      var init := b[..|b| - 1];
      CostConcat(a, init);
      assert (a + b)[..|a + b| - 1] == a + init;
    } else {
      assert a + b == a;
    }
  }

  /** Raising one line's amount by `q` raises the cost by `q` times that line's price. */
  lemma CostAddAmount(items: seq<Item>, k: nat, q: int)
    requires k < |items|
    ensures Cost(items[k := items[k].(amount := items[k].amount + q)]) == Cost(items) + q as real * items[k].price
  {
    var x := items[k];
    var y := x.(amount := x.amount + q);
    assert items == items[..k] + [x] + items[k + 1..];
    assert items[k := y] == items[..k] + [y] + items[k + 1..];
    CostConcat(items[..k] + [x], items[k + 1..]);
    CostConcat(items[..k] + [y], items[k + 1..]);
    CostAppend(items[..k], x);
    CostAppend(items[..k], y);
  }

  /** With no negative amounts or prices, an order never costs less than nothing. */
  lemma {:induction false} CostNonNegative(items: seq<Item>)
    requires forall i :: 0 <= i < |items| ==> items[i].amount >= 0 && items[i].price >= 0.0
    ensures Cost(items) >= 0.0
  {
    if |items| > 0 {
      CostNonNegative(items[..|items| - 1]);
    }
  }
}
