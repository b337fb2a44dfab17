/**
 * The singleton inventory: creation, lazy lookup, and the bulk update that
 * validates every incoming item before overwriting matching names or
 * appending new positive items.
 */
module InventoryService {
  import opened Wrappers
  import opened Seqs
  import opened Items
  import opened Http
  import opened Stores

  // ----- specification of the update rule -----

  /** The effect of one incoming item: overwrite the amount of the first item with
      exactly that name, or append the item when its name is new and its amount positive. */
  function MergeOne(stock: seq<Item>, x: Item): (r: seq<Item>)
    ensures |r| >= |stock|
    ensures forall i :: 0 <= i < |stock| ==>
              r[i] == if FirstNamed(stock, x.name) == Some(i) then stock[i].(amount := x.amount) else stock[i]
    ensures FirstNamed(stock, x.name).Some? ==> |r| == |stock|
    ensures FirstNamed(stock, x.name).None? ==> r == if x.amount > 0 then stock + [x] else stock
  {
    match FirstNamed(stock, x.name)
    case Some(i) => stock[i := stock[i].(amount := x.amount)]
    case None => if x.amount > 0 then stock + [x] else stock
  }

  /** The stock after applying the incoming items in input order. */
  function Merge(stock: seq<Item>, incoming: seq<Item>): seq<Item>
    decreases |incoming|
  {
    if |incoming| == 0 then stock else Merge(MergeOne(stock, incoming[0]), incoming[1..])
  }

  /** The amount of the last incoming item with the given name, or `default` if none has it. */
  function LastAmount(incoming: seq<Item>, name: string, default: int): (r: int)
    ensures (forall j :: 0 <= j < |incoming| ==> incoming[j].name != name) ==> r == default
    decreases |incoming|
  {
    if |incoming| == 0 then default
    else LastAmount(incoming[1..], name, if incoming[0].name == name then incoming[0].amount else default)
  }

  /** True of an incoming item that the update appends: new name, positive amount. */
  function NewPositive(stock: seq<Item>): Item -> bool
  {
    (x: Item) => FirstNamed(stock, x.name).None? && x.amount > 0
  }

  /** Nothing is removed. The first item of each name ends with the amount of the last
      incoming item of that name (or keeps its own); every other existing item is untouched. */
  lemma {:induction false} MergeExisting(stock: seq<Item>, incoming: seq<Item>)
    ensures |Merge(stock, incoming)| >= |stock|
    ensures forall i :: 0 <= i < |stock| ==>
              Merge(stock, incoming)[i] ==
                if IsFirstNamed(stock, i)
                then stock[i].(amount := LastAmount(incoming, stock[i].name, stock[i].amount))
                else stock[i]
    decreases |incoming|
  {
    if |incoming| > 0 {
      var x, rest := incoming[0], incoming[1..];
      var t := MergeOne(stock, x);
      MergeExisting(t, rest);
      forall i | 0 <= i < |stock|
        ensures Merge(stock, incoming)[i] ==
                  if IsFirstNamed(stock, i)
                  then stock[i].(amount := LastAmount(incoming, stock[i].name, stock[i].amount))
                  else stock[i]
      {
        assert IsFirstNamed(t, i) == IsFirstNamed(stock, i);
        FirstNamedIsFirst(stock, i);
      }
    }
  }

  /** Existing items not named by any incoming item keep their amounts. */
  lemma UnnamedUnchanged(stock: seq<Item>, incoming: seq<Item>, i: nat)
    requires i < |stock|
    requires forall j :: 0 <= j < |incoming| ==> incoming[j].name != stock[i].name
    ensures i < |Merge(stock, incoming)| && Merge(stock, incoming)[i] == stock[i]
  {
    MergeExisting(stock, incoming);
  }

  /** With distinct incoming names, what is appended is exactly the incoming items
      whose name is new and whose amount is positive, in input order. */
  lemma {:induction false} MergeAppended(stock: seq<Item>, incoming: seq<Item>)
    requires UniqueNames(incoming)
    ensures |Merge(stock, incoming)| >= |stock|
    ensures Merge(stock, incoming)[|stock|..] == Filter(incoming, NewPositive(stock))
    decreases |incoming|
  {
    MergeExisting(stock, incoming);
    if |incoming| > 0 {
      var x, rest := incoming[0], incoming[1..];
      UniqueTail(incoming);
      MergeAppended(MergeOne(stock, x), rest);
      AppendedStep(stock, x, rest);
    }
  }

  /** The tail of a list of distinct names is distinct, and avoids the head's name. */
  lemma UniqueTail(s: seq<Item>)
    requires UniqueNames(s) && |s| > 0
    ensures UniqueNames(s[1..])
    ensures forall j :: 0 <= j < |s[1..]| ==> s[1..][j].name != s[0].name
  {
    var rest := s[1..];
    forall i, j | 0 <= i < j < |rest| ensures rest[i].name != rest[j].name {
      assert rest[i] == s[i + 1] && rest[j] == s[j + 1];
    }
    forall j | 0 <= j < |rest| ensures rest[j].name != s[0].name {
      assert rest[j] == s[j + 1];
    }
  }

  /** One step of `MergeAppended`: the first incoming item is appended iff it is new
      and positive, and the later items are judged "new" the same way before and after. */
  lemma AppendedStep(stock: seq<Item>, x: Item, rest: seq<Item>)
    requires forall j :: 0 <= j < |rest| ==> rest[j].name != x.name
    requires |Merge(MergeOne(stock, x), rest)| >= |MergeOne(stock, x)|
    requires Merge(MergeOne(stock, x), rest)[|MergeOne(stock, x)|..] == Filter(rest, NewPositive(MergeOne(stock, x)))
    ensures Merge(MergeOne(stock, x), rest)[|stock|..] ==
              (if NewPositive(stock)(x) then [x] else []) + Filter(rest, NewPositive(stock))
  {
    var t := MergeOne(stock, x);
    NewPositiveAgree(stock, x, rest);
    FilterAgree(rest, NewPositive(t), NewPositive(stock));
    if NewPositive(stock)(x) {
      NewHeadKept(stock, x, rest);
    } else {
      assert |t| == |stock|;
    }
  }

  /** A new positive item appended by the first step survives the later steps unchanged. */
  lemma NewHeadKept(stock: seq<Item>, x: Item, rest: seq<Item>)
    requires FirstNamed(stock, x.name).None? && x.amount > 0
    requires forall j :: 0 <= j < |rest| ==> rest[j].name != x.name
    ensures MergeOne(stock, x) == stock + [x]
    ensures |Merge(stock + [x], rest)| > |stock|
    ensures Merge(stock + [x], rest)[|stock|..] == [x] + Merge(stock + [x], rest)[|stock| + 1..]
  {
    var t := stock + [x];
    var m := Merge(t, rest);
    MergeExisting(t, rest);
    assert m[|stock|] == x by {
      assert t[|stock|] == x;
      assert forall j :: 0 <= j < |stock| ==> t[j] == stock[j];
      assert IsFirstNamed(t, |stock|);
      assert LastAmount(rest, x.name, x.amount) == x.amount;
    }
    assert m[|stock|..] == [m[|stock|]] + m[|stock| + 1..];
  }

  /** Applying `x` does not change which later items (with other names) count as new. */
  lemma NewPositiveAgree(stock: seq<Item>, x: Item, rest: seq<Item>)
    requires forall j :: 0 <= j < |rest| ==> rest[j].name != x.name
    ensures forall j :: 0 <= j < |rest| ==>
              NewPositive(MergeOne(stock, x))(rest[j]) == NewPositive(stock)(rest[j])
  {
    var t := MergeOne(stock, x);
    forall j | 0 <= j < |rest|
      ensures FirstNamed(t, rest[j].name) == FirstNamed(stock, rest[j].name)
    {
      if FirstNamed(stock, x.name).Some? {
        FirstNamedByNames(t, stock, rest[j].name);
      } else if x.amount > 0 {
        FirstNamedAppendOther(stock, x, rest[j].name);
      }
    }
  }

  /** The update never makes an amount negative when neither side holds one. */
  lemma {:induction false} MergeNonNegative(stock: seq<Item>, incoming: seq<Item>)
    requires forall i :: 0 <= i < |stock| ==> stock[i].amount >= 0
    requires forall j :: 0 <= j < |incoming| ==> incoming[j].amount >= 0
    ensures forall i :: 0 <= i < |Merge(stock, incoming)| ==> Merge(stock, incoming)[i].amount >= 0
    decreases |incoming|
  {
    if |incoming| > 0 {
      MergeNonNegative(MergeOne(stock, incoming[0]), incoming[1..]);
    }
  }

  /** The update keeps an inventory free of duplicate names. */
  lemma {:induction false} MergeUniqueNames(stock: seq<Item>, incoming: seq<Item>)
    requires UniqueNames(stock)
    ensures UniqueNames(Merge(stock, incoming))
    decreases |incoming|
  {
    if |incoming| > 0 {
      var t := MergeOne(stock, incoming[0]);
      assert UniqueNames(t);
      MergeUniqueNames(t, incoming[1..]);
    }
  }

  /** The last amount over a concatenation: the second part overrides the first. */
  lemma {:induction false} LastAmountConcat(a: seq<Item>, b: seq<Item>, name: string, default: int)
    ensures LastAmount(a + b, name, default) == LastAmount(b, name, LastAmount(a, name, default))
    decreases |a|
  {
    if |a| > 0 {
      assert (a + b)[0] == a[0] && (a + b)[1..] == a[1..] + b;
      LastAmountConcat(a[1..], b, name, if a[0].name == name then a[0].amount else default);
    } else {
      assert a + b == b;
    }
  }

  /** In a list without duplicate names, the last amount for an item's name is its own. */
  lemma LastAmountOwn(s: seq<Item>, i: nat, default: int)
    requires UniqueNames(s) && i < |s|
    ensures LastAmount(s, s[i].name, default) == s[i].amount
  {
    var n := s[i].name;
    assert s == s[..i] + ([s[i]] + s[i + 1..]);
    LastAmountConcat(s[..i], [s[i]] + s[i + 1..], n, default);
    LastAmountConcat([s[i]], s[i + 1..], n, LastAmount(s[..i], n, default));
    assert [s[i]][1..] == [];
    var tail := s[i + 1..];
    forall j | 0 <= j < |tail| ensures tail[j].name != n {
      assert tail[j] == s[i + 1 + j];
    }
  }

  /** Updating a duplicate-free inventory with its own items plus one new positive item
      (what `addItem` sends) appends that item and changes nothing else. */
  lemma MergeSelfPlusNew(s: seq<Item>, x: Item)
    requires UniqueNames(s) && FirstNamed(s, x.name).None? && x.amount > 0
    ensures Merge(s, s + [x]) == s + [x]
  {
    var m := Merge(s, s + [x]);
    SelfPlusNewUnique(s, x);
    SelfPlusNewPrefix(s, x);
    SelfPlusNewSuffix(s, x);
    assert m == m[..|s|] + m[|s|..];
  }

  lemma SelfPlusNewUnique(s: seq<Item>, x: Item)
    requires UniqueNames(s) && FirstNamed(s, x.name).None?
    ensures UniqueNames(s + [x])
  {
    var inc := s + [x];
    forall i, j | 0 <= i < j < |inc| ensures inc[i].name != inc[j].name {
      assert inc[i] == s[i];
      if j < |s| {
        assert inc[j] == s[j];
      }
    }
  }

  lemma SelfPlusNewPrefix(s: seq<Item>, x: Item)
    requires UniqueNames(s + [x])
    ensures |Merge(s, s + [x])| >= |s| && Merge(s, s + [x])[..|s|] == s
  {
    var inc := s + [x];
    MergeExisting(s, inc);
    var m := Merge(s, inc);
    forall i | 0 <= i < |s| ensures m[i] == s[i] {
      assert inc[i] == s[i];
      assert IsFirstNamed(s, i) by {
        forall j | 0 <= j < i ensures s[j].name != s[i].name {
          assert inc[j] == s[j];
        }
      }
      LastAmountOwn(inc, i, s[i].amount);
    }
  }

  lemma SelfPlusNewSuffix(s: seq<Item>, x: Item)
    requires UniqueNames(s + [x]) && FirstNamed(s, x.name).None? && x.amount > 0
    ensures |Merge(s, s + [x])| >= |s| && Merge(s, s + [x])[|s|..] == [x]
  {
    MergeAppended(s, s + [x]);
    FilterConcat(s, [x], NewPositive(s));
    forall i | 0 <= i < |s| ensures !NewPositive(s)(s[i]) {
      assert FirstNamed(s, s[i].name).Some?;
    }
    FilterNone(s, NewPositive(s));
    assert [x][1..] == [];
  }

  /** Coffee 300, updated with Coffee 500 and Salt 200, becomes Coffee 500 and Salt 200. */
  lemma CoffeeAndSalt()
    ensures Merge([Item("Coffee", 300, 1.0)], [Item("Coffee", 500, 1.0), Item("Salt", 200, 1.0)])
         == [Item("Coffee", 500, 1.0), Item("Salt", 200, 1.0)]
  {
    var s := [Item("Coffee", 300, 1.0)];
    assert FirstNamed(s, "Coffee") == Some(0);
    var s1 := [Item("Coffee", 500, 1.0)];
    assert s1[0].name != "Salt";
    var inc := [Item("Coffee", 500, 1.0), Item("Salt", 200, 1.0)];
    assert inc[1..][1..] == [];
  }

  // ----- the service operations -----

  /** `createInventory`: a null inventory is rejected; otherwise it is saved as a new row. */
  method CreateInventory(repo: InventoryRepository, dto: Option<seq<Item>>) returns (r: Result<seq<Item>, Error>)
    modifies repo
    ensures dto.None? ==> r == Failure(IllegalArgument) && repo.rows == old(repo.rows)
    ensures dto.Some? ==> r == Success(dto.value) && repo.rows == old(repo.rows) + [dto.value]
  {
    if dto.None? {
      return Failure(IllegalArgument);
    }
    repo.Insert(dto.value);
    return Success(dto.value);
  }

  /** `getInventory`: creates an empty inventory when none exists, else returns the first one.
      A second call never creates another row. */
  method GetInventory(repo: InventoryRepository) returns (inv: seq<Item>)
    modifies repo
    ensures old(repo.rows) == [] ==> inv == [] && repo.rows == [[]]
    ensures old(repo.rows) != [] ==> inv == old(repo.rows)[0] && repo.rows == old(repo.rows)
    ensures |repo.rows| >= 1 && inv == repo.rows[0]
  {
    if |repo.rows| == 0 {
      var created := CreateInventory(repo, Some([]));
      return created.value;
    }
    return repo.rows[0];
  }

  /** `updateInventory`: fails without an inventory; fails, changing nothing, if any incoming
      amount is negative; otherwise applies `Merge` to the first row and saves it. */
  method UpdateInventory(repo: InventoryRepository, incoming: seq<Item>) returns (r: Result<seq<Item>, Error>)
    modifies repo
    ensures old(repo.rows) == [] ==> r == Failure(InventoryNotFound) && repo.rows == old(repo.rows)
    ensures old(repo.rows) != [] && (exists j :: 0 <= j < |incoming| && incoming[j].amount < 0) ==>
              r == Failure(IllegalArgument) && repo.rows == old(repo.rows)
    ensures old(repo.rows) != [] && (forall j :: 0 <= j < |incoming| ==> incoming[j].amount >= 0) ==>
              r == Success(Merge(old(repo.rows)[0], incoming)) &&
              repo.rows == old(repo.rows)[0 := Merge(old(repo.rows)[0], incoming)]
  {
    if |repo.rows| == 0 {
      return Failure(InventoryNotFound);
    }
    var k := 0;
    while k < |incoming|
      invariant 0 <= k <= |incoming|
      invariant forall j :: 0 <= j < k ==> incoming[j].amount >= 0
    {
      if incoming[k].amount < 0 {
        return Failure(IllegalArgument);
      }
      k := k + 1;
    }
    var cur := repo.rows[0];
    k := 0;
    while k < |incoming|
      invariant 0 <= k <= |incoming|
      invariant Merge(cur, incoming[k..]) == Merge(repo.rows[0], incoming)
    {
      assert incoming[k..][1..] == incoming[k + 1..];
      var x := incoming[k];
      match FirstNamed(cur, x.name) {
        case Some(i) =>
          cur := cur[i := cur[i].(amount := x.amount)];
        case None =>
          if x.amount > 0 {
            cur := cur + [x];
          }
      }
      k := k + 1;
    }
    repo.Save(cur);
    return Success(cur);
  }
}
