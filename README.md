# WolfCafe backend core, modelled in Dafny

WolfCafe is a café ordering backend. Customers build an order of named items
(amount and unit price each). They pay for the order, which checks and
decrements a single shared inventory. Staff then fulfil the order and the
customer picks it up. Orders move ACTIVE → PURCHASED → FULFILLED →
PICKED_UP. A small account directory holds customers, staff and marketers.

This project models:

- the order, inventory and make-order services;
- the order and inventory data-transfer objects and the inventory entity;
- the decision logic of the order, make-order and inventory controllers;
- the account directory service.

The JPA repositories become small classes over sequences. These are
`Stores.InventoryRepository`, `Stores.OrderRepository` and
`AuthService.UserRepository`, each keeping its rows in `findAll` order. An
exception that a controller does not catch becomes `Http.Response.Raised(error)`.

Files:

- `wrappers.dfy`: `Option`, `Result`, `Outcome`.
- `seqs.dfy`: the stream operations used throughout: find-first, filter, `List.remove`.
- `items.dfy`: items, orders and statuses; exact and ASCII case-insensitive name lookup; order cost.
- `http.dfy`: HTTP statuses, service errors, controller responses.
- `stores.dfy`: the inventory and order tables.
- `inventory_entity.dfy`, `inventory_dto.dfy`, `order_dto.dfy`: the classes whose methods update their item lists in place.
- `inventory_service.dfy`: inventory creation, lazy retrieval, and the update merge (`Merge`, with its lemmas).
- `make_order_service.dfy`: the in-place stock check (`EnoughItems`, specified by `Consume`), `makeOrder`, and the fulfil and pick-up transitions.
- `order_service.dfy`: lookups, activation, create, update, delete, purchase, history, adding quantity to the active order.
- `order_controller.dfy`, `make_order_controller.dfy`, `inventory_controller.dfy`: the endpoints' answers.
- `auth_service.dfy`: adding staff and marketers, partial edits, registration, the role reported at login, deletion.

Where the design description and the code differ, the model follows the code:

- `createOrder` does not deactivate an earlier ACTIVE order. Only `setActiveOrder` does, by forcing that order to PICKED_UP. `OrderService.CreateCanAddSecondActive` shows that creating an ACTIVE order in a store that already holds one leaves two ACTIVE orders, and `OrderService.CreateOrder` promises the same of the store it produces.
- `makeOrder` does not set the order to PURCHASED. It only checks and saves the inventory. The status change is `purchaseOrder`'s job.
- The design calls for a case-insensitive name match. `getItemByName` does ignore case, but the stock check compares names exactly (`MakeOrderService.CaseSensitiveMatch`).
- The stock check decrements the in-memory inventory as it goes. A failed check therefore leaves a partly used copy. `makeOrder` saves that copy only on success, so the stored inventory is all-or-nothing.
- `purchaseOrder` in the service compares the payment with the cost times the tax rate. The controller compares it with the pre-tax cost. `OrderController.TaxGapConflict` shows that a payment between the two gets a conflict.

## Model

| member | source | states |
|---|---|---|
| Items.FirstNamed | journal-backend/src/main/java/service/impl/InventoryServiceImpl.java:160-161 | the index of the first item whose name equals the given one exactly; none exactly when no item has that name |
| Items.FirstNamedIgnoringCase | journal-backend/src/main/java/service/impl/OrderServiceImpl.java:424-425 | the index of the first item whose name matches ignoring ASCII case; none exactly when none matches |
| Items.ItemByName | journal-backend/src/main/java/entity/Inventory.java:140-149 | an item is returned iff some item matches ignoring case, and it is the first such item; otherwise none (null) |
| Items.FindByName | journal-backend/src/main/java/dto/InventoryDto.java:111-120 | the front-to-back scan returns exactly `ItemByName` |
| Items.FirstNamedIsFirst | journal-backend/src/main/java/service/impl/InventoryServiceImpl.java:160-164 | looking up an item's own name finds its position iff no earlier item carries that name |
| Items.FirstNamedAppendOther | journal-backend/src/main/java/service/impl/InventoryServiceImpl.java:166-170 | appending an item with a different name leaves an exact-name lookup unchanged |
| Items.FirstNamedByNames | journal-backend/src/main/java/service/impl/InventoryServiceImpl.java:163-165 | lists with the same names position by position give the same exact-name lookups, whatever the amounts |
| Items.AppendThenLookUp | journal-backend/src/main/java/dto/InventoryDto.java:86-90 | after adding an item, looking up its name finds an item, and finds the added item when none matched before |
| Items.Cost | journal-backend/src/main/java/dto/OrderDto.java:176-182 | the reference definition of `getOrderCost` (running total, front to back); its properties are `Items.CostIsSum`, `Items.CostConcat`, `Items.CostAddAmount` and `Items.CostNonNegative` |
| Items.CostIsSum | journal-backend/src/main/java/dto/OrderDto.java:176-182 | the running total of `getOrderCost` equals the sum of amount times price over the lines |
| Items.CostAppend | journal-backend/src/main/java/dto/OrderDto.java:137-143 | adding a line adds exactly its amount times price to the cost |
| Items.CostConcat | journal-backend/src/main/java/dto/OrderDto.java:176-182 | the cost of two lists placed together is the sum of their costs |
| Items.CostNonNegative | journal-backend/src/main/java/dto/OrderDto.java:176-182 | with no negative amounts or prices the cost is not negative |
| Items.CostAddAmount | journal-backend/src/main/java/service/impl/OrderServiceImpl.java:427-431 | raising one line's amount by q raises the order's cost by q times that line's price |
| Stores.SavedRows | journal-backend/src/main/java/service/impl/InventoryServiceImpl.java:143-148 | saving the singleton inventory replaces the first row, or creates it when the table is empty, and keeps all other rows |
| Stores.InventoryRepository.Insert | journal-backend/src/main/java/service/impl/InventoryServiceImpl.java:50 | saving a new inventory adds a row at the end |
| Stores.InventoryRepository.Save | journal-backend/src/main/java/service/impl/InventoryServiceImpl.java:173 | the table becomes `SavedRows` of the old table |
| Stores.IndexOfId | journal-backend/src/main/java/service/impl/MakeOrderServiceImpl.java:96-97 | the position of an order with that id; none exactly when no order has it |
| Stores.IndexOfIdUnique | journal-backend/src/main/java/service/impl/OrderServiceImpl.java:119-120 | with unique ids, the lookup of an order's id finds that very order |
| Stores.OrderRepository.Insert | journal-backend/src/main/java/service/impl/OrderServiceImpl.java:68 | a new order receives the next, unused id and is appended; ids stay unique and below the counter |
| Stores.OrderRepository.Save | journal-backend/src/main/java/service/impl/OrderServiceImpl.java:309 | saving an existing order replaces exactly the row with its id |
| Stores.OrderRepository.Delete | journal-backend/src/main/java/service/impl/OrderServiceImpl.java:327 | deleting removes that row and keeps the others in order |
| InventoryEntity.Inventory.constructor | journal-backend/src/main/java/entity/Inventory.java:34-36 | a new inventory has no id and an empty item list |
| InventoryEntity.Inventory.WithId | journal-backend/src/main/java/entity/Inventory.java:45-47 | the inventory has the given id and an empty item list |
| InventoryEntity.Inventory.WithItems | journal-backend/src/main/java/entity/Inventory.java:55-58 | the inventory has the given id, and the given list, or an empty one for null |
| InventoryEntity.Inventory.SetItems | journal-backend/src/main/java/entity/Inventory.java:98-106 | the list is replaced by the given one, null included; the id is kept |
| InventoryEntity.Inventory.AddItemToInventory | journal-backend/src/main/java/entity/Inventory.java:114-118 | the item is appended; a null list is left as it is |
| InventoryEntity.Inventory.RemoveItemFromInventory | journal-backend/src/main/java/entity/Inventory.java:126-131 | the first equal item is removed, if any |
| InventoryEntity.Inventory.GetItemByName | journal-backend/src/main/java/entity/Inventory.java:140-149 | null for a null list; otherwise `ItemByName` of the list, the first item matching ignoring case |
| InventoryDtos.InventoryDto.constructor | journal-backend/src/main/java/dto/InventoryDto.java:18-20 | a new transfer object has no id and an empty item list |
| InventoryDtos.InventoryDto.WithItems | journal-backend/src/main/java/dto/InventoryDto.java:30-33 | the given id and list, an empty list for null |
| InventoryDtos.InventoryDto.SetItems | journal-backend/src/main/java/dto/InventoryDto.java:69-78 | the list is replaced by the given one, null included |
| InventoryDtos.InventoryDto.AddItemToInventory | journal-backend/src/main/java/dto/InventoryDto.java:86-90 | the item is appended; a null list is left as it is |
| InventoryDtos.InventoryDto.RemoveItemFromInventory | journal-backend/src/main/java/dto/InventoryDto.java:98-102 | the first equal item is removed, if any |
| InventoryDtos.InventoryDto.GetItemByName | journal-backend/src/main/java/dto/InventoryDto.java:111-120 | null for a null list; otherwise the first item matching ignoring case |
| OrderDtos.OrderDto.constructor | journal-backend/src/main/java/dto/OrderDto.java:34-37 | a new order has no id or name, no items and status ACTIVE |
| OrderDtos.OrderDto.WithName | journal-backend/src/main/java/dto/OrderDto.java:49-55 | the given id and name, no items, status ACTIVE |
| OrderDtos.OrderDto.WithAll | journal-backend/src/main/java/dto/OrderDto.java:71-76 | the given fields, with an empty list for null items |
| OrderDtos.OrderDto.AddItem | journal-backend/src/main/java/dto/OrderDto.java:137-143 | the item is appended, the cost grows by its line cost, and the other fields are kept |
| OrderDtos.OrderDto.SetItems | journal-backend/src/main/java/dto/OrderDto.java:160-168 | the list becomes the given one, or empty for null |
| OrderDtos.OrderDto.RemoveItem | journal-backend/src/main/java/dto/OrderDto.java:190-192 | the first equal item is removed: the multiset loses exactly one copy when present |
| OrderDtos.OrderDto.GetOrderCost | journal-backend/src/main/java/dto/OrderDto.java:176-182 | the loop returns `Cost` of the items, equal to the sum of line costs, and 0 for no items |
| InventoryService.Merge | journal-backend/src/main/java/service/impl/InventoryServiceImpl.java:159-172 | the reference definition of the update rule (`MergeOne` for each incoming item in input order); its properties are `InventoryService.MergeExisting`, `MergeAppended`, `MergeNonNegative` and `MergeUniqueNames` |
| InventoryService.MergeOne | journal-backend/src/main/java/service/impl/InventoryServiceImpl.java:160-171 | one incoming item sets the amount of the first item with its exact name, or is appended when new and positive, or is dropped |
| InventoryService.LastAmount | journal-backend/src/main/java/service/impl/InventoryServiceImpl.java:159-172 | the amount the last incoming item of a name carries, or the default when the name is absent |
| InventoryService.MergeExisting | journal-backend/src/main/java/service/impl/InventoryServiceImpl.java:163-165 | after an update, every old item keeps its place; the first of each name gets the last incoming amount for it, and others are unchanged |
| InventoryService.UnnamedUnchanged | journal-backend/src/main/java/service/impl/InventoryServiceImpl.java:159-172 | an old item whose name no incoming item carries is left unchanged |
| InventoryService.MergeAppended | journal-backend/src/main/java/service/impl/InventoryServiceImpl.java:166-170 | with distinct incoming names, what the update appends is the positive incoming items with new names, in order |
| InventoryService.MergeNonNegative | journal-backend/src/main/java/service/impl/InventoryServiceImpl.java:151-156 | with no negative amounts in the stock or the update, none appear after it |
| InventoryService.MergeUniqueNames | journal-backend/src/main/java/service/impl/InventoryServiceImpl.java:166-170 | an update keeps a stock with distinct names free of duplicates |
| InventoryService.MergeSelfPlusNew | journal-backend/src/main/java/controller/InventoryController.java:126-130 | updating a duplicate-free stock with itself plus one new positive item yields the stock with that item appended |
| InventoryService.CoffeeAndSalt | journal-backend/src/test/java/service/InventoryServiceTest.java:82-106 | Coffee 300 updated with Coffee 500 and Salt 200 gives Coffee 500 and Salt 200 |
| InventoryService.CreateInventory | journal-backend/src/main/java/service/impl/InventoryServiceImpl.java:41-53 | a null inventory is an illegal argument; otherwise it is saved as a new row and returned |
| InventoryService.GetInventory | journal-backend/src/main/java/service/impl/InventoryServiceImpl.java:61-76 | with no inventory, one empty inventory is created and returned; otherwise the first row is returned and nothing changes |
| InventoryService.UpdateInventory | journal-backend/src/main/java/service/impl/InventoryServiceImpl.java:103-175 | no inventory or a negative amount fails with nothing changed; otherwise the first row becomes `Merge` of it with the incoming items |
| MakeOrderService.Consume | journal-backend/src/main/java/service/impl/MakeOrderServiceImpl.java:74-90 | the reference definition of the stock check (first exact-name item per line, decrement or stop with false); its properties are `MakeOrderService.ConsumeShape`, `ConsumeEnoughIff` and `ConsumeStock` |
| MakeOrderService.ConsumeShape | journal-backend/src/main/java/service/impl/MakeOrderServiceImpl.java:74-84 | the stock check only changes amounts: length, names and prices are kept, and non-negative stock stays non-negative |
| MakeOrderService.ConsumeEnoughIff | journal-backend/src/main/java/service/impl/MakeOrderServiceImpl.java:71-91 | the check succeeds iff every order line's name is in stock and the first item of that name covers the line after the earlier lines' decrements |
| MakeOrderService.ConsumeStock | journal-backend/src/main/java/service/impl/MakeOrderServiceImpl.java:78-80 | on success, the first item of each name has lost exactly the order's total demand for it; other items are unchanged |
| MakeOrderService.FailureIgnoresRest | journal-backend/src/main/java/service/impl/MakeOrderServiceImpl.java:85-88 | a failed check ends the scan: later order lines do not affect the outcome or the stock |
| MakeOrderService.CaseSensitiveMatch | journal-backend/src/main/java/service/impl/MakeOrderServiceImpl.java:77 | an order line "coffee" is not served from stock "Coffee" |
| MakeOrderService.CoffeeStock | journal-backend/src/test/java/service/MakeOrderServiceTest.java:95-165 | ten coffees cover an order of five, leaving five; they do not cover fifteen, and the stock is untouched |
| MakeOrderService.EnoughItems | journal-backend/src/main/java/service/impl/MakeOrderServiceImpl.java:71-91 | the nested loop's verdict and its in-place decrements are exactly `Consume` of the old list |
| MakeOrderService.MakeOrder | journal-backend/src/main/java/service/impl/MakeOrderServiceImpl.java:48-59 | the result is the stock check's verdict; the decremented copy is saved only on success, and the order is unchanged |
| MakeOrderService.Transitioned | journal-backend/src/main/java/service/impl/MakeOrderServiceImpl.java:100-104 | only the order with that id, and only when it is in the source status, moves to the target status; nothing else changes |
| MakeOrderService.TransitionedTarget | journal-backend/src/main/java/service/impl/MakeOrderServiceImpl.java:115-119 | with unique ids, the target moves exactly when it is in the source status |
| MakeOrderService.LifecycleInOrder | journal-backend/src/main/java/service/impl/MakeOrderServiceImpl.java:94-121 | a purchased order, fulfilled and then picked up, ends PICKED_UP; picking up a purchased order does nothing |
| MakeOrderService.FulfillOrder | journal-backend/src/main/java/service/impl/MakeOrderServiceImpl.java:94-106 | an unknown id is not found; otherwise true and FULFILLED exactly when it was PURCHASED, false and unchanged otherwise |
| MakeOrderService.PickupOrder | journal-backend/src/main/java/service/impl/MakeOrderServiceImpl.java:109-121 | an unknown id is not found; otherwise true and PICKED_UP exactly when it was FULFILLED, false and unchanged otherwise |
| MakeOrderService.Advance | journal-backend/src/main/java/service/impl/MakeOrderServiceImpl.java:96-103 | the shared find, check and save: the store becomes `Transitioned` of the old store |
| MakeOrderService.GetOrdersToFulfill | journal-backend/src/main/java/service/impl/MakeOrderServiceImpl.java:124-128 | exactly the PURCHASED orders |
| MakeOrderService.GetFulfilledOrders | journal-backend/src/main/java/service/impl/MakeOrderServiceImpl.java:131-136 | exactly the FULFILLED orders |
| MakeOrderService.ToFulfillKeepsOrder | journal-backend/src/main/java/service/impl/MakeOrderServiceImpl.java:124-128 | the to-fulfil list keeps store order: the list of two stores in a row is the two lists in a row |
| MakeOrderService.ToFulfillCounts | journal-backend/src/main/java/service/impl/MakeOrderServiceImpl.java:124-128 | each PURCHASED order appears as often as in the store, every other order not at all |
| MakeOrderService.FulfilledKeepsOrder | journal-backend/src/main/java/service/impl/MakeOrderServiceImpl.java:131-136 | the fulfilled list keeps store order |
| MakeOrderService.FulfilledCounts | journal-backend/src/main/java/service/impl/MakeOrderServiceImpl.java:131-136 | each FULFILLED order appears as often as in the store, every other order not at all |
| MakeOrderService.FulfillMovesBetweenLists | journal-backend/src/main/java/service/impl/MakeOrderServiceImpl.java:100-102 | fulfilling a purchased order takes it off the to-fulfil list and puts it on the fulfilled list |
| OrderService.GetOrderById | journal-backend/src/main/java/service/impl/OrderServiceImpl.java:116-123 | the order with that id, or not found exactly when no order has it |
| OrderService.GetOrderByName | journal-backend/src/main/java/service/impl/OrderServiceImpl.java:137-142 | an order with exactly that name, or not found exactly when none has it |
| OrderService.IsDuplicateName | journal-backend/src/main/java/service/impl/OrderServiceImpl.java:152-164 | true iff some stored order has exactly that name |
| OrderService.FirstActive | journal-backend/src/main/java/service/impl/OrderServiceImpl.java:340-341 | the position of the first ACTIVE order; none exactly when no order is ACTIVE |
| OrderService.GetActiveOrder | journal-backend/src/main/java/service/impl/OrderServiceImpl.java:331-345 | the first ACTIVE order in store order, or not found exactly when none is ACTIVE (the empty store included) |
| OrderService.OrderHistory | journal-backend/src/main/java/service/impl/OrderServiceImpl.java:400-411 | exactly the orders that are not ACTIVE |
| OrderService.HistoryKeepsOrder | journal-backend/src/main/java/service/impl/OrderServiceImpl.java:405-406 | the history keeps store order: the history of two stores placed together is the two histories placed together |
| OrderService.HistoryCounts | journal-backend/src/main/java/service/impl/OrderServiceImpl.java:405-406 | each non-ACTIVE order appears in the history as often as in the store; an ACTIVE one never does |
| OrderService.Demoted | journal-backend/src/main/java/service/impl/OrderServiceImpl.java:81-92 | the first ACTIVE order (if any) becomes PICKED_UP; every other order and every id is kept |
| OrderService.ActivationEffect | journal-backend/src/main/java/service/impl/OrderServiceImpl.java:81-102 | after activation the target is ACTIVE, the earlier active order is PICKED_UP, nothing else changes, and with at most one ACTIVE order before, the target is the only one after |
| OrderService.ActivationByIdFindsTarget | journal-backend/src/main/java/service/impl/OrderServiceImpl.java:95-96 | with unique ids, the lookup after demotion still finds the target |
| OrderService.SetActiveOrder | journal-backend/src/main/java/service/impl/OrderServiceImpl.java:79-104 | the demotion is saved first; an unknown id is then not found with the demotion kept; otherwise the target becomes ACTIVE, and when the store held at most one ACTIVE order the target is afterwards the only one |
| OrderService.CheckItems | journal-backend/src/main/java/service/impl/OrderServiceImpl.java:50-60 | a null or empty list, or a non-positive amount, is an illegal argument; otherwise the items pass |
| OrderService.CreateOrder | journal-backend/src/main/java/service/impl/OrderServiceImpl.java:45-76 | invalid items fail with nothing saved; otherwise one order with a fresh id and the given name, items and status is appended; creating an ACTIVE order beside an existing one leaves two ACTIVE orders |
| OrderService.CreateCanAddSecondActive | journal-backend/src/main/java/service/impl/OrderServiceImpl.java:63-68 | appending an ACTIVE order to a store that already holds an ACTIVE order breaks "at most one ACTIVE order" |
| OrderService.UpdateOrder | journal-backend/src/main/java/service/impl/OrderServiceImpl.java:193-311 | an unknown id is not found first; then invalid items fail; otherwise the row gets the new name, items and status under the same id |
| OrderService.DeleteOrder | journal-backend/src/main/java/service/impl/OrderServiceImpl.java:322-328 | an unknown id is not found; otherwise that row is removed |
| OrderService.PurchaseOrder | journal-backend/src/main/java/service/impl/OrderServiceImpl.java:348-392 | no active order is not found; a payment below cost times tax rate is false with nothing changed; otherwise that order becomes PURCHASED |
| OrderService.AddItemToActiveOrder | journal-backend/src/main/java/service/impl/OrderServiceImpl.java:414-442 | a non-positive quantity is illegal; no active order is not found; otherwise the first line matching ignoring case gains the quantity, or the call is illegal when none matches |
| OrderController.CreateOrder | journal-backend/src/main/java/controller/OrderController.java:101-134 | a duplicate name is a conflict, checked before the cap of three orders (insufficient storage); both change nothing; otherwise created, or a bad request for invalid items; the store never grows past three |
| OrderController.UpdateOrder | journal-backend/src/main/java/controller/OrderController.java:180-194 | an empty list or a non-positive amount is a conflict without calling the service; then an unknown id escapes as not found; otherwise OK with the replaced order |
| OrderController.PurchaseResponse | journal-backend/src/main/java/controller/OrderController.java:220-248 | OK iff the payment covers the pre-tax cost and the purchase went through, with change paid minus cost, never negative; a conflict otherwise |
| OrderController.TaxGapConflict | journal-backend/src/main/java/controller/OrderController.java:220-238 | with a tax rate above 1, a payment covering the cost but not the taxed total is a conflict |
| OrderController.PurchaseOrder | journal-backend/src/main/java/controller/OrderController.java:205-254 | an unparsable amount is a bad request; no active order escapes; under the cost is a conflict; otherwise the service decides, and the store changes only on success |
| OrderController.GetOrderHistory | journal-backend/src/main/java/controller/OrderController.java:263-277 | the history, answered with no content exactly when every order is ACTIVE, and OK otherwise |
| MakeOrderController.Change | journal-backend/src/main/java/controller/MakeOrderController.java:89-108 | the payment minus the cost when the payment covers it and the stock check succeeded, the payment otherwise; between 0 and the payment for a non-negative cost |
| MakeOrderController.ShortPaymentIgnoresStock | journal-backend/src/main/java/controller/MakeOrderController.java:93-106 | under the cost the stock verdict does not matter: the whole payment comes back |
| MakeOrderController.MakeOrderResponse | journal-backend/src/main/java/controller/MakeOrderController.java:56-77 | an unparsable amount is a bad request with no body; an unknown name escapes; OK iff paid covers a non-zero cost and the order was made; a conflict iff the payment is short; otherwise a bad request echoing the payment |
| MakeOrderController.ZeroCostIsBadRequest | journal-backend/src/test/java/controller/MakeOrderControllerTest.java:140-159 | an order that costs nothing and is made is still answered as a bad request |
| MakeOrderController.InsufficientStockIsBadRequest | journal-backend/src/test/java/controller/MakeOrderControllerTest.java:172-189 | a covered payment the stock cannot serve comes back in full as a bad request |
| MakeOrderController.TransitionResponse | journal-backend/src/main/java/controller/MakeOrderController.java:133-172 | OK iff the transition returned true, a conflict iff it returned false, and an unknown id escapes |
| InventoryController.RowsAfterGet | journal-backend/src/main/java/service/impl/InventoryServiceImpl.java:63-75 | the table after `getInventory`: unchanged, or a single empty row, and its first row is the current stock |
| InventoryController.UpdateInventory | journal-backend/src/main/java/controller/InventoryController.java:71-92 | a null list or a non-positive amount is a conflict and the service is not called; otherwise OK with the merged stock, or not found without an inventory |
| InventoryController.AddItem | journal-backend/src/main/java/controller/InventoryController.java:103-134 | a non-positive amount is a conflict with nothing changed; a name already in stock is a conflict; otherwise OK, and a duplicate-free stock gains exactly the item at its end |
| AuthService.FindByUsername | journal-backend/src/main/java/service/impl/AuthServiceImpl.java:150-151 | an account with that username; none exactly when no account has it |
| AuthService.FindByUsernameOrEmail | journal-backend/src/main/java/service/impl/AuthServiceImpl.java:200-201 | an account matching the username or the email; none exactly when no account matches either |
| AuthService.ExistsByUsername | journal-backend/src/main/java/service/impl/AuthServiceImpl.java:83 | true iff some account has that username |
| AuthService.ExistsByEmail | journal-backend/src/main/java/service/impl/AuthServiceImpl.java:88 | true iff some account has that email |
| AuthService.UserRepository.Insert | journal-backend/src/main/java/service/impl/AuthServiceImpl.java:106 | saving a new user appends it |
| AuthService.UserRepository.Update | journal-backend/src/main/java/service/impl/AuthServiceImpl.java:184 | saving a loaded user replaces its row |
| AuthService.UserRepository.DeleteByUsername | journal-backend/src/main/java/service/impl/AuthServiceImpl.java:321 | every row with that username is removed, the rest kept in order |
| AuthService.AppendFreshKeepsUnique | journal-backend/src/main/java/service/impl/AuthServiceImpl.java:83-106 | adding an account whose username and email are both unused keeps usernames and emails unique |
| AuthService.AddAccount | journal-backend/src/main/java/service/impl/AuthServiceImpl.java:80-109 | a taken username fails first, then a taken email, with nothing changed; otherwise one account with the encoded temporary password and the single given role is appended; uniqueness is kept |
| AuthService.AddStaff | journal-backend/src/main/java/service/impl/AuthServiceImpl.java:80-109 | as `AddAccount`, with the single role ROLE_STAFF |
| AuthService.AddMarketer | journal-backend/src/main/java/service/impl/AuthServiceImpl.java:112-141 | as `AddAccount`, with the single role ROLE_MARKETER |
| AuthService.EditError | journal-backend/src/main/java/service/impl/AuthServiceImpl.java:154-171 | a new, different username already in use is an error, checked before a new, different email already in use |
| AuthService.Edited | journal-backend/src/main/java/service/impl/AuthServiceImpl.java:154-181 | each field is replaced only when a non-empty value is supplied (and, for username and email, differs); the password is encoded; roles are kept |
| AuthService.EditNothingIsIdentity | journal-backend/src/main/java/service/impl/AuthServiceImpl.java:174-181 | an edit that supplies nothing leaves the account as it was |
| AuthService.EditKeepsUnique | journal-backend/src/main/java/service/impl/AuthServiceImpl.java:154-171 | an edit that passes the checks keeps usernames and emails unique |
| AuthService.EditUser | journal-backend/src/main/java/service/impl/AuthServiceImpl.java:147-187 | an unknown username is not found; a check failure is an error; in these cases nothing is saved; otherwise the row becomes `Edited`, and uniqueness is kept |
| AuthService.RegisterChecksCannotFail | journal-backend/src/main/java/service/impl/AuthServiceImpl.java:219-226 | when no account matches the username or email, neither is taken, so the later duplicate checks never fail |
| AuthService.Register | journal-backend/src/main/java/service/impl/AuthServiceImpl.java:197-241 | an account matching username or email gets the new name and encoded password and no account is added; otherwise one customer account is appended; uniqueness is kept |
| AuthService.Login | journal-backend/src/main/java/service/impl/AuthServiceImpl.java:256-292 | "sahitiT" reports ROLE_ADMIN and "ST" ROLE_STAFF, each with its roles replaced by that one; any other account reports one of its roles, or ROLE_CUSTOMER if it has none, unchanged; no match reports ROLE_CUSTOMER |
| AuthService.DeleteRemovesOnlyThatUser | journal-backend/src/main/java/service/impl/AuthServiceImpl.java:321 | with unique accounts, deleting by an account's username removes exactly that account |
| AuthService.RemovalKeepsUnique | journal-backend/src/main/java/service/impl/AuthServiceImpl.java:312-321 | removing one account keeps usernames and emails unique |
| AuthService.DeleteUserByUsername | journal-backend/src/main/java/service/impl/AuthServiceImpl.java:312-322 | an unknown username is not found with nothing changed; otherwise the rows with that username go, which with unique accounts is exactly that one |

## Left out

- Authentication and tokens: the `AuthenticationManager` call, JWT creation and the security context are not modelled. `Login` assumes the credentials were accepted.
- HTTP transport: role gates, CORS and the global exception handler are not modelled. An uncaught service exception is shown as `Raised(error)` rather than the status the handler maps it to.
- Response message texts: these are not modelled. A purchase answer carries the change as a number instead of the formatted message.
- Read-only endpoints: `getOrders`/`getAllOrders`, `getOrder`, `getActiveOrder`, `deleteOrder`, `getInventory`, `updateItemQuantity`, the user listings and `isUserAdmin`/`isUserAdminOrStaff` are not modelled. They only read, or forward to a modelled operation.
- Money: money is `real`, not floating point. Rounding and Java's `Double.equals` are not modelled.
- Tax rate: the tax service is not part of this model. Its rate is a parameter of `OrderService.PurchaseOrder`.
- Password encoder: it is a function parameter.
- Lookup by name: `findByName`, `findByUsername` and `findByUsernameOrEmail` are derived queries. With several matches they would fail; the model takes the first match in table order.
- Names and statuses: null names and null statuses are not modelled. A string is always present.
- Item equality: `Item.java` is not part of this model. Items are compared by value (name, amount, price) for `List.remove`.
- Case folding: `equalsIgnoreCase` folds ASCII letters only.
- Inventory ids beyond the row position, and the object mapping (`ModelMapper`), are not modelled.
- OrderService.CreateOrder: it does not model ModelMapper copying a client-supplied id into the new order. The store always assigns a fresh id.
- OrderService.AddItemToActiveOrder: it does not model 32-bit wrap-around of amount plus quantity. Amounts are unbounded integers.
- InventoryEntity.Inventory.SetItems: it does not model the aliasing between the stored list and the caller's list. Lists are values.
- InventoryDtos.InventoryDto.SetItems: it does not model aliasing between the stored list and the caller's list either.
- MakeOrderService.EnoughItems: it requires a non-null item list, which the mapped inventory always has. Java would throw on null.
- MakeOrderService.MakeOrder: it requires a non-null item list, for the same reason.
- InventoryService.UpdateInventory: it takes a non-null list. A null list would throw in Java before any change.
- InventoryController.UpdateInventory: its conflict answer for a null list carries no body, where Java echoes the transfer object.
- AuthService.Register: it omits the two duplicate checks after a failed lookup, because they cannot fail (`AuthService.RegisterChecksCannotFail`).
- AuthService.DeleteUserByUsername: clearing the roles before deletion has no lasting effect, since the row is deleted.
- Concurrency: concurrent requests are not modelled, including the unsynchronised check-then-decrement of stock. Each operation runs alone.
- The frontend is not modelled.
- The entity and repository classes `Order.java`, `Item.java`, `User.java` and `Role.java` are not part of this model. Their fields are taken from how the services use them.
