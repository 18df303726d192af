# Restaurant orders: a Dafny model of the order controller

This project models the order controller of a restaurant back end. A **table** has a number, a `busy` flag and an ordered list of **services**. A service is one customer visit: covers, waiter, orders and a `done` flag. Each **order** has an id, a type (food or beverage), a list of **items** and a `processed` timestamp or null. The controller has four handlers. Each one acts on the table documents after the document store has loaded them:

- `create` appends an order. It opens a new service when the table has none or its last one is done, and otherwise joins the last service.
- `update` patches an order of the last service, but only while that service is open. It can replace the order's items with whitelisted item patches, and set or clear `processed`.
- `remove` filters an order id out of the last service.
- `get` walks tables, then services, then orders. It applies the `serviceDone`, `type` and `processed` filters and returns a flat order list together with "rich info" entries (order, waiter, table number).

Modules, one per concern of `src/controllers/order.ts`:

- `OrderModel` (model.dfy): the values (`Json` with JavaScript truthiness, `Order`, `Service`, `TableDoc`, `Error`), `OnlyLastOpen`, the table invariant the handlers keep (every service but the last one is done), and the `Table` class. `Table` is the loaded document that the handlers change in place.
- `ItemPatch` (item_patch.dfy): `parseItemsForUpdate` and the `.map` that applies it to every patch object.
- `JsInt32` (js_int32.dfy): the bitwise OR that `create` uses on the covers count. It follows JavaScript's conversion to 32-bit integers.
- `Lifecycle` (lifecycle.dfy): `create`, `update` and `remove`. Each is a function on table values (`CreateOn`, `UpdateOn`, `RemoveOn`) with its lemmas, plus a method that changes a `Table?` in place and is proved equal to that function. `null` stands for a number that no table has.
- `Query` (query.dfy): `get` as a method with its loops, proved to produce `Entries`. Soundness, completeness and traversal order (tables, then services, then orders within a service, through `MatchingAppend`) are proved about `Entries`.

Behaviour of the code that the model keeps as written, where a reader might expect something else:

- The covers count of a new service is `covers | items.length`, a bitwise OR on 32-bit integers. It is not a default ("covers if given, else the item count"): 2 covers with one item give 3.
- A `coversNumber` from -2^31 to -1, or from 2^31 to 2^32 - 1, gives a negative covers count (-1 covers with 3 items give -1). Larger values wrap modulo 2^32 first (2^32 covers with 3 items give 3).
- `update` replaces the order's whole `items` list with the projected patches. It does not merge them into the stored items, so the `item` reference and `quantity` are lost.
- `update` with an order id that the last service does not hold crashes (HTTP 500) if it has a key to assign. With nothing to assign it succeeds and changes nothing. In both cases the table stays unchanged.
- `remove` never checks `done`, so it also filters a closed last service.
- `get` with an `orderId` in the query string always crashes, because it reads the misspelt `response.rinchInfo`. The filtering path is the one that answers.
- `parseItemsForUpdate` writes into an uninitialised object (see Findings). The model uses the intended projection.

Inputs that come from outside the controller are parameters: the clock value of `Date.now()` (`now`), the caller's user id, the parsed request fields, and the documents the store returns.

## Model

| member | source | states |
|---|---|---|
| `ItemPatch.ItemPatchOf` | src/controllers/order.ts:216-225 | the patch's keys lie within {cook, start, end}; a key is in the patch exactly when it is whitelisted and truthy in the request item, and it keeps the request's value |
| `ItemPatch.PatchesOf` | src/controllers/order.ts:143-145 | one patch per request item, in the same order, each the whitelisted projection of its item |
| `ItemPatch.ParseItemsForUpdate` | src/controllers/order.ts:216-225 | the key-by-key loop over the whitelist builds exactly the intended projection |
| `ItemPatch.ParseItemPatches` | src/controllers/order.ts:143-145 | mapping the helper over the request's items yields exactly the projected patches, in order |
| `ItemPatch.AsWrittenNeverYieldsPatch` | src/controllers/order.ts:218-224 | the helper as written throws exactly when the intended patch is non-empty, and otherwise returns undefined instead of the empty patch |
| `ItemPatch.CookPatchCounterexample` | src/controllers/order.ts:218-221 | a request item `{cook: "u7"}` makes the helper as written throw, while the intended patch is `{cook: "u7"}` |
| `JsInt32.ToUint32` | src/controllers/order.ts:105 | the operand conversion yields a 32-bit pattern and leaves values already in range unchanged |
| `JsInt32.SignedOf` | src/controllers/order.ts:105 | the result of a bitwise operator is a signed 32-bit integer congruent to its bit pattern |
| `JsInt32.OrBitsWithin` | src/controllers/order.ts:105 | the OR of two w-bit numbers is a w-bit number, at least each operand and at most their sum |
| `JsInt32.OrBitsZero` | src/controllers/order.ts:105 | OR with 0 gives the other operand back |
| `JsInt32.BitwiseOrOfSmall` | src/controllers/order.ts:105 | on small non-negative operands the OR of x and y lies between the larger operand and the sum, and equals the other operand when one is 0 |
| `JsInt32.BitwiseOrExamples` | src/controllers/order.ts:105 | 2 OR 1 = 3, 3 OR 1 = 3 and 4 OR 2 = 6 |
| `Lifecycle.ServiceCoversIsBitwiseOr` | src/controllers/order.ts:104-105 | for non-negative covers and item counts below 2^30: without a covers count the new service gets one cover per item; with one it gets at least that count and at least the item count, possibly more (2 covers with 1 item give 3) |
| `Lifecycle.ServiceCoversOutOfRange` | src/controllers/order.ts:92-105 | a covers count from -2^31 to -1 or from 2^31 to 2^32 - 1 gives a negative number of covers for any item count below 2^32; -1 covers with 3 items give -1; 2^32 covers wrap to 0, so with 3 items they give 3 |
| `Lifecycle.CreateOpensService` | src/controllers/order.ts:103-110 | on a table with no services, or whose last service is done, exactly one service is appended, holding only the order, with the caller as waiter and covers equal to the bitwise OR of the covers count and the item count, not done; the table becomes busy; its number and earlier services are unchanged |
| `Lifecycle.CreateJoinsOpenService` | src/controllers/order.ts:111-113 | on a table whose last service is open, the order is appended to that service's orders; the service count, the other services, the rest of that service and the table's fields are unchanged |
| `Lifecycle.CreateKeepsOnlyLastOpen` | src/controllers/order.ts:103-113 | if every service but the last is done before `create`, the same holds after it |
| `Lifecycle.Create` | src/controllers/order.ts:98-113 | a missing table gives "Table not found" and nothing is changed; otherwise the loaded table is changed in place into `CreateOn` of its old value and returned |
| `Lifecycle.IndexOfOrder` | src/controllers/order.ts:165 | the result is the first position holding the id, or -1 exactly when no order has that id |
| `Lifecycle.UpdateNeedsOpenService` | src/controllers/order.ts:160-183 | no services gives "Wrong params"; a done last service gives "no updatable service"; the update succeeds exactly when the last service is open and either holds the id or there is nothing to assign |
| `Lifecycle.UpdateUnknownOrder` | src/controllers/order.ts:165-169 | an id that the open last service does not hold crashes if there is a key to assign, and otherwise succeeds with the table unchanged |
| `Lifecycle.UpdateChangesOnlyThatOrder` | src/controllers/order.ts:164-169 | a successful update changes only the first order with the id in the last service, and on it only the keys present in the block; all other orders, services and table fields are unchanged |
| `Lifecycle.UpdateReplacesItems` | src/controllers/order.ts:143-169 | after an update with items, the order's items are exactly the projected patches, with no `item` or `quantity` key left |
| `Lifecycle.ProcessedToggle` | src/controllers/order.ts:147-153 | a truthy `processed` stamps the order with `now`; a falsy one afterwards sets it back to null, both succeed, and the order ends as before except for `processed` = null |
| `Lifecycle.UpdateKeepsOnlyLastOpen` | src/controllers/order.ts:160-169 | a successful update keeps every service but the last one done |
| `Lifecycle.Update` | src/controllers/order.ts:137-183 | builds the block from the request; a missing table gives "Wrong params"; otherwise the loaded table becomes `UpdateOn` of its old value on success, and stays unchanged on failure; on success the waiter of the last service is reported for notification when `processed` is truthy |
| `Lifecycle.WithoutOrder` | src/controllers/order.ts:199-201 | the filtered list keeps exactly the orders whose id differs, and is no longer than the original |
| `Lifecycle.WithoutOrderAppend` | src/controllers/order.ts:199-201 | filtering distributes over concatenation, so the kept orders stay in their original relative order |
| `Lifecycle.WithoutAbsentOrder` | src/controllers/order.ts:199-201 | filtering out an id that no order carries changes nothing |
| `Lifecycle.RemoveFromLastService` | src/controllers/order.ts:195-212 | no services gives "Table or order not found"; otherwise only the last service's orders change, open or done, and they become the filtered list |
| `Lifecycle.RemoveAbsentIsNoop` | src/controllers/order.ts:197-201 | removing an id that the last service does not hold succeeds and leaves the table unchanged |
| `Lifecycle.RemoveKeepsOnlyLastOpen` | src/controllers/order.ts:197-201 | `remove` keeps every service but the last one done |
| `Lifecycle.Remove` | src/controllers/order.ts:191-213 | a missing table, or one with no services, gives "Table or order not found" and nothing is changed; otherwise the loaded table becomes `RemoveOn` of its old value and is returned |
| `Query.SelectTables` | src/controllers/order.ts:28-32 | the selected tables are exactly those with the requested number, or all of them when no number is given |
| `Query.Matching` | src/controllers/order.ts:49-55 | the kept orders are exactly the service's orders that pass the `type` and `processed` filters, never more than the service holds |
| `Query.MatchingAppend` | src/controllers/order.ts:49-55 | the filter keeps the passing orders in their order in the service: filtering a concatenation is the concatenation of the filtered parts |
| `Query.EntriesSound` | src/controllers/order.ts:45-66 | every rich-info entry is an order, passing the filters, of a service passing `serviceDone` in one of the tables, and carries that service's waiter and that table's number |
| `Query.TableEntriesSound` | src/controllers/order.ts:46-65 | the same, for the entries of one table |
| `Query.EntriesComplete` | src/controllers/order.ts:45-66 | every order that passes the filters, in a service that passes `serviceDone` in one of the tables, is listed with its service's waiter and its table's number |
| `Query.TableEntriesComplete` | src/controllers/order.ts:46-65 | the same, for one table |
| `Query.EntriesAppend` | src/controllers/order.ts:45 | entries of earlier tables precede those of later tables |
| `Query.TableEntriesAppend` | src/controllers/order.ts:46 | within a table, entries of earlier services precede those of later services |
| `Query.OrdersOfAnnotated` | src/controllers/order.ts:57-64 | after one service's entries are pushed and its orders concatenated, the flat list is still the orders of the rich-info list |
| `Query.CollectService` | src/controllers/order.ts:47-64 | one service's callback appends that service's entries to the rich info and keeps the flat list equal to their orders |
| `Query.CollectTable` | src/controllers/order.ts:46-65 | one table's callback runs the service callback over its services in order, appending that table's entries to the rich info and keeping the flat list equal to their orders |
| `Query.Get` | src/controllers/order.ts:39-73 | with an `orderId` the handler crashes; otherwise it answers with the rich info equal to `Entries` of the selected tables, and a flat order list of the same length whose i-th order is the i-th entry's order |

## Left out

- HTTP plumbing (`req`, `res`, `next`, status codes, JSON responses) is not modelled. Failures are the `Error` values, with their status noted beside them. The `JSON.parse` of `updatedInfo` is also out: the model takes the parsed item list.
- Document store access is not modelled: `Table.find`, `Table.findOne` and `populate` are replaced by the documents they yield. `populate` has no effect on filtering.
- `table.save` and its error branch are not modelled, including the answer `create` still sends after a failed save. The model ends at the state that would be saved.
- The notification is not modelled (`pushNotice`, `SocketHelper.emitToUser`). `Update` returns the waiter it would notify.
- `Date.now()` is the parameter `now`. The caller's user id is a parameter too.
- Query-string coercion is not modelled (`service.done == "1"` and similar loose comparisons). The filters are optional booleans, plus an optional string for `type`.
- Concurrent read-modify-write of the same table is concurrency, not sequential logic.
- Schema casting, validation and defaults of the document store are not modelled. A new service is taken to start with `done` false. A new order's id and `processed` come from the caller.
- The covers count and JSON numbers are integers. Fractional, string or object values of `coversNumber`, and a `processed` stamp of 0, are not modelled.
- `Query.IsProcessed`: `Boolean(order.processed)` is modelled as "a stamp is present". It would differ only for a stored stamp of 0.
- The role restrictions that the code's comments mention (create for waiters, update for cooks and cash desks) are not enforced by the code, and the model does not enforce them.
- `Query.Get`: the single-order answer for an `orderId` is not modelled, because the code as written always crashes there.
- An `items` value in `updatedInfo` that is not an array would make `.map` throw. This is not modelled: the items arrive as a sequence.
- `src/index.ts` (server start-up, connection and seeding) and `src/controllers/logout.ts` (token check, session removal, socket disconnect) are I/O and a foreign library, and are not modelled.

## Findings

| source | as written | input that shows it | evidently intended | confidence | as-written member | corrected member |
|---|---|---|---|---|---|---|
| src/controllers/order.ts:216-225 | `response` is declared but never initialised, so the first truthy whitelisted key is written into `undefined` and throws; with no such key the helper returns `undefined` | an update whose `updatedInfo.items` is `[{cook: "u7"}]` | return an object holding exactly the truthy whitelisted keys, `{cook: "u7"}` here | high (not executed) | `ItemPatch.AsWrittenNeverYieldsPatch` | `ItemPatch.ParseItemsForUpdate` |
