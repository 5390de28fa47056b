# Item CRUD service — a Dafny model

This project models the core of a small inventory API. Clients create, read,
list (with pagination), update and delete *items*, each with a name and a price.
The model has three parts:

- **The `items` table** (`src/item/models/Item.ts`). `ItemModel.Item` is one row.
  `ItemModel.ValidRow` states the column constraints: an autoincrement id from 1,
  a price of at least 0, and timestamps managed by the store.
  `AcceptsInsert` and `AcceptsUpdate` are the NOT NULL and `min: 0` column
  checks the store applies on a write. The length limit of the `name` column
  is not among them (see "Left out").
- **`ItemService`** (`src/item/services/itemService.ts`). The table is a map
  from id to row, plus a `nextId` counter for the autoincrement key and a
  logical `clock` read for `createdAt`/`updatedAt`.
  - Each write is a pure step function from the old table to the new table and
    an outcome: `CreateStep`, `UpdateStep`, `DeleteStep`.
  - Class `ItemTable` holds the same state and changes it in place. Its methods
    `Create`, `Update` and `Delete` are proved equal to the step functions.
  - `FindAll` and `FindById` are functions over the table.
  - `WellFormed` is the table's invariant. Every step keeps it.
- **`ItemController`** (`src/item/controllers/itemController.ts`). Each handler
  is a pure function that maps the parsed request and the service outcome to a
  status code and a JSON body.

Errors use a three-way datatype (`Types.ServiceError`: `Validation`, `NotFound`,
`Internal`). The source tells errors apart by class and message text; the model
uses this typed discriminator instead, with the same message strings.
`Pagination` holds the arithmetic of `findAll`. `ApiScenarios` restates the
request sequences of `e2e/item.test.ts` as lemmas. Most are stated for every
well-formed table. `ListEmptyTable` and `CreateThenList` are stated for the
empty table, which is what the suite's reset (`sync({ force: true })`) leaves.

Modelling choices:
- Prices are whole numbers (cents).
- A "falsy" name is a missing, null or empty one. A "falsy" price is a missing,
  null or zero one. NaN is not modelled.
- A body member is `Absent`, `Null` or `Present(v)`.
- On update, an absent member is left out of the write and keeps its stored
  value, because a Sequelize instance update drops undefined attributes.
  An explicit `null` fails the column's NOT NULL check. The service wraps that
  failure as "Error updating item".
- A failing store call (lost connection, say) is a parameter,
  `StoreFault = NoFault | ReadFault | WriteFault`, saying which call fails.
- Each create reads a distinct tick of the logical clock, and ids are handed
  out in increasing order. So in the model no two rows share a `createdAt`, and
  `createdAt` descending is the same as id descending. `ListingIsTable` proves
  that this listing is strictly descending in `createdAt` and holds every row
  exactly once. The real store stamps `createdAt` to the millisecond, so two
  rows can share one; see "Left out".

Where the source files disagree with each other, the model follows the service and controller code:
- `create` refuses an empty name (`src/item/services/itemService.ts:45`), but
  `update` never checks the name, so a row can end up with the name `""`.
  `ValidRow` does not require a non-empty name.
- The handlers answer with `res.json(item)`
  (`src/item/controllers/itemController.ts:41`, `58`, `82`), which serialises
  the whole row, timestamps included. But one test
  (`src/item/index.test.ts:96-100`) expects only `{id, name, price}`. The model
  follows the controller: `ItemBody` carries the full `Item`.
- One test file (`src/item/index.test.ts:90`) expects the Spanish text
  "Item no encontrado" for a 404. The controller sends "Item not found", which
  is what the suite jest runs (`e2e/`) expects, and that is what is modelled.

## Model

| member | source | states |
|---|---|---|
| Pagination.Offset | src/item/services/itemService.ts:9 | the offset `(page - 1) * limit` is non-negative and falls before the end of the requested page |
| Pagination.PageCount | src/item/services/itemService.ts:20 | `Math.ceil(count / limit)` is the fewest pages holding `count` rows: `n * limit >= count > (n - 1) * limit`, and it is 0 exactly for an empty table |
| Pagination.PageOf | src/item/services/itemService.ts:10-14 | a page holds `min(limit, max(0, count - offset))` rows, and its i-th row is row `offset + i` of the ordered table |
| Pagination.PagesArePrefix | src/item/services/itemService.ts:9-14 | reading pages 1..k in turn gives exactly the first `k * limit` rows, none skipped or repeated |
| Pagination.PagesCoverAll | src/item/services/itemService.ts:9-20 | pages 1..totalPages together are the whole ordered table, none of them is empty, and the page after the last one is empty |
| ItemService.ListingIsTable | src/item/services/itemService.ts:13 | the newest-first listing holds every stored row exactly once and nothing else, strictly descending by `createdAt` |
| ItemService.FindAll | src/item/services/itemService.ts:7-26 | a read failure gives Internal "Error getting items"; otherwise the result echoes `page` as currentPage and `limit` as itemsPerPage |
| ItemService.FindAllPage | src/item/services/itemService.ts:9-21 | `total` counts the whole table rather than the page; `totalPages` is the ceiling of `total / limit`; the items are the newest-first rows from `(page - 1) * limit` on, `min(limit, max(0, total - offset))` of them, each one a stored row |
| ItemService.AllPagesListTable | src/item/services/itemService.ts:9-21 | going through pages 1..totalPages visits every row of the table exactly once; each of those pages is non-empty and the next page is empty |
| ItemService.FindById | src/item/services/itemService.ts:28-41 | a present id gives its stored row; a missing id gives NotFound "Item not found", never "Error getting item"; only a read failure gives Internal |
| ItemService.CreateValidation | src/item/services/itemService.ts:45-50 | "Name and price are required" exactly when the name or the price is falsy (a price of 0 included), and this test comes first; "Price cannot be negative" exactly when both are truthy and the price is negative; the checks pass exactly for a non-empty name and a positive price |
| ItemService.CreateValidationSufficesForStore | src/item/models/Item.ts:17-30 | a create that passes the service's checks also passes the NOT NULL and `min: 0` column checks |
| ItemService.CreateStep | src/item/services/itemService.ts:43-58 | a failed create leaves the table unchanged; a validation error is reported as it was raised, before the store is touched; the create succeeds exactly when validation passes and the write does not fail; any other failure is "Error creating item" |
| ItemService.CreateAddsOneRow | src/item/services/itemService.ts:51 | a successful create adds exactly one row, under the next autoincrement id (which no row had), and moves the counter one past it; the row has the given name and price; all other rows are unchanged; the table stays well formed; `findById` on the new id returns the new row |
| ItemService.UpdateStep | src/item/services/itemService.ts:60-78 | a failed update leaves the table unchanged; a missing id is NotFound before the price is looked at; a Validation error happens exactly when the row exists and the price is negative; any other failure is "Error updating item" |
| ItemService.UpdateChangesOneRow | src/item/services/itemService.ts:62-70 | an update succeeds exactly when the row exists, the store is healthy and no field is null (so a price of 0 is accepted); it writes only that row: a given name or price is stored, an absent one keeps its stored value; the row keeps its id and `createdAt`; the set of ids and the autoincrement counter stay as they were, on success and failure alike; a later `findById` returns the new values |
| ItemService.DeleteStep | src/item/services/itemService.ts:80-93 | a failed delete leaves the table unchanged; a missing id is NotFound; the delete succeeds exactly when the row exists and the store is healthy; it never raises a Validation error |
| ItemService.DeleteRemovesOneRow | src/item/services/itemService.ts:82-86 | a successful delete removes exactly that row and keeps all others; the autoincrement counter does not move back; a later `findById` on it is "Item not found" |
| ItemService.WriteKeepsIdFree | src/item/models/Item.ts:10-15 | any single create, update or delete, succeeding or failing, keeps the table well formed, never moves the autoincrement counter back, and leaves an already issued, absent id absent |
| ItemService.WritesKeepIdFree | src/item/models/Item.ts:10-15 | the same through any sequence of creates, updates and deletes |
| ItemService.DeletedIdNeverReissued | src/item/models/Item.ts:10-15 | once a row is deleted, whatever creates, updates and deletes follow, its id is absent after each of them and no create among them returns it |
| ItemService.ItemTable.constructor | src/item/models/Item.ts:5-8 | a new table is empty and well formed |
| ItemService.ItemTable.Create | src/item/services/itemService.ts:43-58 | updates the table in place exactly as `CreateStep` describes and keeps it well formed |
| ItemService.ItemTable.Update | src/item/services/itemService.ts:60-78 | updates the table in place exactly as `UpdateStep` describes and keeps it well formed |
| ItemService.ItemTable.Delete | src/item/services/itemService.ts:80-93 | updates the table in place exactly as `DeleteStep` describes and keeps it well formed |
| ItemController.Paging | src/item/controllers/itemController.ts:18-25 | the paging parameters are accepted exactly when each one is absent or a number of at least 1; an absent page is 1 and an absent limit 10 |
| ItemController.GetAllItems | src/item/controllers/itemController.ts:16-36 | 400 "Page and limit parameters must be positive numbers" exactly when the parameters are refused; 200 exactly when the parameters are accepted and the read succeeds, and then the body is exactly what `findAll` returns for the accepted page and limit, with `total` equal to the table size; otherwise 500 "Error getting items" |
| ItemController.PagingRejectedBeforeService | src/item/controllers/itemController.ts:21-25 | when page or limit is not a number or is below 1, the 400 answer does not depend on the table or the store, so the service is not consulted |
| ItemController.GetItemById | src/item/controllers/itemController.ts:38-52 | 200 with the stored row exactly when the id is present; 404 `{error: "Item not found"}` exactly when it is missing; otherwise 500 "Error getting item" |
| ItemController.CreateItem | src/item/controllers/itemController.ts:54-76 | 201 with the item exactly on success; 400 with one `{field, message}` entry exactly for a Validation error, carrying the service's message; any other error is 500 "Error creating item" |
| ItemController.UpdateItem | src/item/controllers/itemController.ts:78-105 | 200 with the item on success; NotFound is tested first and gives 404 `{error: "Item not found"}`; Validation gives 400 with field `price`; anything else gives 500 "Error updating item" |
| ItemController.DeleteItem | src/item/controllers/itemController.ts:107-121 | 204 with an empty body exactly on success; 404 `{error: "Item not found"}` exactly for NotFound; otherwise 500 "Error deleting item" |
| ItemController.CreateAnswers | src/item/controllers/itemController.ts:54-76 | together with the service: 201 with the posted name and price exactly when both pass validation and the write succeeds; 400 exactly on a validation failure, with field `name` exactly when the name is falsy and always `price` for "Price cannot be negative"; 500 exactly when the write fails |
| ItemController.UpdateAnswers | src/item/controllers/itemController.ts:78-105 | together with the service: 404 exactly for a missing id; 400 on `price` exactly for an existing row and a negative price; 200 with the written values exactly when the store is healthy and no field is null |
| ItemController.DeleteAnswers | src/item/controllers/itemController.ts:107-121 | together with the service: 404 exactly for a missing id; 204 with no body exactly when the row exists and the store is healthy; otherwise 500 |
| ApiScenarios.ListEmptyTable | e2e/item.test.ts:27-37 | listing an empty table with no parameters gives 200 `{items: [], total: 0, currentPage: 1, totalPages: 0, itemsPerPage: 10}` |
| ApiScenarios.CreateThenList | e2e/item.test.ts:39-64 | after one create on an empty table, the first page holds exactly that item |
| ApiScenarios.CreateThenGet | e2e/item.test.ts:66-84 | after a successful create, getting the returned id gives 200 with the posted name and price, and the total grows by one |
| ApiScenarios.UpdateThenGet | e2e/item.test.ts:86-119 | an update with a name and a non-negative price answers 200 with the new values, and a later get gives the same values |
| ApiScenarios.DeleteThenGet | e2e/item.test.ts:121-141 | a delete answers 204 with no body, and a later get answers 404 `{error: "Item not found"}` |
| ApiScenarios.CreateNegativePrice | e2e/item.test.ts:145-162 | a named item with a negative price gives 400 `[{field: "price", message: "Price cannot be negative"}]` and leaves the table unchanged |
| ApiScenarios.CreateWithoutName | e2e/item.test.ts:164-180 | a body without a name gives 400 `[{field: "name", message: "Name and price are required"}]` and leaves the table unchanged |
| ApiScenarios.ZeroPriceRefusedOnCreateOnly | src/item/services/itemService.ts:43-70 | a price of 0 makes create fail with "Name and price are required" on field `price`, while an update to price 0 succeeds |
| ApiScenarios.MissingIdIsNotFound | e2e/item.test.ts:182-204 | updating or deleting an id that is not in the table gives 404 `{error: "Item not found"}` |
| ApiScenarios.FifteenItemsInTwoPages | e2e/item.test.ts:208-239 | with 15 rows, page 1 of 10 holds 10 items with total 15 and 2 pages, page 2 holds the other 5, and the two pages together are the whole newest-first listing |
| ApiScenarios.NegativePageRejected | e2e/item.test.ts:241-249 | `page=-1` gives 400 "Page and limit parameters must be positive numbers" |

## Left out

- Sequelize and the SQL engine (`findAndCountAll`, `findByPk`, `sync`, the postgres and sqlite dialects) are replaced by the in-memory table. Their failures appear only as `StoreFault`.
- Express: the app setup, JSON body parsing, the router, process bootstrap and the `/ping` route. Handlers take already-parsed inputs. A query parameter is `Missing`, `NotANumber` or an integer, and a body member is `Absent`, `Null` or a value.
- Ids arrive as integers. A non-numeric `:id` string is not modelled: its outcome depends on the SQL dialect.
- Prices and query numbers are integers. DECIMAL(10,2) rounding, fractional page or limit values, NaN prices and other JavaScript number semantics are not modelled.
- ItemModel.AcceptsInsert and ItemModel.AcceptsUpdate do not bound the size of `price`. The column is DECIMAL(10,2) (`src/item/models/Item.ts:23-30`). Postgres, the dialect outside tests, rejects a price of 10^8 or more, and the service then answers 500 "Error creating item" or "Error updating item". In the model such a rejection appears only as a `WriteFault`; with `NoFault` any non-negative price is stored.
- ItemService.CreateAddsOneRow: a rejected create leaves `nextId` where it was, so the next successful create gets exactly `nextId`. A postgres sequence may use up a value on an INSERT it rejects, so the real next id can skip one. The model does not capture these gaps. Ids still only grow and are never reused.
- A body member of the wrong JSON type (a numeric name, say) is not modelled.
- Wall-clock timestamps are replaced by a logical clock. `updatedAt` is refreshed on every successful update. Sequelize skips the write, and so the refresh, when no value changed.
- ItemService.ListingIsTable, Pagination.PagesArePrefix, ItemService.AllPagesListTable, ItemService.FindAllPage and the concatenation clause of ApiScenarios.FifteenItemsInTwoPages rely on no two rows sharing a `createdAt`. Rows with equal `createdAt` are not modelled. The real store stamps it to the millisecond, so rows created together (the paginated e2e test posts its 15 items concurrently) can tie. The model breaks such ties by id. The source orders only by `createdAt` (`src/item/services/itemService.ts:13`) and leaves ties to the database, so separate page queries need not agree on their order.
- ItemModel.AcceptsInsert and ItemModel.AcceptsUpdate do not bound the length of `name`. The column is a `STRING` (`src/item/models/Item.ts:17-21`), which is VARCHAR(255). Outside tests the dialect is postgres (`src/common/config/database.ts:15-33`), which rejects a longer name, and the service then answers 500 "Error creating item" or "Error updating item". The test dialect, sqlite, does not enforce the length. In the model such a rejection appears only as a `WriteFault`; with `NoFault` a 300-character name is stored.
- Logging and the free-form `details` field of 500 answers are not modelled.
- Async sequencing and concurrent requests are not modelled. Each operation runs to completion before the next one.
- ItemService.FindAll: requires `page >= 1` and `limit >= 1`. The controller guarantees both. The service's own defaults and its behaviour on a page below 1 (a negative SQL offset) are not modelled.
- The alternative Hapi server (`src/server.ts`, `src/routes.ts`) is not part of this model. It is not started and uses different messages.
