# Order placement with stock validation

A Dafny model of the order-placement transaction of a small sales-order
backend: `CreateOrderService.execute` checks that the customer exists, looks
up the requested products in one batch, rejects the request when a product is
missing or out of stock, builds the order's line items with the catalog price,
records the order, and has the products repository decrement stock
(`updateQuantity`). The products repository's table, normally behind an ORM,
is an in-memory sequence of rows with unique ids. The customers repository is
a set of customer ids and the orders repository an append-only sequence of
orders.

Files:

- `wrappers.dfy` (module `Wrappers`): `Option` and `Result`.
- `catalog.dfy` (module `Catalog`): the `Product` row and `ProductRequest`
  entry, and the pure side of the products repository. It holds `findAllById` and
  `findByName` as functions of the table, the `find`/`findIndex` calls, the
  specification of `updateQuantity` (`DecrementAll`) and of the ORM's `save`
  (`Upsert`, `UpsertAll`), and the lemmas about them.
- `products_repository.dfy` (module `Repositories`): class `ProductsRepository`.
  It holds the table and the id counter. Its methods change them in place:
  `Create`, `Save` and `UpdateQuantity`, the last with the source's two loops.
- `orders.dfy` (module `Orders`): line items, orders and errors. It holds the
  out-of-stock filter, the line-item map, `OrderOutcome` (what `execute`
  decides on a given state) and the lemmas that say what that decision means.
- `create_order_service.dfy` (module `OrderService`): class `CreateOrderService`
  with `Execute`, which runs the steps in the source's order against the
  repositories.

Prices and quantities are integers; a price is whole cents and is only copied.
Product ids are naturals from a counter in place of generated uuids.

On these points the model follows the code, whose behaviour may be unexpected:

- A request naming the same product twice is rejected as "not found". The
  batch lookup returns each row once, so the count check at
  `CreateOrderService.ts:42` fails (`Orders.DuplicateRejected`). Duplicates are
  never checked entry by entry.
- `updateQuantity` never fails on an id the table lacks; it skips it
  (`Catalog.UnknownRequestIgnored`). It does not check non-negativity either
  (`Catalog.DecrementCanGoNegative`). Stock stays non-negative only because
  `execute` checks stock first (`Orders.StockAfterOrder`).
- `execute` is not atomic: validation and decrement are separate passes. The
  model runs them as one sequential step, so no other request interleaves.

## Model

| member | source | states |
|---|---|---|
| `Catalog.FindAllById` | src/modules/products/infra/typeorm/repositories/ProductsRepository.ts:41-49 | the result holds exactly the table rows whose id is among the requested ids (unknown ids are skipped) and is no longer than the table |
| `Catalog.FindAllByIdUnique` | src/modules/products/infra/typeorm/repositories/ProductsRepository.ts:41-49 | on a table with unique ids, the rows found have unique ids: each row is returned once however often its id is requested |
| `Catalog.FindAllByIdSize` | src/modules/products/infra/typeorm/repositories/ProductsRepository.ts:41-49 | the number of rows found equals the number of distinct requested ids present in the table, hence at most the number of distinct requested ids |
| `Catalog.FindByName` | src/modules/products/infra/typeorm/repositories/ProductsRepository.ts:31-39 | returns a table row with exactly the given name, and returns none exactly when no row has that name |
| `Catalog.Find` | src/modules/orders/services/CreateOrderService.ts:49-51 | `find` by id returns the first row of the list with that id (the one at `findIndex`'s position), and returns none exactly when no row has that id |
| `Catalog.IndexOf` | src/modules/orders/services/CreateOrderService.ts:65-67 | `findIndex` returns the first position holding the id, or -1 exactly when the id is absent |
| `Catalog.FindInFound` | src/modules/orders/services/CreateOrderService.ts:48-58 | for a requested id, looking it up among the rows found by the batch lookup gives the same result as looking it up in the table |
| `Catalog.Decrement` | src/modules/products/infra/typeorm/repositories/ProductsRepository.ts:63-69 | one row after the update keeps its id, name and price, and is unchanged when no entry names it |
| `Catalog.DecrementFirstEntry` | src/modules/products/infra/typeorm/repositories/ProductsRepository.ts:63-69 | a row named by the request loses the quantity of the first entry naming it, the one `findIndex` picks |
| `Catalog.DecrementAll` | src/modules/products/infra/typeorm/repositories/ProductsRepository.ts:60-73 | every row named by a request entry has its quantity reduced by the quantity of the first entry naming it; rows no entry names are unchanged; ids, names and prices never change; size and order are kept |
| `Catalog.Upsert` | src/modules/products/infra/typeorm/repositories/ProductsRepository.ts:75 | saving a row whose id is in the table puts it in place of the row with that id and keeps every other row, the size and the ids; saving a row with a new id appends it |
| `Catalog.UpsertAll` | src/modules/products/infra/typeorm/repositories/ProductsRepository.ts:75 | saving a list of rows keeps every existing row's place and id and appends only after them; what lands in each place is given by `Catalog.UpsertAllOverwrites` |
| `Catalog.UpsertAllOverwrites` | src/modules/products/infra/typeorm/repositories/ProductsRepository.ts:75 | saving rows with unique ids that the table holds replaces exactly the rows sharing an id with a saved row and keeps size and order |
| `Catalog.UpdateQuantityEffect` | src/modules/products/infra/typeorm/repositories/ProductsRepository.ts:51-78 | decrementing the rows the lookup returns and then saving them gives the same table as decrementing the table in place |
| `Catalog.UnknownRequestIgnored` | src/modules/products/infra/typeorm/repositories/ProductsRepository.ts:54-58 | adding a request entry whose id the table lacks does not change the result of the stock update |
| `Catalog.DecrementCanGoNegative` | src/modules/products/infra/typeorm/repositories/ProductsRepository.ts:67-69 | the stock update has no non-negativity guard: asking two units of a product with one in stock leaves -1 |
| `Repositories.ProductsRepository.constructor` | src/modules/products/infra/typeorm/repositories/ProductsRepository.ts:15-17 | a repository starts with an empty table that satisfies the key invariant |
| `Repositories.ProductsRepository.FromTable` | src/modules/products/infra/typeorm/repositories/ProductsRepository.ts:15-17 | a repository bound to an existing table with unique ids holds exactly that table, with the id counter above every id in it |
| `Repositories.ProductsRepository.Save` | src/modules/products/infra/typeorm/repositories/ProductsRepository.ts:75 | the table becomes the old table with the rows upserted in turn; ids stay unique and below the counter |
| `Repositories.ProductsRepository.Create` | src/modules/products/infra/typeorm/repositories/ProductsRepository.ts:19-29 | appends one row with a fresh id and exactly the given name, price and quantity, returns it, and keeps ids unique |
| `Repositories.ProductsRepository.UpdateQuantity` | src/modules/products/infra/typeorm/repositories/ProductsRepository.ts:51-78 | the table becomes the decremented table (first entry per id, unknown ids skipped, no failure) and the saved rows are returned; ids stay unique |
| `Orders.OutOfStock` | src/modules/orders/services/CreateOrderService.ts:48-58 | keeps exactly the request entries whose product is among the found rows with fewer units than requested; it is empty exactly when no entry is short |
| `Orders.OrderedProducts` | src/modules/orders/services/CreateOrderService.ts:64-74 | one line item per found row, in the same order, with the row's id and catalog price and the quantity of the first request entry naming it |
| `Orders.OrderOutcome` | src/modules/orders/services/CreateOrderService.ts:31-74 | an unknown customer fails with CustomerNotFound; an accepted order is the customer's and has one line item per entry. The full meaning is in `Orders.OrderOutcomeCases`, `Orders.LineItemsMatchRequest` and `Orders.StockAfterOrder` |
| `Orders.CountCheck` | src/modules/orders/services/CreateOrderService.ts:38-46 | on a table with unique ids, the lookup returns as many rows as there are request entries exactly when no id repeats in the request and every requested id is in the table |
| `Orders.OrderOutcomeCases` | src/modules/orders/services/CreateOrderService.ts:31-74 | an unknown customer fails with CustomerNotFound; a missing or repeated product with ProductNotFound; then any entry above stock with InsufficientStock; success holds exactly when the customer is known, the entries name distinct catalog products, and each is within stock |
| `Orders.UnknownProductRejected` | src/modules/orders/services/CreateOrderService.ts:38-46 | for a known customer, a request naming an id the catalog lacks fails with ProductNotFound |
| `Orders.DuplicateRejected` | src/modules/orders/services/CreateOrderService.ts:38-46 | for a known customer, a request naming one product id twice gets fewer rows back than entries and fails with ProductNotFound |
| `Orders.EntryOfItem` | src/modules/orders/services/CreateOrderService.ts:64-74 | the line item built from a found row carries some entry's product and quantity and that product's catalog price |
| `Orders.ItemOfEntry` | src/modules/orders/services/CreateOrderService.ts:64-74 | when the entries name distinct catalog products, each entry has a line item with its product, its quantity and the catalog price |
| `Orders.ItemsMatchEntries` | src/modules/orders/services/CreateOrderService.ts:64-74 | when the entries name distinct catalog products, the line items built from the found rows match the entries one to one, with distinct products |
| `Orders.LineItemsMatchRequest` | src/modules/orders/services/CreateOrderService.ts:64-79 | an accepted order belongs to the customer and has exactly one line item per entry, with distinct products, the entry's quantity and the catalog price at validation time |
| `Orders.StockAfterOrder` | src/modules/orders/services/CreateOrderService.ts:48-62 | after an accepted order, each requested product's stock is its old stock minus the requested quantity and is not negative; unrequested products keep their rows |
| `Orders.OrderWithinStock` | src/modules/orders/services/CreateOrderService.ts:31-84 | five units at 10.00, three ordered: the order has the single item (product, 10.00, 3) and the stock becomes two |
| `Orders.OrderBeyondStock` | src/modules/orders/services/CreateOrderService.ts:48-62 | five units in stock, six ordered: the order fails with InsufficientStock |
| `OrderService.CreateOrderService.constructor` | src/modules/orders/services/CreateOrderService.ts:22-29 | the service holds the given customers, orders and products repository |
| `OrderService.CreateOrderService.Execute` | src/modules/orders/services/CreateOrderService.ts:31-84 | the result is the outcome the checks decide on the old state; on failure orders and products are unchanged; on success exactly that order is appended and returned and the table is decremented by the request |

## Left out

- Dependency injection (`tsyringe`, `@inject`): the service is given its state in its constructor.
- TypeORM: `getRepository`, the queries, the `In` operator and `PromiseUtils.runInSequence` are filters and loops over the in-memory table. The table's row order stands in for the database's unspecified order.
- `async`/`await`: each repository call is one synchronous step.
- Concurrency and transactions: two requests cannot interleave in the model, so the race between the stock check and the decrement is not represented.
- The customers and orders repositories, whose implementations are not part of this model: a set of customer ids and a sequence of orders. An order records the customer id instead of the customer entity.
- The `orders_products` entity: only its `product_id`, `price` and `quantity` columns are modelled, not its generated id, relations or timestamps.
- Error message texts: the three failures are the values of `OrderError`.
- Decimal `price` columns and the JavaScript `number` type: prices and quantities are unbounded integers (cents), with no rounding and no overflow.
- `Catalog.FindByName`: states that a matching row is returned, not which one; a database `findOne` picks no particular row among several with one name.
- Input validation of the request body (for example negative quantities) happens outside the service, if at all; the model accepts any integer quantity, as the service does.
