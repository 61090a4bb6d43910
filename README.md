# Product catalogue routes, modelled in Dafny

The repository is a small Express API over an in-memory product catalogue. Its logic lives in `routes/products.js`. A module-level array `products` holds the records. Seven route handlers read or change it:

- list: filter by category, then paginate;
- get by id;
- create;
- update, a shallow merge;
- delete, a splice;
- search by name, case-insensitive;
- stats: count the records of each category.

This project models that file.

- `Records` (`records.dfy`): a product is what the handler stores. That is a plain JavaScript object built from the request body, so it is modelled as `map<string, Value>`. Object spread `{ ...a, ...b }` is the right-biased union `a + b`. Create and update are therefore stated over every field, not only `id`, `name` and `category`.
- `Js` (`js.dfy`): the built-ins the handlers call. They are `Array.prototype.filter`, `Array.prototype.slice` (with its clamping of negative and out-of-range indices), `String.prototype.includes`, `toLowerCase` on ASCII, and the `parseInt(x) || d` default.
- `ProductQueries` (`product_queries.dfy`): the read-only routes as functions of the collection, with their lemmas. These are list with category filter and page window, get by id, search, and the per-category counts.
- `ProductStore` (`product_store.dfy`): the class `Store`, whose field `products` is the module-level array. `Create`, `Update` and `Delete` change it in place. `Stats` is the `forEach` loop that fills the counts dictionary, proved against `CategoryCounts`. Lemmas cover id uniqueness, delete, and update followed by get.
- `ProductRoutes` (`product_routes.dfy`): first-match GET dispatch in registration order, as written and with the order corrected. See "Findings".

On these points the code behaves in ways a reader might not expect, and the model follows the code:

- A body `id` overrides the generated one on create (`{ id: uuidv4(), ...req.body }`), and an update body may change `id`. `BodyIdDuplicates` shows that a body `id` on create can break id uniqueness, and `UpdateBodyIdDuplicates` shows the same for update. `CreateKeepsIdsUnique` and `UpdateKeepsIdsUnique` show that uniqueness holds when bodies carry no `id`.
- The list route has no name search and does not echo `limit`. Its response is `{ page, total, products }`.
- `page` and `limit` are not forced positive. Negative values go to `slice`, which counts them from the end (`ListNegativeLimit`).
- The category filter applies only when the query category is truthy. An empty `?category=` lists everything.
- Delete answers with the removed record.

## Model

| member | source | states |
|---|---|---|
| Js.Filter | routes/products.js:16 | the filter result keeps exactly the elements the callback accepts, so every kept element is from the input and accepted, and every accepted element is kept; it is never longer than the input |
| Js.FilterAppend | routes/products.js:16 | filtering a concatenation is the concatenation of the filtered parts (order preservation) |
| Js.FilterMultiplicity | routes/products.js:16 | each accepted element keeps its multiplicity, each rejected one has multiplicity 0 |
| Js.FilterKeepsAll | routes/products.js:66 | when every element is accepted, filter returns the input unchanged |
| Js.FilterEmptyIff | routes/products.js:16 | the filter result is empty iff no element is accepted |
| Js.Slice | routes/products.js:24 | `slice(start, end)` never fails; for `0 <= start <= end` its length is `min(end, n) - start` (0 when start is past the end) and its i-th element is `s[start + i]` |
| Js.SliceWindow | routes/products.js:24 | for non-negative bounds `slice(start, start + len)` is the window of the array clamped to its length |
| Js.WindowsStep | routes/products.js:24 | the walk from `start` is `slice(start, start + len)` followed by the walk from `start + len` |
| Js.WindowsCoverRest | routes/products.js:24 | consecutive windows of a fixed positive length from `start`, up to the first empty one, concatenate to the array from `start` on |
| Js.NegativeSliceCountsFromEnd | routes/products.js:22-24 | negative slice bounds no smaller than `-n` (n the array's length) are the same window counted back from the end, `start + n` to `end + n` |
| Js.Includes | routes/products.js:66 | every prefix of a string is included in it, and an included needle is never longer than the string |
| Js.IncludesIffOccurs | routes/products.js:66 | `hay.includes(needle)` holds iff needle occurs in hay at some position |
| Js.IncludesEmpty | routes/products.js:66 | every string includes the empty string |
| Js.ToLower | routes/products.js:66 | lowering keeps the length, maps each character through ASCII lowering and leaves no upper-case letter |
| Js.ToLowerIdempotent | routes/products.js:66 | lowering an already lowered string changes nothing |
| Js.OrDefault | routes/products.js:20-21 | `parseInt(x) \|\| d` is d for NaN or 0 and the parsed integer otherwise |
| Records.Spread | routes/products.js:51 | `{ ...old, ...body }` has the fields of both; body fields overwrite, fields absent from the body keep their old values |
| Records.SpreadIdempotent | routes/products.js:51 | applying the same update body twice is applying it once |
| Records.NewRecord | routes/products.js:42 | the created record holds every body field, and its `id` is the fresh id unless the body supplies one, which then wins |
| Records.CategoryOf | routes/products.js:74 | a record whose category is a string is in that one category and no other |
| Records.SpreadKeepsWellFormed | routes/products.js:51 | a validated update body keeps the record's name and category strings, and keeps its `id` unless the body carries one |
| ProductQueries.InCategory | routes/products.js:15-16 | the category filter keeps exactly the records whose `category` equals the query category |
| ProductQueries.PageStart | routes/products.js:22 | the start index of a page is never negative when the page is at least 1 and the limit non-negative |
| ProductQueries.PageStartIsProduct | routes/products.js:22 | the page start, taken in steps of `limit` from page 1, is `(page - 1) * limit` for every page and limit, negative ones included |
| ProductQueries.ListProducts | routes/products.js:11-31 | the list echoes a non-zero page, its total is the number of filtered records, and its products are filtered records, never more than the total |
| ProductQueries.CategoryFilter | routes/products.js:12-17 | with a truthy query category the list keeps each record of that category with its multiplicity and no other record; with an absent or empty category it keeps every record |
| ProductQueries.ListPageWindow | routes/products.js:20-27 | with positive effective page and limit, the products are the filtered records from the page start `(page-1)*limit` on, at most `limit` of them, empty iff the start is at or past `total`; the echoed page is the effective one |
| ProductQueries.ListNegativeLimit | routes/products.js:20-24 | on page 1 a negative limit `-k` lists all but the last k filtered records |
| ProductQueries.PageIsSlice | routes/products.js:20-24 | page `k` of size `limit` is exactly the slice of the filtered records from page `k`'s start `(k-1)*limit`, `limit` long |
| ProductQueries.WindowsArePages | routes/products.js:20-24 | the walk from page `k`'s window is page `k` exactly as the list route serves it, followed by the walk from page `k + 1`'s window |
| ProductQueries.PagesCoverFiltered | routes/products.js:20-28 | walking the windows of `limit` filtered records (the pages 1, 2, ..., by `WindowsArePages`) until the first empty one yields every filtered record once in order, so their lengths sum to the `total` a page reports |
| ProductQueries.FindIndex | routes/products.js:49 | `findIndex` gives the first index whose record has the id, and -1 (None) iff no record has it |
| ProductQueries.GetById | routes/products.js:34-38 | get by id returns the first record with that id, and NotFound iff no record has it |
| ProductQueries.SearchByName | routes/products.js:64-68 | search returns exactly the records whose lower-cased name includes the lower-cased term, in collection order |
| ProductQueries.SearchFindsOccurrences | routes/products.js:66 | a record is found iff the lower-cased term occurs at some position of its lower-cased name |
| ProductQueries.SearchIgnoresCase | routes/products.js:66 | searching for a term and for its lower-case form gives the same records |
| ProductQueries.SearchEmptyTermFindsAll | routes/products.js:66 | the empty term finds every record, in order |
| ProductQueries.CountPositiveIffPresent | routes/products.js:72-75 | a category has a positive count iff some record is in it |
| ProductQueries.CountCategorySnoc | routes/products.js:74 | one more record adds one to its own category's count and nothing to any other |
| ProductQueries.CategoriesSnoc | routes/products.js:74 | one more record adds its category to the set of present categories |
| ProductQueries.CategoryCountsSnoc | routes/products.js:73-74 | the counts of a collection extended by one record are the old counts after one `stats[c] = (stats[c] \|\| 0) + 1` step |
| ProductQueries.CategoryCountsSumToLength | routes/products.js:72-76 | the stats keys are exactly the present categories, every count is at least 1, and the counts sum to the collection length |
| ProductQueries.TotalBump | routes/products.js:74 | one step of the stats loop adds exactly one to the sum of the counts |
| ProductStore.Store.constructor | routes/products.js:8 | the collection starts empty |
| ProductStore.Store.Create | routes/products.js:41-45 | create appends exactly one record at the end, `{ id: freshId, ...body }`, and returns it; earlier records are unchanged |
| ProductStore.Store.Update | routes/products.js:48-53 | with no matching id update answers NotFound and changes nothing; otherwise only the first matching slot becomes the shallow merge, which is returned; length and all other slots are unchanged |
| ProductStore.Store.Delete | routes/products.js:56-61 | with no matching id delete answers NotFound and changes nothing; otherwise exactly the first matching record is spliced out and returned |
| ProductStore.Store.Stats | routes/products.js:71-77 | the loop's dictionary maps every present category to the number of its records |
| ProductStore.CreateKeepsIdsUnique | routes/products.js:42-43 | a create with an unused fresh id and a body without `id` keeps ids unique |
| ProductStore.BodyIdDuplicates | routes/products.js:42 | a body `id` overrides the fresh one, and one already in use leaves two records with the same id |
| ProductStore.UpdateBodyIdDuplicates | routes/products.js:51 | an update body carrying another record's `id` leaves two records with that id |
| ProductStore.UpdateKeepsIdsUnique | routes/products.js:51 | an update whose body has no `id` keeps ids unique |
| ProductStore.UpdateThenGet | routes/products.js:49-52 | after such an update, get by the same id returns the merged record |
| ProductStore.DeleteThenNotFound | routes/products.js:57-59 | with unique ids, get by a deleted id answers NotFound |
| ProductStore.DeleteRemovesOne | routes/products.js:59-60 | delete shortens the collection by one; the rest is the old multiset minus the returned record, in the old order |
| ProductStore.DeleteKeepsIdsUnique | routes/products.js:59 | delete keeps ids unique |
| ProductRoutes.ById | routes/products.js:34-38 | the `/:id` handler answers a record iff some record has the id, and then the first such record; NotFound otherwise |
| ProductRoutes.DispatchGetAsWritten | routes/products.js:11-77 | in registration order `/` lists and every one-segment path, "search" and "stats" included, is looked up as an id: it answers the first record with that id, or NotFound when there is none; no path reaches search or stats |
| ProductRoutes.SearchAndStatsShadowed | routes/products.js:34-71 | with no record of id "search" or "stats", `/search` and `/stats` answer NotFound, unlike their own handlers |
| ProductRoutes.DispatchGetReachesEveryRoute | routes/products.js:64-77 | with `/search` and `/stats` tried first, `/stats` answers counts covering every record once, `/search` with an empty term answers every record, and other paths are unchanged |

## Findings

| source | as written | input that shows it | evidently intended | confidence | as-written member | corrected member |
|---|---|---|---|---|---|---|
| routes/products.js:34 | `GET '/:id'` is registered before `GET '/search'` (line 64) and `GET '/stats'` (line 71), so first-match dispatch treats "search" and "stats" as product ids | empty collection, `GET /api/products/stats` or `GET /api/products/search?name=a`: NotFound | both paths reach their own handlers (stats answers `{}` and search answers `[]` here) | high, not executed | ProductRoutes.DispatchGetAsWritten (shown by ProductRoutes.SearchAndStatsShadowed) | ProductRoutes.DispatchGet (proved by ProductRoutes.DispatchGetReachesEveryRoute) |

## Left out

- server.js is not part of this model. It sets up Express, body parsing, the logger, `app.listen`, the welcome route and the `PORT` setting.
- The middleware code (`auth`, `validateProduct`, `errorHandler`, `logger`, `NotFoundError`) is not part of this model.
  - Authentication is not modelled at all.
  - Validation becomes the preconditions `ValidCreateBody` (string `name` and `category`) and `ValidUpdateBody` (`name` and `category` are strings where present).
  - A forwarded error becomes the `NotFound` result.
- `uuidv4()` becomes the caller-supplied `freshId` of `Store.Create`. Freshness is assumed only where a lemma needs it (`CreateKeepsIdsUnique`).
- HTTP status codes (201 on create, 404 from the error handler), JSON serialisation and the key order of objects are not modelled.
- Express routing is modelled only for the GET routes, one path segment below the mount point. PUT and DELETE have a single route each, so dispatch is not needed for them.
- `parseInt` string parsing is not modelled. `page` and `limit` arrive as `Option<int>`, with None for NaN.
- ProductQueries.ListProducts: page and limit are unbounded integers. JavaScript numbers are doubles, so a page start beyond 2^53 would lose precision; that is not modelled.
- Query parameters given more than once (Express then passes an array) are not modelled. Category, page, limit and name are single strings.
- ProductQueries.SearchByName: the source throws when `name` is absent or when a record's name is not a string. The term is therefore a required string parameter, and the records are required to be named.
- Js.ToLower: lowers ASCII letters only. Full Unicode `toLowerCase` mapping is not modelled.
- Records.Value: field values are strings, numbers, booleans and null. Nested arrays and objects are not modelled; no route inspects any field beyond `id`, `name` and `category`.
- ProductStore.Store.Stats: category names that are members of `Object.prototype` are not modelled. Examples are "constructor", "toString" and "__proto__". On such names `stats[c] || 0` reads the inherited member rather than 0. The model treats the dictionary as an empty map.
- Concurrency is not modelled. The event loop runs each handler to completion, so every operation is one atomic step.
