# Catalogue item routes and statistics cache, in Dafny

This project models the backend of a small catalogue service: the item
routes (`GET /api/items` listing with search and pagination,
`GET /api/items/:id` lookup, `POST /api/items` creation) and the
statistics route (`GET /api/stats`) with its invalidate-on-change cache.

- `wrappers.dfy` — `Option` and `Result`.
- `js_string.dfy` (module `JsString`) — the two string operations the
  search uses: `toLowerCase` (ASCII letters) and `includes`, with `includes`
  proved equal to "the needle occurs at some offset".
- `items.dfy` (module `Items`) — records, the listing pipeline (parameter
  normalisation, case-insensitive filter, ceiling page count, page clamp,
  slice), lookup by id, and the record store as a class whose `Create`
  appends a record stamped with the caller's timestamp.
- `stats.dfy` (module `Stats`) — the snapshot `(total, priceSum)`, the
  price sum as the left fold the handler uses, and the cache as a class
  with a mutable optional field, a `Get` request handler and an
  `Invalidate` file-change notification.

The item handlers read the whole store file on every request (the
statistics handler reads it only when its cache is empty); here each pure
handler takes the records it read as a sequence, and `ItemStore.records`
is the file's content that creation rewrites.

`totalPages` is `Math.ceil(total / limit)`
(`backend/src/routes/items.js:34`), which is 0 when nothing matches; the
minimum of 1 applies only to the page clamp (line 36). `ListTotalPages`
states this.

## Model

| member | source | states |
|---|---|---|
| Items.NormalizeParam | backend/src/routes/items.js:18-26 | the normalised value is at least 1; a missing, unparsable or zero value gives the default, a positive one is kept, a negative one gives 1 |
| Items.Matches | backend/src/routes/items.js:30 | the filter callback holds exactly when the lower-cased query occurs at some offset of the lower-cased name |
| Items.Select | backend/src/routes/items.js:29-31 | the filtered list is no longer than the store and holds exactly the store's records whose lower-cased name includes the lower-cased query |
| Items.SelectAppend | backend/src/routes/items.js:30 | filtering distributes over concatenation, so matches keep their original relative order |
| Items.SelectEmptyQuery | backend/src/routes/items.js:29-31 | every record matches the empty query, so filtering with it returns the whole store |
| Items.Filtered | backend/src/routes/items.js:29-31 | skipping the filter for a falsy (empty) query agrees with filtering: the filtered list equals `Select` and holds exactly the matching records for every query |
| Items.LaptopMatches | backend/tests/items.test.js:40-46 | a record named "Laptop Pro" matches the query "laptop" |
| Items.CeilDiv | backend/src/routes/items.js:34 | the page count r is the ceiling of total over limit: (r-1)*limit < total <= r*limit |
| Items.CeilDivFacts | backend/src/routes/items.js:34 | the page count is 0 exactly when total is 0, and at most 1 when total <= limit |
| Items.ClampPage | backend/src/routes/items.js:36 | the served page lies in [1, max(totalPages, 1)], equals the requested page when that is in range and the upper bound otherwise |
| Items.Slice | backend/src/routes/items.js:38-41 | `slice(start, end)` has length min(end, len) - start when the range is non-empty and 0 otherwise, and its i-th element is the (start+i)-th of the list |
| Items.List | backend/src/routes/items.js:14-52 | total is the filtered length; the page is in [1, max(totalPages, 1)]; the items are at most limit records lying contiguously in the filtered list from (page-1)*limit |
| Items.ListTotalPages | backend/src/routes/items.js:33-34 | totalPages is the ceiling of total over the normalised limit, and is 0 exactly when nothing matches |
| Items.ListPage | backend/src/routes/items.js:35-36 | a requested page within range is served as is; a larger one is clamped to max(totalPages, 1) |
| Items.ListStartInRange | backend/src/routes/items.js:36-39 | the slice start (page-1)*limit is below total when anything matches and 0 otherwise |
| Items.ListSliceLength | backend/src/routes/items.js:38-41 | the page holds min(limit, total - (page-1)*limit) records, never more than limit |
| Items.ListNonEmpty | backend/src/routes/items.js:35-41 | when any record matches, the page is non-empty, even for a requested page past the end |
| Items.ListWholeWhenFits | backend/src/routes/items.js:33-41 | when all matches fit in one page, the page is 1 and the items are the whole filtered list |
| Items.ListDefaults | backend/tests/items.test.js:23-31 | with no parameters and at most 50 records the response is the whole store, total = its size, page 1 |
| Items.ListLimitTwo | backend/tests/items.test.js:33-38 | with limit 2 and at least two matches the page holds exactly two records |
| Items.ListReachesEveryMatch | backend/src/routes/items.js:36-41 | the match at position p*limit + i (i < limit) is served as the i-th item of page p + 1, so every match is reachable |
| Items.PageBelowCeil | backend/src/routes/items.js:34-36 | a position below total falls on a page below the page count |
| Items.FindById | backend/src/routes/items.js:58 | `find` answers None exactly when no record has the id, and otherwise a record with that id that no earlier record's id equals |
| Items.Lookup | backend/src/routes/items.js:55-66 | not-found exactly when the id does not parse or no record carries it; a found record is in the store and carries the id |
| Items.LookupFirst | backend/src/routes/items.js:58-62 | the lookup of a record's id answers that record when no earlier record carries the same id |
| Items.ItemStore.constructor | backend/src/routes/items.js:8-11 | the store holds exactly the records read from the file |
| Items.ItemStore.Create | backend/src/routes/items.js:69-81 | the created record is the payload with id replaced by the supplied timestamp, and the store becomes the old store with that record appended |
| Items.LookupAfterAppend | backend/src/routes/items.js:58-75 | after an append, lookups that succeeded answer the same; a lookup of the new id finds the new record unless an earlier record had that id; other missing ids stay missing |
| Items.ListAfterAppend | backend/src/routes/items.js:29-33 | after an append the filtered list gains the new record at its end exactly when it matches, and total grows by that one |
| JsString.ToLower | backend/src/routes/items.js:30 | lower-casing keeps the length and lower-cases each character |
| JsString.Includes | backend/src/routes/items.js:30 | `includes` fails whenever the needle is longer than the haystack, and the empty needle is included in every string |
| JsString.IncludesIffOccurs | backend/src/routes/items.js:30 | the left-to-right `includes` scan succeeds exactly when the needle occurs at some offset |
| Stats.SumPrices | backend/src/routes/stats.js:21 | the `reduce` over prices is never negative when no price is negative |
| Stats.SumPricesAppend | backend/src/routes/stats.js:21 | the price sum of a concatenation is the sum of the parts |
| Stats.SumPricesBounds | backend/src/routes/stats.js:21 | when every price lies in [lo, hi] the sum lies in [total*lo, total*hi], so the average lies in the price range |
| Stats.Compute | backend/src/routes/stats.js:19-22 | the snapshot's total counts every record read, and an empty store gives a zero price sum (the case whose average is NaN) |
| Stats.ComputeAfterAppend | backend/src/routes/stats.js:19-22 | a snapshot computed after one record is appended has total one more and sum greater by that record's price |
| Stats.StatsCache.constructor | backend/src/routes/stats.js:7 | the cache starts empty |
| Stats.StatsCache.Get | backend/src/routes/stats.js:14-28 | a filled cache answers its snapshot and stays unchanged; an empty one computes (store length, price sum) from the read, stores and answers it; a failed read answers the error and leaves the cache empty |
| Stats.StatsCache.Invalidate | backend/src/routes/stats.js:9-11 | the file-change notification empties the cache |
| Stats.RepeatedGetsAgree | backend/src/routes/stats.js:16-24 | two requests with no invalidation between them answer the same snapshot once the first succeeded, whatever the store holds by the second |
| Stats.GetAfterInvalidate | backend/src/routes/stats.js:9-24 | after an invalidation the next request answers a snapshot computed from the store as it is then |

## Left out

- File reading, JSON parsing and writing (`backend/src/routes/items.js:8-11, 76`, `backend/src/routes/stats.js:17-18`): the item handlers take the records as a sequence; `StatsCache.Get` takes the read-and-parse outcome as a `Result`. Read or write failures in the item handlers, forwarded to `next(err)`, are not modelled.
- Express routing, status codes and JSON responses: handlers return `PageResult`, `LookupResult`, the created `Item` or a `Result`.
- `Date.now()`: `Create` takes the timestamp as a parameter; id uniqueness under rapid or concurrent creation is not modelled (`LookupAfterAppend` states what happens when an id repeats).
- The payload object mutated in place by `item.id = ...` is modelled as a value update; nothing else observes the request body afterwards.
- Concurrency: the last-writer-wins race between creations, `fs.watchFile` timing and the race between an invalidation and an in-flight fill. Invalidation is an explicit method call.
- `averagePrice` as a floating-point quotient, including the NaN for an empty store: the snapshot keeps `(total, priceSum)` with integer prices.
- JavaScript values of other shapes: prices that are strings or missing (string concatenation or NaN in the fold), ids that are not integers, a query given as an array, and records without a `name` (on which the filter throws). Every record has an integer id, a name and an integer price.
- JavaScript number precision: ids, prices, page and limit values are unbounded integers; values beyond 2^53, where `Math.ceil`, the slice bounds and the price sum would lose precision, are not modelled.
- Other record fields: `Item` holds only `id`, `name` and `price`; the further fields a stored record or a create payload may carry, which listing, lookup and create pass through unchanged, are not represented.
- `parseInt` string parsing: query parameters arrive already parsed as optional integers (None for absent or NaN).
- JsString.ToLower: lower-cases ASCII letters only, not the full Unicode case mapping of `toLowerCase`.
- The two different store paths in `backend/src/routes/items.js:5` and `backend/src/routes/stats.js:5`: a deployment matter; the model assumes both routes see the same store.
- The frontend (`frontend/src/pages/Items.js`, `frontend/src/state/DataContext.js`): rendering, virtualisation, fetch cancellation and React state are UI and network glue.
