# Forex rates backend — a Dafny model

This project models the data layer and the HTTP controllers of the
ureg-forex-app backend. The backend is an Express service over two
PostgreSQL tables:

- `currencies(id, code, name)`;
- `rates(id, base_currency_id, target_currency_id, rate, effective_date)`.

The model covers these parts:

- **Store** (`store.dfy`): the two tables and their serial counters, held as
  the fields of a `Database` object. `Valid()` states that the counters are
  positive, ids are distinct and below their counters, and stored dates are
  calendar dates. `NoDangling` (every rate names existing currencies) and
  `UniqueCodes` are kept apart from `Valid()`; each write proves what it keeps.
- **Dates** (`dates.dfy`): the controllers' `^\d{4}-\d{2}-\d{2}$` check
  (`HasIsoDateShape`). It also gives the date cast PostgreSQL applies when text
  is bound to a `date` column (`CastDate`): only real calendar dates are
  accepted, and other text makes the statement fail.
- **Orders** (`orders.dfy`): `ORDER BY` as a stable insertion sort under a
  total preorder, and byte-wise text order for the `code` columns.
- **CurrencyModel** (`currency_model.dfy`): the three lookups and the three
  writes of `Currency.js`. Delete first refuses a currency that is still
  referenced by a rate.
- **RateModel** (`rate_model.dfy`): the join of rates with their two currency
  codes. It builds the latest, historical, paginated and full-listing queries
  of `Rate.js`, plus the create, update and delete statements. "Latest" means
  the greatest `effective_date` in the whole `rates` table that is not after
  today. Today's date is a parameter.
- **Responses**, **RateController**, **CurrencyController**: the status code
  and payload each handler of `rateController.js` and `currencyController.js`
  chooses. The model follows each handler's validation order and error
  branches.

Where the project's documentation and the code disagree, the model follows the
code:

- A historical date such as `2023-13-45` passes the shape check and then fails
  the database cast. The model answers 500, not 400.
- A `limit` of `0` is falsy after `parseInt`, so it becomes the default 15 and
  is not rejected.
- `PUT /rates/:id` with an unknown id answers 200 with no data.
- Deleting a referenced currency answers 500 with the error text, not 409.
- The latest-with-base query filters on the table-wide latest date, not the
  latest date of that base currency.
- Currency codes are not checked for length or case.

## Model

| member | source | states |
|---|---|---|
| Orders.SortBySorted | ureg-forex-app/backend/src/models/Rate.js:23 | sorting under a total preorder yields a list sorted by it; SortBy's own contract makes it a permutation of the input |
| Dates.CastDate | ureg-forex-app/backend/src/models/Rate.js:42 | the cast succeeds exactly on text that is the ISO spelling of a calendar date (year 1 to 9999), and the date it yields formats back to that text |
| Dates.HasIsoDateShape | ureg-forex-app/backend/src/controllers/rateController.js:21 | the regex `^\d{4}-\d{2}-\d{2}$` as a definition: ten characters, digits at places 0-3, 5-6 and 8-9, hyphens at 4 and 7; month and day ranges are not checked |
| Dates.IsoShapeIsFormatted | ureg-forex-app/backend/src/controllers/rateController.js:21 | a text has the regex's shape if and only if it is the `YYYY-MM-DD` formatting of some digit-range date |
| Dates.FormatDateOf | ureg-forex-app/backend/src/models/Rate.js:42 | every text of the `YYYY-MM-DD` shape equals the formatting of the date its digits spell, so the cast loses nothing |
| Dates.ShapeDoesNotCheckRanges | ureg-forex-app/backend/src/controllers/rateController.js:21 | `2023-13-45` has the shape the regex accepts yet casts to no date; `invalid-date` lacks the shape |
| CurrencyModel.IdDescendingIsTotalPreorder | ureg-forex-app/backend/src/models/Currency.js:6 | `ORDER BY id DESC` is a total preorder |
| CurrencyModel.GetAllCurrencies | ureg-forex-app/backend/src/models/Currency.js:5-9 | the listing is sorted by descending id and is a permutation of the table |
| CurrencyModel.GetCurrencyById | ureg-forex-app/backend/src/models/Currency.js:11-15 | a found row is in the table with that id; nothing is found exactly when no row has that id |
| CurrencyModel.GetCurrencyByCode | ureg-forex-app/backend/src/models/Currency.js:17-21 | a found row is in the table with that code; nothing is found exactly when no row has that code |
| CurrencyModel.GetCurrencyByIdFindsTheRow | ureg-forex-app/backend/src/models/Currency.js:11-15 | with distinct ids, looking up a row's id returns that very row |
| CurrencyModel.GetCurrencyByCodeFindsTheRow | ureg-forex-app/backend/src/models/Currency.js:17-21 | with unique codes, looking up a row's code returns that very row |
| CurrencyModel.WithCurrencyUpdated | ureg-forex-app/backend/src/models/Currency.js:29-33 | the update keeps the table's length and every id, gives the row with that id the new code and name, and leaves all other rows as they were |
| CurrencyModel.UpdateKeepsIntegrity | ureg-forex-app/backend/src/models/Currency.js:29-33 | renaming a currency cannot leave a rate dangling |
| CurrencyModel.WithoutCurrency | ureg-forex-app/backend/src/models/Currency.js:48-50 | after the delete, a row remains exactly when it was present and has a different id |
| CurrencyModel.WithoutCurrencyRemovesOne | ureg-forex-app/backend/src/models/Currency.js:48-50 | with distinct ids, deleting a present id removes exactly one row |
| CurrencyModel.WithoutAbsentCurrency | ureg-forex-app/backend/src/models/Currency.js:48-50 | deleting an absent id leaves the table unchanged |
| CurrencyModel.WithoutCurrencyKeepsIdsDistinct | ureg-forex-app/backend/src/models/Currency.js:48-50 | deleting keeps ids distinct |
| CurrencyModel.DeletePreservesValid | ureg-forex-app/backend/src/models/Currency.js:48-50 | deleting a currency keeps the store's table invariant |
| CurrencyModel.DeleteUnreferencedKeepsIntegrity | ureg-forex-app/backend/src/models/Currency.js:37-50 | deleting a currency that no rate references leaves no rate dangling |
| CurrencyModel.CreateCurrency | ureg-forex-app/backend/src/models/Currency.js:23-27 | the new row takes the next serial id, which was not in use; it is appended, the counter advances, rates are untouched and integrity is kept |
| CurrencyModel.UpdateCurrency | ureg-forex-app/backend/src/models/Currency.js:29-33 | it returns the updated row exactly when the id exists, otherwise nothing; the table becomes WithCurrencyUpdated and integrity is kept |
| CurrencyModel.DeleteCurrency | ureg-forex-app/backend/src/models/Currency.js:35-51 | a currency that any rate references gives the in-use error with both tables unchanged; otherwise it returns the deleted row (none for an unknown id) and the table becomes WithoutCurrency |
| RateModel.Join | ureg-forex-app/backend/src/models/Rate.js:15-17 | a joined row exists exactly for each rate whose two currencies resolve; its codes are codes present in `currencies`; the join is no longer than `rates` |
| RateModel.JoinKeepsEveryRate | ureg-forex-app/backend/src/models/Rate.js:15-17 | when no rate dangles, the inner join drops no rate |
| RateModel.Where | ureg-forex-app/backend/src/models/Rate.js:102-106 | a row passes exactly when its date equals the given date (a NULL date matches nothing) and, if a base code is given, its base code equals it |
| RateModel.PairLeIsTotalPreorder | ureg-forex-app/backend/src/models/Rate.js:23 | `ORDER BY c1.code, c2.code` is a total preorder |
| RateModel.DateDescendingIsTotalPreorder | ureg-forex-app/backend/src/models/Rate.js:190 | `ORDER BY r.effective_date DESC` is a total preorder |
| RateModel.Select | ureg-forex-app/backend/src/models/Rate.js:39-43 | the result is sorted by (base, target) code and is a permutation of the projected filtered join; every row has the date and base asked for |
| RateModel.SelectSound | ureg-forex-app/backend/src/models/Rate.js:39-43 | every selected row comes from a stored rate that resolves and matches the filter |
| RateModel.SelectComplete | ureg-forex-app/backend/src/models/Rate.js:39-43 | every stored rate that resolves and matches the filter is selected |
| RateModel.InSelect | ureg-forex-app/backend/src/models/Rate.js:39-43 | a row is selected if and only if some resolving, matching rate projects to it |
| RateModel.SelectEmptyIff | ureg-forex-app/backend/src/models/Rate.js:39-43 | the result is empty if and only if no resolving rate matches |
| RateModel.LatestDate | ureg-forex-app/backend/src/models/Rate.js:18-22 | the value is NULL exactly when no rate is dated on or before today; otherwise it is a stored date not after today and no earlier than any stored date not after today |
| RateModel.GetLatestRates | ureg-forex-app/backend/src/models/Rate.js:8-27 | rows are sorted by code pair and each is dated on the latest stored date not after today; every resolving rate on that date is returned, and the rows are a permutation of the projected filtered join; with no such date the result is empty |
| RateModel.GetHistoricalRates | ureg-forex-app/backend/src/models/Rate.js:32-47 | it fails exactly when the text does not cast to a date; otherwise rows are sorted, every row's date is the cast date, every resolving rate on that date is returned, and the rows are a permutation of the projected filtered join |
| RateModel.HistoricalExample | ureg-forex-app/backend/src/models/Rate.js:32-47 | with USD and EUR and one 0.85 rate on 2023-07-01, that date yields exactly that row and 2023-07-02 yields none |
| RateModel.SelectsHistory | ureg-forex-app/backend/src/models/Rate.js:56 | `date && date !== 'null'` as a definition: the historical branch is taken exactly for a present, non-empty date text other than `null` |
| RateModel.BaseFilter | ureg-forex-app/backend/src/models/Rate.js:58 | a base filter applies exactly when the parameter is present and non-empty |
| RateModel.Page | ureg-forex-app/backend/src/models/Rate.js:86 | `LIMIT l OFFSET o` keeps min(l, max(0, n - o)) rows, and row i of the page is row o + i of the input |
| RateModel.GetPaginatedRates | ureg-forex-app/backend/src/models/Rate.js:52-135 | it fails exactly on the historical branch with uncastable text; otherwise it is the page of the selected rows, sorted, at most `limit` long, every row on the branch's date and of the given base |
| RateModel.PageOfSortedIsSorted | ureg-forex-app/backend/src/models/Rate.js:86 | a page of a sorted list is sorted |
| RateModel.PagesConcatenate | ureg-forex-app/backend/src/models/Rate.js:86 | the window at o of size a followed by the window at o + a of size b is the window at o of size a + b |
| RateModel.FirstPagesArePrefix | ureg-forex-app/backend/src/models/Rate.js:86 | the page at offset 0 is a prefix of the full list |
| RateModel.ShortPageIsLast | ureg-forex-app/backend/src/models/Rate.js:86 | after a page shorter than its limit, every later page is empty |
| RateModel.PaginatedPagesConcatenate | ureg-forex-app/backend/src/models/Rate.js:52-135 | consecutive paginated requests with the same filters skip no row and repeat none |
| RateModel.LatestWithBaseUsesGlobalDate | ureg-forex-app/backend/src/models/Rate.js:92-110 | on the latest branch with a base, a base that has no rate on the table-wide latest date gets an empty page, even when it has earlier rates |
| RateModel.GetAllRates | ureg-forex-app/backend/src/models/Rate.js:179-193 | the listing is sorted newest date first and is a permutation of the join |
| RateModel.ResolveRateFields | ureg-forex-app/backend/src/models/Rate.js:163-168 | it gives the unknown-base error exactly when the base code is missing, the unknown-target error exactly when only the target is missing, and the date error exactly when both exist but the date does not cast; it is Ok exactly when both codes exist and the date casts, and then it holds the ids of rows with those codes and the cast date |
| RateModel.ResolvedCurrenciesExist | ureg-forex-app/backend/src/models/Rate.js:163-175 | a successful resolution names existing currencies and a calendar date |
| RateModel.WithRateUpdated | ureg-forex-app/backend/src/models/Rate.js:147-156 | the row with that id gets the new fields and every other row is unchanged |
| RateModel.WithoutRate | ureg-forex-app/backend/src/models/Rate.js:198-202 | after the delete, a rate remains exactly when it was present and has a different id |
| RateModel.WithoutAbsentRate | ureg-forex-app/backend/src/models/Rate.js:198-202 | deleting an absent rate id leaves the table unchanged |
| RateModel.WithoutRateKeepsIdsDistinct | ureg-forex-app/backend/src/models/Rate.js:198-202 | deleting a rate keeps rate ids distinct |
| RateModel.CreateRate | ureg-forex-app/backend/src/models/Rate.js:163-177 | on a resolution error the tables are unchanged; otherwise the record with the next id is appended and returned; no rate is left dangling |
| RateModel.UpdateRate | ureg-forex-app/backend/src/models/Rate.js:140-158 | on a resolution error the tables are unchanged; otherwise the table becomes WithRateUpdated, returning the new row when the id exists and nothing when it does not |
| RateModel.DeleteRate | ureg-forex-app/backend/src/models/Rate.js:198-202 | it returns the id exactly when a rate had it; the table becomes WithoutRate |
| RateController.GetLatestRates | ureg-forex-app/backend/src/controllers/rateController.js:6-14 | 200 with exactly the rows of the latest query, sorted by code pair, all on the latest date |
| RateController.GetHistoricalRates | ureg-forex-app/backend/src/controllers/rateController.js:16-36 | 400 exactly when the date is missing, empty or not of the shape; 500 exactly when it has the shape but does not cast; 404 exactly when it casts and no row matches; otherwise 200 with exactly the rows of the historical query, which are non-empty |
| RateController.NormalOffset | ureg-forex-app/backend/src/controllers/rateController.js:41 | `parseInt(offset) \|\| 0`: NaN and 0 give 0; any other number is kept |
| RateController.NormalLimit | ureg-forex-app/backend/src/controllers/rateController.js:42 | `parseInt(limit) \|\| 15`: NaN and 0 give 15; any other number is kept |
| RateController.ValidWindow | ureg-forex-app/backend/src/controllers/rateController.js:45 | the window check as a definition: an offset of at least 0 and a limit from 1 to 50 |
| RateController.ParsedWindowIsValid | ureg-forex-app/backend/src/controllers/rateController.js:41-47 | on the parsed parameters, the window is valid exactly when the offset is absent or non-negative and the limit is absent, zero, or from 1 to 50 |
| RateController.GetPaginatedRates | ureg-forex-app/backend/src/controllers/rateController.js:38-64 | 400 exactly when the normalised offset is negative or the limit is outside 1..50; 500 exactly on an uncastable historical date; otherwise 200 with exactly the model's page for the normalised offset and limit, those two values echoed, and `hasMore` true exactly when the page is full |
| RateController.NoMoreMeansLastPage | ureg-forex-app/backend/src/controllers/rateController.js:57 | when `hasMore` is false, the request for the next offset returns no rows |
| RateController.GetAllRates | ureg-forex-app/backend/src/controllers/rateController.js:66-74 | 200 with the join, newest first, as a permutation |
| RateController.RateBodyError | ureg-forex-app/backend/src/controllers/rateController.js:110-122 | the missing-fields error exactly when a code or the date is falsy or the rate is undefined; the date-format error exactly when the fields are given but the date lacks the shape; the rate error exactly when the rest passes but the rate is NaN or negative |
| RateController.CreateRate | ureg-forex-app/backend/src/controllers/rateController.js:105-130 | a body error gives 400 and no change; a resolution error gives 500 with that error and no change; otherwise 201 with the appended record; the rate counter advances only on 201 and the currency counter never moves |
| RateController.UpdateRate | ureg-forex-app/backend/src/controllers/rateController.js:76-102 | a body error gives 400 and no change; a resolution error gives 500 and no change; otherwise 200 with the updated row, or with no data for an unknown id; neither serial counter moves |
| RateController.DeleteRate | ureg-forex-app/backend/src/controllers/rateController.js:132-151 | a missing id gives 400; an unknown id gives 404 and no change; otherwise 200 with the id, and the rate is gone; neither serial counter moves |
| CurrencyController.CodeTaken | ureg-forex-app/backend/src/controllers/currencyController.js:71-72 | the 409 test: on create it holds exactly when some currency has the code; whenever it holds, a currency other than the one being updated has the code |
| CurrencyController.CodeTakenIff | ureg-forex-app/backend/src/controllers/currencyController.js:71-74 | with unique codes, the conflict test holds exactly when another row (or any row, on create) already has the code |
| CurrencyController.OwnCodeIsNotTaken | ureg-forex-app/backend/src/controllers/currencyController.js:71-74 | keeping a currency's own code is never a conflict |
| CurrencyController.CreateKeepsCodesUnique | ureg-forex-app/backend/src/controllers/currencyController.js:41-47 | appending a row whose code is not taken keeps codes unique |
| CurrencyController.UpdateKeepsCodesUnique | ureg-forex-app/backend/src/controllers/currencyController.js:71-77 | updating to a code no other row has keeps codes unique |
| CurrencyController.GetAllCurrencies | ureg-forex-app/backend/src/controllers/currencyController.js:5-13 | 200 with all currencies, newest id first |
| CurrencyController.GetCurrencyById | ureg-forex-app/backend/src/controllers/currencyController.js:15-29 | 404 exactly when no row has the id; otherwise 200 with that row |
| CurrencyController.CreateCurrency | ureg-forex-app/backend/src/controllers/currencyController.js:31-52 | 400 when code or name is falsy; 409 when the code exists; otherwise 201 with the appended row; the currency counter advances only on 201 and the rate counter never moves; unique codes and integrity are kept |
| CurrencyController.UpdateCurrency | ureg-forex-app/backend/src/controllers/currencyController.js:54-82 | 400, then 404 for an unknown id, then 409 when another row has the code, otherwise 200 with the updated row; unique codes, integrity and both serial counters are kept |
| CurrencyController.DeleteCurrency | ureg-forex-app/backend/src/controllers/currencyController.js:84-100 | 404 for an unknown id; 500 with the in-use error and no change for a referenced currency; otherwise 200 with the deleted row, which is then absent, and the table is one row shorter; rates and both serial counters are kept |

## Left out

- The database connection and the pool are not modelled. Every query reads or writes the `Database` object directly.
- `NOW() AT TIME ZONE 'Asia/Kuala_Lumpur'` is not modelled. Today's date is a parameter.
- Express routing, middleware, logging and the text of the messages are not modelled. A reason tag stands for each message.
- `parseInt`, `parseFloat` and `isNaN` on request text are not modelled. Each handler receives already-parsed values: `Option<int>` with None for NaN, and a rate that is undefined, NaN or a number.
- Rates are exact `real` numbers, not IEEE-754 doubles or PostgreSQL `numeric`.
- Path ids are integers. A non-integer id text would make PostgreSQL fail with a 500, and that case is not modelled.
- Dates.CastDate: accepts only the `YYYY-MM-DD` spelling. PostgreSQL also accepts other date spellings, which can reach the paginated query's unchecked `date` parameter; the model answers 500 for those.
- Orders.TextLe: codes are compared byte-wise (C collation). The database's locale collation may differ for non-ASCII codes.
- RateModel.Select: SQL leaves the order of rows with equal sort keys open. The model fixes it to table order, so its ordering contracts are stated only for the sort keys.
- CurrencyModel.GetCurrencyByCode: without unique codes, the lookup returns the first matching row in table order. SQL leaves the order open there.
- Failures of the connection or storage are not modelled. The only failures modelled are the date cast, the unknown currency codes and the referenced-currency delete.
- Concurrency is not modelled. The source checks then writes in separate statements without a transaction; the model runs each handler as one atomic step.
- The table schema (foreign keys, a UNIQUE constraint on `code`, column types) is not modelled. Only the primary keys and the serial counters are. The model's `CreateCurrency` therefore accepts a duplicate code; only the controller refuses one.
- Serial counters advance only on a successful insert. A PostgreSQL sequence can also be consumed by a failed insert.
- A rate body whose `rate` is `null` or `""` is not modelled. Both pass the source's checks, because `isNaN` of each is false, and `parseFloat` then makes them NaN.
- RateController.GetPaginatedRates: an offset of 2^63 or more is outside PostgreSQL's `bigint` `OFFSET` and makes the query fail with 500. The model has unbounded integers and answers 200 with an empty page.
- Path ids outside the range of the `id` column make PostgreSQL fail with 500. The model has unbounded integers and answers 404 for them.
- The `/health` route and the frontend are not part of this model.
