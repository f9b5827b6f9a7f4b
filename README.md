# merchant-experience catalogue pipeline, modelled in Dafny

A seller posts the URL of an `.xlsx` sheet. Each row of the sheet holds
offer_id, name, price, quantity and available. The pipeline has four stages:

- **Parser.** It checks the whole sheet first: there is a sheet, the sheet has
  rows, every offer id is a uint64 and no offer id repeats. It then parses each
  row field by field. Every failing field is reported with the row's 1-based
  number. Only rows without errors become product updates.
- **Service.** It splits the updates into three lists. An unavailable product
  is deleted. An available one is updated when the seller already has that
  offer id, and added otherwise. Products with a name longer than 100 runes
  are refused and reported.
- **Repository.** It applies the add and update lists as one upsert and the
  delete list as one delete, in a single transaction.
- **HTTP handler.** It maps every failure to a status and a message. On
  success it answers with the counts, the service's errors and then the row
  errors. The GET handler turns comma-separated id parameters into the filter
  of the read query.

The project is made of these modules, one per source package:

| module | file | models |
|---|---|---|
| `GoStd` | gostd.dfy | the parts of `strconv` and `strings` the pipeline uses: `ParseUint`, `ParseBool`, `TrimSpace`, `Split` |
| `Excel`, `Models` | models.dfy | the workbook the spreadsheet library hands over; `Product`, `ProductUpdate` and `Validate` |
| `XlsxParser` | xlsxparser.dfy | `internal/xlsxparser`: `prepare`, `hasDuplicates`, the row loop of `ParseProducts` |
| `XslxParser` | xslxparser.dfy | `internal/xslx-parser`: the older parser, which stops at the first cell that does not parse |
| `Repository` | repository.dfy | `internal/repository`: `ManageProducts` as a transaction over a table `map<Key, Product>`, and `ProductsByFilter` |
| `Service` | service.dfy | `UpdateProducts` and `contains`, following the contract the service tests give them |
| `Router` | router.dfy | the id-list parsing and filter of `GetProducts`, and the answer of `PostTableURL` |

Each stateful or looping operation is a method, proved equal to a
specification function:

- `Repository.ManageProducts` is proved against `Managed`.
- `Service.ProductService.UpdateProducts` is proved against `Updated` and
  `StoredAfter`.
- `Router.PostTableURL` is proved against `Posted` and `PostedTable`.
- The parser loops are proved against `Parse` and `LegacyParse`.

The lemmas state what those functions promise.

## Model

| member | source | states |
|---|---|---|
| GoStd.ParseUint | internal/xlsxparser/xlsx_parser.go:76 | succeeds exactly on a non-empty string of ASCII digits whose value is at most 2^64-1, and returns that value; an error names ParseUint and carries the input, and is a range error exactly when some digit prefix of the input exceeds 2^64-1, a syntax error otherwise |
| GoStd.UintValue | internal/xlsxparser/xlsx_parser.go:126-129 | after a successful parse the product field holds the parsed value |
| GoStd.ParseBool | internal/xlsxparser/xlsx_parser.go:115 | true exactly for 1, t, T, TRUE, true, True; false exactly for 0, f, F, FALSE, false, False; any other text is a syntax error naming ParseBool and the input |
| GoStd.BoolValue | internal/xlsxparser/xlsx_parser.go:144 | after a successful parse, available holds the parsed boolean |
| GoStd.TrimLeftSuffix | internal/xlsxparser/xlsx_parser.go:88 | trimming the left drops a prefix made only of white space and stops at a character that is not white space |
| GoStd.TrimRightPrefix | internal/xlsxparser/xlsx_parser.go:88 | trimming the right drops a suffix made only of white space and stops at a character that is not white space |
| GoStd.TrimSpaceSlice | internal/xlsxparser/xlsx_parser.go:88 | the trimmed name is a contiguous slice of the cell, surrounded only by white space, and neither starts nor ends with white space |
| GoStd.TrimSpaceEmpty | internal/repository/repository.go:162-163 | the trimmed substring is empty exactly when the substring is all white space |
| GoStd.TrimSpaceIdempotent | internal/repository/repository.go:162 | trimming an already trimmed string changes nothing |
| GoStd.Split | internal/router/router.go:172-173 | splitting gives at least one part, and no part contains the separator |
| GoStd.JoinSplit | internal/router/router.go:172-173 | joining the parts with the separator gives back the parameter |
| GoStd.SplitJoin | internal/router/router.go:172-173 | splitting a join of separator-free parts gives back the parts |
| GoStd.ParseFormatUint | internal/router/router.go:176-184 | the decimal spelling of any uint64 parses back to the same number |
| Excel.FirstColumn | internal/xlsxparser/xlsx_parser.go:178-185 | the first column has one cell per row: the row's first cell, or a blank cell for a row without cells |
| Models.Validate | internal/models/product.go:21-27 | accepts exactly names of at most 100 runes; otherwise it reports the product's offer id, field "name" and the "too long name" message |
| Models.ValidateOnlyName | internal/models/product.go:21-27 | offer id, price and quantity never affect validity |
| XlsxParser.HasDuplicates | internal/xlsxparser/xlsx_parser.go:203-215 | true exactly when two positions of the list hold the same value |
| XlsxParser.ColumnIds | internal/xlsxparser/xlsx_parser.go:184-193 | one id per cell of the column, each the value of its cell |
| XlsxParser.ParseIds | internal/xlsxparser/xlsx_parser.go:184-193 | returns the ids exactly when every cell of the column is a uint64, and they are the cells' values in order |
| XlsxParser.Prepare | internal/xlsxparser/xlsx_parser.go:160-201 | on any workbook, whatever the length of its rows, runs the sheet checks in source order: no sheet, rows unreadable, no rows, columns unreadable, an id that is not a uint64, a repeated id; on success it returns the non-empty first sheet, whose ids all parse and are distinct |
| XlsxParser.ParseErrors | internal/xlsxparser/xlsx_parser.go:76-124 | a field contributes at most one error; it does so exactly when its parse fails, and the error carries the row, the field and strconv's error |
| XlsxParser.ValidationErrors | internal/xlsxparser/xlsx_parser.go:131-141 | validation contributes one error exactly when the trimmed name exceeds 100 runes, with field "name" and "too long name" |
| XlsxParser.CellErrors | internal/xlsxparser/xlsx_parser.go:63-149 | every error of row n names row n, and a row has no error exactly when all four parses succeed and the name is short enough |
| XlsxParser.CellErrorsOrdered | internal/xlsxparser/xlsx_parser.go:75-141 | a row's errors name each field at most once, in the order offer_id, price, quantity, available, name |
| XlsxParser.CellErrorFields | internal/xlsxparser/xlsx_parser.go:75-141 | an error naming a field is reported exactly when that field fails, with that field's strconv error or the name message |
| XlsxParser.ParseRow | internal/xlsxparser/xlsx_parser.go:63-149 | the loop body returns the cells' errors under the 1-based row number, and the row's update exactly when the row is valid |
| XlsxParser.ParseRows | internal/xlsxparser/xlsx_parser.go:60-149 | the row loop returns the updates of the valid rows and the errors of every row, in sheet order |
| XlsxParser.ParseProducts | internal/xlsxparser/xlsx_parser.go:40-158 | equals `Parse`: an unreadable stream or a failed sheet check is fatal, whatever the length of the rows; otherwise the updates and the row errors, with an empty error list returned as nil |
| XlsxParser.EmittedRows | internal/xlsxparser/xlsx_parser.go:146-148 | every valid row's update is emitted, every emitted update is a valid row's, and there are no more updates than rows |
| XlsxParser.EmittedAllValid | internal/xlsxparser/xlsx_parser.go:146-148 | when every row is valid, the updates are the rows' updates, one per row and in order |
| XlsxParser.ReportedRows | internal/xlsxparser/xlsx_parser.go:63-149 | the reported errors are exactly the union of the rows' errors |
| XlsxParser.ReportedInRange | internal/xlsxparser/xlsx_parser.go:80 | every reported row number lies between 1 and the number of rows |
| XlsxParser.ReportedAscending | internal/xlsxparser/xlsx_parser.go:63-149 | errors are grouped by row: row numbers never decrease along the list |
| XlsxParser.PreparedIds | internal/xlsxparser/xlsx_parser.go:184-199 | a sheet of five-cell rows that prepare accepts has offer-id cells that parse to pairwise distinct numbers |
| XlsxParser.EmittedDistinct | internal/xlsxparser/xlsx_parser.go:146-148 | distinct row ids give updates with pairwise distinct offer ids |
| XlsxParser.SheetGuarantees | internal/xlsxparser/xlsx_parser.go:60-149 | on distinct parsed ids, the updates have distinct offer ids and no error names offer_id or a row outside the sheet |
| XlsxParser.ParseGuarantees | internal/xlsxparser/xlsx_parser.go:40-158 | a parsed sheet yields updates with distinct offer ids, and a non-nil error list is non-empty, names no offer_id error and names only rows of the sheet |
| XslxParser.LegacyErrorSticks | internal/xslx-parser/xslx_parser.go:62-86 | once a prefix of the rows fails, the whole sheet fails with that error |
| XslxParser.ParseProducts | internal/xslx-parser/xslx_parser.go:20-100 | equals `LegacyParse`: open, empty-document, rows and empty-sheet failures in order, then one update per row, returning at the first cell that does not parse |
| XslxParser.LegacyRowOk | internal/xslx-parser/xslx_parser.go:62-94 | a row parses exactly when its four typed cells parse, and it yields those values with the trimmed name |
| XslxParser.LegacyRowsOk | internal/xslx-parser/xslx_parser.go:50-99 | the sheet parses exactly when every row does, and then there is one update per row, in row order |
| XslxParser.LegacyRowsFirstError | internal/xslx-parser/xslx_parser.go:51-97 | a failing sheet fails with the error of a row that is preceded only by rows that parse |
| XslxParser.NewerAcceptsFewer | internal/xslx-parser/xslx_parser.go:62-96 | the newer parser accepts a row exactly when the older one does and the name is at most 100 runes; both then give the same update |
| Repository.Tagged | internal/repository/repository.go:78-83 | the VALUES list has one tuple per product, in order, each tagged with the seller |
| Repository.UpsertStores | internal/repository/repository.go:85-90 | without a repeated key, after the upsert every tuple's product is stored under its (seller, offer id) |
| Repository.UpsertKeeps | internal/repository/repository.go:85-90 | the upsert leaves every row that no tuple names unchanged |
| Repository.UpsertKeys | internal/repository/repository.go:74-90 | the upsert adds no keys other than the tuples' keys |
| Repository.UpsertConsistent | internal/repository/repository.go:74-90 | the upsert keeps every product stored under its own offer id |
| Repository.UpsertIdempotent | internal/repository/repository.go:85-90 | running the same upsert twice gives the same table as running it once |
| Repository.UpsertAlreadyStored | internal/repository/repository.go:85-90 | upserting products already stored under their keys changes nothing |
| Repository.DeleteWhere | internal/repository/repository.go:121 | the delete removes exactly the seller's rows whose offer id is listed, and leaves the other rows' products as they were |
| Repository.DeletedAtMostIds | internal/repository/repository.go:133-140 | the delete removes at most one row per listed id |
| Repository.DeleteIdempotent | internal/repository/repository.go:121 | deleting again changes nothing and removes no row |
| Repository.OfferIds | internal/repository/repository.go:117-120 | the id list has one entry per product to delete, each the product's offer id |
| Repository.UpsertPhaseConsistent | internal/repository/repository.go:71-112 | a successful upsert step keeps products stored under their own offer ids |
| Repository.DeletePhaseConsistent | internal/repository/repository.go:115-141 | a successful delete step keeps products stored under their own offer ids |
| Repository.UpsertPhaseOk | internal/repository/repository.go:71-112 | the upsert step succeeds exactly when there is nothing to add or update, or when building, executing and reading the result all succeed and no key repeats |
| Repository.DeletePhaseOk | internal/repository/repository.go:115-141 | the delete step succeeds exactly when there is nothing to delete, or when building, executing and reading the result all succeed |
| Repository.ManagedErrors | internal/repository/repository.go:56-146 | an empty request gives ErrEmptyRequest; BEGIN and COMMIT failures give ErrTxFailed; a failure to build a statement gives ErrQueryBuilderFailed; a failure to execute one or read its result gives ErrQueryExecFailed |
| Repository.ManagedCommits | internal/repository/repository.go:49-149 | the transaction commits exactly when the request is not empty, no step that runs fails, and the upsert names no key twice |
| Repository.ManagedCommitted | internal/repository/repository.go:49-149 | a committed transaction passed both steps, and its table and count are those of the delete step |
| Repository.ManagedConsistent | internal/repository/repository.go:49-149 | a committed transaction keeps products stored under their own offer ids |
| Repository.UpsertPhaseEffect | internal/repository/repository.go:71-112 | a successful upsert step stores every add and update product under (seller, offer id), and keeps every row none of them names |
| Repository.ManagedStores | internal/repository/repository.go:49-149 | after a commit, every add or update product whose offer id is not listed for deletion is stored under (seller, offer id) |
| Repository.DeletePhaseEffect | internal/repository/repository.go:115-141 | after a successful delete step no row of the seller with a listed offer id is left, and at most one row per listed product is counted |
| Repository.ManagedDeletes | internal/repository/repository.go:115-149 | after a commit no row of the seller with a listed offer id remains, and the deleted count is at most the number of products to delete |
| Repository.ManagedKeeps | internal/repository/repository.go:49-149 | after a commit, a row that no list names is unchanged |
| Repository.ManagedIdempotent | internal/repository/repository.go:49-149 | repeating a committed request, with no offer id both stored and deleted, commits again, leaves the table as it is and deletes nothing |
| Repository.DeleteKeepsStored | internal/repository/repository.go:115-141 | the delete step keeps every stored product whose offer id is not listed |
| Repository.UpsertPhaseAgain | internal/repository/repository.go:71-112 | upserting products already stored under their keys succeeds and changes nothing |
| Repository.DeletePhaseAgain | internal/repository/repository.go:115-141 | a second delete with the same list succeeds and removes nothing |
| Repository.EmptyFilterMatchesAll | internal/repository/repository.go:154-165 | a filter with no ids, and a substring of only white space, lets every row through |
| Repository.Selected | internal/repository/repository.go:151-167 | at most `limit` keys, each a scanned key whose row matches the filter |
| Repository.SelectedComplete | internal/repository/repository.go:167 | if fewer than `limit` keys are selected, every matching row is selected |
| Repository.SelectedDistinct | internal/repository/repository.go:151-182 | a scan that visits each key once never selects a row twice |
| Repository.RowsOf | internal/repository/repository.go:176-182 | one product per selected key, in order, each the row stored under that key |
| Repository.Repository.constructor | internal/repository/repository.go:42-47 | the repository starts from a consistent table |
| Repository.Repository.InsertValues | internal/repository/repository.go:74-83 | the two loops build the add tuples and then the update tuples, each tagged with the seller |
| Repository.Repository.DeleteIds | internal/repository/repository.go:117-120 | the loop collects the offer ids of the products to delete, in order |
| Repository.Repository.ExecUpsert | internal/repository/repository.go:85-103 | executing the upsert fails when two tuples share a key, and otherwise gives the upserted table |
| Repository.Repository.ExecDelete | internal/repository/repository.go:121-137 | executing the delete gives `DeleteWhere` and the number of rows it removed |
| Repository.Repository.ManageProducts | internal/repository/repository.go:49-149 | a commit installs `Managed`'s table and reports the deleted count; any error leaves the table as it was and reports the error; the table stays consistent |
| Repository.Repository.ProductsByFilter | internal/repository/repository.go:151-183 | builder and execution failures give their errors; otherwise at most 100 products, each a stored row that matches the filter |
| Service.Search | internal/service/service_test.go:12-63 | the binary search reports x only when x is in the searched range |
| Service.Contains | internal/service/service_test.go:12-63 | contains reports x only when x is in the list |
| Service.SearchComplete | internal/service/service_test.go:12-63 | on a sorted list, the binary search finds every x in the range |
| Service.ContainsSorted | internal/service/service_test.go:12-63 | on sorted ids, contains is exact: first, middle and last ids are found, and gaps and out-of-range values are not |
| Service.DestinationSorted | internal/service/service_test.go:325-446 | with sorted ids, an unavailable update is deleted, an available one whose id the seller has is updated, and any other is added |
| Service.PickAppend | internal/service/service_test.go:325-446 | the split keeps input order: the lists of a concatenation are the concatenated lists |
| Service.PickCounts | internal/service/service_test.go:325-446 | every update lands in exactly one of the three lists |
| Service.PickMembers | internal/service/service_test.go:325-446 | a product is in a list exactly when some update carrying it is sent there |
| Service.ValidsMembers | internal/service/service_test.go:447-501 | a product is kept exactly when it is listed and its name has at most 100 runes; each product is kept or reported |
| Service.RejectionsReport | internal/service/service_test.go:447-501 | every reported error names a listed product with a too-long name, and every such product is reported |
| Service.PlanAccounts | internal/service/service_test.go:325-446 | added, updated, deleted and refused products together number the updates |
| Service.ProductService.constructor | internal/service/service_test.go:509-511 | the service writes to the repository it is given |
| Service.ProductService.Classify | internal/service/service_test.go:325-446 | one walk builds the add, update and delete lists that `Pick` specifies |
| Service.ProductService.DropInvalid | internal/service/service_test.go:447-501 | the loop keeps the valid products and collects the others' errors, in order |
| Service.ProductService.UpdateProducts | internal/service/service_test.go:65-526 | equals `Updated` and leaves `StoredAfter`: an empty request is refused, a request whose every product is refused never reaches the repository, otherwise one ManageProducts call decides |
| Service.UpdatedReports | internal/service/service_test.go:97-446 | a successful call reports the sizes of the lists it sent, accounts for every update once, and counts at most one deleted row per delete product |
| Service.UpdatedKeeps | internal/service/service_test.go:86-96 | a call that fails leaves the table as it was |
| Service.UpdatedStores | internal/service/service_test.go:97-446 | after a successful call, each available product with a valid name is stored under (seller, offer id), unless the same request deletes that offer id |
| Router.IdsOfAll | internal/router/router.go:175-184 | the id list is non-empty exactly when every part parses, and then holds each part's value in order |
| Router.AbsentParamNoIds | internal/router/router.go:168-184 | an absent parameter gives no ids, so no constraint |
| Router.IdListRoundTrip | internal/router/router.go:172-195 | a comma-joined list of uint64s parses back to the same ids |
| Router.ParseIdList | internal/router/router.go:175-184 | the loop appends each value, and resets to nil and stops at the first part that does not parse |
| Router.IdsOfFailed | internal/router/router.go:178-181 | once a prefix yields no ids, the whole list yields none |
| Router.RequestFilterOf | internal/router/router.go:197-201 | the filter holds both id lists and the substring as received |
| Router.FailureResponse | internal/router/router.go:106-137 | file failures are 400 with their own messages; library read errors are 500 "parsing error" |
| Router.Merged | internal/router/router.go:147 | the answer's errors are the service's errors followed by the row errors, each in order |
| Router.PostTableURL | internal/router/router.go:96-147 | equals `Posted` and leaves `PostedTable`: bad URL, parse failure, service failure, or a 200 report |
| Router.PostedRejectedSheet | internal/router/router.go:105-136 | a workbook that prepare rejects, whatever the length of its rows, is answered with that rejection and leaves the table unchanged |
| Router.AnswerUnchanged | internal/router/router.go:105-147 | the answer is 200 exactly when the sheet parses and the service succeeds; any other answer leaves the table unchanged |
| Router.PostedBadUrl | internal/router/router.go:96-103 | a URL that cannot be fetched is answered 400 "bad table url" and changes nothing |
| Router.AnswerNoValidRow | internal/router/router.go:139-146 | a sheet with no valid row is an empty request to the service, answered 500 "service error" |
| Router.AnswerReport | internal/router/router.go:139-147 | a 200 answer lists every refused product and every row error, and its counts are bounded by the number of parsed updates |

## Left out

- The spreadsheet library is not part of this model. A workbook is an input value (`Excel.Document`). Opening, closing and logging are not modelled. `GetCols` is read as the first cell of each row, or a blank cell for a row without cells.
- XlsxParser.ParseProducts: requires every row of a sheet that prepare accepts to have five cells (`RowLoopInBounds`). Prepare reads only the first column, so a sheet it rejects may have rows of any length. In the source, a short row in an accepted sheet makes the row loop index past its end and panic, and the panic handler at `internal/router/router.go:70-74` answers 500. Router.PostTableURL carries the same precondition.
- XslxParser.ParseProducts: requires every row to have five cells once the sheet checks pass (`LegacyLoopInBounds`). In the source, the loop panics at the first short row it reaches, and a row that fails to parse before it ends the loop cleanly; the model does not separate those two cases.
- Names are sequences of characters, one rune each. Invalid UTF-8 is not modelled.
- uint64 values are natural numbers. `ParseUint` rejects anything above 2^64-1, so every parsed id, price and quantity fits.
- Error texts (`Error()` of ErrProductParsing and of strconv.NumError) are kept as structured values, not formatted strings.
- Models.Validate: `product.go` returns a plain `errors.New("too long name")`. The parser and the service tests expect `models.ErrProductValidation{OfferId, "name", MsgTooLongName}`, a type this revision of `product.go` does not declare. The model follows the parser and the tests.
- SQL is not modelled: the query builder, sqlx, the driver, contexts and timeouts. A failing step is named by the `Fault` input. Rollback is the table staying as it was.
- PostgreSQL rejects an upsert whose VALUES name one key twice. The model treats this as an execution failure.
- The mismatch between affected rows and list sizes is only logged by the source and is not modelled.
- Repository.Repository.ManageProducts: `repository.go` returns only an error. The service tests mock it as returning the deleted count and an error, and the model follows them. The count is the number of rows the DELETE removed.
- Repository.Repository.ProductsByFilter: PostgreSQL's LIKE is the parameter `like`. The table's scan order is the parameter `scan`, because the SELECT has no ORDER BY. The method's contract states bounds and soundness only; completeness and distinctness are proved separately in `SelectedComplete` and `SelectedDistinct`.
- `SellerProductIDs` is not part of this model. The service receives its result as the sorted `existing` parameter, and a failure of that call is not modelled.
- `service.go` only has stubs. `UpdateProducts` follows `service_test.go`: it reports `UpdateResults` with a Deleted field, which `UpdateStatus` lacks. The older `service_UpdateProducts_test.go` is not followed.
- `RequestFilter` in `service.go` holds one seller id and one offer id. The router and the repository use lists, and the model uses lists.
- GetProducts' call to the service's `ProductsByFilter`, a stub, is not modelled. Neither is its JSON answer: only the filter is modelled.
- The HTTP request body, JSON decoding and encoding, a JSON marshal failure, headers and the panic handler are not modelled. The table download is the `download` input, where None means the URL cannot be fetched.
- Concurrency is not modelled; each call runs alone.
