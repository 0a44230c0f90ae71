# Inventory and attendance back office: a Dafny model

The system is a small warehouse back office. A Laravel API keeps the
`items` table and an append-only ledger of stock movements, with the
`categories` and `units` catalogs items refer to, and daily attendance
records. A React front end pages through these lists and sends stock-in
and stock-out requests from a dialog. This project models the core of
that system and proves what it promises:

- **The stock mutation engine.** `stockIn` and `stockOut` validate the
  quantity, write `before ± quantity`, and append one movement recording
  both snapshots, all in one transaction.
  - `Inventory.ApplyStock` is the engine as a function.
  - `Inventory.Inventory` is the table pair as a class whose methods
    update `rows` and `ledger` in place.
  - Over any sequence of requests, the stock stays within the INT column
    and the ledger chains from the first stock to the current one.
- **The item lifecycle.** Items are live, in the trash or gone (soft
  delete, `restore`, `forceDelete`). The module also covers store and
  update validation, and the `index`, `trashed` and `stockMovements`
  listings (filter, sort, paginate).
- **The `Item` model** (module `Items`): `is_low_stock`, `image_url`, and
  the `active` and `lowStock` scopes.
- **The category and unit catalogs** (module `Catalog`, one model for both
  controllers):
  - the name-uniqueness rules;
  - the delete guard, whose refusal message carries the reference count;
  - the `options` list.
- **Attendance** (module `Attendance`):
  - the record's mutators, the work-hours and photo accessors;
  - the check-in/check-out state machine over records keyed by user and
    day;
  - the role filter of the listings.
- **The CSV export** (module `CsvExport`): field quoting as in section 2
  of RFC 4180, the column labels, and the placeholder row. The export
  method appends line by line. A reader for the same format proves that
  every export with at least one record reads back as its table. The
  no-data file, as written, does not (see Findings).
- **The front end's integer rules:**
  - `InventoryPage`: the inventory page's five-button window, page guard,
    "showing from - to" line and in-list stock update;
  - `AttendancePage`: the attendance page's index-computed buttons and
    prev/next bounds;
  - `StockModal`: the stock dialog's quantity clamp, confirm guard and
    resets.
- **The `.env` parser** of `backend/force-env-reload.php` (module
  `EnvParser`): the line loop and the database defaults.

Clocks, "today", the acting user, uploaded file names and the
`items()` reference count are parameters. `Base` holds PHP truthiness,
decimal strings, and text matching and order under the database's
case-insensitive collation. `Listing` holds filtering, sorting and
Laravel-style pagination.

## Model

| member | source | states |
|---|---|---|
| Inventory.ApplyStock | backend/app/Http/Controllers/Api/ItemController.php:265-338 | A failed request changes neither table. Only a live item is found (otherwise 404). The first failing validation rule is the error. A live item with a valid request succeeds exactly when the new stock fits the INT column, and is refused with OutOfRange otherwise. On success, only that item's stock changes, to before+q (in) or before−q (out, with q ≤ before), and exactly one movement with both snapshots is appended after the untouched earlier ones. |
| Inventory.ApplyStockSyncs | backend/app/Http/Controllers/Api/ItemController.php:273-292 | After a successful request the item's latest movement ends at its new stock. Every other item's agreement with the ledger is unchanged. |
| Inventory.ReplayConsistent | backend/app/Http/Controllers/Api/ItemController.php:304-331 | For every sequence of stock requests on one item, the stock stays within 0..2147483647 (never negative), every movement is well formed, and the movements chain from the starting stock to the final one. |
| Inventory.InThenOutRoundTrip | backend/app/Http/Controllers/Api/ItemController.php:265-331 | A stock-in of q followed by a stock-out of q restores the stock and leaves two movements that chain back to it. |
| Inventory.SemenPortlandScenario | backend/app/Http/Controllers/Api/ItemController.php:304-331 | Stock 150 minus 120 gives 30 and turns the item low-stock. A further stock-out of 40 is refused with InsufficientStock, and neither table changes. |
| Inventory.Inventory.ApplyMovement | backend/app/Http/Controllers/Api/ItemController.php:273-292 | The in-place update equals ApplyStock on the old tables, keeps the table invariants, and leaves the ledger in sync on success. |
| Inventory.Inventory.StockIn | backend/app/Http/Controllers/Api/ItemController.php:265-299 | Stock-in as ApplyStock. On success the stock is the old stock plus the quantity. A live item, a quantity of at least 1 whose sum fits the INT column, and a note and reference within their limits always succeed. |
| Inventory.Inventory.StockOut | backend/app/Http/Controllers/Api/ItemController.php:304-338 | Stock-out as ApplyStock. On success the stock is the old stock minus the quantity, and never negative. A live item, 1 ≤ quantity ≤ stock, and a note and reference within their limits always succeed. |
| Inventory.ValidatedItemIsSound | backend/app/Http/Controllers/Api/ItemController.php:74-85 | An accepted create or update has stock and min_stock within the INT column, and a SKU that no row other than the excepted one holds, up to letter case. |
| Inventory.Inventory.Store | backend/app/Http/Controllers/Api/ItemController.php:72-104 | A rejected input changes nothing. An accepted one inserts a live row under the next id, with is_active defaulting to true. |
| Inventory.Inventory.Update | backend/app/Http/Controllers/Api/ItemController.php:127-165 | Only a live row is found, and a live row whose input passes validation (its own SKU allowed) is always updated. Sent fields overwrite and absent optional ones keep their value. A new image returns the old file's name for removal. |
| Inventory.OwnSkuAccepted | backend/app/Http/Controllers/Api/ItemController.php:131 | With SKUs unique up to case, an update may keep its own SKU, in any letter case. |
| Inventory.OtherSkuRefused | backend/app/Http/Controllers/Api/ItemController.php:129-131 | An update that sends another row's SKU, live or trashed and in any letter case, is refused on sku once the name is valid. |
| Inventory.Inventory.Destroy | backend/app/Http/Controllers/Api/ItemController.php:173-182 | A live row moves to the trash with the deletion time; anything else is 404. The ledger is untouched. |
| Inventory.Inventory.Restore | backend/app/Http/Controllers/Api/ItemController.php:190-200 | Any existing row, live or trashed, becomes live. Only an unknown id is 404. |
| Inventory.Inventory.ForceDelete | backend/app/Http/Controllers/Api/ItemController.php:208-223 | Any existing row, live or trashed, is removed for good, and its image name is returned when it has one. Only an unknown id is 404. The ledger is unchanged, assuming no foreign-key constraint on the movements. |
| Inventory.ListingsPartition | backend/app/Models/Item.php:11 | Every row is in exactly one of the live rows and the trashed rows, depending on deleted_at. |
| Inventory.DestroyMovesBetweenListings | backend/app/Http/Controllers/Api/ItemController.php:173-182 | After a soft delete the row is among the trashed rows and no longer among the live ones. |
| Inventory.RowsInIdOrder | backend/app/Http/Controllers/Api/ItemController.php:22 | The table read as a sequence holds exactly the stored rows. |
| Inventory.LiveRows | backend/app/Models/Item.php:11 | The default scope keeps exactly the rows without deleted_at. |
| Inventory.TrashedRows | backend/app/Http/Controllers/Api/ItemController.php:233 | onlyTrashed keeps exactly the rows with deleted_at. |
| Inventory.OrderByIsTotalPreorder | backend/app/Http/Controllers/Api/ItemController.php:49-51 | Every modelled column of items, ascending or descending, is a total preorder: text compares case-insensitively, and null and false sort first. |
| Inventory.CategoryCaseIrrelevant | backend/app/Http/Controllers/Api/ItemController.php:34-36 | The letter case of the requested category does not change which items the index filter selects. |
| Inventory.SortAndPage | backend/app/Http/Controllers/Api/ItemController.php:24-53 | The page is page q.page of the matching rows arranged in some order sorted by the requested column. Matching means the search (name or SKU) and the category, both ignoring letter case, and the truthy low_stock and active flags. The page holds only matching rows, in order, and the total counts all matches. |
| Inventory.SortAndPageFindsMatch | backend/app/Http/Controllers/Api/ItemController.php:24-53 | Every matching row is on one of the pages 1 to last_page, including one whose category differs from the filter only in letter case. |
| Inventory.IndexRows | backend/app/Models/Item.php:11 | The rows index reads are the stored live rows, every one of them below the id bound. |
| Inventory.Index | backend/app/Http/Controllers/Api/ItemController.php:20-56 | index returns page q.page of the live stored rows that match search (name or SKU, case-insensitive), category (case-insensitive equality) and the truthy low_stock and active flags, sorted by the requested column. The total counts all matches. |
| Inventory.IndexListsEveryMatch | backend/app/Http/Controllers/Api/ItemController.php:20-56 | Every live row that matches the filters is listed on one of the pages 1 to last_page. |
| Inventory.TrashRows | backend/app/Http/Controllers/Api/ItemController.php:233 | The rows trashed reads are the stored soft-deleted rows, every one of them below the id bound. |
| Inventory.Trashed | backend/app/Http/Controllers/Api/ItemController.php:231-252 | trashed returns page q.page of the soft-deleted stored rows matching the search, sorted by the requested column. The total counts all matches. |
| Inventory.TrashedListsEveryMatch | backend/app/Http/Controllers/Api/ItemController.php:231-252 | Every trashed row matching the search is listed on one of the pages 1 to last_page. |
| Inventory.DestroyedIsListedInTrash | backend/app/Http/Controllers/Api/ItemController.php:173-182 | After a soft delete, the item is listed by trashed whenever its name or SKU matches the search. |
| Inventory.StockMovements | backend/app/Http/Controllers/Api/ItemController.php:343-370 | The page is page `page` of the ledger entries matching item, type and day range, arranged newest first. The total counts all matches. |
| Inventory.StockMovementsListsEveryMatch | backend/app/Http/Controllers/Api/ItemController.php:343-370 | Every matching ledger entry is listed on one of the pages 1 to last_page. |
| Items.LowStockScope | backend/app/Models/Item.php:44-53 | The lowStock scope selects exactly the rows whose is_low_stock accessor (stock ≤ min_stock) holds. |
| Items.ActiveScope | backend/app/Models/Item.php:39-42 | The active scope selects exactly the rows with is_active set. |
| Items.ImageUrl | backend/app/Models/Item.php:55-62 | image_url is null exactly when the image name is falsy in PHP. Otherwise it is the asset URL under storage/items/. |
| Items.ImageUrlNamesFile | backend/app/Models/Item.php:55-62 | The image URL gives back exactly the stored file name. |
| Catalog.InUseMessageCarriesCount | backend/app/Http/Controllers/Api/CategoryController.php:122-129 | The refusal message of destroy reads back as exactly the reference count. |
| Catalog.ValidateEntryNames | backend/app/Http/Controllers/Api/UnitController.php:62-101 | With names unique up to case, store refuses a row's name in any letter case. update never refuses a row's own name: it is accepted exactly when the description and symbol are within their limits. |
| Catalog.OtherNameRefused | backend/app/Http/Controllers/Api/UnitController.php:101 | update refuses the name of any other row, live or trashed, in any letter case. |
| Catalog.TrashedNameStaysTaken | backend/app/Http/Controllers/Api/CategoryController.php:61 | The unique rule sees trashed rows, so a soft-deleted entry's name cannot be reused. |
| Catalog.Catalog.Store | backend/app/Http/Controllers/Api/CategoryController.php:58-74 | A rejected input changes nothing. An accepted one inserts under the next id (categories never get a symbol). |
| Catalog.Catalog.Update | backend/app/Http/Controllers/Api/UnitController.php:98-114 | Only a live row is found, and a live row whose input passes validation (its own name allowed) is always updated. Sent fields overwrite and absent optional ones stay. |
| Catalog.Catalog.Destroy | backend/app/Http/Controllers/Api/UnitController.php:122-141 | A positive reference count refuses with that count in the message and leaves the row. A zero count soft-deletes it with the success message. |
| Catalog.Options | backend/app/Http/Controllers/Api/CategoryController.php:145-155 | options holds exactly the live active rows, sorted by name case-insensitively, as a permutation of the selected rows. |
| Catalog.DeletedLeavesOptions | backend/app/Http/Controllers/Api/UnitController.php:148-158 | A soft-deleted row is not among the options. |
| Catalog.NameOrderIsTotalPreorder | backend/app/Http/Controllers/Api/UnitController.php:151 | Case-insensitive name order is a total preorder. |
| Catalog.EntryOrderIsTotalPreorder | backend/app/Http/Controllers/Api/CategoryController.php:35-37 | Every modelled column of the catalog tables, in either direction, is a total preorder. |
| Catalog.Index | backend/app/Http/Controllers/Api/UnitController.php:16-50 | index returns page q.page of the live rows matching the search (name, symbol or description, case-insensitive) and the truthy active flag, sorted by the requested column. The total counts all matches. |
| Catalog.IndexListsEveryMatch | backend/app/Http/Controllers/Api/UnitController.php:16-50 | Every matching live row is listed on one of the pages 1 to last_page. |
| Attendance.DiffInMinutes | backend/app/Models/AttendanceRecord.php:92-100 | The result is the whole number of minutes between the two instants, in either order. |
| Attendance.DiffInMinutesOfSpan | backend/app/Models/AttendanceRecord.php:98 | m minutes and s < 60 seconds apart gives exactly m. |
| Attendance.FormatWorkHours | backend/app/Models/AttendanceRecord.php:103-111 | The formatted value is null exactly when work_hours is absent or 0. |
| Attendance.FormatWorkHoursReadsBack | backend/app/Models/AttendanceRecord.php:103-111 | "h jam m menit" reads back as h = w div 60 and m = w mod 60. m is below 60 and h·60 + m = w. |
| Attendance.PhotoUrl | backend/app/Models/AttendanceRecord.php:113-121 | A photo URL is null exactly when the name is falsy. Otherwise it is the asset URL under storage/attendance/. |
| Attendance.PresentScope | backend/app/Models/AttendanceRecord.php:60-63 | The present scope keeps exactly the rows with status present or late. |
| Attendance.AttendanceRecord.SetCheckIn | backend/app/Models/AttendanceRecord.php:71-90 | Stores check_in. A non-null value makes the status present. Nothing else changes. |
| Attendance.AttendanceRecord.SetCheckOut | backend/app/Models/AttendanceRecord.php:77-100 | Stores check_out. With both instants set, work_hours becomes the minutes between them; otherwise it is unchanged. |
| Attendance.AttendanceBook.CheckIn | backend/app/Http/Controllers/Api/AttendanceController.php:73-145 | Refused exactly when the notes are too long or today's record already has a check-in. Otherwise the single (user, today) record, created if missing, gets check_in, status present, notes and photo. Other records are untouched. |
| Attendance.AttendanceBook.CheckOut | backend/app/Http/Controllers/Api/AttendanceController.php:147-200 | Refused without a check-in today, and after a check-out. Otherwise check_out and the work hours are set, and falsy new notes keep the old ones. |
| Attendance.OneDay | backend/app/Http/Controllers/Api/AttendanceController.php:87-177 | Check-in, a second check-in (refused), check-out with the minutes worked, and a second check-out (refused). |
| Attendance.VisibleRows | backend/app/Http/Controllers/Api/AttendanceController.php:24-27 | Admins and managers see every row. Anyone else sees exactly their own. |
| Attendance.LatestFirstIsTotalPreorder | backend/app/Http/Controllers/Api/AttendanceController.php:45 | Latest-date-first is a total preorder. |
| Attendance.Index | backend/app/Http/Controllers/Api/AttendanceController.php:19-56 | The page is page `page` of the visible rows matching the date range and name search (case-insensitive), latest first. The total counts all matches. |
| Attendance.IndexListsEveryMatch | backend/app/Http/Controllers/Api/AttendanceController.php:19-56 | Every visible matching record is listed on one of the pages 1 to last_page. |
| Attendance.ExportRows | backend/app/Http/Controllers/Api/AttendanceController.php:236-260 | The export rows are exactly the visible rows matching the truthy filters (the name search ignores letter case), as a permutation, sorted latest first. |
| CsvExport.ReadFieldOfQuoted | backend/app/Http/Controllers/Api/AttendanceController.php:287-289 | A field quoted with its quotes doubled reads back as itself. |
| CsvExport.ParseLineOfCsvLine | backend/app/Http/Controllers/Api/AttendanceController.php:287-289 | A comma-joined line of quoted fields ended by a line feed reads back as its fields. |
| CsvExport.ParseLinesOfLines | backend/app/Http/Controllers/Api/AttendanceController.php:270-289 | Any sequence of such lines reads back as its table. |
| CsvExport.DocumentReadsBack | backend/app/Http/Controllers/Api/AttendanceController.php:265-294 | The corrected document, with every row ended by a line feed, reads back as the header line, then one line per record (or the placeholder row). |
| CsvExport.AppendRecords | backend/app/Http/Controllers/Api/AttendanceController.php:276-290 | The loop appends exactly the lines of the records' fields. |
| CsvExport.WriteTable | backend/app/Http/Controllers/Api/AttendanceController.php:265-294 | The corrected writer: the text built is the byte order mark, the header line, then the records or a placeholder line ended by a line feed. |
| CsvExport.Export | backend/app/Http/Controllers/Api/AttendanceController.php:230-302 | exportExcel writes the file as the source spells it: the byte order mark and header line, then one line per selected row (visible, filtered, latest first), or the placeholder ending in a backslash and n. |
| CsvExport.ExportAsWrittenReadsBack | backend/app/Http/Controllers/Api/AttendanceController.php:265-290 | As written, an export with at least one record reads back as the header line and one line per record, in order. |
| CsvExport.ExportCorrected | backend/app/Http/Controllers/Api/AttendanceController.php:265-294 | With the placeholder ended by a line feed, the export writes a document that always reads back. |
| CsvExport.Fields | backend/app/Http/Controllers/Api/AttendanceController.php:277-285 | Every record gives one field per header column. |
| CsvExport.EmptyExportAsWrittenIsUnreadable | backend/app/Http/Controllers/Api/AttendanceController.php:293 | As written, the placeholder line ends in a backslash and the letter n, so the export of no records is not a well-formed document. |
| CsvExport.EmptyExportReadsBack | backend/app/Http/Controllers/Api/AttendanceController.php:291-294 | With a line feed, the export of no records reads back as the header and the placeholder row. |
| InventoryPage.RenderPagination | frontend/src/pages/Inventory.tsx:227-242 | The loop yields Window: nothing for at most one page, otherwise the clamped ascending range. |
| InventoryPage.WindowShape | frontend/src/pages/Inventory.tsx:228-242 | No buttons when last ≤ 1. Otherwise min(last, 5) consecutive ascending pages in 1..last, including the current page when it is in range. |
| InventoryPage.InfoOf | frontend/src/pages/Inventory.tsx:71-77 | Zero fields fall back to 1, 1 and 15. Positive fields are kept. |
| InventoryPage.DisplayRangeMatchesPage | frontend/src/pages/Inventory.tsx:247 | On a page that exists, the displayed from and to are exactly the server's first and last row numbers of that page. |
| InventoryPage.UpdatedList | frontend/src/pages/Inventory.tsx:125-129 | Only the item with the matching id takes the returned stock. Every other item is unchanged. |
| InventoryPage.PageState.PageChange | frontend/src/pages/Inventory.tsx:93-97 | A page outside 1..last_page is ignored. |
| InventoryPage.PageState.Loaded | frontend/src/pages/Inventory.tsx:70-77 | A response replaces the items and the pagination block, with the fallbacks applied. |
| InventoryPage.PageState.StockUpdated | frontend/src/pages/Inventory.tsx:125-129 | After a stock operation the list is UpdatedList, and the page and pagination are unchanged. |
| InventoryPage.PageState.SearchChanged | frontend/src/pages/Inventory.tsx:48-52 | A new search goes back to page 1. |
| AttendancePage.Buttons | frontend/src/pages/Attendance.tsx:400-410 | There are max(0, min(totalPages, 5)) buttons, each numbered by its index. |
| AttendancePage.ButtonsInRange | frontend/src/pages/Attendance.tsx:400-410 | With 1 ≤ current ≤ total, every button is a page in 1..total and the current page has a button. |
| AttendancePage.SameWindowAsInventory | frontend/src/pages/Attendance.tsx:400-410 | With the current page in range and more than one page, these buttons are exactly the inventory page's window. |
| AttendancePage.Pager.PageChange | frontend/src/pages/Attendance.tsx:189-193 | Only a page in 1..totalPages other than the current one is taken. |
| AttendancePage.Pager.Prev | frontend/src/pages/Attendance.tsx:195-199 | One page back, never below 1. |
| AttendancePage.Pager.Next | frontend/src/pages/Attendance.tsx:201-205 | One page on, never past totalPages. |
| StockModal.ParsedOrOne | frontend/src/components/StockModal.tsx:81 | `parseInt(text) \|\| 1` is never 0 and keeps any non-zero number. |
| StockModal.Dialog.Minus | frontend/src/components/StockModal.tsx:73 | One less, never below 1. The clamp invariant is kept. |
| StockModal.Dialog.Plus | frontend/src/components/StockModal.tsx:43-89 | One more. For a stock-out, never above the stock; for a stock-in, unbounded. |
| StockModal.Dialog.Input | frontend/src/components/StockModal.tsx:81 | For a stock-out the typed number is at most the stock. It is at least 1, except for a stock-out on an item with no stock, where the clamp gives 0. |
| StockModal.Dialog.Confirm | frontend/src/components/StockModal.tsx:26-32 | A positive quantity is sent with the note, then both reset. Otherwise nothing happens. |
| StockModal.Dialog.Close | frontend/src/components/StockModal.tsx:34-38 | Closing resets the quantity to 1 and the note to empty. |
| StockModal.ConfirmMatchesServerRules | frontend/src/components/StockModal.tsx:118 | The confirm button is enabled exactly when the server's min:1 and stock-out bound both accept the quantity. |
| StockModal.ReachableQuantities | frontend/src/components/StockModal.tsx:43-118 | The only clamped quantity above the stock is the initial 1 on an empty item, which the confirm button blocks. |
| EnvParser.JoinSplit | backend/force-env-reload.php:27 | Splitting on line feeds and joining back gives the original content. |
| EnvParser.SplitJoin | backend/force-env-reload.php:27 | Lines without line feeds, joined then split, give back the lines. |
| EnvParser.Trim | backend/force-env-reload.php:31 | trim leaves no strip character at either end. |
| EnvParser.TrimIsMiddle | backend/force-env-reload.php:31 | trim drops only strip characters, from both ends, and keeps the middle intact. |
| EnvParser.ParseLineCases | backend/force-env-reload.php:31-37 | A line is skipped exactly when, trimmed, it is falsy, starts with '#', or has no '='. A kept key has no surrounding blanks and a kept value no surrounding quotes. |
| EnvParser.ParseLineOfAssignment | backend/force-env-reload.php:34-37 | A clean `key=value` line gives exactly (key, value), even when the value holds further '='. |
| EnvParser.CommentIsSkipped | backend/force-env-reload.php:32 | An indented line starting with '#' is skipped. |
| EnvParser.ParseEnv | backend/force-env-reload.php:26-40 | The loop's map is the fold of the parsed lines. |
| EnvParser.DefinedByALine | backend/force-env-reload.php:30-40 | A key is defined exactly when some line assigns it. |
| EnvParser.LastLineWins | backend/force-env-reload.php:38 | A key takes the value of its last assigning line. |
| EnvParser.DbSettingsOfFile | backend/force-env-reload.php:66-69 | With no line for a setting, DB_HOST, DB_DATABASE, DB_USERNAME and DB_PASSWORD fall back to 127.0.0.1, forge, forge and the empty string. |
| Listing.Paginate | backend/app/Http/Controllers/Api/ItemController.php:53 | The page is the slice at (page−1)·perPage. The page number and size default to 1 and 15, and last_page ≥ 1 covers every row. from and to are present exactly when the page has rows, and nothing lies past the last page. |
| Listing.PagesCoverRows | backend/app/Http/Controllers/Api/ItemController.php:53 | Pages 1..last_page, concatenated, are exactly the rows. |
| Listing.SortBySorted | backend/app/Http/Controllers/Api/ItemController.php:51 | Sorting by a total preorder yields a sorted permutation. |
| Listing.Query | backend/app/Http/Controllers/Api/ItemController.php:22-53 | The page is page `page` of the matching rows arranged in some order sorted by the comparison. It keeps only matching rows, in order, and the total counts every match. |
| Listing.QueryPagesShareOneOrder | backend/app/Http/Controllers/Api/ItemController.php:51-53 | All pages are cut from one and the same sorted arrangement of the matching rows. |
| Listing.QueryFindsMatch | backend/app/Http/Controllers/Api/ItemController.php:51-53 | Every matching row is on one of the pages 1 to last_page. |
| Base.LikeIgnoresCase | backend/override-database-config.php:31 | A LIKE search ignores the letter case of both the column and the search text. |
| Base.LikeRespectsSameText | backend/override-database-config.php:31 | Texts the collation holds equal give the same LIKE result, on the column side and on the search side. |
| Base.NatToStringRoundTrip | backend/app/Models/AttendanceRecord.php:110 | The decimal text of a number reads back as that number. |

## Left out

- Item `price` is a decimal column; it is not modelled.
- Latitude and longitude of check-in and check-out are stored but never read; they are not modelled.
- `AttendanceController::history`, `today` and `debug` read through the same filters with a clock; they are not modelled.
- `show` on items, categories and units is a plain read; it is not modelled.
- Uploads, `storeAs`, `file_exists` and `unlink` are I/O. Uploaded file names are parameters. `Update` and `ForceDelete` return the name of the file to remove.
- `Inventory.Inventory.Update`: writes `stock` without a ledger entry, as the source does, so the ledger agrees with the stock only through stock-in and stock-out.
- `Inventory.Inventory.Restore` and `Inventory.Inventory.ForceDelete`: neither requires the row to be trashed, as in the source.
- `Inventory.Inventory.ForceDelete`: the `stock_movements` schema is not part of this model, so its foreign-key behaviour is unknown. The model assumes no constraint: the item's movements stay in the ledger. With `constrained()` the source's `forceDelete` would fail for an item with movements. With `cascadeOnDelete()` it would delete them.
- The two stock requests have no row lock. The model treats each transaction as one atomic step and does not model concurrent requests.
- An explicit JSON `null` for an optional field in `update` is modelled as "not sent". The model does not distinguish an explicit null from an absent field.
- `Attendance.Index`: a date filter sent as an empty string is modelled as absent. The source's `has()` would compare against the empty string.
- The `items()` relations of the Category and Unit models are not part of this model. `Catalog.Catalog.Destroy` takes the reference count as a parameter.
- React rendering, axios calls, toasts and the loading flags are not modelled. The components are reduced to their state and handlers.
- `parseInt` is a parameter. `StockModal.Dialog.Input` takes the parsed number or nothing.
- The stock dialog renders nothing without an item or a type. The model's dialog always has both.
- The rest of `backend/force-env-reload.php` is I/O and is not modelled: `putenv`, the cache file deletion, the PDO test and the JSON output.
- PHP turns integer-like array keys into integers. `EnvParser` keeps every key as a string, so it does not capture that conversion.
- `frontend/src/pages/TrashedItems.tsx` and `frontend/src/pages/AttendanceManagement.tsx` repeat the two button windows verbatim. `InventoryPage` and `AttendancePage` cover them.
- Carbon's time zone is not modelled. "Today" and "now" are parameters on the local clock, and `whereDate` compares whole days.
- `Base.Like`, `Base.CiLe` and `Base.SameText`: only ASCII letters are case-folded. `utf8mb4_unicode_ci` also folds accented and non-Latin letters and ignores trailing spaces; the model does not capture those.
- `Base.CiLe`: ASCII punctuation and symbols are ordered by character code after folding. `utf8mb4_unicode_ci` sorts them before digits and letters, so the source puts "~Box" before "Ban" and "_Kabel" before "1 Kabel", and the model gives the opposite order. This affects `Catalog.Options` and every text sort.
- `Inventory.MatchesQuery`: the category filter compares with `Base.SameText`, so like the search it folds only ASCII letters and does not ignore trailing spaces, as SQL `=` under the collation does.
- `Inventory.MatchesMovement`: the `type` filter is taken as a direction, in or out. The source compares the raw text with SQL `=`, so `IN` also matches and any other text matches nothing. The model cannot express a text that is not a direction.
- `Base.Like`: `%` and `_` typed into a search are matched literally. In the source's `LIKE '%…%'` they are wildcards, so the source can list rows the model does not.
- `Inventory.OrderByIsTotalPreorder`: `price`, `created_at` and `updated_at` are not sort columns in the model. A `sort_by` naming an unknown column, or a `sort_order` other than asc or desc, makes the source's query fail; the model's column and order types cannot express such a request.
- `Catalog.EntryOrderIsTotalPreorder`: the timestamps are not sort columns in the model, and an unknown column or direction is not expressible, as for items.
- `Listing.Paginate`: the page size is a natural number. The source passes `per_page` to `paginate` unchecked, so a negative size such as `-5` is accepted. Laravel then ignores the negative `LIMIT`, clamps the offset to 0 and reports last_page 1, so every match comes back on one page. The model cannot express that request.
- `Listing.QueryPagesShareOneOrder`: the database does not fix the order of rows that tie on the sort column. The model picks one arrangement and uses it for every page. The per-page contracts (`Listing.IsPageOf`) allow any sorted arrangement.
- `CsvExport.ExportCorrected` is the export with the no-data line fixed; the source's own behaviour is `CsvExport.Export`.
- Laravel's validation messages and HTTP status codes are named in the error datatypes only. Authentication and route registration are not modelled.

## Findings

| source | as written | input that shows it | evidently intended | confidence | as-written member | corrected member |
|---|---|---|---|---|---|---|
| backend/app/Http/Controllers/Api/AttendanceController.php:293 | the placeholder line is in single quotes, so it ends in a backslash and the letter n, not a line feed | an export with no matching records | the placeholder row ends in a line feed like every other row | not executed | CsvExport.EmptyExportAsWrittenIsUnreadable (over CsvExport.Export, which writes CsvExport.DocumentAsWritten) | CsvExport.EmptyExportReadsBack (over CsvExport.ExportCorrected, which writes CsvExport.Document) |
