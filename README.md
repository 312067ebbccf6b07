# audiolibri-editor, modelled in Dafny

audiolibri-editor is a web editor for a catalog of audiobooks. The catalog is a JSON object keyed by item id, and it is kept in a GitHub repository. The browser pages edit items and keep a ledger of pending changes. They let the user search, filter, sort and page through the catalog, validate fields, review and revert changes in an edit log, and manage genres. The server validates a submission, writes back only the fields that really differ, and opens a pull request with a summary. It also searches the catalog, saves the tabular editor's changes and hashes the data.

The model covers these parts:

- `values.dfy`: the JavaScript values the pages handle, and the built-ins they rely on. This covers truthiness, `===`, `String()`, `trim`, `toLowerCase`, `includes`, `parseInt` and string order.
- `collections.dfy`: insertion-ordered maps, which stand for JavaScript objects and `Map`s. Also filters, ranges and sequence helpers.
- `stable_sort.dfy`: `Array.prototype.sort`, which is stable.
- `validation.dfy`: `ValidationManager` (`public/validation.js`).
- `main_editor.dfy`, `main_views.dfy`, `main_page.dfy`, `paging.dfy`, `export.dfy`, `change_store.dfy`: the main page (`public/script.js`). This covers item editing and its change ledger, search and filters, pagination, bulk edit, the pull-request form, CSV export, XML escaping, and the localStorage snapshot of pending changes.
- `json_cells.dfy`, `json_view.dfy`, `json_ledger.dfy`, `json_editor.dfy`: the tabular JSON editor (`public/json-editor.js`). This covers columns, cell parsing and validation, the filtered and sorted view, pages, the edit ledger with undo, bulk edit and delete, and saving.
- `edit_log.dfy`: the edit-log page (`public/edit-log.js`). This covers statistics, grouping, filters, sorting and revert.
- `genres.dfy`, `genre_similarity.dfy`: genre management (`public/genre-management.js`). This covers the genre table, suspicious-genre detection by Levenshtein distance, merge, delete, add, edit, the rendered list and applying the changes.
- `server.dfy`: the server's core (`server.js`). This covers `/api/submit` validation, reconciliation and summary, `/api/search`, `/api/data/save`, and the content hash.

Methods that change state are modelled as classes: the editor objects and the page closures with their variables. Pure computations are modelled as functions, with lemmas stating what the source promises of them.

## Model

| member | source | states |
|---|---|---|
| Validation.ValidateYearOfNumber | public/validation.js:29-33 | a numeric year is accepted exactly when 1000 ≤ year ≤ currentYear + 5 |
| Validation.ValidateYearOfText | public/validation.js:29-33 | the same year typed as decimal text gets the same verdict (`parseInt` round trip) |
| Validation.DurationPatternBounds | public/validation.js:7 | every duration text the pattern accepts splits at `:` into 1-3 digit fields; hours ≤ 23, minutes and seconds ≤ 59 |
| Validation.ClockReadingAccepted | public/validation.js:7 | conversely, every reading `m:ss` and `h:mm:ss` with h ≤ 9 and m, s ≤ 59 is accepted |
| Validation.ValidateRequired | public/validation.js:45-50 | invalid exactly for a falsy value or a whitespace-only string, with the message `<name> è obbligatorio` |
| Validation.RequiredStringHasContent | public/validation.js:45-50 | a string passes exactly when it holds a non-whitespace character |
| Validation.TextLength | public/validation.js:53 | a falsy value has length 0; a string has its own length |
| Validation.ValidateLength | public/validation.js:52-61 | valid exactly when min ≤ length ≤ max; the minimum message is chosen first, then the maximum message |
| Validation.ValidateGenre | public/validation.js:63-80 | any of the five suspicious patterns gives `Genere sospetto o non valido` |
| Validation.ValidGenreShape | public/validation.js:63-80 | an accepted genre has 2 to 50 characters, starts with a letter or whitespace, holds no markup character and no run of three digits |
| Validation.BlankGenreRejected | public/validation.js:66 | every blank genre is rejected, however long |
| Validation.PrefixAccepted | public/validation.js:25-27 | every http(s) address with an optional `www.` and one of the three YouTube paths is accepted, whatever follows |
| Validation.YouTubeUrlIsHttp | public/validation.js:25-27 | every accepted address starts with `http` |
| Validation.ValidateItemData | public/validation.js:82-139 | the report is valid exactly when its error list is empty |
| Validation.MissingRequiredReported | public/validation.js:86-96 | a missing or blank title or author makes the report invalid, with an error for that field |
| Validation.ValidItemShape | public/validation.js:82-139 | an accepted item has a title and an author with content, a title of at most 200 characters, and (when set) a valid year and a valid genre |
| MainEditing.Filled | public/script.js:685-690 | the kept form keeps exactly the fields that are neither `''` nor `null`, with their values |
| MainEditing.DropEmpty | public/script.js:685-690 | the loop over the form's keys yields `Filled(form)` |
| MainEditing.FilledFields | public/script.js:685-690 | the loop's specification keeps exactly the non-empty fields, with their values |
| MainEditing.ChangedKeys | public/script.js:692-699 | a key is listed exactly when the form holds it and its value is not `===` the item's |
| MainEditing.HasChanges | public/script.js:692-699 | `hasChanges` is true exactly when some form value is not `===` the item's |
| MainEditing.StoredFields | public/script.js:709-722 | the pending entry holds the earlier entries plus every changed field, with the form's value, and keeps the earlier key order |
| MainEditing.RecordChanges | public/script.js:714-736 | the loop stores every changed field in the pending entry and appends one history record per changed field, in form order |
| MainEditing.UpdateLogsExactlyTheChanges | public/script.js:720-736 | every record names the item and a changed field, with the new value (or `''`) and the old value (or `''`); every changed field has a record |
| MainEditing.StoreKeepsAgreement | public/script.js:707-722 | after the update, each pending value still equals the catalog's current value |
| MainEditing.BulkUpdates | public/script.js:1052-1087 | the updates hold `real_genre` and `real_language` when truthy, and `processed === (value === 'true')` when that box is ticked |
| MainEditing.BulkItem | public/script.js:1064-1114 | one selected item: the catalog keeps its ids and order |
| MainEditing.BulkEditItem | public/script.js:1064-1114 | the per-item step computes `BulkItem` |
| MainEditing.BulkEdit | public/script.js:1064-1115 | the loop over the selection computes `BulkAll` |
| MainEditing.LogChanges | public/script.js:1100-1113 | appends one `_bulk` history record per update that differs from the previous value |
| MainEditing.BulkItemAt | public/script.js:1089-1091 | a found item with non-empty updates becomes `{...item, ...updates}`; every other item is unchanged |
| MainEditing.BulkCatalog | public/script.js:1064-1115 | after the whole selection, each item is the item merged with the updates once for every time it is selected; ids and order are unchanged |
| MainEditing.BulkItemPending | public/script.js:1093-1097 | the item's pending entry gains every update; every other pending entry is unchanged |
| MainEditing.BulkPending | public/script.js:1064-1115 | after the whole selection, the pending entries are those of `PendingAfter` |
| MainEditing.BulkKeepsAgreement | public/script.js:1064-1115 | bulk edit keeps each pending value equal to the catalog's current value |
| MainViews.ByGenreMembers | public/script.js:403-409 | the genre filter keeps exactly the items whose `real_genre` is `===` the chosen genre, with their values |
| MainViews.ByStatusMembers | public/script.js:412-430 | the status filter keeps processed items (`processed === true`), pending items (`processed !== true`) or items with pending changes; any other status keeps everything |
| MainViews.FilterCatalogMembers | public/script.js:402-430 | both filters keep exactly the items passing both tests, with their values |
| MainViews.FilterCatalogOrder | public/script.js:402-430 | the filtered catalog keeps the base catalog's key order |
| MainViews.FiltersCompoundAsWritten | public/script.js:399-434 | as written, with a search active, filtering by genre A and then by another genre B leaves nothing |
| MainViews.FiltersSelectFromSearch | public/script.js:399-434 | the corrected filter selects from the search results when a search is active (else from the whole catalog), exactly the items passing the tests |
| MainViews.ListOrder | public/script.js:450-458 | the listing is a permutation of the view's keys |
| MainViews.ListOrderModifiedFirst | public/script.js:450-458 | the stable sort puts the modified items first and the others after, each group in catalog order |
| MainViews.RenderItemsPage | public/script.js:437-543 | an empty view shows the "nothing found" state; otherwise the page lists the `page`-th slice of the listing, with the total and a 1-based `from`-`to` range covering the slice |
| MainViews.Statistics | public/script.js:313-335 | total, processed (`processed === true`), pending = total − processed, and modified = number of pending items |
| MainViews.ListedIdsFirstTen | public/script.js:831-843 | when every pending item is in the catalog, the description lists the first ten pending items in ledger order |
| MainViews.DescribeChanges | public/script.js:827-849 | the loop builds the description lines of the listed items |
| MainViews.OpenPrDefaults | public/script.js:808-861 | no pending change gives no form; otherwise the branch `update-audiolibri-<now>`, the commit message and title with the item count, and the description |
| MainViews.SentRequestIsComplete | public/script.js:863-908 | the request is sent exactly when branch, message and title have visible text and changes are pending; it carries the whole ledger and the trimmed texts |
| MainViews.SubmitOutcomeSpec | public/script.js:909-961 | success exactly for an ok answer with a truthy `success`, carrying `prUrl`; every failure message starts with the fixed prefix |
| MainViews.StatusHints | public/script.js:909-961 | an HTTP error status gets the 500, 401 or 403 hint, and any other status is reported as `HTTP error! status: <n>` |
| MainPage.UpdateLedgerCatalog | public/script.js:706-707 | the edited item gets every kept form value and keeps its other fields; every other item and the key order are unchanged |
| MainPage.UpdateLedgerPending | public/script.js:709-722 | the item's pending entry holds every differing form value and keeps its earlier entries for the other fields; every other pending entry is unchanged |
| MainPage.UpdateLedgerHistory | public/script.js:717-736 | the history is extended, never rewritten, with exactly one record per differing field, old and new value defaulting to `''` |
| MainPage.UpdateLedgerAgrees | public/script.js:706-722 | updating keeps each pending value equal to the catalog's current value |
| MainPage.Toggled | public/script.js:516-525 | the selection holds the item exactly when the box is checked, other items are unchanged, and no item is listed twice |
| MainPage.FilteringShowsFiltered | public/script.js:399-434 | the view the page shows after filtering is the filter's result |
| MainPage.SubmitClearsOnlyOnSuccess | public/script.js:863-968 | nothing is sent (and nothing changes) when a field is blank or no change is pending; a sent request carries the whole ledger and the trimmed fields; the ledger and history are emptied exactly on an ok reply with a truthy `success` |
| MainPage.MainEditor.constructor | public/script.js:74-90 | the page starts with an empty catalog, the stored pending changes and history, page 1 of 20 items, and no filter |
| MainPage.MainEditor.Counters | public/script.js:313-335 | processed plus pending equals total |
| MainPage.MainEditor.LoadData | public/script.js:237-276 | the catalog and the view become the loaded data; nothing else changes |
| MainPage.MainEditor.PerformSearch | public/script.js:337-397 | a blank query clears the search and re-applies the filters; a query over 200 characters or a failed request changes nothing; otherwise the results are shown from page 1 |
| MainPage.MainEditor.ClearSearch | public/script.js:392-397 | the search is dropped and the filters are applied to the whole catalog from page 1 |
| MainPage.MainEditor.ApplyFilters | public/script.js:399-434 | the corrected filter: the view becomes the filtered search results (or catalog) from page 1 |
| MainPage.MainEditor.SetItemsPerPage | public/script.js:117-121 | the page size changes and the page goes back to 1; nothing else changes |
| MainPage.MainEditor.GoToPage | public/script.js:986-990 | only the current page changes |
| MainPage.MainEditor.SelectItem | public/script.js:545-546 | only the current item changes |
| MainPage.MainEditor.ToggleSelection | public/script.js:516-525 | only the selection changes, as `Toggled` says |
| MainPage.MainEditor.UpdateItem | public/script.js:636-759 | the verdict (no item, invalid form, no change, updated) follows the source's order; only an update changes the page, as `UpdateLedger` says; ledger agreement is preserved |
| MainPage.MainEditor.StoreUpdate | public/script.js:706-740 | the catalog, pending changes and history become `UpdateLedger` of the old ones; ledger agreement is preserved |
| MainPage.MainEditor.ApplyBulkEdit | public/script.js:1046-1139 | an empty selection changes nothing; otherwise every selected item is bulk-edited in order, the selection is cleared, the count is the selection's size, and ledger agreement is preserved |
| MainPage.MainEditor.SubmitChanges | public/script.js:863-968 | the new page, the request sent and the outcome are those of `Submitted` |
| Paging.TotalPagesBounds | public/script.js:972 | `Math.ceil(total / perPage)` pages hold every item, and the last page is not empty |
| Paging.PageOf | public/json-editor.js:419-423 | a page holds at most `perPage` items, as many as remain from its start |
| Paging.PageInRangeNonEmpty | public/json-editor.js:419-423 | every page from 1 to the page count is non-empty, and every page before the last is full |
| Paging.PageOfIndex | public/script.js:461-463 | the `t`-th entry of a page is the entry at `(page - 1) * perPage + t` |
| Paging.ItemOnItsPage | public/script.js:461-463 | every entry appears on page `k / perPage + 1`, at position `k % perPage` |
| Paging.AllPagesCover | public/json-editor.js:419-423 | the pages, read in order, give back the whole sequence |
| Paging.Window | public/script.js:1021-1024 | the numbered buttons run from the first to the last page of the window, the current one marked active |
| Paging.ButtonsSound | public/script.js:970-1044 | every button of the main page's pagination targets a page in range; with more than one page it shows the current page and links to the first and last pages and to both neighbours |
| Paging.EditorButtonsSound | public/json-editor.js:329-389 | every button of the editor's pagination targets a page in range; it shows the current page and links to the first and last pages |
| Paging.EditorArrows | public/json-editor.js:343-385 | the editor's first and last buttons are the arrows, disabled on the first and on the last page, and link to the neighbouring pages |
| Export.ReplaceAll | public/script.js:1291-1296 | a global replace leaves a text without the character unchanged, and leaves no occurrence when the replacement does not contain it |
| Export.EscapeXmlNoMarkup | public/script.js:1290-1297 | the escaped text holds no `<`, `>`, `"` or `'`, and every `&` starts one of the five entities |
| Export.EscapeXmlIsPerCharacter | public/script.js:1290-1297 | the five chained replacements escape each character on its own, `&` first, so no entity is escaped twice |
| Export.UnescapeEscapeXml | public/script.js:1290-1297 | escaping loses nothing: decoding the five entities gives back the text |
| Export.CollectHeaders | public/script.js:1239-1245 | the headers are every key of every item, each once, in first-seen order |
| Export.AllKeysMembership | public/script.js:1240-1243 | a key is collected exactly when some item has it |
| Export.CsvCell | public/script.js:1249-1257 | strings and arrays are quoted; a falsy non-string gives an empty cell; a non-zero number gives its decimal text |
| Export.CsvText | public/script.js:1235-1263 | the CSV text is empty exactly when there are no items |
| Export.ConvertToCsv | public/script.js:1235-1263 | the loop builds `CsvText` |
| Export.CsvStringCellRoundTrip | public/script.js:1254-1256 | a string cell is the text with its quotes doubled, inside quotes, and undoubling gives back the text |
| Export.JsRem | public/script.js:1495-1496 | `%` truncates toward zero: the remainder has the dividend's sign |
| Export.FormatDuration | public/script.js:1492-1503 | the text is empty exactly for 0 seconds, and shows an hours field exactly from 3600 seconds |
| Export.FormatDurationFields | public/script.js:1492-1503 | `h*3600 + m*60 + s` seconds (m, s < 60) are shown as those hours, minutes and seconds |
| Export.FormatDate | public/script.js:1505-1512 | an empty date gives `''`; otherwise two slashes plus at most eight characters |
| Export.FormatDateRoundTrip | public/script.js:1505-1512 | an eight-character `YYYYMMDD` becomes `DD/MM/YYYY`, and the parts read back give the input |
| Export.FormatDateShort | public/script.js:1505-1512 | a date of at most four characters becomes `//` followed by it |
| ChangeStore.ItemTitle | public/script.js:715 | the logged title is `real_title`, else `title`, else `Elemento <id>`, and is always truthy |
| JsonCells.FindRow | public/json-editor.js:1300 | the found row is the first whose key (`item.id \|\| index`) is loosely equal to the id; none is found exactly when no row's key matches |
| JsonCells.FindRowSameKeys | public/json-editor.js:1300 | the lookup depends only on the rows' ids |
| JsonCells.EditKeepsKeys | public/json-editor.js:1328 | writing any field other than `id` keeps every row's id |
| JsonCells.LoadedRowFound | public/json-editor.js:70-74 | after loading, each item is found by its own id at its own position |
| JsonCells.FormatColumnName | public/json-editor.js:164-166 | same length, every `_` becomes a space, and other characters are kept or upper-cased |
| JsonCells.ValidateCellValue | public/json-editor.js:1208-1264 | at most one error; `null`/`undefined` and unchecked columns give none |
| JsonCells.YearCellAccepted | public/json-editor.js:1213-1220 | a numeric year is accepted exactly when 0 ≤ year ≤ currentYear + 10 |
| JsonCells.CountCellAccepted | public/json-editor.js:1222-1231 | a count or duration is accepted exactly when it is not negative |
| JsonCells.LanguageCellAccepted | public/json-editor.js:1233-1240 | a language text is accepted exactly when it is empty or one of the ten codes, ignoring case |
| JsonCells.ListCellAccepted | public/json-editor.js:1253-1260 | a list of categories or tags is accepted exactly when every entry is a non-blank string |
| JsonCells.ParseValue | public/json-editor.js:781-821 | `''` and `'null'` become `null`, and no text becomes `undefined` |
| JsonCells.ParsedListAccepted | public/json-editor.js:796-801 | whatever is typed into a list column parses into a list the validator accepts |
| JsonCells.ParsedYearRoundTrip | public/json-editor.js:789-794 | a year typed as decimal text parses back to that number, and is accepted when within currentYear + 10 |
| JsonCells.ParsedCountAccepted | public/json-editor.js:789-794 | a count typed as decimal text parses back to that number and is accepted |
| JsonCells.PreferredColumns | public/json-editor.js:111-128 | the present priority and important columns, each once, none hidden by default |
| JsonCells.InitialColumns | public/json-editor.js:103-140 | at most 15 distinct present columns, never a hidden one; every present priority and important column is shown; fewer than 15 means every showable column is shown |
| JsonCells.InitialColumnsSplit | public/json-editor.js:117-140 | the initial columns are the preferred ones followed by the first remaining eligible ones, up to 15 |
| JsonCells.Eligible | public/json-editor.js:132-136 | a remaining column is one present, not yet shown, not hidden by default and not `transcript` |
| JsonCells.HiddenColumns | public/json-editor.js:142 | the hidden columns are exactly the present columns not shown |
| JsonCells.NextCell | public/json-editor.js:824-848 | the next or previous cell stays within the row's width |
| JsonCells.NextCellReadingOrder | public/json-editor.js:824-848 | Tab moves one cell forward and Shift+Tab one back in reading order, wrapping rows; each undoes the other |
| JsonView.Matching | public/json-editor.js:271-288 | the matching rows, in table order: exactly those passing the global search and the column filter |
| JsonView.View | public/json-editor.js:268-320 | the view is a permutation of the matching rows |
| JsonView.ViewMembers | public/json-editor.js:268-320 | the view holds each matching row exactly once, and nothing else |
| JsonView.ViewUnsorted | public/json-editor.js:268-291 | with no sort column the view is the matching rows in table order |
| JsonView.ViewNullsLast | public/json-editor.js:296-298 | rows whose sort key is `null` or `undefined` come after all the others, in either direction |
| JsonView.ViewSortedByNumber | public/json-editor.js:300-303 | when every matching row holds a number, the view is sorted by it, ascending or descending |
| JsonView.ViewSortedByText | public/json-editor.js:305-313 | when no matching row holds a number or lacks the key, the view is sorted by the lower-cased text, ascending or descending |
| JsonView.TextCompare | public/json-editor.js:305-313 | on text keys the comparator ranks a row after another exactly when the other's text comes first in the chosen direction |
| StableSort.SortByPermutes | public/json-editor.js:292 | sorting keeps every element, as often as it occurs |
| StableSort.SortPartition | public/script.js:451-458 | a comparator that ranks one class first gives that class, in order, followed by the rest, in order |
| StableSort.SortSortedByKey | public/json-editor.js:292 | a comparator that orders by an integer key sorts by that key |
| StableSort.SortSortedBy | public/json-editor.js:292 | a comparator that follows a strict weak order sorts by that order |
| JsonLedger.PutKeepsValid | public/json-editor.js:1311-1320 | recording a non-empty change map for an item keeps the change log well-formed |
| JsonLedger.PutEntry | public/json-editor.js:1311-1320 | the change log with that item's changes recorded stays well-formed |
| JsonLedger.Record | public/json-editor.js:1317-1323 | after recording, the column has a change and the item's change map is not empty |
| JsonLedger.Edit | public/json-editor.js:1298-1340 | the edit succeeds exactly when the row is found and the value passes validation; a failed edit changes neither the rows nor the change log |
| JsonLedger.EditWritesCell | public/json-editor.js:1298-1340 | a successful edit writes the new value into the found row's column and changes no other cell |
| JsonLedger.EditRecordsChange | public/json-editor.js:1309-1323 | a real change is logged as (first old value, new value), keeping the earliest old value, and no other item's or column's log entry changes |
| JsonLedger.EditSameValue | public/json-editor.js:1309-1333 | writing the value a cell already holds (strictly equal) succeeds and changes nothing |
| JsonLedger.EditKeepsOriginals | public/json-editor.js:1318-1321 | every logged old value survives any edit |
| JsonLedger.RecordEntryKeepsBefore | public/json-editor.js:1311-1321 | recording one change keeps every other logged old value |
| JsonLedger.RecordKeepsBefore | public/json-editor.js:1316-1321 | recording in an item's map keeps that item's logged old values |
| JsonLedger.EditKeepsRowKeys | public/json-editor.js:1324 | an edit of a column other than `id` keeps every row's id |
| JsonLedger.Undo | public/json-editor.js:1072-1093 | with no changes logged, undo changes nothing; otherwise the log stays well-formed and the row count is kept |
| JsonLedger.Drop | public/json-editor.js:1085-1089 | dropping a column's change keeps the log well-formed |
| JsonLedger.DropLast | public/json-editor.js:1078-1089 | dropping an item's last-logged column removes exactly that column, and the item itself when it was its only column; other items keep their changes |
| JsonLedger.DropLastOrder | public/json-editor.js:1076-1089 | the remaining items keep their order; the last item leaves the list only with its last column |
| JsonLedger.UndoLast | public/json-editor.js:1072-1093 | undo restores the logged old value of the last-edited column of the last-edited item, changes no other cell and drops exactly that change; an item that is no longer in the table leaves everything as it was |
| JsonLedger.DropFresh | public/json-editor.js:1085-1089 | dropping the only change of an item added last gives back the earlier log |
| JsonLedger.EditFresh | public/json-editor.js:1311-1324 | the first real edit of an item writes the cell and appends that item with one change (old, new) |
| JsonLedger.UndoOfFresh | public/json-editor.js:1072-1093 | undoing an item's only change restores the old value and the earlier log |
| JsonLedger.UndoAfterFirstEdit | public/json-editor.js:1072-1093 | an edit followed by undo gives back the original rows and change log |
| JsonLedger.UndoWrite | public/json-editor.js:1082-1089 | undoing a write recorded as (prior, new) restores the prior value and the earlier log |
| JsonLedger.WriteTwice | public/json-editor.js:1324 | a second write to the same cell overrides the first |
| JsonLedger.NewValues | public/json-editor.js:1713-1715 | the payload for an item lists its changed fields in the order they were first changed |
| JsonLedger.Flatten | public/json-editor.js:1710-1716 | the save payload is a well-formed map of item to field to value |
| JsonLedger.FlattenExact | public/json-editor.js:1710-1716 | with distinct item names, the payload holds every logged item in order, each with its changed fields in order and their newest values |
| JsonLedger.BulkEdit | public/json-editor.js:1936-1940 | the bulk edit keeps the log well-formed and the row count, and counts at most one success per selected id |
| JsonLedger.BulkEditStep | public/json-editor.js:1937-1940 | each selected id adds one edit, in selection order, and one to the count when it succeeds |
| JsonLedger.BulkEditRejected | public/json-editor.js:1936-1940 | a value that fails validation changes nothing and counts nothing |
| JsonLedger.BulkEditCount | public/json-editor.js:1936-1940 | a valid value counts exactly the selected ids found in the table, and no row's id changes |
| JsonLedger.BulkEditKeepsOriginals | public/json-editor.js:1937-1940 | a bulk edit keeps every logged old value |
| JsonLedger.Unselected | public/json-editor.js:1958-1961 | the rows kept by a bulk delete are exactly those whose key (taken before deleting) is not selected, in table order |
| JsonEditing.SaveFailure | public/json-editor.js:1728-1758 | a save fails exactly when the request threw, the reply is not OK or it does not report success; the server's error text is kept |
| JsonEditing.AbsentChar | public/json-editor.js:1766-1774 | a text lacking one of a pattern's characters does not contain the pattern |
| JsonEditing.StatusDigits | public/json-editor.js:1731 | the statuses 401, 403 and 404 print as their three digits |
| JsonEditing.SaveErrorOffline | public/json-editor.js:1766-1767 | a failed fetch is reported as a connection error |
| JsonEditing.SaveErrorUnauthorized | public/json-editor.js:1768-1769 | an HTTP 401 without an error text is reported as an authentication error |
| JsonEditing.SaveErrorForbidden | public/json-editor.js:1770-1771 | an HTTP 403 without an error text is reported as access denied |
| JsonEditing.SaveErrorNotFound | public/json-editor.js:1772-1773 | an HTTP 404 without an error text is reported as repository or file not found |
| JsonEditing.SaveErrorOther | public/json-editor.js:1763 | any other failure is reported with the generic prefix followed by the error text |
| JsonEditing.DeleteNoticeSaysZero | public/json-editor.js:1963-1966 | deleting one selected row still announces "0 elementi eliminati", because the selection is cleared before the notice reads its size |
| JsonEditing.OneSelectedRowDeleted | public/json-editor.js:1958-1961 | a table of one selected row loses that row |
| JsonEditing.DeletedCount | public/json-editor.js:1958-1961 | the number of deleted rows is the number of rows whose key is selected |
| JsonEditing.FilterSameOn | public/json-editor.js:1958-1961 | two predicates that agree on a list keep the same elements of it |
| JsonEditing.PageRows | public/json-editor.js:419-423 | the current page's rows are the rows at the current page's view positions |
| JsonEditing.PageKeys | public/json-editor.js:1785 | the keys of the current page are exactly the keys of its rows |
| JsonEditing.BuildPayload | public/json-editor.js:1710-1716 | the loop builds exactly the flattened change log |
| JsonEditing.NewEntry | public/json-editor.js:1712-1715 | the inner loop builds exactly the item's field-to-new-value map |
| JsonEditing.CollectColumns | public/json-editor.js:97-101 | the columns are sorted and distinct, and are exactly the keys found in some row |
| JsonEditing.ChooseVisible | public/json-editor.js:111-140 | the loop chooses exactly the initial visible columns |
| JsonEditing.FillVisible | public/json-editor.js:130-140 | the preferred columns are topped up with the first eligible ones, up to 15 |
| JsonEditing.JsonEditor.constructor | public/json-editor.js:3-31 | an empty editor: no rows, page 1 of 50, no changes, no filter, no sort, ascending, nothing selected |
| JsonEditing.JsonEditor.UpdateItemValue | public/json-editor.js:1298-1340 | the rows and the change log become those of the edit, and nothing else changes |
| JsonEditing.JsonEditor.UndoLastChange | public/json-editor.js:1072-1093 | the rows and the change log become those of undo, and nothing else changes |
| JsonEditing.JsonEditor.SaveChanges | public/json-editor.js:1700-1781 | nothing to save gives the "Nessuna modifica da salvare" error; otherwise the flattened log is sent, and it is cleared exactly when the save succeeds, else the mapped error is shown |
| JsonEditing.JsonEditor.AutoSave | public/json-editor.js:1686-1698 | the timer saves only when there are changes |
| JsonEditing.JsonEditor.ApplyFiltersAndSort | public/json-editor.js:268-320 | the filtered rows become the view of the rows under the filters and sort, and the page resets to 1 |
| JsonEditing.JsonEditor.SetGlobalSearch | public/json-editor.js:178-181 | the global search becomes the lower-cased text and the view is recomputed |
| JsonEditing.JsonEditor.SetFilterColumn | public/json-editor.js:183-186 | the filter column is set and the view is recomputed |
| JsonEditing.JsonEditor.SetFilterValue | public/json-editor.js:188-191 | the filter value becomes the lower-cased text and the view is recomputed |
| JsonEditing.JsonEditor.SetSort | public/json-editor.js:198-206 | the sort column and direction are set and the view is recomputed |
| JsonEditing.JsonEditor.ClearFilters | public/json-editor.js:900-908 | filters and sort are cleared and the view is every row in table order |
| JsonEditing.JsonEditor.GoToPage | public/json-editor.js:391-398 | the page changes only to a page between 1 and the page count |
| JsonEditing.JsonEditor.SelectAllItems | public/json-editor.js:1784-1787 | the selection becomes exactly the keys of the current page's rows, each once |
| JsonEditing.JsonEditor.ClearSelection | public/json-editor.js:1789-1792 | the selection becomes empty and nothing else changes |
| JsonEditing.JsonEditor.ClickRow | public/json-editor.js:455-476 | a Ctrl/Cmd-click toggles the row's key in the selection; a plain click makes it the only selected key |
| JsonEditing.JsonEditor.ApplyBulkEdit | public/json-editor.js:1924-1950 | without a field nothing happens; otherwise the parsed value is written into every selected row as the bulk edit does, its count is reported and the selection is cleared |
| JsonEditing.JsonEditor.BulkDelete | public/json-editor.js:1952-1967 | when confirmed, the unselected rows are kept, the view is recomputed and the notice gives the number of rows actually deleted |
| JsonEditing.JsonEditor.ReloadRemoteData | public/json-editor.js:1549-1579 | with unsaved changes and no confirmation nothing changes; otherwise the log is cleared and the rows reloaded |
| JsonEditing.JsonEditor.LoadData | public/json-editor.js:50-93 | the rows become the fetched items in order, or none on failure; the columns are recomputed and the view rebuilt |
| JsonEditing.JsonEditor.ExtractColumns | public/json-editor.js:95-145 | all, visible and hidden columns are recomputed from the rows |
| EditLog.Statistics | public/edit-log.js:66-86 | the item count is the number of pending items, saving is enabled exactly when some change is pending, and the last-modified time is that of the last history record, or none without history |
| EditLog.FieldCountZero | public/edit-log.js:68-70 | the change total is zero exactly when every pending item has no changed field |
| EditLog.FieldCountAtLeast | public/edit-log.js:68-70 | with no empty item entries, there are at least as many changes as items |
| EditLog.StatisticsCounts | public/edit-log.js:66-86 | saving is enabled exactly when some item has a changed field; without empty entries, exactly when some item is pending |
| EditLog.GroupedUpTo | public/edit-log.js:97-107 | grouping the history gives a well-formed map of item to group |
| EditLog.WithRecord | public/edit-log.js:99-107 | adding one record keeps the grouping well-formed |
| EditLog.GroupOfHolds | public/edit-log.js:97-107 | after any prefix of the history, each item's group holds exactly its records of that prefix, titled by the first |
| EditLog.GroupingPartitions | public/edit-log.js:97-107 | an item has a group exactly when it has a record; the group holds all its records in history order, titled by the first record's title or "Elemento <id>" |
| EditLog.GroupChanges | public/edit-log.js:98-107 | the loop builds exactly the grouping |
| EditLog.AddChange | public/edit-log.js:100-106 | one loop step adds exactly one record to the grouping |
| EditLog.Entries | public/edit-log.js:110 | the entries list the groups in first-appearance order, one per item |
| EditLog.DisplayName | public/edit-log.js:205-217 | `real_title` is shown as "Titolo", and an unknown field as itself |
| EditLog.FilterEntries | public/edit-log.js:219-248 | a group is kept exactly when it matches both the search and the type filter |
| EditLog.TypeFilterPartition | public/edit-log.js:234-241 | a field is of type "other" exactly when it is none of title, author, genre, language and synopsis |
| EditLog.AnyMatchStep | public/edit-log.js:227-231 | some record from position i on matches exactly when record i or a later one does |
| EditLog.ChangesAsWrittenAgree | public/edit-log.js:227-231 | over text values, the scan as written never throws and finds a match exactly when some record matches |
| EditLog.SearchAsWrittenAgrees | public/edit-log.js:225-231 | over a text title and text values, the search as written agrees with the corrected search |
| EditLog.BulkProcessedSearchThrows | public/edit-log.js:229-230 | a group whose record logs the boolean `true` makes the search as written throw |
| EditLog.TitleMisses | public/edit-log.js:226 | the title "Libro" does not contain "zz" |
| EditLog.LabelMisses | public/edit-log.js:228 | the label of `processed` does not contain "zz" |
| EditLog.NotContainedIn | public/edit-log.js:226-230 | a text lacking one of a word's characters does not contain the word |
| EditLog.NotInLower | public/edit-log.js:226-230 | a letter that is absent in both cases is absent after lower-casing |
| EditLog.Latest | public/edit-log.js:254-255 | a group's time is one of its record timestamps and no record is later |
| EditLog.SortEntries | public/edit-log.js:250-264 | sorting keeps the number of groups |
| EditLog.SortEntriesOrder | public/edit-log.js:250-264 | sorting is a permutation; "oldest" orders by latest time ascending, and every order except "oldest" and "item" by latest time descending |
| EditLog.ListedGroups | public/edit-log.js:97-112 | every listed group holds exactly its item's records, is not empty and passes both filters |
| EditLog.ListedWhenUnfiltered | public/edit-log.js:97-112 | without search or type filter, every item with a record is listed |
| EditLog.FindChange | public/edit-log.js:358 | the first record with the id, or none when no record has it |
| EditLog.Reverted | public/edit-log.js:363-369 | removing a change keeps the pending changes well-formed |
| EditLog.RevertedFields | public/edit-log.js:363-369 | a truthy pending value of the field is deleted, and the item too when it empties; a falsy or missing one leaves everything as it was; no other item or field changes |
| EditLog.RevertedNoEmptyEntries | public/edit-log.js:366-368 | reverting never leaves an item with no changes |
| EditLog.SpliceKeepsOthers | public/edit-log.js:372 | the splice removes exactly the one record and keeps all the others |
| EditLog.DropItemKeepsOtherGroups | public/edit-log.js:386 | after reverting an item none of its records remain, and every other item keeps all its records |
| EditLog.NothingPasses | public/edit-log.js:386 | a filter that rejects everything keeps nothing |
| EditLog.EditLogPage.Shown | public/edit-log.js:89-93 | nothing is shown when no change is pending |
| EditLog.EditLogPage.Counters | public/edit-log.js:66-86 | the counters count the pending items, and saving is enabled exactly when some change is pending |
| EditLog.EditLogPage.constructor | public/edit-log.js:1-46 | the page loads the stored pending changes and history and renders them |
| EditLog.EditLogPage.RenderChanges | public/edit-log.js:88-120 | the list is regrouped, filtered and sorted from the history, and nothing stored changes |
| EditLog.EditLogPage.RevertSingleChangeById | public/edit-log.js:357-381 | an unknown id changes nothing; otherwise the field's pending change is removed, exactly that record leaves the history and the list is rendered again |
| EditLog.EditLogPage.UndoField | public/edit-log.js:363-369 | the pending changes become those with the field reverted, and nothing else changes |
| EditLog.EditLogPage.RevertItemChanges | public/edit-log.js:383-395 | the item's pending changes and all its history records are removed, and the list is rendered again |
| EditLog.EditLogPage.ClearAllChanges | public/edit-log.js:320-328 | no pending change and no history remain, nothing is shown, and the counters read zero |
| Genres.ReadGenre | public/genre-management.js:52-54 | a counted genre is the non-empty trimmed text of a string `real_genre`; reading throws exactly on a truthy value that is not a string |
| Genres.ReadGenreTrimmed | public/genre-management.js:53-54 | the counted name is the trimmed text, so trimming it again changes nothing |
| Genres.Counted | public/genre-management.js:52-70 | counting one item keeps every genre already listed and lists the item's genre |
| Genres.Bumped | public/genre-management.js:63-64 | counting an item adds one to the count and appends the item |
| Genres.TallyUpTo | public/genre-management.js:51-71 | the tally of any prefix of the catalog is well-formed |
| Genres.TallyStep | public/genre-management.js:51-71 | each item extends the tally of the items before it by one count step |
| Genres.StopAt | public/genre-management.js:51-71 | the count stops at the first item whose genre throws, or runs to the end when none does |
| Genres.Loaded | public/genre-management.js:46-76 | the loaded genre table is well-formed |
| Genres.TallyEntries | public/genre-management.js:51-71 | a genre is listed exactly when some item has it; its entry holds exactly those items, in catalog order, and counts them |
| Genres.EntryStep | public/genre-management.js:55-64 | one count step keeps the entries exact |
| Genres.TallyStamps | public/genre-management.js:66-69 | a genre is marked modified (at the given time) exactly when one of its items has pending changes |
| Genres.StampStep | public/genre-management.js:66-69 | one count step keeps the marks exact |
| Genres.CountedEntry | public/genre-management.js:55-69 | counting an item changes only its genre's entry, creating it when missing |
| Genres.TallyNames | public/genre-management.js:53-54 | every listed name is non-empty and already trimmed |
| Genres.FirstOf | public/genre-management.js:55-62 | a genre with items has a first item that carries it |
| Genres.SumOverFrame | public/genre-management.js:79-83 | changing an entry outside the keys keeps their total |
| Genres.SumOverUpdate | public/genre-management.js:79-83 | replacing one entry changes the total by the difference of the counts |
| Genres.TallySum | public/genre-management.js:51-71 | the counts add up to the number of items with a genre |
| Genres.GenreValues | public/genre-management.js:168 | the genres are listed in insertion order |
| Genres.StatisticsSplit | public/genre-management.js:78-89 | used plus empty genres make the total |
| Genres.LoadedHasNoEmptyGenre | public/genre-management.js:46-89 | right after loading no genre is empty, so every genre is used |
| Genres.ListedContents | public/genre-management.js:162-211 | a genre is shown exactly when it passes the search and the filter; "count" sorts by descending count and "recent" puts unmodified genres last |
| Genres.ListedPermutes | public/genre-management.js:162-211 | the list shows each filtered genre exactly once |
| Genres.Added | public/genre-management.js:268-269 | ticking a genre adds it to the selection once |
| Genres.SelectedAll | public/genre-management.js:301-308 | select-all adds every drawn genre to the selection, each once |
| Genres.ProposedTargetIsLargest | public/genre-management.js:338-342 | the proposed merge target is a selected genre with the largest count |
| Genres.EntryOf | public/genre-management.js:372 | an item's pending changes, or none yet, form a well-formed map |
| Genres.PutChange | public/genre-management.js:372 | recording a field keeps the item's other pending fields and appends a new item at the end |
| Genres.WithGenre | public/genre-management.js:364-369 | the copy has the new genre and every other field of the item |
| Genres.Retagged | public/genre-management.js:360-373 | one retag step keeps the bookkeeping well-formed |
| Genres.RetagUpTo | public/genre-management.js:360-373 | retagging any prefix keeps the bookkeeping well-formed and the item order |
| Genres.RetagStep | public/genre-management.js:360-373 | each item extends the retag of the items before it by one step |
| Genres.Retag | public/genre-management.js:360-373 | the retag keeps the bookkeeping well-formed |
| Genres.RetagAll | public/genre-management.js:359-375 | the loop retags exactly as the retag does |
| Genres.RetagUpToAt | public/genre-management.js:360-373 | after any prefix each item is retagged exactly when it has been visited and matches |
| Genres.VisitStep | public/genre-management.js:361-372 | visiting an item retags it exactly when it matches |
| Genres.PassStep | public/genre-management.js:361-372 | visiting one item leaves every other item as it was |
| Genres.RetagCatalog | public/genre-management.js:360-373 | the catalog keeps its items and order; exactly the matching items get the target genre, all else is kept |
| Genres.RetagOnlyTouchesGenre | public/genre-management.js:369 | no field other than `real_genre` changes |
| Genres.RetagPending | public/genre-management.js:363-372 | a matching item gets the target genre as a pending change and a genre change; others keep their pending entries |
| Genres.RetagKeepsLedger | public/genre-management.js:369-372 | the pending changes keep agreeing with the catalog |
| Genres.NoMatchNoChange | public/genre-management.js:360-373 | with no matching item nothing changes |
| Genres.WithNewGenre | public/genre-management.js:448-468 | adding a genre keeps the table well-formed |
| Genres.NewGenreListed | public/genre-management.js:448-468 | a new non-blank name is appended as an empty genre marked modified now, and every other genre is kept |
| Genres.NewGenreVanishes | public/genre-management.js:462-474 | a genre added with no item is gone after the reload that follows it |
| Genres.ManagerCatalogAsWritten | public/script.js:94 | the genre manager reads the catalog that was published at start-up, not the fetched one |
| Genres.StaleCatalogHidesGenres | public/genre-management.js:46-76 | with the catalog published at start-up, no genre is listed even though the fetched catalog has one |
| Genres.LoadedListsEveryGenre | public/genre-management.js:46-76 | every genre of an item before the first throwing item is listed |
| Genres.TallyLists | public/genre-management.js:51-71 | every genre counted in a prefix is listed |
| Genres.ItemsOfHas | public/genre-management.js:63-64 | a genre carried by an item has at least one listed item |
| Genres.ItemsOfLonger | public/genre-management.js:64 | counting more items never shortens a genre's list |
| Genres.ItemsOfHit | public/genre-management.js:63-64 | the item carrying a genre is listed under that genre once it is visited |
| Genres.ItemsOfGrow | public/genre-management.js:63-64 | a genre's list only grows as more items are visited |
| Genres.ItemsOfLast | public/genre-management.js:64 | an item of the genre is appended to its list |
| Genres.GenreManager.constructor | public/genre-management.js:5-7 | the manager starts with no genres, no selection and no genre changes over the given catalog |
| Genres.GenreManager.LoadGenresData | public/genre-management.js:46-76 | the genre table becomes the tally of the catalog; it is complete exactly when no item's genre throws |
| Genres.GenreManager.CountItem | public/genre-management.js:52-70 | one count step, or a throw that changes nothing |
| Genres.GenreManager.RetagItems | public/genre-management.js:359-375 | the bookkeeping becomes the retag of the old bookkeeping |
| Genres.GenreManager.CountMatching | public/genre-management.js:396-403 | the count is the number of matching items |
| Genres.GenreManager.ConfirmMergeGenres | public/genre-management.js:347-391 | a blank target changes nothing; otherwise items of the selected genres get the trimmed target and the table is reloaded |
| Genres.GenreManager.DeleteSelectedGenres | public/genre-management.js:393-446 | without a selection, or when a used genre's deletion is not confirmed, nothing changes; otherwise items of the selected genres lose their genre, the selection is cleared and the table reloaded |
| Genres.GenreManager.AddNewGenre | public/genre-management.js:448-475 | the table becomes the one with the new genre, and nothing else changes |
| Genres.GenreManager.EditGenre | public/genre-management.js:477-522 | a blank, unchanged or taken name changes nothing; otherwise items of the genre get the trimmed name and the table is reloaded |
| Genres.GenreManager.ApplyGenreChanges | public/genre-management.js:542-566 | with genre changes, their number is reported and they are cleared; without, nothing happens |
| Genres.GenreManager.SelectGenre | public/genre-management.js:266-276 | ticking adds the genre to the selection, unticking removes it |
| Genres.GenreManager.SelectAllGenres | public/genre-management.js:301-308 | every drawn genre joins the selection |
| Genres.GenreManager.ClearGenreSelection | public/genre-management.js:310-313 | the selection becomes empty |
| Genres.UnusedDeleteTouchesNothing | public/genre-management.js:405-430 | deleting genres no item uses changes no item |
| GenreSimilarity.Min3 | public/genre-management.js:150-154 | the minimum is one of the three and no larger than any |
| GenreSimilarity.Min3Swap | public/genre-management.js:150-154 | the order of the last two does not matter |
| GenreSimilarity.LevSelf | public/genre-management.js:134-160 | a text is at distance 0 from itself |
| GenreSimilarity.LevSymmetric | public/genre-management.js:134-160 | the distance does not depend on the order of the texts |
| GenreSimilarity.LevLowerBound | public/genre-management.js:134-160 | the distance is at least the difference of the lengths |
| GenreSimilarity.LevUpperBound | public/genre-management.js:134-160 | the distance is at most the longer length |
| GenreSimilarity.DistanceProperties | public/genre-management.js:134-160 | the edit distance is 0 on equal texts, symmetric, and between the length difference and the longer length |
| GenreSimilarity.LevenshteinDistance | public/genre-management.js:134-160 | the matrix fill returns exactly the edit distance |
| GenreSimilarity.LevStep | public/genre-management.js:147-155 | each matrix cell follows the edit-distance recurrence |
| GenreSimilarity.FillRow | public/genre-management.js:146-156 | filling a row makes it hold the distances of that row and leaves the other rows |
| GenreSimilarity.ReplaceSuffix | public/genre-management.js:114-126 | the text is kept unless it ends with the suffix, which is then replaced |
| GenreSimilarity.AreSimilar | public/genre-management.js:109-132 | equal genres are similar and genres whose lengths differ by more than 3 are not |
| GenreSimilarity.AreSimilarSymmetric | public/genre-management.js:109-132 | similarity does not depend on the order |
| GenreSimilarity.PluralIsSimilar | public/genre-management.js:114-131 | a genre and its plural in `s` are similar |
| GenreSimilarity.SimilarityAt | public/genre-management.js:97-100 | the pair test compares the lower-cased names |
| GenreSimilarity.SimilaritySymmetric | public/genre-management.js:97-100 | the pair test is symmetric |
| GenreSimilarity.RowPairsMembers | public/genre-management.js:96-103 | one row of the scan collects exactly the names of similar pairs with that first name |
| GenreSimilarity.AllPairsMembers | public/genre-management.js:95-104 | the scan collects exactly the names of the similar pairs it visits |
| GenreSimilarity.FindSuspiciousGenres | public/genre-management.js:91-107 | the loops build exactly the deduplicated pair scan |
| GenreSimilarity.PairScanMembers | public/genre-management.js:91-107 | for a symmetric test, a name is listed exactly when it is similar to another genre, and each once |
| GenreSimilarity.SuspiciousMembers | public/genre-management.js:91-107 | a genre is suspicious exactly when its lower-cased name is similar to another genre's, and each is listed once |
| Server.SubmitError | server.js:178-205 | a submission is accepted exactly when it has a non-empty `changes` object and non-blank branch, commit message and title; otherwise the first failing check's message is given, in that order |
| Server.ReconcileUpTo | server.js:229-251 | reconciling any prefix of the changes keeps the catalog's items and order |
| Server.ReconcileChanges | server.js:229-251 | the loops produce exactly the reconciled catalog and its count |
| Server.WriteDiffering | server.js:238-243 | the item is rewritten exactly when some field differs strictly, and then with the differing fields |
| Server.NotYetSeen | server.js:232 | in a list without repeats an id is not met before its own position |
| Server.PatchUnchanged | server.js:238-243 | an item with no differing field is left as it is |
| Server.ReconcileUntouched | server.js:232-250 | an item not yet visited keeps its value |
| Server.PatchField | server.js:238-243 | after the field loop a field holds the new value when it was visited and differed, else its old value |
| Server.DiffersWitness | server.js:239-241 | one differing field makes the item changed |
| Server.ReconcileAt | server.js:232-250 | after any prefix, a visited item with an actual change holds its patched value; every other item its current value |
| Server.ReconcileStep | server.js:232-250 | each visited id patches only its own item |
| Server.ReconcileWritesDiffering | server.js:229-251 | the updated catalog keeps the current items and order, and a field of an item holds the submitted value exactly when it differs strictly from the current one, else the current value |
| Server.ReconcileCountUpTo | server.js:245-247 | after any prefix the count is the number of visited ids with an actual change |
| Server.ReconcileCount | server.js:245-257 | the count is the number of submitted ids with an actual change, and is zero exactly when no submitted item changes anything |
| Server.LabelsDiffer | server.js:297-308 | the field labels of the summary are distinct |
| Server.LabelsUpToListed | server.js:297-308 | after any prefix of the field checks, a label is listed exactly when its field was checked and reported |
| Server.LabelsListed | server.js:297-308 | a field's label is listed exactly when the change sets it truthy (for `processed`, defined) and strictly different from the current value |
| Server.TitleFirstTruthy | server.js:293-294 | the summary title is the first truthy of the submitted title, the current title, the plain title and "No Title" |
| Server.SummaryLines | server.js:292-315 | one line per submitted item, in order |
| Server.ConcatStep | server.js:314 | appending one line extends the summary by that line |
| Server.ConcatGrows | server.js:314 | the summary only grows as lines are appended |
| Server.ConcatHolds | server.js:314 | each line stands in the summary where the lines before it end |
| Server.BuildSummary | server.js:291-315 | the loop builds exactly the summary text |
| Server.SummaryListsEveryItem | server.js:291-315 | the summary starts with its heading and lists every submitted item's line, in order |
| Server.BodyEndsWithSummary | server.js:318-320 | the pull-request body ends with the summary and starts with the trimmed description, or the default sentence when the description is blank |
| Server.Submit | server.js:166-330 | a failed validation is refused with status 400 and its message; a proposal needs the configuration and the fetched document, changes at least one item, keeps the catalog's items, and uses the trimmed branch, commit message and title |
| Server.Propose | server.js:229-330 | a proposal changes at least one item, keeps the catalog's items, and uses the trimmed branch, commit message and title |
| Server.ProposeRefusesNoop | server.js:253-258 | the proposal is refused with "No actual changes detected" exactly when no submitted item changes anything |
| Server.SubmitRefusesNoop | server.js:253-258 | a valid submission is refused as a no-op exactly when no submitted item changes anything |
| Server.SubmitProposes | server.js:229-330 | a proposal carries the reconciled catalog, the count of changed items and the description followed by the summary |
| Server.Project | server.js:122-135 | the searched values are the item's fields in the listed order |
| Server.MatchesIffSomeHit | server.js:122-151 | an item matches exactly when a searched field, a category or a tag is truthy and its text contains the query, ignoring case |
| Server.SearchUpTo | server.js:120-156 | searching any prefix gives a well-formed result |
| Server.Search | server.js:117-156 | the loop builds exactly the search result |
| Server.SearchUpToFilters | server.js:120-156 | after any prefix the results are the matching items in catalog order, unchanged |
| Server.SearchExact | server.js:117-158 | the results are exactly the matching items, in catalog order, with their full records |
| Server.SearchEndpoint | server.js:107-161 | without a query the whole catalog is returned; a truthy query that is not a string fails |
| Server.LowerTwice | server.js:117 | lower-casing twice is lower-casing once |
| Server.SearchIgnoresQueryCase | server.js:117-151 | the results do not depend on the query's letter case |
| Server.SaveUpTo | server.js:625-631 | saving any prefix of the changes keeps the catalog's items and order |
| Server.WriteFields | server.js:627-629 | the loop writes exactly every submitted field into the item |
| Server.ApplySave | server.js:625-631 | the loops produce exactly the saved catalog |
| Server.SaveUntouched | server.js:625-631 | an item not yet visited keeps its value |
| Server.WriteField | server.js:627-629 | after the field loop a visited field holds the new value, any other its old value |
| Server.SaveAt | server.js:625-631 | after any prefix, a visited item holds its written value, any other its current value |
| Server.SaveWritesEveryField | server.js:625-631 | the saved catalog keeps the current items and order, and each submitted field of a known item holds the submitted value, even when equal |
| Server.SaveAgreesWithSubmit | server.js:238-243 | saving and submitting the same changes give the same field values |
| Server.FieldCountCountsPairs | server.js:689 | the field total counts exactly the submitted (item, field) pairs |
| Server.Save | server.js:612-720 | a save is refused exactly when there are no changes; a proposal keeps the catalog's items, reports the number of submitted items and uses a `json-editor-update-` branch |
| Server.SaveCounts | server.js:668-718 | the reply counts the submitted items and the submitted (item, field) pairs |
| Server.ToInt32 | server.js:91 | the 32-bit conversion stays within the signed range and keeps values already in it |
| Server.ToInt32Shift | server.js:90-91 | adding a multiple of 2^32 does not change the 32-bit result |
| Server.HashUpTo | server.js:88-92 | the running hash is always a signed 32-bit integer |
| Server.ShiftStep | server.js:90-91 | one step is `(h << 5) - h + code` taken to 32 bits |
| Server.PrefixHash | server.js:86-92 | the loop computes exactly the hash of the first 1000 characters |
| Server.HashUpToPrefix | server.js:88-92 | the hash depends only on the hashed prefix |
| Server.ContentHashIgnoresTail | server.js:704-711 | two documents of the same length that agree on the first 1000 characters get the same hash at the same time |
| Server.DigitsThenSeparator | server.js:711 | a digit field followed by `_` splits the hash text uniquely |
| Server.SeparatorAt | server.js:711 | the separator sits right after the first field |
| Server.MiddleField | server.js:711 | two hash texts that agree also agree on their length field |
| Server.ContentHashSeesLength | server.js:704-711 | two documents with the same hash at the same time have the same length |
| Values.Trim | public/validation.js:46 | the trimmed text neither starts nor ends with white space |
| Values.TrimIdempotent | public/validation.js:46 | trimming twice is trimming once |
| Values.BlankIffAllSpace | public/validation.js:46 | a text is blank after trimming exactly when all its characters are white space |
| Values.Lower | public/edit-log.js:220 | lower-casing keeps the length and lower-cases each character |
| Values.ContainsSelf | public/edit-log.js:226 | every text contains itself and the empty text |
| Values.ListedInIff | server.js:233 | checking a name against each entry of a list in turn finds it exactly when the list holds it |
| Values.ParseIntOfIntToString | public/validation.js:31 | `parseInt` reads a decimal integer back as that integer |
| Values.ParseIntOfNegative | public/validation.js:31 | `parseInt` reads a negative decimal integer back as that integer |
| Values.ParseIntMinus | public/validation.js:31 | `parseInt` of a minus sign followed by digits is the negated number |
| Values.ParseIntOfNum | public/validation.js:31 | `parseInt` of an integer number is that number |
| Values.NonNegativeNatVerdict | public/validation.js:82-139 | a natural number written in decimal parses to a non-negative float |
| Values.ParseFloatOfNum | public/validation.js:82-139 | a number's text parses to a float with the number's sign |
| Values.NumberOf | public/json-editor.js:793 | `Number` of a blank text is 0 |
| Values.NumberOfNatToString | public/json-editor.js:793 | `Number` reads a natural number in decimal back as that number |
| Values.StrLessIrreflexive | public/json-editor.js:309-312 | no text comes before itself |
| Values.StrLessTransitive | public/json-editor.js:309-312 | the text order is transitive |
| Values.StrLessTotal | public/json-editor.js:309-312 | of two different texts one comes first |
| Values.StrLessAsymmetric | public/json-editor.js:309-312 | two texts never both come before each other |
| Values.StrLessSplits | public/json-editor.js:309-312 | a text between two ordered texts is after the first or before the second |
| Values.InsertSorted | public/json-editor.js:97-101 | adding a new name to a sorted set of names keeps it sorted and adds exactly that name |
| Validation.SexagesimalBound | public/validation.js:7 | a minutes or seconds field of the duration pattern is digits worth at most 59 |
| Validation.HourBound | public/validation.js:7 | an hours field of the duration pattern is digits worth at most 23 |
| Validation.TwoDigitsValue | public/validation.js:7 | two-digit padding of a number below 60 reads back as that number |
| Validation.SplitNoColon | public/validation.js:7 | a field without colons splits into itself |
| Validation.SplitJoin | public/validation.js:7 | splitting at colons takes the first field off |
| Validation.RequiredErrors | public/validation.js:86-94 | the required-field checks report at most two errors |
| Export.EscapeXml | public/script.js:1290-1297 | escaping never shortens the text |
| Export.EscapeChar | public/script.js:1290-1297 | each character's escape is non-empty and holds no markup character |
| Export.EscapeEach | public/script.js:1290-1297 | the per-character escape never shortens the text and holds no markup character |
| Export.ReplaceAllOne | public/script.js:1291-1296 | replacing in one character gives the replacement exactly when it matches |
| Export.EscapeXmlChar | public/script.js:1290-1297 | the chain of replacements escapes one character as its entity |
| Export.ReplaceAllAppend | public/script.js:1291-1296 | replacing all occurrences distributes over concatenation |
| Export.UnescapeEach | public/script.js:1290-1297 | decoding the entities gives back the escaped text |
| Export.AddKeys | public/script.js:1240-1243 | adding a row's keys keeps the first-seen order of all keys |
| Export.ListText | public/script.js:1252 | a one-element list prints as its element |
| Export.DoubleQuotes | public/script.js:1255 | doubling quotes never shortens the text |
| Export.DoubledQuotesRead | public/script.js:1254-1256 | doubled quotes are paired, and reading them back gives the original text |
| Export.CsvLine | public/script.js:1247-1259 | a row over no headers is an empty line |
| Export.JoinNonEmptyTail | public/script.js:1261 | joining a header line with at least one row gives non-empty text |
| Export.DurationText | public/script.js:1498-1502 | the duration text is never empty and shows hours exactly when there are some |
| Export.DigitsHaveNoH | public/script.js:1498-1502 | a number's text contains no `h` |
| Export.Substr | public/script.js:1505-1512 | `substr` gives at most the requested length, the exact slice when in range, and nothing past the end |
| MainViews.ByGenre | public/script.js:403-409 | the genre filter gives a well-formed catalog |
| MainViews.ByStatus | public/script.js:412-430 | the status filter gives a well-formed catalog |
| MainViews.FilterCatalog | public/script.js:402-430 | the combined filters give a well-formed catalog |
| MainViews.ApplyFiltersAsWritten | public/script.js:399-434 | the filters as written, starting from the list already shown, give a well-formed catalog |
| MainViews.ApplyFilters | public/script.js:399-434 | the corrected filters, starting from the search results or all items, give a well-formed catalog |
| MainViews.ListedIds | public/script.js:831-843 | at most ten listed ids, each both pending and in the catalog |
| MainViews.ThreeDigits | public/script.js:944-959 | a three-digit status prints as its three digits |
| MainViews.HintForDigits | public/script.js:944-959 | an HTTP error with status 500, 401 or 403 gets its hint, any other status the raw message, after the common prefix |
| MainViews.StatusLiterals | public/script.js:944-959 | the statuses 500, 401 and 403 print as their digits |
| MainViews.DigitsDetermine | public/script.js:944-959 | two three-digit statuses print the same exactly when they are equal |
| JsonCells.FindFrom | public/json-editor.js:1300 | the search from a position finds the first loosely matching row after it, or none when no later row matches |
| JsonCells.FindFromFirstMatch | public/json-editor.js:1300 | a row that matches with no earlier match is the one found |
| JsonCells.CapitalizeWords | public/json-editor.js:165 | same length; each character is kept or upper-cased, and a word's first is upper-cased |
| JsonCells.NumberOrText | public/json-editor.js:793-794 | a numeric column's text parses to a number, or stays the text |
| JsonCells.ListEntries | public/json-editor.js:799 | every entry of a parsed list is a text starting with a visible character |
| JsonCells.TrimmedNonEmpty | public/json-editor.js:799 | trimming and dropping empty entries keeps at most as many entries, none blank |
| JsonCells.StartsVisibleNonBlank | public/json-editor.js:1253-1260 | an entry that starts with a visible character is non-blank text |
| JsonCells.PreferredMembers | public/json-editor.js:111-128 | the preferred columns are present, never hidden by default, include every present priority and important column, and number at most 11 |
| JsonCells.PreferredDistinct | public/json-editor.js:111-128 | the preferred columns are distinct |
| JsonCells.PreferredNeverHidden | public/json-editor.js:104-128 | no priority or important column is hidden by default, and the two lists are distinct and do not overlap |
| JsonView.TextBeforeAsymmetric | public/json-editor.js:305-313 | two rows never both come before each other by text |
| JsonView.TextBeforeSplits | public/json-editor.js:305-313 | a row between two text-ordered rows is after the first or before the second |
| MainPage.UpdateLedger | public/script.js:636-759 | recording an update keeps the editing state well-formed |
| MainPage.SearchState | public/script.js:337-390 | a search keeps the page state well-formed |
| MainPage.Submitted | public/script.js:863-968 | a submission keeps the page state well-formed |
| MainPage.MainEditor.SetLedger | public/script.js:636-759 | the editor's state becomes the given editing state, and nothing else changes |
| JsonEditing.JsonEditor.Commit | public/json-editor.js:1324 | the rows and the change log are replaced, and nothing else changes |
| Genres.WithNewGenreAsWritten | public/genre-management.js:448-475 | adding then reloading as written gives a well-formed table |
| StableSort.SortBy | public/json-editor.js:292 | sorting keeps the length |
| StableSort.Insert | public/json-editor.js:292 | inserting adds one element |
| Validation.ValidateYear | public/validation.js:29-33 | the `validateYear` test: `parseInt(year)` lies in [1000, currentYear + 5], and text that is not a number fails; ValidateYearOfNumber and ValidateYearOfText give the verdict for numbers and decimal text |
| Validation.ValidateDuration | public/validation.js:35-43 | the `validateDuration` test: a number strictly between 0 and 999999, a string by the duration pattern, anything else refused; DurationPatternBounds and ClockReadingAccepted state what the pattern admits |
| Validation.ValidateYouTubeUrl | public/validation.js:25-27 | the `validateYouTubeUrl` test: the address starts with one of the pattern's scheme, host and path prefixes; PrefixAccepted and YouTubeUrlIsHttp state both directions |
| Server.Reconcile | server.js:229-251 | the reconciled catalog keeps the repository's ids in their order, and at most one change is counted per submitted item |
| Server.SummaryTitle | server.js:293-294 | the `||` chain of the summary title; TitleFirstTruthy states that it is the first truthy candidate and never falsy |
| Server.Labels | server.js:297-308 | at most one label per summarised field; LabelsListed states exactly which labels appear |
| Server.SummaryText | server.js:291-315 | the heading followed by the item lines; SummaryListsEveryItem and BuildSummary state its content |
| Server.PullRequestBody | server.js:318-320 | the pull-request body; BodyEndsWithSummary states that it ends with the summary and starts with the trimmed description or the default sentence |
| Server.Searchable | server.js:122-145 | the searched values start with the twelve listed fields of the item, in order, followed by the spread categories and tags |
| Server.HashStep | server.js:706-709 | one step of the hash always gives a signed 32-bit value |
| Server.ContentHash | server.js:704-711 | the hash text holds only digits, underscores and a minus sign; ContentHashIgnoresTail and ContentHashSeesLength state what it depends on |
| EditLog.MatchesSearch | public/edit-log.js:225-231 | the corrected `matchesSearch`: an empty term, or the title, a field label or a truthy value whose text contains the term; SearchAsWrittenAgrees ties it to the search as written |
| EditLog.TypeMatches | public/edit-log.js:233-243 | the type filter's test on one field; TypeFilterPartition states that "other" is exactly none of the five named types |
| EditLog.SearchAsWritten | public/edit-log.js:225-231 | `matchesSearch` as written, with a throw as `None`; SearchAsWrittenSound and SearchAsWrittenAgrees relate it to the corrected search |
| EditLog.ChangesAsWritten | public/edit-log.js:227-231 | the `some` scan as written over the records; ChangesAsWrittenSound and ChangesAsWrittenAgree relate it to the corrected test |
| EditLog.ChangesAsWrittenSound | public/edit-log.js:227-231 | a match the record scan as written reports is a record that matches the term |
| EditLog.SearchAsWrittenSound | public/edit-log.js:225-231 | whatever the values, a match the search as written reports is a match of the corrected search |
| EditLog.Comparator | public/edit-log.js:250-264 | the `applySorting` comparator; SortEntriesOrder states the order it gives |
| EditLog.Listed | public/edit-log.js:97-112 | the groups `renderChanges` draws; ListedGroups and ListedWhenUnfiltered state which groups are listed |
| EditLog.Rerendered | public/edit-log.js:88-112 | the list after `renderChanges`; EditLogPage.RenderChanges states the page's state after it |
| Genres.Statistics | public/genre-management.js:78-89 | the total counts every genre, and neither the used nor the empty count exceeds it; StatisticsSplit states that they add up to the total |
| Genres.Shows | public/genre-management.js:169-191 | the search and filter test of `renderGenres`; ListedContents states the listed genres |
| Genres.Listed | public/genre-management.js:162-212 | the genres `renderGenres` draws; ListedContents and ListedPermutes state which and how often |
| Genres.ProposeMerge | public/genre-management.js:315-345 | the merge proposal of `openMergeModal`; ProposedTargetIsLargest states that the target is a selected genre with the largest count |
| GenreSimilarity.Lev | public/genre-management.js:134-158 | `matrix[i][j]` of the distance table; LevSelf, LevSymmetric, LevLowerBound and LevUpperBound state its properties |
| GenreSimilarity.Distance | public/genre-management.js:134-158 | the edit distance; DistanceProperties states its four properties and LevenshteinDistance computes it |
| GenreSimilarity.Normalized | public/genre-management.js:113-126 | the three suffix replacements in order; PluralIsSimilar states that a plural in `s` is similar |
| Paging.TotalPages | public/script.js:972 | no pages exactly when there are no items, and never more pages than items; TotalPagesBounds states that they are the fewest that hold every item |
| Paging.SinglePage | public/script.js:972-976 | everything fits on one page exactly when there are at most `perPage` items |
| Paging.Slice | public/script.js:460-463 | `slice` with clamped bounds: the subsequence within bounds, nothing past the end, never more than `end - start` items |
| Paging.Layout | public/script.js:995-1046 | the five button parts in order; LayoutTargets and LayoutSound state where they lead |
| Paging.PaginationButtons | public/script.js:970-1046 | no buttons exactly when every item fits on one page; ButtonsSound states where they lead |
| Paging.EditorButtonsFor | public/json-editor.js:329-386 | no buttons exactly when there is at most one page; EditorButtonsSound and EditorArrows state where they lead |
| MainViews.RenderItems | public/script.js:437-463 | the listing of `renderItems`; RenderItemsPage states the empty state, the page and the caption |
| MainViews.Description | public/script.js:828-849 | the pull-request description; DescribeChanges and ListedIdsFirstTen state the listed items |
| MainViews.SubmitGuard | public/script.js:870-889 | the four checks of `submitChanges`, in order; SentRequestIsComplete states when a request is sent |
| MainViews.RequestFor | public/script.js:897-908 | the request body; SentRequestIsComplete states that it carries every pending change and trimmed fields |
| MainViews.SubmitOutcome | public/script.js:909-966 | the end of a submission; SubmitOutcomeSpec and StatusHints state success and the error messages |
| MainPage.UpdateVerdict | public/script.js:636-703 | the order of `updateItem`'s early exits; MainEditor.UpdateItem states the resulting state |
| JsonView.RowMatches | public/json-editor.js:271-288 | the global and column filters of `applyFiltersAndSort`; Matching states the rows they keep |
| JsonView.CompareRows | public/json-editor.js:292-313 | the sort comparator; ViewNullsLast, ViewSortedByNumber, ViewSortedByText and TextCompare state the order it gives |
| JsonEditing.SaveErrorMessage | public/json-editor.js:1760-1776 | the save error message; SaveErrorOffline, SaveErrorUnauthorized, SaveErrorForbidden, SaveErrorNotFound and SaveErrorOther state each branch |
| JsonEditing.DeleteNotice | public/json-editor.js:1966 | the intended notice with the number of deleted rows; JsonEditor.BulkDelete states that it reports the real count |
| JsonEditing.DeleteNoticeAsWritten | public/json-editor.js:1963-1966 | the notice as written, read after the selection was cleared; DeleteNoticeSaysZero states that it says 0 |
| Export.AllKeys | public/script.js:1240-1243 | every field of every row, row by row; AllKeysMembership states that a key is listed exactly when some row has it |
| Export.Headers | public/script.js:1240-1245 | the CSV header; CollectHeaders and AllKeysMembership state that it holds every key once, in first-seen order |
| Values.LooseEq | public/json-editor.js:1300 | `==` on the values row keys take; LooseEqLaws states its laws |
| Values.LooseEqLaws | public/json-editor.js:1300 | loose equality holds of strictly equal values, is symmetric, and on two strings is plain equality |
| Genres.EditThroughWindow | public/genre-management.js:359-374 | a bulk genre edit writes `window.changedItems`; the page's own pending changes follow it only while both names share one object |
| Genres.SubmitAsWritten | public/script.js:930 | after a successful submission as written, the page's pending changes are empty and no longer shared with `window.changedItems` |
| Genres.SubmitPublished | public/script.js:930 | the corrected submission: both names bind the same new empty object |
| Genres.StalePendingLosesGenreEdits | public/script.js:930 | as written, a genre edit after a successful submission reaches only the old object: the page's pending changes stay empty |
| Genres.GenreEditsReachPage | public/script.js:930 | with the new object published, a genre edit after a submission lands in the page's pending changes, holding exactly the new genre |
| Server.VisitAsWritten | server.js:232-250 | as written, one submitted id that the repository has and that changes a field is counted, an id found only on `Object.prototype` with a differing field is counted too, anything else leaves the count alone; `updatedData` only ever gains entries |
| Server.ReconcileAsWrittenUpTo | server.js:232-250 | the loop as written keeps `updatedData` well-formed after any prefix of the submitted items |
| Server.ReconcileAsWritten | server.js:229-251 | the loop as written keeps `updatedData` well-formed |
| Server.AsWrittenAgreesUpTo | server.js:232-250 | after any prefix, the loop as written equals the model's reconciliation when no missing id names an `Object.prototype` member |
| Server.AsWrittenAgrees | server.js:232-250 | the loop as written equals the model's reconciliation, catalog and count, when no missing id names an `Object.prototype` member |
| Server.AsWrittenCountsAtLeast | server.js:245-247 | after any prefix the loop as written counts at least the changes the model counts |
| Server.InheritedStep | server.js:233-247 | visiting a missing id found on `Object.prototype` with a differing field: the model leaves its result alone, the loop as written adds one to the count and, except for `__proto__`, an entry for the id |
| Server.AsWrittenAheadAt | server.js:233-247 | right after such an id is visited, the loop as written has counted strictly more than the model |
| Server.AsWrittenStep | server.js:232-250 | at every step the loop as written adds at least as much to the count as the model does |
| Server.AsWrittenStaysAhead | server.js:232-250 | once the loop as written has counted more than the model, it still has after every later item |
| Server.AsWrittenKeepsEntry | server.js:232-250 | one step of the loop as written never removes an entry of `updatedData` |
| Server.AsWrittenKeepsEntries | server.js:232-250 | an entry of `updatedData` stays there for the rest of the loop as written |
| Server.PrototypeIdCountedAsWritten | server.js:233-257 | a missing id such as `constructor` with a differing field is counted and, except for `__proto__`, added to the catalog as written, while the model skips it |
| Genres.ReadGenreAsWritten | public/genre-management.js:53-64 | as written, a genre named like an `Object.prototype` member throws; every other reading is the model's |
| Genres.StopAtAsWritten | public/genre-management.js:51-71 | the load as written stops at the first item whose genre throws as written, or after the last item when none does |
| Genres.StopAtAsWrittenNoLater | public/genre-management.js:51-71 | the load as written never gets further than the model's load |
| Genres.PrototypeGenreStopsLoad | public/genre-management.js:55-64 | an item whose genre is named like an `Object.prototype` member stops the load as written at or before it, and the load as written never goes further than the model's |

## Left out

- Numbers: JavaScript numbers are modelled as integers (`Num(int)`), so fractions, exponents, `NaN`, `Infinity` and `-0` are absent. Integers are the values the catalog's counted fields (year, counts, durations) hold.
- JsonCells.ParseValue: text such as "1.5" typed into a numeric column stays text in the model, while `Number` would give 1.5 (public/json-editor.js:789-794), because numbers are integers here.
- Objects inside values: `Value` has no nested objects. The `JSON.parse` branch of `parseValue` (public/json-editor.js:813-818) and nested objects in CSV or XML export are not modelled.
- Values.Lower: lower-cases ASCII and Latin-1 letters only, while `toLowerCase` covers all of Unicode.
- Lengths are counted in code points, not UTF-16 code units. This affects `validateLength`, the length test of `areSimilarGenres` and the first 1000 units the content hash reads (`charCodeAt` of astral characters).
- Key order: insertion-ordered maps stand for JavaScript objects, but `Object.keys` and `Object.entries` list integer-like keys first, in numeric order. Catalogs whose ids look like integers would list them in a different order (rows, list order, grouped edit-log entries, CSV headers).
- JsonView.View: the comparator of `applyFiltersAndSort` returns 1 for two null values in either order (public/json-editor.js:296-298), so it is not consistent and the browser's order is implementation-defined; the model fixes the order of its stable insertion sort.
- JsonView.ViewSortedByText: stated only when every matching row holds a non-number value under the sort column; mixed numbers and text are ordered by the comparator but no order lemma covers them.
- EditLog.SortEntriesOrder: the "item" order uses `localeCompare`, which is a parameter (`collate`), so no order is stated for it.
- Genres.ListedContents: the "name" order uses `localeCompare`, a parameter here, so no order is stated for it.
- Values.LooseEq: `==` is modelled for the values row keys and ids take (numbers, strings, null and undefined); the coercions of booleans and objects are not.
- The clock, timestamps and `localStorage` are parameters: `now`, `currentYear` and the stored pending changes and history are passed in.
- GitHub, Octokit and axios calls are taken as succeeding, and the fetched catalog is a parameter. Their failures and the 500 replies mapped from them are not modelled, apart from the missing configuration and a malformed catalog in `/api/submit`.
- A `changes` body that is an array or a string passes the server's `typeof` test; the model treats every non-object body as refused and every object as a map of item to fields.
- The JSON text of the catalog (`JSON.stringify`) is a parameter of the content hash; the hash's `itemCount` and ISO timestamp, and the save's description text and pull-request title, are not modelled.
- The auto-save endpoint (server.js:600-609) only acknowledges the request and is not modelled.
- DOM rendering, toasts, modals, tooltips, `viewGenreItems`, `updateGenreSelectionButtons`, `escapeHTML` and HTML sanitising are not modelled.
- Downloading an export (`downloadExport`, public/script.js:1175-1233) and the XML document structure of `convertToXML` (public/script.js:1265-1288) are not modelled; only `escapeXml` is.
- `exportChanges` of the edit log (public/edit-log.js:336-355) builds a JSON download and is not modelled; its totals are those of `updateStatistics`.
- The main page's Ctrl+Z handler calls an `undoLastChange` that public/script.js does not define, so it is not modelled.
- edit-log.js:63 binds `revertSingleChange`, which public/edit-log.js does not declare. As written, the `ReferenceError` would stop the page's setup before lines 443-445 publish `revertItemChanges` and `revertSingleChangeById` on `window`, so the revert buttons of the rendered list could not reach them. The model treats both handlers as reachable, as the page evidently intends.
- Genres.GenreManager.RetagItems: the merge, delete and edit loops are modelled as a loop over values followed by one write of the manager's fields. The manager's `allData` and `changedItems` are its own fields, while the source shares both objects with the main page through `window` (public/script.js:94-96, :743, :1122; public/genre-management.js:67, :359-372). So the class does not capture a write being seen through the other name. It also does not capture the main page rebinding its variable away from the published object (public/script.js:930), after which the two diverge. The `PendingBinding` functions model that sharing of the pending changes; see the script.js:930 row under "## Findings".
- Plain-object lookups: ids, field names and genre names are taken as own keys of insertion-ordered maps. In the source, a lookup such as `currentData[id]` (server.js:233, :293, :626), `allGenres[name]` (public/genre-management.js:55, :453, :482), `changedItems[id]` (public/edit-log.js:364; public/script.js:426, :452, :469, :710) also finds a member of `Object.prototype` when the key names one (`constructor`, `toString`, `__proto__` and the others in `Values.PrototypeMembers`). Only `Server.ReconcileAsWritten` and `Genres.ReadGenreAsWritten` give such keys that reading; the members below do not.
- Server.Reconcile: a submitted id the repository lacks but that names an `Object.prototype` member is skipped; as written it is counted and, except for `__proto__`, added as a new item (see the server.js:233 row under "## Findings").
- Server.ReconcileWritesDiffering: states that the current ids are kept, which the source breaks for a missing id named like an `Object.prototype` member; `Server.PrototypeIdCountedAsWritten` states what the source does then.
- Server.ReconcileCount: counts only ids the catalog holds as own keys; as written, a missing id named like an `Object.prototype` member with a differing field is counted too.
- Server.ProposeRefusesNoop: refuses with "No actual changes detected" a submission whose only ids are missing ids named like `Object.prototype` members, which the source counts and proposes.
- Server.SubmitRefusesNoop: the same gap as `Server.ProposeRefusesNoop`.
- Server.Submit: the same gap as `Server.ProposeRefusesNoop`, through `Server.Reconcile`.
- Server.Propose: the same gap as `Server.ProposeRefusesNoop`, through `Server.Reconcile`.
- Server.ApplySave: a saved id the catalog lacks but that names an `Object.prototype` member finds that member (server.js:626-628), and the source writes the fields onto it: onto the function `Object` for `constructor`, onto `Object.prototype` itself, and so every object of the server process, for `__proto__`. The model skips such an id, which gives the same catalog but leaves out that side effect.
- Genres.Counted: counts a genre named like an `Object.prototype` member as any other, where the source creates no entry and throws at `.items.push` (public/genre-management.js:55, :64); `Genres.PrototypeGenreStopsLoad` states the load as written.
- Genres.StopAt: stops only at a truthy non-string genre; as written the load also stops at a genre named like an `Object.prototype` member.
- Genres.Loaded: lists genres named like `Object.prototype` members, which the load as written cannot list.
- Genres.GenreManager.LoadGenresData: reports the load complete when no genre is a truthy non-string; as written a genre named like an `Object.prototype` member also ends it.
- Genres.GenreManager.CountItem: counts a genre named like an `Object.prototype` member, where the source throws.

## Findings

| source | as written | input that shows it | evidently intended | confidence | as-written member | corrected member |
|---|---|---|---|---|---|---|
| public/script.js:399-434 | with text in the search box, `applyFilters` filters the list already shown, so filters compound | search "a", pick genre A, then genre B: nothing is shown | filter the search results (or all items) with the current choices, as `MainPage.MainEditor.ApplyFilters` does | not executed | MainViews.FiltersCompoundAsWritten | MainViews.FiltersSelectFromSearch |
| public/json-editor.js:1963-1966 | the notice reads `selectedItems.size` after `clearSelection()` emptied it | one row with id "a", selected and deleted: "0 elementi eliminati" | announce the number of rows deleted, as `JsonEditing.JsonEditor.BulkDelete` does | not executed | JsonEditing.DeleteNoticeSaysZero | JsonEditing.JsonEditor.BulkDelete |
| public/edit-log.js:225-230 | `toLowerCase` is called on truthy non-string old or new values, which throws and aborts the render | a bulk edit logs `processed` as `true`; searching "zz" throws | search the text of every value, as `EditLog.EditLogPage.RenderChanges` does | not executed | EditLog.BulkProcessedSearchThrows | EditLog.FilterEntries |
| public/genre-management.js:462-474 | `addNewGenre` adds the genre, then `loadGenresData` rebuilds the table from the items | add "Poesia" when no item has it: it is gone at once | keep the new empty genre in the table, as `Genres.GenreManager.AddNewGenre` does | not executed | Genres.NewGenreVanishes | Genres.NewGenreListed |
| public/script.js:930 | a successful submission binds `changedItems` to a new empty object and does not publish it on `window`, which keeps the submitted changes | submit, then merge a genre of any item: the merge goes into the old object, and the main page's pending changes stay empty until the next `updateItem` or bulk edit republishes its variable | publish the new object too, as lines 743 and 1122 do after an edit, so genre edits reach the next submission | plausible, not executed | Genres.StalePendingLosesGenreEdits | Genres.GenreEditsReachPage |
| public/script.js:94 | `window.allData` is set once to the empty start-up object; line 253 later rebinds the local `allData` only | open genre management after loading a catalog with genres: no genre is listed | let genre management read the loaded catalog, as `Genres.GenreManager.constructor` is given it | not executed | Genres.StaleCatalogHidesGenres | Genres.LoadedListsEveryGenre |
| server.js:233 | `if (currentData[id])` is a plain object lookup, so a submitted id the repository lacks but that names an `Object.prototype` member finds that member; a differing field is then written into a new item and the id is counted | submit `{"constructor": {"x": 1}}` alone: the count is 1 and a pull request adds an item "constructor", instead of the refusal "No actual changes detected" | reconcile only the repository's own ids, as `Server.Reconcile` does | not executed | Server.PrototypeIdCountedAsWritten | Server.ReconcileWritesDiffering |
| public/genre-management.js:55 | `allGenres` is a plain object, so a genre named like an `Object.prototype` member finds that member: no entry is created and `.items.push` at line 64 throws, ending the load | an item whose `real_genre` is "constructor": the genre table stops at that item | count every genre name, as `Genres.Loaded` does | not executed | Genres.PrototypeGenreStopsLoad | Genres.LoadedListsEveryGenre |
