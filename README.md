# Office-Management table editor: a Dafny model

Office-Management is a browser CSV table manager. Its data lives in one IndexedDB object store. This project models four parts of it.

- **The store layer** (`utils/db.ts`). A class `Db.Database` holds the records of the object store as a map, plus the memoised connection handle. Get, put, delete, get-all and clear are methods on it. An explicit fault model, `Db.Faults`, says which requests the engine rejects. A run of awaited writes is the function `Db.Execute`, which stops at the first rejected write. `Promise.all` is `Db.ExecuteAll`.
- **The multi-table layer** (`utils/dbMigration.ts`).
  - The one-shot migration from the single-table records (`headers`, `data`, `isConfirmed`) to a registry under `metadata` plus three `table:{id}:*` records per table.
  - The registry operations: create, delete, rename, activate, row count, and the legacy-label fix.
  - Each operation is a method over the `Database` that issues its writes in source order. Each is proved equal to a function: `DbMigration.Migrate` for the migration and `DbMigration.RunOp` for the registry operations. The lemmas are proved about those functions.
- **The CSV reader and row/window handlers** (`components/tables/TableManager.tsx`).
  - The imperative quote-aware line scanner, proved equal to a three-state automaton.
  - The pure trim/split/filter/reduce pipeline that turns text into rows.
  - A class holding the component's state, with the add/edit/save/delete handlers and the floating detail windows (ids, positions, stacking order).
- **Column layout and paging** (`components/DataTable.tsx`):
  - the saved-order check;
  - hidden columns;
  - drag to reorder;
  - widths;
  - the search filter's blank case;
  - page slicing and the page buttons;
  - the sort toggle.

  The pure parts are functions with lemmas. The handlers are methods of a state class.

JavaScript built-ins used by this code are modelled exactly in `JsText`:
- `trim` with ECMAScript white space;
- one-character `split` and `join`;
- the `\r\n` replacement;
- `indexOf`, `slice` with negative indices, `Math.ceil` of a quotient, and `filter`.

Record values are `Types.Value`, which follows JavaScript's `||` truthiness and `Array.isArray`. Ids and timestamps that the source draws from `Date.now`, `Math.random` and `new Date()` are parameters. So are the user's answer to `window.confirm` and the window size. Files: `types.dfy`, `js_text.dfy`, `db.dfy`, `db_migration.dfy`, `table_manager.dfy`, `data_table.dfy`.

## Model

| member | source | states |
|---|---|---|
| JsText.TrimStart | components/tables/TableManager.tsx:44 | removes exactly a leading run of white space; the result is a suffix that does not start with white space |
| JsText.TrimEnd | components/tables/TableManager.tsx:44 | removes exactly a trailing run of white space; the result is a prefix that does not end with white space |
| JsText.TrimEmptyIffBlank | components/tables/TableManager.tsx:45 | `s.trim() === ''` holds exactly when every character is white space |
| JsText.Split | components/tables/TableManager.tsx:44 | `split` always yields at least one piece |
| JsText.SplitJoin | components/tables/TableManager.tsx:44 | joining the pieces gives back the text, and no piece holds the separator |
| JsText.CrlfToLf | components/tables/TableManager.tsx:44 | the replacement never lengthens the text and leaves text without `\r` unchanged |
| JsText.IndexOf | utils/dbMigration.ts:262 | -1 exactly when absent; otherwise the first index holding the element |
| JsText.SliceBound | components/DataTable.tsx:165 | the relative index is mapped into `[0, len]`, unchanged when already inside |
| JsText.Slice | components/DataTable.tsx:163-166 | in-range bounds give `s[start..end]`; a start at or past the end gives `[]`; never longer than `end - start` |
| JsText.CeilDiv | components/DataTable.tsx:168 | the least `r` with `n <= d * r` |
| JsText.Filter | utils/dbMigration.ts:231 | exactly the elements satisfying the test, as a subsequence, unchanged when all pass |
| JsText.FilterAppend | components/DataTable.tsx:270 | filtering a sequence with one more element is filtering the rest, plus that element if it passes |
| Db.ContentKeysDistinct | utils/db.ts:209-211 | a table's three record keys differ from each other and from the singular keys |
| Db.ContentKeysSeparate | utils/db.ts:209-211 | different tables never share a record key |
| Db.Lookup | utils/db.ts:58-73 | a value is found exactly when the key is stored |
| Db.Execute | utils/db.ts:220-234 | awaited writes succeed exactly when no write is rejected, and then all of them have taken effect; a failure is the engine's error, never another kind |
| Db.ExecuteFrame | utils/db.ts:220-234 | whatever fails, a record that no write of the sequence touches keeps its value |
| Db.ExecuteFrom | utils/db.ts:220-234 | awaited writes are the first write followed by the rest, or the first rejection |
| Db.Issued | utils/db.ts:220-234 | counts the writes before the first rejected one |
| Db.ExecuteIsPrefix | utils/db.ts:220-234 | a run of awaited writes leaves the store some prefix of them left it; it succeeds exactly when that prefix is all of them, else it fails with the first rejection |
| Db.ExecuteUnrejected | utils/db.ts:220-234 | with no rejection every write takes effect and the run succeeds |
| Db.PrefixUntouched | utils/db.ts:78-113 | a record no write touches keeps its value through any prefix |
| Db.PrefixWritten | utils/db.ts:78-113 | after a prefix of writes to distinct records, each record holds its write's effect if that write ran, else its old value |
| Db.ReadContent | utils/db.ts:207-218 | a missing record reads as `[]`, `[]` or `false`; any failed read gives the empty content |
| Db.SaveThenReadContent | utils/db.ts:207-234 | saving a table writes exactly its three records, and reading them back gives what was saved |
| Db.ReadLegacy | utils/db.ts:158-169 | legacy headers default to `[]`, data to `null`, the flag to `false`; any failed read gives `{}` |
| Db.ExecuteAll | utils/db.ts:174-185 | `Promise.all` of the writes succeeds exactly when none is rejected |
| Db.SaveThenLoadAppState | utils/db.ts:158-185 | saving then loading the legacy state returns it; other records keep their values |
| Db.RecordIds | utils/db.ts:118-133 | one id per record, in order |
| Db.KeyBelowIrreflexive | utils/db.ts:118-133 | no key sorts below itself in IndexedDB's string-key order |
| Db.KeyBelowTransitive | utils/db.ts:118-133 | the string-key order is transitive |
| Db.KeyBelowTotal | utils/db.ts:118-133 | any two different keys are ordered one way or the other |
| Db.LeastKey | utils/db.ts:118-133 | a non-empty set of keys has a least key, the one `getAll` returns first |
| Db.AscendingListingUnique | utils/db.ts:118-133 | there is only one ascending listing of every record, so `getAll`'s answer is determined by the store |
| Db.Database.constructor | utils/db.ts:12 | starts with the persisted records and no open handle |
| Db.Database.InitDB | utils/db.ts:17-53 | returns the memoised handle without opening again; otherwise opens, and memoises the handle only on success |
| Db.Database.GetFromDB | utils/db.ts:58-73 | the stored value or undefined; the engine's error when the request is rejected |
| Db.Database.SaveToDB | utils/db.ts:78-93 | creates or overwrites only `key`; the store is unchanged on failure |
| Db.Database.DeleteFromDB | utils/db.ts:98-113 | removes only `key`, and succeeds when it is absent |
| Db.Database.GetAllFromDB | utils/db.ts:118-133 | lists every record exactly once, in strictly ascending key order, and `[]` for an empty store; fails when the database cannot be opened or the `getAll` request is rejected |
| Db.Database.ClearDB | utils/db.ts:138-153 | leaves the store empty, or unchanged when the database cannot be opened or the `clear` request is rejected |
| Db.LoadAppState | utils/db.ts:158-169 | equals `ReadLegacy` of the store |
| Db.SaveAppState | utils/db.ts:174-185 | equals `ExecuteAll` of the three legacy writes |
| Db.GetMultiTableData | utils/db.ts:207-218 | equals `ReadContent` of the store |
| Db.SaveMultiTableData | utils/db.ts:220-234 | equals `Execute` of headers, then data, then the flag |
| DbMigration.StoredMetadata | utils/dbMigration.ts:112-131 | the stored registry when it is truthy; the empty version-2 registry when it is missing, falsy or unreadable |
| DbMigration.ArrayOr | utils/dbMigration.ts:85-86 | an array stays as it is; anything else becomes the default |
| DbMigration.MovedContent | utils/dbMigration.ts:58-88 | legacy headers and data if they are arrays, else `[]`; confirmed exactly when `isConfirmed === true` |
| DbMigration.MigratedTable | utils/dbMigration.ts:63-72 | named '내 데이터', created and updated at `now`, counting the legacy rows (0 for a non-array) |
| DbMigration.MigratedList | utils/dbMigration.ts:75-79 | one table, active, version 2 |
| DbMigration.PlansDistinct | utils/dbMigration.ts:81-97 | the migration's seven writes touch seven different records |
| DbMigration.ReadBack | utils/dbMigration.ts:148-167 | content written as arrays and a boolean reads back unchanged |
| DbMigration.MigrationPrefix | utils/dbMigration.ts:81-97 | after each prefix of the writes: the registry exists after the first, the content after the fourth, the legacy records untouched up to the fourth and gone after the seventh |
| DbMigration.Migrate | utils/dbMigration.ts:39-97 | writes nothing when a registry is read or no legacy `headers`/`data` is; a run that then succeeds has made all seven writes; no record outside the registry, the new content and the legacy records ever changes |
| DbMigration.MigrateWritesNothing | utils/dbMigration.ts:42-53 | nothing is written when a registry exists or no legacy headers/data exist |
| DbMigration.FreshInstall | utils/dbMigration.ts:42-53 | on a fresh install nothing is written and the registry reads as `{tables: [], activeTableId: null, version: 2}` |
| DbMigration.MigrationResult | utils/dbMigration.ts:58-97 | a migration without failures: one active default table, its content the legacy content, the legacy records gone, every other record unchanged |
| DbMigration.MigrateIdempotent | utils/dbMigration.ts:42-81 | a second migration after a successful one writes nothing |
| DbMigration.MigratedStaysMigrated | utils/dbMigration.ts:42-81 | after a run that actually migrated, the legacy `headers` and `data` records are gone, so any later startup, whatever its own failures, writes nothing |
| DbMigration.MigrationDeletesLast | utils/dbMigration.ts:81-97 | whatever the failure, a legacy record is removed only after the registry and all content records have been written |
| DbMigration.MetadataFirstStrandsLegacyData | utils/dbMigration.ts:81-92 | as written: a failing data write leaves the registry, so the next migration does nothing, the table reads as empty and the legacy rows remain |
| DbMigration.CommitLastPrefix | utils/dbMigration.ts:81-97 | for the corrected order, the content exists before the registry, and the legacy records are untouched until both exist |
| DbMigration.CommitLastNeverStrands | utils/dbMigration.ts:81-97 | with the corrected order, a second run after any failure ends with an active table holding the legacy content |
| DbMigration.CleanRunCompletes | utils/dbMigration.ts:58-97 | the corrected migration on a healthy store completes with the legacy content in place |
| DbMigration.CommitLastAgrees | utils/dbMigration.ts:81-97 | without failures the corrected migration leaves the same store as the original |
| DbMigration.PlansAgree | utils/dbMigration.ts:81-97 | both write orders, applied in full, leave the same store |
| DbMigration.ListedInIds | utils/dbMigration.ts:262-287 | `some(t => t.id === id)` agrees with `findIndex` finding the id |
| DbMigration.Created | utils/dbMigration.ts:195-204 | appends one entry with row count 0 and `createdAt == updatedAt`, keeps the others, makes it active |
| DbMigration.Deleted | utils/dbMigration.ts:231-240 | keeps exactly the entries with another id, as a subsequence; the active id is kept unless it was the deleted one, which gives way to the first remaining id or null |
| DbMigration.DeletedSpec | utils/dbMigration.ts:231-240 | drops every entry with the id and keeps the rest in order; an unlisted id changes no entry; the active id changes only if it was the deleted one, and then becomes the first remaining id or null |
| DbMigration.Updated | utils/dbMigration.ts:259-320 | NotFound exactly when the id is unlisted; otherwise only the first entry with the id changes, in its name (rename) or row count (count update) and `updatedAt`; ids, order, active id and version are kept |
| DbMigration.Activated | utils/dbMigration.ts:287-292 | NotFound exactly when the id is unlisted; otherwise only the active id changes, to a listed id |
| DbMigration.LabelCorrected | utils/dbMigration.ts:331-335 | nothing when no entry has the old label; else only the first entry with it is renamed to '계약호실' and timestamped |
| DbMigration.LabelCorrectedOnce | utils/dbMigration.ts:326-344 | with at most one such entry, a second correction writes nothing |
| DbMigration.Next | utils/dbMigration.ts:189-344 | only rename, activate and row-count updates fail, with NotFound, exactly when their id is unlisted; only the label fix can write nothing, exactly when no entry has the old label |
| DbMigration.RunOp | utils/dbMigration.ts:189-344 | a malformed registry fails with nothing written; a NotFound leaves the store unchanged; no record outside the registry and the operation's content records ever changes |
| DbMigration.NextKeepsActiveListed | utils/dbMigration.ts:189-320 | every registry operation keeps "the active id is null or listed" |
| DbMigration.NextKeepsUniqueIds | utils/dbMigration.ts:189-320 | every registry operation keeps ids unique, given a fresh id on create |
| DbMigration.OpWritesDistinct | utils/dbMigration.ts:206-247 | an operation's writes go to distinct records, the registry first |
| DbMigration.RunOpEffect | utils/dbMigration.ts:189-344 | the store holds the new registry when its write succeeded; no record outside the registry and the table's content changes |
| DbMigration.RunOpKeepsInvariants | utils/dbMigration.ts:189-344 | whatever write fails, the stored registry keeps its invariants |
| DbMigration.FailuresWriteNothing | utils/dbMigration.ts:259-320 | a malformed registry or an unlisted id fails before any write |
| DbMigration.FixLabelWithoutLabel | utils/dbMigration.ts:333-339 | without the old label nothing is written |
| DbMigration.CreateEffect | utils/dbMigration.ts:189-223 | a created table is listed last and active, and its content reads as empty |
| DbMigration.RemoveEffect | utils/dbMigration.ts:228-254 | a deleted table is unlisted and its three records are gone |
| DbMigration.SwallowedReadErrorUnlistsTables | utils/dbMigration.ts:123-242 | as written: when only the registry read fails, a create writes back a registry listing the new table alone and a delete writes back an empty one, unlisting every stored table |
| DbMigration.CheckedWritesFromStoredRegistry | utils/dbMigration.ts:123-130 | with the read error reported, the stored registry afterwards is either untouched or the operation's change of the registry actually stored |
| DbMigration.CheckedCreateKeepsTables | utils/dbMigration.ts:189-206 | with the read error reported, every table listed before a create is still listed afterwards, whatever request fails |
| DbMigration.SwallowedReadErrorRemigrates | utils/dbMigration.ts:26-81 | as written: when only the registry read fails and legacy records remain, the migration runs again and replaces the stored registry by the one migrated table |
| DbMigration.CheckedMigrationKeepsRegistry | utils/dbMigration.ts:26-46 | with the read error reported, a store that has a registry is never changed by the migration |
| DbMigration.IsAlreadyMigrated | utils/dbMigration.ts:26-33 | true exactly when a `metadata` record is read |
| DbMigration.HasOldFormat | utils/dbMigration.ts:13-21 | true exactly when a legacy `headers` or `data` record is read |
| DbMigration.MigrateToMultiTable | utils/dbMigration.ts:39-107 | equals `Migrate` of the store, in which a failed registry read counts as "not migrated" and a failed legacy read as "no legacy data" |
| DbMigration.WriteMigration | utils/dbMigration.ts:81-97 | equals `Execute` of the registry write, the three content writes and the three legacy deletes, in source order |
| DbMigration.DeleteLegacy | utils/dbMigration.ts:95-97 | equals `Execute` of the three legacy deletes, in source order |
| DbMigration.GetTableMetadata | utils/dbMigration.ts:112-131 | equals `StoredMetadata` of the store |
| DbMigration.SaveTableMetadata | utils/dbMigration.ts:136-143 | one put of the registry |
| DbMigration.GetTableData | utils/dbMigration.ts:148-167 | equals `ReadContent` of the store |
| DbMigration.SaveTableData | utils/dbMigration.ts:172-184 | equals `Execute` of the three content writes |
| DbMigration.CreateNewTable | utils/dbMigration.ts:189-223 | equals `RunOp` of `Create`, which starts from the empty registry when the registry read fails, and returns the new entry |
| DbMigration.DeleteTable | utils/dbMigration.ts:228-254 | equals `RunOp` of `Remove`, which starts from the empty registry when the registry read fails |
| DbMigration.RenameTable | utils/dbMigration.ts:259-277 | equals `RunOp` of `Rename` |
| DbMigration.SetActiveTable | utils/dbMigration.ts:282-298 | equals `RunOp` of `Activate` |
| DbMigration.UpdateTableRowCount | utils/dbMigration.ts:303-320 | equals `RunOp` of `SetRowCount` |
| DbMigration.RenameExistingTable | utils/dbMigration.ts:326-344 | equals `RunOp` of `FixLabel` |
| TableManager.CsvFields | components/tables/TableManager.tsx:50-80 | a line always has at least one field |
| TableManager.ScannedStep | components/tables/TableManager.tsx:55-76 | the scan of one more character is one automaton step |
| TableManager.ParseCsvLine | components/tables/TableManager.tsx:50-80 | the lookahead loop computes exactly the automaton's fields |
| TableManager.ScanParity | components/tables/TableManager.tsx:55-76 | the scanner is inside quotes exactly after an odd number of quotes, and has finished one field per comma outside them |
| TableManager.FieldCount | components/tables/TableManager.tsx:50-80 | there is one field more than there are commas outside quotes |
| TableManager.QuoteFreeScan | components/tables/TableManager.tsx:67-79 | without quotes the scanner state is the comma split so far |
| TableManager.QuoteFreeIsSplit | components/tables/TableManager.tsx:67-79 | a line without quotes is split at every comma |
| TableManager.NoQuotedFields | components/tables/TableManager.tsx:56-69 | some field holds a quote exactly when a quote is read right after a quote inside quoted text (`""` inside a quoted section); any other quote only toggles quoting |
| TableManager.EmptyQuotedSection | components/tables/TableManager.tsx:56-69 | `a""b` reads as the one field `ab`: a `""` outside quoted text is an empty quoted section |
| TableManager.QuoteAll | components/tables/TableManager.tsx:56-69 | every field quoted, in order |
| TableManager.ResumeAppend | components/tables/TableManager.tsx:55-76 | scanning `a + b` is scanning `a`, then `b` |
| TableManager.ScannedIsResume | components/tables/TableManager.tsx:55-76 | a scan from the start state is resumable |
| TableManager.ResumeEscaped | components/tables/TableManager.tsx:56-63 | escaped text read inside quotes adds the original text to the field |
| TableManager.ResumeQuoted | components/tables/TableManager.tsx:56-70 | a quoted field ends with its text as the current field, quotes closed |
| TableManager.ResumeEncoded | components/tables/TableManager.tsx:50-80 | an encoded line scans to its fields with the last one pending |
| TableManager.EncodeThenParse | components/tables/TableManager.tsx:50-80 | reading back a line of quoted and escaped fields gives the fields back |
| TableManager.BuildRow | components/tables/TableManager.tsx:95-98 | the row's keys are exactly the headers |
| TableManager.BuildRowLastWins | components/tables/TableManager.tsx:95-98 | a repeated header maps to the value of its last column |
| TableManager.BuildRowColumns | components/tables/TableManager.tsx:95-98 | with distinct headers each header maps to its column's value |
| TableManager.DataRows | components/tables/TableManager.tsx:84-108 | no more rows than lines, and each kept row has a non-blank value |
| TableManager.DataRowsStep | components/tables/TableManager.tsx:84-108 | a kept line adds its row before the remaining lines' rows; any other line adds nothing |
| TableManager.DataRowsAreKeptLines | components/tables/TableManager.tsx:84-108 | the rows are those of the lines that are non-blank, have as many fields as headers and some value, in file order |
| TableManager.Lines | components/tables/TableManager.tsx:44 | there is always a first line |
| TableManager.ParseCsv | components/tables/TableManager.tsx:42-116 | headers come out exactly when the first line is not blank, and are that line's fields; no headers means no rows; fewer rows than lines, each with a non-blank value |
| TableManager.BlankTextParsesEmpty | components/tables/TableManager.tsx:44-48 | empty or blank text gives no headers and no rows |
| TableManager.HeadersIffFirstLine | components/tables/TableManager.tsx:44-82 | headers come out exactly when the first line is not blank |
| TableManager.ParsedRowsShape | components/tables/TableManager.tsx:82-110 | each parsed row has exactly the headers as keys and a non-blank value |
| TableManager.WithoutIndex | components/tables/TableManager.tsx:148-152 | removes exactly the element at the index; an index out of range changes nothing |
| TableManager.SavedRows | components/tables/TableManager.tsx:162-167 | when editing, only that index is replaced; otherwise the row is appended |
| TableManager.EmptyRowIffNoValue | components/tables/TableManager.tsx:103-158 | the save check's "every value blank" is the negation of the parse filter's "some value" |
| TableManager.Centered | components/tables/TableManager.tsx:200-201 | half the spare room, never negative |
| TableManager.WithZIndex | components/tables/TableManager.tsx:229-231 | keeps the number of windows |
| TableManager.WithPosition | components/tables/TableManager.tsx:236-238 | keeps the number of windows |
| TableManager.BringToFrontSpec | components/tables/TableManager.tsx:228-233 | only the target gets the counter's value, now above every other window, and the stack stays well formed |
| TableManager.MoveSpec | components/tables/TableManager.tsx:235-239 | only the target's position changes |
| TableManager.FilterKeepsStacked | components/tables/TableManager.tsx:224-226 | removing windows keeps ids and stacking orders distinct and below the counter |
| TableManager.CloseSpec | components/tables/TableManager.tsx:224-226 | the closed window is gone, the others remain in order |
| TableManager.OpenSpec | components/tables/TableManager.tsx:209-220 | a window opened with the counter's value and a new id is above all others, keeping the stack well formed |
| TableManager.TableManagerState.constructor | components/tables/TableManager.tsx:35-39 | no form open, no windows, counter at 100, no message |
| TableManager.TableManagerState.LoadText | components/tables/TableManager.tsx:121-131 | replaces headers and rows when headers were parsed; otherwise only the empty-file message is set |
| TableManager.TableManagerState.Add | components/tables/TableManager.tsx:138-141 | opens the form with no row being edited |
| TableManager.TableManagerState.Edit | components/tables/TableManager.tsx:143-146 | opens the form on the row |
| TableManager.TableManagerState.CloseModal | components/tables/TableManager.tsx:177-180 | closes the form and clears the edited row |
| TableManager.TableManagerState.Delete | components/tables/TableManager.tsx:148-152 | with data and confirmation, removes exactly that row |
| TableManager.TableManagerState.Save | components/tables/TableManager.tsx:154-175 | refuses an all-blank row with the message and keeps the form open; otherwise replaces or appends and closes the form; without data it only closes the form |
| TableManager.TableManagerState.View | components/tables/TableManager.tsx:197-222 | appends one window: centred, cascaded by 20 per open window, on the counter's order; then increments the counter |
| TableManager.TableManagerState.CloseDetailModal | components/tables/TableManager.tsx:224-226 | removes the windows with that id |
| TableManager.TableManagerState.BringToFront | components/tables/TableManager.tsx:228-233 | gives that window the counter's value, then increments it |
| TableManager.TableManagerState.UpdateModalPosition | components/tables/TableManager.tsx:235-239 | moves that window only |
| DataTable.InitialOrder | components/DataTable.tsx:84-97 | the saved order if it passes the check, else the headers; as many columns as headers, each a header |
| DataTable.SavedOrderMayHideHeader | components/DataTable.tsx:88-89 | as written: `["a","a"]` passes for headers `["a","b"]`, and `b` is then never shown |
| DataTable.InitialOrderFixed | components/DataTable.tsx:87-89 | with the corrected check the order holds exactly the headers |
| DataTable.FixedAcceptsRearrangements | components/DataTable.tsx:87-90 | the corrected check still adopts every rearrangement of the headers |
| DataTable.VisibleColumns | components/DataTable.tsx:116-118 | exactly the non-hidden columns, in order |
| DataTable.FilteredData | components/DataTable.tsx:121-133 | every row for a blank query; always a subsequence of the rows |
| DataTable.PageRows | components/DataTable.tsx:163-166 | at most 50 rows, starting at `page * 50` |
| DataTable.TotalPages | components/DataTable.tsx:168 | the least page count whose pages hold every row |
| DataTable.PagesUpToPrefix | components/DataTable.tsx:163-168 | the first `k` pages are the first `50k` rows |
| DataTable.PagesCoverRows | components/DataTable.tsx:163-168 | the pages hold every row once, in order; all but the last are full, and later ones are empty |
| DataTable.PageBefore | components/DataTable.tsx:172-174 | never below 0, else one less |
| DataTable.PageAfter | components/DataTable.tsx:176-178 | never above `totalPages - 1`, else one more |
| DataTable.PageButtonsStayInRange | components/DataTable.tsx:172-178 | from a valid page both buttons stay on a valid page |
| DataTable.NextPageWithoutRows | components/DataTable.tsx:176-178 | with no rows the next-page button would move to -1 |
| DataTable.AfterSortClick | components/DataTable.tsx:185-195 | the clicked column becomes the sort column; the direction reverses on the same column, else becomes ascending |
| DataTable.SortClickTwice | components/DataTable.tsx:185-195 | two clicks on the sorted column restore the sort; on another column they give descending |
| DataTable.Moved | components/DataTable.tsx:239-241 | the moved element lands at the target index, and taking it out again gives the sequence without it |
| DataTable.MovedSpec | components/DataTable.tsx:239-241 | a permutation; the element lands at the target index and only the elements between shift by one |
| DataTable.MovedRemoved | components/DataTable.tsx:239-241 | without the moved element the order is unchanged |
| DataTable.Dropped | components/DataTable.tsx:221-246 | the new order is a permutation of the old |
| DataTable.DropSpec | components/DataTable.tsx:221-246 | no-op when nothing is dragged, or the target itself, or either column is missing; otherwise the dragged column takes the target's index and the rest keep their order |
| DataTable.Restored | components/DataTable.tsx:269-271 | removes every occurrence of the column and keeps the others in order |
| DataTable.HideThenRestore | components/DataTable.tsx:262-271 | hiding then restoring a column gives back the hidden list and the visible columns |
| DataTable.ResizedWidth | components/DataTable.tsx:299-302 | never below 60; otherwise the base width plus the movement |
| DataTable.DraggedWidthsAtLeastMinimum | components/DataTable.tsx:295-316 | any run of resize moves leaves a width of at least 60 |
| DataTable.DataTableState.constructor | components/DataTable.tsx:25-54 | headers as the column order, nothing hidden, page 0, no sort |
| DataTable.DataTableState.LoadLayout | components/DataTable.tsx:57-98 | on mount and on every change of the headers (a table switch reuses the component): takes the new headers, adopts saved hidden columns and widths when present, and the saved order only if it passes the check against the new headers |
| DataTable.DataTableState.PreviousPage | components/DataTable.tsx:172-174 | the page becomes `PageBefore` |
| DataTable.DataTableState.NextPage | components/DataTable.tsx:176-178 | the page becomes `PageAfter` of the filtered row count |
| DataTable.DataTableState.SearchChange | components/DataTable.tsx:180-183 | sets the query and returns to page 0 |
| DataTable.DataTableState.Sort | components/DataTable.tsx:185-195 | applies `AfterSortClick` and returns to page 0 |
| DataTable.DataTableState.DragStart | components/DataTable.tsx:206-209 | records the dragged column |
| DataTable.DataTableState.DragOver | components/DataTable.tsx:211-215 | records the column under the cursor |
| DataTable.DataTableState.DragLeave | components/DataTable.tsx:217-219 | clears the column under the cursor |
| DataTable.DataTableState.Drop | components/DataTable.tsx:221-246 | applies `Dropped` and ends the drag; the new order is a rearrangement of the old order, and stays as many columns as headers, each one a header |
| DataTable.DataTableState.DragEnd | components/DataTable.tsx:248-251 | ends the drag |
| DataTable.DataTableState.OpenContextMenu | components/DataTable.tsx:253-260 | opens the menu on the column |
| DataTable.DataTableState.DeleteColumn | components/DataTable.tsx:262-267 | appends the menu's column to the hidden list and closes the menu |
| DataTable.DataTableState.UndoDelete | components/DataTable.tsx:269-271 | applies `Restored` |
| DataTable.DataTableState.CloseContextMenu | components/DataTable.tsx:273-287 | closes the menu |
| DataTable.DataTableState.MouseDown | components/DataTable.tsx:290-293 | starts resizing the column |
| DataTable.DataTableState.MouseMove | components/DataTable.tsx:296-303 | resizes the column with the clamp while resizing; otherwise nothing |
| DataTable.DataTableState.MouseUp | components/DataTable.tsx:305-307 | stops resizing |

## Left out

- IndexedDB itself is replaced by a map and a fault model. This covers the open request, `onupgradeneeded`, transactions and the request callbacks. A rejected request is a `Faults` entry rather than an engine event. The database name and version do not matter to this model.
- The migration that `initDB` starts after opening runs fire-and-forget and races the application's own startup call. It is modelled only as one sequential call of `DbMigration.MigrateToMultiTable`, because the race is concurrency.
- `Db.SaveAppState`: `Promise.all` issues the three writes concurrently. The model issues them in list order and reports the first rejection in list order. Interleavings and which rejection wins are not modelled.
- Console logging is not modelled. `generateTableId`, `Date.now`, `Math.random` and `new Date().toISOString()` are replaced by parameters. The model does not show that generated ids are unique. The registry lemmas that need uniqueness require a fresh id on create.
- `Types.Value` covers part of what a record can hold:
  - A record holding `undefined` is not distinguished from a missing record.
  - Truthy registry values of a shape other than a table list all count as `MalformedMetadata`. The source would read their `.tables` and might not always throw.
  - Empty string and empty row arrays are both `[]`.
- `saveHeaders`, `saveData` and `saveIsConfirmed` (utils/db.ts:190-200) are single `saveToDB` calls, so `Db.Database.SaveToDB` already covers them.
- `parseCSV`'s catch branch (components/tables/TableManager.tsx:111-114) is left out. No modelled operation throws.
- `FileReader` and its error message are left out because they are I/O. `TableManager.TableManagerState.LoadText` starts from the text it produced.
- `TableManager.TableManagerState`: `appState.setHeaders` and `appState.setData` persist through hooks/useActiveTable.ts. That file is not part of this model; the handlers assign the state fields directly.
- `TableManager.TableManagerState.Save` requires the edited index to lie within the rows. An index past the end would make JavaScript grow a sparse array. The form is only opened on displayed rows.
- `TableManager.TableManagerState.View` requires the generated window id to be new and the window stack valid. `Date.now()` ids are not guaranteed distinct by the source.
- Window positions are real numbers. JavaScript's floating point rounding is not modelled.
- The sort comparator (`parseFloat`, `localeCompare('ko-KR')`) is left out because of floating point and the locale library. Pages are taken from the sorted rows as given.
- The case-insensitive search match (`toLowerCase`, `includes`) is a parameter `DataTable.Matcher`. Only the blank query and the subsequence property are proved.
- Db.Database.GetAllFromDB: the key order compares characters, which are Unicode scalar values; IndexedDB compares UTF-16 code units. The two orders differ only for keys holding characters above U+FFFF, which the application's keys (ASCII prefixes, generated ids) do not.
- TableManager.BuildRow: rows are maps, so a header naming an `Object.prototype` member is an ordinary key. In JavaScript, `obj['__proto__'] = value` goes to the inherited setter, which ignores a string, so the source row has no such key and `Object.values` never sees it. For headers `["__proto__"]` and the line `x`, the source drops the row and `TableManager.DataRows` keeps it.
- DataTable.ResizedWidth: widths are a map, so a column named `constructor`, `toString`, `valueOf` or after another `Object.prototype` member starts from 160. In JavaScript, `prev[col] || 160` finds the inherited function, and the new width is NaN. `DataTable.DraggedWidthsAtLeastMinimum` and `DataTable.DataTableState.MouseMove` hold only for columns whose names are not inherited members.
- localStorage and `JSON.parse` are left out. `DataTable.DataTableState.LoadLayout` takes each saved entry already parsed, with `None` for missing, unparsable or of the wrong kind. Widths are integers; other JSON values in the saved widths are not modelled.
- The date/time banner, the sort indicator text, phone and address detection, and all rendering are UI only.
- The React hooks and the form, modal, selector and sidebar components are left out. They only mirror the modelled operations into React state.

## Findings

| source | as written | input that shows it | evidently intended | confidence | as-written member | corrected member |
|---|---|---|---|---|---|---|
| utils/dbMigration.ts:81-92 | the registry is written before the three content records | legacy `data` holds rows and the `table:{id}:data` write fails: the next startup sees `metadata`, skips the migration, and the new table reads as empty while the legacy rows stay | write the registry, the record that marks the migration done, only after the content, so a failed run is retried | not executed | DbMigration.MetadataFirstStrandsLegacyData | DbMigration.CommitLastNeverStrands |
| utils/dbMigration.ts:123-130 | `getTableMetadata` answers a failed read with the empty registry, and `createNewTable`/`deleteTable` write their change of it back | the `metadata` read is rejected once while the write succeeds: after `createNewTable` only the new table is listed, after `deleteTable` none is, and every stored table is unlisted | report the read error, so a registry is only ever written as a change of the stored one | not executed | DbMigration.SwallowedReadErrorUnlistsTables | DbMigration.CheckedCreateKeepsTables |
| utils/dbMigration.ts:26-31 | `isAlreadyMigrated` answers a failed read with "not migrated" | a registry exists, legacy `headers` remain (the first row's situation) and the `metadata` read is rejected: the migration runs again and replaces the registry by one table | report the read error, so an existing registry is never overwritten by the migration | not executed | DbMigration.SwallowedReadErrorRemigrates | DbMigration.CheckedMigrationKeepsRegistry |
| components/DataTable.tsx:88-89 | a saved order is accepted when its length matches and every saved column is a header | headers `["a","b"]`, saved order `["a","a"]`: accepted, so column `b` is never shown | accept only when every header is present too, as the comment at line 87 says | not executed | DataTable.SavedOrderMayHideHeader | DataTable.InitialOrderFixed |
