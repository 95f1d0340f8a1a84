# File store model

A Dafny model of the core of a small cloud file store.

- **The server's file store**: one `files` table plus the serial that hands out ids. It lists a folder, gets one row, creates, updates, deletes recursively, totals the sizes and searches by name.
- **The HTTP handlers over the store**: parameter parsing, the two upload admission rules, the storage summary, and the reply each route gives.
- **The shared row shape and its two limits.**
- **Two client display helpers**: the icon for a file type and the breadcrumb for a path.

Files and modules:

| file | module | what it holds |
|---|---|---|
| `schema.dfy` | `Schema` | the row, insert and partial-update shapes, the 100 MB / 100 GB limits |
| `jsstring.dfy` | `JsString` | `startsWith`, `includes`, `split` and `join` as the core uses them |
| `jsnumber.dfy` | `JsNumber` | `Number(s)` on integer strings: a value, or NaN |
| `table.dfy` | `Table` | the table as a value; the store's queries as functions; what a recursive delete removes (`Cascade`) and the order it removes rows in |
| `storage.dfy` | `Storage` | class `FileStore`, whose methods update the table and the serial in place |
| `routes.dfy` | `Routes` | the handlers as methods over a `FileStore`, and the admission rules |
| `file_utils.dfy` | `FileUtils` | `getFileIcon` and `formatPath` |

The recursive delete needs a termination argument that the source does not give. Every delete carries a ghost `rank` map, and `RankedBy` requires each row to rank below the row its `parentId` names. Such a map exists exactly when the parent chains have no cycle.

The store also keeps a ghost log of deleted ids, so that the order of deletions can be stated: children before their parent, each id once.

## Model

| member | source | states |
|---|---|---|
| `Schema.Limits` | shared/schema.ts:23-24 | the per-file cap is 104857600 bytes (100 MB), the storage limit is 107374182400 bytes (100 GB), and the cap is below the limit |
| `Schema.InsertedIsFolder` | shared/schema.ts:13 | an inserted row is a folder exactly when the insert says `true`; an omitted flag defaults to false |
| `Schema.ToRecord` | shared/schema.ts:5-18 | the inserted row carries the id the serial chose and every other column as given, with `isFolder` defaulting to false |
| `Schema.Merge` | server/storage.ts:64-71 | each column present in a partial update is overwritten, each absent one keeps its value, and the id never changes |
| `Schema.MergeLaws` | server/storage.ts:64-71 | the empty update changes nothing; applying the same update twice equals applying it once |
| `Schema.RenameKeepsTheRest` | server/storage.ts:64-71 | a rename changes the name and no other column |
| `JsString.StartsWith` | client/src/lib/file-utils.ts:2-5 | `startsWith` holds exactly when the string is at least as long as the prefix and agrees with it at each of the prefix's indices |
| `JsString.Contains` | client/src/lib/file-utils.ts:6-8 | `includes` holds whenever the string starts with the query, and only when the query is no longer than the string |
| `JsString.Join` | client/src/lib/file-utils.ts:21 | the empty list joins to the empty string; a non-empty list's join starts with its first piece and ends with its last |
| `JsString.ContainsIff` | server/storage.ts:116 | the `%query%` name match holds exactly when the query occurs at some index of the name |
| `JsString.ContainsEmpty` | server/storage.ts:116 | the empty query matches every name |
| `JsString.Split` | client/src/lib/file-utils.ts:21 | a split has at least one piece and no piece holds the separator |
| `JsString.JoinSplit` | client/src/lib/file-utils.ts:21 | joining the pieces of a split with the separator gives back the string |
| `JsString.SplitJoin` | client/src/lib/file-utils.ts:21 | splitting a join of separator-free pieces gives back the pieces |
| `JsNumber.Number` | server/routes.ts:15 | a parameter is a number exactly when it is empty (0) or an optionally signed run of digits; a `-` literal is never positive, any other literal never negative |
| `JsNumber.NumberShowInt` | server/routes.ts:15 | every integer written in decimal reads back as that integer |
| `JsNumber.NotANumber` | server/routes.ts:15 | a parameter holding a character that is neither a digit nor a sign is NaN |
| `JsNumber.LoneSign` | server/routes.ts:15 | a lone `-` or `+` is NaN |
| `JsNumber.SignedDigits` | server/routes.ts:15 | `+` before digits keeps their value, `-` negates it |
| `JsNumber.LeadingZero` | server/routes.ts:15 | a leading zero does not change the value, with or without a sign |
| `Table.UniqueAppend` | shared/schema.ts:6 | a table extended by a row keeps unique ids exactly when no existing row has the new row's id |
| `Table.Find` | server/storage.ts:44-47 | the row found is in the table with that id; nothing is found exactly when no row has that id |
| `Table.FindUnique` | server/storage.ts:44-47 | with unique ids, getting a row by its id gives that very row |
| `Table.ChildrenOf` | server/storage.ts:35-37 | a row is listed exactly when it is in the table and its `parentId` equals the one asked for (null for the root); the list is never longer than the table |
| `Table.Search` | server/storage.ts:111-116 | a row is found exactly when its name contains the query; folders included |
| `Table.SearchEmpty` | server/storage.ts:111-116 | the empty query returns the whole table |
| `Table.Without` | server/storage.ts:90 | after a delete, a row remains exactly when its id was not deleted |
| `Table.TotalSize` | server/storage.ts:97-104 | with only folders (or no rows) the total is 0; with non-negative sizes it is non-negative |
| `Table.TotalSizeAppend` | server/storage.ts:97-104 | a new row raises the total by its size, or by nothing when it is a folder |
| `Table.TotalSizeConcat` | server/storage.ts:97-104 | the total of two tables laid end to end is the sum of their totals |
| `Table.Updated` | server/storage.ts:64-71 | an update keeps the table's size and every row's id, and every row with another id stays in the table |
| `Table.UpdatedLaws` | server/storage.ts:64-71 | an update keeps the table's length, every row's id and every row with another id, and keeps ids unique; with no such row nothing changes |
| `Table.FindUpdated` | server/storage.ts:64-71 | the row an update returns is the old row with the update merged in, or nothing when no row had that id |
| `Table.TotalSizeUpdated` | server/storage.ts:64-71 | an update changes the total by the difference between the merged row's weight and the old row's |
| `Table.WithoutUnique` | server/storage.ts:90 | deleting rows keeps ids unique |
| `Table.FindWithout` | server/storage.ts:90 | after a delete, a deleted id is not found and every other id finds what it found before |
| `Table.WithoutWithout` | server/storage.ts:83-90 | deleting one set of ids and then another deletes their union |
| `Table.ChildrenWithout` | server/storage.ts:84 | listing a folder after a delete lists what it listed before, minus the deleted rows |
| `Table.RankedByWithout` | server/storage.ts:78-95 | deleting rows keeps the parent chains acyclic |
| `Table.ChildrenRanked` | server/storage.ts:84-87 | every child a folder's delete recurses into ranks below the folder, so the recursion ends |
| `Table.Cascade` | server/storage.ts:78-95 | a delete removes the row itself exactly when a row has that id, and removes nothing when none has |
| `Table.CascadeAll` | server/storage.ts:85-87 | deleting a list of children removes each child that is a row of the table |
| `Table.CascadeRows` | server/storage.ts:78-95 | everything a delete removes is a row of the table, ranked no higher than the starting row |
| `Table.CascadeClosed` | server/storage.ts:83-88 | whatever the delete of a removed row would remove is removed too |
| `Table.CascadeParent` | server/storage.ts:83-88 | every removed row except the starting one has its parent removed as well: a delete reaches rows only through their parents |
| `Table.CascadeWithout` | server/storage.ts:85-87 | after a closed set of rows is deleted, a later delete removes what it would have removed before, minus what is already gone |
| `Table.CascadeAllWithout` | server/storage.ts:85-87 | the same for the deletes of a list of children |
| `Table.CascadeStep` | server/storage.ts:85-87 | deleting the children one after another removes exactly the union of their individual deletes |
| `Table.CascadeIsUnderFolders` | server/storage.ts:78-95 | a row is removed exactly when its parent chain reaches the starting row through folders only; an independent characterisation of the recursion |
| `Table.OnlyFilesLeaveOrphans` | server/storage.ts:83 | in the model, which drops the foreign key, a surviving row whose parent was removed is the child of a non-folder, whose children the delete never visits |
| `Table.LogAppendChild` | server/storage.ts:85-87 | appending the deletions of one child's subtree keeps the log free of repeats and children-first |
| `Table.LogAppendFolder` | server/storage.ts:90 | deleting the folder after all of its descendants keeps the log children-first |
| `Storage.FileStore.constructor` | shared/schema.ts:6 | the store starts empty with its serial at 1 |
| `Storage.FileStore.GetFiles` | server/storage.ts:35-37 | the rows with the given `parentId`, and only those |
| `Storage.FileStore.GetFile` | server/storage.ts:44-47 | the row with that id, which is the only one with that id, or nothing exactly when no row has it |
| `Storage.FileStore.GetTotalSize` | server/storage.ts:97-104 | the summed size of the non-folder rows; 0 when there are none |
| `Storage.FileStore.SearchFiles` | server/storage.ts:111-116 | the rows whose name contains the query |
| `Storage.FileStore.CreateFile` | server/storage.ts:54-57 | the insert is appended with the next serial value as its id, an id no existing row has, and is found by that id; ids stay unique |
| `Storage.FileStore.UpdateFile` | server/storage.ts:64-71 | the update is merged into the row with that id and the merged row is returned; with no such row nothing changes and nothing is returned |
| `Storage.FileStore.DeleteFile` | server/storage.ts:78-95 | the table loses exactly the rows of the cascade (nothing when the id is absent, the row alone for a file, the whole subtree through folders for a folder), each deleted once and children before parents; the serial is untouched |
| `Storage.FileStore.RemoveRow` | server/storage.ts:90 | the row with that id leaves the table and is logged |
| `Storage.FileStore.DeleteChildren` | server/storage.ts:84-87 | deleting a folder's children in listing order removes the folder's cascade except the folder itself, children first |
| `Storage.SerialIdsWithout` | server/storage.ts:90 | deleting rows keeps every id unique and issued by the serial |
| `Storage.NothingDeleted` | server/storage.ts:80-81 | deleting an id no row has removes nothing and logs nothing |
| `Storage.FileDeleted` | server/storage.ts:83-90 | deleting a non-folder removes that row alone |
| `Storage.StartDeleting` | server/storage.ts:84 | a folder's children, listed before any deletion, all rank below it |
| `Storage.NothingGoneYet` | server/storage.ts:85 | before the loop over the children nothing is deleted |
| `Storage.ChildStepBefore` | server/storage.ts:86 | the table met by the next child's delete is still acyclic, and that child ranks below the folder |
| `Storage.ChildStepAfter` | server/storage.ts:86 | after the next child's delete, the rows gone are those of the children handled so far, logged children-first |
| `Storage.AllChildrenGone` | server/storage.ts:85-87 | after the loop, the rows gone are the folder's cascade except the folder |
| `Storage.FolderDeleted` | server/storage.ts:83-90 | deleting the folder itself after its children completes its cascade, children first |
| `Routes.ParentFilter` | server/routes.ts:8 | an absent or empty `parentId` lists the root; any other value is converted by `Number` |
| `Routes.ParentFilterRoundTrip` | server/routes.ts:8 | an integer written in decimal as `parentId` filters by that integer |
| `Routes.ListFiles` | server/routes.ts:7-11 | the reply lists the rows under the parent named, only rows of the store; a NaN parent makes the handler reject with no reply, and only a NaN parent does |
| `Routes.GetFileById` | server/routes.ts:13-24 | the reply is the row with that id; 404 "File not found" exactly when the id is an integer no row has; 500 "Failed to get file" exactly when the id is NaN |
| `Routes.Admission` | server/routes.ts:30-36 | an upload is too large exactly when it is a non-folder above the per-file cap; over quota exactly when it passes that check but the total plus its size exceeds the limit; admitted otherwise |
| `Routes.FolderSkipsSizeCap` | server/routes.ts:30-36 | a folder is never too large, but its size still counts against the quota |
| `Routes.QuotaPreserved` | server/routes.ts:34-39 | an admitted upload keeps the total within the storage limit when it was within it before |
| `Routes.Summary` | server/routes.ts:77-81 | the summary reports the total used, the limit, and their difference as available |
| `Routes.AdmitIffAvailable` | server/routes.ts:34-36 | an upload that passes the per-file cap is admitted exactly when its size fits in what the summary reports as available |
| `Routes.AdmitLowersAvailable` | server/routes.ts:34-40 | admitting a non-folder lowers what is available by its size and never below zero |
| `Routes.StorageSummary` | server/routes.ts:75-82 | the summary of the store's current total |
| `Routes.PostFile` | server/routes.ts:27-41 | a refused upload answers 400 with its reason and leaves the store unchanged; an admitted one is appended once with the next id and is the answer; the total stays within the limit |
| `Routes.PatchFile` | server/routes.ts:43-48 | the reply is the updated row, or no row when no row has the id, and then nothing changes; a NaN id makes the handler reject with no reply and changes nothing |
| `Routes.DeleteFileById` | server/routes.ts:50-54 | the reply is success for every integer id, present or not, and the store loses the cascade of the id; a NaN id, and only that, makes the handler reject with no reply and changes nothing |
| `Routes.SearchAsWritten` | server/routes.ts:56-67 | as written, the search finds exactly the rows whose name contains "[object Object]" |
| `Routes.SearchByQuery` | server/routes.ts:58-67 | the evidently intended search finds exactly the rows whose name contains `q`; every row when `q` is absent |
| `Routes.SearchIgnoresQuery` | server/routes.ts:58-67 | a row named "a" is found by the query "a" as intended but not by the handler as written |
| `Routes.SearchFiles` | server/routes.ts:56-73 | the corrected route answers the rows whose name contains the query parameter |
| `FileUtils.GetFileIcon` | client/src/lib/file-utils.ts:1-10 | each icon is chosen exactly when its rule is the first one the type meets: the four prefixes in order, then "pdf", "spreadsheet", "presentation", then the default |
| `FileUtils.PrefixDecides` | client/src/lib/file-utils.ts:2-5 | each media prefix alone decides its icon, whatever the order of the tests |
| `FileUtils.PrefixBeatsSubstring` | client/src/lib/file-utils.ts:2-6 | a prefix rule wins over a substring rule: a type with a media prefix that contains "pdf" (such as `text/pdf`) gets its prefix's icon, never the pdf one |
| `FileUtils.SubstringOrder` | client/src/lib/file-utils.ts:6-8 | a type holding both "spreadsheet" and "pdf" gets the pdf icon, wherever the two stand |
| `FileUtils.SubstringIconsOccur` | client/src/lib/file-utils.ts:6-8 | a substring icon is chosen only when its substring occurs in the type |
| `FileUtils.NonEmpty` | client/src/lib/file-utils.ts:21 | the filter keeps exactly the non-empty pieces |
| `FileUtils.Segments` | client/src/lib/file-utils.ts:21 | every segment of a path is non-empty and holds no slash |
| `FileUtils.FormatPath` | client/src/lib/file-utils.ts:20-22 | the breadcrumb is empty exactly when the path has no segment, and otherwise starts with the first segment and ends with the last |
| `FileUtils.SegmentsConcat` | client/src/lib/file-utils.ts:21 | a slash between two strings separates their segments |
| `FileUtils.SegmentsJoin` | client/src/lib/file-utils.ts:21 | segments joined with slashes come back as the same segments |
| `FileUtils.FormatPathJoin` | client/src/lib/file-utils.ts:20-22 | a path made of segments joined by slashes formats as those segments joined by " / " |
| `FileUtils.FormatPathOnlySlashes` | client/src/lib/file-utils.ts:20-22 | the empty path and a path of slashes only format as the empty string |
| `FileUtils.FormatPathSlashes` | client/src/lib/file-utils.ts:20-22 | leading, trailing and doubled slashes make no difference to the breadcrumb |
| `FileUtils.FormatPathExample` | client/src/lib/file-utils.ts:20-22 | `/a//b/` formats as `a / b` for any two segments |

## Left out

- Database I/O, the driver and error logging. The database fails in the model only on a NaN key (see the route lines below). Any other failure, such as a lost connection, is not modelled, nor is the search handler's 500 (server/routes.ts:69-72).
- The request validation that parses the upload body. Uploads and updates arrive already shaped as `InsertFile` / `FileUpdate`. The 400 that validation produces for a malformed body is not modelled.
- server/routes.ts uses the insert validator without importing it. Upload and update are modelled as though the import were present.
- Route order: in the source, `/api/files/:id` is registered before `/api/files/search` and matches that path first. `Routes.SearchFiles` is modelled as reachable.
- `Number()` forms beyond an optional sign and decimal digits are NaN in the model. Those forms are surrounding whitespace, hex, exponents, fractions, `Infinity`, and the arrays a repeated query parameter produces.
- `Routes.GetFileById`: a NaN id answers 500 through the handler's catch (server/routes.ts:21-24), as in the source. A fractional id such as `1.5` is NaN in the model; in the source it is a number that the database refuses as well, so the reply is the same 500.
- `Routes.ListFiles`, `Routes.PatchFile`, `Routes.DeleteFileById`: these handlers (server/routes.ts:7-11, 43-48, 50-54) have no catch. A NaN `parentId` or id makes the database query fail, the handler's promise rejects and no reply is sent. The model answers `Rejected` and leaves the store unchanged; what the framework then does with the request is not modelled.
- JavaScript numbers are doubles and the `size`/`parent_id` columns are 32-bit. Sizes, ids and totals are unbounded integers in the model.
- `Routes.Admission`: the sum the driver returns for the total size (server/storage.ts:100-104) may arrive as a string. Then `totalSize + size` at server/routes.ts:35 joins strings: with 200000000 bytes used, a 1000000-byte upload reads as 2000000001000000 and is refused. The model takes the total as a number, so `Routes.Admission`, `Routes.QuotaPreserved`, `Routes.AdmitIffAvailable` and `Routes.StorageSummary` hold only for a numeric total.
- `parentId` matching in the listing uses plain equality, including for null. SQL's `= NULL` behaviour for the root listing is not modelled.
- The name search treats the query as a literal substring. In the database's pattern match (server/storage.ts:116), `%` and `_` inside the query act as wildcards and `\` as the escape character; none of them is modelled.
- The foreign key from `parent_id` to `id` (shared/schema.ts:12) is dropped. In the source:
  - an insert or update that names a missing parent fails;
  - deleting a non-folder that still has children fails at server/storage.ts:90, and the delete throws;
  - a folder delete that reaches such a file aborts partway, with the earlier siblings already deleted.
  The model accepts those writes and deletes the row, leaving its children orphaned. That state, described by `Table.OnlyFilesLeaveOrphans`, is one the database refuses.
- Row order: the SELECTs at server/storage.ts:37 and :116 have no ORDER BY, so the database promises no order, and an update may move a row. The model keeps rows in insertion order and lists them in that order. Its ordered equalities (`Table.SearchEmpty`, the tables `Storage.FileStore.GetFiles` and `Storage.FileStore.SearchFiles` return) hold for that order only; the membership statements hold for any order.
- An update with no columns, which the query builder rejects, is modelled as changing nothing.
- Concurrency and the non-transactional nature of the recursive delete are not modelled.
- `Storage.FileStore.DeleteFile`: requires a ghost rank for the whole table, that is, no cycle in any parent chain. This is stronger than the source needs. The source loops only on a cycle among the folders it reaches from the deleted row (server/storage.ts:83-87). The precondition also excludes tables with a cycle elsewhere, or with a cycle through a non-folder (for example a row whose `parentId` is its own id, which an update can set). From those tables the source deletes normally, but the model cannot call the delete at all.
- `Routes.DeleteFileById`: requires the same whole-table rank, so it excludes the same tables.
- Sizes are not required to be non-negative, as in the source. The total is therefore proved non-negative only when the sizes are.
- `formatFileSize`, `fileToBase64` and the React components are display code outside this model.

## Findings

| source | as written | input that shows it | evidently intended | confidence | as-written member | corrected member |
|---|---|---|---|---|---|---|
| server/routes.ts:58-67 | the search handler passes an object of search parameters to a store method that takes a string, so the name pattern becomes `%[object Object]%` and the `q` parameter has no effect | a table with one row named "a", searched with `q=a`: the row is not found | rows whose name contains `q` | not executed | `Routes.SearchAsWritten` (with `Routes.SearchIgnoresQuery`) | `Routes.SearchByQuery` (used by `Routes.SearchFiles`) |
