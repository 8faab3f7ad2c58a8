# Storage stack of the RDBMS, verified

A Dafny model of the layers that keep data: the slotted page, the record codecs, the page file, the write-ahead log,
the B+Tree index, the catalog and its heap tables, the single-writer transaction layer, crash recovery, and SQL
statement execution on top of them. `dafny verify dfyconfig.toml` checks everything.

## How it is laid out

Bytes, and the objects that change them in place:

- `PageBytes`, `SlottedPage`: a 4096-byte page in an array, with insert, read, delete, compact and validate, proved
  against the slot map of `SlottedModel`.
- `Encoding`, `Cursors`, `NodeCodec`/`NodeCoder`, `RowCodec`/`RowCoder`, `CatalogCodec`/`CatalogCoder`, `PageRecords`:
  record formats as functions, the loops that write and read them, and nodes and catalogs put on pages.
- `PageFiles`: the data file as disjoint page ranges. `WalBytes`, `WalFiles`: log records, the stream, a stream cut short.

Pages as values (`PageModel`): what those layers justify is that a page read back is the catalog, heap rows or node
that was written, so everything above works on `map<PageId, Page>`.

- `IndexModel`, `BTreeModel`, `BTreeOrder`, `BTreeHeap`, `BTreeLookup`, `BTree`, `BTreeTheorems`, `BTreeSpace`,
  `BTreeKeys`: the tree as a value, as a shape in the page map, and as the code that loads and stores pages.
- `CatalogModel`, `Catalogs`, `DbModel`, `HeapOps`, `HeapReads`, `IndexOps`: the catalog, heap rows, and the invariant of
  a whole database: relations over disjoint pages.
- `WalModel`, `Redo`, `CrashModel`, `CommitLog`, `Disk`, `Transactions`, `Recovery`, `SessionTheorems`: the commit
  protocol. `Disk` records every moment the two files go through, so a theorem about all moments is a theorem about a
  crash anywhere.
- `CatalogStores`, `Staging`: tables written directly, and the proof that staging and committing comes to the same.
- `SqlModel`, `SqlInvariant`, `SqlSteps`, `Sql`, `SqlSelect`, `SqlSessions`: statements, index/heap agreement, and whole
  runs with crashes among them. `SqlMeaning` says what a database holds, as named tables of rows, and what each statement
  does to it, without looking at how; `SqlRoom` says exactly when a statement succeeds.

Three assumptions of the crash model: log bytes persist as a prefix of whole records, page 0 of a fresh file is durable
before the session begins, and a session is one opening of the store. A page being written when the power fails may end
up holding anything at all.

What the proofs showed about the code:

- Transaction ids restart at 1 with every session and redo goes by id alone. `ReuseIsSafe` gives the exact condition
  under which an id may be used again on a log, `ReuseLosesAndRevives` the two ways it goes wrong. Reopening after a
  crash is therefore modelled as recovery followed by a session on an empty log.
- Recovery's answer depends only on the log and on pages the log does not mention, so interrupting it is harmless.
- A leaf whose next flag is zero decodes whatever page id stands beside the flag, so node decoding accepts more bytes
  than encoding produces. `NodeExact` and `LastLeafDecodes` show that this is the only case.
- The id fields that a log record's kind leaves absent are not checked, so record decoding accepts more bytes than
  encoding produces; `DecodedExact` shows that this is the only case.
- Equal keys may straddle leaves, and the chain is ordered by key but not by row id, so lookups are stated as multisets.

## Model

| member | source | states |
|---|---|---|
| SessionTheorems.CrashAnywhere | crates/rdbms_tx/src/lib.rs:356-440 | cut a session at any recorded moment, let a crash and any number of interrupted recoveries do their worst: full recovery leaves exactly the page map after the commits whose markers survived, acknowledged ones included |
| SessionTheorems.WrittenOnlyWhenLogged | crates/rdbms_tx/src/lib.rs:356-376 | write-ahead: at every moment a data page is as the session found it or is the image of a committed transaction in the synced log prefix |
| SessionTheorems.ReuseIsSafe | crates/rdbms_tx/src/lib.rs:42-49 | a transaction id may be reused on a log if and only if the log holds no image, commit or abort of it |
| SessionTheorems.ReuseLosesAndRevives | crates/rdbms_wal/src/lib.rs:278-321 | with a reused id, a later abort undoes a commit and a later commit applies what was never committed |
| SessionTheorems.OwnedOnce | crates/rdbms_catalog/src/lib.rs:353-477 | page ownership: no page belongs to two relations or twice to one, none is page 0, all lie below the next page id |
| SessionTheorems.CatalogReadsBack | crates/rdbms_catalog/src/lib.rs:732-849 | the catalog record of any database in order decodes to that catalog |
| CrashModel.CrashSafe | crates/rdbms_recovery/src/lib.rs:89-107 | crash atomicity and durability at one moment satisfying the protocol invariant |
| CrashModel.CommitStep | crates/rdbms_tx/src/lib.rs:363-366 | the commit marker adds exactly one page map to the history, and crashing stays safe |
| CrashModel.WritePageStep | crates/rdbms_tx/src/lib.rs:368-370 | a data write keeps crash safety when its image is committed in the synced log |
| CrashModel.NeutralStep | crates/rdbms_wal/src/lib.rs:175-182 | any other record leaves every possible recovery as it was |
| Redo.CommitAppend | crates/rdbms_wal/src/lib.rs:278-321 | the marker makes exactly the transaction's own images take effect, last |
| CommitLog.MarkerAppended | crates/rdbms_tx/src/lib.rs:356-366 | images in page order plus the marker amount to the staged pages over the last committed page map |
| Transactions.TransactionalStore.constructor | crates/rdbms_tx/src/lib.rs:40-49 | a session opens safe on durable files and a quiet log |
| Transactions.TransactionalStore.Begin | crates/rdbms_tx/src/lib.rs:89-111 | one writer at a time, a fresh id, the committed catalog to work on, errors that change nothing |
| Transactions.TransactionalStore.LookupIndex | crates/rdbms_tx/src/lib.rs:67-86 | a committed lookup returns the row ids the index's tree holds under the key |
| Transactions.TransactionalStore.ReadRow | crates/rdbms_tx/src/lib.rs:62-64 | a committed row read by address |
| Transactions.Transaction.CreateTable | crates/rdbms_tx/src/lib.rs:234-245 | succeeds exactly when the name is free, the columns are in order and the catalog has room; then that name finds a table of those columns on one new page, every other name finds what it did, and the database stays in order |
| Transactions.Transaction.InsertRow | crates/rdbms_tx/src/lib.rs:296-320 | succeeds exactly when a page has room or a new one can be had; the row goes to the first heap page with room, else to a new page; the database stays in order |
| Transactions.Transaction.CreateIndex | crates/rdbms_tx/src/lib.rs:248-264 | succeeds exactly when the name is free, the column is an unindexed one of the table and the catalog has room; the new index is an empty tree on a fresh page |
| Transactions.Transaction.InsertIndexEntry | crates/rdbms_tx/src/lib.rs:267-293 | the entry is added to that index's tree alone, its root moves in the catalog, every table scans as before; fails only for an unknown index or when the tree cannot take the entry |
| Transactions.Transaction.FullScan | crates/rdbms_tx/src/lib.rs:323-353 | the scan inside a transaction lists the rows of its own view |
| Transactions.Transaction.LogCommit | crates/rdbms_tx/src/lib.rs:356-366 | images in ascending page order, marker, log sync: every image is then committed in the synced log |
| Transactions.Transaction.WriteBack | crates/rdbms_tx/src/lib.rs:368-370 | the staged pages reach the data file, each crash on the way being safe |
| Transactions.Transaction.Commit | crates/rdbms_tx/src/lib.rs:356-376 | commit makes the transaction's view the committed page map, adds it to the history, and releases the writer |
| Transactions.Transaction.Rollback | crates/rdbms_tx/src/lib.rs:379-390 | rollback logs the abort durably and changes nothing committed |
| Transactions.Transaction.Drop | crates/rdbms_tx/src/lib.rs:434-440 | dropping an open transaction frees the writer and changes nothing committed |
| Recovery.Outcomes | crates/rdbms_wal/src/lib.rs:282-300 | the first pass collects the committed and the aborted transactions |
| Recovery.RedoCommittedPageImages | crates/rdbms_wal/src/lib.rs:278-321 | the two passes leave the last committed image of each page, or stop with Corruption at a mismatched image |
| Recovery.RecoverPageFile | crates/rdbms_recovery/src/lib.rs:89-107 | recovery's result and its report |
| Recovery.RecoveryConverges | crates/rdbms_recovery/src/lib.rs:89-135 | files that agree off the logged pages recover alike, so an interrupted recovery can be rerun |
| Recovery.RecoveredPage | crates/rdbms_wal/src/lib.rs:301-318 | after recovery a page holds its last committed image, or what it held if the log has none |
| Recovery.RecoveryFromLog | crates/rdbms_wal/src/lib.rs:278-321 | told from the log's records alone: Corruption exactly when an image of a committed, unaborted transaction is of another page than its record says, else each page holds the last such image or what it held |
| Recovery.OpenCatalog | crates/rdbms_catalog/src/lib.rs:255-280 | the catalog of page 0, bootstrapped when the file is empty, Corruption otherwise |
| Staging.StagedEqualsDirect | crates/rdbms_catalog/src/lib.rs:565-633 | the same operations staged and committed, or run directly, give the same ids, rows, scans, pages and catalog |
| CatalogStores.CatalogStore.InsertRow | crates/rdbms_catalog/src/lib.rs:578-601 | the direct insert computes the same function as the staged one |
| CatalogStores.CatalogStore.CreateTable | crates/rdbms_catalog/src/lib.rs:565-575 | the table under its name with its columns, or User, exactly as staged; the direct create computes the same function as the staged one |
| Catalogs.ValidateColumns | crates/rdbms_catalog/src/lib.rs:710-730 | accepts exactly columns that are named, typed and distinct |
| Catalogs.CatalogState.CreateTableMetadata | crates/rdbms_catalog/src/lib.rs:353-375 | exactly when allowed, that name finds a table of those columns on one fresh page and every other name finds what it did; refused, only the relation id counter may have moved |
| Catalogs.CatalogState.CreateIndexMetadata | crates/rdbms_catalog/src/lib.rs:421-477 | exactly when allowed, adds an index of that name on that column with a fresh root page; refused, only the relation id counter may have moved |
| CatalogModel.TableMetadataExact | crates/rdbms_catalog/src/lib.rs:353-375 | allowed exactly for a name and columns that are named, typed, distinct and of at most 65535 bytes, a free name and ids left |
| CatalogModel.IndexMetadataExact | crates/rdbms_catalog/src/lib.rs:421-477 | allowed exactly for a free name, a column of an existing table without an index on it, and ids left |
| CatalogModel.AppendPageExact | crates/rdbms_catalog/src/lib.rs:397-418 | the page goes last in that heap and no other field of any relation changes |
| CatalogModel.SetRootExact | crates/rdbms_catalog/src/lib.rs:493-518 | that index's root changes and no other field of any relation; an error for a table |
| CatalogCodec.CatalogLength | crates/rdbms_catalog/src/lib.rs:732-779 | the record's size in closed form |
| Catalogs.CatalogState.SetIndexRootPage | crates/rdbms_catalog/src/lib.rs:493-518 | only that index's root changes |
| HeapOps.CreateTableKeeps | crates/rdbms_tx/src/lib.rs:234-245 | a new table is empty, its id unused before, and no other relation's rows, pages or trees change |
| HeapOps.CreateTableExact | crates/rdbms_tx/src/lib.rs:234-245 | which relation is added, on which page, and exactly when: the closed-form size of the grown catalog is at most 4056 |
| HeapOps.InsertRowExact | crates/rdbms_tx/src/lib.rs:296-320 | where the row goes: the lowest dead or next slot of the first page with room; refused exactly when no page has room and none can be had |
| HeapOps.InsertRowKeeps | crates/rdbms_tx/src/lib.rs:296-320 | the table gains exactly one row, at the address returned; every other relation is untouched |
| IndexOps.CreateIndexKeeps | crates/rdbms_tx/src/lib.rs:248-264 | a new index disturbs no relation |
| IndexOps.CreateIndexExact | crates/rdbms_tx/src/lib.rs:248-264 | which relation is added, its empty root leaf, and exactly when |
| IndexOps.RerootedStorable | crates/rdbms_tx/src/lib.rs:286-292 | a moved root never makes the catalog outgrow its page |
| IndexOps.InsertEntryKeeps | crates/rdbms_tx/src/lib.rs:267-293 | an entry grows one tree by one entry and leaves every heap and every other tree alone |
| HeapReads.ReadFindsScanned | crates/rdbms_catalog/src/lib.rs:604-658 | reading by address finds exactly the rows a scan lists |
| HeapReads.FullScan | crates/rdbms_catalog/src/lib.rs:604-633 | every live row, in page and slot order |
| HeapReads.ScanInOrder | crates/rdbms_catalog/src/lib.rs:604-633 | a scan lists rows by page, and by slot within a page |
| BTree.InsertRecursive | crates/rdbms_index/src/lib.rs:143-225 | the pages touched come to hold the grown subtree and what it split off; all others are as they were |
| BTree.InsertEntryAtRoot | crates/rdbms_index/src/lib.rs:72-90 | the root returned holds the grown tree, on its old pages and the newly allocated ones |
| BTree.FindLeaf | crates/rdbms_index/src/lib.rs:227-244 | terminates after loading one page per level, at a leaf with only smaller keys before it and none smaller after it |
| BTree.Lookup | crates/rdbms_index/src/lib.rs:93-123 | terminates with exactly the row ids stored under the key, across any number of leaves |
| BTree.CollectMatches | crates/rdbms_index/src/lib.rs:98-113 | one leaf's matches up to the first greater key |
| BTreeTheorems.LookupFindsInserted | crates/rdbms_index/src/lib.rs:59-123 | after any run of inserts a lookup returns each row id as often as the pair was inserted |
| BTreeTheorems.InsertRootKeeps | crates/rdbms_index/src/lib.rs:72-90 | an insert keeps order, occupancy and uniform depth, and adds exactly its entry |
| BTreeTheorems.HeightIsLogarithmic | crates/rdbms_index/src/lib.rs:161-244 | a tree with h >= 1 internal levels holds at least 4 * 3^(h-1) entries |
| BTreeTheorems.InsertRootFits | crates/rdbms_index/src/lib.rs:143-225 | with text keys of at most 996 bytes an insert fails only for want of page ids |
| BTreeTheorems.FullLeafFits | crates/rdbms_index/src/lib.rs:294-334 | a full leaf of n-byte text keys fits if and only if n <= 996 |
| BTreeSpace.NodesBound | crates/rdbms_index/src/lib.rs:161-219 | a tree has at most one page more than entries |
| BTreeKeys.InsertKeysStored | crates/rdbms_index/src/lib.rs:152-222 | every separator is the key of an entry the tree stores |
| BTreeSpace.InsertAllFits | crates/rdbms_index/src/lib.rs:143-225 | any run of inserts under keys of at most 996 bytes succeeds while two page ids an entry are left |
| BTreeSpace.SplitHalves | crates/rdbms_index/src/lib.rs:152-222 | a leaf of five splits two and three, an internal node of five keys two and two |
| BTreeHeap.InsertPages | crates/rdbms_index/src/lib.rs:143-225 | an insert repeats no page: it keeps the tree's own and takes the freshly allocated ids |
| BTreeLookup.HoldsChain | crates/rdbms_index/src/lib.rs:98-122 | the next-leaf chain is the in-order run of leaves |
| BTreeLookup.OrderedEntries | crates/rdbms_index/src/lib.rs:250-260 | the leaves read along the chain are ordered by key |
| IndexModel.BytesLessMeans | crates/rdbms_index/src/lib.rs:25-31 | text keys order by their first different byte, a proper prefix first |
| Sql.CoercedRowTyped | crates/rdbms_sql/src/lib.rs:494-534 | coerced values have the types of their columns |
| SqlMeaning.CoercionExact | crates/rdbms_sql/src/lib.rs:504-534 | NULL, an INT or TEXT in its column and a double in its column are stored as given, an integer in a DOUBLE column as the double it converts to, anything else is refused with User |
| Sql.RowToStoreExact | crates/rdbms_sql/src/lib.rs:297-299 | the row stored is the one the columns store for the values; User exactly when the table is unknown, the counts differ, a column does not take its value or the row does not encode |
| SqlModel.KeysExact | crates/rdbms_sql/src/lib.rs:485-492 | integers and texts have keys that tell them apart, NULL and doubles have none |
| SqlMeaning.EqualityExact | crates/rdbms_sql/src/lib.rs:543-553 | values are equal as they stand, NULL to NULL included, or as doubles once one is a double |
| SqlMeaning.MeaningRow | crates/rdbms_tx/src/lib.rs:296-320 | a row stored in one heap adds exactly its values to that named table and leaves every other table and index |
| SqlMeaning.MeaningKept | crates/rdbms_tx/src/lib.rs:267-293 | moved pages and roots leave every named table and index as it was |
| Sql.ExecuteCreateTable | crates/rdbms_sql/src/lib.rs:123-126 | the named table with its columns and no rows, everything else as it was, in one commit; succeeds exactly when the writer is free and the catalog takes the table; an error changes nothing committed |
| Sql.IndexRow | crates/rdbms_sql/src/lib.rs:308-316 | an index that lacked one row takes in its key, if it has one |
| Sql.ExecuteInsert | crates/rdbms_sql/src/lib.rs:292-320 | exactly one more row with the values the columns store, every index in step, every other table as it was; succeeds exactly when the writer is free, the columns take the values, the heap has a place and the indexes take the row there; an error changes nothing committed |
| Sql.ExecuteCreateIndex | crates/rdbms_sql/src/lib.rs:322-346 | the column is indexed under that name, its entries those of the rows already there, every table's rows kept; succeeds exactly when the writer is free, the column is an indexable one, the catalog takes the index and an empty tree takes the rows' keys; an error changes nothing committed |
| SqlRoom.ShortColumnIndexes | crates/rdbms_sql/src/lib.rs:322-346 | CREATE INDEX succeeds on texts of at most 996 bytes while the catalog has room and two page ids a row are left |
| SqlRoom.ShortRowGoes | crates/rdbms_sql/src/lib.rs:292-320 | INSERT succeeds on a table whose texts, the new row's included, are at most 996 bytes, while the heap takes the row and page ids last |
| SqlModel.EqualMeansSameKey | crates/rdbms_sql/src/lib.rs:475-553 | on an indexable column, equality with a keyed literal is equality of keys |
| SqlInvariant.IndexCaughtUp | crates/rdbms_sql/src/lib.rs:305-346 | agreement is restored when a lagging index holds its table's entries |
| SqlSelect.FoundAreHits | crates/rdbms_sql/src/lib.rs:406-413 | the rows fetched for an index's row ids are exactly the table's rows under the key |
| SqlSelect.AnswerFromHits | crates/rdbms_sql/src/lib.rs:361-378 | rows without the literal's key contribute nothing to the answer |
| SqlSelect.AnswerPermutes | crates/rdbms_sql/src/lib.rs:359-378 | the answer as a multiset does not depend on the order rows are read in |
| SqlSelect.FetchRows | crates/rdbms_sql/src/lib.rs:406-413 | no row id from the index is stale |
| SqlSelect.CandidateRows | crates/rdbms_sql/src/lib.rs:391-414 | the full scan, or the rows under the literal's key; falls back for NULL and DOUBLE |
| SqlSelect.ExecuteSelect | crates/rdbms_sql/src/lib.rs:348-389 | each answer row is what stands under the columns asked for, in that order, of one row that passes the filter, and every such row answers once; headers alike; whichever way rows are read; fails exactly for an unknown table or column |
| SqlSelect.ProjectionExact | crates/rdbms_sql/src/lib.rs:426-434 | the j-th item picked stands under the first column of the j-th name, for rows and headers alike; User exactly when a name is not a column |
| SqlSelect.SelectionExact | crates/rdbms_sql/src/lib.rs:366-371 | the filter passes exactly the rows whose value under the named column equals the literal |
| SqlSelect.AnswerMeans | crates/rdbms_sql/src/lib.rs:361-378 | any order of the answer pairs off with the rows that pass, each with its projection |
| SqlSessions.Execute | crates/rdbms_sql/src/lib.rs:110-139 | each statement does what it means to the named tables and indexes, or fails and changes nothing; it fails exactly when it cannot succeed, with Retryable only when another transaction holds the writer; indexes agree now and at every commit so far |
| SqlSessions.Run | crates/rdbms_sql/src/lib.rs:110-139 | any run of statements, failing ones included: each takes the database the one before it left to the one it means, and the history holds those databases at their commits |
| SqlSessions.TableThroughRun | crates/rdbms_sql/src/lib.rs:110-139 | after any run a table has its columns and the rows it had, and one row more for each INSERT into it that succeeded |
| SqlSessions.CrashLeavesPrefix | crates/rdbms_tx/src/lib.rs:356-376 | crash a SQL session anywhere and recover: the database is the one some prefix of its statements left, every acknowledged one included |
| SqlSessions.CrashKeepsAgreement | crates/rdbms_tx/src/lib.rs:356-376 | what a crash leaves of a SQL session, once recovered, is a database whose indexes agree |
| SqlSessions.ReopenAfterCrash | crates/rdbms_recovery/src/lib.rs:79-107 | recover, open, and serve the database of the surviving commits |
| SlottedPages.SlottedPage.constructor | crates/rdbms_page/src/lib.rs:128-140 | a new page is empty, valid and carries its id |
| SlottedPages.SlottedPage.FromBytes | crates/rdbms_page/src/lib.rs:143-149 | accepts exactly the bytes that validate |
| SlottedPages.SlottedPage.Validate | crates/rdbms_page/src/lib.rs:203-229 | header, checksum and every slot boundary |
| SlottedPages.SlottedPage.InsertRecord | crates/rdbms_page/src/lib.rs:232-283 | lowest dead slot or a fresh one, every other slot unchanged; fails without effect exactly when there is no room |
| SlottedPages.SlottedPage.ReadRecord | crates/rdbms_page/src/lib.rs:286-305 | on any page that validates: the bytes a live slot points at, nothing for a dead one, User out of range, never Corruption |
| SlottedPages.SlottedPage.DeleteRecord | crates/rdbms_page/src/lib.rs:308-323 | marks a live slot dead and changes nothing else |
| SlottedPages.SlottedPage.Compact | crates/rdbms_page/src/lib.rs:326-361 | keeps every slot id, record and dead slot and packs the records; never underflows |
| SlottedModel.RoomMeans | crates/rdbms_page/src/lib.rs:239-256 | a record fits exactly when its bytes, and six for a slot if none is dead, lie between the directory and the records |
| PageBytes.PackedIsCompacted | crates/rdbms_page/src/lib.rs:326-361 | free space afterwards is exactly the page less header, directory and live records, and never less than before |
| PageBytes.CompactTwice | crates/rdbms_page/src/lib.rs:326-361 | a second compaction changes no byte |
| PageBytes.SaneValidates | crates/rdbms_page/src/lib.rs:203-229 | every page the operations make validates |
| PageBytes.OneByteIsCaught | crates/rdbms_page/src/lib.rs:428-452 | any single-byte change to a valid page is rejected |
| PageFiles.PageFile.WritePageAt | crates/rdbms_vfs/src/lib.rs:120-140 | the page written is read back; every other page reads as before |
| PageFiles.PageFile.ReadPage | crates/rdbms_vfs/src/lib.rs:143-157 | the valid page of that id, or Io, Corruption or User |
| WalBytes.RecordRoundTrip | crates/rdbms_wal/src/lib.rs:331-437 | decoding an encoded record gives it back |
| WalBytes.DecodedExact | crates/rdbms_wal/src/lib.rs:353-437 | bytes that decode have the length of their record, no payload but a page's, and are its encoding if and only if the id fields its kind leaves absent hold the absent mark |
| WalBytes.OneByteIsCaught | crates/rdbms_wal/src/lib.rs:353-390 | any single-byte change to a record is rejected, in the checksum and length fields too |
| WalBytes.CutIsDetected | crates/rdbms_wal/src/lib.rs:207-254 | a log cut short reads as its first records if the cut is between records and as Corruption otherwise |
| WalFiles.EncodeRecord | crates/rdbms_wal/src/lib.rs:331-351 | the buffer filled field by field is the record's bytes |
| WalFiles.SumAround | crates/rdbms_wal/src/lib.rs:456-465 | the sum of every byte but the checksum's |
| WalFiles.WalFile.Append | crates/rdbms_wal/src/lib.rs:175-182 | the record goes at the end and its LSN is its byte offset; overflow is an error without effect |
| WalFiles.WalFile.ReadAll | crates/rdbms_wal/src/lib.rs:207-254 | reads back every appended record in order |
| NodeCodec.NodeRoundTrip | crates/rdbms_index/src/lib.rs:294-431 | decoding an encoded node gives it back |
| NodeCodec.EncodesWhatDecodes | crates/rdbms_index/src/lib.rs:294-334 | a node encodes if and only if its bytes would decode to it |
| NodeCodec.NodeExact | crates/rdbms_index/src/lib.rs:336-399 | bytes that decode are the encoding of their node if and only if no page id stands beside a leaf's zero next flag |
| NodeCodec.LastLeafDecodes | crates/rdbms_index/src/lib.rs:351-362 | a last leaf decodes the same whatever that page id is, and encodes to it for zero only |
| NodeCodec.NodeLength | crates/rdbms_index/src/lib.rs:294-334 | the encoded size in closed form |
| NodeCoder.EncodeNode | crates/rdbms_index/src/lib.rs:294-334 | writes the node's bytes, or Corruption for a bad shape, User for an oversized field |
| NodeCoder.DecodeNode | crates/rdbms_index/src/lib.rs:336-399 | reads exactly what the format allows |
| PageRecords.StoreAndLoadNode | crates/rdbms_index/src/lib.rs:273-292 | a node put on a page reads back the same if and only if it fits |
| PageRecords.StoreAndLoadCatalog | crates/rdbms_catalog/src/lib.rs:255-288 | a catalog put on page 0 reads back the same if and only if its record is at most 4056 bytes |
| CatalogCodec.CatalogRoundTrip | crates/rdbms_catalog/src/lib.rs:732-884 | decoding an encoded catalog gives it back |
| CatalogCodec.CatalogExact | crates/rdbms_catalog/src/lib.rs:781-884 | bytes that decode are the encoding of their catalog, or of one without extensions and short of their count; heaps without pages are refused |
| CatalogCodec.EncodesWhatDecodes | crates/rdbms_catalog/src/lib.rs:732-779 | a catalog encodes, its heaps having pages, if and only if its bytes would decode to it |
| CatalogCodec.OldCatalogRoundTrip | crates/rdbms_catalog/src/lib.rs:814-831 | a catalog without extensions also decodes without the extension count |
| CatalogCoder.EncodeCatalog | crates/rdbms_catalog/src/lib.rs:732-779 | writes the catalog's bytes, or User for an oversized field |
| CatalogCoder.DecodeCatalog | crates/rdbms_catalog/src/lib.rs:781-884 | reads exactly what the format allows |
| RowCodec.RowRoundTrip | crates/rdbms_sql/src/lib.rs:173-245 | decoding an encoded row gives it back |
| RowCodec.EncodesWhatDecodes | crates/rdbms_sql/src/lib.rs:173-199 | a row encodes if and only if its bytes would decode to it |
| RowCodec.RowExact | crates/rdbms_sql/src/lib.rs:202-245 | bytes that decode are the encoding of what they decode to |
| RowCoder.EncodeRow | crates/rdbms_sql/src/lib.rs:173-199 | writes the row's bytes, or User for an oversized field |
| RowCoder.DecodeRow | crates/rdbms_sql/src/lib.rs:202-245 | reads exactly what the format allows |

## Left out

- Operating-system I/O errors and short reads: files are values with write, sync and crash; a run stops where the code would see an I/O error.
- Appending after a torn log tail and going on after a failed commit: the code offers no repair there.
- Going on in a transaction after one of its operations failed: a failed operation can leave the working catalog ahead of the staged catalog page, so the operations require that all before them succeeded.
- Page ids of 2^52 and more, whose file offset overflows: `PageFiles` models the error, the transaction layer assumes smaller ids.
- SQL text: the model starts from statements. LOAD EXTENSION, scalar functions and the extension registry are left out.
- Floating point: a double is its eight bytes, with equality and conversion from integers as parameters. Unicode: strings are well-formed UTF-8 byte sequences.
- The catalog as an object shared by the layers above: `Catalogs` has its in-place operations, and the transaction layer keeps a catalog value that it replaces.
- Partition-point searches inside a node, and finding a relation by id or name, are functions: the source calls the standard library for them.
- `page_lsn`, checkpoints, MVCC, range scans and index delete: the code does not implement them. Error messages: an error is its class.
- `Transaction::ensure_active`: ending a transaction consumes it, so no call can find it ended.
- SqlSessions.Run: does not model LOAD EXTENSION statements, which change only the extension list of the catalog.
