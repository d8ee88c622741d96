# VulnerableSoftware search indexer, modelled in Dafny

This project models the Dependency-Track indexer that keeps the full-text index
of VulnerableSoftware records (CPE 2.2 / 2.3 identifiers, vendor, product,
version) in step with the database.

- **Rows** (`rows.dfy`) are the projection the rebuild query reads. Each row has a
  natural-number `id` and a `uuid`, and its five other columns may be null.
- **The rebuild query** (`key_order.dfy`, `fetch.dfy`) is `fetchNext`, a pure
  function over the store:
  - keep the rows above the cursor (no filter when there is no cursor);
  - order them by id, ascending;
  - keep at most `PageSize` = 1000 of them.
- **Keyset pagination over an unchanged store** (`pagination.dfy`): the windows and
  cursors a rebuild goes through, and what they add up to.
- **The rebuild while rows are being inserted** (`scan.dfy`): inserted rows are
  given as `growth`, a list of batches. Batch `k` joins the store just after
  fetch `k + 1`.
- **Documents** (`documents.dfy`):
  - the six-field document `add` builds;
  - the schema `getSearchFields` returns;
  - delete-by-term, as `remove` issues it.
- **The indexer object** (`indexer.dfy`) is a class with three fields:
  - `pending`: every document the index writer holds, uncommitted ones included;
  - `committed`: the snapshot readers see;
  - `events`: the notifications dispatched and the corruption-handler runs, in order.

  `add`, `remove` and `reindex` are methods that update these fields.

  The writer's answer to each write is a parameter. It succeeds, fails with an
  I/O error, or reports corruption.

  `Commit`, `ClearIndex` (the inherited `reindex` that empties the writer) and
  `HandleCorruptIndex` belong to the shared index manager. That code is not part
  of this model. Their methods carry the contracts this model assumes of them:
  - commit publishes `pending`;
  - the clear empties `pending`, while readers keep their last committed snapshot;
  - the corruption handler empties both collections and records its run.

  What readers see is a policy choice of this model, not something the indexer's
  own code decides: the clear does not publish its empty index until the first commit
  of the rebuild, and a recreated index is empty for readers too. `Add`'s and
  `Remove`'s ensures for the corruption case, and `Reindex`'s statement that a
  rebuild with no window leaves readers' documents as they were, rest on it.

Two consequences of the code worth stating:

- **`add` appends.** `add` does not replace by identity (one live document per
  uuid): the code calls `addDocument`, which appends, so adding a row whose uuid
  is already indexed gives a second document with that uuid (`AddKeepsExisting`).
- **The number of commits is not fixed when a rebuild starts.** A bound of
  ceil(N / 1000) windows fixed when the loop starts does not hold while rows are
  inserted: the code fetches again after every window, so rows inserted above
  the cursor are picked up in extra windows (`LateRowExtendsRun`). Completeness
  for the rows present at the start, strict id order and no duplicates still
  hold (`ScanCoversStore`).

## Model

| member | source | states |
|---|---|---|
| KeyOrder.After | src/main/java/org/dependencytrack/search/VulnerableSoftwareIndexer.java:145-148 | the `id > :lastId` filter: a row is kept iff it is in the store and its id is above the cursor |
| KeyOrder.SortById | src/main/java/org/dependencytrack/search/VulnerableSoftwareIndexer.java:149 | the `id ASC` ordering is a permutation of its input (same length, same multiset) and is ordered by id |
| KeyOrder.SortAscending | src/main/java/org/dependencytrack/search/VulnerableSoftwareIndexer.java:149 | on rows with distinct ids the ordering is strictly ascending and ids stay distinct |
| KeyOrder.SortAfterCommute | src/main/java/org/dependencytrack/search/VulnerableSoftwareIndexer.java:145-149 | filtering by the cursor and then ordering gives the same rows as ordering and then filtering |
| KeyOrder.AfterAfter | src/main/java/org/dependencytrack/search/VulnerableSoftwareIndexer.java:145-148 | filtering by a cursor and then by a later one equals filtering by the later one |
| KeyOrder.AfterOfAscending | src/main/java/org/dependencytrack/search/VulnerableSoftwareIndexer.java:145-148 | on an ascending sequence, the rows above the id at position k-1 are exactly the suffix from k |
| KeyOrder.AfterAllBelow | src/main/java/org/dependencytrack/search/VulnerableSoftwareIndexer.java:145-148 | a cursor at or beyond every id admits no row |
| Fetch.Candidates | src/main/java/org/dependencytrack/search/VulnerableSoftwareIndexer.java:144-148 | with no cursor every row is admitted; with a cursor, exactly the rows whose id is above it |
| Fetch.FetchNext | src/main/java/org/dependencytrack/search/VulnerableSoftwareIndexer.java:143-157 | at most 1000 rows; exactly min(admitted, 1000) of them; all from the store and above the cursor; ordered by id; any admitted row left out lies at or above the last returned id, and only when the window is full |
| Fetch.WindowIsPrefix | src/main/java/org/dependencytrack/search/VulnerableSoftwareIndexer.java:149-150 | the window is the first rows of the id-ordered admitted rows (with no cursor, the first up to 1000 rows of the store by id) |
| Fetch.FetchNextAscending | src/main/java/org/dependencytrack/search/VulnerableSoftwareIndexer.java:145-150 | with distinct ids the window is strictly ascending and every admitted row left out has a larger id than the window's last row |
| Fetch.CandidatesShrink | src/main/java/org/dependencytrack/search/VulnerableSoftwareIndexer.java:131-136 | a non-empty window moves the cursor past at least one admitted row, so fewer rows are admitted next time (termination) |
| Fetch.CandidatesAfterWindow | src/main/java/org/dependencytrack/search/VulnerableSoftwareIndexer.java:136 | the cursor taken from a window's last id admits exactly the rows the previous cursor admitted that lie above that id |
| Fetch.CursorAdvances | src/main/java/org/dependencytrack/search/VulnerableSoftwareIndexer.java:136 | the cursor taken from a window's last row (`NextCursor`) lies strictly above the cursor the window was fetched with |
| Fetch.NextCandidates | src/main/java/org/dependencytrack/search/VulnerableSoftwareIndexer.java:136 | the ordered rows admitted after the next cursor are the ordered rows admitted now minus the window just fetched |
| Pagination.Windows | src/main/java/org/dependencytrack/search/VulnerableSoftwareIndexer.java:130-137 | the windows of a rebuild over an unchanged store; each holds between 1 and 1000 rows |
| Pagination.CursorsOf | src/main/java/org/dependencytrack/search/VulnerableSoftwareIndexer.java:130-136 | one cursor per fetch: the first is the starting cursor (null in a rebuild), each later one is `NextCursor` of the previous window, the id of its last row |
| Pagination.FetchCursors | src/main/java/org/dependencytrack/search/VulnerableSoftwareIndexer.java:130-136 | there is one more fetch than windows, and the first fetch uses the starting cursor (null in a rebuild) |
| Pagination.WindowsCoverCandidates | src/main/java/org/dependencytrack/search/VulnerableSoftwareIndexer.java:130-137 | the windows concatenate to exactly the id-ordered admitted rows: each is visited once, none skipped |
| Pagination.ReindexAddsEachRowOnce | src/main/java/org/dependencytrack/search/VulnerableSoftwareIndexer.java:127-137 | a full run adds every stored row exactly once (same multiset), in strictly ascending id order, N rows in all |
| Pagination.WindowCount | src/main/java/org/dependencytrack/search/VulnerableSoftwareIndexer.java:130-136 | the number of windows, hence of commits, is ceil(N / 1000) |
| Pagination.ShortWindowIsLast | src/main/java/org/dependencytrack/search/VulnerableSoftwareIndexer.java:131-136 | after a window shorter than 1000 rows the next fetch comes back empty |
| Pagination.WindowsFull | src/main/java/org/dependencytrack/search/VulnerableSoftwareIndexer.java:130-136 | every window but the last holds exactly 1000 rows |
| Pagination.CursorsAtPositions | src/main/java/org/dependencytrack/search/VulnerableSoftwareIndexer.java:130-136 | for full-page windows, cursor k is the id of the row at position min(1000k, N) - 1 of their concatenation |
| Pagination.CursorPositions | src/main/java/org/dependencytrack/search/VulnerableSoftwareIndexer.java:130-136 | the k-th fetch's cursor is the id of the row at position min(1000k, N) - 1 of the ordered admitted rows |
| Pagination.TwoPagesAndFive | src/main/java/org/dependencytrack/search/VulnerableSoftwareIndexer.java:130-136 | 2005 rows take four fetches, with cursors null and the ids of rows 1000, 2000 and 2005 in id order |
| Pagination.ExampleFetchCount | src/main/java/org/dependencytrack/search/VulnerableSoftwareIndexer.java:130-136 | 2005 rows take four fetches (three commits) |
| Scan.ScanWindows | src/main/java/org/dependencytrack/search/VulnerableSoftwareIndexer.java:130-137 | the windows of a rebuild during which rows are inserted; each holds between 1 and 1000 rows |
| Scan.ScanWithoutGrowth | src/main/java/org/dependencytrack/search/VulnerableSoftwareIndexer.java:130-137 | with nothing inserted the rebuild is the plain keyset scan of the store |
| Scan.WindowStep | src/main/java/org/dependencytrack/search/VulnerableSoftwareIndexer.java:132-136 | one window keeps the added rows strictly ascending and misses no original row at or below the new cursor |
| Scan.ScanFromHere | src/main/java/org/dependencytrack/search/VulnerableSoftwareIndexer.java:130-137 | from any reachable point, the rest of the run keeps the added rows strictly ascending, adds every original row, and adds only stored rows |
| Scan.ScanCoversStore | src/main/java/org/dependencytrack/search/VulnerableSoftwareIndexer.java:130-137 | with concurrent inserts the run still adds rows in strictly ascending id order (so none twice), adds every row present at the start, and adds only rows that were stored |
| Scan.ScanOfUnchangedStore | src/main/java/org/dependencytrack/search/VulnerableSoftwareIndexer.java:127-137 | without inserts the run adds exactly the store in id order (N rows, same multiset), in ceil(N / 1000) windows, with the cursors of the plain scan |
| Scan.EmptyStoreScan | src/main/java/org/dependencytrack/search/VulnerableSoftwareIndexer.java:130-131 | an empty store, whatever is inserted later: one fetch with no cursor, no window, no commit |
| Scan.LateRowExtendsRun | src/main/java/org/dependencytrack/search/VulnerableSoftwareIndexer.java:131-136 | a one-page store takes one commit when unchanged, but a row inserted above it after the first window is fetched in a second window and added |
| Scan.ScanAdvance | src/main/java/org/dependencytrack/search/VulnerableSoftwareIndexer.java:132-136 | one non-empty window moves the loop's state one step along the run, and one window fewer remains |
| Scan.ScanDone | src/main/java/org/dependencytrack/search/VulnerableSoftwareIndexer.java:131 | when a fetch comes back empty, the windows processed are the whole run |
| Documents.SearchFields | src/main/java/org/dependencytrack/search/VulnerableSoftwareIndexer.java:62-65 | the schema is six distinct field names |
| Documents.ToDocument | src/main/java/org/dependencytrack/search/VulnerableSoftwareIndexer.java:73-79 | the document has exactly the schema's fields in order, all stored; only vendor, product and version are tokenized |
| Documents.DocumentValues | src/main/java/org/dependencytrack/search/VulnerableSoftwareIndexer.java:74-79 | each field holds its own column: the uuid verbatim, the other columns as text, null as the empty string (`ColumnText`, the assumed `addField` behaviour) |
| Documents.UuidTermOf | src/main/java/org/dependencytrack/search/VulnerableSoftwareIndexer.java:74 | a document built by add holds the uuid term of a value iff the value is the row's uuid |
| Documents.DeleteByTerm | src/main/java/org/dependencytrack/search/VulnerableSoftwareIndexer.java:105 | a document survives iff it does not hold the term |
| Documents.DeleteByTermCounts | src/main/java/org/dependencytrack/search/VulnerableSoftwareIndexer.java:105 | every copy of a document holding the term goes; every other document keeps its multiplicity |
| Documents.DeleteAbsentIsNoOp | src/main/java/org/dependencytrack/search/VulnerableSoftwareIndexer.java:105 | deleting a term no document holds changes nothing |
| Documents.DeleteIdempotent | src/main/java/org/dependencytrack/search/VulnerableSoftwareIndexer.java:105 | deleting the same term twice equals deleting it once |
| Documents.DeleteConcat | src/main/java/org/dependencytrack/search/VulnerableSoftwareIndexer.java:105 | delete-by-term distributes over concatenation (order is kept) |
| Documents.RemoveUndoesAdd | src/main/java/org/dependencytrack/search/VulnerableSoftwareIndexer.java:83 | removing a row's uuid just after adding the row leaves what removing it before the add would |
| Documents.AddKeepsExisting | src/main/java/org/dependencytrack/search/VulnerableSoftwareIndexer.java:83 | each add contributes one more document with the row's uuid, whatever is already indexed |
| Indexer.SomeCorruptedMeans | src/main/java/org/dependencytrack/search/VulnerableSoftwareIndexer.java:84-85 | a run of adds meets corruption iff some add of it does |
| Indexer.AddEventsKinds | src/main/java/org/dependencytrack/search/VulnerableSoftwareIndexer.java:84-94 | a run of adds leaves only handler runs and add-failure notices, and none when every add is written |
| Indexer.AddEventsReport | src/main/java/org/dependencytrack/search/VulnerableSoftwareIndexer.java:84-94 | every add that fails with an I/O error leaves its notice, with its message; a handler run is recorded iff some add met a corrupt index |
| Indexer.AddEventsCount | src/main/java/org/dependencytrack/search/VulnerableSoftwareIndexer.java:84-94 | a run of adds leaves exactly one event per add that was not written |
| Indexer.AddEventsConcat | src/main/java/org/dependencytrack/search/VulnerableSoftwareIndexer.java:131-132 | the events of two runs of adds back to back are those of the first followed by those of the second |
| Indexer.AcceptedAllWritten | src/main/java/org/dependencytrack/search/VulnerableSoftwareIndexer.java:132 | when each of the first n adds of a run is written, `Accepted` (the rows whose documents the writer still holds) is exactly the first n rows, in order |
| Indexer.AcceptedMembers | src/main/java/org/dependencytrack/search/VulnerableSoftwareIndexer.java:83-95 | a row's document is still held after the first n adds of a run iff one of those adds wrote the row and no later one of them met a corrupt index |
| Indexer.AcceptedInOrder | src/main/java/org/dependencytrack/search/VulnerableSoftwareIndexer.java:83-95 | the documents still held are those of the written rows after the last corruption (`Restart`: the position after it, 0 if none), in their order in the run |
| Indexer.AcceptedConcat | src/main/java/org/dependencytrack/search/VulnerableSoftwareIndexer.java:131-132 | over two runs back to back, the rows kept from the first survive iff no add of the second meets corruption, followed by the rows kept from the second |
| Indexer.Restart | src/main/java/org/dependencytrack/search/VulnerableSoftwareIndexer.java:84-85 | the restart position is at most n; no add from it on meets corruption; when it is not 0, the add just before it met corruption |
| Indexer.AddRunStep | src/main/java/org/dependencytrack/search/VulnerableSoftwareIndexer.java:83-95 | whatever the writer answers, one add moves the state of a run of adds one row further |
| Indexer.WrittenRun | src/main/java/org/dependencytrack/search/VulnerableSoftwareIndexer.java:132 | when every add is written, the run appends the rows' documents (`DocumentsOf`: one `ToDocument` per row, in order) and changes nothing else |
| Indexer.ReindexOutcome | src/main/java/org/dependencytrack/search/VulnerableSoftwareIndexer.java:127-137 | with inserts, a rebuild adds rows in strictly ascending id order and every row present at the start; without, exactly the store in id order, N rows in ceil(N / 1000) commits |
| Indexer.VulnerableSoftwareIndexer.constructor | src/main/java/org/dependencytrack/search/VulnerableSoftwareIndexer.java:58-60 | the writer and readers start from whatever index is already stored, and nothing has been dispatched |
| Indexer.VulnerableSoftwareIndexer.Add | src/main/java/org/dependencytrack/search/VulnerableSoftwareIndexer.java:72-96 | on success the row's document is appended to the pending documents; on an I/O error nothing changes but the error notification `FailureNotice` (scope SYSTEM, group INDEXING_SERVICE, the indexer's title, level ERROR, the fixed add text plus the error message); on corruption the handler runs; readers see nothing new |
| Indexer.VulnerableSoftwareIndexer.Remove | src/main/java/org/dependencytrack/search/VulnerableSoftwareIndexer.java:103-118 | on success exactly the pending documents holding the row's uuid term go; failures are handled as in add, with the remove notification text in `FailureNotice` |
| Indexer.VulnerableSoftwareIndexer.AddAll | src/main/java/org/dependencytrack/search/VulnerableSoftwareIndexer.java:132 | for every sequence of writer answers: a corruption anywhere empties writer and readers, the writer then holds the documents of the rows written since the last corruption, in order, and the events grow by exactly the adds' notices and handler runs; when each of the run's own adds is written, the window's documents are appended and nothing else changes |
| Indexer.VulnerableSoftwareIndexer.Reindex | src/main/java/org/dependencytrack/search/VulnerableSoftwareIndexer.java:123-141 | the rows added, the commits and the fetch cursors are those of the run `ScanWindows` describes, and the count is the number of rows added; with inserts the rows added are strictly ascending and include every row present at the start; without inserts they are exactly the store in id order, N of them, in ceil(N / 1000) commits; for every sequence of writer answers the writer holds the documents of the rows `Accepted` keeps over the whole rebuild, the events are exactly the adds' notices and handler runs, and readers see the last commit (their old snapshot when there was none); when each add of the rebuild is written, the index holds exactly the added rows' documents, in order, and no event is left |
| Indexer.VulnerableSoftwareIndexer.IndexWindows | src/main/java/org/dependencytrack/search/VulnerableSoftwareIndexer.java:130-137 | the fetch-add-commit loop on a cleared writer: it goes through the windows, cursors and commits of `ScanWindows`, and leaves writer, readers and events as `Reindex` states |
| Indexer.VulnerableSoftwareIndexer.IndexWindow | src/main/java/org/dependencytrack/search/VulnerableSoftwareIndexer.java:132-134 | one pass of the loop body: after the window's adds and the commit, the writer holds the documents `Accepted` keeps over all adds so far, readers see them, and the events are those of all adds so far |
| Indexer.WrittenRebuild | src/main/java/org/dependencytrack/search/VulnerableSoftwareIndexer.java:130-137 | when each add of a rebuild is written, the writer holds exactly the added rows' documents and no event was left |
| Indexer.VulnerableSoftwareIndexer.Commit | src/main/java/org/dependencytrack/search/VulnerableSoftwareIndexer.java:134 | assumed: readers see everything the writer holds |
| Indexer.VulnerableSoftwareIndexer.ClearIndex | src/main/java/org/dependencytrack/search/VulnerableSoftwareIndexer.java:125 | assumed: the writer drops every document; readers keep the last commit |
| Indexer.VulnerableSoftwareIndexer.HandleCorruptIndex | src/main/java/org/dependencytrack/search/VulnerableSoftwareIndexer.java:84-85 | assumed: the index is recreated empty and the recovery is recorded |

## Left out

- Lucene is not modelled. A document is a sequence of six named fields, each with a stored flag and a tokenized flag. Analyzers, the terms of tokenized fields and segment storage are not modelled. Delete-by-term matches only untokenized fields, which covers the uuid field `remove` uses.
- The field-name constants of `IndexConstants` are not part of this model. They appear as the six values of an enumeration. The array `IndexConstants.VULNERABLESOFTWARE_SEARCH_FIELDS` that `getSearchFields` returns is not part of this model either: its contents and order are assumed to be the six names in the order `add` writes them (uuid, CPE 2.2, CPE 2.3, vendor, product, version).
- The JDO query plumbing (query strings, result projection, `closeAll`, try-with-resources) is not modelled. `fetchNext` is a pure function over a sequence of rows, and a failing query is not modelled.
- `indexedDocs` is Java `long`. Overflow needs more than 2^63 rows, so the count is an unbounded natural.
- Logging and the `System.nanoTime` timing only produce log text, and are left out.
- `Notification.dispatch` is modelled as appending an event to `events`. Scope, group, title and level are single-valued enumerations, and the content text is exact.
- The singleton instance and concurrent writers are not modelled. Concurrency appears only as rows inserted between fetches, given as the finite `growth` parameter; rows inserted after the last fetch are outside the run. The rebuild terminates here because the inserts stop: the code keeps fetching as long as each fetch finds rows above the cursor, so inserts that keep arriving above it would keep it running, and the keyset argument alone does not bound the run.
- Updates or deletes of rows during a rebuild are not modelled. The keyset argument assumes ids are immutable and distinct.
- `getIndexWriter`, `addField`, `commit`, the inherited `reindex` and `handleCorruptIndexException` live in `IndexManager`, which is not part of this model. `addField`'s handling of null values (indexed as the empty string, by `ColumnText`) is assumed; the other pieces are methods carrying the assumed contracts stated above.
- Version-range fields are not indexed by the code either: line 80 is a TODO, and nothing is modelled for it.
