# Task search, reconciliation, short ids and task/note mutations

A Dafny model of the core of a Go task-and-note backend:

- **the task search index** (search/bleve.go). A task is encoded as a flat
  document: its id, its title, the contents of all its notes, and its owner as
  decimal text. The document is upserted under the decimal id. The index can
  delete a document and can answer a search. A search conjoins an owner term
  query with the user's query string, keeps at most 10 hits, and maps each hit
  to `(id, fragments)` in hit order.
- **the search handler and its result reconciler** (controllers/search.go).
  An empty query short-circuits. Otherwise the handler collects the ranked ids
  and their highlights and batch-fetches those tasks from the store, which
  returns them in no particular order. It then puts them back into rank order
  and silently drops the ids that no longer resolve.
- **the short-id generator** (utils/shortid.go). It produces eight base-62
  characters: two random digits followed by six digits of the seconds elapsed
  since 2024-01-01.
- **the task and note handlers** (controllers/task.go, controllers/note.go).
  These cover the `id AND user_id` ownership guard, create-time defaults, the
  update map built by `UpdateTask`, the completion toggle, and the note
  handlers' access checks in their order. After every note mutation the parent
  task is re-encoded and upserted into the index.

Modules, one per file:

- `Wrappers`: `Option` and `Result`.
- `Seqs`: subsequences and duplicate-freedom.
- `Decimal`: `strconv.Itoa` and `strconv.Atoi` on naturals.
- `Models`: the task and note records.
- `Storage`: the store, the note table and `Preload("Notes")`.
- `SearchIndex`: search/bleve.go.
- `App`: the application state, the ownership lookup and reindexing.
- `TaskController` and `NoteController`: controllers/task.go and controllers/note.go.
- `SearchController`: controllers/search.go.
- `ShortId`: utils/shortid.go.

Modelling choices:

- **Bleve.** Text analysis, ranking, highlighting and engine failures are an
  `Engine` value with four function fields. The owner conjunction, the size
  cap and the hit-to-result mapping are interpreted by the model. Owner
  isolation is therefore proved, not assumed. Statements that every
  satisfying document was found assume a ranking that lists every satisfying
  stored key (`SearchIndex.RanksSatisfying`), since nothing else constrains
  the engine.
- **The store.**
  - The store is a map of task rows and a note table in table order.
  - The order of the batch fetch is a parameter, `scan`, and so is its
    failure, `dbError`.
  - `time.Now` and `rand.Intn` are parameters.
  - Each reindex is applied atomically in the same step as its mutation.
- **Ids.** Ids are natural numbers. An index key is the decimal text of the id.
  models/task.go declares `ID string` and has no `TaskTime` field, while
  search/bleve.go converts ids with `uint(...)` and controllers/task.go reads
  `TaskTime`. The model follows the controllers: ids are numbers, and tasks
  carry a `taskTime`.

Behaviour of the code worth knowing:

- Creating or updating a task never indexes it, so a new task cannot be found
  until one of its notes is written (`SearchController.CreatedTaskNotSearchable`).
- On insert the store fills an empty time unit with the column default
  "minute" declared in models/task.go, in the row and in the returned task.
- Deleting a task removes neither its index document nor its notes. The stale
  document is only ever filtered out by the reconciler
  (`SearchController.DeletedTaskNeverListed`).
- The short id is random part first, then time part, although the comment on
  `GenerateShortID` states the reverse order.
- Six base-62 digits of seconds wrap after 62^6 s, which is about 1800 years,
  not the 178 years the comment claims.

## Model

| member | source | states |
|---|---|---|
| Decimal.Itoa | search/bleve.go:49 | the decimal text of a number is non-empty, all digits, and has no leading zero unless it is "0" |
| Decimal.Atoi | search/bleve.go:94 | parsing succeeds exactly on non-empty all-digit text |
| Decimal.AtoiOrZero | search/bleve.go:94 | `id, _ := strconv.Atoi(key)`: a key of non-empty decimal digits gives its value, any other key gives 0 |
| Decimal.AtoiItoa | search/bleve.go:94 | parsing the decimal text of `n` gives back `n`, so a hit key converts back to the task id |
| Decimal.ItoaInjective | search/bleve.go:52 | distinct ids have distinct decimal texts |
| SearchIndex.IdKey | search/bleve.go:52 | a task's document key parses back to the task's id |
| SearchIndex.IdKeyInjective | search/bleve.go:52 | two tasks share an index key exactly when they share an id |
| SearchIndex.NoteText | search/bleve.go:40-43 | the note text is as long as the notes' contents plus one space per note |
| SearchIndex.NoteTextLayout | search/bleve.go:40-43 | note `i`'s content appears at its offset in the note text, followed by one space, in note order |
| SearchIndex.NoteTextAppend | search/bleve.go:40-43 | one more note appends its content and a space to the note text |
| SearchIndex.EncodeTask | search/bleve.go:45-50 | the document copies id and title, holds the note text (empty with no notes), and its owner text is exactly the owner's decimal text, the term the owner query looks for, which parses back to the owner |
| SearchIndex.IndexTask | search/bleve.go:35-56 | an upsert: the task's key then maps to its document, every other key is unchanged, well-keyedness is kept, nothing happens on an uninitialised index |
| SearchIndex.DeleteTask | search/bleve.go:58-66 | removes only the task's key, is a no-op on a missing key or an uninitialised index |
| SearchIndex.DeleteUndoesIndex | search/bleve.go:52-62 | deleting a freshly indexed task restores the index when its key was absent |
| SearchIndex.Satisfies | search/bleve.go:74-81 | a query holds of a document exactly when each of its term and query-string clauses, conjunctions flattened, holds |
| SearchIndex.OwnerQuery | search/bleve.go:74-81 | a document satisfies the combined query exactly when its owner text is the caller's and it matches a non-empty query string |
| SearchIndex.Satisfying | search/bleve.go:81-87 | the engine's satisfying keys, in rank order: a subsequence of the ranking holding exactly the stored documents that satisfy the query |
| SearchIndex.RunQuery | search/bleve.go:83-90 | the hits' keys are the first `min(size, n)` of the `n` satisfying keys in rank order, each hit with its own highlight; fewer than `size` hits means every satisfying key the ranking lists was returned, and so every satisfying stored document when the ranking lists all of them |
| SearchIndex.KeyRoundTrip | search/bleve.go:94-96 | in a well-keyed index a hit key converts to the id of the document stored under it |
| SearchIndex.SearchTasks | search/bleve.go:68-101 | "index not initialized" on an uninitialised index, the engine's error when it fails, and success otherwise: on a well-keyed index the results are one per hit: the first `min(10, n)` of the `n` satisfying ranked keys, in rank order, each the caller's own document matching the query and carrying its own highlight, without duplicate ids when the ranking has none; with fewer than 10 results and a ranking listing every satisfying key, every matching document of the caller is among them |
| SearchIndex.DistinctKeysDistinctIds | search/bleve.go:93-99 | distinct hit keys in a well-keyed index give distinct result ids |
| Storage.NotesOf | controllers/note.go:37 | a task's preloaded notes are exactly the note rows that name it |
| Storage.Preload | controllers/note.go:37 | a task loaded with its notes keeps every column of its row, and its notes are exactly the note rows that name it |
| Storage.NotesOfAppend | controllers/note.go:28-37 | a new note row for the task is the last of its preloaded notes |
| Storage.FindNote | controllers/note.go:54 | the lookup finds the first row with the id, and fails exactly when no row has it |
| App.FindOwnedTask | controllers/task.go:92 | the `id = ? AND user_id = ?` lookup succeeds exactly when the task exists and is the caller's |
| App.OwnedLookupIsolates | controllers/task.go:161 | another user's lookup of a task always fails |
| App.Reindex | controllers/note.go:35-39 | the parent's key then holds the encoding of the task with its current notes, other keys are unchanged, well-keyedness is kept |
| TaskController.CreateTask | controllers/task.go:64-85 | owner forced to the caller, creation time `now`, task time defaulted to it when 0, an empty time unit stored and returned as the column default "minute" (models/task.go:12), no notes; a clashing id is a server error with no change; the index is untouched |
| TaskController.MergeUpdate | controllers/task.go:103-144 | id, owner, creation time and notes never change; an empty update map means the task is unchanged |
| TaskController.MergeTextFields | controllers/task.go:105-138 | title and time unit: a string under the key replaces the field and is written, anything else leaves the field and writes nothing |
| TaskController.MergeNumberFields | controllers/task.go:128-144 | time spent and task time: a number under the key replaces the field and is written, anything else leaves the field and writes nothing |
| TaskController.MergeCompletion | controllers/task.go:111-126 | an equal or absent flag changes neither completion field; a differing flag sets the completion time to `now` or clears it and writes both columns; the other fields are covered by their own lemmas |
| TaskController.MergeKeepsConsistent | controllers/task.go:111-126 | a task whose completion time is set exactly when it is completed stays so after a merge |
| TaskController.ApplyUpdates | controllers/task.go:147 | the store's `Updates` never writes the key, owner, creation time or notes, and an empty map leaves the row as it was |
| TaskController.ApplyUpdatesColumns | controllers/task.go:147 | a column of the right type in the map is written to its field; a field whose column is absent keeps its value |
| TaskController.UpdatesMatchResponse | controllers/task.go:146-153 | writing the update map to the stored row yields exactly the task sent in the response |
| TaskController.UpdateTask | controllers/task.go:87-154 | 404 with no change unless the caller owns the task; otherwise the stored row becomes the response task, nothing is written for an empty update map, the index is untouched |
| TaskController.DeleteTask | controllers/task.go:156-172 | 404 with no change unless the caller owns the task; otherwise only that row goes, while its notes and index document stay |
| TaskController.ToggleTask | controllers/task.go:174-200 | 404 with no change unless the caller owns the task; otherwise the flag flips and the completion time is `now` exactly when the task becomes completed |
| TaskController.ToggleTwice | controllers/task.go:184-191 | for a consistent task, toggling twice restores the completion flag: an open task comes back unchanged, a completed one with the second toggle's time as completion time |
| NoteController.RemoveNote | controllers/note.go:107 | the remaining rows are exactly the rows with another id, kept in their table order (a subsequence of the table) |
| NoteController.RemoveNoteCount | controllers/note.go:107 | with unique note ids, deleting a note removes exactly one row |
| NoteController.RemoveNoteUnique | controllers/note.go:107 | removing rows keeps note ids unique |
| NoteController.CreateNote | controllers/note.go:13-42 | 404 with no change unless the note's task is the caller's; a clashing note id is a server error with no change; otherwise the note is appended with time `now` and its task reindexed |
| NoteController.NoteAccess | controllers/note.go:53-68 | the checks run in order: a missing note gives 404, a missing parent task gives 404, another owner gives 403 |
| NoteController.UpdateNote | controllers/note.go:44-84 | a rejection leaves the state unchanged; otherwise only that note's content changes and its parent task is reindexed |
| NoteController.DeleteNote | controllers/note.go:86-120 | a rejection leaves the state unchanged; otherwise exactly that note is removed, the other rows keep their table order, and its parent task is reindexed |
| NoteController.CreateNoteReindexesParent | controllers/note.go:28-39 | afterwards the parent's document, under the task id, holds its current notes: the old text plus the new content and a space; no other key changes |
| NoteController.UpdateNoteReindexesParent | controllers/note.go:70-81 | afterwards the parent's document, under the task id, holds its current notes; no other key changes |
| NoteController.DeleteNoteReindexesParent | controllers/note.go:107-117 | afterwards the parent's document, under the task id, holds its current notes, of which none is the deleted note; no other key changes |
| SearchController.HighlightsById | controllers/search.go:33-37 | the highlight map has an entry for exactly the result ids |
| SearchController.HighlightsOwnFragments | controllers/search.go:33-37 | with distinct result ids, each id's entry is its own result's fragments |
| SearchController.TasksById | controllers/search.go:48-54 | every entry of the id -> task map sits under its own task's id |
| SearchController.Resolved | controllers/search.go:62-63 | the ranked ids that resolve form a subsequence of the ranking, holding exactly the ranked ids with a fetched task |
| SearchController.Reconcile | controllers/search.go:61-69 | no longer than the ranking; every task is the fetched row of a ranked id, with that id's highlights |
| SearchController.ReconcileIds | controllers/search.go:61-69 | the output ids are the resolved ranked ids, in rank order |
| SearchController.ReconcileOrder | controllers/search.go:62-63 | the output ids are a subsequence of the ranking, exactly the ranked ids with a fetched task, and duplicate-free when the ranking is |
| SearchController.FetchTasks | controllers/search.go:42 | the batch fetch returns no more rows than it visits, no id twice when it visits each row once, each a stored row passing the id (and, when given, owner) filter, loaded with its notes |
| SearchController.FetchedById | controllers/search.go:42-54 | the id map of the fetched rows holds, under its own id, every stored row the fetch visits that passes its filter |
| SearchController.FetchOrderIrrelevant | controllers/search.go:40-54 | two fetches visiting the same rows in different orders give the same id map |
| SearchController.Respond | controllers/search.go:21-71 | an index error is returned and nothing is fetched; no hits give an empty list; a store error is a server error; with hits and no store error the reply is a listing (200), a subsequence of the ranked ids, each task its stored row with its own highlights |
| SearchController.RespondOrderIrrelevant | controllers/search.go:40-69 | the reply does not depend on the order in which the store returns the fetched rows, whatever the owner condition of the fetch |
| SearchController.RespondListsExactly | controllers/search.go:42-69 | when the fetch sees every row, the listed ids are exactly the ranked ids that resolve to a stored task passing the fetch's owner condition; with distinct ids each task carries its own hit's fragments |
| SearchController.SearchTasksAsWritten | controllers/search.go:12-72 | the handler as written (id-only fetch): an empty query gives an empty list; an index error, including "index not initialized", is a server error; with a successful search and no store error a listing; the listing is a subsequence of the ranked ids, each task a stored row with its notes and its own id's highlights |
| SearchController.SearchTasks | controllers/search.go:12-72 | the corrected handler of the finding below (fetch restricted to the caller's rows): the same outcomes as the handler as written, and every listed task is the caller's |
| SearchController.SearchOrderIrrelevant | controllers/search.go:40-69 | the corrected handler's response does not depend on the order in which the store returns the fetched rows |
| SearchController.AsWrittenOrderIrrelevant | controllers/search.go:40-69 | the handler as written does not depend on that order either |
| SearchController.SearchListsExactlyOwnedHits | controllers/search.go:42-69 | the corrected handler lists exactly the ranked ids that still resolve to one of the caller's tasks; with distinct ids each task carries its own hit's fragments |
| SearchController.AsWrittenListsExactlyResolvedHits | controllers/search.go:42-69 | the handler as written lists exactly the ranked ids that resolve to any stored task, whoever owns it; with distinct ids each task carries its own hit's fragments |
| SearchController.DeletedTaskNeverListed | controllers/search.go:62-63 | after a task is deleted its index document remains, but neither handler lists that id |
| SearchController.UnindexedNeverListed | controllers/search.go:21-69 | a task id without an index document is listed by neither handler |
| SearchController.UnindexedNotRanked | search/bleve.go:87-99 | an id without an index document is never among the index's results |
| SearchController.CreatedTaskNotSearchable | controllers/task.go:64-85 | a newly created task with no index document is listed by neither handler |
| SearchController.AsWrittenAnswersTopHit | controllers/search.go:42 | with the id-only fetch, the top-ranked id is answered by whatever row now holds that id, whoever owns it |
| SearchController.StaleStateReachable | controllers/task.go:64-85 | the stale store is reached by the handlers: user 1 creates task 7 and a note on it (indexing it), deletes the task (document and note stay), and user 2 creates task 7 |
| SearchController.StaleEntryLeaksAcrossUsers | controllers/search.go:42 | in that stale store user 1's search lists user 2's task, with user 1's orphaned note, under the id-only fetch, and nothing under the owner-restricted fetch |
| ShortId.CharsetLayout | utils/shortid.go:10 | the charset has 62 characters, and its `d`-th character is digit `d`: 0-9, then a-z, then A-Z |
| ShortId.InCharsetMeaning | utils/shortid.go:10 | a character is a charset character exactly when it is an ASCII digit or letter |
| ShortId.AlphabetInCharset | utils/shortid.go:32-38 | every character of a generated id occurs in the charset |
| ShortId.DecodeBound | utils/shortid.go:31-34 | `n` base-62 digits denote a value below 62^n |
| ShortId.DecodePrepend | utils/shortid.go:32 | prepending a digit adds its value times the place value of its position |
| ShortId.DecodeInjective | utils/shortid.go:30-40 | numerals of equal length with equal values are equal |
| ShortId.GenerateShortId | utils/shortid.go:18-43 | the id is 8 charset characters; the last six decode to the seconds since the base time mod 62^6, the first two to the random draw |
| ShortId.ShortIdInjective | utils/shortid.go:17-40 | two ids are equal exactly when their seconds agree mod 62^6 and their random draws agree, so 3844 distinct ids per second |

## Left out

- Bleve's analysis, tokenisation, query-string syntax, scoring and highlight generation (search/bleve.go:74-87): an `Engine` value supplies them. Its query string is taken to match nothing when empty.
- `Init`, which opens or creates the index on disk and calls `log.Fatal`, and database/db.go: storage I/O. The index is either uninitialised or ready.
- Logging of index errors in `IndexTask` and `DeleteTask`: they are never returned, so the model drops them.
- Goroutine scheduling of the reindex after a note mutation: each reindex is applied atomically in the same step, so the reindex race is not modelled.
- The ignored `First` error in the reindex goroutine (controllers/note.go:37): the model only reindexes an existing parent task.
- Store write failures of `Save`, `Delete` and `Updates` (HTTP 500): not modelled. The insert failures of `CreateTask` and `CreateNote` are modelled as a primary-key clash.
- Request-binding failures (HTTP 400): the model takes already-decoded inputs.
- JSON `float64` to integer conversions in `UpdateTask` (controllers/task.go:129-143): numbers arrive as integers.
- `processNoteContent` (controllers/search.go:51) is not part of this model. Fetched notes are returned unprocessed.
- `GetTasks` and `GetTaskStats`: raw SQL with date arithmetic.
- controllers/auth.go, controllers/totp.go, controllers/upload.go and main.go: authentication, TOTP, file conversion and routing.
- `time.Now` and `rand.Intn` are parameters. A note's creation time is an integer rather than a `time.Time`.
- SearchIndex.RunQuery: promises that every satisfying stored document was returned only for a ranking that lists every satisfying stored key (`SearchIndex.RanksSatisfying`). The engine is a parameter, and listing every matching document is bleve's own duty.
- Decimal.Atoi: does not model a leading sign or the 64-bit range of `strconv.Atoi`, because index keys are always produced from natural ids by `Itoa`.
- TaskController.CreateTask: drops any notes nested in the request. The object-relational mapper would insert them as associations; the model creates the bare task row.
- ShortId.GenerateShortId: requires the clock to be at or after the base time. Before it, the source's `%` yields a negative charset index and panics.
- SearchController.SearchTasksAsWritten: does not promise that listed tasks are the caller's, since the code as written does not keep that promise; `SearchController.StaleEntryLeaksAcrossUsers` shows it failing.

## Findings

| source | as written | input that shows it | evidently intended | confidence | as-written member | corrected member |
|---|---|---|---|---|---|---|
| controllers/search.go:42 | the batch fetch is `id IN ?`, with no owner condition, and task deletion leaves the index document behind | user 1's task 7 was indexed through a note and then deleted; user 2 creates a task with id 7; user 1 searches a word of the old note, the stale document ranks, and user 2's task is returned, carrying user 1's orphaned note | fetch `id IN ? AND user_id = ?`, so only the caller's tasks are listed | medium, not executed | SearchController.SearchTasksAsWritten, SearchController.StaleStateReachable, SearchController.StaleEntryLeaksAcrossUsers | SearchController.SearchTasks |
