/**
 * The task search handler (controllers/search.go): it short-circuits an empty
 * query, asks the index for ranked ids with highlights, batch-fetches those
 * tasks from the store in whatever order the store yields them, and puts them
 * back into rank order, silently dropping ids that no longer resolve.
 */
module SearchController {
  import opened Wrappers
  import opened Seqs
  import opened Models
  import opened Storage
  import opened SearchIndex
  import opened App
  import opened Decimal
  import TaskController
  import NoteController

  /** A task in the response, with the fragments highlighted for it. */
  datatype TaskResponse = TaskResponse(task: Task, highlights: Fragments)

  datatype SearchReply = Listed(tasks: seq<TaskResponse>) | ServerError(message: string)

  // ------------------------------------------------------------- reconciling

  /** The id -> fragments map built from the results; a repeated id keeps its last fragments. */
  function HighlightsById(results: seq<SearchResult>): (h: map<nat, Fragments>)
    ensures forall id :: id in h <==> id in ResultIds(results)
  {
    if |results| == 0 then map[]
    else
      var front := results[..|results| - 1];
      var last := results[|results| - 1];
      assert ResultIds(results) == ResultIds(front) + [last.id];
      HighlightsById(front)[last.id := last.fragments]
  }

  /** With distinct ids, each id's entry is the fragments of its own result. */
  lemma {:induction false} HighlightsOwnFragments(results: seq<SearchResult>, i: nat)
    requires NoDuplicates(ResultIds(results)) && i < |results|
    ensures HighlightsById(results)[results[i].id] == results[i].fragments
    decreases |results|
  {
    var n := |results| - 1;
    var front := results[..n];
    if i < n {
      assert ResultIds(front) == ResultIds(results)[..n];
      assert NoDuplicates(ResultIds(front));
      assert results[i].id != results[n].id by {
        assert ResultIds(results)[i] != ResultIds(results)[n];
      }
      HighlightsOwnFragments(front, i);
    }
  }

  /** The id -> task map built from the fetched rows; a repeated id keeps its last row. */
  function TasksById(fetched: seq<Task>): (m: map<nat, Task>)
    ensures forall k :: k in m ==> m[k].id == k
  {
    if |fetched| == 0 then map[]
    else TasksById(fetched[..|fetched| - 1])[fetched[|fetched| - 1].id := fetched[|fetched| - 1]]
  }

  /** The ranked ids that resolve to a fetched task, in rank order. */
  function Resolved(ids: seq<nat>, byId: map<nat, Task>): (r: seq<nat>)
    ensures IsSubsequence(r, ids)
    ensures forall id :: id in r <==> id in ids && id in byId
    decreases |ids|
  {
    if |ids| == 0 then []
    else
      var rest := Resolved(ids[1..], byId);
      assert ids == [ids[0]] + ids[1..];
      if ids[0] in byId then
        SubsequenceCons(ids[0], rest, ids[1..]);
        [ids[0]] + rest
      else
        SubsequenceSkip(ids[0], rest, ids[1..]);
        rest
  }

  /** Go's `highlightsMap[id]`: the entry, or the empty map for a missing id. */
  function HighlightOf(highlights: map<nat, Fragments>, id: nat): Fragments {
    if id in highlights then highlights[id] else map[]
  }

  function ResponseIds(out: seq<TaskResponse>): (ids: seq<nat>)
    ensures |ids| == |out|
    ensures forall i :: 0 <= i < |out| ==> ids[i] == out[i].task.id
  {
    seq(|out|, i requires 0 <= i < |out| => out[i].task.id)
  }

  /**
   * Walks the ranked ids in order and emits the fetched task for each id that
   * has one, with that id's highlights; ids without a task are skipped.
   */
  function Reconcile(ids: seq<nat>, highlights: map<nat, Fragments>, byId: map<nat, Task>)
    : (out: seq<TaskResponse>)
    requires forall k :: k in byId ==> byId[k].id == k
    ensures |out| <= |ids|
    ensures forall i :: 0 <= i < |out| ==>
      && out[i].task.id in ids
      && out[i].task.id in byId
      && out[i].task == byId[out[i].task.id]
      && out[i].highlights == HighlightOf(highlights, out[i].task.id)
    decreases |ids|
  {
    if |ids| == 0 then []
    else
      var rest := Reconcile(ids[1..], highlights, byId);
      if ids[0] in byId then
        [TaskResponse(byId[ids[0]], HighlightOf(highlights, ids[0]))] + rest
      else
        rest
  }

  /** The output's ids are exactly the resolved ranked ids, in rank order. */
  lemma {:induction false} ReconcileIds(ids: seq<nat>, highlights: map<nat, Fragments>, byId: map<nat, Task>)
    requires forall k :: k in byId ==> byId[k].id == k
    ensures ResponseIds(Reconcile(ids, highlights, byId)) == Resolved(ids, byId)
    decreases |ids|
  {
    if |ids| > 0 {
      ReconcileIds(ids[1..], highlights, byId);
      var rest := Reconcile(ids[1..], highlights, byId);
      if ids[0] in byId {
        var out := [TaskResponse(byId[ids[0]], HighlightOf(highlights, ids[0]))] + rest;
        assert ResponseIds(out) == [ids[0]] + ResponseIds(rest);
      }
    }
  }

  /** The output follows rank order and drops exactly the ids with no fetched task. */
  lemma ReconcileOrder(ids: seq<nat>, highlights: map<nat, Fragments>, byId: map<nat, Task>)
    requires forall k :: k in byId ==> byId[k].id == k
    ensures IsSubsequence(ResponseIds(Reconcile(ids, highlights, byId)), ids)
    ensures forall id :: id in ResponseIds(Reconcile(ids, highlights, byId)) <==> id in ids && id in byId
    ensures NoDuplicates(ids) ==> NoDuplicates(ResponseIds(Reconcile(ids, highlights, byId)))
  {
    ReconcileIds(ids, highlights, byId);
    var out := ResponseIds(Reconcile(ids, highlights, byId));
    if NoDuplicates(ids) {
      SubsequenceNoDuplicates(out, ids);
    }
  }

  // ---------------------------------------------------------------- fetching

  /** A row passes the fetch filter: one of the ranked ids and, when an owner is given, that owner's. */
  predicate Fetchable(db: Db, ids: seq<nat>, owner: Option<nat>, k: nat) {
    k in db.tasks && k in ids && (owner.Some? ==> db.tasks[k].userId == owner.value)
  }

  /**
   * `WHERE id IN ids` (and `AND user_id = owner` when given) with notes
   * preloaded. `scan` is the order in which the store happens to visit rows.
   */
  function FetchTasks(db: Db, ids: seq<nat>, owner: Option<nat>, scan: seq<nat>): (r: seq<Task>)
    ensures |r| <= |scan|
    ensures TasksKeyed(db) ==> forall i :: 0 <= i < |r| ==>
      r[i].id in scan && Fetchable(db, ids, owner, r[i].id) && r[i] == Preload(db, r[i].id)
    ensures TasksKeyed(db) && NoDuplicates(scan) ==> NoDuplicates(TaskIds(r))
  {
    if |scan| == 0 then []
    else
      var front := FetchTasks(db, ids, owner, scan[..|scan| - 1]);
      var k := scan[|scan| - 1];
      if Fetchable(db, ids, owner, k) then
        FetchAppendDistinct(db, front, scan, k);
        front + [Preload(db, k)]
      else
        assert TasksKeyed(db) && NoDuplicates(scan) ==> NoDuplicates(scan[..|scan| - 1]);
        front
  }

  /** The ids of a sequence of task rows, in order. */
  function TaskIds(ts: seq<Task>): (ids: seq<nat>)
    ensures |ids| == |ts|
    ensures forall i :: 0 <= i < |ts| ==> ids[i] == ts[i].id
  {
    seq(|ts|, i requires 0 <= i < |ts| => ts[i].id)
  }

  /** Appending the row of the last visited id keeps the fetched ids distinct. */
  lemma FetchAppendDistinct(db: Db, front: seq<Task>, scan: seq<nat>, k: nat)
    requires |scan| > 0 && k == scan[|scan| - 1] && k in db.tasks
    requires TasksKeyed(db) && NoDuplicates(scan[..|scan| - 1]) ==>
      NoDuplicates(TaskIds(front)) && forall i :: 0 <= i < |front| ==> front[i].id in scan[..|scan| - 1]
    ensures TasksKeyed(db) && NoDuplicates(scan) ==> NoDuplicates(TaskIds(front + [Preload(db, k)]))
  {
    if TasksKeyed(db) && NoDuplicates(scan) {
      var prefix := scan[..|scan| - 1];
      assert NoDuplicates(prefix);
      assert k !in prefix;
      var r := front + [Preload(db, k)];
      forall i, j | 0 <= i < j < |r|
        ensures TaskIds(r)[i] != TaskIds(r)[j]
      {
        if j == |front| {
          assert r[i] == front[i];
        } else {
          assert TaskIds(front)[i] != TaskIds(front)[j];
        }
      }
    }
  }

  /** Keying the fetched rows by id gives each row that passes the filter, under its own id. */
  lemma {:induction false} FetchedById(db: Db, ids: seq<nat>, owner: Option<nat>, scan: seq<nat>)
    requires TasksKeyed(db)
    ensures var m := TasksById(FetchTasks(db, ids, owner, scan));
      forall k :: (k in m <==> k in scan && Fetchable(db, ids, owner, k)) && (k in m ==> m[k] == Preload(db, k))
    decreases |scan|
  {
    if |scan| > 0 {
      var front := scan[..|scan| - 1];
      var k := scan[|scan| - 1];
      FetchedById(db, ids, owner, front);
      assert forall j :: j in scan <==> j in front || j == k;
      if Fetchable(db, ids, owner, k) {
        TasksByIdAppend(FetchTasks(db, ids, owner, front), Preload(db, k));
      }
    }
  }

  lemma TasksByIdAppend(fetched: seq<Task>, t: Task)
    ensures TasksById(fetched + [t]) == TasksById(fetched)[t.id := t]
  {
    assert (fetched + [t])[..|fetched|] == fetched;
  }

  /** The store's row order never changes what the handler sees: only which rows it visits. */
  lemma FetchOrderIrrelevant(db: Db, ids: seq<nat>, owner: Option<nat>, scan1: seq<nat>, scan2: seq<nat>)
    requires TasksKeyed(db)
    requires forall k :: k in db.tasks ==> (k in scan1 <==> k in scan2)
    ensures TasksById(FetchTasks(db, ids, owner, scan1)) == TasksById(FetchTasks(db, ids, owner, scan2))
  {
    FetchedById(db, ids, owner, scan1);
    FetchedById(db, ids, owner, scan2);
    var m1, m2 := TasksById(FetchTasks(db, ids, owner, scan1)), TasksById(FetchTasks(db, ids, owner, scan2));
    assert forall k :: k in m1 <==> k in m2;
    SamePointwise(m1, m2);
  }

  lemma SamePointwise(m1: map<nat, Task>, m2: map<nat, Task>)
    requires forall k :: k in m1 <==> k in m2
    requires forall k :: k in m1 ==> m1[k] == m2[k]
    ensures m1 == m2
  {
  }

  /** Each entry of the fetched map is the preloaded stored row under its own id, passing the filter. */
  lemma FetchedRows(db: Db, ids: seq<nat>, owner: Option<nat>, scan: seq<nat>)
    ensures TasksKeyed(db) ==> forall k :: k in TasksById(FetchTasks(db, ids, owner, scan)) ==>
      Fetchable(db, ids, owner, k) && TasksById(FetchTasks(db, ids, owner, scan))[k] == Preload(db, k)
  {
    if TasksKeyed(db) {
      FetchedById(db, ids, owner, scan);
    }
  }

  // ----------------------------------------------------------------- handler

  /**
   * Everything after the index lookup: `ranked` is what the index returned,
   * `scan` the store's row order for the batch fetch, `dbError` its failure if
   * any, and `owner` the extra `user_id` condition of the fetch, if any.
   */
  function Respond(db: Db, ranked: Result<seq<SearchResult>, string>, owner: Option<nat>,
                   scan: seq<nat>, dbError: Option<string>): (r: SearchReply)
    ensures ranked.Failure? ==> r == ServerError(ranked.error)
    ensures ranked == Success([]) ==> r == Listed([])
    ensures ranked.Success? && |ranked.value| > 0 && dbError.Some? ==> r == ServerError(dbError.value)
    ensures ranked.Success? && dbError.None? ==> r.Listed?
    ensures r.Listed? ==> ranked.Success? && |r.tasks| <= |ranked.value|
    ensures r.Listed? && TasksKeyed(db) ==> forall i :: 0 <= i < |r.tasks| ==>
      && r.tasks[i].task.id in db.tasks
      && r.tasks[i].task.id in ResultIds(ranked.value)
      && (owner.Some? ==> r.tasks[i].task.userId == owner.value)
      && r.tasks[i].task == Preload(db, r.tasks[i].task.id)
      && r.tasks[i].highlights == HighlightOf(HighlightsById(ranked.value), r.tasks[i].task.id)
    ensures r.Listed? ==> IsSubsequence(ResponseIds(r.tasks), ResultIds(ranked.value))
  {
    match ranked
    case Failure(err) => ServerError(err)
    case Success(results) =>
      if |results| == 0 then Listed([])
      else
        match dbError
        case Some(err) => ServerError(err)
        case None =>
          var ids := ResultIds(results);
          var byId := TasksById(FetchTasks(db, ids, owner, scan));
          var out := Reconcile(ids, HighlightsById(results), byId);
          ReconcileOrder(ids, HighlightsById(results), byId);
          FetchedRows(db, ids, owner, scan);
          Listed(out)
  }

  /** The store's row order never changes the reply: only which rows it visits. */
  lemma RespondOrderIrrelevant(db: Db, ranked: Result<seq<SearchResult>, string>, owner: Option<nat>,
                               scan1: seq<nat>, scan2: seq<nat>, dbError: Option<string>)
    requires TasksKeyed(db)
    requires forall k :: k in db.tasks ==> (k in scan1 <==> k in scan2)
    ensures Respond(db, ranked, owner, scan1, dbError) == Respond(db, ranked, owner, scan2, dbError)
  {
    if ranked.Success? {
      FetchOrderIrrelevant(db, ResultIds(ranked.value), owner, scan1, scan2);
    }
  }

  /**
   * When the fetch sees every stored row, the reply lists exactly the ranked
   * ids that resolve to a stored task passing the owner condition, and a task
   * carries the fragments of its own hit.
   */
  lemma {:induction false} RespondListsExactly(db: Db, results: seq<SearchResult>, owner: Option<nat>, scan: seq<nat>)
    requires TasksKeyed(db)
    requires forall k :: k in db.tasks ==> k in scan
    ensures Respond(db, Success(results), owner, scan, None).Listed?
    ensures var out := Respond(db, Success(results), owner, scan, None).tasks;
      forall id :: id in ResponseIds(out) <==>
        id in ResultIds(results) && id in db.tasks && (owner.Some? ==> db.tasks[id].userId == owner.value)
    ensures var out := Respond(db, Success(results), owner, scan, None).tasks;
      NoDuplicates(ResultIds(results)) ==>
        && NoDuplicates(ResponseIds(out))
        && forall i, j :: 0 <= i < |out| && 0 <= j < |results| && results[j].id == out[i].task.id ==>
             out[i].highlights == results[j].fragments
  {
    if |results| > 0 {
      var ids := ResultIds(results);
      var h := HighlightsById(results);
      FetchedById(db, ids, owner, scan);
      var byId := TasksById(FetchTasks(db, ids, owner, scan));
      ReconcileOrder(ids, h, byId);
      var out := Reconcile(ids, h, byId);
      assert Respond(db, Success(results), owner, scan, None) == Listed(out);
      if NoDuplicates(ids) {
        forall i, j | 0 <= i < |out| && 0 <= j < |results| && results[j].id == out[i].task.id
          ensures out[i].highlights == results[j].fragments
        {
          HighlightsOwnFragments(results, j);
        }
      }
    }
  }

  /**
   * controllers/search.go as written: the batch fetch is by id only. An empty
   * query lists nothing; an index error is a server error; otherwise, unless
   * the store fails, the reply lists stored tasks in rank order, each with
   * its own hit's fragments.
   */
  function SearchTasksAsWritten(st: AppState, e: Engine, q: string, userId: nat,
                                scan: seq<nat>, dbError: Option<string>): (r: SearchReply)
    ensures q == "" ==> r == Listed([])
    ensures q != "" && st.index.Uninitialised? ==> r == ServerError(NotInitialised)
    ensures var ranked := SearchIndex.SearchTasks(st.index, e, q, userId);
      q != "" && ranked.Failure? ==> r == ServerError(ranked.error)
    ensures var ranked := SearchIndex.SearchTasks(st.index, e, q, userId);
      q != "" && ranked.Success? && dbError.None? ==> r.Listed?
    ensures var ranked := SearchIndex.SearchTasks(st.index, e, q, userId);
      r.Listed? && q != "" ==> ranked.Success? && IsSubsequence(ResponseIds(r.tasks), ResultIds(ranked.value))
    ensures var ranked := SearchIndex.SearchTasks(st.index, e, q, userId);
      r.Listed? && TasksKeyed(st.db) ==> forall i :: 0 <= i < |r.tasks| ==>
        && r.tasks[i].task.id in st.db.tasks
        && r.tasks[i].task == Preload(st.db, r.tasks[i].task.id)
        && (ranked.Success? ==> r.tasks[i].highlights == HighlightOf(HighlightsById(ranked.value), r.tasks[i].task.id))
  {
    if q == "" then Listed([])
    else Respond(st.db, SearchIndex.SearchTasks(st.index, e, q, userId), None, scan, dbError)
  }

  /**
   * The search handler with the batch fetch restricted to the caller's rows
   * (`id IN ? AND user_id = ?`), so a stale index entry can never surface
   * another user's task.
   */
  function SearchTasks(st: AppState, e: Engine, q: string, userId: nat,
                       scan: seq<nat>, dbError: Option<string>): (r: SearchReply)
    ensures q == "" ==> r == Listed([])
    ensures q != "" && st.index.Uninitialised? ==> r == ServerError(NotInitialised)
    ensures var ranked := SearchIndex.SearchTasks(st.index, e, q, userId);
      q != "" && ranked.Failure? ==> r == ServerError(ranked.error)
    ensures var ranked := SearchIndex.SearchTasks(st.index, e, q, userId);
      q != "" && ranked.Success? && dbError.None? ==> r.Listed?
    ensures var ranked := SearchIndex.SearchTasks(st.index, e, q, userId);
      r.Listed? && q != "" ==> ranked.Success? && IsSubsequence(ResponseIds(r.tasks), ResultIds(ranked.value))
    ensures var ranked := SearchIndex.SearchTasks(st.index, e, q, userId);
      r.Listed? && TasksKeyed(st.db) ==> forall i :: 0 <= i < |r.tasks| ==>
        && r.tasks[i].task.id in st.db.tasks
        && r.tasks[i].task.userId == userId
        && r.tasks[i].task == Preload(st.db, r.tasks[i].task.id)
        && (ranked.Success? ==> r.tasks[i].highlights == HighlightOf(HighlightsById(ranked.value), r.tasks[i].task.id))
  {
    if q == "" then Listed([])
    else Respond(st.db, SearchIndex.SearchTasks(st.index, e, q, userId), Some(userId), scan, dbError)
  }

  // ------------------------------------------------------------- properties

  /** The order in which the store returns the fetched rows never changes the response. */
  lemma SearchOrderIrrelevant(st: AppState, e: Engine, q: string, userId: nat,
                              scan1: seq<nat>, scan2: seq<nat>, dbError: Option<string>)
    requires TasksKeyed(st.db)
    requires forall k :: k in st.db.tasks ==> (k in scan1 <==> k in scan2)
    ensures SearchTasks(st, e, q, userId, scan1, dbError) == SearchTasks(st, e, q, userId, scan2, dbError)
  {
    var ranked := SearchIndex.SearchTasks(st.index, e, q, userId);
    RespondOrderIrrelevant(st.db, ranked, Some(userId), scan1, scan2, dbError);
  }

  /** The same holds of the handler as written. */
  lemma AsWrittenOrderIrrelevant(st: AppState, e: Engine, q: string, userId: nat,
                                 scan1: seq<nat>, scan2: seq<nat>, dbError: Option<string>)
    requires TasksKeyed(st.db)
    requires forall k :: k in st.db.tasks ==> (k in scan1 <==> k in scan2)
    ensures SearchTasksAsWritten(st, e, q, userId, scan1, dbError)
         == SearchTasksAsWritten(st, e, q, userId, scan2, dbError)
  {
    var ranked := SearchIndex.SearchTasks(st.index, e, q, userId);
    RespondOrderIrrelevant(st.db, ranked, None, scan1, scan2, dbError);
  }

  /**
   * When the fetch sees every stored row, the response lists exactly the
   * ranked ids that still resolve to one of the caller's tasks, and a task
   * carries the fragments of its own hit.
   */
  lemma SearchListsExactlyOwnedHits(st: AppState, e: Engine, q: string, userId: nat,
                                    scan: seq<nat>, results: seq<SearchResult>)
    requires TasksKeyed(st.db) && q != ""
    requires SearchIndex.SearchTasks(st.index, e, q, userId) == Success(results)
    requires forall k :: k in st.db.tasks ==> k in scan
    ensures SearchTasks(st, e, q, userId, scan, None).Listed?
    ensures var out := SearchTasks(st, e, q, userId, scan, None).tasks;
      forall id :: id in ResponseIds(out) <==>
        id in ResultIds(results) && id in st.db.tasks && st.db.tasks[id].userId == userId
    ensures var out := SearchTasks(st, e, q, userId, scan, None).tasks;
      NoDuplicates(ResultIds(results)) ==>
        && NoDuplicates(ResponseIds(out))
        && forall i, j :: 0 <= i < |out| && 0 <= j < |results| && results[j].id == out[i].task.id ==>
             out[i].highlights == results[j].fragments
  {
    RespondListsExactly(st.db, results, Some(userId), scan);
  }

  /**
   * The handler as written lists exactly the ranked ids that resolve to any
   * stored task, whoever owns it, each with the fragments of its own hit.
   */
  lemma AsWrittenListsExactlyResolvedHits(st: AppState, e: Engine, q: string, userId: nat,
                                          scan: seq<nat>, results: seq<SearchResult>)
    requires TasksKeyed(st.db) && q != ""
    requires SearchIndex.SearchTasks(st.index, e, q, userId) == Success(results)
    requires forall k :: k in st.db.tasks ==> k in scan
    ensures SearchTasksAsWritten(st, e, q, userId, scan, None).Listed?
    ensures var out := SearchTasksAsWritten(st, e, q, userId, scan, None).tasks;
      forall id :: id in ResponseIds(out) <==> id in ResultIds(results) && id in st.db.tasks
    ensures var out := SearchTasksAsWritten(st, e, q, userId, scan, None).tasks;
      NoDuplicates(ResultIds(results)) ==>
        && NoDuplicates(ResponseIds(out))
        && forall i, j :: 0 <= i < |out| && 0 <= j < |results| && results[j].id == out[i].task.id ==>
             out[i].highlights == results[j].fragments
  {
    RespondListsExactly(st.db, results, None, scan);
  }

  /**
   * Deleting a task leaves its document in the index, but the stale entry is
   * never listed: its id no longer resolves.
   */
  lemma DeletedTaskNeverListed(st: AppState, owner: nat, taskId: nat,
                               e: Engine, q: string, caller: nat, scan: seq<nat>, dbError: Option<string>)
    requires Valid(st)
    requires FindOwnedTask(st.db, taskId, owner).Some?
    ensures var after := TaskController.DeleteTask(st, owner, taskId).state;
      && after.index == st.index
      && taskId !in after.db.tasks
      && (var r := SearchTasks(after, e, q, caller, scan, dbError);
          r.Listed? ==> forall i :: 0 <= i < |r.tasks| ==> r.tasks[i].task.id != taskId)
      && (var r := SearchTasksAsWritten(after, e, q, caller, scan, dbError);
          r.Listed? ==> forall i :: 0 <= i < |r.tasks| ==> r.tasks[i].task.id != taskId)
  {
    var after := TaskController.DeleteTask(st, owner, taskId).state;
    assert TasksKeyed(after.db);
  }

  /**
   * Creating a task does not index it: a task whose id has no document yet is
   * not found by any search until one of its notes is written.
   */
  lemma CreatedTaskNotSearchable(st: AppState, userId: nat, input: Task, now: int,
                                 e: Engine, q: string, scan: seq<nat>, dbError: Option<string>)
    requires Valid(st) && st.index.Ready?
    requires IdKey(input.id) !in st.index.docs
    ensures var after := TaskController.CreateTask(st, userId, input, now).state;
      var r := SearchTasks(after, e, q, userId, scan, dbError);
      r.Listed? ==> forall i :: 0 <= i < |r.tasks| ==> r.tasks[i].task.id != input.id
    ensures var after := TaskController.CreateTask(st, userId, input, now).state;
      var r := SearchTasksAsWritten(after, e, q, userId, scan, dbError);
      r.Listed? ==> forall i :: 0 <= i < |r.tasks| ==> r.tasks[i].task.id != input.id
  {
    var after := TaskController.CreateTask(st, userId, input, now).state;
    assert after.index == st.index && TasksKeyed(after.db);
    UnindexedNeverListed(after, e, q, userId, input.id, scan, dbError);
  }

  /** A task whose id has no document in the index is listed by neither handler. */
  lemma UnindexedNeverListed(st: AppState, e: Engine, q: string, userId: nat, id: nat,
                             scan: seq<nat>, dbError: Option<string>)
    requires TasksKeyed(st.db) && st.index.Ready? && WellKeyed(st.index.docs)
    requires IdKey(id) !in st.index.docs
    ensures var r := SearchTasks(st, e, q, userId, scan, dbError);
      r.Listed? ==> forall i :: 0 <= i < |r.tasks| ==> r.tasks[i].task.id != id
    ensures var r := SearchTasksAsWritten(st, e, q, userId, scan, dbError);
      r.Listed? ==> forall i :: 0 <= i < |r.tasks| ==> r.tasks[i].task.id != id
  {
    UnindexedNotRanked(st.index, e, q, userId, id);
    var ranked := SearchIndex.SearchTasks(st.index, e, q, userId);
    if q != "" && ranked.Success? {
      var r1 := SearchTasks(st, e, q, userId, scan, dbError);
      if r1.Listed? {
        SubsequenceMembers(ResponseIds(r1.tasks), ResultIds(ranked.value));
      }
      var r2 := SearchTasksAsWritten(st, e, q, userId, scan, dbError);
      if r2.Listed? {
        SubsequenceMembers(ResponseIds(r2.tasks), ResultIds(ranked.value));
      }
    }
  }

  /** An id without a document is never among the index's results. */
  lemma UnindexedNotRanked(ix: TaskIndex, e: Engine, q: string, userId: nat, id: nat)
    requires ix.Ready? && WellKeyed(ix.docs) && IdKey(id) !in ix.docs
    ensures var ranked := SearchIndex.SearchTasks(ix, e, q, userId);
      ranked.Success? ==> id !in ResultIds(ranked.value)
  {
    var ranked := SearchIndex.SearchTasks(ix, e, q, userId);
    if ranked.Success? {
      forall j | 0 <= j < |ranked.value|
        ensures ranked.value[j].id != id
      {
        assert IdKey(ranked.value[j].id) in ix.docs;
      }
    }
  }

  // ------------------------------------------------------ stale index entries

  /**
   * With the id-only fetch, the top-ranked id is answered with whatever row
   * the store now holds under that id, whoever owns it.
   */
  lemma {:induction false} AsWrittenAnswersTopHit(st: AppState, e: Engine, q: string, userId: nat,
                                                  scan: seq<nat>, results: seq<SearchResult>)
    requires TasksKeyed(st.db) && q != ""
    requires SearchIndex.SearchTasks(st.index, e, q, userId) == Success(results)
    requires |results| > 0 && results[0].id in st.db.tasks && results[0].id in scan
    ensures SearchTasksAsWritten(st, e, q, userId, scan, None).Listed?
    ensures var out := SearchTasksAsWritten(st, e, q, userId, scan, None).tasks;
      |out| > 0 && out[0].task == Preload(st.db, results[0].id)
  {
    var ids := ResultIds(results);
    FetchedById(st.db, ids, None, scan);
    var byId := TasksById(FetchTasks(st.db, ids, None, scan));
    assert ids[0] in byId;
    assert byId[ids[0]] == Preload(st.db, ids[0]);
  }

  /** The id a deleted task held, reused by another user's task. */
  const ReusedId: nat := 7

  /** User 1's task that is later deleted, user 1's note on it, and user 2's task reusing its id. */
  const OldTask: Task := Task(ReusedId, 0, "milk", false, 0, None, 0, "", 0, [])
  const OldNote: Note := Note(1, ReusedId, "buy oat milk", 0)
  const NewTask: Task := Task(ReusedId, 0, "groceries", false, 0, None, 0, "", 0, [])

  /**
   * The store after user 1's task 7 (indexed through its note) was deleted
   * and user 2 created a task reusing id 7: the index still holds user 1's
   * document under key "7", and user 1's note still names task 7.
   */
  const StaleState: AppState :=
    AppState(
      Db(map[ReusedId := Task(ReusedId, 2, "groceries", false, 4000, None, 0, "minute", 4000, [])],
         [OldNote.(createdAt := 2000)]),
      Ready(map[IdKey(ReusedId) := TaskDoc(ReusedId, "milk", "buy oat milk ", Itoa(1))]))

  /** User 1's task 7 as stored, and the store after each step before user 2's. */
  const OldRow: Task := OldTask.(userId := 1, createdAt := 1000, taskTime := 1000, timeUnit := "minute")
  const Created: AppState := AppState(Db(map[ReusedId := OldRow], []), Ready(map[]))
  const Noted: AppState := AppState(Db(map[ReusedId := OldRow], StaleState.db.notes), StaleState.index)
  const Deleted: AppState := AppState(Db(map[], StaleState.db.notes), StaleState.index)

  lemma StepCreate()
    ensures TaskController.CreateTask(AppState(Db(map[], []), Ready(map[])), 1, OldTask, 1000)
         == Reply(Created, Ok, Some(OldRow))
  {
  }

  /** Adding the note reindexes task 7 with the note's text under user 1's owner text. */
  lemma StepNote()
    ensures var r := NoteController.CreateNote(Created, 1, OldNote, 2000);
      r.status == Ok && r.state == Noted
  {
    var n := OldNote.(createdAt := 2000);
    var db := Db(map[ReusedId := OldRow], [n]);
    assert NotesOf([n], ReusedId) == [n] by {
      assert [n][..0] == [];
    }
    assert NoteText([n]) == "buy oat milk " by {
      assert [n][..0] == [];
    }
    assert EncodeTask(Preload(db, ReusedId)) == TaskDoc(ReusedId, "milk", "buy oat milk ", Itoa(1));
    assert Reindex(Created.index, db, ReusedId) == StaleState.index;
  }

  /** Deleting the task keeps its note and its index document. */
  lemma StepDelete()
    ensures var r := TaskController.DeleteTask(Noted, 1, ReusedId);
      r.status == Ok && r.state == Deleted
  {
    assert map[ReusedId := OldRow] - {ReusedId} == map[];
  }

  /** User 2's task reuses the free id 7. */
  lemma StepReuse()
    ensures var r := TaskController.CreateTask(Deleted, 2, NewTask, 4000);
      r.status == Ok && r.state == StaleState
  {
  }

  /**
   * The stale store is reached by the handlers themselves: user 1 creates
   * task 7 and a note on it, deletes the task, and user 2 creates a task
   * with id 7.
   */
  lemma StaleStateReachable()
    ensures var s1 := TaskController.CreateTask(AppState(Db(map[], []), Ready(map[])), 1, OldTask, 1000);
      var s2 := NoteController.CreateNote(s1.state, 1, OldNote, 2000);
      var s3 := TaskController.DeleteTask(s2.state, 1, ReusedId);
      var s4 := TaskController.CreateTask(s3.state, 2, NewTask, 4000);
      && s1.status == Ok && s2.status == Ok && s3.status == Ok && s4.status == Ok
      && s4.state == StaleState
  {
    StepCreate();
    StepNote();
    StepDelete();
    StepReuse();
  }

  /** An engine under which every document matches every term and ranks by id. */
  const EveryDocMatches: Engine :=
    Engine((d: TaskDoc, t: string) => true,
           (docs: map<string, TaskDoc>, q: Query) => [IdKey(ReusedId)],
           (d: TaskDoc, q: Query) => map[],
           (docs: map<string, TaskDoc>, q: Query) => None)

  /** In the stale store, user 1's search for "milk" ranks exactly the stale document. */
  lemma StaleRanking()
    ensures SearchIndex.SearchTasks(StaleState.index, EveryDocMatches, "milk", 1)
         == Success([SearchResult(ReusedId, map[])])
  {
    var e := EveryDocMatches;
    var docs := StaleState.index.docs;
    var k := IdKey(ReusedId);
    var q := OwnerQuery(1, "milk");
    assert Satisfies(e, docs[k], q);
    assert e.rank(docs, q) == [k];
    assert Satisfying(e, docs, q, [k]) == [k];
    var hits := RunQuery(e, docs, q, SearchSize);
    assert |hits| == 1 && hits[0].key == k;
    assert hits == [Hit(k, map[])];
    assert e.failure(docs, q) == None;
    AtoiItoa(ReusedId);
    assert AtoiOrZero(k) == ReusedId;
    var rs := seq(|hits|, i requires 0 <= i < |hits| => SearchResult(AtoiOrZero(hits[i].key), hits[i].fragments));
    assert rs == [SearchResult(ReusedId, map[])];
  }

  /**
   * User 1 searching "milk" is shown user 2's task, carrying user 1's orphaned
   * note, through the stale entry by the id-only fetch, and nothing by the
   * owner-restricted fetch.
   */
  lemma StaleEntryLeaksAcrossUsers()
    ensures Valid(StaleState)
    ensures StaleState.db.tasks[ReusedId].userId == 2
    ensures var r := SearchTasksAsWritten(StaleState, EveryDocMatches, "milk", 1, [ReusedId], None);
      r.Listed? && |r.tasks| > 0 && r.tasks[0].task.userId == 2
      && r.tasks[0].task.notes == [OldNote.(createdAt := 2000)]
    ensures SearchTasks(StaleState, EveryDocMatches, "milk", 1, [ReusedId], None) == Listed([])
  {
    var st, e := StaleState, EveryDocMatches;
    assert WellKeyed(st.index.docs);
    StaleRanking();
    var results := [SearchResult(ReusedId, map[])];
    AsWrittenAnswersTopHit(st, e, "milk", 1, [ReusedId], results);
    assert NotesOf(st.db.notes, ReusedId) == st.db.notes by {
      assert st.db.notes[..0] == [];
    }
    assert !Fetchable(st.db, [ReusedId], Some(1), ReusedId);
    assert FetchTasks(st.db, [ReusedId], Some(1), [ReusedId]) == [];
    assert Reconcile([ReusedId], HighlightsById(results), map[]) == [];
  }
}
