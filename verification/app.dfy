/**
 * The state the HTTP handlers act on: the relational store and the task index,
 * plus the replies and lookups the task, note and search handlers share.
 */
module App {
  import opened Wrappers
  import opened Models
  import opened Storage
  import opened SearchIndex

  datatype AppState = AppState(db: Db, index: TaskIndex)

  /** HTTP status of a handler's reply. */
  datatype Status = Ok | NotFound | Forbidden | InternalError

  /** A handler's outcome: the state afterwards, the status, and the JSON body on success. */
  datatype Reply<T> = Reply(state: AppState, status: Status, body: Option<T>)

  function Reject<T>(st: AppState, status: Status): Reply<T> {
    Reply(st, status, None)
  }

  /** Every task row sits under its own id. */
  predicate TasksKeyed(db: Db) {
    forall k :: k in db.tasks ==> db.tasks[k].id == k
  }

  /** Task rows as stored: notes live in the note table and are attached only by a preload. */
  predicate RowsUnloaded(db: Db) {
    forall k :: k in db.tasks ==> db.tasks[k].notes == []
  }

  /**
   * Rows are keyed by their ids and carry no loaded notes, note ids are
   * unique, and every indexed document sits under its own id's key.
   */
  predicate Valid(st: AppState) {
    && TasksKeyed(st.db)
    && RowsUnloaded(st.db)
    && UniqueNoteIds(st.db.notes)
    && (st.index.Ready? ==> WellKeyed(st.index.docs))
  }

  /** The `id = ? AND user_id = ?` lookup: the task, when it exists and is the caller's. */
  function FindOwnedTask(db: Db, taskId: nat, userId: nat): (r: Option<Task>)
    ensures r.Some? <==> taskId in db.tasks && db.tasks[taskId].userId == userId
    ensures r.Some? ==> r.value == db.tasks[taskId]
  {
    if taskId in db.tasks && db.tasks[taskId].userId == userId then Some(db.tasks[taskId]) else None
  }

  /** Another user's task is never found by the guarded lookup. */
  lemma OwnedLookupIsolates(db: Db, taskId: nat, owner: nat, caller: nat)
    requires taskId in db.tasks && db.tasks[taskId].userId == owner
    ensures FindOwnedTask(db, taskId, caller).Some? <==> caller == owner
  {
  }

  /** Re-encodes a task with its current notes and upserts it into the index. */
  function Reindex(ix: TaskIndex, db: Db, taskId: nat): (r: TaskIndex)
    requires taskId in db.tasks
    ensures ix.Uninitialised? ==> r == ix
    ensures ix.Ready? ==> r.Ready?
    ensures ix.Ready? && TasksKeyed(db) ==>
      r.docs == ix.docs[IdKey(taskId) := EncodeTask(Preload(db, taskId))]
    ensures ix.Ready? && WellKeyed(ix.docs) ==> WellKeyed(r.docs)
  {
    IndexTask(ix, Preload(db, taskId))
  }
}
