/**
 * The note handlers (controllers/note.go). Each mutation is guarded by the
 * parent task's owner; after it succeeds the parent task is re-encoded with
 * its current notes and upserted into the index, applied in the same step.
 */
module NoteController {
  import opened Wrappers
  import opened Models
  import opened Storage
  import opened SearchIndex
  import opened App
  import opened Seqs

  /** The note table without the rows whose id is `noteId`, in the same order. */
  function RemoveNote(notes: seq<Note>, noteId: nat): (r: seq<Note>)
    ensures |r| <= |notes|
    ensures forall n :: n in r <==> n in notes && n.id != noteId
    ensures IsSubsequence(r, notes)
  {
    if |notes| == 0 then []
    else
      var front := notes[..|notes| - 1];
      var last := notes[|notes| - 1];
      assert notes == front + [last];
      var rest := RemoveNote(front, noteId);
      SubsequenceAppend(rest, front, last);
      if last.id == noteId then rest else rest + [last]
  }

  /** Removing rows keeps note ids unique. */
  lemma {:induction false} RemoveNoteUnique(notes: seq<Note>, noteId: nat)
    ensures UniqueNoteIds(notes) ==> UniqueNoteIds(RemoveNote(notes, noteId))
    decreases |notes|
  {
    if |notes| > 0 && UniqueNoteIds(notes) {
      var front := notes[..|notes| - 1];
      var last := notes[|notes| - 1];
      assert UniqueNoteIds(front);
      RemoveNoteUnique(front, noteId);
      var rest := RemoveNote(front, noteId);
      if last.id != noteId {
        var r := rest + [last];
        assert RemoveNote(notes, noteId) == r;
        forall i, j | 0 <= i < j < |r|
          ensures r[i].id != r[j].id
        {
          if j == |rest| {
            assert r[i] in front;
            var k :| 0 <= k < |front| && front[k] == r[i];
            assert notes[k] == r[i];
          }
        }
      }
    }
  }

  /** Removing a note with a unique id shortens the table by exactly one row. */
  lemma {:induction false} RemoveNoteCount(notes: seq<Note>, i: nat)
    requires i < |notes|
    ensures UniqueNoteIds(notes) ==> |RemoveNote(notes, notes[i].id)| == |notes| - 1
    decreases |notes|
  {
    if !UniqueNoteIds(notes) {
      return;
    }
    var last := |notes| - 1;
    var front := notes[..last];
    assert notes == front + [notes[last]];
    if i == last {
      assert forall k :: 0 <= k < |front| ==> front[k].id != notes[i].id by {
        assert forall k :: 0 <= k < |front| ==> front[k] == notes[k];
      }
      RemoveNoteAbsent(front, notes[i].id);
      assert RemoveNote(notes, notes[i].id) == RemoveNote(front, notes[i].id);
    } else {
      assert front[i] == notes[i];
      assert notes[i].id != notes[last].id;
      assert UniqueNoteIds(front);
      RemoveNoteCount(front, i);
      assert RemoveNote(notes, notes[i].id) == RemoveNote(front, notes[i].id) + [notes[last]];
    }
  }

  /** Removing an id no row carries changes nothing. */
  lemma {:induction false} RemoveNoteAbsent(notes: seq<Note>, noteId: nat)
    requires forall k :: 0 <= k < |notes| ==> notes[k].id != noteId
    ensures RemoveNote(notes, noteId) == notes
    decreases |notes|
  {
    if |notes| > 0 {
      var n := |notes| - 1;
      var front := notes[..n];
      assert forall k :: 0 <= k < |front| ==> front[k] == notes[k];
      RemoveNoteAbsent(front, noteId);
      assert notes[n].id != noteId;
      assert notes == front + [notes[n]];
      assert RemoveNote(notes, noteId) == RemoveNote(front, noteId) + [notes[n]];
    }
  }

  /**
   * CreateNote: rejected with 404, creating nothing, unless the note's task is
   * the caller's; a clashing note id makes the insert fail. On success the
   * note is appended with creation time `now` and its task is reindexed.
   */
  function CreateNote(st: AppState, userId: nat, input: Note, now: int): (r: Reply<Note>)
    ensures FindOwnedTask(st.db, input.taskId, userId).None? ==> r == Reject(st, NotFound)
    ensures FindOwnedTask(st.db, input.taskId, userId).Some? && FindNote(st.db.notes, input.id).Some? ==>
      r == Reject(st, InternalError)
    ensures FindOwnedTask(st.db, input.taskId, userId).Some? && FindNote(st.db.notes, input.id).None? ==>
      r.status == Ok
    ensures r.status == Ok ==>
      && r.body == Some(input.(createdAt := now))
      && r.state.db == st.db.(notes := st.db.notes + [input.(createdAt := now)])
      && input.taskId in st.db.tasks
      && r.state.index == Reindex(st.index, r.state.db, input.taskId)
    ensures r.status != Ok ==> r.state == st
    ensures Valid(st) ==> Valid(r.state)
  {
    match FindOwnedTask(st.db, input.taskId, userId)
    case None => Reject(st, NotFound)
    case Some(_) =>
      var note := input.(createdAt := now);
      match FindNote(st.db.notes, note.id)
      case Some(_) => Reject(st, InternalError)
      case None =>
        var db := st.db.(notes := st.db.notes + [note]);
        Reply(AppState(db, Reindex(st.index, db, note.taskId)), Ok, Some(note))
  }

  /** Why a note mutation is refused, in the order the checks are made. */
  function NoteAccess(db: Db, userId: nat, noteId: nat): (r: Result<nat, Status>)
    ensures r.Failure? ==> r.error == NotFound || r.error == Forbidden
    ensures FindNote(db.notes, noteId).None? ==> r == Failure(NotFound)
    ensures FindNote(db.notes, noteId).Some? ==>
      var parent := db.notes[FindNote(db.notes, noteId).value].taskId;
      && (parent !in db.tasks ==> r == Failure(NotFound))
      && (parent in db.tasks && db.tasks[parent].userId != userId ==> r == Failure(Forbidden))
      && (parent in db.tasks && db.tasks[parent].userId == userId ==> r == Success(FindNote(db.notes, noteId).value))
  {
    match FindNote(db.notes, noteId)
    case None => Failure(NotFound)
    case Some(i) =>
      var parent := db.notes[i].taskId;
      if parent !in db.tasks then Failure(NotFound)
      else if db.tasks[parent].userId != userId then Failure(Forbidden)
      else Success(i)
  }

  /**
   * UpdateNote: after the access checks, only the note's content changes; its
   * task is then reindexed.
   */
  function UpdateNote(st: AppState, userId: nat, noteId: nat, content: string): (r: Reply<Note>)
    ensures NoteAccess(st.db, userId, noteId).Failure? ==>
      r == Reject(st, NoteAccess(st.db, userId, noteId).error)
    ensures NoteAccess(st.db, userId, noteId).Success? ==>
      var i := NoteAccess(st.db, userId, noteId).value;
      var n := st.db.notes[i];
      && r.status == Ok
      && n.id == noteId
      && r.body == Some(n.(content := content))
      && r.state.db.tasks == st.db.tasks
      && r.state.db.notes == st.db.notes[i := n.(content := content)]
      && n.taskId in st.db.tasks && st.db.tasks[n.taskId].userId == userId
      && r.state.index == Reindex(st.index, r.state.db, n.taskId)
    ensures Valid(st) ==> Valid(r.state)
  {
    match NoteAccess(st.db, userId, noteId)
    case Failure(status) => Reject(st, status)
    case Success(i) =>
      var note := st.db.notes[i].(content := content);
      var db := st.db.(notes := st.db.notes[i := note]);
      Reply(AppState(db, Reindex(st.index, db, note.taskId)), Ok, Some(note))
  }

  /** DeleteNote: after the access checks, removes exactly that note and reindexes its task. */
  function DeleteNote(st: AppState, userId: nat, noteId: nat): (r: Reply<string>)
    ensures NoteAccess(st.db, userId, noteId).Failure? ==>
      r == Reject(st, NoteAccess(st.db, userId, noteId).error)
    ensures NoteAccess(st.db, userId, noteId).Success? ==>
      var n := st.db.notes[NoteAccess(st.db, userId, noteId).value];
      && r.status == Ok
      && r.state.db.tasks == st.db.tasks
      && (forall x :: x in r.state.db.notes <==> x in st.db.notes && x.id != noteId)
      && IsSubsequence(r.state.db.notes, st.db.notes)
      && n.taskId in st.db.tasks && st.db.tasks[n.taskId].userId == userId
      && r.state.index == Reindex(st.index, r.state.db, n.taskId)
    ensures UniqueNoteIds(st.db.notes) && r.status == Ok ==> |r.state.db.notes| == |st.db.notes| - 1
    ensures Valid(st) ==> Valid(r.state)
  {
    match NoteAccess(st.db, userId, noteId)
    case Failure(status) => Reject(st, status)
    case Success(i) =>
      var parent := st.db.notes[i].taskId;
      var db := st.db.(notes := RemoveNote(st.db.notes, noteId));
      RemoveNoteCount(st.db.notes, i);
      RemoveNoteUnique(st.db.notes, noteId);
      Reply(AppState(db, Reindex(st.index, db, parent)), Ok, Some("Note deleted"))
  }

  // --------------------------------------------------- the parent's document

  /** The task's document holds its current notes, under the task's own id. */
  predicate IndexedCurrent(st: AppState, taskId: nat)
    requires taskId in st.db.tasks
  {
    st.index.Ready? ==>
      IdKey(taskId) in st.index.docs && st.index.docs[IdKey(taskId)] == EncodeTask(Preload(st.db, taskId))
  }

  /** The index changed at most under the parent task's key. */
  ghost predicate OnlyKeyChanged(before: TaskIndex, after: TaskIndex, taskId: nat) {
    && before.Ready? == after.Ready?
    && (before.Ready? ==>
          forall k :: k != IdKey(taskId) ==>
            (k in after.docs <==> k in before.docs) && (k in before.docs ==> after.docs[k] == before.docs[k]))
  }

  /**
   * Adding a note reindexes its task under the task's id (never the note's):
   * the task's text gains the note's content and a space, other documents
   * stay as they were.
   */
  lemma CreateNoteReindexesParent(st: AppState, userId: nat, input: Note, now: int)
    requires Valid(st)
    requires CreateNote(st, userId, input, now).status == Ok
    ensures var after := CreateNote(st, userId, input, now).state;
      && input.taskId in after.db.tasks
      && IndexedCurrent(after, input.taskId)
      && OnlyKeyChanged(st.index, after.index, input.taskId)
      && (st.index.Ready? ==>
            after.index.docs[IdKey(input.taskId)].content
              == NoteText(NotesOf(st.db.notes, input.taskId)) + input.content + " ")
  {
    var note := input.(createdAt := now);
    NotesOfAppend(st.db.notes, note, input.taskId);
    NoteTextAppend(NotesOf(st.db.notes, input.taskId), note);
  }

  /** Editing a note reindexes its parent task with the edited text; other documents stay. */
  lemma UpdateNoteReindexesParent(st: AppState, userId: nat, noteId: nat, content: string)
    requires Valid(st)
    requires NoteAccess(st.db, userId, noteId).Success?
    ensures var parent := st.db.notes[NoteAccess(st.db, userId, noteId).value].taskId;
      var after := UpdateNote(st, userId, noteId, content).state;
      && parent in after.db.tasks
      && IndexedCurrent(after, parent)
      && OnlyKeyChanged(st.index, after.index, parent)
  {
  }

  /** Deleting a note reindexes its parent task without it; other documents stay. */
  lemma DeleteNoteReindexesParent(st: AppState, userId: nat, noteId: nat)
    requires Valid(st)
    requires NoteAccess(st.db, userId, noteId).Success?
    ensures var parent := st.db.notes[NoteAccess(st.db, userId, noteId).value].taskId;
      var after := DeleteNote(st, userId, noteId).state;
      && parent in after.db.tasks
      && IndexedCurrent(after, parent)
      && OnlyKeyChanged(st.index, after.index, parent)
      && (st.index.Ready? ==> forall n :: n in NotesOf(after.db.notes, parent) ==> n.id != noteId)
  {
  }
}
