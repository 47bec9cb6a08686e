/**
 * The relational store as the handlers see it: a task table keyed by id and a
 * note table kept in row order. Loading a task "with its notes" lists the
 * note rows that name it, in table order.
 */
module Storage {
  import opened Wrappers
  import opened Models

  datatype Db = Db(tasks: map<nat, Task>, notes: seq<Note>)

  /** Note ids are a primary key. */
  predicate UniqueNoteIds(notes: seq<Note>) {
    forall i, j :: 0 <= i < j < |notes| ==> notes[i].id != notes[j].id
  }

  /** The notes of task `taskId`, in table order. */
  function NotesOf(notes: seq<Note>, taskId: nat): (r: seq<Note>)
    ensures |r| <= |notes|
    ensures forall n :: n in r <==> n in notes && n.taskId == taskId
  {
    if |notes| == 0 then []
    else NotesOf(notes[..|notes| - 1], taskId)
         + (if notes[|notes| - 1].taskId == taskId then [notes[|notes| - 1]] else [])
  }

  /**
   * A task row loaded together with its notes: the row's columns unchanged,
   * and as notes exactly the note rows that name the task.
   */
  function Preload(db: Db, taskId: nat): (t: Task)
    requires taskId in db.tasks
    ensures t.(notes := []) == db.tasks[taskId].(notes := [])
    ensures forall n :: n in t.notes <==> n in db.notes && n.taskId == taskId
  {
    db.tasks[taskId].(notes := NotesOf(db.notes, taskId))
  }

  /** The position of the note row with id `noteId`, if there is one. */
  function FindNote(notes: seq<Note>, noteId: nat): (r: Option<nat>)
    ensures r.Some? ==> r.value < |notes| && notes[r.value].id == noteId
    ensures r.None? <==> forall i :: 0 <= i < |notes| ==> notes[i].id != noteId
    ensures r.Some? ==> forall i :: 0 <= i < r.value ==> notes[i].id != noteId
  {
    if |notes| == 0 then None
    else if notes[0].id == noteId then Some(0)
    else match FindNote(notes[1..], noteId)
      case Some(i) => Some(i + 1)
      case None => None
  }

  /** Appending a note to the table appends it to its own task's notes and to no other task's. */
  lemma {:induction false} NotesOfAppend(notes: seq<Note>, n: Note, taskId: nat)
    ensures NotesOf(notes + [n], taskId)
         == NotesOf(notes, taskId) + (if n.taskId == taskId then [n] else [])
  {
    assert (notes + [n])[..|notes + [n]| - 1] == notes;
  }
}
