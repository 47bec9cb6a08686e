/** The task and note records (models/task.go, models/note.go). Ids are natural numbers. */
module Models {
  import opened Wrappers

  /** A note row; `taskId` names the task it belongs to. */
  datatype Note = Note(id: nat, taskId: nat, content: string, createdAt: int)

  /**
   * A task row. `completedAt` is the nullable completion time in milliseconds,
   * `taskTime` the day the task is scheduled for. `notes` is filled only when
   * the task is loaded together with its notes.
   */
  datatype Task = Task(
    id: nat,
    userId: nat,
    title: string,
    completed: bool,
    createdAt: int,
    completedAt: Option<int>,
    timeSpent: int,
    timeUnit: string,
    taskTime: int,
    notes: seq<Note>)

  /** A completion time is recorded exactly when the task is completed. */
  predicate CompletionConsistent(t: Task) {
    t.completedAt.Some? <==> t.completed
  }
}
