/**
 * The task handlers (controllers/task.go): create, the field merge of update,
 * delete and toggle. None of them touches the search index.
 */
module TaskController {
  import opened Wrappers
  import opened Models
  import opened App

  // ------------------------------------------------------------------ create

  /** The column default of the time unit (models/task.go). */
  const DefaultTimeUnit: string := "minute"

  /**
   * CreateTask: the owner is forced to the caller, the creation time is `now`
   * (milliseconds), and an unset task time defaults to the creation time. On
   * insert the store replaces an empty time unit by its column default, in
   * the row and in the returned task. A clashing primary key makes the
   * insert fail.
   */
  function CreateTask(st: AppState, userId: nat, input: Task, now: int): (r: Reply<Task>)
    ensures input.id in st.db.tasks ==> r == Reject(st, InternalError)
    ensures input.id !in st.db.tasks ==> r.status == Ok && r.body.Some?
    ensures r.status == Ok ==>
      var t := r.body.value;
      && t.userId == userId
      && t.createdAt == now
      && t.taskTime == (if input.taskTime == 0 then now else input.taskTime)
      && t.timeUnit == (if input.timeUnit == "" then DefaultTimeUnit else input.timeUnit)
      && t.timeUnit != ""
      && t == input.(userId := t.userId, createdAt := t.createdAt, taskTime := t.taskTime,
                     timeUnit := t.timeUnit, notes := [])
      && r.state.db.tasks == st.db.tasks[input.id := t]
    ensures r.state.db.notes == st.db.notes
    ensures r.state.index == st.index
    ensures Valid(st) ==> Valid(r.state)
  {
    if input.id in st.db.tasks then Reject(st, InternalError)
    else
      var t := input.(
        userId := userId,
        createdAt := now,
        taskTime := if input.taskTime == 0 then now else input.taskTime,
        timeUnit := if input.timeUnit == "" then DefaultTimeUnit else input.timeUnit,
        notes := []);
      Reply(st.(db := st.db.(tasks := st.db.tasks[t.id := t])), Ok, Some(t))
  }

  // ------------------------------------------------------------------ update

  /** A decoded JSON request value; numbers arrive already converted to integers. */
  datatype Json = JString(text: string) | JBool(flag: bool) | JNumber(number: int) | JNull | JOther

  type JsonObject = map<string, Json>

  /** A column value in the update map handed to the store. */
  datatype Column = TextValue(text: string) | BoolValue(flag: bool) | IntValue(number: int) | NullValue

  /** The columns an update may write. */
  datatype Field = Title | Completed | CompletedAt | TimeSpent | TimeUnit | TaskTime

  /** A field's request key, which is also its column name. */
  function Name(f: Field): string {
    match f
    case Title => "title"
    case Completed => "completed"
    case CompletedAt => "completed_at"
    case TimeSpent => "time_spent"
    case TimeUnit => "time_unit"
    case TaskTime => "task_time"
  }

  type Updates = map<Field, Column>

  /** `input[key].(string)`: a value only when the key is present and holds a string. */
  function StringField(input: JsonObject, f: Field): Option<string> {
    if Name(f) in input && input[Name(f)].JString? then Some(input[Name(f)].text) else None
  }

  function BoolField(input: JsonObject, f: Field): Option<bool> {
    if Name(f) in input && input[Name(f)].JBool? then Some(input[Name(f)].flag) else None
  }

  function NumberField(input: JsonObject, f: Field): Option<int> {
    if Name(f) in input && input[Name(f)].JNumber? then Some(input[Name(f)].number) else None
  }

  /** The task as the response shows it, and the columns to write. */
  datatype Merge = Merge(task: Task, updates: Updates)

  /** The request's value for a field when present with the right type, else the current one. */
  function Or<T>(v: Option<T>, current: T): T {
    if v.Some? then v.value else current
  }

  /** A one-column update when the request carries the field. */
  function TextColumn(f: Field, v: Option<string>): Updates {
    if v.Some? then map[f := TextValue(v.value)] else map[]
  }

  function IntColumn(f: Field, v: Option<int>): Updates {
    if v.Some? then map[f := IntValue(v.value)] else map[]
  }

  /** The request asks for the completion flag the task does not have. */
  predicate Flips(task: Task, input: JsonObject) {
    BoolField(input, Completed) == Some(!task.completed)
  }

  /**
   * UpdateTask's merge. Each field is handled on its own: a recognised key of
   * the right type updates the field and records the column; any other key,
   * or a wrong type, is ignored. Completion changes only when the flag
   * differs, and then the completion time is set to `now` or cleared.
   */
  function MergeUpdate(task: Task, input: JsonObject, now: int): (m: Merge)
    ensures m.task.id == task.id && m.task.userId == task.userId
    ensures m.task.createdAt == task.createdAt && m.task.notes == task.notes
    ensures m.updates == map[] ==> m.task == task
  {
    var flips := Flips(task, input);
    var merged := task.(
      title := Or(StringField(input, Title), task.title),
      completed := if flips then !task.completed else task.completed,
      completedAt := if !flips then task.completedAt else if task.completed then None else Some(now),
      timeSpent := Or(NumberField(input, TimeSpent), task.timeSpent),
      timeUnit := Or(StringField(input, TimeUnit), task.timeUnit),
      taskTime := Or(NumberField(input, TaskTime), task.taskTime));
    var completion :=
      if !flips then map[]
      else map[Completed := BoolValue(!task.completed),
               CompletedAt := if task.completed then NullValue else IntValue(now)];
    var updates :=
      TextColumn(Title, StringField(input, Title)) + completion
      + IntColumn(TimeSpent, NumberField(input, TimeSpent))
      + TextColumn(TimeUnit, StringField(input, TimeUnit))
      + IntColumn(TaskTime, NumberField(input, TaskTime));
    assert updates == map[] ==>
      && StringField(input, Title).None? && !flips && NumberField(input, TimeSpent).None?
      && StringField(input, TimeUnit).None? && NumberField(input, TaskTime).None? by {
      if StringField(input, Title).Some? { assert Title in updates; }
      if flips { assert Completed in updates; }
      if NumberField(input, TimeSpent).Some? { assert TimeSpent in updates; }
      if StringField(input, TimeUnit).Some? { assert TimeUnit in updates; }
      if NumberField(input, TaskTime).Some? { assert TaskTime in updates; }
    }
    Merge(merged, updates)
  }

  /** Title and time unit: a string under the key replaces the field and is written; otherwise untouched. */
  lemma MergeTextFields(task: Task, input: JsonObject, now: int)
    ensures var m := MergeUpdate(task, input, now);
      && (StringField(input, Title).None? ==> m.task.title == task.title && Title !in m.updates)
      && (StringField(input, Title).Some? ==>
            m.task.title == StringField(input, Title).value
            && Title in m.updates && m.updates[Title] == TextValue(m.task.title))
      && (StringField(input, TimeUnit).None? ==> m.task.timeUnit == task.timeUnit && TimeUnit !in m.updates)
      && (StringField(input, TimeUnit).Some? ==>
            m.task.timeUnit == StringField(input, TimeUnit).value
            && TimeUnit in m.updates && m.updates[TimeUnit] == TextValue(m.task.timeUnit))
  {
  }

  /** Time spent and task time: a number under the key replaces the field and is written; otherwise untouched. */
  lemma MergeNumberFields(task: Task, input: JsonObject, now: int)
    ensures var m := MergeUpdate(task, input, now);
      && (NumberField(input, TimeSpent).None? ==> m.task.timeSpent == task.timeSpent && TimeSpent !in m.updates)
      && (NumberField(input, TimeSpent).Some? ==>
            m.task.timeSpent == NumberField(input, TimeSpent).value
            && TimeSpent in m.updates && m.updates[TimeSpent] == IntValue(m.task.timeSpent))
      && (NumberField(input, TaskTime).None? ==> m.task.taskTime == task.taskTime && TaskTime !in m.updates)
      && (NumberField(input, TaskTime).Some? ==>
            m.task.taskTime == NumberField(input, TaskTime).value
            && TaskTime in m.updates && m.updates[TaskTime] == IntValue(m.task.taskTime))
  {
  }

  /**
   * Completion: only a flag that differs from the stored one changes anything;
   * it then sets the completion time to `now` or clears it, and both columns
   * are written.
   */
  lemma MergeCompletion(task: Task, input: JsonObject, now: int)
    ensures var m := MergeUpdate(task, input, now);
      && (BoolField(input, Completed) != Some(!task.completed) ==>
            && m.task.completed == task.completed && m.task.completedAt == task.completedAt
            && Completed !in m.updates && CompletedAt !in m.updates)
      && (BoolField(input, Completed) == Some(!task.completed) ==>
            && m.task.completed == !task.completed
            && m.task.completedAt == (if m.task.completed then Some(now) else None)
            && Completed in m.updates && m.updates[Completed] == BoolValue(m.task.completed)
            && CompletedAt in m.updates
            && m.updates[CompletedAt] == (if m.task.completed then IntValue(now) else NullValue))
  {
  }

  /** A task whose completion time is recorded exactly when it is completed stays so after a merge. */
  lemma MergeKeepsConsistent(task: Task, input: JsonObject, now: int)
    requires CompletionConsistent(task)
    ensures CompletionConsistent(MergeUpdate(task, input, now).task)
  {
  }

  /** A field's current value, as the column the store holds for it. */
  function ValueOf(t: Task, f: Field): Column {
    match f
    case Title => TextValue(t.title)
    case Completed => BoolValue(t.completed)
    case CompletedAt => if t.completedAt.Some? then IntValue(t.completedAt.value) else NullValue
    case TimeSpent => IntValue(t.timeSpent)
    case TimeUnit => TextValue(t.timeUnit)
    case TaskTime => IntValue(t.taskTime)
  }

  /** A column value of the type the field's column holds. */
  predicate Fits(f: Field, c: Column) {
    match f
    case Title => c.TextValue?
    case Completed => c.BoolValue?
    case CompletedAt => c.IntValue? || c.NullValue?
    case TimeSpent => c.IntValue?
    case TimeUnit => c.TextValue?
    case TaskTime => c.IntValue?
  }

  /**
   * What the store does with an update map: each listed column overwrites its
   * field. The key, owner, creation time and loaded notes are never written,
   * and an empty map leaves the row as it was.
   */
  function ApplyUpdates(row: Task, updates: Updates): (r: Task)
    ensures r.id == row.id && r.userId == row.userId && r.createdAt == row.createdAt && r.notes == row.notes
    ensures updates == map[] ==> r == row
  {
    row.(
      title := if Title in updates && updates[Title].TextValue? then updates[Title].text else row.title,
      completed := if Completed in updates && updates[Completed].BoolValue? then updates[Completed].flag else row.completed,
      completedAt :=
        if CompletedAt in updates && updates[CompletedAt].IntValue? then Some(updates[CompletedAt].number)
        else if CompletedAt in updates && updates[CompletedAt].NullValue? then None
        else row.completedAt,
      timeSpent := if TimeSpent in updates && updates[TimeSpent].IntValue? then updates[TimeSpent].number else row.timeSpent,
      timeUnit := if TimeUnit in updates && updates[TimeUnit].TextValue? then updates[TimeUnit].text else row.timeUnit,
      taskTime := if TaskTime in updates && updates[TaskTime].IntValue? then updates[TaskTime].number else row.taskTime)
  }

  /** Each listed column of the right type is written; every other column keeps its value. */
  lemma ApplyUpdatesColumns(row: Task, updates: Updates, f: Field)
    ensures f !in updates ==> ValueOf(ApplyUpdates(row, updates), f) == ValueOf(row, f)
    ensures f in updates && Fits(f, updates[f]) ==> ValueOf(ApplyUpdates(row, updates), f) == updates[f]
  {
    var r := ApplyUpdates(row, updates);
    match f
    case CompletedAt =>
      if f in updates && updates[f].IntValue? {
        assert r.completedAt == Some(updates[f].number);
      }
    case _ =>
  }

  /** Writing the update map to the stored row yields exactly the task the response shows. */
  lemma UpdatesMatchResponse(task: Task, input: JsonObject, now: int)
    ensures ApplyUpdates(task, MergeUpdate(task, input, now).updates) == MergeUpdate(task, input, now).task
  {
    var m := MergeUpdate(task, input, now);
    MergeTextFields(task, input, now);
    MergeNumberFields(task, input, now);
    MergeCompletion(task, input, now);
    var row := ApplyUpdates(task, m.updates);
    assert row.title == m.task.title;
    assert row.completed == m.task.completed && row.completedAt == m.task.completedAt;
    assert row.timeSpent == m.task.timeSpent && row.timeUnit == m.task.timeUnit;
    assert row.taskTime == m.task.taskTime;
  }

  /**
   * UpdateTask: a task that is missing or not the caller's gives 404 and no
   * change; otherwise the merged columns are written (nothing is written when
   * there are none) and the merged task is returned.
   */
  function UpdateTask(st: AppState, userId: nat, taskId: nat, input: JsonObject, now: int): (r: Reply<Task>)
    ensures FindOwnedTask(st.db, taskId, userId).None? ==> r == Reject(st, NotFound)
    ensures FindOwnedTask(st.db, taskId, userId).Some? ==> r.status == Ok && r.body.Some?
    ensures r.status == Ok ==>
      && taskId in st.db.tasks
      && r.body.value == MergeUpdate(st.db.tasks[taskId], input, now).task
      && r.state.db.tasks == st.db.tasks[taskId := r.body.value]
    ensures r.status == Ok && MergeUpdate(st.db.tasks[taskId], input, now).updates == map[] ==> r.state == st
    ensures r.state.db.notes == st.db.notes
    ensures r.state.index == st.index
    ensures Valid(st) ==> Valid(r.state)
  {
    match FindOwnedTask(st.db, taskId, userId)
    case None => Reject(st, NotFound)
    case Some(row) =>
      var m := MergeUpdate(row, input, now);
      if m.updates == map[] then Reply(st, Ok, Some(m.task))
      else
        UpdatesMatchResponse(row, input, now);
        Reply(st.(db := st.db.(tasks := st.db.tasks[taskId := ApplyUpdates(row, m.updates)])), Ok, Some(m.task))
  }

  // ------------------------------------------------------------------ delete

  /**
   * DeleteTask: removes the caller's task row. Its notes stay in the note
   * table and its index document is not removed.
   */
  function DeleteTask(st: AppState, userId: nat, taskId: nat): (r: Reply<string>)
    ensures FindOwnedTask(st.db, taskId, userId).None? ==> r == Reject(st, NotFound)
    ensures FindOwnedTask(st.db, taskId, userId).Some? ==>
      r.status == Ok && r.state.db.tasks == st.db.tasks - {taskId}
    ensures r.state.db.notes == st.db.notes
    ensures r.state.index == st.index
    ensures Valid(st) ==> Valid(r.state)
  {
    match FindOwnedTask(st.db, taskId, userId)
    case None => Reject(st, NotFound)
    case Some(_) => Reply(st.(db := st.db.(tasks := st.db.tasks - {taskId})), Ok, Some("Task deleted"))
  }

  // ------------------------------------------------------------------ toggle

  /**
   * ToggleTask: flips the caller's task's completion; the completion time is
   * `now` when it becomes completed and cleared otherwise.
   */
  function ToggleTask(st: AppState, userId: nat, taskId: nat, now: int): (r: Reply<Task>)
    ensures FindOwnedTask(st.db, taskId, userId).None? ==> r == Reject(st, NotFound)
    ensures FindOwnedTask(st.db, taskId, userId).Some? ==> r.status == Ok && r.body.Some?
    ensures r.status == Ok ==>
      var before := st.db.tasks[taskId];
      var t := r.body.value;
      && taskId in st.db.tasks
      && t.completed == !before.completed
      && CompletionConsistent(t)
      && (t.completed ==> t.completedAt == Some(now))
      && t == before.(completed := t.completed, completedAt := t.completedAt)
      && r.state.db.tasks == st.db.tasks[taskId := t]
    ensures r.state.db.notes == st.db.notes
    ensures r.state.index == st.index
    ensures Valid(st) ==> Valid(r.state)
  {
    match FindOwnedTask(st.db, taskId, userId)
    case None => Reject(st, NotFound)
    case Some(row) =>
      var t := if row.completed then row.(completed := false, completedAt := None)
               else row.(completed := true, completedAt := Some(now));
      Reply(st.(db := st.db.(tasks := st.db.tasks[taskId := t])), Ok, Some(t))
  }

  /**
   * Toggling twice restores the completion flag; an uncompleted task comes
   * back unchanged, a completed one with the second toggle's time.
   */
  lemma ToggleTwice(st: AppState, userId: nat, taskId: nat, now1: int, now2: int)
    requires FindOwnedTask(st.db, taskId, userId).Some?
    requires CompletionConsistent(st.db.tasks[taskId])
    ensures var r2 := ToggleTask(ToggleTask(st, userId, taskId, now1).state, userId, taskId, now2);
      && r2.status == Ok
      && r2.body.value.completed == st.db.tasks[taskId].completed
      && (!st.db.tasks[taskId].completed ==> r2.state == st)
      && (st.db.tasks[taskId].completed ==> r2.body.value == st.db.tasks[taskId].(completedAt := Some(now2)))
  {
    var r1 := ToggleTask(st, userId, taskId, now1);
    assert FindOwnedTask(r1.state.db, taskId, userId).Some?;
    var r2 := ToggleTask(r1.state, userId, taskId, now2);
    if !st.db.tasks[taskId].completed {
      assert r2.state.db.tasks == st.db.tasks;
    }
  }
}
