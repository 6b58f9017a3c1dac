/**
  The in-session bookkeeping of the task-time manager: a table of task
  definitions (a name and a positive base time in minutes) and an
  append-only table of time records, each carrying a snapshot of the base
  time that was in force when it was registered.
 */
module TimeTasks {
  import opened Wrappers

  /** A point in time, in minutes on the session's clock. */
  type Instant = real

  /** One row of the task table: `nombre_tarea`, `tiempo_estipulado_base`. */
  datatype TaskDef = TaskDef(name: string, baseMinutes: real)

  /** One row of the record table: `nombre_empleado`, `nombre_tarea`,
      `tiempo_real`, `tiempo_estipulado` (the snapshot) and `fecha_registro`. */
  datatype TimeRecord = TimeRecord(
    employee: string,
    task: string,
    realMinutes: real,
    estimatedMinutes: real,
    registeredAt: Instant)

  // ---------------------------------------------------------------------
  // Case-insensitive task lookup
  // ---------------------------------------------------------------------

  function LowerChar(c: char): char {
    if 'A' <= c <= 'Z' then (c as int + 32) as char else c
  }

  /** Lower-casing of a name (the ASCII letters only): each capital becomes
      the same letter in small case, every other character is kept, and no
      capital is left. */
  function Lower(s: string): (r: string)
    ensures |r| == |s|
    ensures forall i :: 0 <= i < |s| && 'A' <= s[i] <= 'Z' ==>
      'a' <= r[i] <= 'z' && r[i] as int - 'a' as int == s[i] as int - 'A' as int
    ensures forall i :: 0 <= i < |s| && !('A' <= s[i] <= 'Z') ==> r[i] == s[i]
    ensures forall i :: 0 <= i < |r| ==> !('A' <= r[i] <= 'Z')
  {
    seq(|s|, i requires 0 <= i < |s| => LowerChar(s[i]))
  }

  /** Lower-casing a name a second time changes nothing. */
  lemma LowerIsIdempotent(s: string)
    ensures Lower(Lower(s)) == Lower(s)
  {
  }

  /** The row's name equals the typed name once both are lower-cased. */
  predicate Matches(t: TaskDef, name: string) {
    Lower(t.name) == Lower(name)
  }

  /** Position of the first task row whose name matches `name` without regard
      to case, the row the manager goes on to read and update. */
  function FirstMatch(tasks: seq<TaskDef>, name: string): (r: Option<nat>)
    ensures r.Some? ==> r.value < |tasks| && Matches(tasks[r.value], name)
    ensures r.Some? ==> forall j :: 0 <= j < r.value ==> !Matches(tasks[j], name)
    ensures r.None? <==> forall j :: 0 <= j < |tasks| ==> !Matches(tasks[j], name)
  {
    if tasks == [] then None
    else if Matches(tasks[0], name) then Some(0)
    else match FirstMatch(tasks[1..], name)
      case None => None
      case Some(k) => Some(k + 1)
  }

  // ---------------------------------------------------------------------
  // Table invariants
  // ---------------------------------------------------------------------

  /** Every base time is positive and no two names coincide once lower-cased. */
  predicate TasksInvariant(tasks: seq<TaskDef>) {
    && (forall i :: 0 <= i < |tasks| ==> tasks[i].baseMinutes > 0.0)
    && (forall i, j :: 0 <= i < j < |tasks| ==> Lower(tasks[i].name) != Lower(tasks[j].name))
  }

  /** Every snapshot stored in a record is positive. */
  predicate RecordsInvariant(records: seq<TimeRecord>) {
    forall i :: 0 <= i < |records| ==> records[i].estimatedMinutes > 0.0
  }

  /** Under the task invariant the case-insensitive lookup has at most one
      candidate, so taking the first match loses nothing. */
  lemma MatchIsUnique(tasks: seq<TaskDef>, name: string, j: nat)
    requires TasksInvariant(tasks)
    requires j < |tasks| && Matches(tasks[j], name)
    ensures FirstMatch(tasks, name) == Some(j)
  {
  }

  // ---------------------------------------------------------------------
  // The submission, as a function of the two tables
  // ---------------------------------------------------------------------

  /** A supplied base time that is present (not NaN) and strictly positive. */
  predicate IsPositive(base: Option<real>) {
    base.Some? && base.value > 0.0
  }

  /** Outcome of the task-definition phase: rejected, or the new task table
      together with the base time to snapshot onto the record. */
  datatype Resolution = Rejected | Resolved(tasks: seq<TaskDef>, snapshot: real)

  function ResolveTask(tasks: seq<TaskDef>, task: string, base: Option<real>): (r: Resolution)
    ensures r.Rejected? <==> FirstMatch(tasks, task).None? && !IsPositive(base)
    ensures r.Resolved? && IsPositive(base) ==> r.snapshot == base.value
    ensures r.Resolved? && TasksInvariant(tasks) ==> r.snapshot > 0.0
    ensures r.Resolved? ==> |r.tasks| == |tasks| + (if FirstMatch(tasks, task).None? then 1 else 0)
    ensures r.Resolved? ==> forall i :: 0 <= i < |tasks| ==> r.tasks[i].name == tasks[i].name
  {
    match FirstMatch(tasks, task)
    case Some(idx) =>
      if IsPositive(base) then
        Resolved(tasks[idx := TaskDef(tasks[idx].name, base.value)], base.value)
      else
        Resolved(tasks, tasks[idx].baseMinutes)
    case None =>
      if !IsPositive(base) then Rejected
      else Resolved(tasks + [TaskDef(task, base.value)], base.value)
  }

  /** The boolean result of the call and the two tables after it. */
  datatype Outcome = Outcome(ok: bool, tasks: seq<TaskDef>, records: seq<TimeRecord>)

  /** One submission: resolve (or reject) the task definition, then append a
      record with the resolved snapshot. Nothing is written on rejection. */
  function Submit(
    tasks: seq<TaskDef>, records: seq<TimeRecord>,
    employee: string, task: string, realMinutes: real, base: Option<real>, at: Instant): (r: Outcome)
    ensures r.ok <==> FirstMatch(tasks, task).Some? || IsPositive(base)
    ensures !r.ok ==> r.tasks == tasks && r.records == records
    ensures r.ok ==> |r.records| == |records| + 1 && r.records[..|records|] == records
    ensures r.ok ==> var added := r.records[|records|];
      added.employee == employee && added.task == task &&
      added.realMinutes == realMinutes && added.registeredAt == at
  {
    match ResolveTask(tasks, task, base)
    case Rejected => Outcome(false, tasks, records)
    case Resolved(newTasks, snapshot) =>
      Outcome(true, newTasks, records + [TimeRecord(employee, task, realMinutes, snapshot, at)])
  }

  /** The snapshot carried by the record a successful submission appended. */
  function LastSnapshot(r: Outcome): real
    requires |r.records| > 0
  {
    r.records[|r.records| - 1].estimatedMinutes
  }

  /** An unknown task without a usable base time is refused and both tables
      stay as they were. */
  lemma UnknownTaskRejected(
    tasks: seq<TaskDef>, records: seq<TimeRecord>,
    employee: string, task: string, realMinutes: real, base: Option<real>, at: Instant)
    requires forall j :: 0 <= j < |tasks| ==> !Matches(tasks[j], task)
    requires base.None? || base.value <= 0.0
    ensures var r := Submit(tasks, records, employee, task, realMinutes, base, at);
      !r.ok && r.tasks == tasks && r.records == records
  {
  }

  /** An unknown task with a positive base gets exactly one new row, under the
      name as typed, and the record snapshots that base. */
  lemma NewTaskCreated(
    tasks: seq<TaskDef>, records: seq<TimeRecord>,
    employee: string, task: string, realMinutes: real, b: real, at: Instant)
    requires forall j :: 0 <= j < |tasks| ==> !Matches(tasks[j], task)
    requires b > 0.0
    ensures var r := Submit(tasks, records, employee, task, realMinutes, Some(b), at);
      && r.ok
      && r.tasks == tasks + [TaskDef(task, b)]
      && r.records == records + [TimeRecord(employee, task, realMinutes, b, at)]
  {
  }

  /** A known task (matched without regard to case) with a positive base has
      that base overwritten; its name and every other row stay, and the record
      snapshots the new base. */
  lemma ExistingTaskUpdated(
    tasks: seq<TaskDef>, records: seq<TimeRecord>,
    employee: string, task: string, realMinutes: real, b: real, at: Instant, idx: nat)
    requires TasksInvariant(tasks)
    requires idx < |tasks| && Matches(tasks[idx], task)
    requires b > 0.0
    ensures var r := Submit(tasks, records, employee, task, realMinutes, Some(b), at);
      && r.ok
      && |r.tasks| == |tasks|
      && r.tasks[idx] == TaskDef(tasks[idx].name, b)
      && (forall j :: 0 <= j < |tasks| && j != idx ==> r.tasks[j] == tasks[j])
      && r.records == records + [TimeRecord(employee, task, realMinutes, b, at)]
  {
  }

  /** A known task with a missing or non-positive base keeps the task table as
      it is, and the record snapshots the stored base. */
  lemma ExistingTaskKept(
    tasks: seq<TaskDef>, records: seq<TimeRecord>,
    employee: string, task: string, realMinutes: real, base: Option<real>, at: Instant, idx: nat)
    requires TasksInvariant(tasks)
    requires idx < |tasks| && Matches(tasks[idx], task)
    requires base.None? || base.value <= 0.0
    ensures var r := Submit(tasks, records, employee, task, realMinutes, base, at);
      && r.ok
      && r.tasks == tasks
      && r.records == records + [TimeRecord(employee, task, realMinutes, tasks[idx].baseMinutes, at)]
  {
  }

  /** Once a base has been overwritten, a later submission for the same task
      (typed in any case) without a base snapshots the new value. */
  lemma UpdatedBaseIsReused(
    tasks: seq<TaskDef>, records: seq<TimeRecord>,
    employee: string, task: string, realMinutes: real, b: real, at: Instant,
    employee2: string, task2: string, realMinutes2: real, at2: Instant)
    requires TasksInvariant(tasks)
    requires FirstMatch(tasks, task).Some?
    requires Lower(task2) == Lower(task)
    requires b > 0.0
    ensures var first := Submit(tasks, records, employee, task, realMinutes, Some(b), at);
      var second := Submit(first.tasks, first.records, employee2, task2, realMinutes2, None, at2);
      second.ok && second.tasks == first.tasks && LastSnapshot(second) == b
  {
  }

  /** A submission keeps the task invariant: every base stays positive and
      lower-cased names stay distinct, since a row is appended only when no
      name matches and an update touches the base alone. */
  lemma SubmitKeepsTasksInvariant(
    tasks: seq<TaskDef>, records: seq<TimeRecord>,
    employee: string, task: string, realMinutes: real, base: Option<real>, at: Instant)
    requires TasksInvariant(tasks)
    ensures TasksInvariant(Submit(tasks, records, employee, task, realMinutes, base, at).tasks)
  {
  }

  /** Every snapshot a submission stores is positive, because it is either a
      positive supplied base or a stored base, and stored bases are positive. */
  lemma SubmitKeepsRecordsInvariant(
    tasks: seq<TaskDef>, records: seq<TimeRecord>,
    employee: string, task: string, realMinutes: real, base: Option<real>, at: Instant)
    requires TasksInvariant(tasks) && RecordsInvariant(records)
    ensures RecordsInvariant(Submit(tasks, records, employee, task, realMinutes, base, at).records)
  {
  }

  // ---------------------------------------------------------------------
  // Session state and the manager
  // ---------------------------------------------------------------------

  /** An existing table is left as it is; a missing one becomes an empty table. */
  function Initialized<T>(table: Option<seq<T>>): (r: Option<seq<T>>)
    ensures r.Some?
    ensures table.Some? ==> r == table
    ensures table.None? ==> r.value == []
  {
    if table.None? then Some([]) else table
  }

  /** The per-browser-session store: a key that is `None` is not set yet. */
  class Session {
    var records: Option<seq<TimeRecord>>
    var tasks: Option<seq<TaskDef>>

    /** A fresh session holds neither table. */
    constructor ()
      ensures records == None && tasks == None
    {
      records := None;
      tasks := None;
    }

    /** Every table that is present satisfies its invariant. */
    ghost predicate Valid()
      reads this
    {
      && (tasks.Some? ==> TasksInvariant(tasks.value))
      && (records.Some? ==> RecordsInvariant(records.value))
    }
  }

  class TimeTaskManager {
    const session: Session

    /** Both tables exist and satisfy their invariants. */
    ghost predicate Valid()
      reads this, session
    {
      session.Valid() && session.tasks.Some? && session.records.Some?
    }

    /** Binding a manager to a session creates only the tables that are missing. */
    constructor (session: Session)
      requires session.Valid()
      modifies session
      ensures this.session == session && Valid()
      ensures session.records == Initialized(old(session.records))
      ensures session.tasks == Initialized(old(session.tasks))
    {
      this.session := session;
      new;
      InitializeTables();
    }

    /** The body of the initialiser: each table is created only when missing. */
    method InitializeTables()
      requires session.Valid()
      modifies session
      ensures Valid()
      ensures session.records == Initialized(old(session.records))
      ensures session.tasks == Initialized(old(session.tasks))
    {
      if session.records.None? {
        session.records := Some([]);
      }
      if session.tasks.None? {
        session.tasks := Some([]);
      }
    }

    /** Registers one time entry; the result says whether it was accepted. */
    method AddTaskRecord(employee: string, task: string, realMinutes: real, base: Option<real>, at: Instant)
      returns (ok: bool)
      requires Valid()
      modifies session
      ensures Valid()
      ensures var r := Submit(old(session.tasks.value), old(session.records.value),
                              employee, task, realMinutes, base, at);
        ok == r.ok && session.tasks == Some(r.tasks) && session.records == Some(r.records)
    {
      ghost var tasks0, records0 := session.tasks.value, session.records.value;
      SubmitKeepsTasksInvariant(tasks0, records0, employee, task, realMinutes, base, at);
      SubmitKeepsRecordsInvariant(tasks0, records0, employee, task, realMinutes, base, at);
      var tasks := session.tasks.value;
      var found := FirstMatch(tasks, task);
      var snapshot: real;
      if found.Some? {
        var idx := found.value;
        if base.Some? && base.value > 0.0 {
          session.tasks := Some(tasks[idx := TaskDef(tasks[idx].name, base.value)]);
          snapshot := base.value;
        } else {
          snapshot := tasks[idx].baseMinutes;
        }
      } else {
        if base.None? || base.value <= 0.0 {
          return false;
        }
        session.tasks := Some(tasks + [TaskDef(task, base.value)]);
        snapshot := base.value;
      }
      session.records := Some(session.records.value + [TimeRecord(employee, task, realMinutes, snapshot, at)]);
      ok := true;
    }

    /** Re-runs the initialiser, which only creates missing tables, so
        existing data survives. */
    method ClearAllData()
      requires Valid()
      modifies session
      ensures Valid()
      ensures session.records == old(session.records)
      ensures session.tasks == old(session.tasks)
    {
      InitializeTables();
    }

    /** Empties both tables, as the docstring of the clearing operation
        promises. */
    method ResetAllData()
      requires Valid()
      modifies session
      ensures Valid()
      ensures session.records == Some([]) && session.tasks == Some([])
    {
      session.records := Some([]);
      session.tasks := Some([]);
    }
  }

  /** Re-initialising tables that already exist changes nothing, so clearing
      by re-initialisation keeps data: a task defined before the "wipe" still
      accepts a submission without a base, which an empty state refuses. */
  lemma ClearingByInitializationKeepsData()
    ensures var tasks := [TaskDef("Soldar", 30.0)];
      var kept := Initialized(Some(tasks));
      && kept == Some(tasks)
      && Submit(kept.value, [], "Ana", "soldar", 25.0, None, 0.0).ok
      && !Submit([], [], "Ana", "soldar", 25.0, None, 0.0).ok
  {
  }

  /** After a real reset the tables are those of a fresh session, so a
      submission succeeds exactly when a fresh one would: only with a positive
      base, which then defines the task. */
  lemma SubmitOnEmptyState(
    employee: string, task: string, realMinutes: real, base: Option<real>, at: Instant)
    ensures var r := Submit([], [], employee, task, realMinutes, base, at);
      && (r.ok <==> IsPositive(base))
      && (r.ok ==> r.tasks == [TaskDef(task, base.value)] && LastSnapshot(r) == base.value)
      && (!r.ok ==> r.tasks == [] && r.records == [])
  {
  }
}
