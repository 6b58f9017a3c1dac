# Task-time bookkeeping of G-Tiempos, modelled in Dafny

G-Tiempos is a small Streamlit application. It records how long employees
take on tasks, and it compares each record with the task's stipulated
("base") time. All of its state is held in the per-browser-session store
(`st.session_state`), in two tables:

- the task table (`tareas_df`): a task name and a positive base time in minutes;
- the record table (`registros_df`): employee, task name, real time, a
  snapshot of the base time, and the registration time.

This project models the class `TimeTaskManager`, which owns that state, and the
two pure projections the dashboard computes from the record table.

- `wrappers.dfy`: an `Option` datatype.
- `time_tasks.dfy` (module `TimeTasks`):
  - the two row types;
  - case-insensitive lookup of a task (`Lower`, `Matches`, `FirstMatch`);
  - the table invariants;
  - `Submit`, the whole of `add_task_record` as a function of the two tables,
    with lemmas for each of its branches;
  - the classes `Session`, which models the session store, and `TimeTaskManager`.
    In `Session` a table that is `None` is a key that is not set yet.
    `TimeTaskManager.AddTaskRecord` updates the session step by step, as the
    source does. Its postcondition ties the new state and the boolean result
    to `Submit`.
- `reports.dfy` (module `Reports`):
  - the timeline rows with their deviation, end time and status (`Timeline`,
    `Classify`);
  - the per-task summary of the performance chart (`Performance`).

Encoding choices:
- Durations and instants are `real` minutes. These are exact values, not IEEE
  floats.
- A supplied base time that may be NaN is an `Option<real>`.
- The registration time is a parameter of `AddTaskRecord`.
- `str.lower` is modelled as ASCII lower-casing. Only the concrete example
  `ClearingByInitializationKeepsData` depends on how it treats a character
  (it needs `Lower("Soldar") == Lower("soldar")`); every other proof holds for
  any lower-casing.

## Model

| member | source | states |
|---|---|---|
| `TimeTasks.Lower` | app.py:52 | lower-casing keeps the length, turns each capital into the same letter in small case, keeps every other character, and leaves no capital |
| `TimeTasks.LowerIsIdempotent` | app.py:52 | lower-casing an already lower-cased name changes nothing |
| `TimeTasks.FirstMatch` | app.py:51-57 | the result is the first row whose name equals the typed name after lower-casing; it is `None` exactly when no row matches |
| `TimeTasks.MatchIsUnique` | app.py:51-57 | when lower-cased names are distinct, any matching row is the one the lookup selects |
| `TimeTasks.ResolveTask` | app.py:51-75 | the task phase rejects exactly when no row matches and no positive base is given; a positive base is the snapshot; under the invariant every snapshot is positive; a row is added only when no row matched, and no stored name ever changes |
| `TimeTasks.Submit` | app.py:46-91 | the call succeeds exactly when the task exists or a present, positive base is given; on failure both tables are unchanged; on success exactly one record is appended, earlier records are untouched, and the new record holds the employee, the typed task name, the real time and the instant |
| `TimeTasks.UnknownTaskRejected` | app.py:66-70 | no case-insensitive match and a missing or non-positive base: the call returns false and both tables are unchanged |
| `TimeTasks.NewTaskCreated` | app.py:66-88 | no match and a positive base: exactly one task row is appended, with the name as typed and that base, and the new record's snapshot is that base |
| `TimeTasks.ExistingTaskUpdated` | app.py:55-61 | an existing task with a positive base: only that row's base changes, to the new value; its name and every other row stay; the snapshot is the new value |
| `TimeTasks.ExistingTaskKept` | app.py:63-65 | an existing task with a missing or non-positive base: the task table is unchanged and the snapshot is the stored base |
| `TimeTasks.UpdatedBaseIsReused` | app.py:55-65 | after a base is overwritten, a later submission for the same task in any letter case, without a base, succeeds, leaves the task table alone and snapshots the new value |
| `TimeTasks.SubmitKeepsTasksInvariant` | app.py:51-74 | every submission keeps all base times positive and all lower-cased task names distinct |
| `TimeTasks.SubmitKeepsRecordsInvariant` | app.py:58-83 | every submission stores a positive snapshot, so all snapshots stay positive |
| `TimeTasks.Initialized` | app.py:25-40 | initialising gives a table in every case, leaves an existing table as it is, and creates a missing one empty |
| `TimeTasks.Session.constructor` | app.py:25-38 | a fresh session store has neither table |
| `TimeTasks.TimeTaskManager.constructor` | app.py:23-40 | binding a manager to a session creates only the missing tables, and both tables then exist and satisfy their invariants |
| `TimeTasks.TimeTaskManager.InitializeTables` | app.py:25-40 | each table is created empty only when its key is missing; an existing table is kept |
| `TimeTasks.TimeTaskManager.AddTaskRecord` | app.py:46-91 | the result and both new tables are those of `Submit` on the old tables, and the invariants are kept |
| `TimeTasks.TimeTaskManager.ClearAllData` | app.py:93-97 | as written: when both tables exist, clearing leaves both exactly as they were |
| `TimeTasks.ClearingByInitializationKeepsData` | app.py:93-96 | a task defined before clearing still accepts a submission without a base, which an empty state would refuse |
| `TimeTasks.TimeTaskManager.ResetAllData` | app.py:93-96 | as intended: both tables become empty, and the invariants hold |
| `TimeTasks.SubmitOnEmptyState` | app.py:66-74 | on empty tables a submission succeeds exactly when a positive base is given; it then defines the task with that base and snapshots it; otherwise nothing is written |
| `Reports.Classify` | app.py:110-115 | "Con Retraso" exactly when the deviation exceeds the tolerance; "Adelantado" exactly when it is not late and below minus the tolerance; "A Tiempo" exactly when it lies within ±tolerance, ends included |
| `Reports.Deviation` | app.py:108 | the deviation is positive exactly when the real time exceeds the stipulated one, and negative exactly when it falls short |
| `Reports.MeanEstimated` | app.py:111 | the mean times the number of rows is the total stipulated time, and it is positive when every snapshot is |
| `Reports.Tolerance` | app.py:111-113 | with positive snapshots, 10% of the mean stipulated time is positive and below the mean |
| `Reports.Timeline` | app.py:101-117 | no bars for an empty table; otherwise one bar per record, in order, where the end minus the start is the real time, the deviation is real minus stipulated, the status follows the rule against 10% of the mean stipulated time of all rows, and the label is "Con Retraso", "Adelantado" or "A Tiempo" in the order `get_status` tests them |
| `Reports.TimelineStatusOnRecords` | app.py:108-117 | on the records the manager keeps, exactly one status applies: late iff deviation > tolerance, early iff deviation < −tolerance, on time otherwise, and a deviation of exactly ±tolerance is on time |
| `Reports.RowsOf` | app.py:156 | every record in a task's group has that exact (case-sensitive) name and comes from the table, and every record of that name is in the group |
| `Reports.RowsOfAppend` | app.py:156 | appending a record puts it at the end of its own task's group and leaves every other group as it was, which fixes each group in table order with repeats |
| `Reports.SumRealAppend` | app.py:157 | appending a record adds its real time to a group's total |
| `Reports.GroupOfAppendedRecord` | app.py:156-157 | appending a record of a task grows that task's group by one and its total real time by the record's real time |
| `Reports.Summary` | app.py:157-158 | the summary's mean times the group size is the group's total real time, and its stipulated time is that of the group's first record |
| `Reports.Performance` | app.py:151-159 | no summary for an empty table; otherwise one entry per distinct exact task name occurring in the records |
| `Reports.GroupAverageWithin` | app.py:157 | the mean real time of a non-empty group lies within any bounds on its real times |
| `Reports.AverageWithin` | app.py:156-157 | a task's mean real time lies within any bounds on the real times of that task's records |
| `Reports.FirstEstimatedIsEarliest` | app.py:158 | the first record of a task's group is the earliest record of that task in table order |
| `Reports.PerformanceFirstEstimated` | app.py:156-159 | a task's summarised stipulated time is the snapshot of its earliest record |

## Left out

- The Streamlit interface is not modelled. This covers the tabs, the form, the "Acerca de" page, `st.rerun`, and the toast, error, success and warning messages. Only the boolean result of `add_task_record` is kept.
- The form check at app.py:258 and the widget bounds at app.py:250-253 are not modelled. `AddTaskRecord` itself does not demand a non-empty name or a positive real time, so it has no such precondition.
- The plotly and altair charts (app.py:119-148, 161-186) are not modelled. Only the data they are drawn from is: the computed columns `fecha_fin`, `diferencia` and `estado`, and the groupby.
- The Excel export (app.py:188-210) is not modelled. It is a file format produced by openpyxl. The export's `diferencia` column (app.py:194) is the same real-minus-stipulated value as `Reports.Deviation`.
- The record id `reg_<unix seconds>` (app.py:79) is left out. It depends on the wall clock and is not unique.
- `datetime.now()` (app.py:84) is replaced by the `at` parameter.
- Floating point is not modelled. Durations are exact reals, and the factor 0.1 is the exact tenth. NaN appears only as "missing" (`None`).
- `Lower` lower-cases only ASCII letters. Python's full Unicode case mapping is not modelled. The invariant proofs work for any lower-casing.
- `Performance` is a map from task name to summary. The order of pandas' sorted group keys is not modelled, and the chart sorts its bars again anyway.
- `get_all_data` (app.py:42-44) is not modelled. It only returns the two tables, which are fields of `Session` here.
- The pandas row label that `.loc` uses (app.py:57, 60, 65) is modelled as a position in the sequence. Every append uses `ignore_index=True`, so labels and positions coincide.
- No alert dispatch, employee entity or configurable critical threshold is modelled, because app.py has none of them.

## Findings

| source | as written | input that shows it | evidently intended | confidence | as-written member | corrected member |
|---|---|---|---|---|---|---|
| app.py:93-96 | `clear_all_data` only calls `__init__`, and `__init__` creates a table only when its key is missing, so nothing is removed | a session holding the task "Soldar" with base 30; after clearing, submitting "soldar" without a base still succeeds, while an empty state refuses it | both tables reset to empty, as the docstring, the comment at app.py:95 and the button's help text at app.py:304 say | high, not executed | `TimeTasks.TimeTaskManager.ClearAllData`, with `TimeTasks.ClearingByInitializationKeepsData` | `TimeTasks.TimeTaskManager.ResetAllData`, with `TimeTasks.SubmitOnEmptyState` |
