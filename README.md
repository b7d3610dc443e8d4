# Task store with audit history

This project models the two command-line task managers of the repository.
`task_management/task_system1.py` is written for Python 2 and
`task_management_python3/task_management_system.py` for Python 3. Both keep a
SQLite file `tasks.db` with two tables:

- `tasks`: id, title, description, status, created_at, updated_at.
- `task_history`: history_id, task_id, change_type, change_description,
  change_timestamp.

Every command adds, edits, completes or deletes a task and writes the matching
history rows in one transaction. The Python 2 tool can also reset both tables.
The listing commands read the tables back. The Python 3 tool prints its
listings through `print_table`, which sizes each column and joins the padded
cells with `" | "`.

Layout:

- `Schema.dfy` holds the two rows, the stored status and change-type strings,
  and the three history description templates.
- `Store.dfy` holds the two tables as one value `Db`. It also holds the two
  `AUTOINCREMENT` sequence values, the store invariant `Inv`, and each command
  as a pure transition (`Add`, `Edit`, `Complete`, `Delete`, `Reset`).
- `StoreProperties.dfy` proves what each transition does, that each one keeps
  `Inv`, and that a retired id never comes back.
- `TaskSystem1.dfy` and `TaskManagementSystem.dfy` each model one program.
  Each has a `Database` class whose fields are the tables. A method changes the
  fields in place, and its contract ties the new state to the transition of the
  old state.
- `PrintTable.dfy` models `print_table`: the column count that `zip` keeps, the
  widths, the rule, the padding, the lines printed, and what the code does as
  written under Python 3 (see Findings).

The invariant `Inv` has four parts:

- Every task is filed under its id.
- Every id was handed out by the sequence.
- Every history entry names a live task.
- Each live task's own history starts with its one and only "created" entry,
  stamped with `created_at`. The task is completed exactly when a "completed"
  entry exists. `updated_at` is NULL exactly when nothing else was logged, and
  otherwise it equals the latest entry's timestamp.

Some behaviours of the code are worth stating on their own:

- Completing a task that is already completed logs a second "completed" entry
  (`StoreProperties.CompleteTwice`).
- Editing a completed task logs an "updated" entry after the "completed" one.
- Deleting a task also deletes its "created" entry, so no record of a deleted
  task remains in either table.
- `add_task` returns nothing, in both programs. The model's `AddTask` returns
  the new id, which is the cursor's `lastrowid`.
- In the Python 2 program, `raw_input` yields byte strings. Python 2's `sqlite3`
  refuses to bind a byte string holding a non-ASCII byte and raises
  `ProgrammingError`. So `add_task` with a non-ASCII title or description, and
  `edit_task` of an existing task with a non-ASCII new title or description,
  raise before anything is committed. The Python 2 `AddTask` and `EditTask`
  model that path as the outcome `TextRejected`, which leaves both tables
  unchanged. The Python 3 program stores any text.

## Model

| member | source | states |
|---|---|---|
| Schema.StoredTextsAreDistinct | task_management/task_system1.py:42-111 | the stored status and change-type strings are distinct, so a stored string names exactly one status or change |
| Schema.CreatedTextNamesTitle | task_management/task_system1.py:52 | "Task '<title>' was created." starts with "Task '", is 20 characters longer than the title, and gives the title back |
| Schema.UpdatedTextNamesBothTitles | task_management/task_system1.py:82 | the update description holds the old title first and the new title last, at fixed positions |
| Schema.CompletedTextNamesTitle | task_management/task_system1.py:112 | "Task '<title>' was marked as completed." gives the title back |
| Store.TaskRows | task_management/task_system1.py:162-163 | the rows read from the tasks table come in ascending id order, each is a live row, and every live row appears |
| Store.EntriesForMembers | task_management/task_system1.py:178-179 | the rows selected with `task_id=?` are exactly the history rows carrying that task id |
| Store.EntriesOtherThanMembers | task_management/task_system1.py:138 | after `DELETE FROM task_history WHERE task_id=?` exactly the rows with other task ids remain |
| Store.EntriesForOtherThan | task_management/task_system1.py:138 | deleting one task's history leaves every other task's history unchanged and that task's history empty |
| Store.EntriesForAscending | task_management/task_system1.py:178-179 | a task's history keeps the table's ascending history-id order |
| StoreProperties.EmptyIsValid | task_management/task_system1.py:10-35 | freshly created tables satisfy the invariant and list no task |
| StoreProperties.AddPreservesInv | task_management/task_system1.py:38-58 | add keeps the invariant: the new task is filed with its one "created" entry and no history row is orphaned |
| StoreProperties.AddInsertsRow | task_management/task_system1.py:41-48 | add takes an id above every id ever issued, stores an incomplete task with NULL `updated_at` and `created_at` = now, and leaves the other tasks alone |
| StoreProperties.AddLogsCreation | task_management/task_system1.py:50-55 | add appends exactly one history row: "created" for the new id with the created template, stamped with the task's `created_at`; no other task's history changes |
| StoreProperties.AddListsTaskLast | task_management/task_system1.py:44-48 | after add the listing is the old listing followed by the new task |
| StoreProperties.EditPreservesInv | task_management/task_system1.py:62-89 | edit keeps the invariant, on both the found and the not-found path |
| StoreProperties.EditUpdatesRow | task_management/task_system1.py:69-78 | edit of a missing id changes nothing; otherwise it replaces title and description and sets `updated_at`, and keeps status, `created_at`, the id set and all other tasks |
| StoreProperties.EditLogsUpdate | task_management/task_system1.py:80-85 | edit appends one "updated" entry with the fetched title then the new title, stamped with the new `updated_at`; no other history changes |
| StoreProperties.CompletePreservesInv | task_management/task_system1.py:92-119 | complete keeps the invariant, on both paths |
| StoreProperties.CompleteUpdatesRow | task_management/task_system1.py:99-108 | complete of a missing id changes nothing; otherwise it sets status completed and `updated_at`, and keeps title, description, `created_at` and all other tasks |
| StoreProperties.CompleteLogsCompletion | task_management/task_system1.py:110-115 | complete appends one "completed" entry naming the title, stamped with the new `updated_at`; no other history changes |
| StoreProperties.CompleteTwice | task_management/task_system1.py:106-115 | completing twice leaves the task completed and logs two "completed" entries |
| StoreProperties.DeletePreservesInv | task_management/task_system1.py:122-142 | delete keeps the invariant: removing the row together with its history orphans nothing |
| StoreProperties.DeleteRemovesRow | task_management/task_system1.py:127-135 | delete of a missing id changes nothing; otherwise exactly that row goes, the others and both sequences stay, and the listing no longer shows the id |
| StoreProperties.DeleteRemovesHistory | task_management/task_system1.py:137-138 | delete removes exactly the history rows of that task, adds none, and leaves every other task's history as it was |
| StoreProperties.ResetPreservesInv | task_management/task_system1.py:145-155 | reset keeps the invariant |
| StoreProperties.ResetEmptiesTables | task_management/task_system1.py:149-151 | after reset both listings are empty, the sequences are unchanged, and the next id is above every id issued before |
| StoreProperties.ListTasksInOrder | task_management/task_system1.py:162-163 | the task listing holds exactly the live tasks, in ascending id order |
| StoreProperties.ListTasksEmpty | task_management/task_system1.py:163-166 | the listing is empty exactly when no task exists |
| StoreProperties.ListHistoryInOrder | task_management/task_system1.py:178-179 | a task's history listing holds exactly the entries logged for it, in insertion order |
| StoreProperties.ListHistoryOfUnknownId | task_management/task_system1.py:178-182 | an id with no task has an empty history; a live task's history starts with its "created" entry |
| StoreProperties.ApplyPreservesInv | task_management/task_system1.py:38-155 | every command keeps the invariant and never lowers the task sequence |
| StoreProperties.RunPreservesInv | task_management/task_system1.py:38-155 | any sequence of commands keeps the invariant |
| StoreProperties.RetiredIdsNeverReturn | task_management/task_system1.py:16 | an id that was issued and is no longer live stays absent after any sequence of commands, because `AUTOINCREMENT` never hands it out again |
| TaskSystem1.Database.constructor | task_management/task_system1.py:10-35 | the new store is empty and valid |
| TaskSystem1.Database.AddTask | task_management/task_system1.py:38-59 | with ASCII title and description the tables become `Add` of the old tables and the returned id is fresh and now live; with a non-ASCII one the INSERT is refused and nothing changes; the invariant holds either way |
| TaskSystem1.Database.EditTask | task_management/task_system1.py:62-89 | reports a missing id and changes nothing; for an existing id with a non-ASCII new title or description the UPDATE is refused and nothing changes; otherwise the tables become `Edit` of the old tables; the invariant holds |
| TaskSystem1.Database.CompleteTask | task_management/task_system1.py:92-119 | reports whether the id was found; the tables become `Complete` of the old tables; the invariant holds |
| TaskSystem1.Database.DeleteTask | task_management/task_system1.py:122-142 | reports whether the id was found; the tables become `Delete` of the old tables; the invariant holds |
| TaskSystem1.Database.ResetSystem | task_management/task_system1.py:145-155 | both tables are empty, the sequences are unchanged, and the invariant holds |
| TaskSystem1.Database.ViewTasks | task_management/task_system1.py:158-171 | the rows shown are exactly the live tasks, in ascending id order, and there are none exactly when no task exists |
| TaskSystem1.Database.ViewTaskHistory | task_management/task_system1.py:174-187 | the entries shown are exactly those logged for the id, oldest first; none for an unknown id; a live task's first entry is "created" |
| TaskManagementSystem.TaskCells | task_management_python3/task_management_system.py:78-79 | a fetched task row has six cells, and it has a NULL cell exactly when `updated_at` is NULL |
| TaskManagementSystem.HistoryCells | task_management_python3/task_management_system.py:91-92 | a fetched history row has five cells and no NULL |
| TaskManagementSystem.Database.constructor | task_management_python3/task_management_system.py:10-35 | the new store is empty and valid |
| TaskManagementSystem.Database.AddTask | task_management_python3/task_management_system.py:38-56 | the tables become `Add` of the old tables, the invariant holds, and the returned id is fresh and now live |
| TaskManagementSystem.Database.EditTask | task_management_python3/task_management_system.py:100-123 | reports whether the id was found; the tables become `Edit` of the old tables; the invariant holds |
| TaskManagementSystem.Database.CompleteTask | task_management_python3/task_management_system.py:126-149 | fetches only the title; reports whether the id was found; the tables become `Complete` of the old tables; the invariant holds |
| TaskManagementSystem.Database.DeleteTask | task_management_python3/task_management_system.py:152-168 | reports whether the id was found; the tables become `Delete` of the old tables; the invariant holds |
| TaskManagementSystem.Database.ViewTasks | task_management_python3/task_management_system.py:74-84 | prints "No records found." exactly when no task exists, and otherwise a header, a rule and one line per task |
| TaskManagementSystem.Database.ViewTaskHistory | task_management_python3/task_management_system.py:87-97 | prints "No records found." for an id with no task, and otherwise a header, a rule and one line per logged entry, at least one |
| TaskManagementSystem.TaskColumns | task_management_python3/task_management_system.py:64 | `zip` keeps all six task columns |
| TaskManagementSystem.TaskListingAligned | task_management_python3/task_management_system.py:64-71 | in a non-empty task listing every printed line is as long as the rule |
| TaskManagementSystem.TaskTableHasNull | task_management_python3/task_management_system.py:79-82 | the task table holds a NULL exactly when some listed task has a NULL `updated_at` |
| TaskManagementSystem.ListedNeverUpdated | task_management_python3/task_management_system.py:78-79 | some listed task has a NULL `updated_at` exactly when some live task has |
| TaskManagementSystem.ViewTasksAsWrittenRaises | task_management_python3/task_management_system.py:70-82 | as written, `view_tasks` raises TypeError exactly when some task was never edited nor completed |
| TaskManagementSystem.ViewAfterAddRaises | task_management_python3/task_management_system.py:44-52 | as written, `view_tasks` right after `add_task` always raises TypeError |
| TaskManagementSystem.HistoryViewNeverRaises | task_management_python3/task_management_system.py:87-95 | as written, `view_task_history` prints exactly the intended table, because history cells are never NULL |
| PrintTable.Digits | task_management_python3/task_management_system.py:64 | `str` of a natural number is a non-empty run of digits, with a leading zero only for zero |
| PrintTable.DigitsRoundTrip | task_management_python3/task_management_system.py:64 | reading the digits back gives the number |
| PrintTable.StrIntRoundTrip | task_management_python3/task_management_system.py:64 | `str` of any integer, sign included, reads back as that integer |
| PrintTable.ColumnCount | task_management_python3/task_management_system.py:64 | `zip(headers, *data)` keeps no more columns than the headers or any row has |
| PrintTable.ColumnCountIsShortest | task_management_python3/task_management_system.py:64 | the number of columns kept equals the number of headers or the length of some row |
| PrintTable.ColumnWidthIsMax | task_management_python3/task_management_system.py:64 | a column's width is at least its header's length and each of its cells' `str` lengths, and equals one of them |
| PrintTable.WidthsFitColumns | task_management_python3/task_management_system.py:64 | every kept column's width is the maximum over its header and cells |
| PrintTable.PadKeepsText | task_management_python3/task_management_system.py:65 | `"{:<w}"` keeps the text and fills with spaces only |
| PrintTable.FormatFieldsLength | task_management_python3/task_management_system.py:65 | a formatted line whose fields fit is sum(widths) + 3·(columns − 1) long |
| PrintTable.FieldAt | task_management_python3/task_management_system.py:65 | field j of a formatted line sits at sum of the earlier widths + 3·j and holds its text padded to its width |
| PrintTable.Rule | task_management_python3/task_management_system.py:68 | `"-" * n` is n dashes, and none when n is not positive |
| PrintTable.PrintNoRecords | task_management_python3/task_management_system.py:60-62 | no rows, and only no rows, print the single "No records found." line with no header; otherwise the header, the rule and one line per row |
| PrintTable.PrintRule | task_management_python3/task_management_system.py:68 | the second line is sum(widths) + 3·(len(headers) − 1) dashes |
| PrintTable.PrintShowsHeaders | task_management_python3/task_management_system.py:67 | every kept column of the header line holds its header, padded, at the column's offset |
| PrintTable.PrintShowsCells | task_management_python3/task_management_system.py:70-71 | every kept column of a row's line holds the cell's `str`, padded, at the same offset as its header |
| PrintTable.PrintAligned | task_management_python3/task_management_system.py:64-71 | when every row covers every header, all printed lines have the rule's length |
| PrintTable.RowsAsWrittenSpec | task_management_python3/task_management_system.py:70-71 | as written, the row loop raises exactly when a row holds a NULL; what it printed is a prefix of the intended row lines, and all of them when it does not raise |
| PrintTable.RowsAsWrittenStop | task_management_python3/task_management_system.py:70-71 | as written, every row printed before the raise is free of NULLs, and the row that raised, the one right after them, holds a NULL |
| PrintTable.PrintAsWrittenRaisesOnNull | task_management_python3/task_management_system.py:59-71 | as written, `print_table` raises TypeError exactly when a kept cell is NULL; what it printed is a prefix of the intended table, and the whole table when it does not raise |
| PrintTable.PrintAsWrittenStopsAtNull | task_management_python3/task_management_system.py:67-71 | as written, `print_table` prints the header, the rule and the lines of the rows before the first row with a kept NULL, and raises on that row |

## Left out

- `main` in both programs is left out. It covers the menu loop, prompting, parsing ids with `int(...)`, the menu text and `sys.exit`; none of it touches the tables except through the modelled commands.
- The messages each command prints are left out: "Task added successfully.", "Task updated successfully.", "Task marked as completed.", "Task deleted successfully.", the reset message and "Task not found.". A "Task not found." becomes a returned `found == false` (Python 3, and Python 2 complete and delete) or the outcome `NotFound` (Python 2 edit).
- Opening, committing and closing the connection are left out. Each command is one atomic method. The connection that is never closed on the not-found path is a resource leak with no effect on the tables.
- The clock is left out. `datetime.now()` becomes the `now` parameter, and only equalities between timestamps are stated.
- SQLite's rowid scan order is assumed, not derived. `SELECT * FROM tasks` without `ORDER BY` is modelled as ascending id order.
- `AUTOINCREMENT` is modelled as one more than the largest id ever issued. The failure once the largest 64-bit id has been used is left out.
- TaskSystem1.Database.EditTask, TaskSystem1.Database.CompleteTask, TaskSystem1.Database.DeleteTask and TaskSystem1.Database.ViewTaskHistory take an unbounded integer id. Python's `sqlite3` raises `OverflowError` when it binds an id outside the signed 64-bit range, so those calls crash where the model reports a missing task or an empty history.
- TaskManagementSystem.Database.EditTask, TaskManagementSystem.Database.CompleteTask, TaskManagementSystem.Database.DeleteTask and TaskManagementSystem.Database.ViewTaskHistory take an unbounded integer id as well. Outside the signed 64-bit range the program raises `OverflowError`, where the model reports a missing task or prints "No records found.".
- The `FOREIGN KEY` clause is not enforced by SQLite by default. No orphan history row is a proved invariant, not a schema check.
- `create_tables` on an existing file does nothing and keeps its rows. Only the first run, with empty tables, is modelled.
- A NULL `description` is not modelled. Both programs always pass the text read from the prompt.
- Storage errors are not modelled: a full disk, a locked or corrupt file.
- TaskSystem1.Database.ViewTasks returns the rows and does not model the printed text. That text is one line per task, or "No tasks found.".
- TaskSystem1.Database.ViewTaskHistory returns the entries and does not model the printed text. That text is one line per entry, or "No history found for this task.".
- TaskManagementSystem.Database.ViewTasks models the corrected listing; the listing as written is stated by TaskManagementSystem.ViewTasksAsWrittenRaises.
- Python 3's `str` of a float or of other types is not modelled. A cell is an integer, a text or NULL, which is all that the two tables hold.

## Findings

| source | as written | input that shows it | evidently intended | confidence | as-written member | corrected member |
|---|---|---|---|---|---|---|
| task_management_python3/task_management_system.py:71 | each row is printed with `format_str.format(*row)`; in Python 3 `format(None, "<w")` raises TypeError, because `NoneType.__format__` refuses a non-empty format spec | `add_task("Buy milk", "2%")` on an empty store, then `view_tasks()`: the new row's `updated_at` is NULL, so after the header and the rule the call raises TypeError | print `str(cell)` padded to the column width (the widths on line 64 are already measured on `str(item)`, where NULL is "None"), as the Python 2 program prints None as "None" | not executed; high | TaskManagementSystem.ViewAfterAddRaises | TaskManagementSystem.Database.ViewTasks |

The code as written is `PrintTable.PrintAsWritten`.
`TaskManagementSystem.ViewAfterAddRaises` shows that it raises right after any `add_task`.
`TaskManagementSystem.ViewTasksAsWrittenRaises` shows that it raises exactly when some task was never edited nor completed.
`PrintTable.PrintAsWrittenStopsAtNull` shows what is printed before the raise: the header, the rule and the lines of the rows before the first row with a NULL.
The corrected table is `PrintTable.Print`.
`PrintTable.PrintAligned`, `PrintTable.PrintShowsHeaders` and `PrintTable.PrintShowsCells` prove that its lines are aligned and hold every cell's `str`.
`TaskManagementSystem.Database.ViewTasks` uses the corrected table.
