/** The Python 3 task tool: the same tasks.db and the same commands as the
    Python 2 tool except `reset_system`, with both listings printed through
    `print_table`. */
module TaskManagementSystem {
  import opened Schema
  import Store
  import StoreProperties
  import opened PrintTable

  const TaskHeaders := ["ID", "Title", "Description", "Status", "Created At", "Updated At"]
  const HistoryHeaders := ["History ID", "Task ID", "Change Type", "Description", "Change Timestamp"]

  /** A `tasks` row as `fetchall` returns it: a NULL `updated_at` comes back as None. */
  function TaskCells(t: Task): (cells: seq<Cell>)
    ensures |cells| == |TaskHeaders|
    ensures NullCell in cells <==> t.updatedAt == None
  {
    [IntCell(t.id), TextCell(t.title), TextCell(t.description), TextCell(StatusText(t.status)),
     TextCell(t.createdAt), if t.updatedAt.Some? then TextCell(t.updatedAt.value) else NullCell]
  }

  /** A `task_history` row as `fetchall` returns it. */
  function HistoryCells(e: Entry): (cells: seq<Cell>)
    ensures |cells| == |HistoryHeaders|
    ensures NullCell !in cells
  {
    [IntCell(e.historyId), IntCell(e.taskId), TextCell(ChangeTypeText(e.changeType)),
     TextCell(e.description), TextCell(e.timestamp)]
  }

  function TaskTable(rows: seq<Task>): (table: seq<seq<Cell>>)
    ensures |table| == |rows|
    ensures forall i :: 0 <= i < |rows| ==> table[i] == TaskCells(rows[i])
  {
    seq(|rows|, i requires 0 <= i < |rows| => TaskCells(rows[i]))
  }

  function HistoryTable(entries: seq<Entry>): (table: seq<seq<Cell>>)
    ensures |table| == |entries|
    ensures forall i :: 0 <= i < |entries| ==> table[i] == HistoryCells(entries[i])
  {
    seq(|entries|, i requires 0 <= i < |entries| => HistoryCells(entries[i]))
  }

  class Database {
    /** The `tasks` table, keyed by id. */
    var tasks: map<int, Task>
    /** The `task_history` table, in insertion order. */
    var history: seq<Entry>
    /** The `sqlite_sequence` values of the two tables. */
    var taskSeq: nat
    var historySeq: nat

    function Snapshot(): Store.Db
      reads this
    {
      Store.Db(tasks, history, taskSeq, historySeq)
    }

    ghost predicate Valid()
      reads this
    {
      Store.Inv(Snapshot())
    }

    /** `create_tables` on a new file: both tables exist and are empty. */
    constructor ()
      ensures Valid()
      ensures Snapshot() == Store.Empty()
    {
      tasks := map[];
      history := [];
      taskSeq := 0;
      historySeq := 0;
      StoreProperties.EmptyIsValid();
    }

    /** `add_task`: insert the row, take its id from `lastrowid`, then log
        its creation under that id. */
    method AddTask(title: string, description: string, now: string) returns (id: nat)
      requires Valid()
      modifies this
      ensures Valid()
      ensures Snapshot() == Store.Add(old(Snapshot()), title, description, now)
      ensures id == old(taskSeq) + 1 && id !in old(tasks) && id in tasks
    {
      ghost var before := Snapshot();
      id := taskSeq + 1;
      tasks := tasks[id := Task(id, title, description, Incomplete, now, None)];
      taskSeq := id;
      historySeq := historySeq + 1;
      history := history + [Entry(historySeq, id, Created, CreatedText(title), now)];
      assert Snapshot() == Store.Add(before, title, description, now);
      StoreProperties.AddPreservesInv(before, title, description, now);
    }

    /** `edit_task`: fetch the whole row; if there is none report it and
        change nothing; otherwise overwrite it and log the fetched title and
        the new one. */
    method EditTask(id: int, newTitle: string, newDescription: string, now: string) returns (found: bool)
      requires Valid()
      modifies this
      ensures Valid()
      ensures found <==> id in old(tasks)
      ensures Snapshot() == Store.Edit(old(Snapshot()), id, newTitle, newDescription, now)
    {
      ghost var before := Snapshot();
      if id !in tasks {
        return false;
      }
      var task := tasks[id];
      tasks := tasks[id := task.(title := newTitle, description := newDescription, updatedAt := Some(now))];
      historySeq := historySeq + 1;
      history := history + [Entry(historySeq, id, Updated, UpdatedText(task.title, newTitle), now)];
      found := true;
      assert Snapshot() == Store.Edit(before, id, newTitle, newDescription, now);
      StoreProperties.EditPreservesInv(before, id, newTitle, newDescription, now);
    }

    /** `complete_task`: fetch only the title; if there is no row report it
        and change nothing; otherwise mark the row completed and log the
        title. */
    method CompleteTask(id: int, now: string) returns (found: bool)
      requires Valid()
      modifies this
      ensures Valid()
      ensures found <==> id in old(tasks)
      ensures Snapshot() == Store.Complete(old(Snapshot()), id, now)
    {
      ghost var before := Snapshot();
      if id !in tasks {
        return false;
      }
      var title := tasks[id].title;
      tasks := tasks[id := tasks[id].(status := Completed, updatedAt := Some(now))];
      historySeq := historySeq + 1;
      history := history + [Entry(historySeq, id, MarkedCompleted, CompletedText(title), now)];
      found := true;
      assert Snapshot() == Store.Complete(before, id, now);
      StoreProperties.CompletePreservesInv(before, id, now);
    }

    /** `delete_task`: fetch the row; if there is none report it and change
        nothing; otherwise delete the row and then its history. */
    method DeleteTask(id: int) returns (found: bool)
      requires Valid()
      modifies this
      ensures Valid()
      ensures found <==> id in old(tasks)
      ensures Snapshot() == Store.Delete(old(Snapshot()), id)
    {
      ghost var before := Snapshot();
      if id !in tasks {
        return false;
      }
      tasks := tasks - {id};
      history := Store.EntriesOtherThan(history, id);
      found := true;
      StoreProperties.DeletePreservesInv(before, id);
    }

    /** `view_tasks`, with every cell printed through `str`: "No records found."
        exactly when there is no task, otherwise a header, a rule and one line
        per task. */
    function ViewTasks(): (lines: seq<string>)
      reads this
      requires Valid()
      ensures lines == [NoRecords] <==> tasks == map[]
      ensures tasks != map[] ==> |lines| == |Store.ListTasks(Snapshot())| + 2
    {
      StoreProperties.ListTasksEmpty(Snapshot());
      PrintNoRecords(TaskTable(Store.ListTasks(Snapshot())), TaskHeaders);
      Print(TaskTable(Store.ListTasks(Snapshot())), TaskHeaders)
    }

    /** `view_task_history`: "No records found." exactly when nothing is
        logged for the id, in particular for an id that names no task. */
    function ViewTaskHistory(id: int): (lines: seq<string>)
      reads this
      requires Valid()
      ensures id !in tasks ==> lines == [NoRecords]
      ensures id in tasks ==> |lines| == |Store.ListHistory(Snapshot(), id)| + 2 && |lines| >= 3
    {
      StoreProperties.ListHistoryOfUnknownId(Snapshot(), id);
      PrintNoRecords(HistoryTable(Store.ListHistory(Snapshot(), id)), HistoryHeaders);
      Print(HistoryTable(Store.ListHistory(Snapshot(), id)), HistoryHeaders)
    }
  }

  /** Every task row fills all six columns, so zip keeps them all. */
  lemma TaskColumns(rows: seq<Task>)
    ensures ColumnCount(TaskHeaders, TaskTable(rows)) == |TaskHeaders|
  {
    ColumnCountIsShortest(TaskHeaders, TaskTable(rows));
  }

  /** The task listing is aligned: every line as long as the rule. */
  lemma TaskListingAligned(db: Store.Db)
    requires Store.Inv(db) && db.tasks != map[]
    ensures var lines := Print(TaskTable(Store.ListTasks(db)), TaskHeaders);
            forall l :: l in lines ==> |l| == RuleLength(TaskHeaders, TaskTable(Store.ListTasks(db)))
  {
    StoreProperties.ListTasksEmpty(db);
    PrintAligned(TaskTable(Store.ListTasks(db)), TaskHeaders);
  }

  /** A task table has a NULL among its six columns exactly when some row's
      `updated_at` is NULL. */
  lemma TaskTableHasNull(rows: seq<Task>)
    ensures HasNull(TaskTable(rows), 6) <==> exists i :: 0 <= i < |rows| && rows[i].updatedAt == None
  {
    var table := TaskTable(rows);
    assert forall i :: 0 <= i < |table| ==> table[i][..6] == table[i];
  }

  /** Some listed task has a NULL `updated_at` exactly when some live task has. */
  lemma ListedNeverUpdated(db: Store.Db)
    requires Store.Inv(db)
    ensures var rows := Store.ListTasks(db);
            (exists i :: 0 <= i < |rows| && rows[i].updatedAt == None)
            <==> exists id :: id in db.tasks && db.tasks[id].updatedAt == None
  {
    var rows := Store.ListTasks(db);
    StoreProperties.ListTasksInOrder(db);
    if exists i :: 0 <= i < |rows| && rows[i].updatedAt == None {
      var i :| 0 <= i < |rows| && rows[i].updatedAt == None;
      assert rows[i] in rows;
    }
    if exists id :: id in db.tasks && db.tasks[id].updatedAt == None {
      var id :| id in db.tasks && db.tasks[id].updatedAt == None;
      assert db.tasks[id] in rows;
    }
  }

  /** As written, `view_tasks` raises TypeError exactly when some task has a
      NULL `updated_at`, that is, was never edited nor completed. */
  lemma ViewTasksAsWrittenRaises(db: Store.Db)
    requires Store.Inv(db)
    ensures PrintAsWritten(TaskTable(Store.ListTasks(db)), TaskHeaders).typeError
            <==> exists id :: id in db.tasks && db.tasks[id].updatedAt == None
  {
    var rows := Store.ListTasks(db);
    PrintAsWrittenRaisesOnNull(TaskTable(rows), TaskHeaders);
    ListedNeverUpdated(db);
    if rows == [] {
      StoreProperties.ListTasksEmpty(db);
    } else {
      TaskColumns(rows);
      TaskTableHasNull(rows);
    }
  }

  /** Right after `add_task` the new task's `updated_at` is NULL, so the next
      `view_tasks` raises TypeError, as written. */
  lemma ViewAfterAddRaises(db: Store.Db, title: string, description: string, now: string)
    requires Store.Inv(db)
    ensures var db' := Store.Add(db, title, description, now);
            Store.Inv(db') && PrintAsWritten(TaskTable(Store.ListTasks(db')), TaskHeaders).typeError
  {
    var db' := Store.Add(db, title, description, now);
    StoreProperties.AddPreservesInv(db, title, description, now);
    ViewTasksAsWrittenRaises(db');
    assert db'.tasks[Store.NextTaskId(db)].updatedAt == None;
  }

  /** No history cell is ever NULL, so `view_task_history` prints the table
      as intended even as written. */
  lemma HistoryViewNeverRaises(db: Store.Db, id: int)
    ensures var table := HistoryTable(Store.ListHistory(db, id));
            PrintAsWritten(table, HistoryHeaders) == Printed(Print(table, HistoryHeaders), false)
  {
    var table := HistoryTable(Store.ListHistory(db, id));
    PrintAsWrittenRaisesOnNull(table, HistoryHeaders);
  }
}
