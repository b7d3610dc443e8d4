/** The Python 2 task tool: one tasks.db whose two tables every command reads
    or rewrites in place. Each method is one command, committed as a whole. */
module TaskSystem1 {
  import opened Schema
  import Store
  import StoreProperties

  /** Text Python 2's `sqlite3` accepts from `raw_input`: a byte string binds
      only when every byte is ASCII. */
  predicate IsAscii(s: string)
  {
    forall i :: 0 <= i < |s| ==> s[i] as int < 128
  }

  /** How a command that writes text ends: it committed, it found no task, or
      binding a non-ASCII byte string raised `ProgrammingError` before
      anything was committed. */
  datatype Outcome = Done | NotFound | TextRejected

  class Database {
    /** The `tasks` table, keyed by id. */
    var tasks: map<int, Task>
    /** The `task_history` table, in insertion order. */
    var history: seq<Entry>
    /** The `sqlite_sequence` values of the two tables. */
    var taskSeq: nat
    var historySeq: nat

    function Snapshot(): Store.Db
      reads this
    {
      Store.Db(tasks, history, taskSeq, historySeq)
    }

    ghost predicate Valid()
      reads this
    {
      Store.Inv(Snapshot())
    }

    /** `create_tables` on a new file: both tables exist and are empty. */
    constructor ()
      ensures Valid()
      ensures Snapshot() == Store.Empty()
    {
      tasks := map[];
      history := [];
      taskSeq := 0;
      historySeq := 0;
      StoreProperties.EmptyIsValid();
    }

    /** `add_task`: insert the row, take its id from the cursor, then log its
        creation under that id. A non-ASCII title or description makes the
        INSERT raise, and nothing is stored. */
    method AddTask(title: string, description: string, now: string) returns (outcome: Outcome, id: nat)
      requires Valid()
      modifies this
      ensures Valid()
      ensures outcome != NotFound
      ensures outcome == Done <==> IsAscii(title) && IsAscii(description)
      ensures outcome == TextRejected ==> Snapshot() == old(Snapshot())
      ensures outcome == Done ==>
                && Snapshot() == Store.Add(old(Snapshot()), title, description, now)
                && id == old(taskSeq) + 1 && id !in old(tasks) && id in tasks
    {
      if !(IsAscii(title) && IsAscii(description)) {
        return TextRejected, 0;
      }
      ghost var before := Snapshot();
      id := taskSeq + 1;
      tasks := tasks[id := Task(id, title, description, Incomplete, now, None)];
      taskSeq := id;
      historySeq := historySeq + 1;
      history := history + [Entry(historySeq, id, Created, CreatedText(title), now)];
      outcome := Done;
      assert Snapshot() == Store.Add(before, title, description, now);
      StoreProperties.AddPreservesInv(before, title, description, now);
    }

    /** `edit_task`: look the row up; if it is missing report it and change
        nothing; otherwise overwrite it and log the old and the new title. A
        non-ASCII new title or description makes the UPDATE raise, and nothing
        changes. */
    method EditTask(id: int, newTitle: string, newDescription: string, now: string) returns (outcome: Outcome)
      requires Valid()
      modifies this
      ensures Valid()
      ensures outcome == NotFound <==> id !in old(tasks)
      ensures outcome == TextRejected <==> id in old(tasks) && !(IsAscii(newTitle) && IsAscii(newDescription))
      ensures outcome != Done ==> Snapshot() == old(Snapshot())
      ensures outcome == Done ==> Snapshot() == Store.Edit(old(Snapshot()), id, newTitle, newDescription, now)
    {
      if id !in tasks {
        return NotFound;
      }
      if !(IsAscii(newTitle) && IsAscii(newDescription)) {
        return TextRejected;
      }
      ghost var before := Snapshot();
      var task := tasks[id];
      tasks := tasks[id := task.(title := newTitle, description := newDescription, updatedAt := Some(now))];
      historySeq := historySeq + 1;
      history := history + [Entry(historySeq, id, Updated, UpdatedText(task.title, newTitle), now)];
      outcome := Done;
      assert Snapshot() == Store.Edit(before, id, newTitle, newDescription, now);
      StoreProperties.EditPreservesInv(before, id, newTitle, newDescription, now);
    }

    /** `complete_task`: look the row up; if it is missing report it and
        change nothing; otherwise mark it completed and log its title. */
    method CompleteTask(id: int, now: string) returns (found: bool)
      requires Valid()
      modifies this
      ensures Valid()
      ensures found <==> id in old(tasks)
      ensures Snapshot() == Store.Complete(old(Snapshot()), id, now)
    {
      ghost var before := Snapshot();
      if id !in tasks {
        return false;
      }
      var task := tasks[id];
      tasks := tasks[id := task.(status := Completed, updatedAt := Some(now))];
      historySeq := historySeq + 1;
      history := history + [Entry(historySeq, id, MarkedCompleted, CompletedText(task.title), now)];
      found := true;
      assert Snapshot() == Store.Complete(before, id, now);
      StoreProperties.CompletePreservesInv(before, id, now);
    }

    /** `delete_task`: look the row up; if it is missing report it and change
        nothing; otherwise delete the row and then its history. */
    method DeleteTask(id: int) returns (found: bool)
      requires Valid()
      modifies this
      ensures Valid()
      ensures found <==> id in old(tasks)
      ensures Snapshot() == Store.Delete(old(Snapshot()), id)
    {
      ghost var before := Snapshot();
      if id !in tasks {
        return false;
      }
      tasks := tasks - {id};
      history := Store.EntriesOtherThan(history, id);
      found := true;
      StoreProperties.DeletePreservesInv(before, id);
    }

    /** `reset_system`: delete every row of both tables; the sequences stay. */
    method ResetSystem()
      requires Valid()
      modifies this
      ensures Valid()
      ensures Snapshot() == Store.Reset(old(Snapshot()))
      ensures tasks == map[] && history == []
      ensures taskSeq == old(taskSeq) && historySeq == old(historySeq)
    {
      tasks := map[];
      history := [];
    }

    /** `view_tasks`: every live task once, in ascending id order; none when
        the table is empty. */
    function ViewTasks(): (rows: seq<Task>)
      reads this
      requires Valid()
      ensures forall t :: t in rows <==> t.id in tasks && tasks[t.id] == t
      ensures forall i, j :: 0 <= i < j < |rows| ==> rows[i].id < rows[j].id
      ensures rows == [] <==> tasks == map[]
    {
      StoreProperties.ListTasksInOrder(Snapshot());
      StoreProperties.ListTasksEmpty(Snapshot());
      Store.ListTasks(Snapshot())
    }

    /** `view_task_history`: exactly the entries logged for the id, oldest
        first; none for an id that names no task. */
    function ViewTaskHistory(id: int): (entries: seq<Entry>)
      reads this
      requires Valid()
      ensures forall e :: e in entries <==> e in history && e.taskId == id
      ensures forall i, j :: 0 <= i < j < |entries| ==> entries[i].historyId < entries[j].historyId
      ensures id !in tasks ==> entries == []
      ensures id in tasks ==> |entries| >= 1 && entries[0].changeType == Created
    {
      StoreProperties.ListHistoryInOrder(Snapshot(), id);
      StoreProperties.ListHistoryOfUnknownId(Snapshot(), id);
      Store.ListHistory(Snapshot(), id)
    }
  }
}
