/** What the store's operations promise: each preserves the cross-table
    invariant, each changes exactly what it names and nothing else, and ids
    issued by AUTOINCREMENT never come back. */
module StoreProperties {
  import opened Schema
  import opened Store

  // One task's history, one entry at a time.

  lemma FirstEntryWellLogged(t: Task, e: Entry)
    requires e.changeType == Created && e.timestamp == t.createdAt
    requires t.status == Incomplete && t.updatedAt == None
    ensures WellLogged(t, [e])
  {
    CountAppend([], e, Created);
    CountAppend([], e, MarkedCompleted);
  }

  /** Logging an edit or a completion keeps a task's history well formed,
      provided the row changes the way the entry says. */
  lemma NextEntryWellLogged(t: Task, log: seq<Entry>, t': Task, e: Entry)
    requires WellLogged(t, log)
    requires e.changeType != Created
    requires t'.createdAt == t.createdAt && t'.updatedAt == Some(e.timestamp)
    requires t'.status == Completed <==> t.status == Completed || e.changeType == MarkedCompleted
    ensures WellLogged(t', log + [e])
  {
    CountAppend(log, e, Created);
    CountAppend(log, e, MarkedCompleted);
  }

  /** Appending one entry extends its own task's history by that entry and
      leaves every other task's history as it was. */
  lemma AppendLogs(h: seq<Entry>, e: Entry)
    ensures EntriesFor(h + [e], e.taskId) == EntriesFor(h, e.taskId) + [e]
    ensures forall k :: k != e.taskId ==> EntriesFor(h + [e], k) == EntriesFor(h, k)
  {
    EntriesForAppend(h, e, e.taskId);
    forall k | k != e.taskId ensures EntriesFor(h + [e], k) == EntriesFor(h, k) {
      EntriesForAppend(h, e, k);
    }
  }

  lemma AscendingAppend(db: Db, tasks: map<int, Task>, taskSeq: nat, e: Entry)
    requires HistoryIdsIssued(db)
    requires e.historyId == db.historySeq + 1
    ensures HistoryIdsIssued(Db(tasks, db.history + [e], taskSeq, db.historySeq + 1))
  {
  }

  // Invariant preservation, one lemma per operation.

  lemma EmptyIsValid()
    ensures Inv(Empty())
    ensures ListTasks(Empty()) == []
  {
    TaskRowsNone(map[], 0);
  }

  lemma AddKeepsLogs(db: Db, title: string, description: string, now: string)
    requires Inv(db)
    ensures AllWellLogged(Add(db, title, description, now))
  {
    var id := NextTaskId(db);
    var t := Task(id, title, description, Incomplete, now, None);
    var e := Entry(db.historySeq + 1, id, Created, CreatedText(title), now);
    assert Add(db, title, description, now) == Db(db.tasks[id := t], db.history + [e], id, db.historySeq + 1);
    AppendLogs(db.history, e);
    EntriesForNone(db.history, id);
    FirstEntryWellLogged(t, e);
  }

  lemma AddPreservesInv(db: Db, title: string, description: string, now: string)
    requires Inv(db)
    ensures Inv(Add(db, title, description, now))
  {
    var db' := Add(db, title, description, now);
    AscendingAppend(db, db'.tasks, db'.taskSeq, db'.history[|db.history|]);
    AddKeepsLogs(db, title, description, now);
  }

  /** Overwriting one live row and logging one non-creation entry for it
      keeps every task's history well formed, provided the row changes the way
      the entry says. Edit and Complete are both such a step. */
  lemma StepKeepsLogs(db: Db, id: int, t': Task, e: Entry)
    requires AllWellLogged(db)
    requires id in db.tasks && e.taskId == id && e.changeType != Created
    requires t'.createdAt == db.tasks[id].createdAt && t'.updatedAt == Some(e.timestamp)
    requires t'.status == Completed <==> db.tasks[id].status == Completed || e.changeType == MarkedCompleted
    ensures AllWellLogged(Db(db.tasks[id := t'], db.history + [e], db.taskSeq, db.historySeq + 1))
  {
    AppendLogs(db.history, e);
    NextEntryWellLogged(db.tasks[id], EntriesFor(db.history, id), t', e);
  }

  lemma StepKeepsRows(db: Db, id: int, t': Task, e: Entry)
    requires TasksFiled(db) && NoOrphans(db)
    requires id in db.tasks && t'.id == id && e.taskId == id
    ensures TasksFiled(Db(db.tasks[id := t'], db.history + [e], db.taskSeq, db.historySeq + 1))
    ensures NoOrphans(Db(db.tasks[id := t'], db.history + [e], db.taskSeq, db.historySeq + 1))
  {
  }

  lemma StepPreservesInv(db: Db, id: int, t': Task, e: Entry)
    requires Inv(db)
    requires id in db.tasks && t'.id == id && e.taskId == id && e.changeType != Created
    requires e.historyId == db.historySeq + 1
    requires t'.createdAt == db.tasks[id].createdAt && t'.updatedAt == Some(e.timestamp)
    requires t'.status == Completed <==> db.tasks[id].status == Completed || e.changeType == MarkedCompleted
    ensures Inv(Db(db.tasks[id := t'], db.history + [e], db.taskSeq, db.historySeq + 1))
  {
    AscendingAppend(db, db.tasks[id := t'], db.taskSeq, e);
    StepKeepsRows(db, id, t', e);
    StepKeepsLogs(db, id, t', e);
  }

  lemma EditPreservesInv(db: Db, id: int, newTitle: string, newDescription: string, now: string)
    requires Inv(db)
    ensures Inv(Edit(db, id, newTitle, newDescription, now))
  {
    if id in db.tasks {
      var t := db.tasks[id];
      var t' := t.(title := newTitle, description := newDescription, updatedAt := Some(now));
      var e := Entry(db.historySeq + 1, id, Updated, UpdatedText(t.title, newTitle), now);
      assert Edit(db, id, newTitle, newDescription, now) == Db(db.tasks[id := t'], db.history + [e], db.taskSeq, db.historySeq + 1);
      StepPreservesInv(db, id, t', e);
    }
  }

  lemma CompletePreservesInv(db: Db, id: int, now: string)
    requires Inv(db)
    ensures Inv(Complete(db, id, now))
  {
    if id in db.tasks {
      var t := db.tasks[id];
      var t' := t.(status := Completed, updatedAt := Some(now));
      var e := Entry(db.historySeq + 1, id, MarkedCompleted, CompletedText(t.title), now);
      assert Complete(db, id, now) == Db(db.tasks[id := t'], db.history + [e], db.taskSeq, db.historySeq + 1);
      StepPreservesInv(db, id, t', e);
    }
  }

  lemma DeletePreservesInv(db: Db, id: int)
    requires Inv(db)
    ensures Inv(Delete(db, id))
  {
    if id in db.tasks {
      var db' := Delete(db, id);
      EntriesOtherThanMembers(db.history, id);
      assert HistoryIdsIssued(db') by {
        EntriesOtherThanAscending(db.history, id);
        forall i | 0 <= i < |db'.history|
          ensures 1 <= db'.history[i].historyId <= db'.historySeq
        {
          assert db'.history[i] in db.history;
        }
      }
      assert NoOrphans(db') by {
        forall i | 0 <= i < |db'.history| ensures db'.history[i].taskId in db'.tasks {
          assert db'.history[i] in db.history;
        }
      }
      assert AllWellLogged(db') by {
        forall k | k in db'.tasks
          ensures WellLogged(db'.tasks[k], EntriesFor(db'.history, k))
        {
          EntriesForOtherThan(db.history, id, k);
        }
      }
    }
  }

  lemma ResetPreservesInv(db: Db)
    requires Inv(db)
    ensures Inv(Reset(db))
  {
  }

  // add_task

  /** The new id is larger than every id ever issued, so it names no task;
      the new row is an incomplete task with a NULL updated_at; no other row
      changes. */
  lemma AddInsertsRow(db: Db, title: string, description: string, now: string)
    requires Inv(db)
    ensures var id := NextTaskId(db);
            id !in db.tasks && id > db.taskSeq && forall k :: k in db.tasks ==> k < id
    ensures var id, db' := NextTaskId(db), Add(db, title, description, now);
            && db'.tasks.Keys == db.tasks.Keys + {id}
            && db'.tasks[id] == Task(id, title, description, Incomplete, now, None)
            && (forall k :: k in db.tasks ==> db'.tasks[k] == db.tasks[k])
            && db'.taskSeq == id
  {
  }

  /** The new task's history is exactly one "created" entry naming the
      title, stamped with created_at; every other history is unchanged. */
  lemma AddLogsCreation(db: Db, title: string, description: string, now: string)
    requires TasksFiled(db) && NoOrphans(db)
    ensures var id, db' := NextTaskId(db), Add(db, title, description, now);
            && ListHistory(db', id) == [Entry(db.historySeq + 1, id, Created, CreatedText(title), now)]
            && ListHistory(db', id)[0].timestamp == db'.tasks[id].createdAt
            && (forall k :: k != id ==> ListHistory(db', k) == ListHistory(db, k))
            && |db'.history| == |db.history| + 1
  {
    var id := NextTaskId(db);
    AppendLogs(db.history, Entry(db.historySeq + 1, id, Created, CreatedText(title), now));
    EntriesForNone(db.history, id);
  }

  /** `view_tasks` after `add_task` lists the old tasks, then the new one. */
  lemma AddListsTaskLast(db: Db, title: string, description: string, now: string)
    requires Inv(db)
    ensures Inv(Add(db, title, description, now))
    ensures var db' := Add(db, title, description, now);
            ListTasks(db') == ListTasks(db) + [db'.tasks[NextTaskId(db)]]
  {
    var id, db' := NextTaskId(db), Add(db, title, description, now);
    AddPreservesInv(db, title, description, now);
    assert TaskRows(db'.tasks, id) == TaskRows(db'.tasks, db.taskSeq) + [db'.tasks[id]];
    TaskRowsAgree(db'.tasks, db.tasks, db.taskSeq);
  }

  // edit_task

  /** A missing id changes nothing. Otherwise title, description and
      updated_at are overwritten, status and created_at are kept, and no other
      task changes. */
  lemma EditUpdatesRow(db: Db, id: int, newTitle: string, newDescription: string, now: string)
    requires TasksFiled(db)
    ensures id !in db.tasks ==> Edit(db, id, newTitle, newDescription, now) == db
    ensures id in db.tasks ==>
            var t, db' := db.tasks[id], Edit(db, id, newTitle, newDescription, now);
            && db'.tasks.Keys == db.tasks.Keys
            && db'.tasks[id].id == id
            && db'.tasks[id].title == newTitle && db'.tasks[id].description == newDescription
            && db'.tasks[id].updatedAt == Some(now)
            && db'.tasks[id].status == t.status && db'.tasks[id].createdAt == t.createdAt
            && (forall k :: k in db.tasks && k != id ==> db'.tasks[k] == db.tasks[k])
            && db'.taskSeq == db.taskSeq
  {
  }

  /** On an existing id the task's history gains exactly one "updated" entry
      naming the old and the new title, stamped with the new updated_at;
      every other history is unchanged. */
  lemma EditLogsUpdate(db: Db, id: int, newTitle: string, newDescription: string, now: string)
    requires id in db.tasks
    ensures var db' := Edit(db, id, newTitle, newDescription, now);
            && ListHistory(db', id) == ListHistory(db, id) +
                 [Entry(db.historySeq + 1, id, Updated, UpdatedText(db.tasks[id].title, newTitle), now)]
            && (forall k :: k != id ==> ListHistory(db', k) == ListHistory(db, k))
            && |db'.history| == |db.history| + 1
  {
    AppendLogs(db.history, Entry(db.historySeq + 1, id, Updated, UpdatedText(db.tasks[id].title, newTitle), now));
  }

  // complete_task

  /** A missing id changes nothing. Otherwise status becomes completed and
      updated_at is set; title, description and created_at are kept, and no
      other task changes. */
  lemma CompleteUpdatesRow(db: Db, id: int, now: string)
    requires TasksFiled(db)
    ensures id !in db.tasks ==> Complete(db, id, now) == db
    ensures id in db.tasks ==>
            var t, db' := db.tasks[id], Complete(db, id, now);
            && db'.tasks.Keys == db.tasks.Keys
            && db'.tasks[id].id == id
            && db'.tasks[id].status == Completed && db'.tasks[id].updatedAt == Some(now)
            && db'.tasks[id].title == t.title && db'.tasks[id].description == t.description
            && db'.tasks[id].createdAt == t.createdAt
            && (forall k :: k in db.tasks && k != id ==> db'.tasks[k] == db.tasks[k])
            && db'.taskSeq == db.taskSeq
  {
  }

  /** On an existing id the task's history gains exactly one "completed"
      entry naming the title; every other history is unchanged. */
  lemma CompleteLogsCompletion(db: Db, id: int, now: string)
    requires id in db.tasks
    ensures var db' := Complete(db, id, now);
            && ListHistory(db', id) == ListHistory(db, id) +
                 [Entry(db.historySeq + 1, id, MarkedCompleted, CompletedText(db.tasks[id].title), now)]
            && (forall k :: k != id ==> ListHistory(db', k) == ListHistory(db, k))
            && |db'.history| == |db.history| + 1
  {
    AppendLogs(db.history, Entry(db.historySeq + 1, id, MarkedCompleted, CompletedText(db.tasks[id].title), now));
  }

  /** Completing a task twice is allowed: it stays completed and its history
      gains two "completed" entries, both naming the title. */
  lemma CompleteTwice(db: Db, id: int, now1: string, now2: string)
    requires Inv(db)
    requires id in db.tasks
    ensures var db2 := Complete(Complete(db, id, now1), id, now2);
            && db2.tasks[id].status == Completed
            && db2.tasks[id].updatedAt == Some(now2)
            && ListHistory(db2, id) == ListHistory(db, id) +
                 [Entry(db.historySeq + 1, id, MarkedCompleted, CompletedText(db.tasks[id].title), now1),
                  Entry(db.historySeq + 2, id, MarkedCompleted, CompletedText(db.tasks[id].title), now2)]
  {
    var db1 := Complete(db, id, now1);
    CompleteLogsCompletion(db, id, now1);
    CompletePreservesInv(db, id, now1);
    CompleteLogsCompletion(db1, id, now2);
  }

  // delete_task

  /** A missing id changes nothing. Otherwise the row is gone, every other row
      is untouched, the sequences are kept, and `view_tasks` no longer lists it. */
  lemma DeleteRemovesRow(db: Db, id: int)
    requires Inv(db)
    ensures id !in db.tasks ==> Delete(db, id) == db
    ensures id in db.tasks ==>
            var db' := Delete(db, id);
            && db'.tasks.Keys == db.tasks.Keys - {id}
            && (forall k :: k in db'.tasks ==> db'.tasks[k] == db.tasks[k])
            && db'.taskSeq == db.taskSeq && db'.historySeq == db.historySeq
    ensures Inv(Delete(db, id)) && forall t :: t in ListTasks(Delete(db, id)) ==> t.id != id
  {
    DeletePreservesInv(db, id);
  }

  /** On an existing id every history entry of the task is gone, no entry is
      added, and every other task's history is untouched. */
  lemma DeleteRemovesHistory(db: Db, id: int)
    requires Inv(db)
    requires id in db.tasks
    ensures var db' := Delete(db, id);
            && ListHistory(db', id) == []
            && (forall e :: e in db'.history <==> e in db.history && e.taskId != id)
            && (forall k :: k != id ==> ListHistory(db', k) == ListHistory(db, k))
  {
    EntriesOtherThanMembers(db.history, id);
    forall k {
      EntriesForOtherThan(db.history, id, k);
    }
  }

  // reset_system

  /** Both tables are empty afterwards, but the sequences are kept, so the
      next task gets an id larger than every id ever issued. */
  lemma ResetEmptiesTables(db: Db)
    ensures Inv(Reset(db))
    ensures ListTasks(Reset(db)) == []
    ensures forall id :: ListHistory(Reset(db), id) == []
    ensures Reset(db).taskSeq == db.taskSeq && Reset(db).historySeq == db.historySeq
    ensures NextTaskId(Reset(db)) > db.taskSeq
  {
    TaskRowsNone(map[], db.taskSeq);
  }

  // view_tasks

  /** Exactly the live tasks, in ascending id order. */
  lemma ListTasksInOrder(db: Db)
    requires Inv(db)
    ensures forall t :: t in ListTasks(db) <==> t.id in db.tasks && db.tasks[t.id] == t
    ensures var r := ListTasks(db);
            forall i, j :: 0 <= i < j < |r| ==> r[i].id < r[j].id
  {
  }

  /** The listing is empty exactly when there is no task. */
  lemma ListTasksEmpty(db: Db)
    requires Inv(db)
    ensures ListTasks(db) == [] <==> db.tasks == map[]
  {
    if db.tasks == map[] {
      TaskRowsNone(db.tasks, db.taskSeq);
    } else {
      assert exists id :: id in db.tasks by {
        if forall id :: id !in db.tasks {
          assert false;
        }
      }
      var id :| id in db.tasks;
      assert db.tasks[id] in ListTasks(db);
    }
  }

  // view_task_history

  /** Exactly the entries of that task, oldest first. */
  lemma ListHistoryInOrder(db: Db, id: int)
    requires Inv(db)
    ensures forall e :: e in ListHistory(db, id) <==> e in db.history && e.taskId == id
    ensures var r := ListHistory(db, id);
            forall i, j :: 0 <= i < j < |r| ==> r[i].historyId < r[j].historyId
  {
    EntriesForMembers(db.history, id);
    EntriesForAscending(db.history, id);
  }

  /** A live task's history starts with its "created" entry; an unknown id
      has no history at all. */
  lemma ListHistoryOfUnknownId(db: Db, id: int)
    requires Inv(db)
    ensures id in db.tasks ==> |ListHistory(db, id)| >= 1 && ListHistory(db, id)[0].changeType == Created
    ensures id !in db.tasks ==> ListHistory(db, id) == []
  {
    if id !in db.tasks {
      EntriesForNone(db.history, id);
    }
  }

  // Sequences of operations.

  datatype Op =
    | AddOp(title: string, description: string, now: string)
    | EditOp(id: int, newTitle: string, newDescription: string, now: string)
    | CompleteOp(id: int, now: string)
    | DeleteOp(id: int)
    | ResetOp

  function Apply(db: Db, op: Op): Db
  {
    match op
    case AddOp(title, description, now) => Add(db, title, description, now)
    case EditOp(id, newTitle, newDescription, now) => Edit(db, id, newTitle, newDescription, now)
    case CompleteOp(id, now) => Complete(db, id, now)
    case DeleteOp(id) => Delete(db, id)
    case ResetOp => Reset(db)
  }

  function Run(db: Db, ops: seq<Op>): Db
    decreases |ops|
  {
    if ops == [] then db else Run(Apply(db, ops[0]), ops[1..])
  }

  /** Every operation keeps the invariant, and none lowers the task sequence. */
  lemma ApplyPreservesInv(db: Db, op: Op)
    requires Inv(db)
    ensures Inv(Apply(db, op))
    ensures Apply(db, op).taskSeq >= db.taskSeq
  {
    match op
    case AddOp(title, description, now) => AddPreservesInv(db, title, description, now);
    case EditOp(id, newTitle, newDescription, now) => EditPreservesInv(db, id, newTitle, newDescription, now);
    case CompleteOp(id, now) => CompletePreservesInv(db, id, now);
    case DeleteOp(id) => DeletePreservesInv(db, id);
    case ResetOp => ResetPreservesInv(db);
  }

  /** Starting from a valid store, no sequence of operations ever leaves an
      orphan history entry or a task without its one "created" entry. */
  lemma {:induction false} RunPreservesInv(db: Db, ops: seq<Op>)
    requires Inv(db)
    ensures Inv(Run(db, ops))
    decreases |ops|
  {
    if ops != [] {
      ApplyPreservesInv(db, ops[0]);
      RunPreservesInv(Apply(db, ops[0]), ops[1..]);
    }
  }

  /** Ids are never reused: an id that was issued and no longer names a task
      (deleted, or wiped by a reset) never names a task again, whatever
      operations follow. */
  lemma {:induction false} RetiredIdsNeverReturn(db: Db, ops: seq<Op>, id: int)
    requires Inv(db)
    requires id <= db.taskSeq && id !in db.tasks
    ensures id !in Run(db, ops).tasks
    ensures Run(db, ops).taskSeq >= db.taskSeq
    decreases |ops|
  {
    if ops != [] {
      var db1 := Apply(db, ops[0]);
      ApplyPreservesInv(db, ops[0]);
      assert id !in db1.tasks;
      RetiredIdsNeverReturn(db1, ops[1..], id);
    }
  }
}
