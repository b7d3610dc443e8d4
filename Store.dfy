/** The task store as a value: both tables of tasks.db plus the two
    AUTOINCREMENT sequence values that SQLite keeps for them. Every store
    operation is one atomic transition of this value. */
module Store {
  import opened Schema

  /** `taskSeq` and `historySeq` are the largest ids ever issued in each table
      (the rows of `sqlite_sequence`). A DELETE never lowers them. */
  datatype Db = Db(
    tasks: map<int, Task>,
    history: seq<Entry>,
    taskSeq: nat,
    historySeq: nat)

  /** A freshly created tasks.db: both tables exist and are empty. */
  function Empty(): Db
  {
    Db(map[], [], 0, 0)
  }

  ghost predicate Ascending(h: seq<Entry>)
  {
    forall i, j :: 0 <= i < j < |h| ==> h[i].historyId < h[j].historyId
  }

  /** `SELECT * FROM task_history WHERE task_id=?`: the entries of one task,
      in table order. */
  function EntriesFor(h: seq<Entry>, id: int): (r: seq<Entry>)
    ensures |r| <= |h|
  {
    if h == [] then []
    else
      var rest := EntriesFor(h[..|h| - 1], id);
      if h[|h| - 1].taskId == id then rest + [h[|h| - 1]] else rest
  }

  /** `DELETE FROM task_history WHERE task_id=?`: what is left of the table. */
  function EntriesOtherThan(h: seq<Entry>, id: int): (r: seq<Entry>)
    ensures |r| <= |h|
  {
    if h == [] then []
    else
      var rest := EntriesOtherThan(h[..|h| - 1], id);
      if h[|h| - 1].taskId != id then rest + [h[|h| - 1]] else rest
  }

  /** The rows of `tasks` whose id lies in 1..n, in ascending id order. */
  function TaskRows(m: map<int, Task>, n: int): (r: seq<Task>)
    requires forall k :: k in m ==> m[k].id == k
    ensures forall i, j :: 0 <= i < j < |r| ==> r[i].id < r[j].id
    ensures forall i :: 0 <= i < |r| ==> 1 <= r[i].id <= n
    ensures forall t :: t in r <==> 1 <= t.id <= n && t.id in m && m[t.id] == t
    decreases n
  {
    if n <= 0 then []
    else TaskRows(m, n - 1) + (if n in m then [m[n]] else [])
  }

  /** How many entries of `log` have change type `c`. */
  function Count(log: seq<Entry>, c: ChangeType): nat
  {
    if log == [] then 0
    else Count(log[..|log| - 1], c) + (if log[|log| - 1].changeType == c then 1 else 0)
  }

  /** A task's own history is well formed: it begins with its one and only
      "created" entry, stamped with the task's `created_at`; the task is
      completed exactly when some "completed" entry was logged; `updated_at` is
      NULL exactly when nothing but the creation was logged, and otherwise
      equals the timestamp of the latest entry. */
  ghost predicate WellLogged(t: Task, log: seq<Entry>)
  {
    && |log| >= 1
    && log[0].changeType == Created
    && log[0].timestamp == t.createdAt
    && Count(log, Created) == 1
    && (t.status == Completed <==> Count(log, MarkedCompleted) > 0)
    && (t.updatedAt.None? <==> |log| == 1)
    && (t.updatedAt.Some? ==> log[|log| - 1].timestamp == t.updatedAt.value)
  }

  /** Every task is filed under its own id, which the sequence has issued. */
  ghost predicate TasksFiled(db: Db)
  {
    forall id :: id in db.tasks ==> db.tasks[id].id == id && 1 <= id <= db.taskSeq
  }

  /** History ids ascend in table order and were issued by their sequence. */
  ghost predicate HistoryIdsIssued(db: Db)
  {
    && Ascending(db.history)
    && forall i :: 0 <= i < |db.history| ==> 1 <= db.history[i].historyId <= db.historySeq
  }

  /** No history entry refers to a task that does not exist. */
  ghost predicate NoOrphans(db: Db)
  {
    forall i :: 0 <= i < |db.history| ==> db.history[i].taskId in db.tasks
  }

  ghost predicate AllWellLogged(db: Db)
  {
    forall id :: id in db.tasks ==> WellLogged(db.tasks[id], EntriesFor(db.history, id))
  }

  /** The store's cross-table invariant. */
  ghost predicate Inv(db: Db)
  {
    TasksFiled(db) && HistoryIdsIssued(db) && NoOrphans(db) && AllWellLogged(db)
  }

  // Queries.

  /** `SELECT * FROM tasks`, read in rowid (= ascending id) order. */
  function ListTasks(db: Db): seq<Task>
    requires Inv(db)
  {
    TaskRows(db.tasks, db.taskSeq)
  }

  /** `SELECT * FROM task_history WHERE task_id=?`. */
  function ListHistory(db: Db, id: int): seq<Entry>
  {
    EntriesFor(db.history, id)
  }

  // Transitions. Each is one transaction, committed as a whole.

  /** The id AUTOINCREMENT hands out next: one more than the largest ever issued. */
  function NextTaskId(db: Db): nat
  {
    db.taskSeq + 1
  }

  /** `add_task`: insert the task row, then its "created" history row. */
  function Add(db: Db, title: string, description: string, now: string): Db
  {
    var id := NextTaskId(db);
    var hid := db.historySeq + 1;
    Db(db.tasks[id := Task(id, title, description, Incomplete, now, None)],
       db.history + [Entry(hid, id, Created, CreatedText(title), now)],
       id, hid)
  }

  /** `edit_task`: a missing id changes nothing; otherwise overwrite title,
      description and updated_at and log the old and new titles. */
  function Edit(db: Db, id: int, newTitle: string, newDescription: string, now: string): Db
  {
    if id !in db.tasks then db
    else
      var t := db.tasks[id];
      var hid := db.historySeq + 1;
      Db(db.tasks[id := t.(title := newTitle, description := newDescription, updatedAt := Some(now))],
         db.history + [Entry(hid, id, Updated, UpdatedText(t.title, newTitle), now)],
         db.taskSeq, hid)
  }

  /** `complete_task`: a missing id changes nothing; otherwise set status and
      updated_at and log the title. */
  function Complete(db: Db, id: int, now: string): Db
  {
    if id !in db.tasks then db
    else
      var t := db.tasks[id];
      var hid := db.historySeq + 1;
      Db(db.tasks[id := t.(status := Completed, updatedAt := Some(now))],
         db.history + [Entry(hid, id, MarkedCompleted, CompletedText(t.title), now)],
         db.taskSeq, hid)
  }

  /** `delete_task`: a missing id changes nothing; otherwise remove the task
      row and all of its history rows. */
  function Delete(db: Db, id: int): Db
  {
    if id !in db.tasks then db
    else Db(db.tasks - {id}, EntriesOtherThan(db.history, id), db.taskSeq, db.historySeq)
  }

  /** `reset_system`: `DELETE FROM` both tables; sqlite_sequence is untouched. */
  function Reset(db: Db): Db
  {
    Db(map[], [], db.taskSeq, db.historySeq)
  }

  // Facts about the history filters used by the lemmas.

  lemma EntriesForAppend(h: seq<Entry>, e: Entry, id: int)
    ensures EntriesFor(h + [e], id) == if e.taskId == id then EntriesFor(h, id) + [e] else EntriesFor(h, id)
  {
    assert (h + [e])[..|h + [e]| - 1] == h;
  }

  lemma CountAppend(log: seq<Entry>, e: Entry, c: ChangeType)
    ensures Count(log + [e], c) == Count(log, c) + (if e.changeType == c then 1 else 0)
  {
    assert (log + [e])[..|log + [e]| - 1] == log;
  }

  /** The history of a task holds exactly the table's entries for that task. */
  lemma {:induction false} EntriesForMembers(h: seq<Entry>, id: int)
    ensures forall e :: e in EntriesFor(h, id) <==> e in h && e.taskId == id
  {
    if h != [] {
      var init := h[..|h| - 1];
      EntriesForMembers(init, id);
      assert h == init + [h[|h| - 1]];
    }
  }

  /** Deleting one task's history keeps exactly the other tasks' entries. */
  lemma {:induction false} EntriesOtherThanMembers(h: seq<Entry>, id: int)
    ensures forall e :: e in EntriesOtherThan(h, id) <==> e in h && e.taskId != id
  {
    if h != [] {
      var init := h[..|h| - 1];
      EntriesOtherThanMembers(init, id);
      assert h == init + [h[|h| - 1]];
    }
  }

  /** Filtering keeps table order. */
  lemma {:induction false} EntriesForAscending(h: seq<Entry>, id: int)
    requires Ascending(h)
    ensures Ascending(EntriesFor(h, id))
  {
    if h != [] {
      var init := h[..|h| - 1];
      assert Ascending(init);
      EntriesForAscending(init, id);
      EntriesForMembers(init, id);
      var rest := EntriesFor(init, id);
      forall e | e in rest ensures e.historyId < h[|h| - 1].historyId {
        var i :| 0 <= i < |init| && init[i] == e;
      }
    }
  }

  lemma {:induction false} EntriesOtherThanAscending(h: seq<Entry>, id: int)
    requires Ascending(h)
    ensures Ascending(EntriesOtherThan(h, id))
  {
    if h != [] {
      var init := h[..|h| - 1];
      assert Ascending(init);
      EntriesOtherThanAscending(init, id);
      EntriesOtherThanMembers(init, id);
      var rest := EntriesOtherThan(init, id);
      forall e | e in rest ensures e.historyId < h[|h| - 1].historyId {
        var i :| 0 <= i < |init| && init[i] == e;
      }
    }
  }

  lemma EntriesForNone(h: seq<Entry>, id: int)
    requires forall i :: 0 <= i < |h| ==> h[i].taskId != id
    ensures EntriesFor(h, id) == []
  {
  }

  /** Removing one task's history leaves every other task's history as it was. */
  lemma {:induction false} EntriesForOtherThan(h: seq<Entry>, gone: int, id: int)
    ensures EntriesFor(EntriesOtherThan(h, gone), id) ==
            if id == gone then [] else EntriesFor(h, id)
  {
    if h == [] {
    } else {
      var init := h[..|h| - 1];
      var e := h[|h| - 1];
      EntriesForOtherThan(init, gone, id);
      if e.taskId != gone {
        EntriesForAppend(EntriesOtherThan(init, gone), e, id);
      }
    }
  }

  /** Two maps that agree on the ids 1..n give the same task rows. */
  lemma {:induction false} TaskRowsAgree(m1: map<int, Task>, m2: map<int, Task>, n: int)
    requires forall k :: k in m1 ==> m1[k].id == k
    requires forall k :: k in m2 ==> m2[k].id == k
    requires forall k :: 1 <= k <= n ==> (k in m1 <==> k in m2)
    requires forall k :: 1 <= k <= n && k in m1 ==> m1[k] == m2[k]
    ensures TaskRows(m1, n) == TaskRows(m2, n)
    decreases n
  {
    if n > 0 {
      TaskRowsAgree(m1, m2, n - 1);
    }
  }

  /** A map with no key in 1..n has no task rows. */
  lemma {:induction false} TaskRowsNone(m: map<int, Task>, n: int)
    requires forall k :: k in m ==> m[k].id == k
    requires forall k :: k in m ==> k > n
    ensures TaskRows(m, n) == []
    decreases n
  {
    if n > 0 {
      TaskRowsNone(m, n - 1);
    }
  }
}
