/**
 * The task routes of app.py over the task table, and the background
 * execution they dispatch. The caller's session identity is a parameter
 * (`None` when no `user_id` is in the session); each daemon thread that a
 * start route spawns is an entry of the multiset `scheduled`, and the
 * thread's run of `execute_task` is the separate step `Complete`.
 */
module App {
  import opened Wrappers
  import opened Database

  /**
   * What a route answers: a JSON envelope with `code` 0 (`Ok`) or 1
   * (`Refused`), or no envelope at all because an exception escaped the
   * route (`Uncaught`, an HTTP 500 from Flask).
   */
  datatype Reply = Ok | Refused | Uncaught

  /** One element of the `tasks` list in a batch-create request; a missing key reads as `None`. */
  datatype TaskInput = TaskInput(name: Option<string>, url: Option<string>)

  /** The `data` object of a status reply. */
  datatype StatusInfo = StatusInfo(status: Status, result: Option<int>)

  /** Both columns declared `nullable=False` are present. */
  predicate HasFields(e: TaskInput)
  {
    e.name.Some? && e.url.Some?
  }

  /** Index of the first entry whose save fails, or the length when every entry saves. */
  function FirstIncomplete(entries: seq<TaskInput>): (p: nat)
    ensures p <= |entries|
    ensures forall i :: 0 <= i < p ==> HasFields(entries[i])
    ensures p < |entries| ==> !HasFields(entries[p])
  {
    if entries == [] || !HasFields(entries[0]) then 0 else 1 + FirstIncomplete(entries[1..])
  }

  /**
   * What holds of every row between requests, given whether an execution
   * of its id is still scheduled: a waiting task has no result, a running
   * task has an execution on its way, and a terminal status always comes
   * with its own result code (1 finished, 0 failed). A waiting task may
   * still have an execution scheduled: that of a deleted task whose id the
   * table handed out again.
   */
  predicate Consistent(t: Task, scheduled: bool)
  {
    && (t.result == None || t.result == Some(0) || t.result == Some(1))
    && (t.status == Waiting ==> t.result == None)
    && (t.status == Running ==> scheduled)
    && (t.status == Finished ==> t.result == Some(1))
    && (t.status == Failed ==> t.result == Some(0))
  }

  /** The rows the first `n` entries of a batch become, saved from id `start` on. */
  function Created(start: nat, owner: UserId, entries: seq<TaskInput>, n: nat): map<nat, Task>
    requires n <= FirstIncomplete(entries)
  {
    if n == 0 then map[]
    else
      var e := entries[n - 1];
      Created(start, owner, entries, n - 1)[start + n - 1 := Task(start + n - 1, owner, e.name.value, e.url.value, Waiting, None)]
  }

  /** `Created` holds exactly the ids from `start` on, the `j`-th of them made from the `j`-th entry. */
  lemma {:induction false} CreatedAt(start: nat, owner: UserId, entries: seq<TaskInput>, n: nat)
    requires n <= FirstIncomplete(entries)
    ensures forall k :: k in Created(start, owner, entries, n) <==> start <= k < start + n
    ensures forall j :: 0 <= j < n ==>
      Created(start, owner, entries, n)[start + j]
      == Task(start + j, owner, entries[j].name.value, entries[j].url.value, Waiting, None)
  {
    if n > 0 {
      CreatedAt(start, owner, entries, n - 1);
    }
  }

  /**
   * Adding the rows of a batch to a table whose ids are all below `start`
   * keeps every old row, and adds exactly the ids from `start` on.
   */
  lemma AddedRows(base: map<nat, Task>, start: nat, owner: UserId, entries: seq<TaskInput>, n: nat)
    requires n <= FirstIncomplete(entries)
    requires forall k :: k in base ==> k < start
    ensures forall k :: k in base + Created(start, owner, entries, n) <==> k in base || start <= k < start + n
    ensures forall k :: k in base ==> (base + Created(start, owner, entries, n))[k] == base[k]
    ensures forall j :: 0 <= j < n ==>
      (base + Created(start, owner, entries, n))[start + j]
      == Task(start + j, owner, entries[j].name.value, entries[j].url.value, Waiting, None)
  {
    CreatedAt(start, owner, entries, n);
  }

  /** Rows added by a batch are waiting without a result, so every row stays consistent. */
  lemma CreatedConsistent(base: map<nat, Task>, start: nat, owner: UserId, entries: seq<TaskInput>, n: nat, scheduled: multiset<nat>)
    requires n <= FirstIncomplete(entries)
    requires forall k :: k in base ==> Consistent(base[k], k in scheduled)
    ensures forall k :: k in base + Created(start, owner, entries, n) ==>
      Consistent((base + Created(start, owner, entries, n))[k], k in scheduled)
  {
    var added := Created(start, owner, entries, n);
    CreatedAt(start, owner, entries, n);
    forall k | k in base + added
      ensures Consistent((base + added)[k], k in scheduled)
    {
      if k in added {
        assert added[k] == Task(k, owner, entries[k - start].name.value, entries[k - start].url.value, Waiting, None);
      }
    }
  }

  /** The ids of a list of rows. */
  function IdsOf(rows: seq<Task>): set<nat>
  {
    set i | 0 <= i < |rows| :: rows[i].id
  }

  /** The rows `batch_start_task` selects: listed, owned by `owner`, and waiting. */
  function StartedIds(m: map<nat, Task>, ids: seq<int>, owner: UserId): set<nat>
  {
    set k | k in m && Matches(m[k], owner, Some(ids), Some(Waiting))
  }

  /** The table after `update_status('running')` on each row of `selected`. */
  function SetRunning(m: map<nat, Task>, selected: set<nat>): map<nat, Task>
  {
    map k | k in m :: if k in selected then WithStatus(m[k], Running, None) else m[k]
  }

  /** The table after `batch_start_task`: the selected rows are running, with their results kept. */
  function StartedAll(m: map<nat, Task>, ids: seq<int>, owner: UserId): map<nat, Task>
  {
    SetRunning(m, StartedIds(m, ids, owner))
  }

  /** The rows `batch_delete_task` selects: listed and owned by `owner`, whatever their status. */
  function DeletedIds(m: map<nat, Task>, ids: seq<int>, owner: UserId): set<nat>
  {
    set k | k in m && Matches(m[k], owner, Some(ids), None)
  }

  /**
   * A batch start changes exactly the listed, owned, waiting rows: they
   * become running and keep everything else; every other row is untouched.
   */
  lemma StartedAllChangesOnlySelected(m: map<nat, Task>, ids: seq<int>, owner: UserId)
    requires forall k :: k in m ==> m[k].id == k
    ensures StartedAll(m, ids, owner).Keys == m.Keys
    ensures forall k :: k in m ==>
      var t, u := m[k], StartedAll(m, ids, owner)[k];
      && (k in ids && t.owner == owner && t.status == Waiting ==> u == t.(status := Running))
      && (!(k in ids && t.owner == owner && t.status == Waiting) ==> u == t)
  {
  }

  /**
   * Repeating a batch start with the same ids starts nothing more: no
   * selected row is still waiting, so none can be started twice.
   */
  lemma StartedAllSettles(m: map<nat, Task>, ids: seq<int>, owner: UserId)
    ensures StartedIds(StartedAll(m, ids, owner), ids, owner) == {}
    ensures StartedAll(StartedAll(m, ids, owner), ids, owner) == StartedAll(m, ids, owner)
  {
    var m' := StartedAll(m, ids, owner);
    forall k | k in m'
      ensures k !in StartedIds(m', ids, owner)
    {
      if k in StartedIds(m, ids, owner) {
        assert m'[k].status == Running;
      }
    }
  }

  /**
   * The ids of a query result are exactly the selection it was asked for,
   * given that the result holds only selected rows and every selected row.
   */
  lemma QueryIdsAreSelection(rows: seq<Task>, m: map<nat, Task>, selected: set<nat>)
    requires forall k :: k in m ==> m[k].id == k
    requires forall j :: 0 <= j < |rows| ==> rows[j].id in selected
    requires forall k :: k in selected ==> k in m && m[k] in rows
    ensures IdsOf(rows) == selected
  {
    forall k | k in selected ensures k in IdsOf(rows) {
      var j :| 0 <= j < |rows| && rows[j] == m[k];
    }
  }

  /** One more row of an ascending query result adds its id, which is new. */
  lemma IdsOfPrefix(rows: seq<Task>, i: nat)
    requires i < |rows|
    requires forall a, b :: 0 <= a < b < |rows| ==> rows[a].id < rows[b].id
    ensures rows[i].id !in IdsOf(rows[..i])
    ensures IdsOf(rows[..i + 1]) == IdsOf(rows[..i]) + {rows[i].id}
  {
    assert rows[..i + 1] == rows[..i] + [rows[i]];
    assert forall j :: 0 <= j < i ==> rows[..i][j].id < rows[i].id;
  }

  /** Rows set running with an execution scheduled each keep the per-row invariant. */
  lemma SetRunningKeepsConsistent(m: map<nat, Task>, scheduled: multiset<nat>, selected: set<nat>)
    requires forall k :: k in m ==> Consistent(m[k], k in scheduled)
    ensures forall k :: k in m ==> Consistent(SetRunning(m, selected)[k], k in scheduled + multiset(selected))
  {
  }

  /** The application: the task table and the executions its start routes have dispatched. */
  class TaskApp {
    const db: TaskTable
    var scheduled: multiset<nat>

    ghost predicate Valid()
      reads this, db
    {
      && db.Valid()
      && (forall k :: k in db.tasks ==> Consistent(db.tasks[k], k in scheduled))
    }

    constructor ()
      ensures Valid() && fresh(db)
      ensures db.tasks == map[] && db.NextId() == 1 && scheduled == multiset{}
    {
      db := new TaskTable();
      scheduled := multiset{};
    }

    /** `create_task`: one new waiting row owned by the caller. */
    method CreateTask(caller: Option<UserId>, name: Option<string>, url: Option<string>) returns (reply: Reply)
      requires Valid()
      modifies this, db
      ensures Valid() && scheduled == old(scheduled)
      ensures caller.None? ==> reply == Refused && db.tasks == old(db.tasks)
      ensures caller.Some? && (name.None? || url.None?) ==>
        reply == Uncaught && db.tasks == old(db.tasks)
      ensures caller.Some? && name.Some? && url.Some? ==>
        && reply == Ok
        && old(db.NextId()) !in old(db.tasks)
        && db.tasks == old(db.tasks)[old(db.NextId()) := Task(old(db.NextId()), caller.value, name.value, url.value, Waiting, None)]
        && db.NextId() == old(db.NextId()) + 1
    {
      if caller.None? {
        return Refused;
      }
      if name.None? || url.None? {
        // the NOT NULL constraint on `name` / `url` makes the commit raise
        return Uncaught;
      }
      var _ := db.Save(caller.value, name.value, url.value, Waiting);
      reply := Ok;
    }

    /**
     * `batch_create_task`: saves the entries one by one; an entry lacking a
     * field makes its save raise, which is caught, so the entries before it
     * stay created and the reply is code 1.
     */
    method BatchCreateTask(caller: Option<UserId>, entries: seq<TaskInput>) returns (reply: Reply, reported: nat)
      requires Valid()
      modifies this, db
      ensures Valid() && scheduled == old(scheduled)
      ensures caller.None? || entries == [] ==>
        reply == Refused && reported == 0 && db.tasks == old(db.tasks)
      ensures caller.Some? && entries != [] ==>
        var p := FirstIncomplete(entries);
        && reply == (if p == |entries| then Ok else Refused)
        && reported == (if p == |entries| then |entries| else 0)
        && db.NextId() == old(db.NextId()) + p
        && db.tasks == old(db.tasks) + Created(old(db.NextId()), caller.value, entries, p)
    {
      if caller.None? || entries == [] {
        return Refused, 0;
      }
      var created := SaveEntries(caller.value, entries);
      CreatedConsistent(old(db.tasks), old(db.NextId()), caller.value, entries, created, scheduled);
      if created == |entries| {
        reply, reported := Ok, |entries|;
      } else {
        reply, reported := Refused, 0;
      }
    }

    /**
     * The loop of `batch_create_task`: the entries are saved in order as
     * waiting rows until the first one lacking a field.
     */
    method SaveEntries(owner: UserId, entries: seq<TaskInput>) returns (created: nat)
      requires db.Valid()
      modifies db
      ensures db.Valid()
      ensures created == FirstIncomplete(entries)
      ensures db.NextId() == old(db.NextId()) + created
      ensures db.tasks == old(db.tasks) + Created(old(db.NextId()), owner, entries, created)
    {
      ghost var start := db.NextId();
      NextRowIdBounds(db.tasks.Keys);
      created := 0;
      while created < |entries| && HasFields(entries[created])
        invariant 0 <= created <= FirstIncomplete(entries)
        invariant db.Valid()
        invariant db.NextId() == start + created
        invariant db.tasks == old(db.tasks) + Created(start, owner, entries, created)
      {
        SaveEntry(owner, entries, created, start, old(db.tasks));
        created := created + 1;
      }
    }

    /** One turn of that loop: entry `n` is saved under the next id, `start + n`. */
    method SaveEntry(owner: UserId, entries: seq<TaskInput>, n: nat, ghost start: nat, ghost base: map<nat, Task>)
      requires n < FirstIncomplete(entries)
      requires db.Valid() && db.NextId() == start + n
      requires db.tasks == base + Created(start, owner, entries, n)
      modifies db
      ensures db.Valid() && db.NextId() == start + n + 1
      ensures db.tasks == base + Created(start, owner, entries, n + 1)
    {
      var e := entries[n];
      var id := db.Save(owner, e.name.value, e.url.value, Waiting);
    }

    /**
     * `start_task`: an owned row becomes running and gets an execution
     * scheduled, whatever its status was; its result is kept.
     */
    method StartTask(caller: Option<UserId>, id: nat) returns (reply: Reply)
      requires Valid()
      modifies this, db
      ensures Valid()
      ensures caller.None? || id !in old(db.tasks) || old(db.tasks)[id].owner != caller.value ==>
        reply == Refused && db.tasks == old(db.tasks) && scheduled == old(scheduled)
      ensures caller.Some? && id in old(db.tasks) && old(db.tasks)[id].owner == caller.value ==>
        && reply == Ok
        && db.tasks == old(db.tasks)[id := old(db.tasks)[id].(status := Running)]
        && scheduled == old(scheduled) + multiset{id}
    {
      if caller.None? {
        return Refused;
      }
      if id !in db.tasks || db.tasks[id].owner != caller.value {
        return Refused;
      }
      db.UpdateStatus(id, Running, None);
      scheduled := scheduled + multiset{id};
      reply := Ok;
    }

    /**
     * `batch_start_task`: exactly the listed rows that the caller owns and
     * that are waiting become running, one execution scheduled for each.
     */
    method BatchStartTask(caller: Option<UserId>, ids: seq<int>) returns (reply: Reply)
      requires Valid()
      modifies this, db
      ensures Valid()
      ensures caller.None? ==> reply == Refused && db.tasks == old(db.tasks) && scheduled == old(scheduled)
      ensures caller.Some? ==>
        && reply == Ok
        && db.tasks == StartedAll(old(db.tasks), ids, caller.value)
        && scheduled == old(scheduled) + multiset(StartedIds(old(db.tasks), ids, caller.value))
    {
      if caller.None? {
        return Refused;
      }
      var rows := db.Query(caller.value, Some(ids), Some(Waiting));
      ghost var selected := StartedIds(db.tasks, ids, caller.value);
      QueryIdsAreSelection(rows, db.tasks, selected);
      DispatchRows(rows);
      assert scheduled == old(scheduled) + multiset(selected);
      SetRunningKeepsConsistent(old(db.tasks), old(scheduled), selected);
      reply := Ok;
    }

    /**
     * The loop of `batch_start_task`: each row of a query result is set
     * running and gets a thread, and nothing else changes.
     */
    method DispatchRows(rows: seq<Task>)
      requires db.Valid()
      requires forall j :: 0 <= j < |rows| ==> rows[j].id in db.tasks
      requires forall i, j :: 0 <= i < j < |rows| ==> rows[i].id < rows[j].id
      modifies this, db
      ensures db.Valid()
      ensures db.tasks == SetRunning(old(db.tasks), IdsOf(rows))
      ensures forall k :: scheduled[k] == old(scheduled)[k] + if k in IdsOf(rows) then 1 else 0
    {
      var i := 0;
      while i < |rows|
        invariant 0 <= i <= |rows|
        invariant db.Valid()
        invariant db.tasks == SetRunning(old(db.tasks), IdsOf(rows[..i]))
        invariant forall k :: scheduled[k] == old(scheduled)[k] + if k in IdsOf(rows[..i]) then 1 else 0
      {
        var id := rows[i].id;
        IdsOfPrefix(rows, i);
        assert SetRunning(old(db.tasks), IdsOf(rows[..i + 1])) == db.tasks[id := WithStatus(db.tasks[id], Running, None)];
        db.UpdateStatus(id, Running, None);
        scheduled := scheduled + multiset{id};
        i := i + 1;
      }
      assert rows[..|rows|] == rows;
    }

    /**
     * `execute_task` once its thread has run: the row under that id, if
     * there is one, ends finished with result 1 or failed with result 0, as
     * `ok` says (the outcome `random.choice` draws in the source). When the
     * started task was deleted and its id reused, that row is the new one.
     */
    method Complete(id: nat, ok: bool)
      requires Valid() && id in scheduled
      modifies this, db
      ensures Valid()
      ensures scheduled == old(scheduled) - multiset{id}
      ensures id !in old(db.tasks) ==> db.tasks == old(db.tasks)
      ensures id in old(db.tasks) ==>
        db.tasks == old(db.tasks)[id := old(db.tasks)[id].(status := if ok then Finished else Failed,
                                                            result := Some(if ok then 1 else 0))]
    {
      scheduled := scheduled - multiset{id};
      if id !in db.tasks {
        return;
      }
      var result := if ok then 1 else 0;
      db.UpdateStatus(id, if result == 1 then Finished else Failed, Some(result));
    }

    /** `get_task_status`: status and result of an owned row, code 1 otherwise. */
    method GetTaskStatus(caller: Option<UserId>, id: nat) returns (reply: Reply, info: Option<StatusInfo>)
      ensures reply == Ok || reply == Refused
      ensures reply == Ok <==> caller.Some? && id in db.tasks && db.tasks[id].owner == caller.value
      ensures reply == Ok ==> info == Some(StatusInfo(db.tasks[id].status, db.tasks[id].result))
      ensures reply == Refused ==> info == None
    {
      if caller.None? {
        return Refused, None;
      }
      if id !in db.tasks || db.tasks[id].owner != caller.value {
        return Refused, None;
      }
      var t := db.tasks[id];
      reply, info := Ok, Some(StatusInfo(t.status, t.result));
    }

    /** `task_list`: exactly the caller's rows, each once, with `count` their number. */
    method TaskList(caller: Option<UserId>) returns (reply: Reply, count: nat, rows: seq<Task>)
      requires Valid()
      ensures caller.None? ==> reply == Refused && count == 0 && rows == []
      ensures caller.Some? ==>
        && reply == Ok
        && count == |rows|
        && (forall i :: 0 <= i < |rows| ==>
              rows[i].id in db.tasks && db.tasks[rows[i].id] == rows[i] && rows[i].owner == caller.value)
        && (forall k :: k in db.tasks && db.tasks[k].owner == caller.value ==> db.tasks[k] in rows)
        && (forall i, j :: 0 <= i < j < |rows| ==> rows[i].id != rows[j].id)
    {
      if caller.None? {
        return Refused, 0, [];
      }
      rows := db.Query(caller.value, None, None);
      reply, count := Ok, |rows|;
    }

    /** `delete_task`: removes an owned row and nothing else, code 1 otherwise. */
    method DeleteTask(caller: Option<UserId>, id: nat) returns (reply: Reply)
      requires Valid()
      modifies this, db
      ensures Valid() && scheduled == old(scheduled)
      ensures caller.None? || id !in old(db.tasks) || old(db.tasks)[id].owner != caller.value ==>
        reply == Refused && db.tasks == old(db.tasks)
      ensures caller.Some? && id in old(db.tasks) && old(db.tasks)[id].owner == caller.value ==>
        reply == Ok && db.tasks == old(db.tasks) - {id}
    {
      if caller.None? {
        return Refused;
      }
      if id !in db.tasks || db.tasks[id].owner != caller.value {
        return Refused;
      }
      db.Delete(id);
      reply := Ok;
    }

    /** `batch_delete_task`: removes exactly the listed rows the caller owns. */
    method BatchDeleteTask(caller: Option<UserId>, ids: seq<int>) returns (reply: Reply)
      requires Valid()
      modifies this, db
      ensures Valid() && scheduled == old(scheduled)
      ensures caller.None? ==> reply == Refused && db.tasks == old(db.tasks)
      ensures caller.Some? ==> reply == Ok && db.tasks == old(db.tasks) - DeletedIds(old(db.tasks), ids, caller.value)
    {
      if caller.None? {
        return Refused;
      }
      var rows := db.Query(caller.value, Some(ids), None);
      QueryIdsAreSelection(rows, db.tasks, DeletedIds(db.tasks, ids, caller.value));
      DeleteRows(rows);
      reply := Ok;
    }

    /** The loop of `batch_delete_task`: `task.delete()` on each row of a query result. */
    method DeleteRows(rows: seq<Task>)
      requires db.Valid()
      requires forall j :: 0 <= j < |rows| ==> rows[j].id in db.tasks
      requires forall i, j :: 0 <= i < j < |rows| ==> rows[i].id < rows[j].id
      modifies db
      ensures db.Valid()
      ensures db.tasks == old(db.tasks) - IdsOf(rows)
    {
      var i := 0;
      while i < |rows|
        invariant 0 <= i <= |rows|
        invariant db.Valid()
        invariant db.tasks == old(db.tasks) - IdsOf(rows[..i])
      {
        var id := rows[i].id;
        IdsOfPrefix(rows, i);
        assert old(db.tasks) - IdsOf(rows[..i + 1]) == db.tasks - {id};
        db.Delete(id);
        i := i + 1;
      }
      assert rows[..|rows|] == rows;
    }
  }
}
