/**
 * The `task` table of database.py: one record per task and the three
 * operations the record class offers (`save`, `delete`, `update_status`),
 * plus the filtered reads that app.py issues through `Task.query`.
 * The SQL engine is replaced by a map from id to record; a new row's id
 * follows SQLite's rule for an INTEGER PRIMARY KEY without AUTOINCREMENT.
 */
module Database {
  import opened Wrappers

  /** The `id` column of the `user` table. */
  type UserId = int

  /** The four values the `status` column takes. */
  datatype Status = Waiting | Running | Finished | Failed

  /** One row of the `task` table (`created_at` is not modelled). */
  datatype Task = Task(id: nat, owner: UserId, name: string, url: string, status: Status, result: Option<int>)

  /**
   * The row `update_status(status, result)` leaves behind: the status is
   * always overwritten, the result only when a result is given.
   */
  function WithStatus(t: Task, status: Status, result: Option<int>): (u: Task)
    ensures u.status == status
    ensures result.Some? ==> u.result == result
    ensures result.None? ==> u.result == t.result
    ensures u.id == t.id && u.owner == t.owner && u.name == t.name && u.url == t.url
  {
    if result.None? then t.(status := status) else t.(status := status, result := result)
  }

  /**
   * The conjunction of filters a `Task.query` applies: owned by `owner`,
   * and, when given, id among `ids` and status equal to `status`.
   */
  predicate Matches(t: Task, owner: UserId, ids: Option<seq<int>>, status: Option<Status>)
  {
    && t.owner == owner
    && (ids.Some? ==> t.id in ids.value)
    && (status.Some? ==> t.status == status.value)
  }

  /** A non-empty set of ids has a largest element. */
  lemma {:induction false} HasLargest(keys: set<nat>)
    requires keys != {}
    ensures exists m :: m in keys && forall k :: k in keys ==> k <= m
    decreases keys
  {
    var x :| x in keys;
    var rest := keys - {x};
    if rest == {} {
      assert keys == {x};
      assert forall k :: k in keys ==> k <= x;
    } else {
      HasLargest(rest);
      var m :| m in rest && forall k :: k in rest ==> k <= m;
      var top := if x <= m then m else x;
      forall k | k in keys
        ensures k <= top
      {
        if k != x {
          assert k in rest;
        }
      }
      assert top in keys;
    }
  }

  /**
   * The id SQLite gives a row inserted without one: one more than the
   * largest id in the table, or 1 when the table is empty. An id freed by
   * deleting the row with the largest id is therefore handed out again.
   */
  function NextRowId(keys: set<nat>): nat
  {
    if keys == {} then 1
    else
      HasLargest(keys);
      var m :| m in keys && forall k :: k in keys ==> k <= m;
      m + 1
  }

  /** The next row id is above every id in use and 1 on an empty table; otherwise its predecessor is in use. */
  lemma NextRowIdBounds(keys: set<nat>)
    ensures 1 <= NextRowId(keys)
    ensures forall k :: k in keys ==> k < NextRowId(keys)
    ensures keys == {} ==> NextRowId(keys) == 1
    ensures keys != {} ==> NextRowId(keys) - 1 in keys
  {
    if keys != {} {
      HasLargest(keys);
      var m :| m in keys && forall k :: k in keys ==> k <= m;
      assert NextRowId(keys) == m + 1;
    }
  }

  /** The table: rows keyed by id. */
  class TaskTable {
    var tasks: map<nat, Task>

    /** Every row sits under its own id, and ids start at 1. */
    ghost predicate Valid()
      reads this
    {
      forall k :: k in tasks ==> 1 <= k && tasks[k].id == k
    }

    /** The id the next inserted row receives. */
    function NextId(): nat
      reads this
    {
      NextRowId(tasks.Keys)
    }

    constructor ()
      ensures Valid() && tasks == map[]
    {
      tasks := map[];
    }

    /**
     * `Task(user_id=owner, name=name, url=url, status=status).save()`: the
     * row gets the id SQLite picks and the column default for `result`
     * (null); the row inserted after it would get the next id.
     */
    method Save(owner: UserId, name: string, url: string, status: Status) returns (id: nat)
      requires Valid()
      modifies this
      ensures Valid()
      ensures id == old(NextId()) && id !in old(tasks)
      ensures tasks == old(tasks)[id := Task(id, owner, name, url, status, None)]
      ensures NextId() == id + 1
    {
      NextRowIdBounds(tasks.Keys);
      id := NextRowId(tasks.Keys);
      tasks := tasks[id := Task(id, owner, name, url, status, None)];
      NextRowIdBounds(tasks.Keys);
      assert id in tasks.Keys;
    }

    /** `task.delete()`: removes exactly that row. */
    method Delete(id: nat)
      requires Valid() && id in tasks
      modifies this
      ensures Valid()
      ensures tasks == old(tasks) - {id}
      ensures |tasks| == |old(tasks)| - 1
    {
      tasks := tasks - {id};
    }

    /** `task.update_status(status, result)` on a row that was loaded from the table. */
    method UpdateStatus(id: nat, status: Status, result: Option<int>)
      requires Valid() && id in tasks
      modifies this
      ensures Valid()
      ensures tasks == old(tasks)[id := WithStatus(old(tasks)[id], status, result)]
    {
      tasks := tasks[id := WithStatus(tasks[id], status, result)];
    }

    /**
     * `Task.query.filter(...).all()`: every row that passes the filters,
     * each once, in ascending id order (the order SQLite scans the table).
     */
    method Query(owner: UserId, ids: Option<seq<int>>, status: Option<Status>) returns (rows: seq<Task>)
      requires Valid()
      ensures forall i :: 0 <= i < |rows| ==>
        rows[i].id in tasks && tasks[rows[i].id] == rows[i] && Matches(rows[i], owner, ids, status)
      ensures forall k :: k in tasks && Matches(tasks[k], owner, ids, status) ==> tasks[k] in rows
      ensures forall i, j :: 0 <= i < j < |rows| ==> rows[i].id < rows[j].id
    {
      rows := [];
      var bound := NextRowId(tasks.Keys);
      NextRowIdBounds(tasks.Keys);
      var k := 1;
      while k < bound
        invariant 1 <= k <= bound
        invariant forall i :: 0 <= i < |rows| ==>
          rows[i].id in tasks && tasks[rows[i].id] == rows[i] && Matches(rows[i], owner, ids, status) && rows[i].id < k
        invariant forall j :: j in tasks && j < k && Matches(tasks[j], owner, ids, status) ==> tasks[j] in rows
        invariant forall i, j :: 0 <= i < j < |rows| ==> rows[i].id < rows[j].id
      {
        if k in tasks && Matches(tasks[k], owner, ids, status) {
          rows := rows + [tasks[k]];
        }
        k := k + 1;
      }
    }
  }
}
