/**
 * Client runs of the routes, checked from their contracts alone: the
 * lifecycle of one task, a refused start by another user, and the two
 * places where `start_task` lets a task leave the waiting-running-terminal
 * sequence (a restart of a finished task, a second start of a running one),
 * and the stale execution that completes another user's task once a
 * deleted task's id is reused.
 */
module Scenarios {
  import opened Wrappers
  import opened Database
  import opened App

  /** Create `A` for user 7, start it, let its execution end as `ok` says, reading the status at each step. */
  method CreateStartComplete(ok: bool)
  {
    var app := new TaskApp();
    var reply := app.CreateTask(Some(7), Some("A"), Some("http://x"));
    assert reply == Ok && 1 in app.db.tasks;
    var read, info := app.GetTaskStatus(Some(7), 1);
    assert read == Ok && info == Some(StatusInfo(Waiting, None));
    reply := app.StartTask(Some(7), 1);
    read, info := app.GetTaskStatus(Some(7), 1);
    assert info == Some(StatusInfo(Running, None));
    app.Complete(1, ok);
    read, info := app.GetTaskStatus(Some(7), 1);
    assert info == Some(if ok then StatusInfo(Finished, Some(1)) else StatusInfo(Failed, Some(0)));
  }

  /** User 8 can neither start nor read nor delete user 7's task, which stays waiting. */
  method ForeignUserRefused()
  {
    var app := new TaskApp();
    var reply := app.CreateTask(Some(7), Some("A"), Some("http://x"));
    reply := app.StartTask(Some(8), 1);
    assert reply == Refused;
    var read, info := app.GetTaskStatus(Some(8), 1);
    assert read == Refused && info == None;
    reply := app.DeleteTask(Some(8), 1);
    assert reply == Refused;
    read, info := app.GetTaskStatus(Some(7), 1);
    assert info == Some(StatusInfo(Waiting, None));
  }

  /** A finished task can be started again: it shows `running` with its old result until the new run ends. */
  method RestartAfterFinish()
  {
    var app := new TaskApp();
    var reply := app.CreateTask(Some(7), Some("A"), Some("http://x"));
    reply := app.StartTask(Some(7), 1);
    app.Complete(1, true);
    reply := app.StartTask(Some(7), 1);
    assert reply == Ok;
    var read, info := app.GetTaskStatus(Some(7), 1);
    assert info == Some(StatusInfo(Running, Some(1)));
  }

  /**
   * Two starts of the same task schedule two executions; a batch start
   * does not, because the task is no longer waiting.
   */
  method DoubleStart()
  {
    var app := new TaskApp();
    var reply := app.CreateTask(Some(7), Some("A"), Some("http://x"));
    reply := app.StartTask(Some(7), 1);
    reply := app.StartTask(Some(7), 1);
    assert app.scheduled[1] == 2;
    ghost var before := app.db.tasks;
    assert before[1].status == Running;
    assert StartedIds(before, [1], 7) == {};
    reply := app.BatchStartTask(Some(7), [1]);
    assert app.scheduled[1] == 2;
  }

  /**
   * User 7 starts task 1 and deletes it while its execution is pending;
   * user 8's next task gets id 1 again, and the pending execution ends it
   * as finished although user 8 never started it.
   */
  method StaleCompletion()
  {
    var app := new TaskApp();
    var reply := app.CreateTask(Some(7), Some("A"), Some("http://a"));
    reply := app.StartTask(Some(7), 1);
    reply := app.DeleteTask(Some(7), 1);
    assert reply == Ok && app.db.tasks == map[];
    reply := app.CreateTask(Some(8), Some("B"), Some("http://b"));
    var read, info := app.GetTaskStatus(Some(8), 1);
    assert read == Ok && info == Some(StatusInfo(Waiting, None));
    assert 1 in app.scheduled;
    app.Complete(1, true);
    read, info := app.GetTaskStatus(Some(8), 1);
    assert read == Ok && info == Some(StatusInfo(Finished, Some(1)));
  }

  /** A batch with a nameless second entry creates only the first and answers code 1. */
  method PartialBatchCreate()
  {
    var app := new TaskApp();
    var entries := [TaskInput(Some("A"), Some("http://a")), TaskInput(None, Some("http://b")), TaskInput(Some("C"), Some("http://c"))];
    assert FirstIncomplete(entries) == 1 by {
      assert HasFields(entries[0]) && !HasFields(entries[1]);
    }
    var reply, reported := app.BatchCreateTask(Some(7), entries);
    assert reply == Refused && reported == 0;
    assert app.db.tasks.Keys == {1};
  }
}
