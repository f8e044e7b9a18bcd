/**
 * Stopping all tasks of an item across workers (backend/open_webui/tasks.py:26-42, :139-153,
 * :172-185): a snapshot of the item's Redis set, one published command per id, and a listener in
 * every worker that cancels the task if it is its own.
 */
module TaskStop {
  import opened Basics
  import opened TaskDictionaries
  import opened TaskRegistry
  import opened TaskSharing

  type Calls = map<CallId, Call>

  /** The first `sent` ids of a call have been published. */
  ghost predicate Sent(calls: Calls, c: CallId, t: TaskId) {
    c in calls && calls[c].sent <= |calls[c].ids| && t in calls[c].ids[..calls[c].sent]
  }

  /** Messages and cancellations only ever come from ids a call has published. */
  ghost predicate OnlySent(w: World) {
    && (forall c :: c in w.calls ==> w.calls[c].sent <= |w.calls[c].ids|)
    && (forall k, m :: k in w.inboxes && m in w.inboxes[k] ==> Sent(w.calls, m.call, m.task))
    && (forall t, c :: t in w.tasks && c in w.tasks[t].cancelledBy ==> Sent(w.calls, c, t))
  }

  /** A published stop for a running task is still in its worker's inbox or has cancelled it. */
  ghost predicate Delivered(w: World, t: TaskId, c: CallId) {
    t in w.tasks && w.tasks[t].phase == Running ==>
      c in w.tasks[t].cancelledBy || (w.tasks[t].owner in w.inboxes && Message(t, c) in w.inboxes[w.tasks[t].owner])
  }

  /** The step publishes the command of call `c` to stop `t`, and `t` is a task by then. */
  ghost predicate Publishes(w: World, e: Event, c: CallId, t: TaskId) {
    e == Publish(c) && Enabled(w, e) && w.calls[c].ids[w.calls[c].sent] == t && t in w.tasks
  }

  /** Some step of the run did. */
  ghost predicate Published(w: World, run: seq<Event>, c: CallId, t: TaskId)
    requires Runs(w, run)
  {
    run != [] && (Published(w, run[..|run| - 1], c, t) || Publishes(After(w, run[..|run| - 1]), run[|run| - 1], c, t))
  }

  /** Every id of a snapshot is a task. */
  ghost predicate SnapshotsAreTasks(w: World) {
    forall c, t :: c in w.calls && w.calls[c].snapshot && t in w.calls[c].ids ==> t in w.tasks
  }

  lemma SentStays(calls: Calls, calls': Calls, c: CallId, t: TaskId)
    requires Sent(calls, c, t) && c in calls' && calls'[c].ids == calls[c].ids
    requires calls[c].sent <= calls'[c].sent <= |calls'[c].ids|
    ensures Sent(calls', c, t)
  {
  }

  // ----- one step ----------------------------------------------------------------------------------

  lemma PublishOnlySent(w: World, c: CallId)
    requires OnlySent(w) && Enabled(w, Publish(c))
    ensures OnlySent(Apply(w, Publish(c)))
  {
    var w' := Apply(w, Publish(c));
    var m := Message(w.calls[c].ids[w.calls[c].sent], c);
    forall d, t | Sent(w.calls, d, t) ensures Sent(w'.calls, d, t) {
      SentStays(w.calls, w'.calls, d, t);
    }
    assert Sent(w'.calls, c, m.task) by {
      assert w'.calls[c].ids[..w'.calls[c].sent][w.calls[c].sent] == m.task;
    }
    forall k, n | k in w'.inboxes && n in w'.inboxes[k] ensures Sent(w'.calls, n.call, n.task) {
      assert n in w.inboxes[k] || n == m;
    }
  }

  lemma ConsumeOnlySent(w: World, k: WorkerId)
    requires OnlySent(w) && Enabled(w, Consume(k))
    ensures OnlySent(Apply(w, Consume(k)))
  {
  }

  /** Events that only touch tasks, dictionaries or the store. */
  lemma QuietEvents(w: World, e: Event)
    requires Enabled(w, e) && !e.Publish? && !e.Consume? && !e.StopTask? && !e.StopItem?
    ensures Apply(w, e).calls == w.calls && Apply(w, e).inboxes == w.inboxes
    ensures forall t :: t in w.tasks ==>
      && t in Apply(w, e).tasks
      && Apply(w, e).tasks[t].cancelledBy == w.tasks[t].cancelledBy
      && Apply(w, e).tasks[t].owner == w.tasks[t].owner
      && (Apply(w, e).tasks[t].phase == Running ==> w.tasks[t].phase == Running)
    ensures forall t :: t in Apply(w, e).tasks && t !in w.tasks ==> Apply(w, e).tasks[t].cancelledBy == {}
  {
  }

  lemma CallOnlySent(w: World, e: Event)
    requires OnlySent(w) && Enabled(w, e) && (e.StopTask? || e.StopItem?)
    ensures OnlySent(Apply(w, e))
  {
    var w' := Apply(w, e);
    forall d, t | Sent(w.calls, d, t) ensures Sent(w'.calls, d, t) {
      SentStays(w.calls, w'.calls, d, t);
    }
  }

  lemma OnlySentStep(w: World, e: Event)
    requires OnlySent(w) && Enabled(w, e)
    ensures OnlySent(Apply(w, e))
  {
    match e
    case Publish(c) => PublishOnlySent(w, c);
    case Consume(k) => ConsumeOnlySent(w, k);
    case StopTask(_, _) => CallOnlySent(w, e);
    case StopItem(_, _, _) => CallOnlySent(w, e);
    case _ => QuietEvents(w, e);
  }

  lemma PublishDelivers(w: World, c: CallId, t: TaskId)
    requires LocalsAgree(w) && Publishes(w, Publish(c), c, t)
    ensures Delivered(Apply(w, Publish(c)), t, c)
  {
    var k := w.tasks[t].owner;
    assert Message(t, c) in Apply(w, Publish(c)).inboxes[k] by {
      assert Apply(w, Publish(c)).inboxes[k] == w.inboxes[k] + [Message(t, c)];
    }
  }

  lemma PublishKeepsDelivered(w: World, e: Event, t: TaskId, c: CallId)
    requires Enabled(w, e) && e.Publish? && t in w.tasks && Delivered(w, t, c)
    ensures Delivered(Apply(w, e), t, c)
  {
    var k := w.tasks[t].owner;
    if k in w.inboxes {
      assert w.inboxes[k] <= Apply(w, e).inboxes[k];
    }
  }

  lemma ConsumeKeepsDelivered(w: World, e: Event, t: TaskId, c: CallId)
    requires w.redis && LocalsAgree(w) && Enabled(w, e) && e.Consume? && t in w.tasks && Delivered(w, t, c)
    ensures Delivered(Apply(w, e), t, c)
  {
    if e.worker == w.tasks[t].owner && w.tasks[t].phase == Running {
      assert Kept(w.tasks, e.worker, t);
    }
  }

  lemma CallKeepsDelivered(w: World, e: Event, t: TaskId, c: CallId)
    requires Enabled(w, e) && (e.StopTask? || e.StopItem?) && t in w.tasks && Delivered(w, t, c)
    ensures Delivered(Apply(w, e), t, c)
  {
  }

  lemma QuietKeepsDelivered(w: World, e: Event, t: TaskId, c: CallId)
    requires Enabled(w, e) && !e.Publish? && !e.Consume? && !e.StopTask? && !e.StopItem?
    requires t in w.tasks && Delivered(w, t, c)
    ensures Delivered(Apply(w, e), t, c)
  {
    QuietEvents(w, e);
  }

  lemma StepKeepsDelivered(w: World, e: Event, t: TaskId, c: CallId)
    requires w.redis && LocalsAgree(w) && Enabled(w, e) && t in w.tasks && Delivered(w, t, c)
    ensures Delivered(Apply(w, e), t, c)
  {
    if e.Publish? {
      PublishKeepsDelivered(w, e, t, c);
    } else if e.Consume? {
      ConsumeKeepsDelivered(w, e, t, c);
    } else if e.StopTask? || e.StopItem? {
      CallKeepsDelivered(w, e, t, c);
    } else {
      QuietKeepsDelivered(w, e, t, c);
    }
  }

  lemma StepDelivers(w: World, e: Event, t: TaskId, c: CallId)
    requires w.redis && LocalsAgree(w) && Enabled(w, e)
    requires Publishes(w, e, c, t) || (t in w.tasks && Delivered(w, t, c))
    ensures t in Apply(w, e).tasks && Delivered(Apply(w, e), t, c)
  {
    TasksStay(w, e, t);
    if Publishes(w, e, c, t) {
      PublishDelivers(w, c, t);
    } else {
      StepKeepsDelivered(w, e, t, c);
    }
  }

  lemma TasksStay(w: World, e: Event, t: TaskId)
    requires Enabled(w, e) && t in w.tasks
    ensures t in Apply(w, e).tasks
  {
  }

  lemma {:induction false} CommandReaches(w: World, run: seq<Event>, c: CallId, t: TaskId)
    requires Start(w) && w.redis && Runs(w, run) && Published(w, run, c, t)
    ensures t in After(w, run).tasks && Delivered(After(w, run), t, c)
  {
    var front, e := run[..|run| - 1], run[|run| - 1];
    if Published(w, front, c, t) {
      CommandReaches(w, front, c, t);
    }
    LocalsAlwaysAgree(w, front);
    RedisStays(w, front);
    StepDelivers(After(w, front), e, t, c);
  }

  /**
   * Messages and cancellations come from published ids only, and every published command for a
   * task that exists, of a snapshot or of a single stop, is in the inbox of the task's worker
   * until it has cancelled the task.
   */
  lemma {:induction false} StopsAlwaysReach(w: World, run: seq<Event>)
    requires Start(w) && w.redis && Runs(w, run)
    ensures OnlySent(After(w, run))
    ensures forall c, t :: Published(w, run, c, t) ==> t in After(w, run).tasks && Delivered(After(w, run), t, c)
  {
    if run != [] {
      StopsAlwaysReach(w, run[..|run| - 1]);
      OnlySentStep(After(w, run[..|run| - 1]), run[|run| - 1]);
    }
    forall c, t | Published(w, run, c, t) ensures t in After(w, run).tasks && Delivered(After(w, run), t, c) {
      CommandReaches(w, run, c, t);
    }
  }

  lemma SnapshotStep(w: World, e: Event)
    requires SnapshotsAreTasks(w) && StoreAgrees(w) && Enabled(w, e)
    ensures SnapshotsAreTasks(Apply(w, e))
  {
    forall c, t | c in Apply(w, e).calls && Apply(w, e).calls[c].snapshot && t in Apply(w, e).calls[c].ids
      ensures t in Apply(w, e).tasks
    {
      if e.StopItem? && c == e.call {
        assert t in Elements(e.ids) && Maps(w.shared, t, e.itemName);
      }
      TasksStay(w, e, t);
    }
  }

  lemma SentByPublishing(w: World, e: Event, c: CallId, t: TaskId)
    requires Enabled(w, e) && Sent(Apply(w, e).calls, c, t) && !Sent(w.calls, c, t)
    ensures e == Publish(c) && t == w.calls[c].ids[w.calls[c].sent]
  {
  }

  /** The ids of a snapshot are tasks from the start, so each one sent was published to a task. */
  lemma {:induction false} SnapshotsArePublished(w: World, run: seq<Event>, c: CallId)
    requires Start(w) && Runs(w, run) && c in After(w, run).calls && After(w, run).calls[c].snapshot
    ensures SnapshotsAreTasks(After(w, run))
    ensures forall t :: Sent(After(w, run).calls, c, t) ==> Published(w, run, c, t)
  {
    TasksOfSnapshots(w, run);
    if run != [] {
      var front, e := run[..|run| - 1], run[|run| - 1];
      var s := After(w, front);
      TasksOfSnapshots(w, front);
      if c in s.calls {
        SnapshotsArePublished(w, front, c);
      }
      forall t | Sent(After(w, run).calls, c, t) ensures Published(w, run, c, t) {
        if !Sent(s.calls, c, t) {
          SentByPublishing(s, e, c, t);
          assert t in s.tasks;
        }
      }
    }
  }

  lemma {:induction false} TasksOfSnapshots(w: World, run: seq<Event>)
    requires Start(w) && Runs(w, run)
    ensures SnapshotsAreTasks(After(w, run))
  {
    if run != [] {
      TasksOfSnapshots(w, run[..|run| - 1]);
      StoreAlwaysAgrees(w, run[..|run| - 1]);
      SnapshotStep(After(w, run[..|run| - 1]), run[|run| - 1]);
    }
  }

  /** All commands of the call have been published and every listener has consumed them. */
  ghost predicate CallSettled(w: World, c: CallId) {
    && c in w.calls && w.calls[c].sent == |w.calls[c].ids|
    && (forall k, m :: k in w.inboxes && m in w.inboxes[k] ==> m.call != c)
  }

  /** When any call has settled, a task it was published to while it existed no longer runs unasked. */
  lemma StopReachesTask(w: World, run: seq<Event>, c: CallId, t: TaskId)
    requires Start(w) && w.redis && Runs(w, run) && CallSettled(After(w, run), c) && Published(w, run, c, t)
    ensures t in After(w, run).tasks
    ensures After(w, run).tasks[t].phase == Running ==> c in After(w, run).tasks[t].cancelledBy
  {
    StopsAlwaysReach(w, run);
    assert Delivered(After(w, run), t, c);
  }

  /**
   * When a `stop_item_tasks` call has settled, each task of its snapshot that still runs has had
   * its cancellation requested by that call, and no task outside the snapshot has.
   */
  lemma StopReachesSnapshot(w: World, run: seq<Event>, c: CallId)
    requires Start(w) && w.redis && Runs(w, run) && CallSettled(After(w, run), c) && After(w, run).calls[c].snapshot
    ensures var s := After(w, run);
      && (forall t :: t in s.calls[c].ids ==>
            t in s.tasks && (s.tasks[t].phase == Running ==> c in s.tasks[t].cancelledBy))
      && (forall t :: t in s.tasks && c in s.tasks[t].cancelledBy ==> t in s.calls[c].ids)
  {
    StopsAlwaysReach(w, run);
    SnapshotsArePublished(w, run, c);
    var s := After(w, run);
    forall t | t in s.calls[c].ids
      ensures t in s.tasks && (s.tasks[t].phase == Running ==> c in s.tasks[t].cancelledBy)
    {
      assert s.calls[c].ids[..s.calls[c].sent] == s.calls[c].ids;
      assert Sent(s.calls, c, t);
      StopReachesTask(w, run, c, t);
    }
  }

  // ----- what a stop reaches, from the step that asks for it --------------------------------------------

  lemma StepKeepsCall(w: World, e: Event, c: CallId)
    requires Enabled(w, e) && c in w.calls
    ensures c in Apply(w, e).calls && Apply(w, e).calls[c].ids == w.calls[c].ids
    ensures Apply(w, e).calls[c].snapshot == w.calls[c].snapshot
  {
  }

  /** What holds of a call or a task after the first `n` steps of a run. */
  lemma {:induction false} KeptSince(w: World, run: seq<Event>, n: nat, c: CallId, t: TaskId)
    requires Runs(w, run) && n <= |run|
    ensures Runs(w, run[..n])
    ensures var s, end := After(w, run[..n]), After(w, run);
      && (t in s.tasks ==> t in end.tasks)
      && (c in s.calls ==>
            c in end.calls && end.calls[c].ids == s.calls[c].ids && end.calls[c].snapshot == s.calls[c].snapshot)
  {
    if n < |run| {
      var front, e := run[..|run| - 1], run[|run| - 1];
      assert front[..n] == run[..n];
      KeptSince(w, front, n, c, t);
      if c in After(w, front).calls {
        StepKeepsCall(After(w, front), e, c);
      }
      if t in After(w, front).tasks {
        TasksStay(After(w, front), e, t);
      }
    } else {
      assert run[..n] == run;
    }
  }

  lemma StepTaken(w: World, run: seq<Event>, n: nat)
    requires Runs(w, run) && n < |run|
    ensures Runs(w, run[..n]) && Enabled(After(w, run[..n]), run[n])
    ensures Runs(w, run[..n + 1]) && After(w, run[..n + 1]) == Apply(After(w, run[..n]), run[n])
  {
    KeptSince(w, run, n, 0, "");
    KeptSince(w, run, n + 1, 0, "");
    assert run[..n + 1][..n] == run[..n];
  }

  /**
   * A `stop_item_tasks` call made at step `n`, when it has settled: every task that was in the item's
   * set at that step and still runs has been asked to cancel by it, and nothing outside the set has.
   */
  lemma StopItemReaches(w: World, run: seq<Event>, n: nat, c: CallId, i: string, ids: seq<TaskId>)
    requires Start(w) && w.redis && Runs(w, run) && n < |run| && run[n] == StopItem(c, i, ids)
    requires CallSettled(After(w, run), c)
    ensures Runs(w, run[..n])
    ensures var s := After(w, run);
      && (forall t :: t in Members(After(w, run[..n]).shared, i) ==>
            t in s.tasks && (s.tasks[t].phase == Running ==> c in s.tasks[t].cancelledBy))
      && (forall t :: t in s.tasks && c in s.tasks[t].cancelledBy ==> t in Members(After(w, run[..n]).shared, i))
  {
    StepTaken(w, run, n);
    KeptSince(w, run, n + 1, c, "");
    StopReachesSnapshot(w, run, c);
    assert forall t :: t in ids <==> t in Elements(ids);
  }

  /** A command sent for a task that exists before its call was published to a task. */
  lemma {:induction false} SentSince(w: World, run: seq<Event>, n: nat, c: CallId, t: TaskId)
    requires Runs(w, run) && n <= |run| && Sent(After(w, run).calls, c, t)
    requires Runs(w, run[..n]) && t in After(w, run[..n]).tasks && !Sent(After(w, run[..n]).calls, c, t)
    ensures Published(w, run, c, t)
  {
    assert run[..|run|] == run;
    if n < |run| {
      var front := run[..|run| - 1];
      assert front[..n] == run[..n];
      KeptSince(w, front, n, c, t);
      if Sent(After(w, front).calls, c, t) {
        SentSince(w, front, n, c, t);
      } else {
        SentByPublishing(After(w, front), run[|run| - 1], c, t);
      }
    }
  }

  /** A `stop_task` call made at step `n` for a task that exists, when it has settled. */
  lemma StopTaskReaches(w: World, run: seq<Event>, n: nat, c: CallId, t: TaskId)
    requires Start(w) && w.redis && Runs(w, run) && n < |run| && run[n] == StopTask(c, t)
    requires CallSettled(After(w, run), c)
    ensures Runs(w, run[..n])
    ensures var s := After(w, run);
      && (t in After(w, run[..n]).tasks ==>
            t in s.tasks && (s.tasks[t].phase == Running ==> c in s.tasks[t].cancelledBy))
      && (forall u :: u in s.tasks && c in s.tasks[u].cancelledBy ==> u == t)
  {
    StepTaken(w, run, n);
    KeptSince(w, run, n + 1, c, t);
    StopsAlwaysReach(w, run);
    var s := After(w, run);
    assert s.calls[c].ids == [t] && s.calls[c].ids[..s.calls[c].sent] == [t];
    assert forall u :: Sent(s.calls, c, u) <==> u == t;
    if t in After(w, run[..n]).tasks {
      SentSince(w, run, n, c, t);
      StopReachesTask(w, run, c, t);
    }
  }

  // ----- stopping without Redis --------------------------------------------------------------------------

  ghost predicate Pops(w: World, e: Event, k: WorkerId, t: TaskId) {
    e == StopLocal(t, k) && Enabled(w, e) && t in w.tasks
  }

  /** Some step of the run stopped the task on this worker. */
  ghost predicate Popped(w: World, run: seq<Event>, k: WorkerId, t: TaskId)
    requires Runs(w, run)
  {
    run != [] && (Popped(w, run[..|run| - 1], k, t) || Pops(After(w, run[..|run| - 1]), run[|run| - 1], k, t))
  }

  ghost predicate InTasks(w: World, k: WorkerId, t: TaskId) {
    k in w.locals && t in w.locals[k].tasks
  }

  lemma PoppedWasTask(w: World, run: seq<Event>, k: WorkerId, t: TaskId)
    requires Runs(w, run) && Popped(w, run, k, t)
    ensures t in After(w, run).tasks
  {
    if Popped(w, run[..|run| - 1], k, t) {
      PoppedWasTask(w, run[..|run| - 1], k, t);
    }
    TasksStay(After(w, run[..|run| - 1]), run[|run| - 1], t);
  }

  lemma LocalCreates(w: World, e: Event, k: WorkerId, t: TaskId)
    requires LocalsAgree(w) && Enabled(w, e) && e.Create? && k in w.locals
    ensures InTasks(Apply(w, e), k, t) <==> InTasks(w, k, t) || (e.task == t && e.worker == k)
    ensures Kept(Apply(w, e).tasks, k, t) <==> Kept(w.tasks, k, t) || (e.task == t && e.worker == k)
  {
  }

  lemma LocalForgets(w: World, e: Event, k: WorkerId, t: TaskId)
    requires LocalsAgree(w) && Enabled(w, e) && e.Forget? && k in w.locals
    ensures InTasks(Apply(w, e), k, t) <==> InTasks(w, k, t) && !(e.task == t && w.tasks[t].owner == k)
    ensures Kept(Apply(w, e).tasks, k, t) <==> Kept(w.tasks, k, t) && e.task != t
  {
  }

  lemma LocalRest(w: World, e: Event, k: WorkerId, t: TaskId)
    requires LocalsAgree(w) && Enabled(w, e) && !e.Create? && !e.Forget? && k in w.locals
    ensures InTasks(Apply(w, e), k, t) <==> InTasks(w, k, t) && e != StopLocal(t, k)
  {
  }

  lemma KeptRest(w: World, e: Event, k: WorkerId, t: TaskId)
    requires Enabled(w, e) && !e.Create? && !e.Forget?
    ensures Kept(Apply(w, e).tasks, k, t) <==> Kept(w.tasks, k, t)
  {
    if TouchesTask(e) {
      TaskEventsLeaveLists(w, e);
    } else if e.Consume? {
      ConsumeLeavesLists(w, e);
    } else {
      StopEventsLeaveLists(w, e);
    }
  }

  lemma WorkersStay(w: World, e: Event)
    requires Enabled(w, e)
    ensures Apply(w, e).locals.Keys == w.locals.Keys
  {
  }

  /**
   * Without Redis, on every run: a worker's `tasks` holds exactly the tasks created there that their
   * cleanup has not forgotten and no stop has popped.
   */
  lemma {:induction false} LocalTasksExact(w: World, run: seq<Event>, k: WorkerId, t: TaskId)
    requires Start(w) && !w.redis && Runs(w, run) && k in After(w, run).locals
    ensures t in After(w, run).locals[k].tasks <==> Kept(After(w, run).tasks, k, t) && !Popped(w, run, k, t)
  {
    if run != [] {
      var front, e := run[..|run| - 1], run[|run| - 1];
      var s := After(w, front);
      WorkersStay(s, e);
      LocalTasksExact(w, front, k, t);
      LocalsAlwaysAgree(w, front);
      if e.Create? {
        LocalCreates(s, e, k, t);
        if Popped(w, front, k, t) {
          PoppedWasTask(w, front, k, t);
        }
      } else if e.Forget? {
        LocalForgets(s, e, k, t);
      } else {
        LocalRest(s, e, k, t);
        KeptRest(s, e, k, t);
      }
    }
  }

  // ----- what a snapshot holds ---------------------------------------------------------------------------

  /** A cleanup of the item deletes its set while the task is a member. */
  ghost predicate Loses(w: World, e: Event, t: TaskId, i: string) {
    e.Drop? && Enabled(w, e) && w.tasks[e.task].item == Some(i) && t in Members(w.shared, i)
  }

  /** Some step of the run did. */
  ghost predicate Lost(w: World, run: seq<Event>, t: TaskId, i: string)
    requires Runs(w, run)
  {
    run != [] && (Lost(w, run[..|run| - 1], t, i) || Loses(After(w, run[..|run| - 1]), run[|run| - 1], t, i))
  }

  /** A task of the item that its cleanup has not removed from Redis. */
  ghost predicate Unfinished(w: World, t: TaskId, i: string) {
    t in w.tasks && w.tasks[t].item == Some(i) && Unremoved(w.tasks[t].phase)
  }

  ghost predicate InSnapshot(w: World, t: TaskId, i: string) {
    t in Members(w.shared, i)
  }

  ghost predicate IsSaved(w: World, t: TaskId) {
    t in w.tasks && w.tasks[t].saved
  }

  lemma LosingStep(w: World, e: Event, t: TaskId, i: string)
    requires Enabled(w, e) && e.Drop? && i != "" && StoreAgrees(w)
    ensures InSnapshot(Apply(w, e), t, i) <==> InSnapshot(w, t, i) && !Loses(w, e, t, i)
    ensures IsSaved(Apply(w, e), t) <==> IsSaved(w, t)
  {
  }

  lemma SavingStep(w: World, e: Event, t: TaskId, i: string)
    requires Enabled(w, e) && e.Save? && i != "" && t in w.tasks && w.tasks[t].item == Some(i)
    ensures InSnapshot(Apply(w, e), t, i) <==> InSnapshot(w, t, i) || e.task == t
    ensures IsSaved(Apply(w, e), t) <==> IsSaved(w, t) || e.task == t
  {
  }

  lemma RemovingStep(w: World, e: Event, t: TaskId, i: string)
    requires Enabled(w, e) && e.Remove? && e.task != t
    ensures InSnapshot(Apply(w, e), t, i) <==> InSnapshot(w, t, i)
    ensures IsSaved(Apply(w, e), t) <==> IsSaved(w, t)
  {
  }

  lemma UnfinishedBefore(w: World, e: Event, t: TaskId, i: string)
    requires Enabled(w, e) && Unfinished(Apply(w, e), t, i)
    ensures if t in w.tasks then Unfinished(w, t, i) && e != Remove(t) else e.Create? && !IsSaved(Apply(w, e), t)
  {
  }

  lemma OtherStep(w: World, e: Event, t: TaskId, i: string)
    requires StoreAgrees(w) && Enabled(w, e) && !e.Save? && !e.Remove? && !e.Drop? && t in w.tasks
    ensures InSnapshot(Apply(w, e), t, i) <==> InSnapshot(w, t, i)
    ensures IsSaved(Apply(w, e), t) <==> IsSaved(w, t)
  {
    OtherTasks(w, e);
  }

  /** One step puts the task into the item's set by saving it and takes it out by losing it. */
  lemma MemberStep(w: World, e: Event, t: TaskId, i: string)
    requires StoreAgrees(w) && Enabled(w, e) && Unfinished(w, t, i) && i != "" && e != Remove(t)
    ensures InSnapshot(Apply(w, e), t, i) <==> (InSnapshot(w, t, i) && !Loses(w, e, t, i)) || e == Save(t)
    ensures IsSaved(Apply(w, e), t) <==> IsSaved(w, t) || e == Save(t)
  {
    if e.Drop? {
      LosingStep(w, e, t, i);
    } else if e.Save? {
      SavingStep(w, e, t, i);
    } else if e.Remove? {
      RemovingStep(w, e, t, i);
    } else {
      OtherStep(w, e, t, i);
    }
  }

  lemma StaysSaved(w: World, e: Event, t: TaskId)
    requires Enabled(w, e) && IsSaved(w, t)
    ensures IsSaved(Apply(w, e), t)
  {
  }

  lemma {:induction false} LostWasSaved(w: World, run: seq<Event>, t: TaskId, i: string)
    requires Start(w) && Runs(w, run) && Lost(w, run, t, i)
    ensures IsSaved(After(w, run), t)
  {
    var front, e := run[..|run| - 1], run[|run| - 1];
    if Lost(w, front, t, i) {
      LostWasSaved(w, front, t, i);
    } else {
      MembersAreSaved(w, front, t, i);
    }
    StaysSaved(After(w, front), e, t);
  }

  /**
   * A task of the item that its cleanup has not removed from Redis is in a snapshot taken now if and
   * only if it has been saved and no cleanup has deleted the item's set with the task in it.
   */
  lemma {:induction false} SnapshotHoldsIff(w: World, run: seq<Event>, t: TaskId, i: string)
    requires Start(w) && Runs(w, run) && i != "" && Unfinished(After(w, run), t, i)
    ensures t in Members(After(w, run).shared, i) <==> After(w, run).tasks[t].saved && !Lost(w, run, t, i)
  {
    if run != [] {
      var front, e := run[..|run| - 1], run[|run| - 1];
      var s := After(w, front);
      StoreAlwaysAgrees(w, front);
      UnfinishedBefore(s, e, t, i);
      if t in s.tasks {
        SnapshotHoldsIff(w, front, t, i);
        MemberStep(s, e, t, i);
        OnceSaved(w, front, e, t, i);
      } else {
        UnsavedIsAbsent(w, run, t, i);
      }
    }
  }

  lemma OnceSaved(w: World, run: seq<Event>, e: Event, t: TaskId, i: string)
    requires Start(w) && Runs(w, run) && Enabled(After(w, run), e)
    ensures e == Save(t) ==> !Lost(w, run, t, i) && !IsSaved(After(w, run), t)
  {
    if Lost(w, run, t, i) {
      LostWasSaved(w, run, t, i);
    }
  }

  lemma MembersAreSaved(w: World, run: seq<Event>, t: TaskId, i: string)
    requires Start(w) && Runs(w, run) && t in Members(After(w, run).shared, i)
    ensures IsSaved(After(w, run), t) && After(w, run).tasks[t].item == Some(i)
  {
    StoreAlwaysAgrees(w, run);
    assert Maps(After(w, run).shared, t, i);
  }

  lemma UnsavedIsAbsent(w: World, run: seq<Event>, t: TaskId, i: string)
    requires Start(w) && Runs(w, run) && !IsSaved(After(w, run), t)
    ensures t !in Members(After(w, run).shared, i) && !Lost(w, run, t, i)
  {
    if t in Members(After(w, run).shared, i) {
      MembersAreSaved(w, run, t, i);
    }
    if Lost(w, run, t, i) {
      LostWasSaved(w, run, t, i);
    }
  }

  /**
   * What the snapshot holds when the item's set is exact: every task of the item that is saved and
   * not yet removed by its cleanup, and nothing that was never a task of the item.
   */
  lemma SnapshotCovers(w: World, run: seq<Event>, i: string)
    requires Start(w) && Runs(w, run) && i != "" && NeverDiscards(w, run, i)
    ensures var s := After(w, run);
      forall t :: t in s.tasks && s.tasks[t].item == Some(i) && s.tasks[t].saved && Unremoved(s.tasks[t].phase) ==>
        t in Members(s.shared, i)
    ensures var s := After(w, run);
      forall t :: t in Members(s.shared, i) ==> t in s.tasks && s.tasks[t].item == Some(i) && s.tasks[t].saved
  {
    StoreAlwaysAgrees(w, run);
    ItemSetExact(w, run, i);
    var s := After(w, run);
    forall t | t in s.tasks && s.tasks[t].item == Some(i) && s.tasks[t].saved && Unremoved(s.tasks[t].phase)
      ensures t in Members(s.shared, i)
    {
      assert Maps(s.shared, t, i);
    }
    forall t | t in Members(s.shared, i) ensures t in s.tasks && s.tasks[t].item == Some(i) && s.tasks[t].saved {
      MembersAreSaved(w, run, t, i);
    }
  }
}
