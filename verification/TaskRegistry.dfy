/**
 * The distributed task registry as a transition system (backend/open_webui/tasks.py).
 * Any number of workers; an event is what one coroutine does between two awaits.
 */
module TaskRegistry {
  import opened Basics
  import opened TaskDictionaries

  type WorkerId = nat
  type CallId = nat

  /**
   * How far a task has come.  A finished task's cleanup removes it from Redis (remembering whether
   * the item's set looked empty), may then drop the item's set, and last forgets it locally.
   */
  datatype Phase = Running | Finished | Cleaning(dropNext: bool) | Done

  datatype Task = Task(owner: WorkerId, item: ItemId, saved: bool, phase: Phase, cancelledBy: set<CallId>)

  datatype Message = Message(task: TaskId, call: CallId)

  /** A stop request under way: the ids it will publish and how many it has published. */
  datatype Call = Call(ids: seq<TaskId>, sent: nat, snapshot: bool)

  datatype World = World(
    redis: bool,
    locals: map<WorkerId, Local>,
    inboxes: map<WorkerId, seq<Message>>,
    shared: Shared,
    tasks: map<TaskId, Task>,
    calls: map<CallId, Call>)

  datatype Event =
    | Create(task: TaskId, worker: WorkerId, item: ItemId)
    | Save(task: TaskId)
    | Finish(task: TaskId)
    | Remove(task: TaskId)
    | Drop(task: TaskId)
    | Forget(task: TaskId)
    | StopLocal(task: TaskId, worker: WorkerId)
    | StopTask(call: CallId, task: TaskId)
    | StopItem(call: CallId, itemName: string, ids: seq<TaskId>)
    | Publish(call: CallId)
    | Consume(worker: WorkerId)

  ghost predicate Start(w: World) {
    && w.inboxes.Keys == w.locals.Keys
    && (forall k :: k in w.locals ==> w.locals[k] == Local({}, map[]) && w.inboxes[k] == [])
    && w.shared == Shared(map[], map[]) && w.tasks == map[] && w.calls == map[]
  }

  predicate Enabled(w: World, e: Event) {
    match e
    case Create(t, k, _) => t !in w.tasks && k in w.locals
    case Save(t) => w.redis && t in w.tasks && !w.tasks[t].saved
    case Finish(t) => t in w.tasks && w.tasks[t].phase == Running
    case Remove(t) => w.redis && t in w.tasks && w.tasks[t].phase == Finished
    case Drop(t) => t in w.tasks && w.tasks[t].phase == Cleaning(true)
    case Forget(t) =>
      t in w.tasks && w.tasks[t].owner in w.locals
      && w.tasks[t].phase == (if w.redis then Cleaning(false) else Finished)
    case StopLocal(t, k) => !w.redis && k in w.locals
    case StopTask(c, _) => w.redis && c !in w.calls
    case StopItem(c, i, ids) =>
      w.redis && c !in w.calls && Elements(ids) == Members(w.shared, i) && |ids| == |Members(w.shared, i)|
    case Publish(c) => c in w.calls && w.calls[c].sent < |w.calls[c].ids|
    case Consume(k) => k in w.inboxes && k in w.locals && w.inboxes[k] != []
  }

  function Apply(w: World, e: Event): World
    requires Enabled(w, e)
  {
    match e
    case Create(t, k, id) =>
      w.(tasks := w.tasks[t := Task(k, id, false, Running, {})],
         locals := w.locals[k := Registered(w.locals[k], t, id)])
    case Save(t) =>
      w.(tasks := w.tasks[t := w.tasks[t].(saved := true)], shared := Saved(w.shared, t, w.tasks[t].item))
    case Finish(t) =>
      w.(tasks := w.tasks[t := w.tasks[t].(phase := Finished)])
    case Remove(t) =>
      w.(tasks := w.tasks[t := w.tasks[t].(phase := Cleaning(LeftEmpty(w.shared, t, w.tasks[t].item)))],
         shared := Removed(w.shared, t, w.tasks[t].item))
    case Drop(t) =>
      w.(tasks := w.tasks[t := w.tasks[t].(phase := Cleaning(false))],
         shared := Dropped(w.shared, HashValue(w.tasks[t].item)))
    case Forget(t) =>
      var k := w.tasks[t].owner;
      w.(tasks := w.tasks[t := w.tasks[t].(phase := Done)],
         locals := w.locals[k := Forgotten(w.locals[k], t, w.tasks[t].item)])
    case StopLocal(t, k) =>
      w.(locals := w.locals[k := w.locals[k].(tasks := w.locals[k].tasks - {t})])
    case StopTask(c, t) =>
      w.(calls := w.calls[c := Call([t], 0, false)])
    case StopItem(c, _, ids) =>
      w.(calls := w.calls[c := Call(ids, 0, true)])
    case Publish(c) =>
      var call := w.calls[c];
      w.(calls := w.calls[c := call.(sent := call.sent + 1)],
         inboxes := map k | k in w.inboxes :: w.inboxes[k] + [Message(call.ids[call.sent], c)])
    case Consume(k) =>
      var m := w.inboxes[k][0];
      w.(inboxes := w.inboxes[k := w.inboxes[k][1..]],
         tasks := if m.task in w.locals[k].tasks && m.task in w.tasks && w.tasks[m.task].phase == Running
                  then w.tasks[m.task := w.tasks[m.task].(cancelledBy := w.tasks[m.task].cancelledBy + {m.call})]
                  else w.tasks)
  }

  /** The events of a run, in order, are all enabled. */
  predicate Runs(w: World, run: seq<Event>)
    decreases |run|, 0
  {
    run == [] || (Runs(w, run[..|run| - 1]) && Enabled(After(w, run[..|run| - 1]), run[|run| - 1]))
  }

  function After(w: World, run: seq<Event>): World
    requires Runs(w, run)
    decreases |run|, 1
  {
    if run == [] then w else Apply(After(w, run[..|run| - 1]), run[|run| - 1])
  }

  // ----- the worker dictionaries -----------------------------------------------------------------

  type Tasks = map<TaskId, Task>

  /** When worker `k` lists task `t` under `id`; a falsy id is never taken off its list. */
  ghost predicate Listed(tasks: Tasks, k: WorkerId, id: ItemId, t: TaskId) {
    && t in tasks && tasks[t].owner == k && tasks[t].item == id
    && (tasks[t].phase != Done || !Truthy(id))
  }

  /** The lists of a worker hold exactly the ids they should, and none is empty or repeats an id. */
  ghost predicate ListsAgree(tasks: Tasks, k: WorkerId, l: Local) {
    && (forall id, t :: t in ListOf(l, id) <==> Listed(tasks, k, id, t))
    && (forall id :: id in l.itemTasks ==> l.itemTasks[id] != [] && NoRepeats(l.itemTasks[id]))
  }

  /** When task `t` belongs in the `tasks` dictionary of worker `k`. */
  ghost predicate Kept(tasks: Tasks, k: WorkerId, t: TaskId) {
    t in tasks && tasks[t].owner == k && tasks[t].phase != Done
  }

  /** Without Redis a stop may have popped the entry early. */
  ghost predicate KeysAgree(redis: bool, tasks: Tasks, k: WorkerId, l: Local) {
    && (forall t :: t in l.tasks ==> Kept(tasks, k, t))
    && (redis ==> forall t :: Kept(tasks, k, t) ==> t in l.tasks)
  }

  ghost predicate LocalsAgree(w: World) {
    && w.inboxes.Keys == w.locals.Keys
    && (forall t :: t in w.tasks ==> w.tasks[t].owner in w.locals)
    && (forall k :: k in w.locals ==>
          ListsAgree(w.tasks, k, w.locals[k]) && KeysAgree(w.redis, w.tasks, k, w.locals[k]))
  }

  lemma RegisterAgrees(redis: bool, tasks: Tasks, k: WorkerId, l: Local, t: TaskId, owner: WorkerId, id: ItemId)
    requires ListsAgree(tasks, k, l) && KeysAgree(redis, tasks, k, l) && t !in tasks
    ensures
      var tasks' := tasks[t := Task(owner, id, false, Running, {})];
      var l' := if k == owner then Registered(l, t, id) else l;
      ListsAgree(tasks', k, l') && KeysAgree(redis, tasks', k, l')
  {
    var tasks' := tasks[t := Task(owner, id, false, Running, {})];
    var l' := if k == owner then Registered(l, t, id) else l;
    assert t !in ListOf(l, id) by {
      assert !Listed(tasks, k, id, t);
    }
    forall id', u ensures u in ListOf(l', id') <==> Listed(tasks', k, id', u) {
      assert u in ListOf(l, id') <==> Listed(tasks, k, id', u);
    }
  }

  lemma ForgetAgrees(redis: bool, tasks: Tasks, k: WorkerId, l: Local, t: TaskId)
    requires ListsAgree(tasks, k, l) && KeysAgree(redis, tasks, k, l)
    requires t in tasks && tasks[t].phase != Done
    ensures
      var tasks' := tasks[t := tasks[t].(phase := Done)];
      var l' := if k == tasks[t].owner then Forgotten(l, t, tasks[t].item) else l;
      ListsAgree(tasks', k, l') && KeysAgree(redis, tasks', k, l')
  {
    var id := tasks[t].item;
    var tasks' := tasks[t := tasks[t].(phase := Done)];
    var l' := if k == tasks[t].owner then Forgotten(l, t, id) else l;
    RemoveFirstRemoves(ListOf(l, id), t);
    forall id', u ensures u in ListOf(l', id') <==> Listed(tasks', k, id', u) {
      assert u in ListOf(l, id') <==> Listed(tasks, k, id', u);
      assert t in ListOf(l, id) <==> Listed(tasks, k, id, t);
      if k == tasks[t].owner && id' == id && Truthy(id) {
        assert u in ListOf(l', id) <==> u in RemoveFirst(ListOf(l, id), t);
      }
    }
  }

  /** Tasks that keep owner, item and whether they are done. */
  ghost predicate SameListing(tasks: Tasks, tasks': Tasks) {
    && tasks.Keys == tasks'.Keys
    && (forall t :: t in tasks ==>
          && tasks'[t].owner == tasks[t].owner && tasks'[t].item == tasks[t].item
          && (tasks'[t].phase == Done <==> tasks[t].phase == Done))
  }

  lemma OtherAgrees(redis: bool, tasks: Tasks, tasks': Tasks, k: WorkerId, l: Local, l': Local)
    requires ListsAgree(tasks, k, l) && KeysAgree(redis, tasks, k, l) && SameListing(tasks, tasks')
    requires l'.itemTasks == l.itemTasks && l'.tasks <= l.tasks && (redis ==> l'.tasks == l.tasks)
    ensures ListsAgree(tasks', k, l') && KeysAgree(redis, tasks', k, l')
  {
    forall id, u ensures u in ListOf(l', id) <==> Listed(tasks', k, id, u) {
      assert u in ListOf(l, id) <==> Listed(tasks, k, id, u);
    }
    forall t ensures Kept(tasks', k, t) <==> Kept(tasks, k, t) {
    }
  }

  /** What an event other than creation and local cleanup leaves alone. */
  ghost predicate LeavesLists(w: World, w': World) {
    && SameListing(w.tasks, w'.tasks) && w'.redis == w.redis
    && w'.locals.Keys == w.locals.Keys && w'.inboxes.Keys == w.inboxes.Keys
    && (forall k :: k in w.locals ==>
          && w'.locals[k].itemTasks == w.locals[k].itemTasks
          && w'.locals[k].tasks <= w.locals[k].tasks
          && (w.redis ==> w'.locals[k].tasks == w.locals[k].tasks))
  }

  predicate TouchesTask(e: Event) { e.Save? || e.Finish? || e.Remove? || e.Drop? }

  lemma TaskEventsLeaveLists(w: World, e: Event)
    requires Enabled(w, e) && TouchesTask(e)
    ensures LeavesLists(w, Apply(w, e))
  {
  }

  lemma StopEventsLeaveLists(w: World, e: Event)
    requires Enabled(w, e) && (e.StopLocal? || e.StopTask? || e.StopItem? || e.Publish?)
    ensures LeavesLists(w, Apply(w, e))
  {
  }

  lemma ConsumeLeavesLists(w: World, e: Event)
    requires Enabled(w, e) && e.Consume?
    ensures LeavesLists(w, Apply(w, e))
  {
  }

  lemma LeavingListsAgrees(w: World, w': World)
    requires LocalsAgree(w) && LeavesLists(w, w')
    ensures LocalsAgree(w')
  {
    forall k | k in w.locals {
      OtherAgrees(w.redis, w.tasks, w'.tasks, k, w.locals[k], w'.locals[k]);
    }
  }

  lemma CreateAgrees(w: World, e: Event)
    requires LocalsAgree(w) && Enabled(w, e) && e.Create?
    ensures LocalsAgree(Apply(w, e))
  {
    var w' := Apply(w, e);
    forall k | k in w.locals
      ensures ListsAgree(w'.tasks, k, w'.locals[k]) && KeysAgree(w'.redis, w'.tasks, k, w'.locals[k])
    {
      RegisterAgrees(w.redis, w.tasks, k, w.locals[k], e.task, e.worker, e.item);
    }
  }

  lemma LocalCleanupAgrees(w: World, e: Event)
    requires LocalsAgree(w) && Enabled(w, e) && e.Forget?
    ensures LocalsAgree(Apply(w, e))
  {
    var w' := Apply(w, e);
    forall k | k in w.locals
      ensures ListsAgree(w'.tasks, k, w'.locals[k]) && KeysAgree(w'.redis, w'.tasks, k, w'.locals[k])
    {
      ForgetAgrees(w.redis, w.tasks, k, w.locals[k], e.task);
    }
  }

  lemma StepAgrees(w: World, e: Event)
    requires LocalsAgree(w) && Enabled(w, e)
    ensures LocalsAgree(Apply(w, e))
  {
    if e.Create? {
      CreateAgrees(w, e);
    } else if e.Forget? {
      LocalCleanupAgrees(w, e);
    } else {
      if TouchesTask(e) {
        TaskEventsLeaveLists(w, e);
      } else if e.Consume? {
        ConsumeLeavesLists(w, e);
      } else {
        StopEventsLeaveLists(w, e);
      }
      LeavingListsAgrees(w, Apply(w, e));
    }
  }

  /** On every run, in either mode, the dictionaries of every worker agree with its tasks. */
  lemma {:induction false} LocalsAlwaysAgree(w: World, run: seq<Event>)
    requires Start(w) && Runs(w, run)
    ensures LocalsAgree(After(w, run))
  {
    if run != [] {
      LocalsAlwaysAgree(w, run[..|run| - 1]);
      StepAgrees(After(w, run[..|run| - 1]), run[|run| - 1]);
    }
  }

  /** `t` stands at position `i` of the list under `id`. */
  ghost predicate StandsAt(l: Local, t: TaskId, id: ItemId, i: nat) {
    id in l.itemTasks && i < |l.itemTasks[id]| && l.itemTasks[id][i] == t
  }

  /** So an id in `tasks` stands in exactly one list, once, and no list is empty. */
  lemma ListedExactlyOnce(w: World, run: seq<Event>, k: WorkerId)
    requires Start(w) && Runs(w, run) && k in After(w, run).locals
    ensures var l := After(w, run).locals[k];
      forall t :: t in l.tasks ==> exists id, i: nat :: StandsAt(l, t, id, i)
                                     && forall id', j: nat :: StandsAt(l, t, id', j) ==> id' == id && j == i
    ensures forall id :: id in After(w, run).locals[k].itemTasks ==> After(w, run).locals[k].itemTasks[id] != []
  {
    LocalsAlwaysAgree(w, run);
    var s := After(w, run);
    forall t | t in s.locals[k].tasks
      ensures exists id, i: nat :: StandsAt(s.locals[k], t, id, i)
                && forall id', j: nat :: StandsAt(s.locals[k], t, id', j) ==> id' == id && j == i
    {
      StandsOnce(s.redis, s.tasks, k, s.locals[k], t);
    }
  }

  lemma StandsOnce(redis: bool, tasks: Tasks, k: WorkerId, l: Local, t: TaskId)
    requires ListsAgree(tasks, k, l) && KeysAgree(redis, tasks, k, l) && t in l.tasks
    ensures exists id, i: nat :: StandsAt(l, t, id, i)
              && forall id', j: nat :: StandsAt(l, t, id', j) ==> id' == id && j == i
  {
    var id := tasks[t].item;
    assert Listed(tasks, k, id, t);
    var i: nat :| i < |l.itemTasks[id]| && l.itemTasks[id][i] == t;
    assert StandsAt(l, t, id, i);
    forall id', j: nat | StandsAt(l, t, id', j) ensures id' == id && j == i {
      assert t in ListOf(l, id') && Listed(tasks, k, id', t);
    }
  }
}
