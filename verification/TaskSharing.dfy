/**
 * What the Redis hash and item sets hold on every run of the task registry
 * (backend/open_webui/tasks.py:50-118).
 */
module TaskSharing {
  import opened Basics
  import opened TaskDictionaries
  import opened TaskRegistry

  /** Not yet removed from Redis by its cleanup. */
  predicate Unremoved(p: Phase) { p == Running || p == Finished }

  /** Every hash entry is a saved task with its item; every unremoved saved task has one. */
  ghost predicate HashAgrees(tasks: Tasks, s: Shared) {
    && (forall t :: t in s.hash ==> t in tasks && tasks[t].saved && s.hash[t] == HashValue(tasks[t].item))
    && (forall t :: t in tasks && tasks[t].saved && Unremoved(tasks[t].phase) ==> t in s.hash)
  }

  /** The hash maps the task to a named item. */
  predicate Maps(s: Shared, t: TaskId, i: string) {
    i != "" && t in s.hash && s.hash[t] == i
  }

  /** Each item set lists only ids the hash maps to that item, and no set is empty. */
  ghost predicate SetsAgree(s: Shared) {
    && (forall i, t :: t in Members(s, i) ==> Maps(s, t, i))
    && (forall i :: i in s.sets ==> s.sets[i] != {})
  }

  /** A set is only ever scheduled for deletion on behalf of a named item. */
  ghost predicate DropsAgree(tasks: Tasks) {
    forall t :: t in tasks && tasks[t].phase == Cleaning(true) ==> Truthy(tasks[t].item)
  }

  ghost predicate StoreAgrees(w: World) {
    HashAgrees(w.tasks, w.shared) && SetsAgree(w.shared) && DropsAgree(w.tasks)
  }

  lemma SavedAgrees(tasks: Tasks, s: Shared, t: TaskId)
    requires HashAgrees(tasks, s) && SetsAgree(s) && t in tasks && !tasks[t].saved
    ensures HashAgrees(tasks[t := tasks[t].(saved := true)], Saved(s, t, tasks[t].item))
    ensures SetsAgree(Saved(s, t, tasks[t].item))
  {
    var id, s' := tasks[t].item, Saved(s, t, tasks[t].item);
    forall i, u | u in Members(s', i) ensures Maps(s', u, i) {
      assert u in Members(s, i) || (Truthy(id) && i == id.value && u == t);
    }
  }

  lemma RemovedAgrees(tasks: Tasks, s: Shared, t: TaskId, p: Phase)
    requires HashAgrees(tasks, s) && SetsAgree(s) && t in tasks && !Unremoved(p)
    ensures HashAgrees(tasks[t := tasks[t].(phase := p)], Removed(s, t, tasks[t].item))
    ensures SetsAgree(Removed(s, t, tasks[t].item))
  {
    var id, s' := tasks[t].item, Removed(s, t, tasks[t].item);
    forall i, u | u in Members(s', i) ensures Maps(s', u, i) {
      assert u in Members(s, i);
    }
  }

  lemma DroppedAgrees(tasks: Tasks, s: Shared, i: string)
    requires HashAgrees(tasks, s) && SetsAgree(s)
    ensures HashAgrees(tasks, Dropped(s, i)) && SetsAgree(Dropped(s, i))
  {
    forall j, u | u in Members(Dropped(s, i), j) ensures u in Members(s, j) {
    }
  }

  /** Task tables that agree on what the store depends on. */
  ghost predicate SameSaving(tasks: Tasks, tasks': Tasks) {
    forall t :: t in tasks ==> t in tasks' && tasks'[t].saved == tasks[t].saved && tasks'[t].item == tasks[t].item
  }

  lemma OtherStoreAgrees(tasks: Tasks, tasks': Tasks, s: Shared)
    requires HashAgrees(tasks, s) && SameSaving(tasks, tasks')
    requires forall t :: t in tasks' && t !in tasks ==> !tasks'[t].saved
    requires forall t :: t in tasks && Unremoved(tasks'[t].phase) ==> Unremoved(tasks[t].phase)
    ensures HashAgrees(tasks', s)
  {
  }

  lemma StoreStep(w: World, e: Event)
    requires StoreAgrees(w) && Enabled(w, e)
    ensures StoreAgrees(Apply(w, e))
  {
    match e
    case Save(t) => SavedAgrees(w.tasks, w.shared, t);
    case Remove(t) => RemovedAgrees(w.tasks, w.shared, t, Apply(w, e).tasks[t].phase);
    case Drop(t) => DropStep(w, t);
    case _ => OtherStoreStep(w, e);
  }

  lemma DropStep(w: World, t: TaskId)
    requires StoreAgrees(w) && Enabled(w, Drop(t))
    ensures StoreAgrees(Apply(w, Drop(t)))
  {
    DroppedAgrees(w.tasks, w.shared, HashValue(w.tasks[t].item));
    var w' := Apply(w, Drop(t));
    OtherStoreAgrees(w.tasks, w'.tasks, w'.shared);
  }

  lemma OtherStoreStep(w: World, e: Event)
    requires StoreAgrees(w) && Enabled(w, e) && !e.Save? && !e.Remove? && !e.Drop?
    ensures StoreAgrees(Apply(w, e)) && Apply(w, e).shared == w.shared
  {
    var w' := Apply(w, e);
    OtherTasks(w, e);
    OtherStoreAgrees(w.tasks, w'.tasks, w.shared);
  }

  /** The store is left alone, and no task gets closer to Redis or further from it. */
  ghost predicate LeavesStore(w: World, w': World) {
    && w'.shared == w.shared
    && SameSaving(w.tasks, w'.tasks)
    && (forall t :: t in w'.tasks && t !in w.tasks ==> !w'.tasks[t].saved && w'.tasks[t].phase == Running)
    && (forall t :: t in w.tasks && Unremoved(w'.tasks[t].phase) ==> Unremoved(w.tasks[t].phase))
    && (forall t :: t in w.tasks && w'.tasks[t].phase == Cleaning(true) ==> w.tasks[t].phase == Cleaning(true))
  }

  lemma StopsLeaveStore(w: World, e: Event)
    requires Enabled(w, e) && (e.StopLocal? || e.StopTask? || e.StopItem? || e.Publish?)
    ensures LeavesStore(w, Apply(w, e))
  {
  }

  lemma ConsumeLeavesStore(w: World, e: Event)
    requires Enabled(w, e) && e.Consume?
    ensures LeavesStore(w, Apply(w, e))
  {
  }

  lemma LifeLeavesStore(w: World, e: Event)
    requires Enabled(w, e) && (e.Create? || e.Finish? || e.Forget?)
    ensures LeavesStore(w, Apply(w, e))
  {
  }

  lemma OtherTasks(w: World, e: Event)
    requires Enabled(w, e) && !e.Save? && !e.Remove? && !e.Drop?
    ensures LeavesStore(w, Apply(w, e))
  {
    if e.Create? || e.Finish? || e.Forget? {
      LifeLeavesStore(w, e);
    } else if e.Consume? {
      ConsumeLeavesStore(w, e);
    } else {
      StopsLeaveStore(w, e);
    }
  }

  /** On every interleaving the item sets list only ids the hash maps to that item. */
  lemma {:induction false} StoreAlwaysAgrees(w: World, run: seq<Event>)
    requires Start(w) && Runs(w, run)
    ensures StoreAgrees(After(w, run))
  {
    if run != [] {
      StoreAlwaysAgrees(w, run[..|run| - 1]);
      StoreStep(After(w, run[..|run| - 1]), run[|run| - 1]);
    }
  }

  // ----- when an item set is exact ---------------------------------------------------------------

  /** The item set lists every id the hash maps to the item. */
  ghost predicate Exact(s: Shared, i: string) {
    forall t :: Maps(s, t, i) ==> t in Members(s, i)
  }

  /** The event deletes the item's set although it has members. */
  ghost predicate Discards(w: World, e: Event, i: string) {
    e.Drop? && Enabled(w, e) && w.tasks[e.task].item == Some(i) && Members(w.shared, i) != {}
  }

  lemma SaveKeepsExact(s: Shared, t: TaskId, id: ItemId, i: string)
    requires Exact(s, i)
    ensures Exact(Saved(s, t, id), i)
  {
    forall u | Maps(Saved(s, t, id), u, i) ensures u in Members(Saved(s, t, id), i) {
      assert u != t ==> Maps(s, u, i) && u in Members(s, i);
    }
  }

  lemma RemoveKeepsExact(s: Shared, t: TaskId, id: ItemId, i: string)
    requires Exact(s, i) && SetsAgree(s)
    ensures Exact(Removed(s, t, id), i)
  {
    forall u | Maps(Removed(s, t, id), u, i) ensures u in Members(Removed(s, t, id), i) {
      assert u in Members(s, i);
    }
  }

  lemma DropExact(s: Shared, i: string, j: string)
    requires SetsAgree(s) && Exact(s, i)
    ensures Exact(Dropped(s, j), i) <==> !(j == i && Members(s, i) != {})
  {
    if u :| u in Members(s, i) {
      assert Maps(Dropped(s, j), u, i);
      assert j == i ==> u !in Members(Dropped(s, j), i);
    }
    if j != i {
      assert Members(Dropped(s, j), i) == Members(s, i);
    }
  }

  lemma ExactStep(w: World, e: Event, i: string)
    requires StoreAgrees(w) && Enabled(w, e) && i != "" && Exact(w.shared, i)
    ensures Exact(Apply(w, e).shared, i) <==> !Discards(w, e, i)
  {
    match e
    case Save(t) => SaveKeepsExact(w.shared, t, w.tasks[t].item, i);
    case Remove(t) => RemoveKeepsExact(w.shared, t, w.tasks[t].item, i);
    case Drop(t) => DropExact(w.shared, i, HashValue(w.tasks[t].item));
    case _ => OtherStoreStep(w, e);
  }

  ghost predicate AlwaysExact(w: World, run: seq<Event>, i: string)
    requires Runs(w, run)
  {
    Exact(After(w, run).shared, i) && (run == [] || AlwaysExact(w, run[..|run| - 1], i))
  }

  ghost predicate NeverDiscards(w: World, run: seq<Event>, i: string)
    requires Runs(w, run)
  {
    run == [] || (NeverDiscards(w, run[..|run| - 1], i) && !Discards(After(w, run[..|run| - 1]), run[|run| - 1], i))
  }

  /**
   * The set of item `i` is exact in every state of a run if and only if no cleanup of the run
   * deletes it while it has members.
   */
  lemma {:induction false} ItemSetExact(w: World, run: seq<Event>, i: string)
    requires Start(w) && Runs(w, run) && i != ""
    ensures AlwaysExact(w, run, i) <==> NeverDiscards(w, run, i)
  {
    if run != [] {
      var front := run[..|run| - 1];
      ItemSetExact(w, front, i);
      StoreAlwaysAgrees(w, front);
      if AlwaysExact(w, front, i) {
        ExactStep(After(w, front), run[|run| - 1], i);
      }
    }
  }

  /** Some cleanup has seen the item's set empty and has yet to delete it. */
  ghost predicate Pending(tasks: Tasks, i: string) {
    exists t :: t in tasks && tasks[t].phase == Cleaning(true) && tasks[t].item == Some(i)
  }

  /** A save for the item that falls between a cleanup's count and its delete. */
  ghost predicate Races(w: World, e: Event, i: string) {
    e.Save? && Enabled(w, e) && w.tasks[e.task].item == Some(i) && Pending(w.tasks, i)
  }

  ghost predicate NeverRaces(w: World, run: seq<Event>, i: string)
    requires Runs(w, run)
  {
    run == [] || (NeverRaces(w, run[..|run| - 1], i) && !Races(After(w, run[..|run| - 1]), run[|run| - 1], i))
  }

  lemma PendingStep(w: World, e: Event, i: string)
    requires StoreAgrees(w) && Enabled(w, e) && i != "" && !Races(w, e, i)
    requires Pending(w.tasks, i) ==> Members(w.shared, i) == {}
    ensures Pending(Apply(w, e).tasks, i) ==> Members(Apply(w, e).shared, i) == {}
  {
  }

  /** Without such a save no cleanup deletes members, so the item's set stays exact throughout. */
  lemma {:induction false} NoRaceNoDiscard(w: World, run: seq<Event>, i: string)
    requires Start(w) && Runs(w, run) && i != "" && NeverRaces(w, run, i)
    ensures NeverDiscards(w, run, i) && AlwaysExact(w, run, i)
    ensures Pending(After(w, run).tasks, i) ==> Members(After(w, run).shared, i) == {}
  {
    if run != [] {
      var front, e := run[..|run| - 1], run[|run| - 1];
      NoRaceNoDiscard(w, front, i);
      StoreAlwaysAgrees(w, front);
      PendingStep(After(w, front), e, i);
    }
    ItemSetExact(w, run, i);
  }

  // ----- quiescence ------------------------------------------------------------------------------

  /** The task was saved only after its cleanup had removed it. */
  ghost predicate Late(w: World, run: seq<Event>, t: TaskId)
    requires Runs(w, run)
  {
    run != [] && (Late(w, run[..|run| - 1], t) || IsLateSave(After(w, run[..|run| - 1]), run[|run| - 1], t))
  }

  ghost predicate IsLateSave(w: World, e: Event, t: TaskId) {
    e == Save(t) && Enabled(w, e) && !Unremoved(w.tasks[t].phase)
  }

  /** The task's entry can only be there because of a late save. */
  ghost predicate Overdue(w: World, t: TaskId) {
    t in w.shared.hash && t in w.tasks && !Unremoved(w.tasks[t].phase)
  }

  lemma LateStep(w: World, e: Event, t: TaskId)
    requires w.redis && StoreAgrees(w) && Enabled(w, e)
    ensures Overdue(Apply(w, e), t) <==> Overdue(w, t) || IsLateSave(w, e, t)
  {
  }

  lemma StepKeepsMode(w: World, e: Event)
    requires Enabled(w, e)
    ensures Apply(w, e).redis == w.redis
  {
  }

  lemma {:induction false} RedisStays(w: World, run: seq<Event>)
    requires Runs(w, run)
    ensures After(w, run).redis == w.redis
  {
    if run != [] {
      RedisStays(w, run[..|run| - 1]);
      StepKeepsMode(After(w, run[..|run| - 1]), run[|run| - 1]);
    }
  }

  /** A hash entry outlives its task's cleanup exactly when the save came late. */
  lemma {:induction false} OverdueMeansLate(w: World, run: seq<Event>, t: TaskId)
    requires Start(w) && w.redis && Runs(w, run)
    ensures Overdue(After(w, run), t) <==> Late(w, run, t)
  {
    if run != [] {
      var front := run[..|run| - 1];
      OverdueMeansLate(w, front, t);
      StoreAlwaysAgrees(w, front);
      RedisStays(w, front);
      LateStep(After(w, front), run[|run| - 1], t);
    }
  }

  /** Every task has finished, been cleaned up and, with Redis, been saved. */
  ghost predicate Quiescent(w: World) {
    forall t :: t in w.tasks ==> w.tasks[t].phase == Done && (w.redis ==> w.tasks[t].saved)
  }

  /**
   * Once everything has settled, the hash holds exactly the tasks saved after their cleanup, so it
   * is empty if and only if every save came first; empty of entries, it leaves no item set.
   */
  lemma QuiescentStore(w: World, run: seq<Event>)
    requires Start(w) && w.redis && Runs(w, run) && Quiescent(After(w, run))
    ensures forall t :: t in After(w, run).shared.hash <==> Late(w, run, t)
    ensures After(w, run).shared == Shared(map[], map[]) <==> forall t :: !Late(w, run, t)
  {
    var s := After(w, run);
    StoreAlwaysAgrees(w, run);
    forall t ensures t in s.shared.hash <==> Late(w, run, t) {
      OverdueMeansLate(w, run, t);
    }
    if forall t :: !Late(w, run, t) {
      forall i | i in s.shared.sets ensures false {
        var t :| t in s.shared.sets[i];
        assert t in Members(s.shared, i);
      }
      assert s.shared.sets == map[] && s.shared.hash == map[];
    }
  }

  /** And, in either mode, every worker's `tasks` is empty and only falsy ids still have a list. */
  lemma QuiescentWorkers(w: World, run: seq<Event>, k: WorkerId)
    requires Start(w) && Runs(w, run) && Quiescent(After(w, run)) && k in After(w, run).locals
    ensures After(w, run).locals[k].tasks == {}
    ensures forall id :: id in After(w, run).locals[k].itemTasks ==> !Truthy(id)
    ensures forall t, id :: t in ListOf(After(w, run).locals[k], id) <==>
      t in After(w, run).tasks && After(w, run).tasks[t].owner == k && After(w, run).tasks[t].item == id && !Truthy(id)
  {
    LocalsAlwaysAgree(w, run);
    var s := After(w, run);
    var l := s.locals[k];
    forall id | id in l.itemTasks ensures !Truthy(id) {
      assert l.itemTasks[id][0] in ListOf(l, id);
    }
    forall t, id ensures t in ListOf(l, id) <==> Listed(s.tasks, k, id, t) {
    }
  }
}
