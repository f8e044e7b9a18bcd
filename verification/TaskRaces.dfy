/**
 * Two short runs on which the task registry leaves stale or missing entries in Redis
 * (backend/open_webui/tasks.py:58-65, :101-116).
 */
module TaskRaces {
  import opened Basics
  import opened TaskDictionaries
  import opened TaskRegistry
  import opened TaskSharing

  lemma Extend(w: World, run: seq<Event>, e: Event)
    requires Runs(w, run) && Enabled(After(w, run), e)
    ensures Runs(w, run + [e]) && After(w, run + [e]) == Apply(After(w, run), e)
  {
  }

  function OneWorker(): World {
    World(true, map[0 := Local({}, map[])], map[0 := []], Shared(map[], map[]), map[], map[])
  }

  /**
   * A task that finishes before its save goes out is saved after its cleanup: when everything has
   * settled its entry is still there.
   */
  lemma LateSaveLeaks() returns (w: World, run: seq<Event>)
    ensures Start(w) && w.redis && Runs(w, run) && Quiescent(After(w, run))
    ensures After(w, run).shared.hash != map[]
  {
    w := OneWorker();
    var i: ItemId := Some("i");
    run := [];
    Extend(w, run, Create("a", 0, i));
    run := run + [Create("a", 0, i)];
    Extend(w, run, Finish("a"));
    run := run + [Finish("a")];
    Extend(w, run, Remove("a"));
    run := run + [Remove("a")];
    Extend(w, run, Drop("a"));
    run := run + [Drop("a")];
    Extend(w, run, Forget("a"));
    run := run + [Forget("a")];
    Extend(w, run, Save("a"));
    run := run + [Save("a")];
    assert "a" in After(w, run).shared.hash;
  }

  /** One task has seen the item's set empty, another of the item has yet to be saved. */
  lemma SecondTaskWaits(a: TaskId, b: TaskId) returns (w: World, run: seq<Event>)
    requires a != b
    ensures Start(w) && w.redis && Runs(w, run)
    ensures var s := After(w, run);
      && s.redis && a in s.tasks && s.tasks[a].phase == Cleaning(true) && s.tasks[a].item == Some("i")
      && b in s.tasks && !s.tasks[b].saved && s.tasks[b].item == Some("i")
  {
    w := OneWorker();
    var i: ItemId := Some("i");
    run := [];
    Extend(w, run, Create(a, 0, i));
    run := run + [Create(a, 0, i)];
    Extend(w, run, Create(b, 0, i));
    run := run + [Create(b, 0, i)];
    Extend(w, run, Finish(a));
    run := run + [Finish(a)];
    Extend(w, run, Remove(a));
    run := run + [Remove(a)];
  }

  /** A save between another cleanup's count and its delete is lost from the item's set. */
  lemma RacingSaveIsLost() returns (w: World, run: seq<Event>)
    ensures Start(w) && w.redis && Runs(w, run)
    ensures !Exact(After(w, run).shared, "i")
  {
    var a, b := "a", "b";
    assert a[0] != b[0];
    w, run := SecondTaskWaits(a, b);
    Extend(w, run, Save(b));
    run := run + [Save(b)];
    Extend(w, run, Drop(a));
    run := run + [Drop(a)];
    assert Maps(After(w, run).shared, b, "i");
  }
}
