/**
 * The dictionaries behind the task registry (backend/open_webui/tasks.py): the two module-level
 * dictionaries of a worker process, and the hash and sets it shares through Redis.
 */
module TaskDictionaries {
  import opened Basics

  type TaskId = string

  /** The id given to `create_task`; None and the empty string are both falsy. */
  type ItemId = Option<string>

  function Truthy(id: ItemId): bool { id.Some? && id.value != "" }

  // ----- a worker's dictionaries ---------------------------------------------------------------

  datatype Local = Local(tasks: set<TaskId>, itemTasks: map<ItemId, seq<TaskId>>)

  function ListOf(l: Local, id: ItemId): seq<TaskId> {
    if id in l.itemTasks then l.itemTasks[id] else []
  }

  function RemoveFirst(s: seq<TaskId>, t: TaskId): seq<TaskId> {
    if s == [] then []
    else if s[0] == t then s[1..]
    else [s[0]] + RemoveFirst(s[1..], t)
  }

  lemma {:induction false} RemoveFirstRemoves(s: seq<TaskId>, t: TaskId)
    requires NoRepeats(s)
    ensures NoRepeats(RemoveFirst(s, t))
    ensures forall u :: u in RemoveFirst(s, t) <==> u in s && u != t
  {
    if s != [] {
      RemoveFirstRemoves(s[1..], t);
      assert s == [s[0]] + s[1..];
      assert s[0] !in s[1..];
    }
  }

  /** A new task joins `tasks` and the list of its item. */
  function Registered(l: Local, t: TaskId, id: ItemId): Local {
    Local(l.tasks + {t}, l.itemTasks[id := ListOf(l, id) + [t]])
  }

  /** A finished task leaves both; a list that becomes empty leaves with it. */
  function Forgotten(l: Local, t: TaskId, id: ItemId): Local {
    Local(l.tasks - {t},
          if Truthy(id) && t in ListOf(l, id) then
            var rest := RemoveFirst(ListOf(l, id), t);
            if rest == [] then l.itemTasks - {id} else l.itemTasks[id := rest]
          else l.itemTasks)
  }

  class Worker {
    var tasks: set<TaskId>
    var itemTasks: map<ItemId, seq<TaskId>>

    ghost function Value(): Local
      reads this
    {
      Local(tasks, itemTasks)
    }

    constructor ()
      ensures Value() == Local({}, map[])
    {
      tasks, itemTasks := {}, map[];
    }

    /** The synchronous part of `create_task`. */
    method Register(t: TaskId, id: ItemId)
      modifies this
      ensures Value() == Registered(old(Value()), t, id)
    {
      tasks := tasks + {t};
      if id in itemTasks && itemTasks[id] != [] {
        itemTasks := itemTasks[id := itemTasks[id] + [t]];
      } else {
        assert ListOf(Value(), id) + [t] == [t];
        itemTasks := itemTasks[id := [t]];
      }
    }

    /** The local part of `cleanup_task`. */
    method Forget(t: TaskId, id: ItemId)
      modifies this
      ensures Value() == Forgotten(old(Value()), t, id)
    {
      tasks := tasks - {t};
      if Truthy(id) && id in itemTasks && t in itemTasks[id] {
        itemTasks := itemTasks[id := RemoveFirst(itemTasks[id], t)];
        if itemTasks[id] == [] {
          itemTasks := itemTasks - {id};
          assert itemTasks == old(itemTasks) - {id};
        }
      }
    }

    /** `stop_task` without Redis: the entry is popped; the item's list keeps the id until cleanup. */
    method PopTask(t: TaskId) returns (found: bool)
      modifies this
      ensures found == (t in old(tasks))
      ensures Value() == old(Value()).(tasks := old(tasks) - {t})
    {
      found := t in tasks;
      tasks := tasks - {t};
    }
  }

  // ----- the shared store ------------------------------------------------------------------------

  /** The Redis hash and sets; Redis keeps no empty set. */
  datatype Shared = Shared(hash: map<TaskId, string>, sets: map<string, set<TaskId>>)

  function Members(s: Shared, item: string): set<TaskId> {
    if item in s.sets then s.sets[item] else {}
  }

  function WithMembers(s: Shared, item: string, members: set<TaskId>): map<string, set<TaskId>> {
    if members == {} then s.sets - {item} else s.sets[item := members]
  }

  function HashValue(id: ItemId): string { if id.Some? then id.value else "" }

  /** The pipeline of `redis_save_task`. */
  function Saved(s: Shared, t: TaskId, id: ItemId): Shared {
    Shared(s.hash[t := HashValue(id)],
           if Truthy(id) then WithMembers(s, id.value, Members(s, id.value) + {t}) else s.sets)
  }

  /** The first round trip of `redis_cleanup_task`. */
  function Removed(s: Shared, t: TaskId, id: ItemId): Shared {
    Shared(s.hash - {t},
           if Truthy(id) then WithMembers(s, id.value, Members(s, id.value) - {t}) else s.sets)
  }

  /** What its `scard` answered: whether the item's set key is to be deleted next. */
  function LeftEmpty(s: Shared, t: TaskId, id: ItemId): bool {
    Truthy(id) && Members(s, id.value) - {t} == {}
  }

  /** The second round trip, made only after an empty answer. */
  function Dropped(s: Shared, item: string): Shared {
    s.(sets := s.sets - {item})
  }

  class RedisStore {
    var hash: map<TaskId, string>
    var sets: map<string, set<TaskId>>

    ghost function Value(): Shared
      reads this
    {
      Shared(hash, sets)
    }

    constructor ()
      ensures Value() == Shared(map[], map[])
    {
      hash, sets := map[], map[];
    }

    method SaveTask(t: TaskId, id: ItemId)
      modifies this
      ensures Value() == Saved(old(Value()), t, id)
    {
      hash := hash[t := if id.Some? then id.value else ""];
      if Truthy(id) {
        sets := sets[id.value := (if id.value in sets then sets[id.value] else {}) + {t}];
      }
    }

    method RemoveTask(t: TaskId, id: ItemId) returns (empty: bool)
      modifies this
      ensures Value() == Removed(old(Value()), t, id)
      ensures empty == LeftEmpty(old(Value()), t, id)
    {
      hash := hash - {t};
      empty := false;
      if Truthy(id) {
        var left := (if id.value in sets then sets[id.value] else {}) - {t};
        empty := left == {};
        sets := if empty then sets - {id.value} else sets[id.value := left];
      }
    }

    method DropItem(item: string)
      modifies this
      ensures Value() == Dropped(old(Value()), item)
    {
      sets := sets - {item};
    }
  }
}
