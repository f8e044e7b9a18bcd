/**
 * The configuration kept by several processes: each has its own copy of the document and its own
 * values, and all share one database row and, when configured, one Redis server
 * (backend/open_webui/config.py:121-283).
 */
module ConfigStore {
  import opened Basics
  import opened ConfigTree

  /** A split path always has a part. */
  type Address = p: Path | p != [] witness [""]

  /** The path of each attribute. */
  type Layout = map<string, Address>

  ghost predicate Laid(layout: Layout) {
    forall j, k :: j in layout && k in layout && j != k ==> Apart(layout[j], layout[k])
  }

  datatype Worker = Worker(data: Json, values: map<string, Json>)

  /** A Redis text that is not JSON is None; no Redis at all is None for the whole server. */
  type Redis = Option<map<string, Option<Json>>>

  datatype World = World(workers: seq<Worker>, row: Option<Json>, redis: Redis)

  /** `order` lists the registered attributes, in the order save_config updates them. */
  datatype Event =
    | Assign(w: nat, key: string, value: Json)
    | Fetch(w: nat, key: string)
    | Import(w: nat, doc: Json, order: seq<string>)

  const DEFAULT_CONFIG := Dict(map["version" := Num(0.0), "ui" := Dict(map[])])

  function LoadedDocument(row: Option<Json>): Json {
    if row.Some? then row.value else DEFAULT_CONFIG
  }

  /** Without a row the document has its version and an empty `ui`, and nothing else. */
  lemma DefaultReads(p: Path)
    requires p != []
    ensures Get(LoadedDocument(None), p) ==
      if p == ["version"] then Value(Num(0.0))
      else if p == ["ui"] then Value(Dict(map[]))
      else if p[0] == "version" then Raised
      else Value(Null)
  {
    assert "version"[0] != "ui"[0];
    if p[0] == "version" && |p| > 1 {
      ThroughNumber(p[1..]);
    } else if p[0] == "ui" && |p| > 1 {
      ThroughEmpty(p[1..]);
    }
  }

  lemma ThroughNumber(p: Path)
    requires p != []
    ensures Get(Num(0.0), p) == Raised
  {
  }

  lemma ThroughEmpty(p: Path)
    requires p != []
    ensures Get(Dict(map[]), p) == Value(Null)
  {
  }

  /** Setting an attribute: the value is set first, and stays set when the save raises. */
  function Assigned(layout: Layout, worker: Worker, key: string, v: Json): (r: (Worker, bool))
    requires key in layout
  {
    var put := Put(worker.data, layout[key], v);
    (Worker(if put.Some? then put.value else worker.data, worker.values[key := v]), put.Some?)
  }

  /** Getting an attribute first takes over what Redis holds. */
  function Fetched(worker: Worker, redis: Redis, key: string): Worker {
    if redis.Some? && key in redis.value && redis.value[key].Some?
    then worker.(values := worker.values[key := redis.value[key].value])
    else worker
  }

  function Published(redis: Redis, key: string, v: Json): Redis {
    if redis.Some? then Some(redis.value[key := Some(v)]) else None
  }

  /** One attribute's update from what the document holds; the flag is false for a TypeError. */
  function Refreshed(values: map<string, Json>, key: string, read: Read): (map<string, Json>, bool) {
    match read
    case Raised => (values, false)
    case Value(Null) => (values, true)
    case Value(v) => (values[key := v], true)
  }

  /** The update loop of save_config over the registered attributes; a TypeError ends it. */
  function Updated(layout: Layout, order: seq<string>, values: map<string, Json>, doc: Json)
    : (map<string, Json>, bool)
  {
    if order == [] then (values, true)
    else
      var front := Updated(layout, order[..|order| - 1], values, doc);
      var key := order[|order| - 1];
      if !front.1 || key !in layout then front
      else Refreshed(front.0, key, Get(doc, layout[key]))
  }

  /** save_config writes the row, the worker's document and its values, and leaves Redis alone. */
  function Imported(layout: Layout, order: seq<string>, worker: Worker, doc: Json): Worker {
    Worker(doc, Updated(layout, order, worker.values, doc).0)
  }

  function Apply(layout: Layout, s: World, e: Event): World {
    if e.w >= |s.workers| then s
    else match e
      case Assign(w, key, v) =>
        if key !in layout then s
        else
          var r := Assigned(layout, s.workers[w], key, v);
          if r.1 then World(s.workers[w := r.0], Some(r.0.data), Published(s.redis, key, v))
          else s.(workers := s.workers[w := r.0])
      case Fetch(w, key) =>
        if key !in layout then s else s.(workers := s.workers[w := Fetched(s.workers[w], s.redis, key)])
      case Import(w, doc, order) =>
        World(s.workers[w := Imported(layout, order, s.workers[w], doc)], Some(doc), s.redis)
  }

  function After(layout: Layout, start: World, run: seq<Event>): World {
    if run == [] then start
    else Apply(layout, After(layout, start, run[..|run| - 1]), run[|run| - 1])
  }

  lemma {:induction false} WorkersStay(layout: Layout, start: World, run: seq<Event>)
    ensures |After(layout, start, run).workers| == |start.workers|
  {
    if run != [] {
      WorkersStay(layout, start, run[..|run| - 1]);
    }
  }

  // ----- each worker's document ----------------------------------------------------------------------

  ghost predicate Writable(layout: Layout, s: World, w: nat, key: string) {
    w < |s.workers| && key in layout && Open(s.workers[w].data, layout[key])
  }

  predicate Replaces(e: Event, w: nat) {
    e.Import? && e.w == w
  }

  lemma StepKeepsWritable(layout: Layout, s: World, e: Event, w: nat, key: string)
    requires Laid(layout) && !Replaces(e, w)
    ensures Writable(layout, Apply(layout, s, e), w, key) <==> Writable(layout, s, w, key)
  {
    if e.Assign? && e.w == w && w < |s.workers| && e.key in layout && key in layout {
      var doc := s.workers[w].data;
      if Put(doc, layout[e.key], e.value).Some? {
        SaveKeepsOpen(doc, layout[e.key], e.value, layout[key]);
      }
    }
  }

  /** Whether a worker can save an attribute never changes, unless it imports a document. */
  lemma {:induction false} WritableForever(layout: Layout, start: World, run: seq<Event>, w: nat, key: string)
    requires Laid(layout) && forall e :: e in run ==> !Replaces(e, w)
    ensures Writable(layout, After(layout, start, run), w, key) <==> Writable(layout, start, w, key)
  {
    if run != [] {
      var front, e := run[..|run| - 1], run[|run| - 1];
      assert e in run && forall x :: x in front ==> x in run;
      WritableForever(layout, start, front, w, key);
      StepKeepsWritable(layout, After(layout, start, front), e, w, key);
    }
  }

  /** The assignment reaches the document. */
  ghost predicate Lands(layout: Layout, s: World, e: Event) {
    e.Assign? && Writable(layout, s, e.w, e.key)
  }

  /** What worker `w` last put at the attribute: a value it saved or a document it imported. */
  ghost function Reading(layout: Layout, start: World, run: seq<Event>, w: nat, key: string): Read
    requires w < |start.workers| && key in layout
  {
    if run == [] then Get(start.workers[w].data, layout[key])
    else
      var front, last := run[..|run| - 1], run[|run| - 1];
      if Replaces(last, w) then Get(last.doc, layout[key])
      else if Lands(layout, After(layout, start, front), last) && last.w == w && last.key == key then Value(last.value)
      else Reading(layout, start, front, w, key)
  }

  lemma StepReads(layout: Layout, s: World, e: Event, w: nat, key: string)
    requires Laid(layout) && w < |s.workers| && key in layout
    ensures |Apply(layout, s, e).workers| == |s.workers|
    ensures Get(Apply(layout, s, e).workers[w].data, layout[key]) ==
      if Replaces(e, w) then Get(e.doc, layout[key])
      else if Lands(layout, s, e) && e.w == w && e.key == key then Value(e.value)
      else Get(s.workers[w].data, layout[key])
  {
    if e.Assign? && e.w == w && e.key in layout {
      var doc := s.workers[w].data;
      PutSucceeds(doc, layout[e.key], e.value);
      if Put(doc, layout[e.key], e.value).Some? {
        if e.key == key {
          ReadsSaved(doc, layout[key], e.value);
        } else {
          ReadsUntouched(doc, layout[e.key], e.value, layout[key]);
        }
      }
    }
  }

  /**
   * On every run of any number of workers, each worker's document reads, at every attribute, as what
   * that worker last saved or imported there, and as it started where the worker put nothing.
   */
  lemma {:induction false} DocumentReads(layout: Layout, start: World, run: seq<Event>, w: nat, key: string)
    requires Laid(layout) && w < |start.workers| && key in layout
    ensures |After(layout, start, run).workers| == |start.workers|
    ensures Get(After(layout, start, run).workers[w].data, layout[key]) == Reading(layout, start, run, w, key)
  {
    if run != [] {
      var front, e := run[..|run| - 1], run[|run| - 1];
      DocumentReads(layout, start, front, w, key);
      StepReads(layout, After(layout, start, front), e, w, key);
    }
  }

  // ----- the row and Redis ---------------------------------------------------------------------------

  /** The event writes the row. */
  ghost predicate WritesRow(layout: Layout, s: World, e: Event) {
    Lands(layout, s, e) || (e.Import? && e.w < |s.workers|)
  }

  ghost function LastWriter(layout: Layout, start: World, run: seq<Event>): Option<nat> {
    if run == [] then None
    else if WritesRow(layout, After(layout, start, run[..|run| - 1]), run[|run| - 1]) then Some(run[|run| - 1].w)
    else LastWriter(layout, start, run[..|run| - 1])
  }

  ghost function LastSaved(layout: Layout, start: World, run: seq<Event>, key: string): Option<Json> {
    if run == [] then None
    else
      var front, last := run[..|run| - 1], run[|run| - 1];
      if Lands(layout, After(layout, start, front), last) && last.key == key then Some(last.value)
      else LastSaved(layout, start, front, key)
  }

  lemma StepRow(layout: Layout, s: World, e: Event)
    ensures |Apply(layout, s, e).workers| == |s.workers|
    ensures Apply(layout, s, e).row ==
      if WritesRow(layout, s, e) then Some(Apply(layout, s, e).workers[e.w].data) else s.row
    ensures Apply(layout, s, e).redis == if Lands(layout, s, e) then Published(s.redis, e.key, e.value) else s.redis
    ensures !WritesRow(layout, s, e) ==> forall w :: 0 <= w < |s.workers| ==>
      Apply(layout, s, e).workers[w].data == s.workers[w].data
  {
    if e.Assign? && e.w < |s.workers| && e.key in layout {
      PutSucceeds(s.workers[e.w].data, layout[e.key], e.value);
    }
  }

  /** The row is always the whole document of the worker that saved or imported last. */
  lemma {:induction false} RowIsLastWriters(layout: Layout, start: World, run: seq<Event>)
    ensures match LastWriter(layout, start, run)
      case None => After(layout, start, run).row == start.row
      case Some(w) =>
        w < |After(layout, start, run).workers| &&
        After(layout, start, run).row == Some(After(layout, start, run).workers[w].data)
  {
    if run != [] {
      RowIsLastWriters(layout, start, run[..|run| - 1]);
      StepRow(layout, After(layout, start, run[..|run| - 1]), run[|run| - 1]);
    }
  }

  /** Redis holds, for every attribute saved by anyone, the value saved last; imports never reach it. */
  lemma {:induction false} RedisHoldsLast(layout: Layout, start: World, run: seq<Event>, key: string)
    requires start.redis.Some?
    ensures After(layout, start, run).redis.Some?
    ensures var redis := After(layout, start, run).redis.value;
      match LastSaved(layout, start, run, key)
      case None => (key in redis <==> key in start.redis.value) &&
                   (key in redis ==> redis[key] == start.redis.value[key])
      case Some(v) => key in redis && redis[key] == Some(v)
  {
    if run != [] {
      RedisHoldsLast(layout, start, run[..|run| - 1], key);
      StepRow(layout, After(layout, start, run[..|run| - 1]), run[|run| - 1]);
    }
  }

  lemma {:induction false} SavedHasWriter(layout: Layout, start: World, run: seq<Event>, key: string)
    requires LastSaved(layout, start, run, key).Some?
    ensures LastWriter(layout, start, run).Some?
    ensures LastWriter(layout, start, run).value < |start.workers| && key in layout
  {
    var front, e := run[..|run| - 1], run[|run| - 1];
    WorkersStay(layout, start, front);
    if !(Lands(layout, After(layout, start, front), e) && e.key == key) {
      SavedHasWriter(layout, start, front, key);
    }
  }

  ghost predicate Holds(s: World, key: string, v: Json) {
    s.redis.Some? && key in s.redis.value && s.redis.value[key] == Some(v)
  }

  ghost predicate RowAgrees(layout: Layout, s: World, key: string)
    requires key in layout
  {
    s.redis.Some? && key in s.redis.value && s.redis.value[key].Some? &&
    Get(LoadedDocument(s.row), layout[key]) == Value(s.redis.value[key].value)
  }

  /**
   * After any run the database agrees with Redis on a saved attribute exactly when the worker that
   * wrote last, anything at all, has in its own document the value saved last for that attribute.
   */
  lemma RowAgreesIff(layout: Layout, start: World, run: seq<Event>, key: string)
    requires Laid(layout) && start.redis.Some? && LastSaved(layout, start, run, key).Some?
    ensures LastWriter(layout, start, run).Some?
    ensures LastWriter(layout, start, run).value < |start.workers| && key in layout
    ensures RowAgrees(layout, After(layout, start, run), key) <==>
      Reading(layout, start, run, LastWriter(layout, start, run).value, key)
        == Value(LastSaved(layout, start, run, key).value)
  {
    SavedHasWriter(layout, start, run, key);
    RedisHoldsLast(layout, start, run, key);
    RowIsLastWriters(layout, start, run);
    DocumentReads(layout, start, run, LastWriter(layout, start, run).value, key);
  }

  /** One worker makes all assignments and imports. */
  ghost predicate OnlyWriter(run: seq<Event>, w: nat) {
    forall e :: e in run && !e.Fetch? ==> e.w == w
  }

  ghost predicate NoImports(run: seq<Event>) {
    forall e :: e in run ==> !e.Import?
  }

  lemma {:induction false} OneWriter(layout: Layout, start: World, run: seq<Event>, w: nat, key: string)
    requires OnlyWriter(run, w) && w < |start.workers| && key in layout
    ensures LastWriter(layout, start, run) in {None, Some(w)}
    ensures NoImports(run) ==>
      var saved := LastSaved(layout, start, run, key);
      Reading(layout, start, run, w, key) ==
        if saved.Some? then Value(saved.value) else Get(start.workers[w].data, layout[key])
  {
    if run != [] {
      var front, e := run[..|run| - 1], run[|run| - 1];
      assert e in run && forall x :: x in front ==> x in run;
      OneWriter(layout, start, front, w, key);
    }
  }

  /** When one worker does all the saving and imports nothing, the database agrees with Redis throughout. */
  lemma OneWriterAgrees(layout: Layout, start: World, run: seq<Event>, w: nat, key: string)
    requires Laid(layout) && start.redis.Some? && LastSaved(layout, start, run, key).Some?
    requires OnlyWriter(run, w) && NoImports(run) && w < |start.workers|
    ensures key in layout && RowAgrees(layout, After(layout, start, run), key)
  {
    SavedHasWriter(layout, start, run, key);
    OneWriter(layout, start, run, w, key);
    RowAgreesIff(layout, start, run, key);
  }

  lemma OtherKeepsLanding(layout: Layout, s: World, first: Event, second: Event)
    requires Laid(layout) && Lands(layout, s, first) && Lands(layout, s, second) && first.w != second.w
    ensures Lands(layout, Apply(layout, s, first), second)
  {
    StepKeepsWritable(layout, s, first, second.w, second.key);
  }

  /**
   * Two workers saving different attributes: the second save takes the first value out of the
   * database again, unless the second worker's document had it already.
   */
  lemma SecondWriterUndoes(layout: Layout, start: World, first: Event, second: Event)
    requires Laid(layout) && start.redis.Some? && Lands(layout, start, first) && Lands(layout, start, second)
    requires first.w != second.w && first.key != second.key
    ensures var s := After(layout, start, [first, second]);
      && Holds(s, first.key, first.value)
      && Get(LoadedDocument(s.row), layout[first.key]) == Get(start.workers[second.w].data, layout[first.key])
  {
    var run := [first, second];
    assert run[..1] == [first] && run[..1][..0] == [];
    assert After(layout, start, [first]) == Apply(layout, start, first);
    OtherKeepsLanding(layout, start, first, second);
    assert LastSaved(layout, start, [first], first.key) == Some(first.value);
    assert Reading(layout, start, [first], second.w, first.key) == Reading(layout, start, [], second.w, first.key);
    RedisHoldsLast(layout, start, run, first.key);
    RowIsLastWriters(layout, start, run);
    DocumentReads(layout, start, run, second.w, first.key);
  }

  // ----- restarting ----------------------------------------------------------------------------------

  datatype Switches = Switches(persistent: bool, oauth: bool)

  predicate Skipped(switches: Switches, p: Path) {
    !switches.persistent || (|p| > 1 && p[0] == "oauth" && !switches.oauth)
  }

  function LoadedValue(switches: Switches, p: Path, env: Json, read: Read): Read {
    match read
    case Raised => Raised
    case Value(v) => Value(if v != Null && !Skipped(switches, p) then v else env)
  }

  /** The value a PersistentConfig starts with. */
  function Loaded(switches: Switches, p: Path, env: Json, doc: Json): Read {
    LoadedValue(switches, p, env, Get(doc, p))
  }

  /**
   * A stored value is taken unless it is None, persistence is off, or the attribute's name begins with
   * `oauth.` and the oauth switch is off; else the environment's is.
   */
  lemma LoadedIs(switches: Switches, name: string, env: Json, doc: Json, v: Json)
    requires Get(doc, Split(name)) == Value(v)
    ensures Loaded(switches, Split(name), env, doc) ==
      Value(if v != Null && switches.persistent && (switches.oauth || !("oauth." <= name)) then v else env)
  {
    OauthPaths(name);
  }

  /**
   * A restart after any run of one process, imports included, gives every attribute what that process
   * last put there, unless that is None or the attribute is not loaded, when it gives the environment's.
   */
  lemma RestartGivesLastPut(layout: Layout, start: World, run: seq<Event>, w: nat, key: string,
                            switches: Switches, env: Json)
    requires Laid(layout) && w < |start.workers| && key in layout && OnlyWriter(run, w)
    requires start.workers[w].data == LoadedDocument(start.row)
    ensures Loaded(switches, layout[key], env, LoadedDocument(After(layout, start, run).row)) ==
      LoadedValue(switches, layout[key], env, Reading(layout, start, run, w, key))
  {
    OneWriter(layout, start, run, w, key);
    DocumentReads(layout, start, run, w, key);
    RowIsLastWriters(layout, start, run);
    if LastWriter(layout, start, run).None? {
      NothingWritten(layout, start, run, w);
    }
  }

  lemma {:induction false} NothingWritten(layout: Layout, start: World, run: seq<Event>, w: nat)
    requires w < |start.workers| && LastWriter(layout, start, run).None?
    ensures |After(layout, start, run).workers| == |start.workers|
    ensures After(layout, start, run).workers[w].data == start.workers[w].data
  {
    if run != [] {
      NothingWritten(layout, start, run[..|run| - 1], w);
      StepRow(layout, After(layout, start, run[..|run| - 1]), run[|run| - 1]);
    }
  }

  /** Without imports, that is the value saved last, or what it started with. */
  lemma RestartGivesLastSaved(layout: Layout, start: World, run: seq<Event>, w: nat, key: string,
                              switches: Switches, env: Json)
    requires Laid(layout) && w < |start.workers| && key in layout && OnlyWriter(run, w) && NoImports(run)
    requires start.workers[w].data == LoadedDocument(start.row)
    ensures Loaded(switches, layout[key], env, LoadedDocument(After(layout, start, run).row)) ==
      match LastSaved(layout, start, run, key)
      case None => Loaded(switches, layout[key], env, LoadedDocument(start.row))
      case Some(v) => Value(if v != Null && !Skipped(switches, layout[key]) then v else env)
  {
    OneWriter(layout, start, run, w, key);
    RestartGivesLastPut(layout, start, run, w, key, switches, env);
  }

  // ----- reading through Redis -----------------------------------------------------------------------

  predicate Assigns(e: Event, key: string) {
    e.Assign? && e.key == key
  }

  ghost predicate Unassigned(run: seq<Event>, key: string) {
    forall e :: e in run ==> !Assigns(e, key)
  }

  ghost predicate NotReplaced(run: seq<Event>, w: nat) {
    forall e :: e in run ==> !Replaces(e, w)
  }

  ghost predicate Sees(s: World, w: nat, key: string, v: Json) {
    w < |s.workers| && key in s.workers[w].values && s.workers[w].values[key] == v
  }

  /** What Redis has for the attribute, if it is JSON. */
  function InRedis(redis: Redis, key: string): Option<Json> {
    if redis.Some? && key in redis.value then redis.value[key] else None
  }

  /** Without assignments of the attribute Redis keeps what it has for it. */
  lemma {:induction false} RunKeepsRedis(layout: Layout, s: World, run: seq<Event>, key: string)
    requires Unassigned(run, key)
    ensures InRedis(After(layout, s, run).redis, key) == InRedis(s.redis, key)
  {
    if run != [] {
      var front, e := run[..|run| - 1], run[|run| - 1];
      assert e in run && forall x :: x in front ==> x in run;
      RunKeepsRedis(layout, s, front, key);
    }
  }

  /** A worker keeps seeing a value that no assignment, no import of its own and no other text in Redis displaces. */
  lemma {:induction false} RunKeepsSeen(layout: Layout, s: World, run: seq<Event>, w: nat, key: string, v: Json)
    requires Unassigned(run, key) && NotReplaced(run, w)
    requires Sees(s, w, key, v) && InRedis(s.redis, key) in {None, Some(v)}
    ensures Sees(After(layout, s, run), w, key, v)
  {
    if run != [] {
      var front, e := run[..|run| - 1], run[|run| - 1];
      assert e in run && forall x :: x in front ==> x in run;
      RunKeepsSeen(layout, s, front, w, key, v);
      RunKeepsRedis(layout, s, front, key);
      WorkersStay(layout, s, front);
    }
  }

  /**
   * Once Redis holds an attribute, two workers that read it with no assignment of it between, and
   * anything else happening, imports included, read the same value, which is Redis's; the first one
   * keeps it unless it imports a document itself.
   */
  lemma ReadersAgree(layout: Layout, s: World, w1: nat, between: seq<Event>, w2: nat, key: string, v: Json)
    requires InRedis(s.redis, key) == Some(v) && key in layout && Unassigned(between, key)
    requires w1 < |s.workers| && w2 < |s.workers|
    ensures var first := Apply(layout, s, Fetch(w1, key));
      var end := Apply(layout, After(layout, first, between), Fetch(w2, key));
      && Sees(first, w1, key, v) && Sees(end, w2, key, v) && InRedis(end.redis, key) == Some(v)
      && (NotReplaced(between, w1) ==> Sees(end, w1, key, v))
  {
    var first := Apply(layout, s, Fetch(w1, key));
    RunKeepsRedis(layout, first, between, key);
    WorkersStay(layout, first, between);
    if NotReplaced(between, w1) {
      RunKeepsSeen(layout, first, between, w1, key, v);
    }
  }

  /**
   * What a worker sets it reads back: after an assignment and anything but another assignment of the
   * attribute or an import by that worker, its next read gives the value set if and only if Redis by
   * then holds nothing else for the attribute.
   */
  lemma AssignedSeenIff(layout: Layout, s: World, w: nat, between: seq<Event>, key: string, v: Json)
    requires w < |s.workers| && key in layout && Unassigned(between, key) && NotReplaced(between, w)
    ensures var end := After(layout, Apply(layout, s, Assign(w, key, v)), between);
      && (Sees(Apply(layout, end, Fetch(w, key)), w, key, v) <==> InRedis(end.redis, key) in {None, Some(v)})
      && InRedis(end.redis, key) ==
         if Open(s.workers[w].data, layout[key]) && s.redis.Some? then Some(v) else InRedis(s.redis, key)
  {
    var after := Apply(layout, s, Assign(w, key, v));
    PutSucceeds(s.workers[w].data, layout[key], v);
    RunKeepsRedis(layout, after, between, key);
    WorkersStay(layout, after, between);
    if InRedis(after.redis, key) in {None, Some(v)} {
      RunKeepsSeen(layout, after, between, w, key, v);
    }
  }

  /**
   * So a successful save is always read back, with and without Redis; a save that raises leaves the
   * value set for this worker, unless Redis holds another one, and for no other worker.
   */
  lemma AssignedIsSeen(layout: Layout, s: World, w: nat, between: seq<Event>, key: string, v: Json)
    requires w < |s.workers| && key in layout && Unassigned(between, key) && NotReplaced(between, w)
    ensures var end := After(layout, Apply(layout, s, Assign(w, key, v)), between);
      var seen := Sees(Apply(layout, end, Fetch(w, key)), w, key, v);
      && (Open(s.workers[w].data, layout[key]) ==> seen)
      && (!Open(s.workers[w].data, layout[key]) ==> (seen <==> InRedis(s.redis, key) in {None, Some(v)}))
    ensures !Open(s.workers[w].data, layout[key]) ==>
      forall u :: 0 <= u < |s.workers| && u != w ==>
        Apply(layout, s, Assign(w, key, v)).workers[u] == s.workers[u]
  {
    AssignedSeenIff(layout, s, w, between, key, v);
    PutSucceeds(s.workers[w].data, layout[key], v);
  }

  // ----- importing -----------------------------------------------------------------------------------

  /** How many of the attributes an import updates before one raises. */
  function UpdatedUpTo(layout: Layout, order: seq<string>, doc: Json): (n: nat)
    ensures n <= |order|
  {
    if order == [] then 0
    else
      var n := UpdatedUpTo(layout, order[..|order| - 1], doc);
      if n == |order| - 1 && !(order[n] in layout && Get(doc, layout[order[n]]).Raised?) then n + 1 else n
  }

  lemma {:induction false} UpdatedUpToIsFirst(layout: Layout, order: seq<string>, doc: Json)
    ensures var n := UpdatedUpTo(layout, order, doc);
      && (forall i :: 0 <= i < n ==> order[i] in layout ==> Get(doc, layout[order[i]]).Value?)
      && (n < |order| ==> order[n] in layout && Get(doc, layout[order[n]]).Raised?)
  {
    if order != [] {
      UpdatedUpToIsFirst(layout, order[..|order| - 1], doc);
    }
  }

  /** Whatever raises: the attributes before it have the document's values, the others keep theirs. */
  lemma {:induction false} UpdatedExactly(layout: Layout, order: seq<string>, values: map<string, Json>, doc: Json,
                                          key: string)
    requires key in values && key in layout
    ensures var n := UpdatedUpTo(layout, order, doc);
      var read := Get(doc, layout[key]);
      && (Updated(layout, order, values, doc).1 <==> n == |order|)
      && key in Updated(layout, order, values, doc).0
      && Updated(layout, order, values, doc).0[key] ==
           if key in order[..n] && read.Value? && read.json != Null then read.json else values[key]
  {
    if order != [] {
      var m := |order| - 1;
      var front, n := order[..m], UpdatedUpTo(layout, order, doc);
      UpdatedExactly(layout, front, values, doc, key);
      if n <= m {
        assert front[..UpdatedUpTo(layout, front, doc)] == order[..n];
      } else {
        assert front[..m] == front && order[..n] == front + [order[m]];
      }
    }
  }

  lemma {:induction false} UpdateReads(layout: Layout, order: seq<string>, values: map<string, Json>, doc: Json,
                                       key: string)
    requires Updated(layout, order, values, doc).1 && key in order && key in layout && key in values
    ensures Get(doc, layout[key]).Value?
    ensures var v := Get(doc, layout[key]).json;
      key in Updated(layout, order, values, doc).0 &&
      Updated(layout, order, values, doc).0[key] == if v != Null then v else values[key]
  {
    UpdateKeeps(layout, order, values, doc, key);
    var front, last := order[..|order| - 1], order[|order| - 1];
    if key in front {
      UpdateReads(layout, front, values, doc, key);
    } else {
      assert last == key;
      UpdateKeeps(layout, front, values, doc, key);
    }
  }

  lemma {:induction false} UpdateKeeps(layout: Layout, order: seq<string>, values: map<string, Json>, doc: Json,
                                       key: string)
    requires key in values
    ensures key in Updated(layout, order, values, doc).0
    ensures key !in order || (key in layout && Get(doc, layout[key]) in {Raised, Value(Null)}) ==>
      Updated(layout, order, values, doc).0[key] == values[key]
  {
    if order != [] {
      UpdateKeeps(layout, order[..|order| - 1], values, doc, key);
    }
  }

  /** The import sets the attribute: every update succeeds and the document has a value there. */
  ghost predicate ImportSets(layout: Layout, s: World, e: Event, key: string, v: Json) {
    && e.Import? && e.w < |s.workers| && key in e.order && key in layout && key in s.workers[e.w].values
    && Updated(layout, e.order, s.workers[e.w].values, e.doc).1
    && Get(e.doc, layout[key]) == Value(v) && v != Null
  }

  /**
   * After an import, and anything but an assignment of the attribute or another import by that worker,
   * its next read gives the imported value exactly when Redis did not hold another one: imports never
   * reach Redis, and Redis wins.
   */
  lemma {:induction false} ImportSeenIff(layout: Layout, s: World, e: Event, between: seq<Event>, key: string, v: Json)
    requires ImportSets(layout, s, e, key, v) && Unassigned(between, key) && NotReplaced(between, e.w)
    ensures Sees(Apply(layout, After(layout, Apply(layout, s, e), between), Fetch(e.w, key)), e.w, key, v) <==>
      InRedis(s.redis, key) in {None, Some(v)}
  {
    var after := Apply(layout, s, e);
    UpdateReads(layout, e.order, s.workers[e.w].values, e.doc, key);
    RunKeepsRedis(layout, after, between, key);
    WorkersStay(layout, after, between);
    if InRedis(s.redis, key) in {None, Some(v)} {
      RunKeepsSeen(layout, after, between, e.w, key, v);
    }
  }

  /** A run that masks an import: one worker saves a value, imports another, and reads the first. */
  lemma ImportMaskedOnRun(key: string, saved: Json, v: Json) returns (layout: Layout, start: World, run: seq<Event>)
    requires saved != v && v != Null
    ensures Laid(layout) && key in layout && |start.workers| == 1 && start.redis == Some(map[])
    ensures |run| == 3 && run[0] == Assign(0, key, saved) && run[2] == Fetch(0, key)
    ensures ImportSets(layout, After(layout, start, run[..1]), run[1], key, v)
    ensures Sees(After(layout, start, run), 0, key, saved)
  {
    var doc := Dict(map[key := v]);
    layout := map[key := [key]];
    start := World([Worker(Dict(map[]), map[key := Null])], None, Some(map[]));
    var e1, e2, e3 := Assign(0, key, saved), Import(0, doc, [key]), Fetch(0, key);
    run := [e1, e2, e3];
    assert run[..1] == [e1] && run[..2] == [e1, e2] && [e1][..0] == [] && [e1, e2][..1] == [e1] && [key][..0] == [];
    assert Get(doc, [key]) == Value(v);
    var s1 := Apply(layout, start, e1);
    assert After(layout, start, [e1]) == s1 && InRedis(s1.redis, key) == Some(saved);
    assert Updated(layout, [key], s1.workers[0].values, doc).1;
    assert After(layout, start, [e1, e2]) == Apply(layout, s1, e2);
  }
}
