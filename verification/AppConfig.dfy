/**
 * One process's configuration objects: the document, the PersistentConfig entries registered by
 * attribute name, and the row and Redis server they are saved to
 * (backend/open_webui/config.py:83-158 and :165-283).  Each method is tied to the step of
 * ConfigStore it carries out.
 */
module AppConfig {
  import opened Basics
  import opened ConfigTree
  import opened ConfigStore

  class Database {
    var row: Option<Json>

    constructor ()
      ensures row == None
    {
      row := None;
    }

    method Save(data: Json)
      modifies this
      ensures row == Some(data)
    {
      row := Some(data);
    }
  }

  class RedisServer {
    var texts: map<string, Option<Json>>

    constructor ()
      ensures texts == map[]
    {
      texts := map[];
    }
  }

  class PersistentConfig {
    const path: string
    const env: Json
    var value: Json
    var configValue: Json

    constructor (path: string, env: Json, value: Json, configValue: Json)
      ensures this.path == path && this.env == env && this.value == value && this.configValue == configValue
    {
      this.path, this.env, this.value, this.configValue := path, env, value, configValue;
    }

    /** The body of __init__; null when get_config_value raises. */
    static method Load(path: string, env: Json, doc: Json, switches: Switches) returns (r: PersistentConfig?)
      ensures Loaded(switches, Split(path), env, doc) == if r == null then Raised else Value(r.value)
      ensures r != null ==> fresh(r) && r.path == path && r.env == env && Get(doc, Split(path)) == Value(r.configValue)
    {
      var read := GetConfigValue(doc, Split(path));
      if read.Raised? {
        return null;
      }
      OauthPaths(path);
      var value := env;
      if read.json != Null && switches.persistent {
        if !(StartsWith(path, "oauth.") && !switches.oauth) {
          value := read.json;
        }
      }
      r := new PersistentConfig(path, env, value, read.json);
    }

    method Update(doc: Json) returns (ok: bool)
      modifies this`value
      ensures match Get(doc, Split(path))
        case Raised => !ok && value == old(value)
        case Value(v) => ok && value == if v != Null then v else old(value)
    {
      var read := GetConfigValue(doc, Split(path));
      if read.Raised? {
        return false;
      }
      if read.json != Null {
        value := read.json;
      }
      return true;
    }

    method Save(process: Process) returns (ok: bool)
      modifies this`configValue, process`data, process.database
      ensures var put := Put(old(process.data), Split(path), value);
        && ok == put.Some?
        && process.data == (if ok then put.value else old(process.data))
        && process.database.row == (if ok then Some(put.value) else old(process.database.row))
        && configValue == if ok then value else old(configValue)
    {
      var put := Put(process.data, Split(path), value);
      if put.None? {
        return false;
      }
      process.data := put.value;
      process.database.Save(process.data);
      configValue := value;
      return true;
    }
  }

  datatype Outcome = Done | TypeError | KeyError

  class Process {
    var data: Json
    var state: map<string, PersistentConfig>
    var registry: seq<string>
    const database: Database
    const redis: RedisServer?

    constructor (database: Database, redis: RedisServer?)
      ensures Valid() && data == LoadedDocument(database.row) && state == map[]
      ensures this.database == database && this.redis == redis
    {
      this.database, this.redis := database, redis;
      data, state, registry := LoadedDocument(database.row), map[], [];
    }

    /** No two attributes share an entry. */
    ghost predicate Valid()
      reads this
    {
      && (forall j, k :: j in state && k in state && j != k ==> state[j] != state[k])
      && (forall k :: k in registry ==> k in state)
    }

    ghost function Paths(): Layout
      reads this
    {
      map k | k in state :: Split(state[k].path)
    }

    ghost function Values(): map<string, Json>
      reads this, state.Values
    {
      map k | k in state :: state[k].value
    }

    ghost function AsWorker(): Worker
      reads this, state.Values
    {
      Worker(data, Values())
    }

    ghost function Server(): Redis
      reads this, redis
    {
      if redis == null then None else Some(redis.texts)
    }

    method Register(key: string, entry: PersistentConfig)
      requires Valid() && entry !in state.Values
      modifies this`state, this`registry
      ensures Valid() && state == old(state)[key := entry] && registry == old(registry) + [key]
    {
      state := state[key := entry];
      registry := registry + [key];
    }

    /** Setting an attribute (__setattr__ with a plain value). */
    method Set(key: string, value: Json) returns (outcome: Outcome)
      requires Valid()
      modifies this`data, database, redis, state.Values
      ensures Valid() && state == old(state) && Paths() == old(Paths()) && registry == old(registry)
      ensures outcome == KeyError <==> key !in state
      ensures key !in state ==>
        AsWorker() == old(AsWorker()) && database.row == old(database.row) && Server() == old(Server())
      ensures key in state ==>
        && (AsWorker(), outcome == Done) == Assigned(old(Paths()), old(AsWorker()), key, value)
        && database.row == (if outcome == Done then Some(data) else old(database.row))
        && Server() == if outcome == Done then Published(old(Server()), key, value) else old(Server())
    {
      if key !in state {
        return KeyError;
      }
      var saved := Store(key, value);
      if !saved {
        return TypeError;
      }
      if redis != null {
        Publish(key, value);
      }
      return Done;
    }

    /** `_state[key].value = value; _state[key].save()`. */
    method Store(key: string, value: Json) returns (saved: bool)
      requires Valid() && key in state
      modifies this`data, database, state.Values
      ensures state == old(state) && Paths() == old(Paths()) && registry == old(registry)
      ensures (AsWorker(), saved) == Assigned(old(Paths()), old(AsWorker()), key, value)
      ensures database.row == (if saved then Some(data) else old(database.row)) && Server() == old(Server())
    {
      var entry := state[key];
      entry.value := value;
      saved := entry.Save(this);
      assert Values() == old(Values())[key := value];
    }

    method Publish(key: string, value: Json)
      requires redis != null
      modifies redis
      ensures Server() == Published(old(Server()), key, value)
    {
      redis.texts := redis.texts[key := Some(value)];
    }

    /** Getting an attribute (__getattr__); None is an AttributeError. */
    method Fetch(key: string) returns (r: Option<Json>)
      requires Valid()
      modifies state.Values
      ensures Valid() && Paths() == old(Paths()) && data == old(data)
      ensures database.row == old(database.row) && Server() == old(Server())
      ensures r.Some? <==> key in state
      ensures key !in state ==> AsWorker() == old(AsWorker())
      ensures key in state ==>
        AsWorker() == Fetched(old(AsWorker()), Server(), key) && r == Some(AsWorker().values[key])
    {
      if key !in state {
        return None;
      }
      var entry := state[key];
      if redis != null && key in redis.texts && redis.texts[key].Some? {
        if entry.value != redis.texts[key].value {
          entry.value := redis.texts[key].value;
        }
      }
      assert Values() == Fetched(old(AsWorker()), Server(), key).values;
      return Some(entry.value);
    }

    method Refresh(key: string, doc: Json) returns (ok: bool)
      requires Valid() && key in state
      modifies state[key]
      ensures Valid() && Paths() == old(Paths())
      ensures (Values(), ok) == Refreshed(old(Values()), key, Get(doc, old(Paths())[key]))
    {
      ok := state[key].Update(doc);
      assert Values() == old(Values())[key := state[key].value];
      assert old(Values())[key] == old(state[key].value);
    }

    /** The loop of save_config over the registry. */
    method RefreshAll(doc: Json) returns (ok: bool)
      requires Valid()
      modifies state.Values
      ensures Paths() == old(Paths())
      ensures (Values(), ok) == Updated(old(Paths()), registry, old(Values()), doc)
    {
      ghost var layout, before := Paths(), Values();
      ghost var now := before;
      assert registry[..0] == [];
      for i := 0 to |registry|
        invariant Valid() && Paths() == layout && Values() == now
        invariant Updated(layout, registry[..i], before, doc) == (now, true)
      {
        UpdateStep(layout, registry, before, doc, i);
        ok := Refresh(registry[i], doc);
        now := Values();
        if !ok {
          UpdateStops(layout, registry, before, doc, i + 1);
          return;
        }
      }
      assert registry[..|registry|] == registry;
      ok := true;
    }

    /** save_config: false when an update raised. */
    method SaveConfig(config: Json) returns (ok: bool)
      requires Valid()
      modifies this`data, database, state.Values
      ensures Valid() && state == old(state) && Paths() == old(Paths()) && registry == old(registry)
      ensures data == config && database.row == Some(config) && Server() == old(Server())
      ensures AsWorker() == Imported(old(Paths()), registry, old(AsWorker()), config)
      ensures ok == Updated(old(Paths()), registry, old(Values()), config).1
    {
      database.Save(config);
      data := config;
      assert Values() == old(Values());
      ok := RefreshAll(config);
    }
  }

  lemma UpdateStep(layout: Layout, order: seq<string>, values: map<string, Json>, doc: Json, i: nat)
    requires i < |order| && order[i] in layout && Updated(layout, order[..i], values, doc).1
    ensures Updated(layout, order[..i + 1], values, doc)
      == Refreshed(Updated(layout, order[..i], values, doc).0, order[i], Get(doc, layout[order[i]]))
  {
    assert order[..i + 1][..i] == order[..i];
  }

  lemma {:induction false} UpdateStops(layout: Layout, order: seq<string>, values: map<string, Json>, doc: Json, n: nat)
    requires n <= |order| && !Updated(layout, order[..n], values, doc).1
    ensures Updated(layout, order, values, doc) == Updated(layout, order[..n], values, doc)
  {
    if n < |order| {
      assert order[..|order| - 1][..n] == order[..n];
      UpdateStops(layout, order[..|order| - 1], values, doc, n);
    } else {
      assert order[..n] == order;
    }
  }
}
