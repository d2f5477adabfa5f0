/**
 * The module-level environment registry of the current revision: one open
 * engine environment per resolved path, shared by every `environment(config)`
 * call for that path until a handle closes it.
 */
module Registry {
  import opened Wrappers
  import opened Json
  import Lmdb
  import Stores = Storage

  /** `maxSize` when the configuration gives none: 2 GiB. */
  const DefaultMapSize: nat := 2 * 1024 * 1024 * 1024

  datatype Error =
    | MissingConfig(field: string)  // `config.path missing`, `config.maxDbs missing`
    | HandleClosed                  // `close`/`storage` were removed from the handle
    | AlreadyClosed                 // the engine refuses to close a closed environment

  /** The configuration object, which `environment(config)` completes in place. */
  class Config {
    var path: Option<string>
    var maxDbs: Option<nat>
    var maxSize: Option<nat>

    constructor (path: Option<string>, maxDbs: Option<nat>, maxSize: Option<nat>)
      ensures this.path == path && this.maxDbs == maxDbs && this.maxSize == maxSize
    {
      this.path, this.maxDbs, this.maxSize := path, maxDbs, maxSize;
    }
  }

  /** A JavaScript-falsy setting counts as missing: an absent value, `""` or `0`. */
  predicate Given<T(==)>(setting: Option<T>, falsy: T) {
    setting.Some? && setting.value != falsy
  }

  /** The map size a configuration asks for: its own when given, else the default. */
  function MapSize(maxSize: Option<nat>): (r: nat)
    ensures r > 0
    ensures Given(maxSize, 0) ==> r == maxSize.value
    ensures !Given(maxSize, 0) ==> r == DefaultMapSize
  {
    if Given(maxSize, 0) then maxSize.value else DefaultMapSize
  }

  class Registry {
    /** `path.resolve`: canonicalises a path against the working directory. */
    const resolve: string -> string
    const json: TextCodec
    /** `environmentForPath`; a path whose entry was cleared is absent. */
    var entries: map<string, Lmdb.Env>
    /** Every environment this registry has opened, whether still open or closed since. */
    ghost var envs: set<Lmdb.Env>

    /**
     * Every registered environment is open and registered under its own
     * path, and every environment the registry opened that is still open is
     * the one registered for its path: at most one open environment per path.
     */
    ghost predicate Valid()
      reads this, envs
    {
      && (forall p :: p in entries ==> entries[p] in envs && entries[p].path == p && entries[p].isOpen)
      && (forall e :: e in envs && e.isOpen ==> e.path in entries && entries[e.path] == e)
      && (forall e :: e in envs ==> e.Valid())
    }

    constructor (resolve: string -> string, json: TextCodec)
      ensures Valid() && entries == map[] && envs == {}
      ensures this.resolve == resolve && this.json == json
    {
      this.resolve, this.json := resolve, json;
      entries, envs := map[], {};
    }

    /**
     * `environment(config)`: refuses a configuration without `path` or
     * `maxDbs`; otherwise completes `config.maxSize` and `config.path`, and
     * returns a handle on the environment registered for the resolved path,
     * opening and registering one only when there is none.
     */
    method Environment(config: Config) returns (r: Result<Handle, Error>)
      requires Valid()
      modifies this, config
      ensures Valid()
      ensures !Given(old(config.path), "") ==>
        r == Err(MissingConfig("path")) && unchanged(this, config)
      ensures Given(old(config.path), "") && !Given(old(config.maxDbs), 0) ==>
        r == Err(MissingConfig("maxDbs")) && unchanged(this, config)
      ensures Given(old(config.path), "") && Given(old(config.maxDbs), 0) ==>
        && var p := resolve(old(config.path).value);
        && config.path == Some(p)
        && config.maxSize == Some(MapSize(old(config.maxSize)))
        && config.maxDbs == old(config.maxDbs)
        && r.Ok? && fresh(r.value) && r.value.Valid() && !r.value.closed
        && r.value.registry == this && r.value.path == p
        && (p in old(entries) ==>
              r.value.env == old(entries)[p] && entries == old(entries) && envs == old(envs))
        && (p !in old(entries) ==>
              && fresh(r.value.env) && entries == old(entries)[p := r.value.env]
              && envs == old(envs) + {r.value.env}
              && r.value.env.mapSize == MapSize(old(config.maxSize))
              && r.value.env.maxDbs == old(config.maxDbs).value
              && r.value.env.dbs == map[])
    {
      if !Given(config.path, "") {
        return Err(MissingConfig("path"));
      }
      if !Given(config.maxDbs, 0) {
        return Err(MissingConfig("maxDbs"));
      }
      config.maxSize := Some(MapSize(config.maxSize));
      var p := resolve(config.path.value);
      config.path := Some(p);
      var env: Lmdb.Env;
      if p in entries {
        env := entries[p];
      } else {
        env := new Lmdb.Env.Open(p, config.maxSize.value, config.maxDbs.value);
        entries := entries[p := env];
        envs := envs + {env};
      }
      var handle := new Handle(this, p, env);
      r := Ok(handle);
    }
  }

  /** The object `environment(config)` returns. */
  class Handle {
    const registry: Registry
    const path: string
    var env: Lmdb.Env?
    var closed: bool

    ghost predicate Valid()
      reads this, registry, registry.envs
    {
      && registry.Valid()
      && (closed <==> env == null)
      && (env != null ==> env in registry.envs && env.path == path)
    }

    constructor (registry: Registry, path: string, env: Lmdb.Env)
      requires registry.Valid() && env in registry.envs && env.path == path
      ensures Valid() && !closed
      ensures this.registry == registry && this.path == path && this.env == env
    {
      this.registry, this.path, this.env := registry, path, env;
      closed := false;
    }

    /**
     * `close()`: closes the environment and clears the registry entry for
     * its path, so the next `environment` call for that path opens a new
     * one. Fails, changing nothing, when the handle or its environment is
     * already closed.
     */
    method Close() returns (r: Result<(), Error>)
      requires Valid()
      modifies this, registry, env
      ensures Valid()
      ensures registry.envs == old(registry.envs)
      ensures old(closed) ==> r == Err(HandleClosed) && unchanged(this, registry)
      ensures !old(closed) && !old(env.isOpen) ==>
        r == Err(AlreadyClosed) && unchanged(this, registry, old(env))
      ensures !old(closed) && old(env.isOpen) ==>
        && r == Ok(())
        && closed && env == null
        && !old(env).isOpen
        && registry.entries == old(registry.entries) - {path}
        && old(env).dbs == old(env.dbs) && old(env).modes == old(env.modes)
        && old(env).committed == old(env.committed)
    {
      if closed {
        return Err(HandleClosed);
      }
      var ok := env.Close();
      if !ok {
        return Err(AlreadyClosed);
      }
      registry.entries := registry.entries - {path};
      env := null;
      closed := true;
      r := Ok(());
    }

    /** `storage(name)`: the named store over this handle's environment. */
    method Storage(name: string) returns (r: Result<Stores.Store, Stores.Error>)
      requires Valid()
      modifies env
      ensures Valid()
      ensures closed ==> r == Err(Stores.Closed)
      ensures !closed && !env.isOpen ==> r == Err(Stores.Closed) && unchanged(env)
      ensures !closed && env.isOpen && name == "" ==>
        r == Err(Stores.MissingArgument("name")) && unchanged(env)
      ensures !closed && env.isOpen && name != "" ==>
        && (r.Ok? <==> name in old(env.dbs) || |old(env.dbs)| < env.maxDbs)
        && (r.Ok? ==> fresh(r.value) && r.value.Valid() && r.value.env == env && r.value.name == name
                      && r.value.json == registry.json && !r.value.closed)
        && (r.Ok? ==>
              && env.dbs == (if name in old(env.dbs) then old(env.dbs) else old(env.dbs)[name := Lmdb.EmptyDb])
              && env.modes == old(env.modes) && env.committed == old(env.committed)
              && env.isOpen == old(env.isOpen))
        && (r.Err? ==> r == Err(Stores.TooManyDbs) && unchanged(env))
    {
      if closed {
        return Err(Stores.Closed);
      }
      if !env.isOpen {
        return Err(Stores.Closed);
      }
      r := Stores.Compose(registry.json, env, name);
    }
  }
}
