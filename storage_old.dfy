/**
 * The earlier revision of the named store: values are stored as their JSON
 * text alone (no length header, no attachment), `put` resolves with the
 * value, and there is no `count`. The same reference-counted transaction
 * handler brackets every operation.
 */
module OldStorage {
  import opened Wrappers
  import opened Json
  import Lmdb
  import DataBuffer
  import TxnHandler
  import Storage
  import StoreCalls

  type Key = Lmdb.Key
  type Error = Storage.Error

  /**
   * What `get(key)` resolves with: the stored text parsed, where a missing
   * record reads as `null` (the engine returns `null`, which parses as the
   * JSON text `null`).
   */
  function OldLookup(json: TextCodec, db: Lmdb.Db, key: Key): (r: Result<Json, Error>)
    ensures r.Err? ==> r.error == Storage.Corrupt(DataBuffer.BadJson)
    ensures Lmdb.DbGet(db, key).None? ==> (r.Ok? <==> json.parse(NullText).Some?)
    ensures var text := if Lmdb.DbGet(db, key).Some? then Lmdb.DbGet(db, key).value else NullText;
      && (r.Err? <==> json.parse(text).None?)
      && (r.Ok? ==> json.parse(text) == Some(r.value))
  {
    var text := match Lmdb.DbGet(db, key) case Some(t) => t case None => NullText;
    match json.parse(text)
    case Some(v) => Ok(v)
    case None => Err(Storage.Corrupt(DataBuffer.BadJson))
  }

  /** What `del(key)` resolves with: the record parsed, then deleted; a missing record cannot be deleted. */
  function OldRemove(json: TextCodec, db: Lmdb.Db, key: Key): (r: Result<(Json, Lmdb.Db), Error>)
    ensures Lmdb.DbGet(db, key).None? ==> r.Err?
    ensures r.Ok? ==> && OldLookup(json, db, key) == Ok(r.value.0)
                      && Lmdb.DbDel(db, key) == Some(r.value.1)
                      && Lmdb.DbGet(r.value.1, key).None?
  {
    match OldLookup(json, db, key)
    case Err(e) => Err(e)
    case Ok(v) =>
      match Lmdb.DbDel(db, key)
      case None => Err(Storage.NotFound)
      case Some(after) => Ok((v, after))
  }

  /**
   * `put(key, value)` then `get(key)` resolves with the value put; every
   * other key reads as before.
   */
  lemma OldPutThenGet(json: TextCodec, db: Lmdb.Db, key: Key, value: Json)
    requires Lawful(json) && Plain(value) && db.Valid()
    ensures OldLookup(json, Lmdb.DbPut(db, key, json.stringify(value)), key) == Ok(value)
    ensures forall other :: other != key ==>
      OldLookup(json, Lmdb.DbPut(db, key, json.stringify(value)), other) == OldLookup(json, db, other)
  {
    Lmdb.PutSpec(db, key, json.stringify(value));
  }

  /** `get` of a key with no record resolves with `null`, and `del` of it fails. */
  lemma OldMissingKey(json: TextCodec, db: Lmdb.Db, key: Key)
    requires json.parse(NullText) == Some(Null) && db.Valid() && Lmdb.DbGet(db, key).None?
    ensures OldLookup(json, db, key) == Ok(Null)
    ensures OldRemove(json, db, key) == Err(Storage.NotFound)
  {
    Lmdb.DelSpec(db, key);
  }

  /**
   * As written, `del` of a key with no record fails with `NotFound`, and
   * skips its `commit()`: from an idle handler the transaction stays open,
   * the counter at 1, with nothing committed.
   */
  lemma MissingKeyDelHoldsHandler(json: TextCodec, db: Lmdb.Db, key: Key, s: TxnHandler.State)
    requires json.parse(NullText) == Some(Null) && db.Valid() && Lmdb.DbGet(db, key).None?
    requires TxnHandler.Idle(s)
    ensures OldRemove(json, db, key) == Err(Storage.NotFound)
    ensures var r := TxnHandler.Run(s, StoreCalls.CallsAsWritten(OldRemove(json, db, key).Ok?));
      r.counter == 1 && r.txn == Some(s.began) && r.committed == s.committed
  {
    OldMissingKey(json, db, key);
    StoreCalls.RunSingle(s);
  }

  /**
   * `del(key)` of a value put earlier resolves with that value and removes
   * the key, leaving every other key as it was and one entry fewer.
   */
  lemma OldPutThenDel(json: TextCodec, db: Lmdb.Db, key: Key, value: Json)
    requires Lawful(json) && Plain(value) && db.Valid()
    ensures var put := Lmdb.DbPut(db, key, json.stringify(value));
      && OldRemove(json, put, key).Ok?
      && OldRemove(json, put, key).value.0 == value
      && var after := OldRemove(json, put, key).value.1;
      && after.Valid()
      && Lmdb.DbGet(after, key).None?
      && (forall other :: other != key ==> Lmdb.DbGet(after, other) == Lmdb.DbGet(db, other))
      && Lmdb.EntryCount(after) == Lmdb.EntryCount(put) - 1
  {
    var put := Lmdb.DbPut(db, key, json.stringify(value));
    Lmdb.PutSpec(db, key, json.stringify(value));
    Lmdb.DelSpec(put, key);
  }

  /** The object the earlier `composeStorage(environment, name)` returns. */
  class OldStore {
    const json: TextCodec
    const name: string
    const env: Lmdb.Env
    const handler: TxnHandler.Handler
    var closed: bool

    ghost predicate Valid()
      reads this, env, handler
    {
      && handler.env == env
      && handler.txn.None? && handler.counter == 0
      && env.Valid()
      && name in env.dbs
    }

    function Contents(): Lmdb.Db
      reads this, env
      requires name in env.dbs
    {
      env.dbs[name]
    }

    /** The operation runs in one read-write engine transaction of its own, committed once. */
    ghost predicate OwnTransaction(modes: seq<bool>, committed: seq<nat>)
      reads env
    {
      env.modes == modes + [false] && env.committed == committed + [|modes|]
    }

    constructor (json: TextCodec, name: string, env: Lmdb.Env)
      requires env.Valid() && name in env.dbs
      ensures Valid() && fresh(handler) && !closed
      ensures this.json == json && this.name == name && this.env == env
    {
      this.json, this.name, this.env := json, name, env;
      handler := new TxnHandler.Handler(env);
      closed := false;
    }

    /** `put(key, value)`: stores the JSON text and resolves with the value. */
    method Put(key: Key, value: Json) returns (r: Result<Json, Error>)
      requires Valid()
      modifies env`dbs, env`modes, env`committed, handler
      ensures Valid()
      ensures old(closed) ==> r == Err(Storage.Closed) && unchanged(env, handler)
      ensures !old(closed) ==>
        && r == Ok(value)
        && env.dbs == old(env.dbs)[name := Lmdb.DbPut(old(Contents()), key, json.stringify(value))]
        && OwnTransaction(old(env.modes), old(env.committed))
    {
      if closed {
        return Err(Storage.Closed);
      }
      var txn := handler.Begin();
      env.Put(name, key, json.stringify(value));
      r := Ok(value);
      handler.Commit();
    }

    /** `get(key)`. */
    method Get(key: Key) returns (r: Result<Json, Error>)
      requires Valid()
      modifies env`modes, env`committed, handler
      ensures Valid() && env.dbs == old(env.dbs)
      ensures old(closed) ==> r == Err(Storage.Closed) && unchanged(env, handler)
      ensures !old(closed) ==>
        r == OldLookup(json, Contents(), key) && OwnTransaction(old(env.modes), old(env.committed))
    {
      if closed {
        return Err(Storage.Closed);
      }
      var txn := handler.Begin();
      r := OldLookup(json, Contents(), key);
      handler.Commit();
    }

    /** `del(key)`: parses the stored text, then deletes the record. */
    method Del(key: Key) returns (r: Result<Json, Error>)
      requires Valid()
      modifies env`dbs, env`modes, env`committed, handler
      ensures Valid()
      ensures old(closed) ==> r == Err(Storage.Closed) && unchanged(env, handler)
      ensures !old(closed) ==>
        && var removed := OldRemove(json, old(Contents()), key);
        && r == (if removed.Ok? then Ok(removed.value.0) else Err(removed.error))
        && env.dbs == (if removed.Ok? then old(env.dbs)[name := removed.value.1] else old(env.dbs))
        && OwnTransaction(old(env.modes), old(env.committed))
    {
      if closed {
        return Err(Storage.Closed);
      }
      var txn := handler.Begin();
      var value := OldLookup(json, Contents(), key);
      if value.Err? {
        r := Err(value.error);
      } else {
        var ok := env.Del(name, key);
        r := if ok then Ok(value.value) else Err(Storage.NotFound);
      }
      handler.Commit();
    }

    /** `keys()`: the keys from first to the first falsy one, and the number of keys yielded. */
    method Keys() returns (r: Result<(seq<Key>, nat), Error>)
      requires Valid()
      modifies env`modes, env`committed, handler
      ensures Valid() && env.dbs == old(env.dbs)
      ensures old(closed) ==> r == Err(Storage.Closed) && unchanged(env, handler)
      ensures !old(closed) ==>
        && r == Ok((Storage.BeforeFalsy(Contents().keys), |Storage.BeforeFalsy(Contents().keys)|))
        && OwnTransaction(old(env.modes), old(env.committed))
    {
      if closed {
        return Err(Storage.Closed);
      }
      var txn := handler.Begin();
      var yielded, counter := Storage.WalkCursor(Contents());
      r := Ok((yielded, counter));
      handler.Commit();
    }

    /** `close()`: removes the store's methods, so any later call fails. */
    method Close() returns (r: Result<(), Error>)
      modifies this
      ensures closed
      ensures r == if old(closed) then Err(Storage.Closed) else Ok(())
    {
      r := if closed then Err(Storage.Closed) else Ok(());
      closed := true;
    }
  }

  /** The earlier `composeStorage(environment, name)`: a missing environment or name is refused. */
  method Compose(json: TextCodec, env: Lmdb.Env?, name: string) returns (r: Result<OldStore, Error>)
    requires env != null ==> env.Valid()
    modifies env
    ensures env == null ==> r == Err(Storage.MissingArgument("environment"))
    ensures env != null && name == "" ==> r == Err(Storage.MissingArgument("name")) && unchanged(env)
    ensures env != null && name != "" ==>
      && env.Valid()
      && (r.Ok? <==> name in old(env.dbs) || |old(env.dbs)| < env.maxDbs)
      && (r.Err? ==> r == Err(Storage.TooManyDbs) && unchanged(env))
      && (r.Ok? ==>
        && r.value.Valid() && !r.value.closed && fresh(r.value) && fresh(r.value.handler)
        && r.value.env == env && r.value.name == name && r.value.json == json
        && env.dbs == (if name in old(env.dbs) then old(env.dbs) else old(env.dbs)[name := Lmdb.EmptyDb])
        && env.modes == old(env.modes) && env.committed == old(env.committed) && env.isOpen == old(env.isOpen))
  {
    if env == null {
      return Err(Storage.MissingArgument("environment"));
    }
    if name == "" {
      return Err(Storage.MissingArgument("name"));
    }
    var ok := env.OpenDbi(name);
    if !ok {
      return Err(Storage.TooManyDbs);
    }
    var store := new OldStore(json, name, env);
    r := Ok(store);
  }
}
