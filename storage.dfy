/**
 * The named store of the current revision: put/get/del/count/keys/close over
 * one sub-database, each operation bracketed by the store's reference-counted
 * transaction handler, records packed by the record codec.
 */
module Storage {
  import opened Wrappers
  import opened Json
  import Lmdb
  import DataBuffer
  import TxnHandler

  type Key = Lmdb.Key

  datatype Error =
    | MissingArgument(argument: string)       // `Argument <env> missing`, `Argument <name> missing`
    | TooManyDbs                              // the engine refuses another sub-database
    | NotFound                                // no record: decoding `null` throws
    | Corrupt(reason: DataBuffer.DecodeError) // the record does not decode
    | Closed                                  // the store's methods were removed by `close()`

  /** What `get(key)` resolves with, read from the sub-database `db`. */
  function Lookup(json: TextCodec, db: Lmdb.Db, key: Key): (r: Result<DataBuffer.Decoded, Error>)
    ensures r == Err(NotFound) <==> Lmdb.DbGet(db, key).None?
    ensures r.Err? ==> r.error.NotFound? || r.error.Corrupt?
    ensures r.Err? && r.error.Corrupt? ==>
      Lmdb.DbGet(db, key).Some? && DataBuffer.Decode(json, Lmdb.DbGet(db, key).value) == Err(r.error.reason)
    ensures r.Ok? ==> Lmdb.DbGet(db, key).Some? && DataBuffer.Decode(json, Lmdb.DbGet(db, key).value) == Ok(r.value)
  {
    match Lmdb.DbGet(db, key)
    case None => Err(NotFound)
    case Some(bytes) =>
      match DataBuffer.Decode(json, bytes)
      case Ok(d) => Ok(d)
      case Err(e) => Err(Corrupt(e))
  }

  /** The sub-database after `put(key, value, attachment)`. */
  function Stored(json: TextCodec, db: Lmdb.Db, key: Key, value: Json, attachment: Option<Bytes>): Lmdb.Db
    requires DataBuffer.Encodable(json, value)
  {
    Lmdb.DbPut(db, key, DataBuffer.Encode(json, value, attachment))
  }

  /**
   * A `get(key)` after `put(key, value, attachment)` resolves with the value
   * and attachment put (the bare value when the attachment is missing or
   * empty); `get` of any other key is unaffected.
   */
  lemma PutThenGet(json: TextCodec, db: Lmdb.Db, key: Key, value: Json, attachment: Option<Bytes>)
    requires Lawful(json) && Plain(value) && DataBuffer.Encodable(json, value) && db.Valid()
    ensures Lookup(json, Stored(json, db, key, value, attachment), key)
      == Ok(DataBuffer.Expected(value, attachment))
    ensures forall other :: other != key ==>
      Lookup(json, Stored(json, db, key, value, attachment), other) == Lookup(json, db, other)
  {
    Lmdb.PutSpec(db, key, DataBuffer.Encode(json, value, attachment));
    DataBuffer.RoundTrip(json, value, attachment);
  }

  /**
   * `del(key)` of a record put earlier resolves with that record decoded,
   * and leaves the sub-database with `key` gone, every other key as it was
   * and one entry fewer.
   */
  lemma PutThenDel(json: TextCodec, db: Lmdb.Db, key: Key, value: Json, attachment: Option<Bytes>)
    requires Lawful(json) && Plain(value) && DataBuffer.Encodable(json, value) && db.Valid()
    ensures var put := Stored(json, db, key, value, attachment);
      && Lookup(json, put, key) == Ok(DataBuffer.Expected(value, attachment))
      && Lmdb.DbDel(put, key).Some?
      && var after := Lmdb.DbDel(put, key).value;
      && Lookup(json, after, key) == Err(NotFound)
      && (forall other :: other != key ==> Lookup(json, after, other) == Lookup(json, db, other))
      && Lmdb.EntryCount(after) == Lmdb.EntryCount(put) - 1
  {
    var put := Stored(json, db, key, value, attachment);
    PutThenGet(json, db, key, value, attachment);
    Lmdb.PutSpec(db, key, DataBuffer.Encode(json, value, attachment));
    Lmdb.DelSpec(put, key);
  }

  /** Put every entry in turn. */
  function PutAll(db: Lmdb.Db, entries: seq<(Key, Bytes)>): Lmdb.Db
    decreases |entries|
  {
    if entries == [] then db
    else Lmdb.DbPut(PutAll(db, entries[..|entries| - 1]), entries[|entries| - 1].0, entries[|entries| - 1].1)
  }

  ghost predicate DistinctKeys(entries: seq<(Key, Bytes)>) {
    forall i, j :: 0 <= i < j < |entries| ==> entries[i].0 != entries[j].0
  }

  /** Putting entries keeps a sub-database well formed. */
  lemma {:induction false} PutAllValid(db: Lmdb.Db, entries: seq<(Key, Bytes)>)
    requires db.Valid()
    ensures PutAll(db, entries).Valid()
    decreases |entries|
  {
    if entries != [] {
      var n := |entries| - 1;
      PutAllValid(db, entries[..n]);
      Lmdb.PutSpec(PutAll(db, entries[..n]), entries[n].0, entries[n].1);
    }
  }

  /** An entry that no later entry overwrites reads back as put. */
  lemma {:induction false} PutAllReadsBackAt(db: Lmdb.Db, entries: seq<(Key, Bytes)>, i: nat)
    requires i < |entries|
    requires forall j :: i < j < |entries| ==> entries[j].0 != entries[i].0
    ensures Lmdb.DbGet(PutAll(db, entries), entries[i].0) == Some(entries[i].1)
    decreases |entries|
  {
    var n := |entries| - 1;
    var prefix := entries[..n];
    if i < n {
      assert prefix[i] == entries[i];
      forall j | i < j < |prefix| ensures prefix[j].0 != prefix[i].0 {
        assert prefix[j] == entries[j];
      }
      PutAllReadsBackAt(db, prefix, i);
    }
  }

  /** Under distinct keys, every entry put reads back as put. */
  lemma PutAllReadsBack(db: Lmdb.Db, entries: seq<(Key, Bytes)>)
    requires db.Valid() && DistinctKeys(entries)
    ensures forall i :: 0 <= i < |entries| ==>
      Lmdb.DbGet(PutAll(db, entries), entries[i].0) == Some(entries[i].1)
  {
    forall i | 0 <= i < |entries|
      ensures Lmdb.DbGet(PutAll(db, entries), entries[i].0) == Some(entries[i].1)
    {
      PutAllReadsBackAt(db, entries, i);
    }
  }

  /**
   * Putting `m` records under distinct keys absent from the sub-database adds
   * exactly `m` to the count, and each of them reads back as put.
   */
  lemma {:induction false} CountAfterPuts(db: Lmdb.Db, entries: seq<(Key, Bytes)>)
    requires db.Valid() && DistinctKeys(entries)
    requires forall i :: 0 <= i < |entries| ==> Lmdb.DbGet(db, entries[i].0).None?
    ensures PutAll(db, entries).Valid()
    ensures Lmdb.EntryCount(PutAll(db, entries)) == Lmdb.EntryCount(db) + |entries|
    ensures forall i :: 0 <= i < |entries| ==>
      Lmdb.DbGet(PutAll(db, entries), entries[i].0) == Some(entries[i].1)
    decreases |entries|
  {
    PutAllValid(db, entries);
    PutAllReadsBack(db, entries);
    if entries != [] {
      var n := |entries| - 1;
      var prefix := entries[..n];
      var k := entries[n].0;
      assert DistinctKeys(prefix) by {
        forall i, j | 0 <= i < j < |prefix| ensures prefix[i].0 != prefix[j].0 {
          assert prefix[i] == entries[i] && prefix[j] == entries[j];
        }
      }
      forall i | 0 <= i < |prefix|
        ensures prefix[i].0 != k && Lmdb.DbGet(db, prefix[i].0).None?
      {
        assert prefix[i] == entries[i];
      }
      CountAfterPuts(db, prefix);
      NotPutStaysAbsent(db, prefix, k);
      Lmdb.PutSpec(PutAll(db, prefix), k, entries[n].1);
    }
  }

  /** A key none of the entries uses is as absent after them as before. */
  lemma {:induction false} NotPutStaysAbsent(db: Lmdb.Db, entries: seq<(Key, Bytes)>, key: Key)
    requires db.Valid()
    requires forall i :: 0 <= i < |entries| ==> entries[i].0 != key
    ensures Lmdb.DbGet(PutAll(db, entries), key) == Lmdb.DbGet(db, key)
    decreases |entries|
  {
    if entries != [] {
      NotPutStaysAbsent(db, entries[..|entries| - 1], key);
    }
  }

  /**
   * The keys a cursor walk hands on: those before the first falsy key. A key
   * read back as the empty string is falsy, and `if (!key)` ends the walk there.
   */
  function BeforeFalsy(ks: seq<Key>): (r: seq<Key>)
    ensures |r| <= |ks| && r == ks[..|r|]
    ensures forall i :: 0 <= i < |r| ==> r[i] != []
    ensures |r| < |ks| ==> ks[|r|] == []
  {
    if ks == [] || ks[0] == [] then [] else [ks[0]] + BeforeFalsy(ks[1..])
  }

  /**
   * In engine order the empty key comes first, so a sub-database holding it
   * lists no key at all, and one without it lists every key.
   */
  lemma Listed(db: Lmdb.Db)
    requires db.Valid()
    ensures Lmdb.DbGet(db, []).Some? ==> BeforeFalsy(db.keys) == []
    ensures Lmdb.DbGet(db, []).None? ==> BeforeFalsy(db.keys) == db.keys
  {
  }

  /**
   * The cursor walk of `keys()`: from `goToFirst()` until the cursor reports
   * no key or a falsy one, handing each key on and counting it. Yields the
   * sub-database's keys in engine order, and how many (0 at once for an empty
   * sub-database).
   */
  method WalkCursor(db: Lmdb.Db) returns (yielded: seq<Key>, counter: nat)
    requires db.Valid()
    ensures yielded == BeforeFalsy(db.keys) && counter == |yielded|
    ensures Lmdb.Sorted(yielded)
    ensures Lmdb.DbGet(db, []).None? ==> forall k :: k in yielded <==> Lmdb.DbGet(db, k).Some?
    ensures Lmdb.DbGet(db, []).Some? ==> yielded == []
  {
    var key := Lmdb.First(db);
    yielded, counter := [], 0;
    while key.Some? && key.value != []
      invariant counter <= |db.keys| && yielded == db.keys[..counter]
      invariant forall i :: 0 <= i < counter ==> db.keys[i] != []
      invariant key == if counter < |db.keys| then Some(db.keys[counter]) else None
      decreases |db.keys| - counter
    {
      yielded := yielded + [key.value];
      counter := counter + 1;
      Lmdb.NextInOrder(db.keys, counter - 1);
      key := Lmdb.Next(db.keys, key.value);
    }
    WalkedBeforeFalsy(db.keys, counter);
    Listed(db);
  }

  /** A prefix of non-empty keys ending at the end or at an empty key is `BeforeFalsy`. */
  lemma {:induction false} WalkedBeforeFalsy(ks: seq<Key>, n: nat)
    requires n <= |ks| && (forall i :: 0 <= i < n ==> ks[i] != [])
    requires n < |ks| ==> ks[n] == []
    ensures BeforeFalsy(ks) == ks[..n]
  {
    if n > 0 {
      WalkedBeforeFalsy(ks[1..], n - 1);
      assert ks[..n] == [ks[0]] + ks[1..][..n - 1];
    }
  }

  // ---------------------------------------------------------------------------
  // The store object

  /** The object `composeStorage(env, name)` returns. */
  class Store {
    const json: TextCodec
    const name: string
    const env: Lmdb.Env
    const handler: TxnHandler.Handler
    var closed: bool

    ghost predicate Valid()
      reads this, env, handler
    {
      && handler.env == env
      && handler.txn.None? && handler.counter == 0
      && env.Valid()
      && name in env.dbs
    }

    /** The sub-database this store reads and writes. */
    function Contents(): Lmdb.Db
      reads this, env
      requires name in env.dbs
    {
      env.dbs[name]
    }

    /** The operation runs in one read-write engine transaction of its own, committed once. */
    ghost predicate OwnTransaction(modes: seq<bool>, committed: seq<nat>)
      reads env
    {
      env.modes == modes + [false] && env.committed == committed + [|modes|]
    }

    constructor (json: TextCodec, name: string, env: Lmdb.Env)
      requires env.Valid() && name in env.dbs
      ensures Valid() && fresh(handler) && !closed
      ensures this.json == json && this.name == name && this.env == env
    {
      this.json, this.name, this.env := json, name, env;
      handler := new TxnHandler.Handler(env);
      closed := false;
    }

    /** `put(key, value, attachment)`: resolves with `key`. */
    method Put(key: Key, value: Json, attachment: Option<Bytes>) returns (r: Result<Key, Error>)
      requires Valid() && DataBuffer.Encodable(json, value)
      modifies env`dbs, env`modes, env`committed, handler
      ensures Valid()
      ensures old(closed) ==> r == Err(Closed) && unchanged(env, handler)
      ensures !old(closed) ==>
        && r == Ok(key)
        && env.dbs == old(env.dbs)[name := Stored(json, old(Contents()), key, value, attachment)]
        && OwnTransaction(old(env.modes), old(env.committed))
    {
      if closed {
        return Err(Closed);
      }
      var txn := handler.Begin();
      var buf := DataBuffer.FromValue(json, value, attachment);
      env.Put(name, key, buf[..]);
      r := Ok(key);
      handler.Commit();
    }

    /** `get(key)`. */
    method Get(key: Key) returns (r: Result<DataBuffer.Decoded, Error>)
      requires Valid()
      modifies env`modes, env`committed, handler
      ensures Valid() && env.dbs == old(env.dbs)
      ensures old(closed) ==> r == Err(Closed) && unchanged(env, handler)
      ensures !old(closed) ==>
        r == Lookup(json, Contents(), key) && OwnTransaction(old(env.modes), old(env.committed))
    {
      if closed {
        return Err(Closed);
      }
      var txn := handler.Begin();
      r := Lookup(json, Contents(), key);
      handler.Commit();
    }

    /** `del(key)`: resolves with the record deleted; a record that cannot be read is not deleted. */
    method Del(key: Key) returns (r: Result<DataBuffer.Decoded, Error>)
      requires Valid()
      modifies env`dbs, env`modes, env`committed, handler
      ensures Valid()
      ensures old(closed) ==> r == Err(Closed) && unchanged(env, handler)
      ensures !old(closed) ==>
        && r == Lookup(json, old(Contents()), key)
        && env.dbs == (if r.Ok? then old(env.dbs)[name := Lmdb.DbDel(old(Contents()), key).value] else old(env.dbs))
        && OwnTransaction(old(env.modes), old(env.committed))
    {
      if closed {
        return Err(Closed);
      }
      var txn := handler.Begin();
      r := Lookup(json, Contents(), key);
      if r.Ok? {
        var ok := env.Del(name, key);
      }
      handler.Commit();
    }

    /** `count()`: the entry count of the sub-database. */
    method Count() returns (r: Result<nat, Error>)
      requires Valid()
      modifies env`modes, env`committed, handler
      ensures Valid() && env.dbs == old(env.dbs)
      ensures old(closed) ==> r == Err(Closed) && unchanged(env, handler)
      ensures !old(closed) ==>
        r == Ok(Lmdb.EntryCount(Contents())) && OwnTransaction(old(env.modes), old(env.committed))
    {
      if closed {
        return Err(Closed);
      }
      var txn := handler.Begin();
      r := Ok(Lmdb.EntryCount(Contents()));
      handler.Commit();
    }

    /** `keys()`: the keys from first to the first falsy one, and the number of keys yielded. */
    method Keys() returns (r: Result<(seq<Key>, nat), Error>)
      requires Valid()
      modifies env`modes, env`committed, handler
      ensures Valid() && env.dbs == old(env.dbs)
      ensures old(closed) ==> r == Err(Closed) && unchanged(env, handler)
      ensures !old(closed) ==>
        && r == Ok((BeforeFalsy(Contents().keys), |BeforeFalsy(Contents().keys)|))
        && OwnTransaction(old(env.modes), old(env.committed))
    {
      if closed {
        return Err(Closed);
      }
      var txn := handler.Begin();
      var yielded, counter := WalkCursor(Contents());
      r := Ok((yielded, counter));
      handler.Commit();
    }

    /** `close()`: removes the store's methods, so any later call fails. */
    method Close() returns (r: Result<(), Error>)
      modifies this
      ensures closed
      ensures r == if old(closed) then Err(Closed) else Ok(())
    {
      r := if closed then Err(Closed) else Ok(());
      closed := true;
    }
  }

  /** `composeStorage(env, name)`: a null environment or an empty name is refused. */
  method Compose(json: TextCodec, env: Lmdb.Env?, name: string) returns (r: Result<Store, Error>)
    requires env != null ==> env.Valid()
    modifies env
    ensures env == null ==> r == Err(MissingArgument("env"))
    ensures env != null && name == "" ==> r == Err(MissingArgument("name")) && unchanged(env)
    ensures env != null && name != "" ==>
      && env.Valid()
      && (r.Ok? <==> name in old(env.dbs) || |old(env.dbs)| < env.maxDbs)
      && (r.Err? ==> r == Err(TooManyDbs) && unchanged(env))
      && (r.Ok? ==>
        && r.value.Valid() && !r.value.closed && fresh(r.value) && fresh(r.value.handler)
        && r.value.env == env && r.value.name == name && r.value.json == json
        && env.dbs == (if name in old(env.dbs) then old(env.dbs) else old(env.dbs)[name := Lmdb.EmptyDb])
        && env.modes == old(env.modes) && env.committed == old(env.committed) && env.isOpen == old(env.isOpen))
  {
    if env == null {
      return Err(MissingArgument("env"));
    }
    if name == "" {
      return Err(MissingArgument("name"));
    }
    var ok := env.OpenDbi(name);
    if !ok {
      return Err(TooManyDbs);
    }
    var store := new Store(json, name, env);
    r := Ok(store);
  }
}

/**
 * How the store's operations drive the transaction handler when one of them
 * fails: in `get` and `del`, a read that throws (no record under the key, or
 * a record that does not decode) leaves the operation before its `commit()`.
 */
module StoreCalls {
  import Lmdb
  import opened Wrappers
  import opened TxnHandler
  import Json
  import Storage

  /** The handler calls one operation makes, as written: no `commit()` after a failure. */
  function CallsAsWritten(ok: bool): (r: seq<Call>)
    ensures |r| >= 1 && r[0] == BeginCall
    ensures ok <==> CommitCall in r
  {
    if ok then [BeginCall, CommitCall] else [BeginCall]
  }

  /** The handler calls one operation makes when its `commit()` also runs on failure. */
  function CallsReleasing(ok: bool): (r: seq<Call>)
    ensures Balanced(r) && Occurrences(r, BeginCall) == 1 && Occurrences(r, CommitCall) == 1
  {
    var r := [BeginCall, CommitCall];
    assert r[..0] == [] && r[..1] == [BeginCall] && r[..2] == r;
    assert [BeginCall][..0] == [];
    assert Occurrences(r, BeginCall) == 1 && Occurrences(r, CommitCall) == 1;
    r
  }

  /** The calls of a sequence of operations with the given outcomes, made one after another. */
  function Operations(outcomes: seq<bool>, releasing: bool): seq<Call>
    decreases |outcomes|
  {
    if outcomes == [] then []
    else
      var last := outcomes[|outcomes| - 1];
      Operations(outcomes[..|outcomes| - 1], releasing)
        + (if releasing then CallsReleasing(last) else CallsAsWritten(last))
  }

  function Failures(outcomes: seq<bool>): nat {
    if outcomes == [] then 0
    else Failures(outcomes[..|outcomes| - 1]) + if outcomes[|outcomes| - 1] then 0 else 1
  }

  lemma RunPair(s: State)
    requires Consistent(s)
    ensures Run(s, [BeginCall, CommitCall]) == AfterCommit(AfterBegin(s).0)
  {
    assert [BeginCall, CommitCall][..1] == [BeginCall];
    assert [BeginCall][..0] == [];
  }

  lemma RunSingle(s: State)
    requires Consistent(s)
    ensures Run(s, [BeginCall]) == AfterBegin(s).0
  {
    assert [BeginCall][..0] == [];
  }

  /**
   * As written, once an operation has failed, the handler never reaches 0
   * again: whatever operations follow, with whatever outcomes, nothing more
   * is committed to the engine and a transaction stays open, its counter
   * one above zero for every failure.
   */
  lemma {:induction false} FailureLeaks(s: State, outcomes: seq<bool>)
    requires Consistent(s) && s.counter >= 1
    ensures var r := Run(s, Operations(outcomes, false));
      && r.committed == s.committed
      && r.counter == s.counter + Failures(outcomes)
      && r.txn == s.txn
    decreases |outcomes|
  {
    if outcomes != [] {
      var n := |outcomes| - 1;
      FailureLeaks(s, outcomes[..n]);
      var p := Run(s, Operations(outcomes[..n], false));
      RunAppend(s, Operations(outcomes[..n], false), CallsAsWritten(outcomes[n]));
      if outcomes[n] {
        RunPair(p);
      } else {
        RunSingle(p);
      }
    }
  }

  /**
   * As written, a single failing operation on an idle handler (a `get` of a
   * key with no record) is enough: every operation after it, even all
   * successful, commits nothing to the engine.
   */
  lemma NothingCommittedAfterFailure(s: State, outcomes: seq<bool>)
    requires Idle(s)
    ensures var r := Run(s, Operations([false] + outcomes, false));
      && r.committed == s.committed
      && r.txn == Some(s.began)
  {
    var f := Run(s, CallsAsWritten(false));
    RunSingle(s);
    assert Operations([false], false) == CallsAsWritten(false) by {
      assert [false][..0] == [];
    }
    OperationsAppend([false], outcomes, false);
    RunAppend(s, CallsAsWritten(false), Operations(outcomes, false));
    FailureLeaks(f, outcomes);
  }

  /**
   * The failure `CallsAsWritten(false)` stands for is the common one: `get`
   * of a key with no record fails with `NotFound`, and as written that `get`
   * on an idle handler leaves its transaction open with nothing committed.
   */
  lemma MissingKeyHoldsHandler(json: Json.TextCodec, db: Lmdb.Db, key: Lmdb.Key, s: State)
    requires Lmdb.DbGet(db, key).None? && Idle(s)
    ensures Storage.Lookup(json, db, key) == Err(Storage.NotFound)
    ensures var r := Run(s, CallsAsWritten(Storage.Lookup(json, db, key).Ok?));
      r.counter == 1 && r.txn == Some(s.began) && r.committed == s.committed
  {
    RunSingle(s);
  }

  lemma {:induction false} OperationsAppend(a: seq<bool>, b: seq<bool>, releasing: bool)
    ensures Operations(a + b, releasing) == Operations(a, releasing) + Operations(b, releasing)
    decreases |b|
  {
    if b == [] {
      assert a + b == a;
    } else {
      var n := |b| - 1;
      assert (a + b)[..|a + b| - 1] == a + b[..n];
      assert (a + b)[|a + b| - 1] == b[n];
      OperationsAppend(a, b[..n], releasing);
    }
  }

  /**
   * When every operation releases the handler, failed or not, each one
   * commits its own engine transaction: after any operations the handler is
   * idle again and the transactions begun are committed once each, in order.
   */
  lemma {:induction false} EveryOperationCommits(s: State, outcomes: seq<bool>)
    requires Idle(s)
    ensures var r := Run(s, Operations(outcomes, true));
      && Idle(r)
      && r.began == s.began + |outcomes|
      && r.committed == s.committed + Lmdb.Ids(s.began, r.began)
    decreases |outcomes|
  {
    if outcomes != [] {
      var n := |outcomes| - 1;
      EveryOperationCommits(s, outcomes[..n]);
      var p := Run(s, Operations(outcomes[..n], true));
      RunAppend(s, Operations(outcomes[..n], true), CallsReleasing(outcomes[n]));
      RunPair(p);
      IdsExtend(s.began, p.began);
    }
  }

  lemma IdsExtend(lo: nat, hi: nat)
    requires lo <= hi
    ensures Lmdb.Ids(lo, hi + 1) == Lmdb.Ids(lo, hi) + [hi]
  {
  }
}
