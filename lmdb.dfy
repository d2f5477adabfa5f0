/**
 * The storage engine behind the access layer, reduced to what the layer
 * relies on: named sub-databases that map byte keys to byte values in key
 * order, cursors that walk that order, and transactions that are begun and
 * committed. Memory mapping, size limits and multi-version concurrency are
 * not modelled: a write is visible as soon as it is made.
 */
module Lmdb {
  import opened Wrappers
  import Octets

  type Bytes = Octets.Bytes
  type Key = Octets.Bytes

  // ---------------------------------------------------------------------------
  // Key order: bytes compared as unsigned numbers, a proper prefix first

  predicate KeyLess(a: Key, b: Key)
    decreases |a|
  {
    if |a| == 0 then |b| > 0
    else |b| > 0 && (a[0] < b[0] || (a[0] == b[0] && KeyLess(a[1..], b[1..])))
  }

  lemma {:induction false} KeyLessIrreflexive(a: Key)
    ensures !KeyLess(a, a)
    decreases |a|
  {
    if |a| > 0 {
      KeyLessIrreflexive(a[1..]);
    }
  }

  lemma {:induction false} KeyLessAsymmetric(a: Key, b: Key)
    requires KeyLess(a, b)
    ensures !KeyLess(b, a)
    decreases |a|
  {
    if |a| > 0 && a[0] == b[0] {
      KeyLessAsymmetric(a[1..], b[1..]);
    }
  }

  lemma {:induction false} KeyLessTransitive(a: Key, b: Key, c: Key)
    requires KeyLess(a, b) && KeyLess(b, c)
    ensures KeyLess(a, c)
    decreases |a|
  {
    if |a| > 0 && a[0] == b[0] && b[0] == c[0] {
      KeyLessTransitive(a[1..], b[1..], c[1..]);
    }
  }

  lemma {:induction false} KeyLessTotal(a: Key, b: Key)
    ensures a == b || KeyLess(a, b) || KeyLess(b, a)
    decreases |a|
  {
    if |a| > 0 && |b| > 0 && a[0] == b[0] {
      KeyLessTotal(a[1..], b[1..]);
      if a[1..] == b[1..] {
        assert a == [a[0]] + a[1..] && b == [b[0]] + b[1..];
      }
    }
  }

  /** Strictly increasing: the order in which a cursor visits the keys. */
  ghost predicate Sorted(ks: seq<Key>) {
    forall i, j :: 0 <= i < j < |ks| ==> KeyLess(ks[i], ks[j])
  }

  // ---------------------------------------------------------------------------
  // Key sequences kept in order

  /** `ks` with `k` added in its place, unless it is there already. */
  function Insert(ks: seq<Key>, k: Key): seq<Key> {
    if |ks| == 0 then [k]
    else if ks[0] == k then ks
    else if KeyLess(k, ks[0]) then [k] + ks
    else [ks[0]] + Insert(ks[1..], k)
  }

  lemma {:induction false} InsertMembers(ks: seq<Key>, k: Key)
    ensures forall x :: x in Insert(ks, k) <==> x in ks || x == k
  {
    if |ks| > 0 && ks[0] != k && !KeyLess(k, ks[0]) {
      InsertMembers(ks[1..], k);
      assert ks == [ks[0]] + ks[1..];
    }
  }

  /** Every key of a sorted sequence is at least its first. */
  lemma BelowFirst(ks: seq<Key>, k: Key)
    requires Sorted(ks) && |ks| > 0 && KeyLess(k, ks[0])
    ensures forall j :: 0 <= j < |ks| ==> KeyLess(k, ks[j])
    ensures k !in ks
  {
    forall j | 0 <= j < |ks| ensures KeyLess(k, ks[j]) {
      if j > 0 {
        KeyLessTransitive(k, ks[0], ks[j]);
      }
    }
    forall j | 0 <= j < |ks| ensures ks[j] != k {
      KeyLessIrreflexive(k);
    }
  }

  lemma {:induction false} InsertSorted(ks: seq<Key>, k: Key)
    requires Sorted(ks)
    ensures Sorted(Insert(ks, k))
    ensures |Insert(ks, k)| == if k in ks then |ks| else |ks| + 1
  {
    if |ks| > 0 && ks[0] != k {
      if KeyLess(k, ks[0]) {
        BelowFirst(ks, k);
      } else {
        KeyLessTotal(k, ks[0]);
        InsertSorted(ks[1..], k);
        InsertMembers(ks[1..], k);
        var r := Insert(ks[1..], k);
        forall j | 0 <= j < |r| ensures KeyLess(ks[0], r[j]) {
          assert r[j] in r;
        }
        assert k in ks <==> k in ks[1..];
      }
    }
  }

  /** `ks` without `k`. */
  function Remove(ks: seq<Key>, k: Key): seq<Key> {
    if |ks| == 0 then []
    else if ks[0] == k then Remove(ks[1..], k)
    else [ks[0]] + Remove(ks[1..], k)
  }

  lemma {:induction false} RemoveMembers(ks: seq<Key>, k: Key)
    ensures forall x :: x in Remove(ks, k) <==> x in ks && x != k
  {
    if |ks| > 0 {
      RemoveMembers(ks[1..], k);
      assert ks == [ks[0]] + ks[1..];
    }
  }

  lemma {:induction false} RemoveSorted(ks: seq<Key>, k: Key)
    requires Sorted(ks)
    ensures Sorted(Remove(ks, k))
    ensures |Remove(ks, k)| == if k in ks then |ks| - 1 else |ks|
  {
    if |ks| > 0 {
      RemoveSorted(ks[1..], k);
      RemoveMembers(ks[1..], k);
      if ks[0] == k {
        assert k !in ks[1..] by {
          forall j | 1 <= j < |ks| ensures ks[j] != k {
            KeyLessIrreflexive(k);
          }
        }
      } else {
        var r := Remove(ks[1..], k);
        forall j | 0 <= j < |r| ensures KeyLess(ks[0], r[j]) {
          assert r[j] in r;
        }
        assert k in ks <==> k in ks[1..];
      }
    }
  }

  /** The first key after `k`: where a cursor on `k` moves next. */
  function Next(ks: seq<Key>, k: Key): Option<Key> {
    if |ks| == 0 then None
    else if KeyLess(k, ks[0]) then Some(ks[0])
    else Next(ks[1..], k)
  }

  /** In a sorted sequence, the key after the `i`-th is the `i + 1`-th. */
  lemma {:induction false} NextInOrder(ks: seq<Key>, i: nat)
    requires Sorted(ks) && i < |ks|
    ensures Next(ks, ks[i]) == if i + 1 < |ks| then Some(ks[i + 1]) else None
  {
    if i == 0 {
      KeyLessIrreflexive(ks[0]);
    } else {
      KeyLessAsymmetric(ks[0], ks[i]);
      NextInOrder(ks[1..], i - 1);
    }
  }

  // ---------------------------------------------------------------------------
  // Sub-databases

  /** A sub-database: its keys in cursor order, and the bytes stored under each. */
  datatype Db = Db(keys: seq<Key>, vals: map<Key, Bytes>) {
    ghost predicate Valid() {
      Sorted(keys) && forall k :: k in vals <==> k in keys
    }
  }

  const EmptyDb: Db := Db([], map[])

  /** The bytes stored under `k`; None where the engine reports no record. */
  function DbGet(db: Db, k: Key): Option<Bytes> {
    if k in db.vals then Some(db.vals[k]) else None
  }

  /** Store `v` under `k`, replacing what was there. */
  function DbPut(db: Db, k: Key, v: Bytes): Db {
    Db(Insert(db.keys, k), db.vals[k := v])
  }

  /** Delete the record under `k`; None where the engine reports that there is none. */
  function DbDel(db: Db, k: Key): Option<Db> {
    if k in db.vals then Some(Db(Remove(db.keys, k), db.vals - {k})) else None
  }

  /** The entry count `stat` reports. */
  function EntryCount(db: Db): nat {
    |db.keys|
  }

  /**
   * A put keeps the sub-database well formed, makes `k` read back as `v`,
   * leaves every other key as it was, and adds one entry exactly when `k` is new.
   */
  lemma PutSpec(db: Db, k: Key, v: Bytes)
    requires db.Valid()
    ensures DbPut(db, k, v).Valid()
    ensures DbGet(DbPut(db, k, v), k) == Some(v)
    ensures forall x :: x != k ==> DbGet(DbPut(db, k, v), x) == DbGet(db, x)
    ensures EntryCount(DbPut(db, k, v)) == EntryCount(db) + if DbGet(db, k).None? then 1 else 0
  {
    InsertSorted(db.keys, k);
    InsertMembers(db.keys, k);
  }

  /**
   * A delete of a present key keeps the sub-database well formed, removes `k`,
   * leaves every other key as it was and drops one entry; a delete of an
   * absent key fails.
   */
  lemma DelSpec(db: Db, k: Key)
    requires db.Valid()
    ensures DbDel(db, k).None? <==> DbGet(db, k).None?
    ensures DbDel(db, k).Some? ==>
      var r := DbDel(db, k).value;
      && r.Valid()
      && DbGet(r, k).None?
      && (forall x :: x != k ==> DbGet(r, x) == DbGet(db, x))
      && EntryCount(r) == EntryCount(db) - 1
  {
    RemoveSorted(db.keys, k);
    RemoveMembers(db.keys, k);
  }

  /** A cursor's `goToFirst`. */
  function First(db: Db): Option<Key> {
    if |db.keys| == 0 then None else Some(db.keys[0])
  }

  // ---------------------------------------------------------------------------
  // The environment

  /** The transaction ids `lo`, `lo + 1`, ..., `hi - 1`. */
  function Ids(lo: nat, hi: nat): (r: seq<nat>)
    ensures |r| == if lo <= hi then hi - lo else 0
    ensures forall i :: 0 <= i < |r| ==> r[i] == lo + i
    decreases hi - lo
  {
    if lo < hi then Ids(lo, hi - 1) + [hi - 1] else []
  }

  /**
   * An open environment: its sub-databases by name, and a log of the
   * transactions begun on it (by id, with their read-only flag) and of the
   * ids committed, in order.
   */
  class Env {
    const path: string
    const mapSize: nat
    const maxDbs: nat
    var isOpen: bool
    var dbs: map<string, Db>
    var modes: seq<bool>
    var committed: seq<nat>

    ghost predicate Valid()
      reads this
    {
      forall name :: name in dbs ==> dbs[name].Valid()
    }

    /** `new Env()` followed by `env.open({ path, mapSize, maxDbs })`. */
    constructor Open(path: string, mapSize: nat, maxDbs: nat)
      ensures this.path == path && this.mapSize == mapSize && this.maxDbs == maxDbs
      ensures isOpen && dbs == map[] && modes == [] && committed == []
      ensures Valid()
    {
      this.path, this.mapSize, this.maxDbs := path, mapSize, maxDbs;
      isOpen, dbs, modes, committed := true, map[], [], [];
    }

    /** `env.close()`, which fails on an environment that is already closed. */
    method Close() returns (ok: bool)
      modifies this`isOpen
      ensures ok == old(isOpen) && !isOpen
    {
      ok := isOpen;
      isOpen := false;
    }

    /** `env.openDbi({ name, create: true })`: fails once `maxDbs` names are in use. */
    method OpenDbi(name: string) returns (ok: bool)
      requires Valid()
      modifies this`dbs
      ensures Valid()
      ensures ok == (name in old(dbs) || |old(dbs)| < maxDbs)
      ensures dbs == if name in old(dbs) || !ok then old(dbs) else old(dbs)[name := EmptyDb]
    {
      ok := name in dbs || |dbs| < maxDbs;
      if ok && name !in dbs {
        dbs := dbs[name := EmptyDb];
      }
    }

    /** `env.beginTxn({ readOnly })`: returns the id of the new transaction. */
    method BeginTxn(readOnly: bool) returns (id: nat)
      modifies this`modes
      ensures id == |old(modes)| && modes == old(modes) + [readOnly]
    {
      id := |modes|;
      modes := modes + [readOnly];
    }

    /** `txn.commit()`. */
    method CommitTxn(id: nat)
      modifies this`committed
      ensures committed == old(committed) + [id]
    {
      committed := committed + [id];
    }

    /** `txn.putBinary(dbi, key, data)` / `txn.putString(dbi, key, data)`. */
    method Put(name: string, key: Key, data: Bytes)
      requires Valid() && name in dbs
      modifies this`dbs
      ensures Valid()
      ensures dbs == old(dbs)[name := DbPut(old(dbs)[name], key, data)]
    {
      PutSpec(dbs[name], key, data);
      dbs := dbs[name := DbPut(dbs[name], key, data)];
    }

    /** `txn.del(dbi, key)`: fails when there is no record under `key`. */
    method Del(name: string, key: Key) returns (ok: bool)
      requires Valid() && name in dbs
      modifies this`dbs
      ensures Valid()
      ensures ok == DbDel(old(dbs)[name], key).Some?
      ensures dbs == if ok then old(dbs)[name := DbDel(old(dbs)[name], key).value] else old(dbs)
    {
      DelSpec(dbs[name], key);
      var r := DbDel(dbs[name], key);
      ok := r.Some?;
      if ok {
        dbs := dbs[name := r.value];
      }
    }
  }
}
