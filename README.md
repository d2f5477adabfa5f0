# tacid storage layer in Dafny

A model of the LMDB key-value layer of tacid. It covers four pieces, one Dafny
module each, plus the engine they sit on.

- **The record codec** (`DataBuffer`, in `data_buffer.dfy`). It packs a JSON
  value and an optional attachment into one byte buffer:
  - an 8-byte big-endian IEEE-754 double holding the JSON byte length `N`;
  - then the `N` bytes of JSON text;
  - then the attachment verbatim.

  Decoding returns `{ value, attachment }` when bytes remain after `8 + N`,
  and the bare value otherwise. The header (`LengthHeader`) is modelled bit
  for bit: sign, 11-bit biased exponent, 52-bit fraction. Its round trip is
  proved for every length below 2^53.
- **The reference-counted transaction handler** (`TxnHandler`). It is shared
  by both revisions of the store:
  - `begin()` opens an engine transaction only when no operation holds one;
  - `commit()` commits only when the last holder lets go.

  The class `Handler` is proved against step functions. Properties of
  arbitrary call sequences are proved about those functions.
- **The lazy transaction manager** (`TransactionManager`). It is a one-slot
  manager: `get()` opens a transaction when none is held, and `commit()`
  commits and empties the slot.
- **The environment registry and the named store.**
  - `Registry` holds one open environment per resolved path. Each handle
    offers `close()` and `storage(name)`.
  - `Storage` is the current store: put/get/del/count/keys/close over one
    sub-database, with values packed by the codec.
  - `OldStorage` is the earlier revision: values are stored as bare JSON
    text, and `put` resolves with the value.
  - `StoreCalls` shows how an operation that fails drives the handler.

The engine (`Lmdb`) is modelled as an `Env` class:
- a map from sub-database names to sorted key sequences with their stored
  bytes, ordered by memcmp over the key bytes;
- a log of the transactions begun, with their read-only flags;
- a log of the transaction ids committed.

JSON is a concrete value datatype. A number is held as its 64-bit binary64
pattern, and an object as its members in the order JavaScript lists them. The text codec
(`stringify`/`parse`) is passed in as a value. The lemmas that need it to
round-trip require `Lawful(codec)`: `parse(stringify(v)) == v` for every
plain value `v`, and `null` is written as the four bytes `null`. A value is
plain when none of its numbers is NaN, an infinity or -0 and every object in
it lists its keys as JavaScript does: no key twice, and the array-index keys
(canonical decimals below 2^32 - 1) first, in ascending numeric order, before
the other keys. `Json.Sample` is a codec that meets these laws, so the lemmas
that assume them are about codecs that exist.

Two behaviours of the code the model keeps:
- A header whose length runs past the end of the buffer does not fail by
  itself. The JSON slice is clamped to the bytes there are, as
  `Buffer.toString` does, and only a parse failure is reported.
- A record without an attachment decodes to the bare value, not to a pair.

## Model

| member | source | states |
|---|---|---|
| LengthHeader.LengthRoundTrip | data-buffer.js:11 | For every length below 2^53, the 8 header bytes written for it read back as that same length. |
| LengthHeader.EncodeLength | data-buffer.js:11 | The length is written as exactly 8 header bytes. |
| LengthHeader.DecodeLength | data-buffer.js:18 | A header whose sign bit is set is not read as a length, except negative zero, which reads as 0. |
| LengthHeader.SignedPattern | data-buffer.js:18 | The bit pattern of negative zero denotes 0, and every other pattern with the sign bit set denotes no whole number. |
| LengthHeader.BigEndianBound | data-buffer.js:18 | A big-endian number of `k` bytes is below 2^(8k), so an 8-byte header fits in 64 bits. |
| DataBuffer.Write | data-buffer.js:12-13 | Writing bytes at an offset puts exactly those bytes there and leaves every byte before and after as it was. |
| DataBuffer.FromValue | data-buffer.js:5-15 | `fromValue` returns a new buffer holding exactly the encoded record: header, JSON text, then the attachment. |
| DataBuffer.Encode | data-buffer.js:5-15 | The record is 8 + N + attachment-length bytes. After the 8 header bytes come the JSON text and then the attachment verbatim. |
| DataBuffer.Decode | storage.js:73-82 | Fewer than 8 bytes fail, as the header read does, and a header that is not a length fails. A decoded record carries an attachment exactly when bytes remain past 8 + N, and the attachment is those bytes. |
| DataBuffer.ToValue | data-buffer.js:16-26 | A missing buffer gives `null`. A buffer fails only as the decoder fails on it. |
| DataBuffer.EncodeLayout | data-buffer.js:6-13 | An encoded record is 8 + N + attachment-length bytes. Its header reads back as N, bytes [8, 8+N) are the JSON text and bytes [8+N, end) are the attachment verbatim. |
| DataBuffer.RoundTrip | storage.js:62-82 | Decoding an encoded value and attachment gives back the value, paired with the attachment when the attachment has bytes and bare otherwise. |
| DataBuffer.RoundTripWithAttachment | data-buffer.js:16-24 | With a non-empty attachment, decoding returns `{ value, attachment }` with both as put. |
| DataBuffer.RoundTripWithoutAttachment | data-buffer.js:22-25 | An empty attachment encodes exactly like a missing one. Either buffer is exactly 8 + N bytes and decodes to the bare value. |
| DataBuffer.ToValueRoundTrip | data-buffer.js:16-26 | `toValue` of a missing buffer is `null`; `toValue` of a buffer from `fromValue` gives back what was put in. |
| DataBuffer.SuffixOnlyAttachment | data-buffer.js:18-23 | The value is decided by the first 8 + N bytes alone. Bytes appended to a complete record only become its attachment. |
| Json.SampleIsLawful | data-buffer.js:6-21 | The laws the round-trip lemmas assume of `JSON.stringify` and `JSON.parse` can be met. A sample codec reads back every value it writes, plain or not, and writes `null` as `null`. |
| Lmdb.PutSpec | storage.js:99 | A put keeps the keys sorted and makes the key read back as the bytes put. Every other key is unchanged, and the count grows by one exactly when the key is new. |
| Lmdb.DelSpec | storage.js:118 | Deleting a present key keeps the keys sorted, removes the key, leaves every other key and drops the count by one. Deleting an absent key fails. |
| Lmdb.NextInOrder | storage.js:134-146 | On sorted keys, the cursor step from the i-th key gives the (i+1)-th, or nothing after the last. |
| Lmdb.Env.OpenDbi | storage.js:90-93 | Opening a sub-database by name creates it empty when new, and fails only once `maxDbs` names are in use. |
| Lmdb.Env.Open | storage.js:21-26 | A new environment is open, with the path, map size and `maxDbs` given, no sub-databases and empty transaction logs. |
| Lmdb.Env.Put | storage.js:99 | The named sub-database becomes the old one with the key put, and the others are unchanged. |
| Lmdb.Env.Del | storage.js:118 | The delete succeeds exactly when the key has a record, and only then is the named sub-database changed. |
| Lmdb.Env.BeginTxn | storage.js:47 | A new transaction gets the next id and its mode is logged. |
| Lmdb.Env.CommitTxn | storage.js:55 | The transaction id is appended to the commit log. |
| Lmdb.Env.Close | storage.js:31 | Closing succeeds exactly when the environment was open, and it is closed afterwards. |
| TxnHandler.BeginSpec | storage.js:45-51 | `begin` opens a new engine transaction exactly when the counter is 0, and otherwise returns the open one. The counter rises by one and nothing is committed. |
| TxnHandler.CommitSpec | storage.js:52-58 | `commit` lowers the counter by one. It commits the open transaction and clears it exactly when the counter reaches 0. |
| TxnHandler.AfterBegin | storage.js:45-51 | `begin` raises the counter by one and returns the transaction held afterwards. At counter 0 that is a fresh one, the next id; otherwise it is the one already held. Nothing is committed. |
| TxnHandler.AfterCommit | storage.js:52-58 | `commit` lowers the counter by one. It appends the held transaction to the commit log exactly when the counter was 1. |
| TxnHandler.RunCounter | storage.js:43-58 | After any calls, the counter equals begins minus commits. |
| TxnHandler.BalancedCounter | storage.js:43-58 | Under balanced calls from idle, the counter never goes negative, and a transaction is held exactly while the counter is positive. |
| TxnHandler.EveryTransactionCommittedOnce | storage.js:42-60 | Whatever the calls, each engine transaction begun is committed exactly once, in order, except the one still held, which is the last begun. |
| TxnHandler.BeginsShare | storage.js:45-51 | From idle, every begin after the first returns the transaction the first one opened. |
| TxnHandler.CommitsRelease | storage.js:52-58 | Commits that leave holders behind commit nothing. |
| TxnHandler.BurstCommitsOnce | storage.js:42-60 | n begins followed by n commits share one engine transaction and commit it exactly once, returning to idle. The earlier revision's handler, storage.old.js:41-59, is the same code. |
| TxnHandler.Handler.constructor | storage.js:43-44 | A new handler holds no transaction and has counter 0. |
| TxnHandler.Handler.Begin | storage.js:45-51 | The handler's fields and the engine's transaction log move exactly as `BeginSpec` describes. A read-write transaction is begun only when the counter was 0. |
| TxnHandler.Handler.Commit | storage.js:52-58 | The handler's fields and the engine's commit log move exactly as `CommitSpec` describes. |
| TransactionManager.GetSpec | transaction-manager.js:6-11 | `get` opens a transaction only when none is held, in the manager's read-only mode, and otherwise returns the held one without touching the engine. |
| TransactionManager.GetIdempotent | transaction-manager.js:6-11 | Repeated `get` calls return the same transaction and change nothing. |
| TransactionManager.CommitSpec | transaction-manager.js:12-17 | `commit` commits the held transaction exactly once and empties the slot. With nothing held it is a no-op, so a second commit does nothing. |
| TransactionManager.AfterGet | transaction-manager.js:6-11 | `get` returns the transaction held afterwards. It is the one already held, with nothing changed, or else a new one, the next id, logged in the manager's mode. Nothing is committed. |
| TransactionManager.AfterCommit | transaction-manager.js:12-17 | `commit` leaves the slot empty and appends the held transaction, if any, to the commit log. |
| TransactionManager.FreshAfterCommit | transaction-manager.js:7-15 | After `commit`, the next `get` opens a new transaction instead of reusing the committed one. |
| TransactionManager.ModesOfRun | transaction-manager.js:4-8 | Whatever the calls, every transaction the manager begins has the mode fixed at construction, and earlier log entries are untouched. |
| TransactionManager.EveryTransactionCommittedOnce | transaction-manager.js:4-18 | Whatever the calls, every transaction begun is committed exactly once, in order, except the one still held, which is the last begun. |
| TransactionManager.Manager.constructor | transaction-manager.js:4-5 | A new manager holds no transaction, and its environment and mode are fixed. |
| TransactionManager.Manager.Get | transaction-manager.js:6-11 | The slot and the engine's transaction log move exactly as `GetSpec` describes. |
| TransactionManager.Manager.Commit | transaction-manager.js:12-17 | The slot and the engine's commit log move exactly as `CommitSpec` describes. |
| Storage.PutThenGet | storage.js:95-112 | After `put(k, v, a)`, `get(k)` gives back `v` with `a` (bare `v` when `a` is missing or empty), and every other key reads as before. |
| Storage.PutThenDel | storage.js:113-122 | `del(k)` of a record put earlier gives back that record and removes `k`. Every other key reads as before and there is one entry fewer. |
| Storage.Lookup | storage.js:104-112 | `get` fails with `NotFound` exactly when the key has no record. Otherwise it fails only when the record does not decode, with the decoder's error, and it succeeds with what the record decodes to. |
| Storage.CountAfterPuts | storage.js:123-130 | Putting records under m distinct new keys raises the entry count by exactly m, and each key reads back as put. |
| Storage.BeforeFalsy | storage.js:137-148 | The keys a walk hands on are the leading keys in engine order, none of them empty. They stop at the last key or just before an empty key, which is falsy. |
| Storage.Listed | storage.js:131-152 | Because the empty key sorts first, a sub-database holding it lists no key at all. A sub-database without it lists every key. |
| Storage.WalkCursor | storage.js:131-152 | The cursor walk yields the keys before the first falsy one, once each and in engine order, and counts them. Without an empty key that is every key; with one it is none. |
| Storage.Compose | storage.js:87-94 | A missing environment or an empty name is refused. Otherwise the sub-database is opened or created, and the store is idle and open. |
| Storage.Store.constructor | storage.js:94 | A new store has an idle handler of its own over the environment. |
| Storage.Store.Put | storage.js:95-103 | `put` resolves with the key and stores the encoded record in one read-write transaction that it commits. After `close` it fails and changes nothing. |
| Storage.Store.Get | storage.js:104-112 | `get` resolves with the decoded record or the reason there is none, and changes no data. |
| Storage.Store.Del | storage.js:113-122 | `del` resolves with the decoded record and removes it. A record that cannot be read is not removed. |
| Storage.Store.Count | storage.js:123-130 | `count` resolves with the sub-database's entry count. |
| Storage.Store.Keys | storage.js:131-152 | `keys` yields the keys in engine order up to the first falsy one and resolves with how many it yielded. |
| Storage.Store.Close | storage.js:154-164 | After `close`, every method of the store fails, including a second `close`. |
| StoreCalls.CallsAsWritten | storage.js:104-122 | As written, an operation that fails makes a `begin` call and no `commit` call. |
| StoreCalls.CallsReleasing | storage.js:104-122 | With release on failure, every operation is one balanced begin/commit pair. |
| StoreCalls.FailureLeaks | storage.js:104-122 | As written, once a failure leaves the handler held, no later operation commits anything. The counter stays one above zero per failure. |
| StoreCalls.NothingCommittedAfterFailure | storage.js:104-112 | As written, one `get` of a missing key on an idle store means nothing is committed afterwards, whatever follows. |
| StoreCalls.MissingKeyHoldsHandler | storage.js:104-112 | `get` of a key with no record fails with `NotFound`. As written, that `get` leaves an idle handler holding its transaction, counter 1, with nothing committed. |
| StoreCalls.EveryOperationCommits | storage.js:94-152 | With release on failure, the handler is idle after every operation, and each operation's transaction is committed once, in order. |
| OldStorage.OldPutThenGet | storage.old.js:69-86 | After `put(k, v)`, `get(k)` parses back exactly `v`, and every other key reads as before. |
| OldStorage.OldMissingKey | storage.old.js:78-96 | `get` of a key with no record resolves with `null`, and `del` of it fails. |
| OldStorage.MissingKeyDelHoldsHandler | storage.old.js:87-96 | `del` of a key with no record fails with `NotFound`. As written, that `del` leaves an idle handler holding its transaction, counter 1, with nothing committed. |
| OldStorage.OldPutThenDel | storage.old.js:87-96 | `del(k)` of a value put earlier resolves with that value and removes `k`. Every other key is as before and there is one entry fewer. |
| OldStorage.OldLookup | storage.old.js:78-86 | A read parses the stored text, or the text `null` for a key with no record. It fails exactly when that text does not parse, and otherwise resolves with what it parses to. |
| OldStorage.OldRemove | storage.old.js:87-96 | `del` of a key with no record fails. When it succeeds, it resolves with the parsed value, and the key is gone from the sub-database. |
| OldStorage.Compose | storage.old.js:61-68 | A missing environment or name is refused. Otherwise the sub-database is opened or created, and the store is idle and open. |
| OldStorage.OldStore.constructor | storage.old.js:68 | A new store has an idle handler of its own over the environment. |
| OldStorage.OldStore.Put | storage.old.js:69-77 | `put` stores the JSON text of the value and resolves with the value, not the key. |
| OldStorage.OldStore.Get | storage.old.js:78-86 | `get` resolves with the parsed stored text (`null` for a missing key) and changes no data. |
| OldStorage.OldStore.Del | storage.old.js:87-96 | `del` resolves with the parsed value and deletes the record, failing when there is none. |
| OldStorage.OldStore.Keys | storage.old.js:97-118 | `keys` yields the keys in cursor order up to the first falsy one and resolves with their count, 0 for an empty store. |
| OldStorage.OldStore.Close | storage.old.js:120-129 | After `close`, every method of the store fails. |
| Registry.MapSize | storage.js:16 | The map size is the one configured when given and non-zero, else 2 GiB. |
| Registry.Registry.constructor | storage.js:11 | The registry starts empty. |
| Registry.Registry.Environment | storage.js:13-28 | A missing `path` or `maxDbs` is refused with nothing changed. Otherwise the call completes the configuration and reuses the environment registered for the resolved path. Only when there is none does it open and register a new one; at most one open environment per path is kept. |
| Registry.Handle.constructor | storage.js:29-38 | A new handle is open, on the environment registered for its path. |
| Registry.Handle.Close | storage.js:30-35 | Closing closes the environment and clears its registry entry. A closed handle or environment fails with nothing changed. |
| Registry.Handle.Storage | storage.js:37 | `storage(name)` composes a store over the handle's open environment, and fails once the handle is closed. On success the sub-database is added when new and nothing else in the environment changes. On failure the environment is unchanged. |

## Findings

| source | as written | input that shows it | evidently intended | confidence | as-written member | corrected member |
|---|---|---|---|---|---|---|
| storage.js:104-122 | `get` and `del` call `txnHandler.commit()` only after the read and decode succeed. A throw skips it and the handler's counter never returns to 0. | `get(k)` for a key `k` with no record (decoding `null` throws), then any number of `put` calls: none of them is ever committed to the engine. | Release the handler whether or not the operation succeeds, as the `Storage` and `OldStorage` stores here do. | high; not executed | StoreCalls.NothingCommittedAfterFailure | StoreCalls.EveryOperationCommits |
| storage.old.js:87-96 | `del` of a key with no record throws at `txn.del`, before `txnHandler.commit()`. This rests on the engine's `del` throwing on a missing key, as LMDB reports `MDB_NOTFOUND`. | `del(k)` for a key `k` with no record, then any `put`: nothing more is committed. | Release the handler on failure. | medium; not executed | OldStorage.MissingKeyDelHoldsHandler | StoreCalls.EveryOperationCommits |

## Left out

- The engine's memory mapping, the map-size limit, key-size limits, MVCC snapshots and isolation between transactions: the engine is an ordered map with a transaction log and a commit log.
- JSON text and UTF-8 byte counting are a codec passed in as a value. The round trip is a precondition (`Json.Lawful`) of the lemmas that need it.
- DataBuffer.RoundTrip, RoundTripWithAttachment, RoundTripWithoutAttachment, ToValueRoundTrip, Storage.PutThenGet, PutThenDel, OldStorage.OldPutThenGet and OldPutThenDel require a plain value. `JSON.stringify` writes NaN and the infinities as `null` and -0 as `0`, so those do not read back as themselves; what they read back as is not modelled. A member list with a repeated key is no JavaScript object, and `JSON.parse` would keep only the last. Nor is one that puts an array-index key after another key, or two of them out of numeric order: JavaScript lists `{"b": 0, "1": 0}` as `1` then `b`.
- Headers that are not a non-negative whole number as a double (fractions, negatives, infinities, NaN) are reported as a bad header. The source would go on with floating-point offsets. Every whole number is accepted, including those of 2^53 and above, which no record written by `fromValue` carries.
- Buffers larger than Node's `Buffer` maximum are not modelled; `DataBuffer.Encodable` only asks that the JSON length is exact as a double.
- The asynchronous `pipe` resolution and the `next` callback of `keys` are not modelled. Each operation runs to completion at once. `keys` returns the yielded keys and the count together. Interleaving of operations on one handler is modelled as sequences of begin/commit calls (`TxnHandler.Run`).
- `mkdirp` and `path.resolve` are filesystem I/O. `resolve` is a function parameter of the registry, and directory creation is left out.
- The `define` service registrations (storage.js:84-85) are not modelled.
- environment-manager.js, interface-manager.js, environment.js and trial.js are not part of this model.
- The no-attachment test at storage.test.js:28-35 expects `{ value, attachment }`. The code returns the bare value, and the model follows the code.
- storage.old.js:15 uses `path` without requiring it. Lines 36 and 46 pass and call the module's `environment` function where the environment is meant. The model uses the environment as intended. The earlier revision's registry is not modelled separately; `Registry` models the current one.
- Registry.Handle.Close reads the resolved path once, at `environment(config)` time. The source reads `config.path` again when closing, so a caller that changes `config.path` in between would clear a different entry.
- Storage.Store.Put, Get, Del, Count and Keys state the corrected behaviour: every operation commits its own transaction, also on failure. The same holds for OldStorage.OldStore.Get and OldStorage.OldStore.Del. The code as written is in `StoreCalls` (see Findings).
- OldStorage.OldStore.Get: commits its transaction also when the stored text does not parse. storage.old.js:81-84 skips `txnHandler.commit()` when `JSON.parse` throws; that path is `StoreCalls.CallsAsWritten(false)`.
- OldStorage.OldStore.Del: commits its transaction also when the text does not parse or the record is missing. storage.old.js:89-95 skips `txnHandler.commit()` when `JSON.parse` or `txn.del` throws; that path is `StoreCalls.CallsAsWritten(false)`.
- Whether the engine's binding can store an empty string key is not modelled. The model's engine accepts an empty key, and the walk then stops at it, as the code's `if (!key)` does.
- Store operations on an environment that a handle has since closed are not modelled. The store methods need the environment to be valid, not open.
- `dbi.close()` in a store's `close` is not modelled as an engine event. The sub-database's data stays in the environment.
