/**
 * The lazy transaction manager: a single slot that `get()` fills with a
 * transaction of the mode fixed at construction when it is empty, and that
 * `commit()` commits and empties.
 */
module TransactionManager {
  import opened Wrappers
  import Lmdb

  /**
   * The slot, with the engine's transaction log: `modes` holds the read-only
   * flag of every transaction begun (indexed by id), `committed` the ids
   * committed, in order.
   */
  datatype State = State(txn: Option<nat>, modes: seq<bool>, committed: seq<nat>)

  /** A held transaction is one the engine has begun. */
  ghost predicate Consistent(s: State) {
    s.txn.Some? ==> s.txn.value < |s.modes|
  }

  /** `get()`: the new state and the transaction returned. */
  function AfterGet(s: State, readOnly: bool): (r: (State, nat))
    ensures r.0.txn == Some(r.1) && r.0.committed == s.committed
    ensures s.txn.Some? ==> r == (s, s.txn.value)
    ensures s.txn.None? ==> r.1 == |s.modes| && r.0.modes == s.modes + [readOnly]
  {
    match s.txn
    case Some(t) => (s, t)
    case None => (s.(txn := Some(|s.modes|), modes := s.modes + [readOnly]), |s.modes|)
  }

  /** `commit()`. */
  function AfterCommit(s: State): (r: State)
    ensures r.txn.None? && r.modes == s.modes
    ensures r.committed == s.committed + (if s.txn.Some? then [s.txn.value] else [])
  {
    match s.txn
    case Some(t) => s.(txn := None, committed := s.committed + [t])
    case None => s
  }

  /**
   * `get()` opens a transaction, in the manager's mode, only when none is
   * held, and otherwise returns the held one without touching the engine;
   * afterwards the returned transaction is held.
   */
  lemma GetSpec(s: State, readOnly: bool)
    requires Consistent(s)
    ensures var (s', t) := AfterGet(s, readOnly);
      && Consistent(s')
      && s'.txn == Some(t)
      && s'.committed == s.committed
      && (s.txn.Some? ==> t == s.txn.value && s'.modes == s.modes)
      && (s.txn.None? ==> t == |s.modes| && s'.modes == s.modes + [readOnly] && s'.modes[t] == readOnly)
  {
  }

  /** Repeated `get()` calls return the same transaction and change nothing more. */
  lemma GetIdempotent(s: State, readOnly: bool)
    ensures var (s', t) := AfterGet(s, readOnly);
      AfterGet(s', readOnly) == (s', t)
  {
  }

  /**
   * `commit()` commits the held transaction exactly once and empties the
   * slot; with the slot empty it does nothing, so a second commit is a no-op.
   */
  lemma CommitSpec(s: State)
    requires Consistent(s)
    ensures var s' := AfterCommit(s);
      && Consistent(s')
      && s'.txn.None?
      && s'.modes == s.modes
      && s'.committed == s.committed + (if s.txn.Some? then [s.txn.value] else [])
      && AfterCommit(s') == s'
  {
  }

  /** After `commit()`, the next `get()` opens a new transaction rather than reusing the committed one. */
  lemma FreshAfterCommit(s: State, readOnly: bool)
    requires Consistent(s) && s.txn.Some?
    ensures var t := AfterGet(AfterCommit(s), readOnly).1;
      t != s.txn.value && t == |s.modes|
  {
  }

  // ---------------------------------------------------------------------------
  // Sequences of calls

  datatype Call = GetCall | CommitCall

  function Run(s: State, readOnly: bool, calls: seq<Call>): State
    decreases |calls|
  {
    if calls == [] then s
    else
      var p := Run(s, readOnly, calls[..|calls| - 1]);
      match calls[|calls| - 1]
      case GetCall => AfterGet(p, readOnly).0
      case CommitCall => AfterCommit(p)
  }

  function Open(s: State): nat {
    if s.txn.Some? then 1 else 0
  }

  /**
   * Whatever the calls, the manager only appends to the engine's log of
   * transactions begun, and every transaction it begins has its mode.
   */
  lemma {:induction false} ModesOfRun(s: State, readOnly: bool, calls: seq<Call>)
    ensures var r := Run(s, readOnly, calls);
      && |s.modes| <= |r.modes|
      && r.modes[..|s.modes|] == s.modes
      && (forall i :: |s.modes| <= i < |r.modes| ==> r.modes[i] == readOnly)
    decreases |calls|
  {
    if calls != [] {
      ModesOfRun(s, readOnly, calls[..|calls| - 1]);
    }
  }

  /**
   * Whatever the calls, starting from an empty slot: every transaction the
   * manager begins is committed exactly once, in the order begun, except the
   * one still held, which is the last begun.
   */
  lemma {:induction false} EveryTransactionCommittedOnce(s: State, readOnly: bool, calls: seq<Call>)
    requires s.txn.None?
    ensures var r := Run(s, readOnly, calls);
      && |s.modes| + Open(r) <= |r.modes|
      && (r.txn.Some? ==> r.txn.value == |r.modes| - 1)
      && r.committed == s.committed + Lmdb.Ids(|s.modes|, |r.modes| - Open(r))
    decreases |calls|
  {
    if calls != [] {
      var p := Run(s, readOnly, calls[..|calls| - 1]);
      EveryTransactionCommittedOnce(s, readOnly, calls[..|calls| - 1]);
      if calls[|calls| - 1] == CommitCall && p.txn.Some? {
        assert Lmdb.Ids(|s.modes|, |p.modes|) == Lmdb.Ids(|s.modes|, |p.modes| - 1) + [|p.modes| - 1];
      }
    }
  }

  // ---------------------------------------------------------------------------
  // The manager object

  /** `new TransactionManager({ env, readOnly })`. */
  class Manager {
    const env: Lmdb.Env
    const readOnly: bool
    var txn: Option<nat>

    ghost function Snapshot(): State
      reads this, env
    {
      State(txn, env.modes, env.committed)
    }

    constructor (env: Lmdb.Env, readOnly: bool)
      ensures this.env == env && this.readOnly == readOnly && txn.None?
    {
      this.env, this.readOnly := env, readOnly;
      txn := None;
    }

    method Get() returns (t: nat)
      modifies this, env`modes
      ensures (Snapshot(), t) == AfterGet(old(Snapshot()), readOnly)
    {
      if txn.None? {
        var id := env.BeginTxn(readOnly);
        txn := Some(id);
      }
      t := txn.value;
    }

    method Commit()
      modifies this, env`committed
      ensures Snapshot() == AfterCommit(old(Snapshot()))
    {
      if txn.Some? {
        env.CommitTxn(txn.value);
        txn := None;
      }
    }
  }
}
