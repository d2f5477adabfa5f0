/**
 * The reference-counted transaction handler each store composes over its
 * environment: `begin()` opens an engine transaction only when no operation
 * holds one and otherwise shares the open one; `commit()` commits to the
 * engine only when the last holder releases it.
 */
module TxnHandler {
  import opened Wrappers
  import Lmdb

  /**
   * The handler's two closure variables, with the engine's transaction log:
   * `began` is the number of engine transactions begun (the next id), and
   * `committed` the ids committed so far, in order.
   */
  datatype State = State(txn: Option<nat>, counter: int, began: nat, committed: seq<nat>)

  /** The handler holds a transaction exactly while its counter is positive. */
  ghost predicate Consistent(s: State) {
    s.txn.Some? <==> s.counter > 0
  }

  /** No operation holds the handler. */
  ghost predicate Idle(s: State) {
    s.txn.None? && s.counter == 0
  }

  /** `begin()`: the new state, and the transaction it returns (None for `null`). */
  function AfterBegin(s: State): (r: (State, Option<nat>))
    ensures r.0.counter == s.counter + 1 && r.1 == r.0.txn && r.0.committed == s.committed
    ensures s.counter == 0 ==> r.1 == Some(s.began) && r.0.began == s.began + 1
    ensures s.counter != 0 ==> r.1 == s.txn && r.0.began == s.began
  {
    var s0 := if s.counter == 0 then s.(txn := Some(s.began), began := s.began + 1) else s;
    var s' := s0.(counter := s0.counter + 1);
    (s', s'.txn)
  }

  /** `commit()`. */
  function AfterCommit(s: State): (r: State)
    requires Consistent(s)
    ensures r.counter == s.counter - 1 && r.began == s.began
    ensures r.committed == s.committed + (if s.counter == 1 then [s.txn.value] else [])
  {
    if s.counter - 1 == 0 then
      s.(counter := 0, txn := None, committed := s.committed + [s.txn.value])
    else s.(counter := s.counter - 1)
  }

  /**
   * `begin()` opens a fresh engine transaction exactly when the counter is 0
   * and otherwise returns the one already open; either way the counter goes
   * up by one and the handler stays consistent. Nothing is committed.
   */
  lemma BeginSpec(s: State)
    requires Consistent(s)
    ensures var (s', t) := AfterBegin(s);
      && Consistent(s')
      && s'.counter == s.counter + 1
      && t == s'.txn
      && (t.Some? <==> s.counter >= 0)
      && (s.counter == 0 ==> t == Some(s.began) && s'.began == s.began + 1)
      && (s.counter != 0 ==> s'.txn == s.txn && s'.began == s.began)
      && s'.committed == s.committed
  {
  }

  /**
   * `commit()` lowers the counter by one, and commits the open transaction
   * to the engine and clears it exactly when the counter reaches 0.
   */
  lemma CommitSpec(s: State)
    requires Consistent(s)
    ensures var s' := AfterCommit(s);
      && Consistent(s')
      && s'.counter == s.counter - 1
      && s'.began == s.began
      && (s.counter == 1 ==> s'.txn.None? && s'.committed == s.committed + [s.txn.value])
      && (s.counter != 1 ==> s'.txn == s.txn && s'.committed == s.committed)
  {
  }

  // ---------------------------------------------------------------------------
  // Sequences of calls

  datatype Call = BeginCall | CommitCall

  function Step(s: State, c: Call): (r: State)
    requires Consistent(s)
    ensures Consistent(r)
  {
    match c
    case BeginCall => AfterBegin(s).0
    case CommitCall => AfterCommit(s)
  }

  /** The state after making `calls`, in order, from `s`. */
  function Run(s: State, calls: seq<Call>): (r: State)
    requires Consistent(s)
    ensures Consistent(r)
    decreases |calls|
  {
    if calls == [] then s else Step(Run(s, calls[..|calls| - 1]), calls[|calls| - 1])
  }

  function Occurrences(calls: seq<Call>, c: Call): nat {
    if calls == [] then 0
    else Occurrences(calls[..|calls| - 1], c) + if calls[|calls| - 1] == c then 1 else 0
  }

  /** No prefix of `calls` has more commits than begins. */
  ghost predicate Balanced(calls: seq<Call>) {
    forall i :: 0 <= i <= |calls| ==>
      Occurrences(calls[..i], CommitCall) <= Occurrences(calls[..i], BeginCall)
  }

  /** The counter is the number of begins minus the number of commits. */
  lemma {:induction false} RunCounter(s: State, calls: seq<Call>)
    requires Consistent(s)
    ensures Run(s, calls).counter
      == s.counter + Occurrences(calls, BeginCall) - Occurrences(calls, CommitCall)
    decreases |calls|
  {
    if calls != [] {
      RunCounter(s, calls[..|calls| - 1]);
    }
  }

  /**
   * Under balanced calls from an idle handler the counter never goes below 0,
   * and a transaction is held exactly while the counter is positive.
   */
  lemma BalancedCounter(s: State, calls: seq<Call>)
    requires Idle(s) && Balanced(calls)
    ensures forall i :: 0 <= i <= |calls| ==>
      var r := Run(s, calls[..i]);
      r.counter >= 0 && (r.txn.Some? <==> r.counter > 0)
  {
    forall i | 0 <= i <= |calls|
      ensures Run(s, calls[..i]).counter >= 0
    {
      RunCounter(s, calls[..i]);
    }
  }

  /** 1 while a transaction is open, else 0. */
  function Open(s: State): nat {
    if s.txn.Some? then 1 else 0
  }

  /**
   * Whatever the calls, every engine transaction the handler begins is
   * committed exactly once, in the order begun, except the one it still
   * holds; the one it holds is the last begun.
   */
  lemma {:induction false} EveryTransactionCommittedOnce(s: State, calls: seq<Call>)
    requires Idle(s)
    ensures var r := Run(s, calls);
      && s.began + Open(r) <= r.began
      && (r.txn.Some? ==> r.txn.value == r.began - 1)
      && r.committed == s.committed + Lmdb.Ids(s.began, r.began - Open(r))
    decreases |calls|
  {
    if calls != [] {
      var p := Run(s, calls[..|calls| - 1]);
      EveryTransactionCommittedOnce(s, calls[..|calls| - 1]);
      if calls[|calls| - 1] == CommitCall && p.counter == 1 {
        assert Lmdb.Ids(s.began, p.began) == Lmdb.Ids(s.began, p.began - 1) + [p.began - 1];
      }
    }
  }

  function Repeat(c: Call, n: nat): (r: seq<Call>)
    ensures |r| == n && forall i :: 0 <= i < n ==> r[i] == c
  {
    if n == 0 then [] else Repeat(c, n - 1) + [c]
  }

  /** After `i` begins from an idle handler, the counter is `i` and the first transaction is held. */
  lemma {:induction false} BeginsShare(s: State, i: nat)
    requires Idle(s) && i >= 1
    ensures var r := Run(s, Repeat(BeginCall, i));
      r.counter == i && r.txn == Some(s.began) && r.began == s.began + 1 && r.committed == s.committed
  {
    if i > 1 {
      assert Repeat(BeginCall, i)[..i - 1] == Repeat(BeginCall, i - 1);
      BeginsShare(s, i - 1);
    } else {
      assert Repeat(BeginCall, 1)[..0] == [];
    }
  }

  /** Commits made while more than one holder remains leave the open transaction alone. */
  lemma {:induction false} CommitsRelease(s: State, held: nat, i: nat)
    requires Consistent(s) && s.counter == held && i < held
    ensures var r := Run(s, Repeat(CommitCall, i));
      r.counter == held - i && r.txn == s.txn && r.began == s.began && r.committed == s.committed
  {
    if i > 0 {
      var calls := Repeat(CommitCall, i);
      assert calls[..i - 1] == Repeat(CommitCall, i - 1);
      CommitsRelease(s, held, i - 1);
      assert Run(s, calls) == AfterCommit(Run(s, Repeat(CommitCall, i - 1)));
    }
  }

  lemma {:induction false} RunAppend(s: State, a: seq<Call>, b: seq<Call>)
    requires Consistent(s)
    ensures Run(s, a + b) == Run(Run(s, a), b)
    decreases |b|
  {
    if b == [] {
      assert a + b == a;
    } else {
      assert (a + b)[..|a + b| - 1] == a + b[..|b| - 1];
      RunAppend(s, a, b[..|b| - 1]);
    }
  }

  /**
   * `n` begins followed by `n` commits, from an idle handler, share one
   * engine transaction: every `begin()` returns it, and it is committed to the
   * engine exactly once, by the last `commit()`.
   */
  lemma BurstCommitsOnce(s: State, n: nat)
    requires Idle(s) && n >= 1
    ensures forall i :: 0 <= i < n ==> AfterBegin(Run(s, Repeat(BeginCall, i))).1 == Some(s.began)
    ensures var r := Run(s, Repeat(BeginCall, n) + Repeat(CommitCall, n));
      Idle(r) && r.began == s.began + 1 && r.committed == s.committed + [s.began]
  {
    forall i | 0 <= i < n ensures AfterBegin(Run(s, Repeat(BeginCall, i))).1 == Some(s.began) {
      if i > 0 {
        BeginsShare(s, i);
      }
    }
    var m := Run(s, Repeat(BeginCall, n));
    BeginsShare(s, n);
    RunAppend(s, Repeat(BeginCall, n), Repeat(CommitCall, n));
    CommitsRelease(m, n, n - 1);
    assert Repeat(CommitCall, n) == Repeat(CommitCall, n - 1) + [CommitCall];
  }

  // ---------------------------------------------------------------------------
  // The handler object

  /** `composeTransactionHandler(env)`: the closure over `txn` and `counter`. */
  class Handler {
    const env: Lmdb.Env
    var txn: Option<nat>
    var counter: int

    ghost predicate Valid()
      reads this
    {
      txn.Some? <==> counter > 0
    }

    /** The handler's state together with its engine's transaction log. */
    ghost function Snapshot(): (s: State)
      reads this, env
      requires Valid()
      ensures Consistent(s)
    {
      State(txn, counter, |env.modes|, env.committed)
    }

    constructor (env: Lmdb.Env)
      ensures this.env == env && Valid()
      ensures txn.None? && counter == 0
    {
      this.env := env;
      txn, counter := None, 0;
    }

    /** `begin()`; a transaction it opens is read-write, `beginTxn`'s default. */
    method Begin() returns (t: Option<nat>)
      requires Valid()
      modifies this, env`modes
      ensures Valid()
      ensures (Snapshot(), t) == AfterBegin(old(Snapshot()))
      ensures env.modes == old(env.modes) + if old(counter) == 0 then [false] else []
    {
      if counter == 0 {
        var id := env.BeginTxn(false);
        txn := Some(id);
      }
      counter := counter + 1;
      t := txn;
    }

    /** `commit()`. */
    method Commit()
      requires Valid()
      modifies this, env`committed
      ensures Valid()
      ensures Snapshot() == AfterCommit(old(Snapshot()))
    {
      counter := counter - 1;
      if counter == 0 {
        env.CommitTxn(txn.value);
        txn := None;
      }
    }
  }
}
