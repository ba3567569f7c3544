/** The imperative apply loop over a transaction manager. */
module RaftAppliers {
  import RaftTypes
  import opened Wal
  import opened Recovery
  import opened Transactions
  import opened RaftApply
  import opened TransactionManagers

  /** No transaction is open and every prefix of the log is faithful to the entries. */
  ghost predicate Quiet(entries: seq<Entry>, db: Db, applied: nat) {
    && DbInv(db) && db.phase.Running? && db.live == map[] && db.locks == map[]
    && FaithfulThroughout(entries, db.log) && Watermark(db.log) == applied
  }

  /** Inside the transaction of entry `index`, with `done` operations applied. */
  ghost predicate Midway(entries: seq<Entry>, db: Db, t: Txn, index: nat, done: nat) {
    && 1 <= index <= |entries| && done <= |entries[index - 1].operations|
    && DbInv(db) && db.phase.Running? && db.live.Keys == {t} && db.live[t].active && db.locks.Values <= {t}
    && FaithfulThroughout(entries, db.log) && Watermark(db.log) == index - 1
    && db.store == ApplyOps(CommittedStore(db.log), entries[index - 1].operations[..done])
  }

  lemma BeginMidway(entries: seq<Entry>, db: Db, index: nat)
    requires 1 <= index <= |entries| && Quiet(entries, db, index - 1)
    ensures Midway(entries, BeginTxn(db), Greatest(db.log) + 1, index, 0)
  {
    hide DbInv, FaithfulThroughout, CommittedStore, Watermark;
    BeginKeeps(db);
    LogOf(BeginTxn(db));
    QuietAppend(entries, db.log, Begin(Greatest(db.log) + 1));
    ClosedStore(db);
    assert entries[index - 1].operations[..0] == [];
  }

  lemma WriteMidway(entries: seq<Entry>, db: Db, t: Txn, index: nat, done: nat, effects: Effects)
    requires Midway(entries, db, t, index, done) && done < |entries[index - 1].operations|
    ensures var op := entries[index - 1].operations[done];
            && (op.key in db.locks ==> db.locks[op.key] == t)
            && Midway(entries, Write(db, t, op.key, AfterOf(op), effects), t, index, done + 1)
  {
    hide DbInv, FaithfulThroughout, CommittedStore, Watermark, Write, Set, ApplyOps, AfterOf;
    var ops := entries[index - 1].operations;
    var op := ops[done];
    assert op.key in db.locks ==> db.locks[op.key] in db.locks.Values;
    WriteEffect(entries, db, t, op.key, AfterOf(op), effects, 0);
    LockValues(db.locks, op.key, t);
    OneMoreOp(CommittedStore(db.log), ops, done);
  }

  lemma CommitQuiet(entries: seq<Entry>, db: Db, t: Txn, index: nat)
    requires 1 <= index <= |entries| && Midway(entries, db, t, index, |entries[index - 1].operations|)
    ensures Quiet(entries, CommitTxn(db, t, index), index)
    ensures CommitTxn(db, t, index).store == StateAt(entries, index)
  {
    hide DbInv, FaithfulThroughout, CommittedStore, ApplyOps, Watermark;
    var ops := entries[index - 1].operations;
    assert ops[..|ops|] == ops;
    CommitEffect(entries, db, t, index);
  }

  class RaftApplier {
    const manager: TransactionManager
    const entries: seq<Entry>
    const maxBatch: nat
    var commit: nat
    var applied: nat

    constructor (manager: TransactionManager, entries: seq<Entry>, maxBatch: nat, watermark: nat)
      requires watermark <= |entries|
      ensures this.manager == manager && this.entries == entries && this.maxBatch == maxBatch
      ensures commit == watermark && applied == watermark
    {
      this.manager, this.entries, this.maxBatch := manager, entries, maxBatch;
      commit, applied := watermark, watermark;
    }

    ghost predicate Valid()
      reads this, manager
    {
      manager.Valid() && applied <= commit <= |entries| && Quiet(entries, manager.View(), applied)
    }

    /** Applies the next committed entries in order, one transaction each, syncs the log once for all of them, and
        publishes the new watermark last. */
    method ApplyPendingBatch(fx: nat -> Effects) returns (count: nat)
      requires Valid()
      modifies this, manager
      ensures Valid() && commit == old(commit)
      ensures count == RaftTypes.Min(old(commit) - old(applied), RaftTypes.Max(maxBatch, 1))
      ensures applied == old(applied) + count
      ensures manager.store == StateAt(entries, applied)
      ensures count > 0 ==> manager.synced == |manager.log|
    {
      hide DbInv, FaithfulThroughout;
      assert manager.store == StateAt(entries, applied) by {
        ClosedStore(manager.View());
        FaithfulNow(entries, manager.log);
      }
      if commit <= applied { return 0; }
      var first := applied + 1;
      var last := RaftTypes.Min(commit, first + RaftTypes.Max(maxBatch, 1) - 1);
      var index := first;
      while index <= last
        invariant first <= index <= last + 1 && applied == old(applied) && commit == old(commit)
        invariant manager.Valid() && Quiet(entries, manager.View(), index - 1)
        invariant manager.store == StateAt(entries, index - 1)
        decreases last + 1 - index
      {
        ApplyEntry(index, fx);
        index := index + 1;
      }
      manager.SyncLog();
      applied := last;
      return last - first + 1;
    }

    method ApplyEntry(index: nat, fx: nat -> Effects)
      requires 1 <= index <= |entries| && manager.Valid() && Quiet(entries, manager.View(), index - 1)
      modifies manager
      ensures manager.Valid() && Quiet(entries, manager.View(), index) && manager.store == StateAt(entries, index)
    {
      hide DbInv, FaithfulThroughout, Write, CommitTxn, BeginTxn;
      BeginMidway(entries, manager.View(), index);
      var t := manager.Begin();
      var ops := entries[index - 1].operations;
      for done := 0 to |ops|
        invariant manager.Valid() && Midway(entries, manager.View(), t, index, done)
      {
        var op := ops[done];
        var effects := fx(|manager.log| + 1);
        WriteMidway(entries, manager.View(), t, index, done, effects);
        var status := manager.Mutate(t, op.key, AfterOf(op), effects);
        assert status == Written || status == Absent;
      }
      CommitQuiet(entries, manager.View(), t, index);
      var ok := manager.Commit(t, index, false);
      assert ok;
    }
  }
}
