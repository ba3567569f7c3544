/** The apply loop: committed Raft entries become transactions, exactly once across crashes. */
module RaftApply {
  import opened Sequences
  import opened Options
  import RaftTypes
  import opened Wal
  import opened WalInvariant
  import opened Recovery
  import opened Transactions

  type Entry = RaftTypes.Entry
  type Mutation = RaftTypes.Mutation

  // ---------------------------------------------------------------- the replicated state machine

  function AfterOf(op: Mutation): Option<Bytes> {
    match op
    case Put(_, value) => Some(value)
    case Delete(_) => None
  }

  function ApplyOps(store: Store, ops: seq<Mutation>): Store {
    if ops == [] then store else Set(ApplyOps(store, Front(ops)), Last(ops).key, AfterOf(Last(ops)))
  }

  /** The last operation on a key decides: a put leaves its value, a delete leaves nothing, and a key no operation names
      stays as it was. */
  lemma {:induction false} LastOperationWins(store: Store, ops: seq<Mutation>, k: Bytes, i: nat)
    requires forall j :: i <= j < |ops| ==> ops[j].key != k
    requires i <= |ops|
    ensures i == 0 ==> Get(ApplyOps(store, ops), k) == Get(store, k)
    ensures i > 0 && ops[i - 1].key == k ==>
              if ops[i - 1].Put? then k in ApplyOps(store, ops) && ApplyOps(store, ops)[k] == ops[i - 1].value
              else k !in ApplyOps(store, ops)
  {
    if i < |ops| { LastOperationWins(store, Front(ops), k, i); }
  }

  /** The fold of entries 1..n. */
  function StateAt(entries: seq<Entry>, n: nat): Store
    requires n <= |entries|
  {
    if n == 0 then map[] else ApplyOps(StateAt(entries, n - 1), entries[n - 1].operations)
  }

  // ---------------------------------------------------------------- the loop

  /** Between two entries of a batch, or inside the transaction of one entry with `done` operations applied. */
  datatype Work = Idle | Between(next: nat, last: nat) | Inside(txn: Txn, index: nat, done: nat, last: nat)

  /** `synced` is the length of the log prefix known to be on disk. */
  datatype Applier = Applier(db: Db, commit: nat, applied: nat, synced: nat, work: Work)

  datatype Act =
    | Learn(commit: nat)
    | StartBatch
    | StartEntry
    | ApplyOne(effects: Effects)
    | CommitEntry
    | FinishBatch
    | Crash(kept: nat)
    | Recover(effects: Effects)
    | Reopen

  const FRESH := Applier(EMPTY_DB, 0, 0, 0, Idle)

  /** Operations are applied without key locks; a delete of an absent key is not a failure. */
  ghost function NextApplier(entries: seq<Entry>, batch: nat, s: Applier, a: Act): Applier {
    if a.Crash? then
      if s.synced <= a.kept <= |s.db.log| then s.(db := Crashed(s.db, a.kept), work := Idle) else s
    else if s.db.phase.Recovering? then
      if a.Recover? then s.(db := RecoverOne(s.db, a.effects))
      else if a.Reopen? && s.db.phase.heap == map[] then
        var w := Watermark(s.db.log);
        Applier(s.db.(phase := Running), w, w, |s.db.log|, Idle)
      else s
    else
      match a
      case Learn(c) => if s.commit <= c <= |entries| then s.(commit := c) else s
      case StartBatch =>
        if s.work.Idle? && s.applied < s.commit
        then s.(work := Between(s.applied + 1, RaftTypes.Min(s.commit, s.applied + RaftTypes.Max(batch, 1)))) else s
      case StartEntry =>
        if s.work.Between? && s.work.next <= s.work.last
        then s.(db := BeginTxn(s.db), work := Inside(Greatest(s.db.log) + 1, s.work.next, 0, s.work.last)) else s
      case ApplyOne(effects) =>
        if s.work.Inside? && 1 <= s.work.index <= |entries| && s.work.done < |entries[s.work.index - 1].operations|
          && s.work.txn in s.db.live then
          var op := entries[s.work.index - 1].operations[s.work.done];
          s.(db := Write(s.db, s.work.txn, op.key, AfterOf(op), effects), work := s.work.(done := s.work.done + 1))
        else s
      case CommitEntry =>
        if s.work.Inside? && 1 <= s.work.index <= |entries| && s.work.done == |entries[s.work.index - 1].operations|
          && s.work.txn in s.db.live
        then s.(db := CommitTxn(s.db, s.work.txn, s.work.index), work := Between(s.work.index + 1, s.work.last)) else s
      case FinishBatch =>
        if s.work.Between? && s.work.next > s.work.last
          then s.(applied := s.work.last, synced := |s.db.log|, work := Idle) else s
      case _ => s
  }

  ghost function RunApplier(entries: seq<Entry>, batch: nat, acts: seq<Act>): Applier {
    if acts == [] then FRESH else NextApplier(entries, batch, RunApplier(entries, batch, Front(acts)), Last(acts))
  }

  // ---------------------------------------------------------------- the invariant

  /** The committed map of this log is the fold of the entries up to its watermark. */
  ghost predicate Faithful(entries: seq<Entry>, log: seq<Record>) {
    Watermark(log) <= |entries| && CommittedStore(log) == StateAt(entries, Watermark(log))
  }

  ghost predicate FaithfulThroughout(entries: seq<Entry>, log: seq<Record>) {
    forall n :: 0 <= n <= |log| ==> Faithful(entries, log[..n])
  }

  ghost predicate WorkOk(entries: seq<Entry>, s: Applier) {
    var w := Watermark(s.db.log);
    match s.work
    case Idle => s.db.live == map[] && s.applied == w
    case Between(next, last) => s.db.live == map[] && next == w + 1 && s.applied <= w <= last <= s.commit
    case Inside(t, index, done, last) =>
      && s.db.live.Keys == {t} && s.db.live[t].active && s.db.locks.Values <= {t}
      && index == w + 1 && s.applied < index <= last <= s.commit <= |entries| && done <= |entries[index - 1].operations|
      && s.db.store == ApplyOps(CommittedStore(s.db.log), entries[index - 1].operations[..done])
  }

  ghost predicate ApplyInv(entries: seq<Entry>, s: Applier) {
    && DbInv(s.db) && FaithfulThroughout(entries, s.db.log)
    && s.applied <= s.commit <= |entries| && s.synced <= |s.db.log|
    && s.applied <= Watermark(s.db.log[..s.synced])
    && (s.db.phase.Running? ==> WorkOk(entries, s))
    && (s.db.live == map[] ==> s.db.locks == map[])
  }

  lemma WatermarkAppend(log: seq<Record>, r: Record)
    ensures Watermark(log + [r]) == if r.Commit? && r.raftIndex > Watermark(log) then r.raftIndex else Watermark(log)
  {
    assert Front(log + [r]) == log;
  }

  lemma {:induction false} WatermarkGrows(log: seq<Record>, n: nat)
    requires n <= |log|
    ensures Watermark(log[..n]) <= Watermark(log)
    decreases |log|
  {
    if n < |log| {
      assert Front(log)[..n] == log[..n];
      WatermarkGrows(Front(log), n);
    } else {
      assert log[..n] == log;
    }
  }

  lemma ThroughoutAppend(entries: seq<Entry>, log: seq<Record>, r: Record)
    requires FaithfulThroughout(entries, log) && Faithful(entries, log + [r])
    ensures FaithfulThroughout(entries, log + [r])
  {
    forall n | 0 <= n <= |log + [r]| ensures Faithful(entries, (log + [r])[..n]) {
      if n <= |log| {
        assert (log + [r])[..n] == log[..n];
      } else {
        assert (log + [r])[..n] == log + [r];
      }
    }
  }

  lemma ThroughoutPrefix(entries: seq<Entry>, log: seq<Record>, n: nat)
    requires FaithfulThroughout(entries, log) && n <= |log|
    ensures FaithfulThroughout(entries, log[..n])
  {
    forall m | 0 <= m <= |log[..n]| ensures Faithful(entries, log[..n][..m]) {
      assert log[..n][..m] == log[..m];
    }
  }

  lemma FaithfulNow(entries: seq<Entry>, log: seq<Record>)
    requires FaithfulThroughout(entries, log)
    ensures Faithful(entries, log)
  {
    assert log[..|log|] == log;
  }

  /** Any record but a Commit leaves both the watermark and the committed map alone. */
  lemma QuietAppend(entries: seq<Entry>, log: seq<Record>, r: Record)
    requires WellFormed(log + [r]) && !r.Commit? && FaithfulThroughout(entries, log)
    ensures FaithfulThroughout(entries, log + [r])
    ensures Watermark(log + [r]) == Watermark(log) && CommittedStore(log + [r]) == CommittedStore(log)
  {
    hide CommittedStore;
    Appended(log, r);
    LogInv(log);
    CommittedSame(log, r);
    WatermarkAppend(log, r);
    FaithfulNow(entries, log);
    ThroughoutAppend(entries, log, r);
  }

  lemma SyncedKept(s: Applier, r: Record)
    requires s.synced <= |s.db.log|
    ensures (s.db.log + [r])[..s.synced] == s.db.log[..s.synced]
  {
  }

  lemma ClosedStore(db: Db)
    requires DbInv(db) && db.phase.Running? && db.live == map[]
    ensures db.store == CommittedStore(db.log)
  {
    assert Scan(db.log).open.Keys == {};
    RestoredWhenClosed(db.log);
  }

  // ---------------------------------------------------------------- each act keeps it

  lemma StartEntryKeeps(entries: seq<Entry>, batch: nat, s: Applier)
    requires ApplyInv(entries, s)
    ensures ApplyInv(entries, NextApplier(entries, batch, s, StartEntry))
  {
    hide DbInv, FaithfulThroughout, CommittedStore;
    var next := NextApplier(entries, batch, s, StartEntry);
    if next != s {
      BeginKeeps(s.db);
      assert DbInv(next.db);
      var r := Begin(Greatest(s.db.log) + 1);
      LogOf(next.db);
      QuietAppend(entries, s.db.log, r);
      SyncedKept(s, r);
      ClosedStore(s.db);
      assert entries[next.work.index - 1].operations[..0] == [];
    }
  }

  lemma LogOf(db: Db)
    requires DbInv(db)
    ensures WellFormed(db.log)
  {
  }

  lemma OneMoreOp(store: Store, ops: seq<Mutation>, done: nat)
    requires done < |ops|
    ensures ApplyOps(store, ops[..done + 1]) == Set(ApplyOps(store, ops[..done]), ops[done].key, AfterOf(ops[done]))
  {
    assert Front(ops[..done + 1]) == ops[..done] && Last(ops[..done + 1]) == ops[done];
  }

  /** What a mutation leaves in the log and in the store, whether or not it wrote a record. */
  lemma WriteEffect(entries: seq<Entry>, db: Db, t: Txn, k: Bytes, after: Option<Bytes>, effects: Effects, synced: nat)
    requires DbInv(db) && db.phase.Running? && t in db.live && db.live[t].active && (k in db.locks ==> db.locks[k] == t)
    requires FaithfulThroughout(entries, db.log) && synced <= |db.log|
    ensures var next := Write(db, t, k, after, effects);
            && DbInv(next) && next.phase.Running? && next.store == Set(db.store, k, after)
            && next.locks == db.locks[k := t]
            && next.live.Keys == db.live.Keys && next.live[t].active
            && FaithfulThroughout(entries, next.log) && CommittedStore(next.log) == CommittedStore(db.log)
            && Watermark(next.log) == Watermark(db.log)
            && synced <= |next.log| && next.log[..synced] == db.log[..synced]
  {
    hide DbInv, FaithfulThroughout, CommittedStore, Watermark;
    WriteKeeps(db, t, k, after, effects);
    var before := Get(db.store, k);
    if before.None? && after.None? {
      assert Set(db.store, k, None) == db.store;
    } else {
      var r := Action(t, db.live[t].last, k, before, after, effects);
      LogOf(Write(db, t, k, after, effects));
      QuietAppend(entries, db.log, r);
    }
  }

  lemma ApplyOneKeeps(entries: seq<Entry>, batch: nat, s: Applier, effects: Effects)
    requires ApplyInv(entries, s)
    ensures ApplyInv(entries, NextApplier(entries, batch, s, ApplyOne(effects)))
  {
    hide DbInv, FaithfulThroughout, CommittedStore, Write, Watermark, Set, ApplyOps, AfterOf;
    var next := NextApplier(entries, batch, s, ApplyOne(effects));
    if s.db.phase.Running? && s.work.Inside? && next != s {
      var ops, t := entries[s.work.index - 1].operations, s.work.txn;
      var op := ops[s.work.done];
      assert op.key in s.db.locks ==> s.db.locks[op.key] in s.db.locks.Values;
      WriteEffect(entries, s.db, t, op.key, AfterOf(op), effects, s.synced);
      LockValues(s.db.locks, op.key, t);
      OneMoreOp(CommittedStore(s.db.log), ops, s.work.done);
    }
  }

  lemma LockValues(locks: map<Bytes, Txn>, k: Bytes, t: Txn)
    requires locks.Values <= {t}
    ensures locks[k := t].Values <= {t}
  {
  }

  lemma ReleaseAll(locks: map<Bytes, Txn>, t: Txn)
    requires locks.Values <= {t}
    ensures Released(locks, t) == map[]
  {
    forall k | k in locks ensures locks[k] == t { assert locks[k] in locks.Values; }
  }

  /** Committing the transaction of a fully applied entry moves the watermark and the committed map by one entry. */
  lemma CommitEffect(entries: seq<Entry>, db: Db, t: Txn, index: nat)
    requires DbInv(db) && db.phase.Running? && db.live.Keys == {t} && db.live[t].active && db.locks.Values <= {t}
    requires FaithfulThroughout(entries, db.log) && 1 <= index <= |entries| && Watermark(db.log) == index - 1
    requires db.store == ApplyOps(CommittedStore(db.log), entries[index - 1].operations)
    ensures var next := CommitTxn(db, t, index);
            && DbInv(next) && next.phase.Running? && next.live == map[] && next.locks == map[]
            && FaithfulThroughout(entries, next.log) && Watermark(next.log) == index
            && next.store == StateAt(entries, index)
  {
    hide DbInv, FaithfulThroughout, CommittedStore, ApplyOps, Watermark;
    var next := CommitTxn(db, t, index);
    CommitKeeps(db, t, index);
    assert next.live == map[];
    ReleaseAll(db.locks, t);
    ClosedStore(next);
    FaithfulNow(entries, db.log);
    var r := Commit(t, db.live[t].last, index);
    WatermarkAppend(db.log, r);
    assert CommittedStore(next.log) == StateAt(entries, index);
    ThroughoutAppend(entries, db.log, r);
  }

  lemma CommitEntryKeeps(entries: seq<Entry>, batch: nat, s: Applier)
    requires ApplyInv(entries, s)
    ensures ApplyInv(entries, NextApplier(entries, batch, s, CommitEntry))
  {
    hide DbInv, FaithfulThroughout, CommittedStore, ApplyOps, Watermark;
    var next := NextApplier(entries, batch, s, CommitEntry);
    if s.db.phase.Running? && s.work.Inside? && next != s {
      var t, index := s.work.txn, s.work.index;
      assert entries[index - 1].operations[..s.work.done] == entries[index - 1].operations;
      CommitEffect(entries, s.db, t, index);
      SyncedKept(s, Commit(t, s.db.live[t].last, index));
    }
  }

  lemma RecoverOneKeeps(entries: seq<Entry>, s: Applier, effects: Effects)
    requires ApplyInv(entries, s) && s.db.phase.Recovering?
    ensures ApplyInv(entries, s.(db := RecoverOne(s.db, effects)))
  {
    hide DbInv, FaithfulThroughout, CommittedStore, Visit, Visits, Highest;
    var next := RecoverOne(s.db, effects);
    RecoverKeeps(s.db, effects);
    if next != s.db {
      SomeHighest(s.db.phase.heap);
      var t :| Highest(s.db.phase.heap, t) && Visits(PassOf(s.db), t)
        && next.log == Visit(PassOf(s.db), t, effects).log;
      var tail := VisitOne(PassOf(s.db), t, effects);
      LogOf(next);
      if tail == [] {
        assert next.log == s.db.log;
      } else {
        QuietAppend(entries, s.db.log, tail[0]);
        SyncedKept(s, tail[0]);
      }
    }
  }

  lemma VisitOne(s: Pass, t: Txn, effects: Effects) returns (tail: seq<Record>)
    requires Visits(s, t)
    ensures Visit(s, t, effects).log == s.log + tail && |tail| <= 1
    ensures tail != [] ==> tail == [tail[0]] && !tail[0].Commit?
  {
    var r := s.log[s.heap[t] - 1];
    if r.Begin? {
      tail := [End(t, s.unresolved[t])];
    } else if r.Action? {
      tail := [Compensation(t, s.unresolved[t], s.heap[t], r.prev, r.key, r.before, effects)];
    } else {
      tail := [];
      assert s.log + [] == s.log;
    }
  }

  lemma CrashApplierKeeps(entries: seq<Entry>, s: Applier, n: nat)
    requires ApplyInv(entries, s) && s.synced <= n <= |s.db.log|
    ensures ApplyInv(entries, s.(db := Crashed(s.db, n), work := Idle))
  {
    hide DbInv, FaithfulThroughout, CommittedStore, Scan;
    CrashKeeps(s.db, n);
    ThroughoutPrefix(entries, s.db.log, n);
    assert s.db.log[..n][..s.synced] == s.db.log[..s.synced];
  }

  lemma ReopenKeeps(entries: seq<Entry>, batch: nat, s: Applier)
    requires ApplyInv(entries, s)
    ensures ApplyInv(entries, NextApplier(entries, batch, s, Reopen))
  {
    hide DbInv, FaithfulThroughout, CommittedStore;
    var next := NextApplier(entries, batch, s, Reopen);
    if next != s {
      OpenKeeps(s.db);
      FaithfulNow(entries, s.db.log);
      assert s.db.log[..|s.db.log|] == s.db.log;
      assert s.db.live == map[] by { RecoveringBare(s.db); }
    }
  }

  lemma RecoveringBare(db: Db)
    requires DbInv(db) && db.phase.Recovering?
    ensures db.live == map[]
  {
  }

  lemma BatchKeeps(entries: seq<Entry>, batch: nat, s: Applier, a: Act)
    requires ApplyInv(entries, s) && (a.Learn? || a.StartBatch? || a.FinishBatch?)
    ensures ApplyInv(entries, NextApplier(entries, batch, s, a))
  {
    hide DbInv, FaithfulThroughout, CommittedStore;
    if a.FinishBatch? { assert s.db.log[..|s.db.log|] == s.db.log; }
  }

  lemma ActKeeps(entries: seq<Entry>, batch: nat, s: Applier, a: Act)
    requires ApplyInv(entries, s)
    ensures ApplyInv(entries, NextApplier(entries, batch, s, a))
  {
    hide DbInv, WorkOk, FaithfulThroughout, RecoverOne, Crashed, BeginTxn, Write, CommitTxn;
    match a
    case Crash(n) => if s.synced <= n <= |s.db.log| { CrashApplierKeeps(entries, s, n); }
    case Recover(effects) => if s.db.phase.Recovering? { RecoverOneKeeps(entries, s, effects); }
    case Reopen => ReopenKeeps(entries, batch, s);
    case StartEntry => StartEntryKeeps(entries, batch, s);
    case ApplyOne(effects) => ApplyOneKeeps(entries, batch, s, effects);
    case CommitEntry => CommitEntryKeeps(entries, batch, s);
    case _ => BatchKeeps(entries, batch, s, a);
  }

  lemma {:induction false} ApplierInv(entries: seq<Entry>, batch: nat, acts: seq<Act>)
    ensures ApplyInv(entries, RunApplier(entries, batch, acts))
  {
    if acts != [] {
      ApplierInv(entries, batch, Front(acts));
      ActKeeps(entries, batch, RunApplier(entries, batch, Front(acts)), Last(acts));
    }
  }

  // ---------------------------------------------------------------- what holds in every run

  /** Between batches the store is the fold of exactly the entries 1..applied, and applied never passes commit. */
  lemma AppliedState(entries: seq<Entry>, batch: nat, acts: seq<Act>)
    requires var s := RunApplier(entries, batch, acts); s.db.phase.Running? && s.work.Idle?
    ensures var s := RunApplier(entries, batch, acts);
            && s.applied <= s.commit <= |entries|
            && s.db.store == StateAt(entries, s.applied) && s.applied == Watermark(s.db.log)
  {
    hide RunApplier, DbInv, FaithfulThroughout, CommittedStore;
    ApplierInv(entries, batch, acts);
    var s := RunApplier(entries, batch, acts);
    ClosedStore(s.db);
    FaithfulNow(entries, s.db.log);
  }

  /** Exactly once: a crash at any moment of any run, keeping any log prefix, recovers to the fold of entries
      1..w where w is the recovered watermark. */
  lemma CrashKeepsWholeEntries(entries: seq<Entry>, batch: nat, acts: seq<Act>, n: nat, fx: nat -> Effects)
    requires n <= |RunApplier(entries, batch, acts).db.log|
    ensures var log := RunApplier(entries, batch, acts).db.log[..n];
            && WellFormed(log) && Watermark(log) <= |entries|
            && Recovered(log, fx).store == StateAt(entries, Watermark(log))
            && Watermark(Recovered(log, fx).log) == Watermark(log)
  {
    hide RunApplier, DbInv, CommittedStore, Recovered, WellFormed, Scan;
    ApplierInv(entries, batch, acts);
    var s := RunApplier(entries, batch, acts);
    LogOf(s.db);
    PrefixWellFormed(s.db.log, n);
    var log := s.db.log[..n];
    assert Faithful(entries, log);
    var tail := CrashAtomicity(log, fx);
    UndoKeepsWatermark(log, tail);
  }

  lemma {:induction false} UndoKeepsWatermark(log: seq<Record>, tail: seq<Record>)
    requires OnlyUndo(tail)
    ensures Watermark(log + tail) == Watermark(log)
  {
    if tail == [] {
      assert log + tail == log;
    } else {
      assert OnlyUndo(Front(tail));
      assert Last(tail) == tail[|tail| - 1];
      UndoKeepsWatermark(log, Front(tail));
      assert log + tail == (log + Front(tail)) + [Last(tail)];
      WatermarkAppend(log + Front(tail), Last(tail));
    }
  }

  /** Nothing acknowledged is lost: an index published as applied is covered by the synced log, so every crash
      recovers a watermark at least as large. */
  lemma AcknowledgedSurvives(entries: seq<Entry>, batch: nat, acts: seq<Act>, n: nat)
    requires var s := RunApplier(entries, batch, acts); s.synced <= n <= |s.db.log|
    ensures var s := RunApplier(entries, batch, acts); s.applied <= Watermark(s.db.log[..n])
  {
    hide RunApplier, DbInv, FaithfulThroughout, WorkOk;
    ApplierInv(entries, batch, acts);
    var s := RunApplier(entries, batch, acts);
    assert s.db.log[..n][..s.synced] == s.db.log[..s.synced];
    WatermarkGrows(s.db.log[..n], s.synced);
  }

  /** The entry being applied is always the one after the last committed one: none is skipped or repeated. */
  lemma NextEntryIsNext(entries: seq<Entry>, batch: nat, acts: seq<Act>)
    requires var s := RunApplier(entries, batch, acts); s.db.phase.Running? && s.work.Inside?
    ensures var s := RunApplier(entries, batch, acts);
            && s.work.index == Watermark(s.db.log) + 1 <= |entries|
            && s.work.done <= |entries[s.work.index - 1].operations|
            && s.db.store
                 == ApplyOps(StateAt(entries, s.work.index - 1), entries[s.work.index - 1].operations[..s.work.done])
  {
    hide RunApplier, DbInv, FaithfulThroughout, CommittedStore;
    ApplierInv(entries, batch, acts);
    FaithfulNow(entries, RunApplier(entries, batch, acts).db.log);
  }
}
