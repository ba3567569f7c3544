/** The imperative transaction manager and recovery loops, refining the log and recovery functions. */
module TransactionManagers {
  import opened Sequences
  import opened Options
  import opened Wal
  import opened WalInvariant
  import opened Recovery
  import opened Transactions

  datatype WriteStatus = Written | Absent | Unknown | Blocked

  class TransactionManager {
    var log: seq<Record>
    var store: Store
    var live: map<Txn, Live>
    var locks: map<Bytes, Txn>
    var nextTxn: Txn
    /** The length of the log prefix on stable storage. */
    var synced: nat

    ghost function View(): Db
      reads this
    {
      Db(log, store, live, locks, Running)
    }

    ghost predicate Valid()
      reads this
    {
      DbInv(View()) && nextTxn == Greatest(log) + 1 && synced <= |log|
    }

    /** Opens a log that recovery has finished with and synced; transaction numbers continue after the greatest one
        used. */
    constructor (log: seq<Record>, store: Store)
      requires WellFormed(log) && Scan(log).open == map[] && store == Scan(log).store
      ensures Valid() && View() == Db(log, store, map[], map[], Running) && synced == |log|
    {
      this.log, this.store, this.live, this.locks, this.synced := log, store, map[], map[], |log|;
      var greatest: Txn := 0;
      var i := 0;
      while i < |log|
        invariant 0 <= i <= |log| && greatest == Greatest(log[..i])
      {
        assert Front(log[..i + 1]) == log[..i] && Last(log[..i + 1]) == log[i];
        if log[i].txn > greatest { greatest := log[i].txn; }
        i := i + 1;
      }
      assert log[..|log|] == log;
      nextTxn := greatest + 1;
    }

    method Begin() returns (t: Txn)
      requires Valid()
      modifies this
      ensures Valid() && View() == BeginTxn(old(View())) && t == Greatest(old(log)) + 1 && synced == old(synced)
    {
      hide DbInv;
      BeginKeeps(View());
      t := nextTxn;
      live := live[t := Live(true, |log| + 1, 0)];
      log := log + [Record.Begin(t)];
      nextTxn := nextTxn + 1;
      assert Front(log) == old(log);
    }

    /** A put or a removal. The undo descriptor records what the key held, read under the exclusive lock. */
    method Mutate(t: Txn, k: Bytes, after: Option<Bytes>, effects: Effects) returns (status: WriteStatus)
      requires Valid()
      modifies this
      ensures Valid() && synced == old(synced)
      ensures status == if t !in old(live) || !old(live)[t].active then Unknown
                        else if k in old(locks) && old(locks)[k] != t then Blocked
                        else if Get(old(store), k).None? && after.None? then Absent else Written
      ensures View() == if status == Unknown || status == Blocked then old(View())
              else Write(old(View()), t, k, after, effects)
      ensures status == Written || status == Absent ==> k in locks && locks[k] == t && Get(store, k) == after
    {
      hide DbInv, Set;
      if t !in live || !live[t].active { return Unknown; }
      if k in locks && locks[k] != t { return Blocked; }
      WriteKeeps(View(), t, k, after, effects);
      SetGets(store, k, after);
      locks := locks[k := t];
      var before := Get(store, k);
      if before.None? && after.None? { return Absent; }
      LiveKnown(old(View()), t);
      var r := Action(t, live[t].last, k, before, after, effects);
      store := Set(store, k, after);
      live := live[t := Live(true, |log| + 1, 0)];
      log := log + [r];
      assert Front(log) == old(log);
      return Written;
    }

    /** Every record so far reaches stable storage. */
    method SyncLog()
      requires Valid()
      modifies this
      ensures Valid() && View() == old(View()) && synced == |log|
    {
      synced := |log|;
    }

    /** A commit with `sync` succeeds only once its record is on stable storage; without, the caller syncs later. */
    method Commit(t: Txn, raftIndex: nat, sync: bool) returns (ok: bool)
      requires Valid()
      modifies this
      ensures Valid() && (ok <==> t in old(live) && old(live)[t].active)
      ensures synced == if ok && sync then |log| else old(synced)
      ensures View() == if ok then CommitTxn(old(View()), t, raftIndex) else old(View())
    {
      hide DbInv;
      if t !in live || !live[t].active { return false; }
      CommitKeeps(View(), t, raftIndex);
      LiveKnown(View(), t);
      log := log + [Record.Commit(t, live[t].last, raftIndex)];
      assert Front(log) == old(log);
      if sync { synced := |log|; }
      locks := map k | k in locks && locks[k] != t :: locks[k];
      live := live - {t};
      return true;
    }

    /** Writes the abort decision, then walks the transaction's records backward, one compensation per action. */
    method Abort(t: Txn, fx: nat -> Effects) returns (ok: bool)
      requires Valid()
      modifies this
      ensures Valid() && (ok <==> t in old(live) && old(live)[t].active)
      ensures !ok ==> View() == old(View())
      ensures synced == if ok then |log| else old(synced)
      ensures ok ==> Aborting(AbortTxn(old(View()), t), t) && View() == RolledBack(AbortTxn(old(View()), t), t, fx)
    {
      hide DbInv, RolledBack;
      if t !in live || !live[t].active { return false; }
      ghost var start := AbortTxn(View(), t);
      AbortKeeps(View(), t);
      LiveKnown(View(), t);
      var undo := live[t].last;
      log := log + [Record.Abort(t, live[t].last)];
      assert Front(log) == old(log);
      live := live[t := Live(false, |log|, undo)];
      assert View() == start;

      ghost var result := RolledBack(start, t, fx);
      while t in live
        invariant DbInv(View()) && nextTxn == Greatest(log) + 1 && synced <= |log|
        invariant t in live ==> Aborting(View(), t) && RolledBack(View(), t, fx) == result
        invariant t !in live ==> View() == result
        decreases if t in live then live[t].undo + 1 else 0
      {
        UnfoldRollBack(View(), t, fx);
        Undo(t, fx(|log| + 1));
      }
      SyncLog();
      return true;
    }

    /** One round of the loop. */
    method Undo(t: Txn, effects: Effects)
      requires Valid() && Aborting(View(), t)
      modifies this
      ensures Valid() && CanRollBack(old(View()), t) && View() == RollBackOne(old(View()), t, effects)
    {
      hide DbInv;
      CanGoOn(View(), t, effects);
      LiveKnown(View(), t);
      var lsn := live[t].undo;
      var record := log[lsn - 1];
      if record.Begin? {
        log := log + [End(t, live[t].last)];
        assert Front(log) == old(log);
        locks := map k | k in locks && locks[k] != t :: locks[k];
        live := live - {t};
      } else if record.Compensation? {
        live := live[t := live[t].(undo := record.undoNext)];
      } else if record.Action? {
        store := Set(store, record.key, record.before);
        log := log + [Compensation(t, live[t].last, lsn, record.prev, record.key, record.before, effects)];
        assert Front(log) == old(log);
        live := live[t := Live(false, |log|, record.prev)];
      }
    }
  }

  lemma LiveKnown(db: Db, t: Txn)
    requires DbInv(db) && db.phase.Running? && t in db.live
    ensures t <= Greatest(db.log)
  {
    KnownOpen(db.log);
    assert t in Scan(db.log).open.Keys;
    GreatestBounds(db.log, t);
  }

  lemma UnfoldRollBack(db: Db, t: Txn, fx: nat -> Effects)
    requires Aborting(db, t)
    ensures CanRollBack(db, t)
    ensures var next := RollBackOne(db, t, fx(|db.log| + 1));
            && DbInv(next) && next.phase.Running?
            && (t in next.live ==>
                  Aborting(next, t) && next.live[t].undo < db.live[t].undo
                  && RolledBack(db, t, fx) == RolledBack(next, t, fx))
            && (t !in next.live ==> RolledBack(db, t, fx) == next)
  {
    hide DbInv, RollBackOne, CanRollBack;
    CanGoOn(db, t, fx(|db.log| + 1));
  }

  // ---------------------------------------------------------------- restart

  /** Analysis and physical redo in one forward pass over the log. */
  method Redo(file: Pages, log: seq<Record>) returns (pages: Pages, unresolved: map<Txn, nat>, applied: nat)
    ensures pages == Redone(file, log) && unresolved == Analysis(log) && applied == Watermark(log)
  {
    pages, unresolved, applied := file, map[], 0;
    for i := 0 to |log|
      invariant pages == Redone(file, log[..i]) && unresolved == Analysis(log[..i]) && applied == Watermark(log[..i])
    {
      assert Front(log[..i + 1]) == log[..i] && Last(log[..i + 1]) == log[i];
      match log[i] {
        case Begin(t) => unresolved := unresolved[t := i + 1];
        case Action(t, _, _, _, _, effects) =>
          pages := pages + effects;
          unresolved := unresolved[t := i + 1];
        case Compensation(t, _, _, _, _, _, effects) =>
          pages := pages + effects;
          unresolved := unresolved[t := i + 1];
        case Commit(t, _, raftIndex) =>
          unresolved := unresolved - {t};
          if raftIndex > applied { applied := raftIndex; }
        case End(t, _) => unresolved := unresolved - {t};
        case Abort(_, _) =>
      }
    }
    assert log[..|log|] == log;
  }

  ghost function Entries(heap: map<Txn, nat>): set<(nat, Txn)> {
    set t | t in heap :: (heap[t], t)
  }

  /** The entry with the largest LSN. */
  method TopOf(heap: set<(nat, Txn)>) returns (best: (nat, Txn))
    requires heap != {}
    ensures best in heap && (forall e :: e in heap ==> e.0 <= best.0)
  {
    best :| best in heap;
    var rest := heap - {best};
    while rest != {}
      invariant rest <= heap && best in heap
      invariant forall e :: e in heap - rest ==> e.0 <= best.0
      decreases rest
    {
      var e :| e in rest;
      rest := rest - {e};
      if best.0 < e.0 { best := e; }
    }
  }

  lemma EntriesMove(heap: map<Txn, nat>, t: Txn, lsn: nat)
    requires t in heap
    ensures Entries(heap - {t}) == Entries(heap) - {(heap[t], t)}
    ensures Entries(heap[t := lsn]) == (Entries(heap) - {(heap[t], t)}) + {(lsn, t)}
  {
    var e := Entries(heap);
    forall x | x in Entries(heap - {t}) ensures x in e && x != (heap[t], t) {}
    forall x | x in e && x != (heap[t], t) ensures x in Entries(heap - {t}) && x in Entries(heap[t := lsn]) {
      assert x.1 in heap - {t};
      assert x.1 in heap[t := lsn] && heap[t := lsn][x.1] == heap[x.1];
    }
    assert t in heap[t := lsn];
  }

  lemma EntryOf(heap: map<Txn, nat>, t: Txn)
    requires t in heap
    ensures (heap[t], t) in Entries(heap)
  {
  }

  class RestartPass {
    var log: seq<Record>
    var store: Store
    var unresolved: map<Txn, nat>

    constructor (log: seq<Record>, store: Store, unresolved: map<Txn, nat>)
      ensures this.log == log && this.store == store && this.unresolved == unresolved
    {
      this.log, this.store, this.unresolved := log, store, unresolved;
    }

    ghost function View(heap: map<Txn, nat>): Pass
      reads this
    {
      Pass(log, store, unresolved, heap)
    }

    /** Undoes every loser, always visiting the largest pending LSN next. */
    method UndoLosers(fx: nat -> Effects)
      requires Sound(View(unresolved))
      modifies this
      ensures View(map[]) == UndoAll(old(View(unresolved)), fx)
    {
      hide Sound, UndoAll, Visit, Visits;
      ghost var goal := UndoAll(View(unresolved), fx);
      ghost var left := unresolved;
      var heap := set t | t in unresolved :: (unresolved[t], t);
      assert heap == Entries(left);
      while heap != {}
        invariant heap == Entries(left) && Sound(View(left)) && UndoAll(View(left), fx) == goal
        decreases Peak(left)
      {
        var target := TopOf(heap);
        ghost var t := target.1;
        assert t in left && left[t] == target.0;
        assert Highest(left, t) by {
          forall u | u in left ensures left[u] <= left[t] { assert (left[u], u) in heap; }
        }
        UndoAllStep(View(left), t, fx);
        PeakFalls(View(left), t, fx(|log| + 1));
        ghost var next := Visit(View(left), t, fx(|log| + 1));
        heap := Round(heap, target, left, fx(|log| + 1));
        left := next.heap;
      }
      assert left == map[] by {
        forall t ensures t !in left { if t in left { EntryOf(left, t); } }
      }
      assert UndoAll(View(left), fx) == View(left) by { NothingLeft(View(left), fx); }
    }

    method Round(heap: set<(nat, Txn)>, target: (nat, Txn), ghost left: map<Txn, nat>, effects: Effects)
        returns (rest: set<(nat, Txn)>)
      requires heap == Entries(left) && target in heap && target.1 in left && left[target.1] == target.0
      requires Sound(View(left)) && Visits(View(left), target.1)
      modifies this
      ensures View(Visit(old(View(left)), target.1, effects).heap) == Visit(old(View(left)), target.1, effects)
      ensures rest == Entries(Visit(old(View(left)), target.1, effects).heap)
    {
      hide Sound;
      var lsn, t := target.0, target.1;
      rest := heap - {target};
      EntriesMove(left, t, 0);
      var record := log[lsn - 1];
      match record {
        case Begin(_) =>
          log := log + [End(t, unresolved[t])];
          unresolved := unresolved - {t};
        case Action(_, prev, key, before, _, _) =>
          EntriesMove(left, t, prev);
          log := log + [Compensation(t, unresolved[t], lsn, prev, key, before, effects)];
          store := Set(store, key, before);
          unresolved := unresolved[t := |log|];
          rest := rest + {(prev, t)};
        case Compensation(_, _, _, undoNext, _, _, _) =>
          EntriesMove(left, t, undoNext);
          rest := rest + {(undoNext, t)};
        case Abort(_, prev) =>
          EntriesMove(left, t, prev);
          rest := rest + {(prev, t)};
        case _ =>
      }
    }
  }

  lemma NothingLeft(s: Pass, fx: nat -> Effects)
    requires Sound(s) && s.heap == map[]
    ensures UndoAll(s, fx) == s
  {
  }

  /** The whole restart: redo over any file torn between logged moments, then undo. `content` reads the map off
      a set of pages; it need only be right for the last logged moment. */
  method Restart(file: Pages, ghost initial: Pages, log: seq<Record>, content: Pages -> Store, fx: nat -> Effects)
    returns (pages: Pages, pass: RestartPass, applied: nat)
    requires WellFormed(log) && FromHistory(file, initial, log) && content(Redone(initial, log)) == Scan(log).store
    ensures pages == Redone(initial, log) && applied == Watermark(log)
    ensures pass.store == CommittedStore(log) && pass.log == Recovered(log, fx).log && pass.unresolved == map[]
  {
    var unresolved;
    pages, unresolved, applied := Redo(file, log);
    RedoRestores(file, initial, log);
    StartSound(log);
    pass := new RestartPass(log, content(pages), unresolved);
    assert pass.View(unresolved) == Start(log);
    pass.UndoLosers(fx);
    var _ := CrashAtomicity(log, fx);
    var _ := UndoAllEnds(Start(log), fx);
    assert Scan(pass.log).open.Keys == {};
  }
}
