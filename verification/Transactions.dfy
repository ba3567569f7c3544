/** Transactions writing one log under exclusive key locks, with crashes at any moment and restart. */
module Transactions {
  import opened Sequences
  import opened Options
  import opened Wal
  import opened WalInvariant
  import opened Recovery
  import Compensations

  /** `undo` is the LSN the rollback visits next; it matters only once the transaction is aborting. */
  datatype Live = Live(active: bool, last: nat, undo: nat)

  datatype Phase = Running | Recovering(unresolved: map<Txn, nat>, heap: map<Txn, nat>)

  datatype Db = Db(log: seq<Record>, store: Store, live: map<Txn, Live>, locks: map<Bytes, Txn>, phase: Phase)

  const EMPTY_DB := Db([], map[], map[], map[], Running)

  // ---------------------------------------------------------------- calls

  function Greatest(log: seq<Record>): Txn {
    if log == [] then 0
    else if Last(log).txn > Greatest(Front(log)) then Last(log).txn else Greatest(Front(log))
  }

  function BeginTxn(db: Db): Db {
    var t := Greatest(db.log) + 1;
    db.(log := db.log + [Begin(t)], live := db.live[t := Live(true, |db.log| + 1, 0)])
  }

  /** A put (after is Some) or a removal (after is None) by an active transaction that gets the key lock.
      Removing an absent key changes nothing but still takes the lock. */
  function Write(db: Db, t: Txn, k: Bytes, after: Option<Bytes>, effects: Effects): Db
    requires t in db.live
  {
    var before := Get(db.store, k);
    var locked := db.(locks := db.locks[k := t]);
    if before.None? && after.None? then locked
    else
      locked.(log := db.log + [Action(t, db.live[t].last, k, before, after, effects)],
              store := Set(db.store, k, after),
              live := db.live[t := Live(true, |db.log| + 1, 0)])
  }

  function Released(locks: map<Bytes, Txn>, t: Txn): map<Bytes, Txn> {
    map k | k in locks && locks[k] != t :: locks[k]
  }

  function CommitTxn(db: Db, t: Txn, raftIndex: nat): Db
    requires t in db.live
  {
    db.(log := db.log + [Commit(t, db.live[t].last, raftIndex)], live := db.live - {t}, locks := Released(db.locks, t))
  }

  /** The abort decision; rollback starts from the last record before it. */
  function AbortTxn(db: Db, t: Txn): Db
    requires t in db.live
  {
    db.(log := db.log + [Abort(t, db.live[t].last)], live := db.live[t := Live(false, |db.log| + 1, db.live[t].last)])
  }

  predicate CanRollBack(db: Db, t: Txn) {
    && t in db.live && !db.live[t].active && 1 <= db.live[t].undo <= |db.log|
    && (db.log[db.live[t].undo - 1].Action? ==>
          CanUndo(db.store, db.log[db.live[t].undo - 1].key, db.log[db.live[t].undo - 1].before))
  }

  /** One round of the rollback loop; reaching Begin writes End and gives up the locks. */
  function RollBackOne(db: Db, t: Txn, effects: Effects): Db
    requires CanRollBack(db, t)
  {
    var lsn := db.live[t].undo;
    match db.log[lsn - 1]
    case Begin(_) =>
      db.(log := db.log + [End(t, db.live[t].last)], live := db.live - {t}, locks := Released(db.locks, t))
    case Action(_, prev, k, before, _, _) =>
      db.(log := db.log + [Compensation(t, db.live[t].last, lsn, prev, k, before, effects)],
          store := Set(db.store, k, before),
          live := db.live[t := Live(false, |db.log| + 1, prev)])
    case Compensation(_, _, _, undoNext, _, _, _) => db.(live := db.live[t := db.live[t].(undo := undoNext)])
    case _ => db
  }

  /** A crash keeps some prefix of the log; analysis and redo rebuild the store it describes. */
  function Crashed(db: Db, n: nat): Db
    requires n <= |db.log|
  {
    var log := db.log[..n];
    Db(log, Scan(log).store, map[], map[], Recovering(Analysis(log), Analysis(log)))
  }

  datatype Step =
    | DoBegin
    | DoWrite(txn: Txn, key: Bytes, after: Option<Bytes>, effects: Effects)
    | DoCommit(txn: Txn, raftIndex: nat)
    | DoAbort(txn: Txn)
    | DoRollBack(txn: Txn, effects: Effects)
    | DoCrash(kept: nat)
    | DoRecover(effects: Effects)
    | DoOpen

  ghost function PassOf(db: Db): Pass
    requires db.phase.Recovering?
  {
    Pass(db.log, db.store, db.phase.unresolved, db.phase.heap)
  }

  ghost function RecoverOne(db: Db, effects: Effects): Db
    requires db.phase.Recovering?
  {
    if db.phase.heap == map[] then db
    else
      SomeHighest(db.phase.heap);
      var t :| Highest(db.phase.heap, t);
      if !Visits(PassOf(db), t) then db
      else
        var next := Visit(PassOf(db), t, effects);
        db.(log := next.log, store := next.store, phase := Recovering(next.unresolved, next.heap))
  }

  /** Any client thread, the crash, or the recovery pass moves; a step whose guard fails changes nothing. */
  ghost function NextDb(db: Db, s: Step): Db {
    if s.DoCrash? then if s.kept <= |db.log| then Crashed(db, s.kept) else db
    else if db.phase.Recovering? then
      if s.DoRecover? then RecoverOne(db, s.effects)
      else if s.DoOpen? && db.phase.heap == map[] then db.(phase := Running)
      else db
    else if s.DoBegin? then BeginTxn(db)
    else if s.DoRecover? || s.DoOpen? || s.txn !in db.live then db
    else if s.DoRollBack? then if CanRollBack(db, s.txn) then RollBackOne(db, s.txn, s.effects) else db
    else if !db.live[s.txn].active then db
    else
      match s
      case DoWrite(t, k, after, effects) =>
        if k in db.locks && db.locks[k] != t then db else Write(db, t, k, after, effects)
      case DoCommit(t, raftIndex) => CommitTxn(db, t, raftIndex)
      case DoAbort(t) => AbortTxn(db, t)
      case _ => db
  }

  ghost function RunDb(steps: seq<Step>): Db {
    if steps == [] then EMPTY_DB else NextDb(RunDb(Front(steps)), Last(steps))
  }

  // ---------------------------------------------------------------- the invariant

  /** What the transaction manager remembers about t agrees with what the log says about it. */
  ghost predicate Tracks(log: seq<Record>, o: Open, t: Txn, l: Live) {
    if l.active then !o.aborting && l.last == o.last
    else o.aborting && Walkable(log, t, l.undo) && Chain(log, t, l.undo) == o.stack
  }

  ghost predicate HoldsLocks(sc: Scanned, locks: map<Bytes, Txn>) {
    forall t, k :: t in sc.open && k in Keys(sc.open[t].stack) ==> k in locks && locks[k] == t
  }

  ghost predicate DbInv(db: Db) {
    var sc := Scan(db.log);
    && WellFormed(db.log) && db.store == sc.store
    && (db.phase.Running? ==>
          && db.live.Keys == sc.open.Keys && HoldsLocks(sc, db.locks)
          && (forall t :: t in db.live ==> Tracks(db.log, sc.open[t], t, db.live[t])))
    && (db.phase.Recovering? ==> db.live == map[] && Sound(PassOf(db)))
  }

  lemma TracksKept(log: seq<Record>, r: Record, o: Open, t: Txn, l: Live)
    requires Tracks(log, o, t, l)
    ensures Tracks(log + [r], o, t, l)
  {
    if !l.active { WalkStable(log, t, l.undo, r); }
  }

  lemma {:induction false} GreatestBounds(log: seq<Record>, t: Txn)
    requires t in Scan(log).seen
    ensures t <= Greatest(log)
  {
    if t in Scan(Front(log)).seen {
      GreatestBounds(Front(log), t);
    }
  }

  lemma BeginKeeps(db: Db)
    requires DbInv(db) && db.phase.Running?
    ensures DbInv(BeginTxn(db))
  {
    hide WellFormed, Walkable, Keys, Scan, Greatest, Chain;
    var t := Greatest(db.log) + 1;
    var sc := Scan(db.log);
    if t in sc.seen { GreatestBounds(db.log, t); }
    assert t !in sc.seen;
    var r := Begin(t);
    Appended(db.log, r);
    KnownOpen(db.log);
    var next := BeginTxn(db);
    forall u | u in next.live ensures Tracks(next.log, Scan(next.log).open[u], u, next.live[u]) {
      if u != t { TracksKept(db.log, r, sc.open[u], u, db.live[u]); }
    }
    assert Keys([]) == {} by { NoKeys(); }
  }

  lemma NoKeys()
    ensures Keys([]) == {}
  {
  }

  lemma KnownOpen(log: seq<Record>)
    requires WellFormed(log)
    ensures Scan(log).open.Keys <= Scan(log).seen
  {
    LogInv(log);
  }

  /** The key lock is what makes the action legal. */
  lemma LockMakesLegal(sc: Scanned, locks: map<Bytes, Txn>, r: Record)
    requires HoldsLocks(sc, locks) && r.Action? && (r.key in locks ==> locks[r.key] == r.txn)
    requires r.txn in sc.open && !sc.open[r.txn].aborting && r.prev == sc.open[r.txn].last
    requires r.before == Get(sc.store, r.key) && (r.before.None? ==> r.after.Some?)
    ensures Legal(sc, r)
  {
    assert forall u :: u in sc.open && r.key in Keys(sc.open[u].stack) ==> locks[r.key] == u;
  }

  lemma LockCoversAction(sc: Scanned, locks: map<Bytes, Txn>, lsn: nat, r: Record)
    requires HoldsLocks(sc, locks) && r.Action? && Legal(sc, r)
    ensures HoldsLocks(Advance(sc, lsn, r), locks[r.key := r.txn])
  {
    KeysSnoc(sc.open[r.txn].stack, Item(lsn, r.prev, r.key, r.before, r.after));
  }

  lemma WriteKeeps(db: Db, t: Txn, k: Bytes, after: Option<Bytes>, effects: Effects)
    requires DbInv(db) && db.phase.Running? && t in db.live && db.live[t].active
    requires k in db.locks ==> db.locks[k] == t
    ensures DbInv(Write(db, t, k, after, effects))
  {
    var before := Get(db.store, k);
    if before.Some? || after.Some? {
      ActionWriteKeeps(db, t, k, after, effects);
    }
  }

  lemma ActionWriteKeeps(db: Db, t: Txn, k: Bytes, after: Option<Bytes>, effects: Effects)
    requires DbInv(db) && db.phase.Running? && t in db.live && db.live[t].active
    requires (k in db.locks ==> db.locks[k] == t) && (Get(db.store, k).Some? || after.Some?)
    ensures DbInv(Write(db, t, k, after, effects))
  {
    hide WellFormed, Walkable, HoldsLocks, Legal, Chain;
    var sc := Scan(db.log);
    var next := Write(db, t, k, after, effects);
    var r := Action(t, db.live[t].last, k, Get(db.store, k), after, effects);
    assert Tracks(db.log, sc.open[t], t, db.live[t]);
    Appended(db.log, r);
    LockMakesLegal(sc, db.locks, r);
    LockCoversAction(sc, db.locks, |db.log| + 1, r);
    forall u | u in next.live ensures Tracks(next.log, Scan(next.log).open[u], u, next.live[u]) {
      if u != t { TracksKept(db.log, r, sc.open[u], u, db.live[u]); }
    }
  }

  /** Giving up t's locks is harmless once t owns nothing. */
  lemma ReleaseLocks(sc: Scanned, locks: map<Bytes, Txn>, next: Scanned, t: Txn)
    requires HoldsLocks(sc, locks) && next.open == sc.open - {t}
    ensures HoldsLocks(next, Released(locks, t))
  {
  }

  lemma CloseKeeps(db: Db, t: Txn, r: Record)
    requires DbInv(db) && db.phase.Running? && t in db.live && (r.Commit? || r.End?) && r.txn == t
    requires Legal(Scan(db.log), r)
    ensures DbInv(db.(log := db.log + [r], live := db.live - {t}, locks := Released(db.locks, t)))
  {
    hide WellFormed, Walkable, HoldsLocks;
    var sc := Scan(db.log);
    var next := db.(log := db.log + [r], live := db.live - {t}, locks := Released(db.locks, t));
    Appended(db.log, r);
    ReleaseLocks(sc, db.locks, Scan(next.log), t);
    forall u | u in next.live ensures Tracks(next.log, Scan(next.log).open[u], u, next.live[u]) {
      TracksKept(db.log, r, sc.open[u], u, db.live[u]);
    }
  }

  lemma AbortKeeps(db: Db, t: Txn)
    requires DbInv(db) && db.phase.Running? && t in db.live && db.live[t].active
    ensures DbInv(AbortTxn(db, t))
  {
    hide WellFormed, Walkable;
    var sc := Scan(db.log);
    var r := Abort(t, db.live[t].last);
    var next := AbortTxn(db, t);
    Appended(db.log, r);
    assert Tracks(db.log, sc.open[t], t, db.live[t]);
    OpenChain(db.log, t);
    WalkStable(db.log, t, sc.open[t].last, r);
    forall u | u in next.live ensures Tracks(next.log, Scan(next.log).open[u], u, next.live[u]) {
      if u != t { TracksKept(db.log, r, sc.open[u], u, db.live[u]); }
    }
    assert forall u :: u in sc.open ==> Scan(next.log).open[u].stack == sc.open[u].stack;
  }

  lemma OpenChain(log: seq<Record>, t: Txn)
    requires WellFormed(log) && t in Scan(log).open
    ensures Walkable(log, t, Scan(log).open[t].last) && Chain(log, t, Scan(log).open[t].last) == Scan(log).open[t].stack
  {
    LogInv(log);
    assert ChainOk(log, t, Scan(log).open[t]);
  }

  lemma UndoneNeedsNoLock(sc: Scanned, locks: map<Bytes, Txn>, lsn: nat, r: Record)
    requires HoldsLocks(sc, locks) && r.Compensation? && Legal(sc, r)
    ensures HoldsLocks(Advance(sc, lsn, r), locks)
  {
    KeysFront(sc.open[r.txn].stack);
  }

  lemma RollBackAction(db: Db, t: Txn, effects: Effects)
    requires DbInv(db) && db.phase.Running? && CanRollBack(db, t) && db.log[db.live[t].undo - 1].Action?
    ensures DbInv(RollBackOne(db, t, effects))
  {
    hide WellFormed, Walkable, Chain, HoldsLocks;
    var sc := Scan(db.log);
    var lsn := db.live[t].undo;
    var a := db.log[lsn - 1];
    var r := Compensation(t, db.live[t].last, lsn, a.prev, a.key, a.before, effects);
    var next := RollBackOne(db, t, effects);
    assert Tracks(db.log, sc.open[t], t, db.live[t]);
    WalkStart(db.log, t, lsn);
    LoserFacts(db.log, t);
    Appended(db.log, r);
    assert Legal(sc, r);
    ActionChain(db.log, t, lsn, r);
    UndoneNeedsNoLock(sc, db.locks, |db.log| + 1, r);
    forall u | u in next.live ensures Tracks(next.log, Scan(next.log).open[u], u, next.live[u]) {
      if u != t { TracksKept(db.log, r, sc.open[u], u, db.live[u]); }
    }
  }

  lemma RollBackKeeps(db: Db, t: Txn, effects: Effects)
    requires DbInv(db) && db.phase.Running? && CanRollBack(db, t)
    ensures DbInv(RollBackOne(db, t, effects))
  {
    hide WellFormed, Walkable, Chain, HoldsLocks;
    var sc := Scan(db.log);
    var lsn := db.live[t].undo;
    assert Tracks(db.log, sc.open[t], t, db.live[t]);
    var a := db.log[lsn - 1];
    if a.Begin? {
      BeginChain(db.log, t, lsn);
      CloseKeeps(db, t, End(t, db.live[t].last));
    } else if a.Action? {
      RollBackAction(db, t, effects);
    } else if a.Compensation? {
      CompensationSkipped(db.log, t, lsn);
    }
  }

  lemma CompensationSkipped(log: seq<Record>, t: Txn, lsn: nat)
    requires Walkable(log, t, lsn) && log[lsn - 1].Compensation?
    ensures Walkable(log, t, log[lsn - 1].undoNext) && Chain(log, t, log[lsn - 1].undoNext) == Chain(log, t, lsn)
  {
  }

  lemma CrashKeeps(db: Db, n: nat)
    requires DbInv(db) && n <= |db.log|
    ensures DbInv(Crashed(db, n))
  {
    hide Scan, Sound, WellFormed;
    PrefixWellFormed(db.log, n);
    StartSound(db.log[..n]);
  }

  lemma RecoverKeeps(db: Db, effects: Effects)
    requires DbInv(db) && db.phase.Recovering?
    ensures DbInv(RecoverOne(db, effects))
  {
    hide Scan, WellFormed, Visit, Visits;
    if db.phase.heap != map[] {
      SomeHighest(db.phase.heap);
      forall t | Highest(db.phase.heap, t) ensures Visits(PassOf(db), t) && Sound(Visit(PassOf(db), t, effects)) {
        VisitSound(PassOf(db), t, effects);
      }
    }
  }

  lemma OpenKeeps(db: Db)
    requires DbInv(db) && db.phase.Recovering? && db.phase.heap == map[]
    ensures DbInv(db.(phase := Running))
  {
    assert Scan(db.log).open.Keys == {};
  }

  lemma StepKeeps(db: Db, s: Step)
    requires DbInv(db)
    ensures DbInv(NextDb(db, s))
  {
    hide DbInv, Crashed, RecoverOne, BeginTxn, Write, CommitTxn, AbortTxn, RollBackOne, CanRollBack, Legal;
    if s.DoCrash? {
      if s.kept <= |db.log| { CrashKeeps(db, s.kept); }
    } else if db.phase.Recovering? {
      if s.DoRecover? {
        RecoverKeeps(db, s.effects);
      } else if s.DoOpen? && db.phase.heap == map[] {
        OpenKeeps(db);
      }
    } else if s.DoBegin? {
      BeginKeeps(db);
    } else if s.DoRecover? || s.DoOpen? || s.txn !in db.live {
    } else if s.DoRollBack? {
      if CanRollBack(db, s.txn) { RollBackKeeps(db, s.txn, s.effects); }
    } else if db.live[s.txn].active {
      match s
      case DoWrite(t, k, after, effects) =>
        if k !in db.locks || db.locks[k] == t { WriteKeeps(db, t, k, after, effects); }
      case DoCommit(t, raftIndex) => CommitKeeps(db, t, raftIndex);
      case DoAbort(t) => AbortKeeps(db, t);
      case _ =>
    }
  }

  lemma CommitKeeps(db: Db, t: Txn, raftIndex: nat)
    requires DbInv(db) && db.phase.Running? && t in db.live && db.live[t].active
    ensures DbInv(CommitTxn(db, t, raftIndex))
  {
    hide WellFormed, Walkable, HoldsLocks;
    assert Tracks(db.log, Scan(db.log).open[t], t, db.live[t]);
    CloseKeeps(db, t, Commit(t, db.live[t].last, raftIndex));
  }

  lemma {:induction false} RunKeeps(steps: seq<Step>)
    ensures DbInv(RunDb(steps))
  {
    if steps != [] {
      RunKeeps(Front(steps));
      StepKeeps(RunDb(Front(steps)), Last(steps));
    }
  }

  // ---------------------------------------------------------------- a whole rollback

  ghost predicate Aborting(db: Db, t: Txn) {
    DbInv(db) && db.phase.Running? && t in db.live && !db.live[t].active
  }

  /** Rollback is never stuck: the record is there, the inverse can run, and the walk goes down. */
  lemma CanGoOn(db: Db, t: Txn, effects: Effects)
    requires Aborting(db, t)
    ensures CanRollBack(db, t) && DbInv(RollBackOne(db, t, effects)) && RollBackOne(db, t, effects).phase.Running?
    ensures t in RollBackOne(db, t, effects).live ==>
              Aborting(RollBackOne(db, t, effects), t) && RollBackOne(db, t, effects).live[t].undo < db.live[t].undo
  {
    hide WellFormed, Chain;
    var sc := Scan(db.log);
    assert t in sc.open.Keys;
    assert Tracks(db.log, sc.open[t], t, db.live[t]);
    WalkStart(db.log, t, db.live[t].undo);
    LoserFacts(db.log, t);
    if db.log[db.live[t].undo - 1].Action? {
      assert Last(sc.open[t].stack) in sc.open[t].stack;
    }
    RollBackKeeps(db, t, effects);
  }

  /** Runs the rollback loop of an aborting transaction to its End record. */
  ghost function RolledBack(db: Db, t: Txn, fx: nat -> Effects): Db
    requires Aborting(db, t)
    decreases db.live[t].undo
  {
    CanGoOn(db, t, fx(|db.log| + 1));
    var next := RollBackOne(db, t, fx(|db.log| + 1));
    if t in next.live then RolledBack(next, t, fx) else next
  }

  /** What one round does to the transaction's own stack. */
  lemma RoundEffect(db: Db, t: Txn, effects: Effects)
    requires Aborting(db, t) && CanRollBack(db, t)
    ensures t in Scan(db.log).open
    ensures var stack, next := Scan(db.log).open[t].stack, RollBackOne(db, t, effects);
            if t in next.live then
              && t in Scan(next.log).open && next.live - {t} == db.live - {t} && next.locks == db.locks
              && RollBack(Scan(next.log).open[t].stack, next.store) == RollBack(stack, db.store)
            else
              && stack == [] && next.store == db.store
              && next.live == db.live - {t} && next.locks == Released(db.locks, t)
  {
    hide WellFormed, Walkable, Chain, HoldsLocks, Scan, Legal, CanUndo, Set;
    var sc, next := Scan(db.log), RollBackOne(db, t, effects);
    assert t in sc.open.Keys;
    assert Tracks(db.log, sc.open[t], t, db.live[t]);
    var lsn := db.live[t].undo;
    WalkStart(db.log, t, lsn);
    var a := db.log[lsn - 1];
    if a.Begin? {
      BeginChain(db.log, t, lsn);
    } else if a.Action? {
      Appended(db.log, Compensation(t, db.live[t].last, lsn, a.prev, a.key, a.before, effects));
    } else {
      assert next.log == db.log && next.store == db.store;
    }
  }

  /** A whole rollback puts back every value the transaction found, and closes it. */
  lemma {:induction false} RollBackRestores(db: Db, t: Txn, fx: nat -> Effects)
    requires Aborting(db, t)
    ensures var after := RolledBack(db, t, fx);
            && DbInv(after) && after.phase.Running? && after.live == db.live - {t}
            && after.locks == Released(db.locks, t)
            && t in Scan(db.log).open && after.store == RollBack(Scan(db.log).open[t].stack, db.store)
    decreases db.live[t].undo
  {
    hide DbInv, RollBackOne, CanRollBack, Scan;
    CanGoOn(db, t, fx(|db.log| + 1));
    RoundEffect(db, t, fx(|db.log| + 1));
    var next := RollBackOne(db, t, fx(|db.log| + 1));
    if t in next.live {
      RollBackRestores(next, t, fx);
    }
  }

  // ---------------------------------------------------------------- what holds in every run

  /** Whatever the clients did and however often the system crashed, a crash that keeps any prefix of the log
      recovers to exactly the map of the transactions committed in that prefix. */
  lemma EveryCrashIsAtomic(steps: seq<Step>, n: nat, fx: nat -> Effects)
    requires n <= |RunDb(steps).log|
    ensures var log := RunDb(steps).log[..n];
            && WellFormed(log)
            && Recovered(log, fx).store == CommittedStore(log)
            && Scan(Recovered(log, fx).log).open == map[]
  {
    hide RunDb, WellFormed, Scan, CommittedStore, Recovered;
    RunKeeps(steps);
    PrefixWellFormed(RunDb(steps).log, n);
    var _ := CrashAtomicity(RunDb(steps).log[..n], fx);
  }

  /** Only live transactions hold locks, and none do during recovery. */
  ghost predicate LocksLive(db: Db) {
    if db.phase.Running? then forall k :: k in db.locks ==> db.locks[k] in db.live else db.locks == map[]
  }

  lemma LocksStayLive(db: Db, s: Step)
    requires LocksLive(db)
    ensures LocksLive(NextDb(db, s))
  {
    hide CanUndo, Highest, Visit, Visits, Scan, Analysis, Greatest;
    if db.phase.Recovering? && s.DoRecover? && db.phase.heap != map[] { SomeHighest(db.phase.heap); }
  }

  /** In every run every lock is held by a live transaction, so a transaction gives up its locks with its last record.
      */
  lemma {:induction false} NoLockOutlivesItsOwner(steps: seq<Step>)
    ensures LocksLive(RunDb(steps))
  {
    hide NextDb;
    if steps != [] {
      NoLockOutlivesItsOwner(Front(steps));
      LocksStayLive(RunDb(Front(steps)), Last(steps));
    }
  }

  /** Whenever no transaction is open, the store is exactly the committed map. */
  lemma QuiescentStore(steps: seq<Step>)
    requires RunDb(steps).phase.Running? && RunDb(steps).live == map[]
    ensures RunDb(steps).store == CommittedStore(RunDb(steps).log)
  {
    hide RunDb, CommittedStore;
    RunKeeps(steps);
    assert Scan(RunDb(steps).log).open.Keys == {};
    RestoredWhenClosed(RunDb(steps).log);
  }

  /** A key that no open transaction has written shows its committed value, also while others are running. */
  lemma CommittedReads(steps: seq<Step>, k: Bytes)
    requires forall t :: t in RunDb(steps).live ==> !(k in RunDb(steps).locks && RunDb(steps).locks[k] == t)
    requires RunDb(steps).phase.Running?
    ensures Get(RunDb(steps).store, k) == Get(CommittedStore(RunDb(steps).log), k)
  {
    hide RunDb, CommittedStore, Walkable, WellFormed;
    var db := RunDb(steps);
    RunKeeps(steps);
    var sc := Scan(db.log);
    forall t | t in sc.open ensures k !in Keys(sc.open[t].stack) {
      assert t in db.live.Keys;
    }
    UnownedReads(db.log, k);
  }

  lemma UnownedReads(log: seq<Record>, k: Bytes)
    requires WellFormed(log) && !Owned(Scan(log), k)
    ensures Get(Scan(log).store, k) == Get(CommittedStore(log), k)
  {
    LogInv(log);
  }

  /** Across live aborts and any number of crashed recoveries: a transaction that is over without a Commit has
      exactly one compensation per action, latest action first, and exactly one End. */
  lemma EveryRollBackIsExact(steps: seq<Step>, t: Txn)
    requires var log := RunDb(steps).log; t in Scan(log).seen && t !in Scan(log).open && t !in CommittedIn(log)
    ensures var log := RunDb(steps).log;
            && Compensations.EndsOf(log, t) == 1
            && Compensations.UndoneBy(log, t) == Compensations.Reversed(Compensations.ActionsOf(log, t))
  {
    hide RunDb, Scan, WellFormed, Compensations.EndsOf, Compensations.UndoneBy, Compensations.ActionsOf;
    RunKeeps(steps);
    var log := RunDb(steps).log;
    Compensations.ExactlyOnce(log, t);
    var u, a := Compensations.UndoneBy(log, t), Compensations.ActionsOf(log, t);
    Compensations.ReversedLength(a);
    forall i | 0 <= i < |u| ensures u[i] == Compensations.Reversed(a)[i] {
      Compensations.ReversedAt(a, |a| - 1 - i);
    }
  }
}
