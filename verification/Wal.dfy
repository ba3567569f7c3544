/** The write-ahead log as a sequence of records, and what a prefix of it says about the store. */
module Wal {
  import opened Sequences
  import opened Options
  import RaftTypes

  type Txn = nat
  type Bytes = RaftTypes.Bytes
  type Store = map<Bytes, Bytes>
  type Page = nat
  type Image = Bytes

  /** Record number i of a log has LSN i + 1; LSN 0 means none. An action's undo descriptor restores
      `before`; both kinds of mutation carry complete after-images of the pages they touch. */
  datatype Record =
    | Begin(txn: Txn)
    | Action(txn: Txn, prev: nat, key: Bytes, before: Option<Bytes>, after: Option<Bytes>, effects: map<Page, Image>)
    | Compensation(txn: Txn, prev: nat, undoOf: nat, undoNext: nat, key: Bytes, restored: Option<Bytes>,
      effects: map<Page, Image>)
    | Commit(txn: Txn, prev: nat, raftIndex: nat)
    | Abort(txn: Txn, prev: nat)
    | End(txn: Txn, prev: nat)

  /** An action that has not been compensated yet. */
  datatype Item = Item(lsn: nat, prev: nat, key: Bytes, before: Option<Bytes>, after: Option<Bytes>)

  /** `last` is the latest Begin, Action or Compensation; an Abort record does not move it. */
  datatype Open = Open(last: nat, stack: seq<Item>, aborting: bool)

  datatype Scanned = Scanned(store: Store, open: map<Txn, Open>, seen: set<Txn>)

  function Get(store: Store, k: Bytes): Option<Bytes> {
    if k in store then Some(store[k]) else None
  }

  function Set(store: Store, k: Bytes, v: Option<Bytes>): Store {
    match v
    case None => store - {k}
    case Some(x) => store[k := x]
  }

  // ---------------------------------------------------------------- reading a log

  function Advance(sc: Scanned, lsn: nat, r: Record): Scanned {
    match r
    case Begin(t) => sc.(open := sc.open[t := Open(lsn, [], false)], seen := sc.seen + {t})
    case Action(t, prev, k, before, after, _) =>
      if t !in sc.open then sc
      else sc.(store := Set(sc.store, k, after),
               open := sc.open[t := Open(lsn, sc.open[t].stack + [Item(lsn, prev, k, before, after)],
                 sc.open[t].aborting)])
    case Compensation(t, _, _, _, k, restored, _) =>
      if t !in sc.open || sc.open[t].stack == [] then sc
      else sc.(store := Set(sc.store, k, restored), open := sc.open[t := Open(lsn, Front(sc.open[t].stack), true)])
    case Abort(t, _) =>
      if t !in sc.open then sc else sc.(open := sc.open[t := sc.open[t].(aborting := true)])
    case Commit(t, _, _) => sc.(open := sc.open - {t})
    case End(t, _) => sc.(open := sc.open - {t})
  }

  function Scan(log: seq<Record>): Scanned {
    if log == [] then Scanned(map[], map[], {}) else Advance(Scan(Front(log)), |log|, Last(log))
  }

  function Keys(stack: seq<Item>): set<Bytes> {
    set x | x in stack :: x.key
  }

  /** What a log writer must respect: actions are made under exclusive key locks, with the true before-value;
      a compensation undoes the latest action that is not undone yet; End follows the last compensation. */
  ghost predicate Legal(sc: Scanned, r: Record) {
    match r
    case Begin(t) => t !in sc.seen
    case Action(t, prev, k, before, after, _) =>
      && t in sc.open && !sc.open[t].aborting && prev == sc.open[t].last
      && before == Get(sc.store, k) && (before.None? ==> after.Some?)
      && (forall u :: u in sc.open && u != t ==> k !in Keys(sc.open[u].stack))
    case Compensation(t, _, undoOf, undoNext, k, restored, _) =>
      && t in sc.open && sc.open[t].stack != []
      && Last(sc.open[t].stack) == Item(undoOf, undoNext, k, restored, Get(sc.store, k))
    case Commit(t, _, _) => t in sc.open && !sc.open[t].aborting
    case Abort(t, _) => t in sc.open && !sc.open[t].aborting
    case End(t, _) => t in sc.open && sc.open[t].stack == []
  }

  ghost predicate WellFormed(log: seq<Record>) {
    log == [] || (WellFormed(Front(log)) && Legal(Scan(Front(log)), Last(log)))
  }

  lemma {:induction false} PrefixWellFormed(log: seq<Record>, n: nat)
    requires WellFormed(log) && n <= |log|
    ensures WellFormed(log[..n])
    decreases |log|
  {
    if n < |log| {
      PrefixWellFormed(Front(log), n);
      assert Front(log)[..n] == log[..n];
    } else {
      assert log[..n] == log;
    }
  }

  lemma Appended(log: seq<Record>, r: Record)
    ensures Scan(log + [r]) == Advance(Scan(log), |log| + 1, r)
    ensures WellFormed(log + [r]) <==> WellFormed(log) && Legal(Scan(log), r)
  {
    assert Front(log + [r]) == log;
  }

  // ---------------------------------------------------------------- the independent reference

  ghost function CommittedIn(log: seq<Record>): set<Txn> {
    set i | 0 <= i < |log| && log[i].Commit? :: log[i].txn
  }

  /** The actions of the given transactions, applied in log order to an empty store. */
  function Replay(log: seq<Record>, txns: set<Txn>): Store {
    if log == [] then map[]
    else
      var store := Replay(Front(log), txns);
      var r := Last(log);
      if r.Action? && r.txn in txns then Set(store, r.key, r.after) else store
  }

  /** The map produced by the committed transactions' actions in log order. */
  ghost function CommittedStore(log: seq<Record>): Store {
    Replay(log, CommittedIn(log))
  }

  predicate ActsOn(r: Record, k: Bytes, txns: set<Txn>) {
    r.Action? && r.txn in txns && r.key == k
  }

  lemma {:induction false} ReplaySame(log: seq<Record>, a: set<Txn>, b: set<Txn>, k: Bytes)
    requires forall i :: 0 <= i < |log| ==> (ActsOn(log[i], k, a) <==> ActsOn(log[i], k, b))
    ensures Get(Replay(log, a), k) == Get(Replay(log, b), k)
  {
    if log != [] {
      forall i | 0 <= i < |Front(log)| ensures ActsOn(Front(log)[i], k, a) <==> ActsOn(Front(log)[i], k, b) {
        assert Front(log)[i] == log[i];
      }
      ReplaySame(Front(log), a, b, k);
      assert ActsOn(log[|log| - 1], k, a) <==> ActsOn(log[|log| - 1], k, b);
    }
  }

  lemma {:induction false} ReplayLast(log: seq<Record>, txns: set<Txn>, k: Bytes, i: nat)
    requires i < |log| && ActsOn(log[i], k, txns)
    requires forall j :: i < j < |log| ==> !ActsOn(log[j], k, txns)
    ensures Get(Replay(log, txns), k) == log[i].after
  {
    if i < |log| - 1 {
      assert !ActsOn(log[|log| - 1], k, txns);
      ReplayLast(Front(log), txns, k, i);
    }
  }

  // ---------------------------------------------------------------- undoing a stack

  /** Undoes the items from the top down. */
  function RollBack(stack: seq<Item>, store: Store): Store
    decreases |stack|
  {
    if stack == [] then store else RollBack(Front(stack), Set(store, Last(stack).key, Last(stack).before))
  }

  /** Each undo finds exactly the value its action wrote. */
  predicate Matches(stack: seq<Item>, store: Store)
    decreases |stack|
  {
    stack == [] ||
    (Get(store, Last(stack).key) == Last(stack).after
      && Matches(Front(stack), Set(store, Last(stack).key, Last(stack).before)))
  }

  lemma KeysFront(stack: seq<Item>)
    requires stack != []
    ensures Keys(stack) == Keys(Front(stack)) + {Last(stack).key}
  {
    assert stack == Front(stack) + [Last(stack)];
    assert forall x :: x in stack <==> x in Front(stack) || x == Last(stack);
  }

  /** Undo only looks at the keys of the stack. */
  lemma {:induction false} UndoFrame(stack: seq<Item>, a: Store, b: Store, k: Bytes)
    requires Get(a, k) == Get(b, k)
    ensures Get(RollBack(stack, a), k) == Get(RollBack(stack, b), k)
    decreases |stack|
  {
    if stack != [] {
      UndoFrame(Front(stack), Set(a, Last(stack).key, Last(stack).before), Set(b, Last(stack).key, Last(stack).before),
        k);
    }
  }

  lemma {:induction false} UndoElsewhere(stack: seq<Item>, store: Store, k: Bytes)
    requires k !in Keys(stack)
    ensures Get(RollBack(stack, store), k) == Get(store, k)
    decreases |stack|
  {
    if stack != [] {
      KeysFront(stack);
      UndoElsewhere(Front(stack), Set(store, Last(stack).key, Last(stack).before), k);
    }
  }

  lemma {:induction false} MatchesFrame(stack: seq<Item>, a: Store, b: Store)
    requires Matches(stack, a) && (forall k :: k in Keys(stack) ==> Get(a, k) == Get(b, k))
    ensures Matches(stack, b)
    decreases |stack|
  {
    if stack != [] {
      KeysFront(stack);
      var k, v := Last(stack).key, Last(stack).before;
      assert k in Keys(stack);
      MatchesFrame(Front(stack), Set(a, k, v), Set(b, k, v));
    }
  }

  // ---------------------------------------------------------------- the backward chain

  function ItemAt(log: seq<Record>, lsn: nat): Item
    requires 1 <= lsn <= |log| && log[lsn - 1].Action?
  {
    var r := log[lsn - 1];
    Item(lsn, r.prev, r.key, r.before, r.after)
  }

  /** Where the undo walk goes after visiting this LSN. */
  function Next(log: seq<Record>, lsn: nat): nat
    requires 1 <= lsn <= |log|
  {
    match log[lsn - 1]
    case Action(_, prev, _, _, _, _) => prev
    case Compensation(_, _, _, undoNext, _, _, _) => undoNext
    case _ => 0
  }

  /** The walk from this LSN visits only actions and compensations of t, always goes backward, and ends at
      t's Begin; it never meets an Abort record. */
  predicate Walkable(log: seq<Record>, t: Txn, lsn: nat) {
    && 1 <= lsn <= |log| && log[lsn - 1].txn == t
    && (log[lsn - 1].Begin? ||
        ((log[lsn - 1].Action? || log[lsn - 1].Compensation?) && Next(log, lsn) < lsn
          && Walkable(log, t, Next(log, lsn))))
  }

  /** The actions the walk from this LSN will undo, oldest first. */
  function Chain(log: seq<Record>, t: Txn, lsn: nat): seq<Item>
    requires Walkable(log, t, lsn)
  {
    if log[lsn - 1].Begin? then []
    else Chain(log, t, Next(log, lsn)) + if log[lsn - 1].Action? then [ItemAt(log, lsn)] else []
  }

  lemma {:induction false} WalkStable(log: seq<Record>, t: Txn, lsn: nat, r: Record)
    requires Walkable(log, t, lsn)
    ensures Walkable(log + [r], t, lsn) && Chain(log + [r], t, lsn) == Chain(log, t, lsn)
  {
    assert (log + [r])[lsn - 1] == log[lsn - 1];
    if !log[lsn - 1].Begin? { WalkStable(log, t, Next(log, lsn), r); }
  }

  /** The top of a chain is an action of the log, and the walk from there continues with the rest. */
  lemma {:induction false} ChainTop(log: seq<Record>, t: Txn, lsn: nat)
    requires Walkable(log, t, lsn) && Chain(log, t, lsn) != []
    ensures var x := Last(Chain(log, t, lsn));
            && 1 <= x.lsn <= lsn && log[x.lsn - 1].Action? && x == ItemAt(log, x.lsn) && log[x.lsn - 1].txn == t
            && Walkable(log, t, x.prev) && x.prev < x.lsn && Chain(log, t, x.prev) == Front(Chain(log, t, lsn))
  {
    hide Walkable, Chain, Next;
    WalkStep(log, t, lsn);
    var next := Next(log, lsn);
    if log[lsn - 1].Action? {
      assert Front(Chain(log, t, next) + [ItemAt(log, lsn)]) == Chain(log, t, next);
    } else {
      assert Chain(log, t, next) + [] == Chain(log, t, next);
      ChainTop(log, t, next);
    }
  }

  /** One step of the walk. */
  lemma WalkStep(log: seq<Record>, t: Txn, lsn: nat)
    requires Walkable(log, t, lsn)
    ensures 1 <= lsn <= |log| && log[lsn - 1].txn == t
    ensures log[lsn - 1].Begin? ==> Chain(log, t, lsn) == []
    ensures !log[lsn - 1].Begin? ==>
              && (log[lsn - 1].Action? || log[lsn - 1].Compensation?)
              && Next(log, lsn) < lsn && Walkable(log, t, Next(log, lsn))
              && Chain(log, t, lsn)
                   == Chain(log, t, Next(log, lsn)) + (if log[lsn - 1].Action? then [ItemAt(log, lsn)] else [])
    ensures log[lsn - 1].Action? ==> Next(log, lsn) == log[lsn - 1].prev
  {
  }
}
