/** Key locks, their FIFO queues, and the transactions that hold and wait for them. */
module LockTables {
  import opened Options
  import opened WaitForGraphs

  /** Lock keys are only ever compared for equality. */
  type Key = nat

  datatype Mode = Shared | Exclusive
  datatype Waiter = Waiter(txn: Txn, mode: Mode)
  datatype LockState = LockState(shared: set<Txn>, exclusive: Option<Txn>, waiters: seq<Waiter>)

  const FREE := LockState({}, None, [])

  datatype Held = Held(key: Key, mode: Mode)

  /** `waitsFor` is the key on whose queue the transaction's thread is blocked. */
  datatype TxnInfo = TxnInfo(active: bool, held: seq<Held>, waitsFor: Option<Key>)

  datatype System = System(locks: map<Key, LockState>, graph: Graph, txns: map<Txn, TxnInfo>)

  datatype Status = Success | Waiting | HoldsShared | HoldsExclusive | Deadlock | NotFound | NotOwner

  function At(sys: System, k: Key): LockState {
    if k in sys.locks then sys.locks[k] else FREE
  }

  predicate Active(sys: System, t: Txn) {
    t in sys.txns && sys.txns[t].active
  }

  // ---------------------------------------------------------------- granting

  /** The front waiter can be granted; a promotion may replace its own shared ownership. */
  predicate Grantable(s: LockState) {
    && s.waiters != []
    && s.exclusive.None?
    && (s.waiters[0].mode == Shared || s.shared <= {s.waiters[0].txn})
  }

  function GrantFront(s: LockState): LockState
    requires Grantable(s)
  {
    var w := s.waiters[0];
    if w.mode == Exclusive then LockState(s.shared - {w.txn}, Some(w.txn), s.waiters[1..])
    else LockState(s.shared + {w.txn}, None, s.waiters[1..])
  }

  /** Grants from the front until the queue is blocked. */
  function GrantAll(s: LockState): (LockState, seq<Waiter>)
    decreases |s.waiters|
  {
    if !Grantable(s) then (s, [])
    else
      var rest := GrantAll(GrantFront(s));
      (rest.0, [s.waiters[0]] + rest.1)
  }

  /** Only the strongest mode per key is kept. */
  function RecordHeld(held: seq<Held>, k: Key, mode: Mode): seq<Held> {
    if held == [] then [Held(k, mode)]
    else if held[0].key == k then [if mode == Exclusive then Held(k, Exclusive) else held[0]] + held[1..]
    else [held[0]] + RecordHeld(held[1..], k, mode)
  }

  /** Grants the front waiter of k: ownership, the held-lock record, and its wait edges go together. */
  function GrantStep(sys: System, k: Key): System
    requires Grantable(At(sys, k)) && At(sys, k).waiters[0].txn in sys.txns
  {
    var s := At(sys, k);
    var t := s.waiters[0].txn;
    var info := sys.txns[t];
    System(sys.locks[k := GrantFront(s)],
           WithoutOutgoing(sys.graph, t),
           sys.txns[t := info.(held := RecordHeld(info.held, k, s.waiters[0].mode), waitsFor := None)])
  }

  /** Every queued transaction is one the transaction manager still tracks. */
  predicate WaitersKnown(sys: System, k: Key) {
    forall i :: 0 <= i < |At(sys, k).waiters| ==> At(sys, k).waiters[i].txn in sys.txns
  }

  function Settle(sys: System, k: Key): System
    requires WaitersKnown(sys, k)
    decreases |At(sys, k).waiters|
  {
    if Grantable(At(sys, k)) then Settle(GrantStep(sys, k), k) else sys
  }

  // ---------------------------------------------------------------- calls

  /** Whom a request at the end of the queue must wait for. A reader passes other readers. */
  function Blockers(s: LockState, t: Txn, mode: Mode): set<Txn> {
    (if s.exclusive.Some? then {s.exclusive.value} else {})
    + (if mode == Exclusive then s.shared - {t} else {})
    + (set w | w in s.waiters && (mode == Exclusive || w.mode == Exclusive) :: w.txn)
  }

  ghost function Enqueue(sys: System, t: Txn, k: Key, mode: Mode): (System, Status) {
    var s := At(sys, k);
    var blockers := Blockers(s, t, mode);
    if !Active(sys, t) || !(blockers <= sys.txns.Keys) then (sys, NotFound)
    else if !Accepts(sys.graph, t, blockers) then (sys, Deadlock)
    else
      (System(sys.locks[k := s.(waiters := s.waiters + [Waiter(t, mode)])],
              WithEdges(sys.graph, t, blockers),
              sys.txns[t := sys.txns[t].(waitsFor := Some(k))]),
       Waiting)
  }

  function Grabbed(sys: System, t: Txn, k: Key, s: LockState, mode: Mode): System
    requires t in sys.txns
  {
    System(sys.locks[k := s], sys.graph, sys.txns[t := sys.txns[t].(held := RecordHeld(sys.txns[t].held, k, mode))])
  }

  ghost function LockShared(sys: System, t: Txn, k: Key): (System, Status) {
    var s := At(sys, k);
    if t in s.shared then (sys, HoldsShared)
    else if s.exclusive == Some(t) then (sys, HoldsExclusive)
    else if s.exclusive.None? && s.waiters == [] then
      if Active(sys, t) then (Grabbed(sys, t, k, s.(shared := s.shared + {t}), Shared), Success)
      else (sys.(locks := sys.locks - {k}), NotFound)
    else Enqueue(sys, t, k, Shared)
  }

  ghost function LockExclusive(sys: System, t: Txn, k: Key): (System, Status) {
    var s := At(sys, k);
    if s.exclusive == Some(t) then (sys, HoldsExclusive)
    else if s.shared <= {t} && s.exclusive.None? && s.waiters == [] then
      if Active(sys, t) then (Grabbed(sys, t, k, LockState({}, Some(t), []), Exclusive), Success)
      else if t in s.shared then (sys, NotFound)
      else (sys.(locks := sys.locks - {k}), NotFound)
    else Enqueue(sys, t, k, Exclusive)
  }

  ghost function LockCall(sys: System, t: Txn, k: Key, mode: Mode): (System, Status) {
    if mode == Shared then LockShared(sys, t, k) else LockExclusive(sys, t, k)
  }

  predicate Owns(s: LockState, t: Txn, mode: Mode) {
    if mode == Shared then t in s.shared else s.exclusive == Some(t)
  }

  function Dropped(s: LockState, t: Txn, mode: Mode): LockState {
    if mode == Shared then s.(shared := s.shared - {t}) else s.(exclusive := None)
  }

  function Tidy(sys: System, k: Key): System {
    if At(sys, k) == FREE then sys.(locks := sys.locks - {k}) else sys
  }

  function Unlock(sys: System, t: Txn, k: Key, mode: Mode): (System, Status)
    requires WaitersKnown(sys, k)
  {
    var s := At(sys, k);
    if !Owns(s, t, mode) then (sys, NotOwner)
    else (Tidy(Settle(sys.(locks := sys.locks[k := Dropped(s, t, mode)]), k), k), Success)
  }

  // ---------------------------------------------------------------- what the calls promise locally

  /** First come, first served: the granted waiters are a prefix of the queue, and the queue that is left
      starts with a waiter that cannot be granted. */
  lemma {:induction false} GrantsInOrder(s: LockState)
    ensures GrantAll(s).1 + GrantAll(s).0.waiters == s.waiters
    ensures !Grantable(GrantAll(s).0)
    decreases |s.waiters|
  {
    hide GrantAll, GrantFront, Grantable;
    GrantAllStep(s);
    if Grantable(s) {
      var next := GrantFront(s);
      GrantsInOrder(next);
      assert s.waiters == [s.waiters[0]] + next.waiters;
      assert ([s.waiters[0]] + GrantAll(next).1) + GrantAll(next).0.waiters
        == [s.waiters[0]] + (GrantAll(next).1 + GrantAll(next).0.waiters);
    } else {
      assert [] + s.waiters == s.waiters;
    }
  }

  /** One round of the grant loop. */
  lemma GrantAllStep(s: LockState)
    ensures !Grantable(s) ==> GrantAll(s) == (s, [])
    ensures Grantable(s) ==>
              && s.waiters != [] && GrantFront(s).waiters == s.waiters[1..]
              && GrantAll(s) == (GrantAll(GrantFront(s)).0, [s.waiters[0]] + GrantAll(GrantFront(s)).1)
  {
  }

  /** Settling a key is granting its whole grantable prefix. */
  lemma {:induction false} SettleGrantsAll(sys: System, k: Key)
    requires WaitersKnown(sys, k)
    ensures At(Settle(sys, k), k) == GrantAll(At(sys, k)).0
    ensures forall j :: j != k ==> At(Settle(sys, k), j) == At(sys, j)
    decreases |At(sys, k).waiters|
  {
    if Grantable(At(sys, k)) {
      var next := GrantStep(sys, k);
      assert At(next, k) == GrantFront(At(sys, k));
      SettleGrantsAll(next, k);
    }
  }

  /** A reader that is not active destroys the whole lock entry, other readers included: here
      transaction 1 loses its lock on key 5. */
  lemma InactiveReaderErasesOwners()
    ensures var sys := System(map[5 := LockState({1}, None, [])], EMPTY,
            map[1 := TxnInfo(true, [Held(5, Shared)], None)]);
            var (after, status) := LockShared(sys, 2, 5);
            status == NotFound && 1 in At(sys, 5).shared && 1 !in At(after, 5).shared
  {
  }

  /** Exactly when a lock call takes a lock away from some other transaction. */
  lemma LosesOwnersExactlyWhen(sys: System, t: Txn, k: Key, mode: Mode, u: Txn, m: Mode)
    requires u != t
    ensures Owns(At(sys, k), u, m) && !Owns(At(LockCall(sys, t, k, mode).0, k), u, m)
       <==> && mode == Shared && m == Shared && !Active(sys, t)
            && u in At(sys, k).shared && t !in At(sys, k).shared
            && At(sys, k).exclusive.None? && At(sys, k).waiters == []
  {
  }
}
