/** Lock safety, fairness and deadlock freedom over every interleaving of lock and unlock calls. */
module LockSafety {
  import opened Options
  import opened WaitForGraphs
  import opened LockTables

  datatype Action =
    | Begin(txn: Txn)
    | Lock(txn: Txn, key: Key, mode: Mode)
    | Finish(txn: Txn)
    | Release(txn: Txn)
    | End(txn: Txn)

  const INITIAL := System(map[], EMPTY, map[])

  function ReleaseLast(sys: System, t: Txn): (System, Status)
    requires t in sys.txns && sys.txns[t].held != []
    requires WaitersKnown(sys, sys.txns[t].held[|sys.txns[t].held| - 1].key)
  {
    var info := sys.txns[t];
    var last := info.held[|info.held| - 1];
    var popped := sys.(txns := sys.txns[t := info.(held := info.held[..|info.held| - 1])]);
    assert At(popped, last.key) == At(sys, last.key);
    Unlock(popped, t, last.key, last.mode)
  }

  /** One atomic call. A blocked transaction issues no call, and only active transactions ask for locks;
      an action whose guard fails changes nothing, so every sequence of actions is a run. */
  ghost function Next(sys: System, a: Action): System {
    if a.Begin? then
      if a.txn in sys.txns then sys
      else System(sys.locks, WithNode(sys.graph, a.txn), sys.txns[a.txn := TxnInfo(true, [], None)])
    else if a.txn !in sys.txns || sys.txns[a.txn].waitsFor.Some? then sys
    else
      var info := sys.txns[a.txn];
      match a
      case Begin(_) => sys
      case Lock(t, k, mode) => if info.active then LockCall(sys, t, k, mode).0 else sys
      case Finish(t) => sys.(txns := sys.txns[t := info.(active := false)])
      case Release(t) =>
        if !info.active && info.held != [] && WaitersKnown(sys, info.held[|info.held| - 1].key)
        then ReleaseLast(sys, t).0 else sys
      case End(t) =>
        if !info.active && info.held == []
        then System(sys.locks, Without(sys.graph, t), map u | u in sys.txns && u != t :: sys.txns[u]) else sys
  }

  ghost function Run(actions: seq<Action>): System {
    if actions == [] then INITIAL else Next(Run(actions[..|actions| - 1]), actions[|actions| - 1])
  }

  // ---------------------------------------------------------------- the invariant

  /** Whom the i-th waiter is really waiting for: conflicting owners and the queue ahead of it. */
  function BlockersAt(s: LockState, i: nat): set<Txn>
    requires i < |s.waiters|
  {
    Blockers(s.(waiters := s.waiters[..i]), s.waiters[i].txn, s.waiters[i].mode)
  }

  ghost predicate GraphOk(sys: System) {
    Consistent(sys.graph) && Ranked(sys.graph) && sys.graph.outgoing.Keys == sys.txns.Keys
  }

  ghost predicate DistinctKeys(held: seq<Held>) {
    forall i, j :: 0 <= i < j < |held| ==> held[i].key != held[j].key
  }

  /** The transaction's held-lock list is exactly its part of the lock table. */
  ghost predicate HeldMatches(sys: System, t: Txn)
    requires t in sys.txns
  {
    && DistinctKeys(sys.txns[t].held)
    && (forall k: Key :: Held(k, Shared) in sys.txns[t].held <==> t in At(sys, k).shared)
    && (forall k: Key :: Held(k, Exclusive) in sys.txns[t].held <==> At(sys, k).exclusive == Some(t))
  }

  ghost predicate InQueue(s: LockState, t: Txn) {
    exists i :: 0 <= i < |s.waiters| && s.waiters[i].txn == t
  }

  ghost predicate WaitState(sys: System, t: Txn)
    requires t in sys.txns
  {
    && (sys.txns[t].waitsFor.None? ==> t in sys.graph.outgoing && sys.graph.outgoing[t] == {})
    && (sys.txns[t].waitsFor.Some? ==> sys.txns[t].active && InQueue(At(sys, sys.txns[t].waitsFor.value), t))
  }

  ghost predicate OwnersOk(sys: System, k: Key) {
    var s := At(sys, k);
    && s.shared <= sys.txns.Keys
    && (s.exclusive.Some? ==> s.shared == {} && s.exclusive.value in sys.txns)
  }

  ghost predicate WaiterOk(sys: System, k: Key, i: nat)
    requires i < |At(sys, k).waiters|
  {
    var s := At(sys, k);
    var w := s.waiters[i];
    && w.txn in sys.txns && sys.txns[w.txn].waitsFor == Some(k)
    && s.exclusive != Some(w.txn)
    && (w.mode == Shared ==> w.txn !in s.shared)
    && w.txn in sys.graph.outgoing && BlockersAt(s, i) <= sys.graph.outgoing[w.txn]
  }

  ghost predicate QueueOk(sys: System, k: Key) {
    var s := At(sys, k);
    && (forall i :: 0 <= i < |s.waiters| ==> WaiterOk(sys, k, i))
    && (forall i, j :: 0 <= i < j < |s.waiters| ==> s.waiters[i].txn != s.waiters[j].txn)
  }

  ghost predicate Sound(sys: System) {
    && GraphOk(sys)
    && (forall t :: t in sys.txns ==> HeldMatches(sys, t))
    && (forall t :: t in sys.txns ==> WaitState(sys, t))
    && (forall k: Key :: OwnersOk(sys, k))
    && (forall k: Key :: QueueOk(sys, k))
  }

  /** No queue starts with a waiter that could be granted. */
  ghost predicate Settled(sys: System) {
    forall k: Key :: !Grantable(At(sys, k))
  }

  ghost predicate Inv(sys: System) {
    Sound(sys) && Settled(sys)
  }

  // ---------------------------------------------------------------- held locks

  /** Recording changes one position or appends one. */
  lemma {:induction false} RecordWhere(held: seq<Held>, k: Key, mode: Mode) returns (i: nat)
    ensures i <= |held| && (forall j :: 0 <= j < i ==> held[j].key != k)
    ensures i < |held| ==>
            held[i].key == k
            && RecordHeld(held, k, mode) == held[i := if mode == Exclusive then Held(k, Exclusive) else held[i]]
    ensures i == |held| ==> RecordHeld(held, k, mode) == held + [Held(k, mode)]
  {
    if held == [] {
      i := 0;
    } else if held[0].key == k {
      i := 0;
      assert held == [held[0]] + held[1..];
    } else {
      var j := RecordWhere(held[1..], k, mode);
      i := j + 1;
      assert held == [held[0]] + held[1..];
      forall x | 0 <= x < i ensures held[x].key != k {
        if x > 0 { assert held[x] == held[1..][x - 1]; }
      }
    }
  }

  lemma RecordMeaning(held: seq<Held>, k: Key, mode: Mode)
    requires DistinctKeys(held) && Held(k, mode) !in held
    requires mode == Shared ==> Held(k, Exclusive) !in held
    ensures var r := RecordHeld(held, k, mode);
            && DistinctKeys(r)
            && (forall h :: h in r <==> h == Held(k, mode) || (h in held && h.key != k))
  {
    hide RecordHeld;
    var i := RecordWhere(held, k, mode);
    var r := RecordHeld(held, k, mode);
    if i < |held| {
      assert held[i] in held;
      assert held[i] == if held[i].mode == Shared then Held(k, Shared) else Held(k, Exclusive);
      assert mode == Exclusive;
      forall h ensures h in r <==> h == Held(k, mode) || (h in held && h.key != k) {
        if h in r {
          var x :| 0 <= x < |r| && r[x] == h;
          if x != i { assert held[x] == h; }
        }
        if h == Held(k, mode) { assert r[i] == h; }
        if h in held && h.key != k {
          var x :| 0 <= x < |held| && held[x] == h;
          assert r[x] == h;
        }
      }
    }
  }

  lemma LastHeldGoes(held: seq<Held>)
    requires DistinctKeys(held) && held != []
    ensures var rest := held[..|held| - 1];
            && DistinctKeys(rest)
            && (forall h :: h in rest <==> h in held && h != held[|held| - 1])
            && (forall h :: h in held && h.key == held[|held| - 1].key ==> h == held[|held| - 1])
  {
    var rest := held[..|held| - 1];
    forall h | h in held ensures h in rest || h == held[|held| - 1] {
      var i :| 0 <= i < |held| && held[i] == h;
      if i < |rest| { assert rest[i] == h; }
    }
  }

  // ---------------------------------------------------------------- granting keeps the table sound

  lemma GrantHeld(sys: System, k: Key, u: Txn)
    requires Sound(sys) && Grantable(At(sys, k)) && At(sys, k).waiters[0].txn in sys.txns && u in sys.txns
    ensures HeldMatches(GrantStep(sys, k), u)
  {
    hide GraphOk, WaitState, OwnersOk, BlockersAt, RecordHeld;
    var s := At(sys, k);
    var w := s.waiters[0];
    assert QueueOk(sys, k);
    assert HeldMatches(sys, u) && WaiterOk(sys, k, 0);
    if u == w.txn {
      RecordMeaning(sys.txns[u].held, k, w.mode);
      GrantHeldOwn(sys, k);
    } else {
      GrantHeldOther(sys, k, u);
    }
  }

  lemma GrantHeldOwn(sys: System, k: Key)
    requires Grantable(At(sys, k)) && At(sys, k).waiters[0].txn in sys.txns
    requires var w := At(sys, k).waiters[0];
             && HeldMatches(sys, w.txn)
             && (var r := RecordHeld(sys.txns[w.txn].held, k, w.mode);
                 DistinctKeys(r)
                   && (forall h :: h in r <==> h == Held(k, w.mode) || (h in sys.txns[w.txn].held && h.key != k)))
    ensures HeldMatches(GrantStep(sys, k), At(sys, k).waiters[0].txn)
  {
    hide DistinctKeys, RecordHeld;
    var after := GrantStep(sys, k);
    assert forall j: Key :: j != k ==> At(after, j) == At(sys, j);
  }

  lemma GrantHeldOther(sys: System, k: Key, u: Txn)
    requires Grantable(At(sys, k)) && At(sys, k).waiters[0].txn in sys.txns && u in sys.txns
    requires u != At(sys, k).waiters[0].txn
    requires HeldMatches(sys, u)
    ensures HeldMatches(GrantStep(sys, k), u)
  {
    hide DistinctKeys, RecordHeld;
    var after := GrantStep(sys, k);
    assert forall j: Key :: j != k ==> At(after, j) == At(sys, j);
    forall j: Key
      ensures Held(j, Shared) in after.txns[u].held <==> u in At(after, j).shared
      ensures Held(j, Exclusive) in after.txns[u].held <==> At(after, j).exclusive == Some(u)
    {
      assert Held(j, Shared) in sys.txns[u].held <==> u in At(sys, j).shared;
      assert Held(j, Exclusive) in sys.txns[u].held <==> At(sys, j).exclusive == Some(u);
    }
  }

  /** Granting the front moves it from the queue into the owners; nobody gains a new blocker. */
  lemma GrantBlockers(s: LockState, i: nat)
    requires Grantable(s) && 0 < i < |s.waiters|
    ensures var after := GrantFront(s);
            && i - 1 < |after.waiters| && after.waiters[i - 1] == s.waiters[i]
            && BlockersAt(after, i - 1) <= BlockersAt(s, i)
  {
    var after := GrantFront(s);
    assert s.waiters[..i] == [s.waiters[0]] + after.waiters[..i - 1];
    assert s.waiters[0] in s.waiters[..i];
    assert forall w :: w in after.waiters[..i - 1] ==> w in s.waiters[..i];
  }

  lemma GrantElsewhere(sys: System, k: Key, j: Key, i: nat)
    requires Grantable(At(sys, k)) && At(sys, k).waiters[0].txn in sys.txns && j != k
    requires i < |At(sys, j).waiters| && WaiterOk(sys, j, i) && WaiterOk(sys, k, 0)
    ensures At(GrantStep(sys, k), j) == At(sys, j) && WaiterOk(GrantStep(sys, k), j, i)
  {
    hide BlockersAt, RecordHeld;
  }

  lemma GrantBehind(sys: System, k: Key, i: nat)
    requires Grantable(At(sys, k)) && At(sys, k).waiters[0].txn in sys.txns && 0 < i < |At(sys, k).waiters|
    requires WaiterOk(sys, k, i) && At(sys, k).waiters[i].txn != At(sys, k).waiters[0].txn
    ensures At(GrantStep(sys, k), k) == GrantFront(At(sys, k)) && WaiterOk(GrantStep(sys, k), k, i - 1)
  {
    hide BlockersAt, RecordHeld;
    GrantBlockers(At(sys, k), i);
  }

  lemma GrantQueue(sys: System, k: Key, j: Key)
    requires Sound(sys) && Grantable(At(sys, k)) && At(sys, k).waiters[0].txn in sys.txns
    ensures QueueOk(GrantStep(sys, k), j)
  {
    hide WaiterOk, HeldMatches, WaitState, OwnersOk, GraphOk, RecordHeld;
    var s := At(sys, k);
    var after := GrantStep(sys, k);
    assert QueueOk(sys, j) && QueueOk(sys, k);
    assert WaiterOk(sys, k, 0);
    if j != k {
      assert At(after, j) == At(sys, j);
      forall i | 0 <= i < |At(after, j).waiters| ensures WaiterOk(after, j, i) {
        GrantElsewhere(sys, k, j, i);
      }
    } else {
      assert At(after, k) == GrantFront(s);
      forall i | 0 <= i < |GrantFront(s).waiters| ensures WaiterOk(after, k, i) {
        assert WaiterOk(sys, k, i + 1);
        GrantBehind(sys, k, i + 1);
      }
    }
  }

  lemma GrantWait(sys: System, k: Key, u: Txn)
    requires Sound(sys) && Grantable(At(sys, k)) && At(sys, k).waiters[0].txn in sys.txns && u in sys.txns
    ensures WaitState(GrantStep(sys, k), u)
  {
    var s := At(sys, k);
    var after := GrantStep(sys, k);
    assert QueueOk(sys, k);
    assert WaitState(sys, u) && WaiterOk(sys, k, 0);
    if u != s.waiters[0].txn && sys.txns[u].waitsFor.Some? {
      var j := sys.txns[u].waitsFor.value;
      assert InQueue(At(sys, j), u);
      if j == k {
        var i :| 0 <= i < |s.waiters| && s.waiters[i].txn == u;
        assert At(after, k).waiters[i - 1].txn == u;
      } else {
        assert At(after, j) == At(sys, j);
      }
    }
  }

  lemma GrantKeeps(sys: System, k: Key)
    requires Sound(sys) && Grantable(At(sys, k)) && At(sys, k).waiters[0].txn in sys.txns
    ensures Sound(GrantStep(sys, k))
  {
    hide HeldMatches, WaitState, QueueOk, Ranked, Consistent;
    var after := GrantStep(sys, k);
    var t := At(sys, k).waiters[0].txn;
    OperationsStayConsistent(sys.graph, t, {});
    RemovalsStayRanked(sys.graph, t);
    forall u | u in after.txns ensures HeldMatches(after, u) && WaitState(after, u) {
      GrantHeld(sys, k, u);
      GrantWait(sys, k, u);
    }
    forall j: Key ensures OwnersOk(after, j) && QueueOk(after, j) {
      GrantQueue(sys, k, j);
      assert OwnersOk(sys, j);
    }
  }

  lemma QueueKnown(sys: System, k: Key)
    requires Sound(sys)
    ensures WaitersKnown(sys, k)
  {
    assert QueueOk(sys, k);
    forall i | 0 <= i < |At(sys, k).waiters| ensures At(sys, k).waiters[i].txn in sys.txns {
      assert WaiterOk(sys, k, i);
    }
  }

  lemma {:induction false} SettleKeeps(sys: System, k: Key)
    requires Sound(sys) && WaitersKnown(sys, k)
    ensures Sound(Settle(sys, k))
    decreases |At(sys, k).waiters|
  {
    hide Sound;
    if Grantable(At(sys, k)) {
      GrantKeeps(sys, k);
      QueueKnown(GrantStep(sys, k), k);
      SettleKeeps(GrantStep(sys, k), k);
    }
  }

  // ---------------------------------------------------------------- the calls keep the table sound

  /** A change confined to the owners of k and to what transaction t holds. */
  ghost predicate OnlyOwnersMove(sys: System, after: System, t: Txn, k: Key) {
    && t in sys.txns && t in after.txns
    && after.graph == sys.graph
    && after.txns == sys.txns[t := after.txns[t]]
    && after.txns[t].waitsFor == sys.txns[t].waitsFor && after.txns[t].active == sys.txns[t].active
    && (forall j: Key :: j != k ==> At(after, j) == At(sys, j))
    && At(after, k).waiters == At(sys, k).waiters
  }

  lemma OwnersMoveWait(sys: System, after: System, t: Txn, k: Key, u: Txn)
    requires OnlyOwnersMove(sys, after, t, k) && u in sys.txns && WaitState(sys, u)
    ensures WaitState(after, u)
  {
    if sys.txns[u].waitsFor.Some? {
      var j := sys.txns[u].waitsFor.value;
      assert InQueue(At(sys, j), u);
      assert InQueue(At(after, j), u);
    }
  }

  lemma OwnersMoveQueue(sys: System, after: System, t: Txn, k: Key, j: Key)
    requires OnlyOwnersMove(sys, after, t, k) && QueueOk(sys, j)
    requires At(sys, k).waiters == []
             || (At(after, k).shared <= At(sys, k).shared
             && (At(after, k).exclusive.Some? ==> At(after, k) == At(sys, k)))
    ensures QueueOk(after, j)
  {
    forall i | 0 <= i < |At(after, j).waiters| ensures WaiterOk(after, j, i) {
      assert WaiterOk(sys, j, i);
      assert BlockersAt(At(after, j), i) <= BlockersAt(At(sys, j), i);
    }
  }

  /** What an immediate grant writes: nobody waits for k and no other transaction conflicts. */
  predicate Grabs(sys: System, t: Txn, k: Key, s: LockState, mode: Mode) {
    && t in sys.txns && At(sys, k).waiters == [] && At(sys, k).exclusive.None?
    && (mode == Shared ==> t !in At(sys, k).shared && s == At(sys, k).(shared := At(sys, k).shared + {t}))
    && (mode == Exclusive ==> At(sys, k).shared <= {t} && s == LockState({}, Some(t), []))
  }

  lemma GrabAt(sys: System, t: Txn, k: Key, s: LockState, mode: Mode)
    requires Grabs(sys, t, k, s, mode)
    ensures var after := Grabbed(sys, t, k, s, mode);
            At(after, k) == s && (forall j: Key :: j != k ==> At(after, j) == At(sys, j))
              && OnlyOwnersMove(sys, after, t, k)
  {
  }

  lemma GrabHeld(sys: System, t: Txn, k: Key, s: LockState, mode: Mode, u: Txn)
    requires Sound(sys) && Grabs(sys, t, k, s, mode) && u in sys.txns
    ensures HeldMatches(Grabbed(sys, t, k, s, mode), u)
  {
    hide GraphOk, WaitState, QueueOk, OwnersOk, RecordHeld;
    var after := Grabbed(sys, t, k, s, mode);
    assert HeldMatches(sys, t) && HeldMatches(sys, u);
    GrabAt(sys, t, k, s, mode);
    RecordMeaning(sys.txns[t].held, k, mode);
  }

  /** An immediate grant keeps the table sound: t's record gains the key together with the ownership. */
  lemma GrabKeeps(sys: System, t: Txn, k: Key, s: LockState, mode: Mode)
    requires Sound(sys) && Grabs(sys, t, k, s, mode)
    ensures Sound(Grabbed(sys, t, k, s, mode))
  {
    hide Ranked, Consistent, HeldMatches, WaitState, QueueOk, RecordHeld;
    var after := Grabbed(sys, t, k, s, mode);
    GrabAt(sys, t, k, s, mode);
    assert GraphOk(after);
    hide OnlyOwnersMove;
    forall u | u in after.txns ensures HeldMatches(after, u) && WaitState(after, u) {
      GrabHeld(sys, t, k, s, mode, u);
      OwnersMoveWait(sys, after, t, k, u);
    }
    forall j: Key ensures OwnersOk(after, j) && QueueOk(after, j) {
      assert OwnersOk(sys, j) && QueueOk(sys, j);
      OwnersMoveQueue(sys, after, t, k, j);
    }
  }

  /** Giving up the last recorded lock: the record loses it and the table loses the owner. */
  function Surrendered(sys: System, t: Txn): System
    requires t in sys.txns && sys.txns[t].held != []
  {
    var info := sys.txns[t];
    var last := info.held[|info.held| - 1];
    System(sys.locks[last.key := Dropped(At(sys, last.key), t, last.mode)], sys.graph,
           sys.txns[t := info.(held := info.held[..|info.held| - 1])])
  }

  lemma SurrenderHeld(sys: System, t: Txn, u: Txn)
    requires Sound(sys) && t in sys.txns && sys.txns[t].held != [] && u in sys.txns
    ensures HeldMatches(Surrendered(sys, t), u)
    ensures Owns(At(sys, sys.txns[t].held[|sys.txns[t].held| - 1].key), t,
            sys.txns[t].held[|sys.txns[t].held| - 1].mode)
  {
    hide GraphOk, WaitState, QueueOk;
    var held := sys.txns[t].held;
    var last := held[|held| - 1];
    assert HeldMatches(sys, t) && HeldMatches(sys, u) && OwnersOk(sys, last.key);
    LastHeldGoes(held);
    assert last in held;
    assert last == Held(last.key, last.mode);
    var after := Surrendered(sys, t);
    assert forall j: Key :: j != last.key ==> At(after, j) == At(sys, j);
    assert At(after, last.key) == Dropped(At(sys, last.key), t, last.mode);
  }

  lemma SurrenderKeeps(sys: System, t: Txn)
    requires Sound(sys) && t in sys.txns && sys.txns[t].held != []
    ensures Sound(Surrendered(sys, t))
  {
    hide HeldMatches, WaitState, QueueOk, Ranked, Consistent;
    var k := sys.txns[t].held[|sys.txns[t].held| - 1].key;
    var after := Surrendered(sys, t);
    SurrenderHeld(sys, t, t);
    assert OwnersOk(sys, k);
    assert OnlyOwnersMove(sys, after, t, k);
    forall u | u in after.txns ensures HeldMatches(after, u) && WaitState(after, u) {
      SurrenderHeld(sys, t, u);
      OwnersMoveWait(sys, after, t, k, u);
    }
    forall j: Key ensures OwnersOk(after, j) && QueueOk(after, j) {
      assert OwnersOk(sys, j) && QueueOk(sys, j);
      OwnersMoveQueue(sys, after, t, k, j);
    }
  }

  /** Only the lock states themselves matter, not which free keys have an entry. */
  lemma SameTable(sys: System, after: System)
    requires Sound(sys) && after.graph == sys.graph && after.txns == sys.txns
    requires forall j: Key :: At(after, j) == At(sys, j)
    ensures Sound(after)
  {
    hide Ranked, Consistent, BlockersAt;
    forall u | u in after.txns ensures HeldMatches(after, u) && WaitState(after, u) {
      assert HeldMatches(sys, u) && WaitState(sys, u);
    }
    forall j: Key ensures OwnersOk(after, j) && QueueOk(after, j) {
      assert OwnersOk(sys, j) && QueueOk(sys, j);
      forall i | 0 <= i < |At(after, j).waiters| ensures WaiterOk(after, j, i) {
        assert WaiterOk(sys, j, i);
      }
    }
  }

  lemma EnqueueKeeps(sys: System, t: Txn, k: Key, mode: Mode)
    requires Sound(sys) && Active(sys, t) && sys.txns[t].waitsFor.None?
    requires At(sys, k).exclusive != Some(t) && (mode == Shared ==> t !in At(sys, k).shared)
    ensures Sound(Enqueue(sys, t, k, mode).0)
  {
    hide Ranked, Consistent, Accepts, HeldMatches, WaitState, QueueOk, Blockers;
    var blockers := Blockers(At(sys, k), t, mode);
    var after := Enqueue(sys, t, k, mode).0;
    if after != sys {
      OperationsStayConsistent(sys.graph, t, blockers);
      AcceptedStaysRanked(sys.graph, t, blockers);
      assert GraphOk(after);
      forall u | u in after.txns ensures HeldMatches(after, u) && WaitState(after, u) {
        EnqueueHeld(sys, t, k, mode, u);
        EnqueueWait(sys, t, k, mode, u);
      }
      forall j: Key ensures OwnersOk(after, j) && QueueOk(after, j) {
        assert OwnersOk(sys, j);
        EnqueueQueue(sys, t, k, mode, j);
      }
    }
  }

  lemma EnqueueHeld(sys: System, t: Txn, k: Key, mode: Mode, u: Txn)
    requires Active(sys, t) && u in sys.txns && HeldMatches(sys, u)
    ensures HeldMatches(Enqueue(sys, t, k, mode).0, u)
  {
    hide Accepts, Blockers;
    var after := Enqueue(sys, t, k, mode).0;
    assert forall j: Key :: At(after, j).shared == At(sys, j).shared && At(after, j).exclusive == At(sys, j).exclusive;
  }

  lemma EnqueueWait(sys: System, t: Txn, k: Key, mode: Mode, u: Txn)
    requires Active(sys, t) && u in sys.txns && WaitState(sys, u)
    ensures WaitState(Enqueue(sys, t, k, mode).0, u)
  {
    var after := Enqueue(sys, t, k, mode).0;
    if after != sys {
      var s := At(sys, k);
      if u == t {
        assert At(after, k).waiters[|s.waiters|].txn == t;
        assert InQueue(At(after, k), t);
      } else if sys.txns[u].waitsFor.Some? {
        var j := sys.txns[u].waitsFor.value;
        assert InQueue(At(sys, j), u);
        var i :| 0 <= i < |At(sys, j).waiters| && At(sys, j).waiters[i].txn == u;
        assert At(after, j).waiters[i].txn == u;
        assert InQueue(At(after, j), u);
      }
    }
  }

  /** The system after a wait was registered. */
  function Queued(sys: System, t: Txn, k: Key, mode: Mode): System
    requires t in sys.txns && t in sys.graph.outgoing
  {
    var s := At(sys, k);
    System(sys.locks[k := s.(waiters := s.waiters + [Waiter(t, mode)])],
           WithEdges(sys.graph, t, Blockers(s, t, mode)),
           sys.txns[t := sys.txns[t].(waitsFor := Some(k))])
  }

  lemma QueuedAlready(sys: System, t: Txn, k: Key, mode: Mode, j: Key, i: nat)
    requires t in sys.txns && t in sys.graph.outgoing && i < |At(sys, j).waiters| && WaiterOk(sys, j, i)
    requires At(sys, j).waiters[i].txn != t
    ensures i < |At(Queued(sys, t, k, mode), j).waiters| && WaiterOk(Queued(sys, t, k, mode), j, i)
  {
    hide Blockers;
    var after := Queued(sys, t, k, mode);
    assert At(after, j).waiters[..i] == At(sys, j).waiters[..i];
    var a, b := At(after, j).(waiters := At(after, j).waiters[..i]), At(sys, j).(waiters := At(sys, j).waiters[..i]);
    assert a == b;
  }

  lemma QueuedLast(sys: System, t: Txn, k: Key, mode: Mode)
    requires t in sys.txns && t in sys.graph.outgoing
    requires At(sys, k).exclusive != Some(t) && (mode == Shared ==> t !in At(sys, k).shared)
    ensures var n := |At(sys, k).waiters|;
            n < |At(Queued(sys, t, k, mode), k).waiters| && WaiterOk(Queued(sys, t, k, mode), k, n)
  {
    hide Blockers;
    var after, s := Queued(sys, t, k, mode), At(sys, k);
    assert At(after, k).waiters[..|s.waiters|] == s.waiters;
    assert At(after, k).(waiters := s.waiters) == s;
  }

  lemma EnqueueQueue(sys: System, t: Txn, k: Key, mode: Mode, j: Key)
    requires Sound(sys) && Active(sys, t) && sys.txns[t].waitsFor.None?
    requires At(sys, k).exclusive != Some(t) && (mode == Shared ==> t !in At(sys, k).shared)
    ensures QueueOk(Enqueue(sys, t, k, mode).0, j)
  {
    hide Ranked, Consistent, HeldMatches, WaitState, WaiterOk, Blockers, Accepts, OwnersOk;
    var after := Enqueue(sys, t, k, mode).0;
    assert QueueOk(sys, j);
    if after != sys {
      assert after == Queued(sys, t, k, mode);
      forall i | 0 <= i < |At(sys, j).waiters| ensures At(sys, j).waiters[i].txn != t {
        NotWaiting(sys, t, j, i);
      }
      forall i | 0 <= i < |At(after, j).waiters| ensures WaiterOk(after, j, i) {
        if i < |At(sys, j).waiters| {
          QueuedAlready(sys, t, k, mode, j, i);
        } else {
          QueuedLast(sys, t, k, mode);
        }
      }
    }
  }

  lemma NotWaiting(sys: System, t: Txn, j: Key, i: nat)
    requires t in sys.txns && sys.txns[t].waitsFor.None? && i < |At(sys, j).waiters| && WaiterOk(sys, j, i)
    ensures At(sys, j).waiters[i].txn != t
  {
  }

  // ---------------------------------------------------------------- every action keeps the invariant

  lemma BeginHeld(sys: System, t: Txn, u: Txn)
    requires Sound(sys) && t !in sys.txns && (u == t || u in sys.txns)
    ensures HeldMatches(Next(sys, Begin(t)), u) && WaitState(Next(sys, Begin(t)), u)
  {
    hide Ranked, QueueOk;
    var after := Next(sys, Begin(t));
    assert forall j: Key :: At(after, j) == At(sys, j);
    if u == t {
      forall j: Key ensures t !in At(after, j).shared && At(after, j).exclusive != Some(t) {
        assert OwnersOk(sys, j);
      }
    } else {
      assert HeldMatches(sys, u) && WaitState(sys, u);
    }
  }

  lemma BeginQueue(sys: System, t: Txn, j: Key)
    requires Sound(sys) && t !in sys.txns
    ensures OwnersOk(Next(sys, Begin(t)), j) && QueueOk(Next(sys, Begin(t)), j)
  {
    hide Ranked, HeldMatches, WaitState, BlockersAt;
    var after := Next(sys, Begin(t));
    assert At(after, j) == At(sys, j);
    assert OwnersOk(sys, j) && QueueOk(sys, j);
    forall i | 0 <= i < |At(after, j).waiters| ensures WaiterOk(after, j, i) {
      assert WaiterOk(sys, j, i);
    }
  }

  lemma BeginKeeps(sys: System, t: Txn)
    requires Inv(sys)
    ensures Inv(Next(sys, Begin(t)))
  {
    hide Ranked, Consistent, HeldMatches, WaitState, QueueOk;
    var after := Next(sys, Begin(t));
    if after != sys {
      NewNodeStaysRanked(sys.graph, t);
      forall u | u in after.txns ensures HeldMatches(after, u) && WaitState(after, u) {
        BeginHeld(sys, t, u);
      }
      forall j: Key ensures OwnersOk(after, j) && QueueOk(after, j) && !Grantable(At(after, j)) {
        assert !Grantable(At(sys, j));
        BeginQueue(sys, t, j);
      }
    }
  }

  lemma FinishTxn(sys: System, t: Txn, u: Txn)
    requires t in sys.txns && sys.txns[t].waitsFor.None? && u in sys.txns && HeldMatches(sys, u) && WaitState(sys, u)
    ensures var after := sys.(txns := sys.txns[t := sys.txns[t].(active := false)]);
            HeldMatches(after, u) && WaitState(after, u)
  {
    hide DistinctKeys;
    var after := sys.(txns := sys.txns[t := sys.txns[t].(active := false)]);
    assert forall j: Key :: At(after, j) == At(sys, j);
  }

  lemma FinishQueue(sys: System, t: Txn, j: Key)
    requires t in sys.txns && OwnersOk(sys, j) && QueueOk(sys, j)
    ensures var after := sys.(txns := sys.txns[t := sys.txns[t].(active := false)]);
            At(after, j) == At(sys, j) && OwnersOk(after, j) && QueueOk(after, j)
  {
    hide BlockersAt;
    var after := sys.(txns := sys.txns[t := sys.txns[t].(active := false)]);
    assert At(after, j) == At(sys, j);
    forall i | 0 <= i < |At(after, j).waiters| ensures WaiterOk(after, j, i) {
      assert WaiterOk(sys, j, i);
    }
  }

  lemma FinishKeeps(sys: System, t: Txn)
    requires Inv(sys)
    ensures Inv(Next(sys, Finish(t)))
  {
    hide GraphOk, HeldMatches, WaitState, OwnersOk, QueueOk, Grantable;
    var after := Next(sys, Finish(t));
    if after != sys {
      assert GraphOk(after) by { assert GraphOk(sys); FinishGraph(sys, t); }
      forall u | u in after.txns ensures HeldMatches(after, u) && WaitState(after, u) {
        assert HeldMatches(sys, u) && WaitState(sys, u);
        FinishTxn(sys, t, u);
      }
      forall j: Key ensures OwnersOk(after, j) && QueueOk(after, j) && !Grantable(At(after, j)) {
        assert OwnersOk(sys, j) && QueueOk(sys, j) && !Grantable(At(sys, j));
        FinishQueue(sys, t, j);
      }
    }
  }

  lemma FinishGraph(sys: System, t: Txn)
    requires GraphOk(sys)
    ensures GraphOk(Next(sys, Finish(t)))
  {
    hide Ranked, Consistent;
  }

  lemma SettledElsewhere(sys: System, after: System, k: Key)
    requires Settled(sys) && !Grantable(At(after, k)) && (forall j: Key :: j != k ==> At(after, j) == At(sys, j))
    ensures Settled(after)
  {
    forall j: Key ensures !Grantable(At(after, j)) {
      assert !Grantable(At(sys, j));
    }
  }

  /** A queue that was blocked stays blocked when another waiter joins its end. */
  lemma JoinStaysBlocked(s: LockState, t: Txn, mode: Mode)
    requires !Grantable(s) && (s.waiters == [] ==> Blockers(s, t, mode) != {})
    ensures !Grantable(s.(waiters := s.waiters + [Waiter(t, mode)]))
  {
    var joined := s.waiters + [Waiter(t, mode)];
    if s.waiters != [] {
      assert joined[0] == s.waiters[0];
    } else {
      assert joined[0] == Waiter(t, mode);
    }
  }

  lemma LockKeeps(sys: System, t: Txn, k: Key, mode: Mode)
    requires Inv(sys)
    ensures Inv(Next(sys, Lock(t, k, mode)))
  {
    hide Sound, Enqueue, Accepts;
    var after := Next(sys, Lock(t, k, mode));
    if after != sys {
      var s := At(sys, k);
      assert !Grantable(s);
      if mode == Shared && s.exclusive.None? && s.waiters == [] {
        GrabKeeps(sys, t, k, s.(shared := s.shared + {t}), Shared);
        SettledElsewhere(sys, after, k);
      } else if mode == Exclusive && s.shared <= {t} && s.exclusive.None? && s.waiters == [] {
        GrabKeeps(sys, t, k, LockState({}, Some(t), []), Exclusive);
        SettledElsewhere(sys, after, k);
      } else {
        EnqueueKeeps(sys, t, k, mode);
        EnqueueAt(sys, t, k, mode);
        JoinStaysBlocked(s, t, mode);
        SettledElsewhere(sys, after, k);
      }
    }
  }

  lemma EnqueueAt(sys: System, t: Txn, k: Key, mode: Mode)
    ensures var after := Enqueue(sys, t, k, mode).0;
            && (forall j: Key :: j != k ==> At(after, j) == At(sys, j))
            && (At(after, k) == At(sys, k)
                  || At(after, k) == At(sys, k).(waiters := At(sys, k).waiters + [Waiter(t, mode)]))
  {
    hide Accepts, Blockers;
  }

  /** The release loop's step: the unlock succeeds and hands the lock to the front of the queue. */
  lemma ReleaseMeaning(sys: System, t: Txn)
    requires Sound(sys) && t in sys.txns && sys.txns[t].held != []
    ensures var k := sys.txns[t].held[|sys.txns[t].held| - 1].key;
            && WaitersKnown(sys, k) && WaitersKnown(Surrendered(sys, t), k)
            && ReleaseLast(sys, t) == (Tidy(Settle(Surrendered(sys, t), k), k), Success)
  {
    hide Sound, Settle;
    var k := sys.txns[t].held[|sys.txns[t].held| - 1].key;
    SurrenderHeld(sys, t, t);
    SurrenderKeeps(sys, t);
    QueueKnown(sys, k);
    QueueKnown(Surrendered(sys, t), k);
  }

  lemma ReleaseKeeps(sys: System, t: Txn)
    requires Inv(sys) && t in sys.txns && sys.txns[t].held != []
    ensures WaitersKnown(sys, sys.txns[t].held[|sys.txns[t].held| - 1].key)
    ensures Inv(ReleaseLast(sys, t).0)
  {
    hide Sound, Settle;
    var k := sys.txns[t].held[|sys.txns[t].held| - 1].key;
    ReleaseMeaning(sys, t);
    var dropped := Surrendered(sys, t);
    SurrenderKeeps(sys, t);
    SettleKeeps(dropped, k);
    var settled := Settle(dropped, k);
    SettleGrantsAll(dropped, k);
    GrantsInOrder(At(dropped, k));
    var after := Tidy(settled, k);
    assert forall j: Key :: At(after, j) == At(settled, j);
    SameTable(settled, after);
    SettledElsewhere(sys, after, k);
  }

  /** A transaction that holds nothing and does not wait blocks nobody. */
  lemma IdleBlocksNobody(sys: System, t: Txn, j: Key, i: nat)
    requires Sound(sys) && t in sys.txns && sys.txns[t].held == [] && sys.txns[t].waitsFor.None?
    requires i < |At(sys, j).waiters|
    ensures t !in BlockersAt(At(sys, j), i) && At(sys, j).waiters[i].txn != t
  {
    hide GraphOk, WaitState;
    assert HeldMatches(sys, t) && QueueOk(sys, j);
    assert t !in At(sys, j).shared && At(sys, j).exclusive != Some(t) by {
      assert Held(j, Shared) !in sys.txns[t].held && Held(j, Exclusive) !in sys.txns[t].held;
    }
    forall x | 0 <= x < |At(sys, j).waiters| ensures At(sys, j).waiters[x].txn != t {
      assert WaiterOk(sys, j, x);
    }
  }

  lemma EndQueue(sys: System, t: Txn, j: Key)
    requires Sound(sys) && Next(sys, End(t)) != sys
    ensures OwnersOk(Next(sys, End(t)), j) && QueueOk(Next(sys, End(t)), j)
  {
    hide Ranked, Consistent, Blockers, HeldMatches, WaitState;
    var after := Next(sys, End(t));
    assert OwnersOk(sys, j) && QueueOk(sys, j) && At(after, j) == At(sys, j);
    EndGraph(sys, t);
    EndOwners(sys, t, j);
    forall i | 0 <= i < |At(after, j).waiters| ensures WaiterOk(after, j, i) {
      assert WaiterOk(sys, j, i);
      IdleBlocksNobody(sys, t, j, i);
    }
  }

  lemma EndHeld(sys: System, t: Txn, u: Txn)
    requires Sound(sys) && Next(sys, End(t)) != sys && u in sys.txns && u != t
    ensures HeldMatches(Next(sys, End(t)), u) && WaitState(Next(sys, End(t)), u)
  {
    hide Ranked, Consistent, QueueOk;
    var after := Next(sys, End(t));
    EndGraph(sys, t);
    assert forall j: Key :: At(after, j) == At(sys, j);
    assert HeldMatches(sys, u) && WaitState(sys, u);
  }

  lemma EndKeeps(sys: System, t: Txn)
    requires Inv(sys)
    ensures Inv(Next(sys, End(t)))
  {
    hide Ranked, Consistent, HeldMatches, WaitState, QueueOk, OwnersOk;
    var after := Next(sys, End(t));
    if after != sys {
      OperationsStayConsistent(sys.graph, t, {});
      RemovalsStayRanked(sys.graph, t);
      EndGraph(sys, t);
      forall u | u in after.txns ensures HeldMatches(after, u) && WaitState(after, u) {
        EndHeld(sys, t, u);
      }
      forall j: Key ensures OwnersOk(after, j) && QueueOk(after, j) && !Grantable(At(after, j)) {
        assert !Grantable(At(sys, j));
        EndQueue(sys, t, j);
      }
    }
  }

  lemma EndGraph(sys: System, t: Txn)
    requires GraphOk(sys) && t in sys.txns
    ensures var g := Without(sys.graph, t);
            && g.outgoing.Keys == sys.txns.Keys - {t}
            && (forall u :: u in g.outgoing ==> g.outgoing[u] == sys.graph.outgoing[u] - {t})
  {
  }

  lemma EndOwners(sys: System, t: Txn, j: Key)
    requires Sound(sys) && t in sys.txns && sys.txns[t].held == []
    ensures t !in At(sys, j).shared && At(sys, j).exclusive != Some(t)
  {
    assert HeldMatches(sys, t);
    assert Held(j, Shared) !in sys.txns[t].held && Held(j, Exclusive) !in sys.txns[t].held;
  }

  lemma StepKeeps(sys: System, a: Action)
    requires Inv(sys)
    ensures Inv(Next(sys, a))
  {
    hide Inv, LockCall, Without;
    match a
    case Begin(t) => BeginKeeps(sys, t);
    case Lock(t, k, mode) => LockKeeps(sys, t, k, mode);
    case Finish(t) => FinishKeeps(sys, t);
    case Release(t) =>
      if t in sys.txns && sys.txns[t].held != [] { ReleaseKeeps(sys, t); }
    case End(t) => EndKeeps(sys, t);
  }

  lemma {:induction false} RunInv(actions: seq<Action>)
    ensures Inv(Run(actions))
  {
    if actions == [] {
      assert RankedBy(EMPTY, map[]);
    } else {
      RunInv(actions[..|actions| - 1]);
      StepKeeps(Run(actions[..|actions| - 1]), actions[|actions| - 1]);
    }
  }

  // ---------------------------------------------------------------- what holds in every run

  ghost predicate QueuedAt(sys: System, t: Txn, k: Key, i: nat) {
    i < |At(sys, k).waiters| && At(sys, k).waiters[i].txn == t
  }

  ghost predicate Waits(sys: System, t: Txn) {
    exists k: Key, i: nat :: QueuedAt(sys, t, k, i)
  }

  /** t is queued behind u, or u owns a conflicting lock on the key t is queued for. */
  ghost predicate BlockedBy(sys: System, t: Txn, u: Txn) {
    exists k: Key, i: nat :: QueuedAt(sys, t, k, i) && u in BlockersAt(At(sys, k), i)
  }

  /** The true blockers of every waiter, across all keys, are edges of the graph. */
  lemma BlockersAreEdges(actions: seq<Action>, t: Txn, u: Txn)
    requires BlockedBy(Run(actions), t, u)
    ensures Edge(Run(actions).graph, t, u)
  {
    hide Run, Ranked, Consistent;
    var sys := Run(actions);
    RunInv(actions);
    var k: Key, i: nat :| QueuedAt(sys, t, k, i) && u in BlockersAt(At(sys, k), i);
    assert QueueOk(sys, k);
    assert WaiterOk(sys, k, i);
  }

  lemma {:induction false} LowestOf(rank: map<Txn, nat>, d: set<Txn>) returns (low: Txn)
    requires d != {} && d <= rank.Keys
    ensures low in d && (forall u :: u in d ==> rank[low] <= rank[u])
    decreases d
  {
    low :| low in d;
    if d != {low} {
      var rest := LowestOf(rank, d - {low});
      if rank[rest] < rank[low] { low := rest; }
    }
  }

  /** No set of transactions is mutually stuck: some member has no blocker inside the set. */
  lemma DeadlockFree(actions: seq<Action>, d: set<Txn>) returns (free: Txn)
    requires d != {}
    ensures free in d && (forall u :: BlockedBy(Run(actions), free, u) ==> u !in d)
  {
    hide Run, BlockedBy, Consistent;
    var g := Run(actions).graph;
    RunInv(actions);
    var rank :| RankedBy(g, rank);
    if d <= rank.Keys {
      free := LowestOf(rank, d);
    } else {
      free :| free in d && free !in rank;
    }
    forall u | BlockedBy(Run(actions), free, u) ensures u !in d {
      BlockersAreEdges(actions, free, u);
    }
  }

  /** Nobody waits without cause: every waiter has a blocker, and every blocker is a live transaction. */
  lemma WaitsForSomeone(actions: seq<Action>, t: Txn) returns (u: Txn)
    requires Waits(Run(actions), t)
    ensures BlockedBy(Run(actions), t, u)
  {
    hide Run, Sound;
    var sys := Run(actions);
    RunInv(actions);
    var k: Key, i: nat :| QueuedAt(sys, t, k, i);
    var s := At(sys, k);
    assert !Grantable(s);
    if s.exclusive.Some? {
      u := s.exclusive.value;
    } else if i == 0 {
      assert !(s.shared <= {t});
      u :| u in s.shared && u != t;
    } else {
      u := s.waiters[0].txn;
      assert s.waiters[..i][0] == s.waiters[0];
    }
    assert u in BlockersAt(s, i);
  }

  lemma WaiterIsLive(sys: System, t: Txn)
    requires Sound(sys)
    ensures Waits(sys, t) ==> t in sys.txns && sys.txns[t].active && sys.txns[t].waitsFor.Some?
    ensures t in sys.txns && sys.txns[t].waitsFor.Some? ==> Waits(sys, t)
  {
    hide GraphOk, HeldMatches;
    if Waits(sys, t) {
      var k: Key, i: nat :| QueuedAt(sys, t, k, i);
      assert QueueOk(sys, k);
      assert WaiterOk(sys, k, i) && WaitState(sys, t);
    }
    if t in sys.txns && sys.txns[t].waitsFor.Some? {
      assert WaitState(sys, t);
      var k := sys.txns[t].waitsFor.value;
      assert InQueue(At(sys, k), t);
      var i :| 0 <= i < |At(sys, k).waiters| && At(sys, k).waiters[i].txn == t;
      assert QueuedAt(sys, t, k, i);
    }
  }

  /** While anyone waits, some transaction that blocks a waiter is itself running, so the system can move. */
  lemma SomeoneRuns(actions: seq<Action>, t: Txn) returns (w: Txn, u: Txn)
    requires Waits(Run(actions), t)
    ensures BlockedBy(Run(actions), w, u) && !Waits(Run(actions), u) && u in Run(actions).txns
  {
    hide Run, BlockedBy, BlockersAt, Ranked;
    var sys := Run(actions);
    RunInv(actions);
    var stuck := set x | x in sys.txns && sys.txns[x].waitsFor.Some?;
    WaiterIsLive(sys, t);
    assert t in stuck;
    w := DeadlockFree(actions, stuck);
    WaiterIsLive(sys, w);
    u := WaitsForSomeone(actions, w);
    BlockersAreEdges(actions, w, u);
    assert GraphOk(sys) && u in sys.graph.outgoing.Keys;
    WaiterIsLive(sys, u);
  }

  /** Lock safety: an exclusive owner is the only owner, and every owner is a transaction that knows it. */
  lemma LockSafe(actions: seq<Action>, k: Key, t: Txn, u: Txn, m: Mode)
    requires At(Run(actions), k).exclusive == Some(t) && Owns(At(Run(actions), k), u, m)
    ensures u == t && m == Exclusive && t in Run(actions).txns && Held(k, Exclusive) in Run(actions).txns[t].held
  {
    hide Run, GraphOk;
    RunInv(actions);
    assert OwnersOk(Run(actions), k);
    assert HeldMatches(Run(actions), t);
  }

  /** Releasing never fails, and a finished transaction can give up every lock it recorded. */
  lemma ReleaseSucceeds(actions: seq<Action>, t: Txn)
    requires t in Run(actions).txns && Run(actions).txns[t].held != []
    ensures WaitersKnown(Run(actions), Run(actions).txns[t].held[|Run(actions).txns[t].held| - 1].key)
    ensures ReleaseLast(Run(actions), t).1 == Success
  {
    hide Run, Sound;
    RunInv(actions);
    ReleaseMeaning(Run(actions), t);
  }

  /** After any action a queue has lost a prefix or gained one waiter at its end. */
  predicate QueueMoves(before: LockState, after: LockState, n: nat, a: Action, k: Key) {
    && n <= |before.waiters|
    && (|| after.waiters == before.waiters[n..]
        || (n == 0 && a.Lock? && a.key == k && after.waiters == before.waiters + [Waiter(a.txn, a.mode)]))
  }

  lemma {:induction false} GrantedOwners(s: LockState, u: Txn, m: Mode)
    requires Owns(GrantAll(s).0, u, m) && !Owns(s, u, m)
    ensures Waiter(u, m) in GrantAll(s).1
    decreases |s.waiters|
  {
    if Grantable(s) && !Owns(GrantFront(s), u, m) {
      GrantedOwners(GrantFront(s), u, m);
    }
  }

  /** No overtaking: ownership is gained either from the front of the queue, in order, or on an empty queue. */
  lemma NoOvertaking(actions: seq<Action>, a: Action, k: Key) returns (n: nat)
    ensures var before, after := At(Run(actions), k), At(Run(actions + [a]), k);
            && QueueMoves(before, after, n, a, k)
            && (forall u, m :: Owns(after, u, m) && !Owns(before, u, m) ==>
                  || Waiter(u, m) in before.waiters[..n]
                  || (before.waiters == [] && a == Lock(u, k, m)))
  {
    var sys := Run(actions);
    assert (actions + [a])[..|actions|] == actions;
    assert Run(actions + [a]) == Next(sys, a);
    RunInv(actions);
    n := NextInOrder(sys, a, k);
  }

  lemma NextInOrder(sys: System, a: Action, k: Key) returns (n: nat)
    requires Inv(sys)
    ensures var before, after := At(sys, k), At(Next(sys, a), k);
            && QueueMoves(before, after, n, a, k)
            && (forall u, m :: Owns(after, u, m) && !Owns(before, u, m) ==>
                  || Waiter(u, m) in before.waiters[..n]
                  || (before.waiters == [] && a == Lock(u, k, m)))
  {
    hide Sound, Enqueue, Settle, Without;
    n := 0;
    var before, after := At(sys, k), At(Next(sys, a), k);
    assert before.waiters[0..] == before.waiters;
    if a.Release? && Next(sys, a) != sys {
      var held := sys.txns[a.txn].held;
      var key := held[|held| - 1].key;
      ReleaseMeaning(sys, a.txn);
      SettleGrantsAll(Surrendered(sys, a.txn), key);
      if key != k {
        assert At(Settle(Surrendered(sys, a.txn), key), k) == At(Surrendered(sys, a.txn), k) == before;
      }
      if key == k {
        var dropped := At(Surrendered(sys, a.txn), k);
        assert after == GrantAll(dropped).0;
        GrantsInOrder(dropped);
        n := |GrantAll(dropped).1|;
        assert before.waiters[..n] == GrantAll(dropped).1;
        forall u, m | Owns(after, u, m) && !Owns(before, u, m) ensures Waiter(u, m) in before.waiters[..n] {
          GrantedOwners(dropped, u, m);
        }
      }
    } else if a.Lock? {
      EnqueueAt(sys, a.txn, a.key, a.mode);
      assert a.key != k ==> after == before;
    } else {
      assert after == before;
    }
  }
}
