/** The imperative lock manager with its transaction table and wait-for graph, refining the lock-table functions. */
module LockManagers {
  import opened Options
  import opened WaitForGraphs
  import opened LockTables
  import LockSafety

  // ---------------------------------------------------------------- granting a batch

  /** Book-keeping for waiters already taken off the queue: the held-lock record, then the wait edges. */
  function Noted(sys: System, k: Key, granted: seq<Waiter>): System
    requires forall i :: 0 <= i < |granted| ==> granted[i].txn in sys.txns
    decreases |granted|
  {
    if granted == [] then sys
    else
      var w := granted[0];
      var info := sys.txns[w.txn];
      Noted(System(sys.locks, WithoutOutgoing(sys.graph, w.txn),
                   sys.txns[w.txn := info.(held := RecordHeld(info.held, k, w.mode), waitsFor := None)]),
            k, granted[1..])
  }

  lemma {:induction false} GrantedKnown(sys: System, k: Key)
    requires WaitersKnown(sys, k)
    ensures forall i :: 0 <= i < |GrantAll(At(sys, k)).1| ==> GrantAll(At(sys, k)).1[i].txn in sys.txns
  {
    var s := At(sys, k);
    GrantsInOrder(s);
    forall i | 0 <= i < |GrantAll(s).1| ensures GrantAll(s).1[i].txn in sys.txns {
      assert s.waiters[i] == GrantAll(s).1[i];
    }
  }

  /** Taking the whole grantable prefix first and recording it afterwards gives the same table as
      granting and recording one waiter at a time. */
  lemma {:induction false} BatchIsSettle(sys: System, k: Key)
    requires WaitersKnown(sys, k) && k in sys.locks
    ensures var (s, granted) := GrantAll(At(sys, k));
            && (forall i :: 0 <= i < |granted| ==> granted[i].txn in sys.txns)
            && Settle(sys, k) == Noted(sys.(locks := sys.locks[k := s]), k, granted)
    decreases |At(sys, k).waiters|
  {
    GrantedKnown(sys, k);
    var (s, granted) := GrantAll(At(sys, k));
    if Grantable(At(sys, k)) {
      var next := GrantStep(sys, k);
      BatchIsSettle(next, k);
      assert granted[1..] == GrantAll(At(next, k)).1;
      assert next.locks[k := s] == sys.locks[k := s];
    } else {
      assert sys.locks[k := s] == sys.locks;
    }
  }

  function WithHeld(sys: System, t: Txn, held: seq<Held>): System
    requires t in sys.txns
  {
    sys.(txns := sys.txns[t := sys.txns[t].(held := held)])
  }

  predicate NotQueued(s: LockState, t: Txn) {
    forall i :: 0 <= i < |s.waiters| ==> s.waiters[i].txn != t
  }

  /** Granting others neither reads nor changes what t holds. */
  lemma {:induction false} SettleIgnores(sys: System, t: Txn, held: seq<Held>, k: Key)
    requires t in sys.txns && WaitersKnown(sys, k) && NotQueued(At(sys, k), t)
    ensures WaitersKnown(WithHeld(sys, t, held), k)
    ensures t in Settle(sys, k).txns && Settle(sys, k).txns[t] == sys.txns[t]
    ensures Settle(WithHeld(sys, t, held), k) == WithHeld(Settle(sys, k), t, held)
    decreases |At(sys, k).waiters|
  {
    if Grantable(At(sys, k)) {
      var next := GrantStep(sys, k);
      var w := At(sys, k).waiters[0].txn;
      assert At(next, k).waiters == At(sys, k).waiters[1..];
      SettleIgnores(next, t, held, k);
      assert GrantStep(WithHeld(sys, t, held), k) == WithHeld(next, t, held) by {
        assert GrantStep(WithHeld(sys, t, held), k).txns == WithHeld(next, t, held).txns;
      }
    }
  }

  lemma UnlockIgnores(sys: System, t: Txn, held: seq<Held>, k: Key, mode: Mode)
    requires t in sys.txns && WaitersKnown(sys, k) && NotQueued(At(sys, k), t)
    ensures WaitersKnown(WithHeld(sys, t, held), k)
    ensures var plain, other := Unlock(sys, t, k, mode), Unlock(WithHeld(sys, t, held), t, k, mode);
            && t in plain.0.txns && plain.0.txns[t] == sys.txns[t]
            && other == (WithHeld(plain.0, t, held), plain.1)
  {
    var s := At(sys, k);
    if Owns(s, t, mode) {
      var dropped := sys.(locks := sys.locks[k := Dropped(s, t, mode)]);
      SettleIgnores(dropped, t, held, k);
    }
  }

  /** n releases in a row by transaction t. */
  ghost function Releases(sys: System, t: Txn, n: nat): System {
    if n == 0 then sys else LockSafety.Next(Releases(sys, t, n - 1), LockSafety.Release(t))
  }

  ghost predicate Finished(sys: System, t: Txn) {
    t in sys.txns && !sys.txns[t].active && sys.txns[t].waitsFor.None?
  }

  lemma FinishedNotQueued(sys: System, t: Txn, k: Key)
    requires LockSafety.Inv(sys) && Finished(sys, t)
    ensures NotQueued(At(sys, k), t) && WaitersKnown(sys, k)
  {
    LockSafety.QueueKnown(sys, k);
    assert LockSafety.QueueOk(sys, k);
    forall i | 0 <= i < |At(sys, k).waiters| ensures At(sys, k).waiters[i].txn != t {
      assert LockSafety.WaiterOk(sys, k, i);
    }
  }

  lemma WaitersActive(sys: System, k: Key)
    requires LockSafety.Inv(sys)
    ensures AllActive(sys, k)
  {
    assert LockSafety.QueueOk(sys, k);
    forall i | 0 <= i < |At(sys, k).waiters| ensures Active(sys, At(sys, k).waiters[i].txn) {
      assert LockSafety.WaiterOk(sys, k, i);
      assert LockSafety.WaitState(sys, At(sys, k).waiters[i].txn);
    }
  }

  predicate AllActive(sys: System, k: Key) {
    forall i :: 0 <= i < |At(sys, k).waiters| ==> Active(sys, At(sys, k).waiters[i].txn)
  }

  /** One round of the release loop, seen with the record list cut at i + 1 and at i. */
  lemma ReleaseRound(sys: System, t: Txn, list: seq<Held>, i: nat)
    requires Finished(sys, t) && i < |list| && sys.txns[t].held == list
    requires LockSafety.Inv(WithHeld(sys, t, list[..i + 1]))
    ensures WaitersKnown(sys, list[i].key) && AllActive(sys, list[i].key)
    ensures var out := Unlock(sys, t, list[i].key, list[i].mode);
            && out.1 == Success
            && Finished(out.0, t) && out.0.txns[t].held == list
            && WithHeld(out.0, t, list[..i]) == LockSafety.Next(WithHeld(sys, t, list[..i + 1]), LockSafety.Release(t))
            && LockSafety.Inv(WithHeld(out.0, t, list[..i]))
  {
    hide LockSafety.Inv, Unlock, Settle;
    var k := list[i].key;
    var cut := WithHeld(sys, t, list[..i + 1]);
    assert At(cut, k) == At(sys, k);
    FinishedNotQueued(cut, t, k);
    WaitersActive(cut, k);
    assert list[..i + 1][..i] == list[..i];
    UnlockIgnores(sys, t, list[..i], k, list[i].mode);
    ReleaseIsUnlock(cut, t, sys, list[..i]);
    LockSafety.StepKeeps(cut, LockSafety.Release(t));
  }

  lemma ReleaseIsUnlock(cut: System, t: Txn, sys: System, rest: seq<Held>)
    requires LockSafety.Inv(cut) && Finished(cut, t) && cut.txns[t].held != [] && t in sys.txns
    requires rest == cut.txns[t].held[..|cut.txns[t].held| - 1] && WithHeld(cut, t, rest) == WithHeld(sys, t, rest)
    ensures var last := cut.txns[t].held[|cut.txns[t].held| - 1];
            && WaitersKnown(WithHeld(sys, t, rest), last.key)
            && Unlock(WithHeld(sys, t, rest), t, last.key, last.mode).1 == Success
            && LockSafety.Next(cut, LockSafety.Release(t)) == Unlock(WithHeld(sys, t, rest), t, last.key, last.mode).0
  {
    hide Unlock, Settle, LockSafety.Sound;
    var last := cut.txns[t].held[|cut.txns[t].held| - 1];
    LockSafety.ReleaseMeaning(cut, t);
    LockSafety.QueueKnown(cut, last.key);
    assert At(WithHeld(cut, t, rest), last.key) == At(cut, last.key);
  }

  // ---------------------------------------------------------------- the class

  class LockManager {
    var locks: map<Key, LockState>
    var txns: map<Txn, TxnInfo>
    const graph: WaitForGraph

    function View(): System
      reads this, graph
    {
      System(locks, graph.View(), txns)
    }

    constructor ()
      ensures View() == LockSafety.INITIAL && fresh(graph)
    {
      locks, txns := map[], map[];
      graph := new WaitForGraph();
    }

    method Begin(t: Txn)
      requires t !in txns && graph.View().outgoing.Keys == txns.Keys
      modifies this, graph
      ensures View() == LockSafety.Next(old(View()), LockSafety.Begin(t))
    {
      graph.AddNode(t);
      txns := txns[t := TxnInfo(true, [], None)];
    }

    static method FindHeld(held: seq<Held>, k: Key) returns (i: nat)
      ensures i <= |held| && (i < |held| ==> held[i].key == k)
      ensures forall j :: 0 <= j < i ==> held[j].key != k
    {
      i := 0;
      while i < |held| && held[i].key != k
        invariant i <= |held| && (forall j :: 0 <= j < i ==> held[j].key != k)
      {
        i := i + 1;
      }
    }

    /** Keeps only the strongest mode per key. */
    method RecordLock(t: Txn, k: Key, mode: Mode) returns (ok: bool)
      modifies this`txns
      ensures ok <==> Active(old(View()), t)
      ensures txns == if ok then old(txns)[t := old(txns)[t].(held := RecordHeld(old(txns)[t].held, k, mode))]
              else old(txns)
    {
      if t !in txns || !txns[t].active { return false; }
      var held := txns[t].held;
      var i := FindHeld(held, k);
      RecordAt(held, k, mode, i);
      if i < |held| {
        if mode == Exclusive { txns := txns[t := txns[t].(held := held[i := Held(k, Exclusive)])]; }
        assert mode == Shared ==> txns == txns[t := txns[t].(held := held)];
        return true;
      }
      txns := txns[t := txns[t].(held := held + [Held(k, mode)])];
      return true;
    }

    /** All blockers must be known before the graph is asked, so its refusal means a cycle. */
    method RegisterWait(t: Txn, blockers: seq<Txn>) returns (status: Status)
      requires Consistent(graph.View())
      modifies graph
      ensures status == if !Active(View(), t) || !(Elems(blockers) <= txns.Keys) then NotFound
                        else if !Accepts(old(graph.View()), t, Elems(blockers)) then Deadlock else Waiting
      ensures graph.View() == if status == Waiting then WithEdges(old(graph.View()), t, Elems(blockers))
              else old(graph.View())
    {
      if t !in txns || !txns[t].active { return NotFound; }
      for i := 0 to |blockers|
        invariant forall j :: 0 <= j < i ==> blockers[j] in txns
      {
        if blockers[i] !in txns { assert blockers[i] in Elems(blockers); return NotFound; }
      }
      var ok := graph.AddEdges(t, blockers);
      return if ok then Waiting else Deadlock;
    }

    static method ListOwners(owners: set<Txn>, t: Txn, start: seq<Txn>) returns (list: seq<Txn>)
      ensures Elems(list) == Elems(start) + (owners - {t})
    {
      hide Elems;
      list := start;
      var rest := owners;
      while rest != {}
        invariant rest <= owners && Elems(list) == Elems(start) + ((owners - rest) - {t})
        decreases rest
      {
        var owner :| owner in rest;
        rest := rest - {owner};
        ElemsPlus(list, owner);
        if owner != t { list := list + [owner]; }
      }
    }

    static method ListQueue(waiters: seq<Waiter>, mode: Mode, start: seq<Txn>) returns (list: seq<Txn>)
      ensures Elems(list) == Elems(start) + Ahead(waiters, mode)
    {
      hide Elems, Ahead;
      list := start;
      NobodyAhead(mode);
      for i := 0 to |waiters|
        invariant Elems(list) == Elems(start) + Ahead(waiters[..i], mode)
      {
        AheadPlus(waiters, i, mode);
        ElemsPlus(list, waiters[i].txn);
        if mode == Exclusive || waiters[i].mode == Exclusive { list := list + [waiters[i].txn]; }
      }
      assert waiters[..|waiters|] == waiters;
    }

    /** The owners and queued requests that a new request of this mode must wait for. */
    static method ListBlockers(s: LockState, t: Txn, mode: Mode) returns (blockers: seq<Txn>)
      ensures Elems(blockers) == Blockers(s, t, mode)
    {
      blockers := if s.exclusive.Some? then [s.exclusive.value] else [];
      if mode == Exclusive { blockers := ListOwners(s.shared, t, blockers); }
      blockers := ListQueue(s.waiters, mode, blockers);
    }

    /** The waiter joins the queue first and leaves it again when its wait cannot be registered. */
    method Wait(t: Txn, k: Key, mode: Mode) returns (status: Status)
      requires Consistent(graph.View()) && k in locks
      modifies this, graph
      ensures (View(), status) == Enqueue(old(View()), t, k, mode)
    {
      var s := locks[k];
      var blockers := ListBlockers(s, t, mode);
      locks := locks[k := s.(waiters := s.waiters + [Waiter(t, mode)])];
      status := RegisterWait(t, blockers);
      if status != Waiting {
        locks := locks[k := locks[k].(waiters := locks[k].waiters[..|locks[k].waiters| - 1])];
        assert locks == old(locks);
        return;
      }
      txns := txns[t := txns[t].(waitsFor := Some(k))];
    }

    method LockForRead(t: Txn, k: Key) returns (status: Status)
      requires Consistent(graph.View())
      modifies this, graph
      ensures (View(), status) == LockShared(old(View()), t, k)
    {
      hide Accepts, Blockers, Enqueue;
      var s := if k in locks then locks[k] else FREE;
      if t in s.shared { return HoldsShared; }
      if s.exclusive == Some(t) { return HoldsExclusive; }
      if s.exclusive.None? && s.waiters == [] {
        locks := locks[k := s.(shared := s.shared + {t})];
        var ok := RecordLock(t, k, Shared);
        if !ok {
          assert locks - {k} == old(locks) - {k};
          locks := locks - {k};
          return NotFound;
        }
        return Success;
      }
      status := Wait(t, k, Shared);
    }

    method LockForWrite(t: Txn, k: Key) returns (status: Status)
      requires Consistent(graph.View())
      modifies this, graph
      ensures (View(), status) == LockExclusive(old(View()), t, k)
    {
      hide Accepts, Blockers, Enqueue;
      var s := if k in locks then locks[k] else FREE;
      if s.exclusive == Some(t) { return HoldsExclusive; }
      var promotion := t in s.shared;
      SingleOwner(s.shared, t);
      if (s.shared == {} || (promotion && |s.shared| == 1)) && s.exclusive.None? && s.waiters == [] {
        assert s.shared - {t} == {};
        locks := locks[k := LockState(s.shared - {t}, Some(t), s.waiters)];
        var ok := RecordLock(t, k, Exclusive);
        if !ok {
          if promotion {
            assert locks[k].shared + {t} == s.shared;
            locks := locks[k := LockState(locks[k].shared + {t}, None, locks[k].waiters)];
            assert locks[k] == s;
            assert locks == old(locks);
          } else {
            assert locks - {k} == old(locks) - {k};
            locks := locks - {k};
          }
          return NotFound;
        }
        return Success;
      }
      status := Wait(t, k, Exclusive);
    }

    /** Pops waiters from the front of the queue until it is blocked. */
    static method PopGranted(s: LockState) returns (state: LockState, granted: seq<Waiter>)
      ensures (state, granted) == GrantAll(s)
    {
      state, granted := s, [];
      if s.exclusive.Some? || s.waiters == [] { return; }
      assert [] + GrantAll(s).1 == GrantAll(s).1;
      while state.waiters != []
        invariant state.exclusive.None?
        invariant GrantAll(s) == (GrantAll(state).0, granted + GrantAll(state).1)
        decreases |state.waiters|
      {
        var waiter := state.waiters[0];
        SingleOwner(state.shared, waiter.txn);
        ghost var was := state;
        if waiter.mode == Exclusive {
          var onlyRequester := |state.shared| == 1 && waiter.txn in state.shared;
          if state.shared == {} || onlyRequester {
            var shared := if onlyRequester then state.shared - {waiter.txn} else state.shared;
            state := LockState(shared, Some(waiter.txn), state.waiters[1..]);
            granted := granted + [waiter];
            assert GrantAll(was).1 == [waiter];
            assert state == GrantFront(was) && GrantAll(state) == (state, []);
            return;
          }
          break;
        }
        state := state.(shared := state.shared + {waiter.txn}, waiters := state.waiters[1..]);
        assert state == GrantFront(was);
        assert granted + GrantAll(was).1 == (granted + [waiter]) + GrantAll(state).1;
        granted := granted + [waiter];
      }
      assert GrantAll(state) == (state, []) && granted + [] == granted;
    }

    /** Every waiter is still active, so recording succeeds and no round is retried. */
    method GrantWaiters(k: Key)
      requires k in locks && WaitersKnown(View(), k) && AllActive(View(), k) && Consistent(graph.View())
      modifies this, graph
      ensures View() == Settle(old(View()), k) && Consistent(graph.View())
    {
      hide Settle, Consistent, WithoutOutgoing, RecordHeld, GrantAll;
      BatchIsSettle(View(), k);
      GrantsInOrder(locks[k]);
      var state, granted := PopGranted(locks[k]);
      locks := locks[k := state];
      assert forall i :: 0 <= i < |granted| ==> granted[i] == old(locks[k]).waiters[i];
      for i := 0 to |granted|
        invariant locks == old(locks)[k := state] && Consistent(graph.View())
        invariant forall j :: 0 <= j < |granted| ==> granted[j].txn in txns && txns[granted[j].txn].active
        invariant Settle(old(View()), k) == Noted(View(), k, granted[i..])
      {
        var w := granted[i];
        ghost var info := txns[w.txn];
        ghost var was := txns;
        var ok := RecordLock(w.txn, k, w.mode);
        OperationsStayConsistent(graph.View(), w.txn, {});
        graph.RemoveOutgoing(w.txn);
        assert ok;
        txns := txns[w.txn := txns[w.txn].(waitsFor := None)];
        assert txns == was[w.txn := info.(held := RecordHeld(info.held, k, w.mode), waitsFor := None)];
        assert granted[i..][0] == w && granted[i..][1..] == granted[i + 1..];
      }
    }

    method Release(t: Txn, k: Key, mode: Mode) returns (status: Status)
      requires WaitersKnown(View(), k) && AllActive(View(), k) && Consistent(graph.View())
      modifies this, graph
      ensures (View(), status) == Unlock(old(View()), t, k, mode)
      ensures Consistent(graph.View())
    {
      hide Settle, Consistent;
      if k !in locks { return NotOwner; }
      var s := locks[k];
      if !Owns(s, t, mode) { return NotOwner; }
      locks := locks[k := Dropped(s, t, mode)];
      assert At(View(), k).waiters == s.waiters;
      assert forall i :: 0 <= i < |s.waiters| ==> At(old(View()), k).waiters[i] == s.waiters[i];
      GrantWaiters(k);
      if k in locks && locks[k].exclusive.None? && locks[k].waiters == [] && locks[k].shared == {} {
        locks := locks - {k};
      } else {
        assert k !in locks ==> locks - {k} == locks;
      }
      return Success;
    }

    /** Gives up every recorded lock in reverse order of acquisition; the record list is cleared at the end. */
    method ReleaseLocks(t: Txn) returns (ok: bool)
      requires LockSafety.Inv(View()) && Finished(View(), t)
      modifies this, graph
      ensures ok && LockSafety.Inv(View())
      ensures View() == Releases(old(View()), t, |old(txns[t].held)|)
      ensures t in txns && txns[t].held == []
    {
      hide LockSafety.Inv, Unlock;
      var list := txns[t].held;
      var i := |list|;
      assert list[..i] == list;
      assert WithHeld(View(), t, list) == View();
      assert Consistent(graph.View()) by { ConsistentOf(View()); }
      while i > 0
        invariant 0 <= i <= |list|
        invariant Finished(View(), t) && txns[t].held == list && Consistent(graph.View())
        invariant WithHeld(View(), t, list[..i]) == Releases(old(View()), t, |list| - i)
        invariant LockSafety.Inv(WithHeld(View(), t, list[..i]))
      {
        i := i - 1;
        ReleaseRound(View(), t, list, i);
        var status := Release(t, list[i].key, list[i].mode);
        if status != Success { return false; }
      }
      txns := txns[t := txns[t].(held := [])];
      assert list[..0] == [];
      return true;
    }

    method End(t: Txn)
      requires Consistent(graph.View())
      requires Finished(View(), t) && txns[t].held == []
      modifies this, graph
      ensures View() == LockSafety.Next(old(View()), LockSafety.End(t))
    {
      graph.Remove(t);
      txns := map u | u in txns && u != t :: txns[u];
    }
  }

  lemma ElemsPlus(s: seq<Txn>, t: Txn)
    ensures Elems(s + [t]) == Elems(s) + {t}
  {
  }

  function Ahead(waiters: seq<Waiter>, mode: Mode): set<Txn> {
    set w | w in waiters && (mode == Exclusive || w.mode == Exclusive) :: w.txn
  }

  lemma NobodyAhead(mode: Mode)
    ensures Ahead([], mode) == {}
  {
  }

  lemma AheadPlus(waiters: seq<Waiter>, i: nat, mode: Mode)
    requires i < |waiters|
    ensures Ahead(waiters[..i + 1], mode) == Ahead(waiters[..i], mode) +
              if mode == Exclusive || waiters[i].mode == Exclusive then {waiters[i].txn} else {}
  {
    var more := waiters[..i + 1];
    assert more == waiters[..i] + [waiters[i]];
    assert forall w :: w in more <==> w in waiters[..i] || w == waiters[i];
  }

  lemma ConsistentOf(sys: System)
    requires LockSafety.Inv(sys)
    ensures Consistent(sys.graph)
  {
  }

  lemma SingleOwner(owners: set<Txn>, t: Txn)
    ensures (owners == {} || (t in owners && |owners| == 1)) <==> owners <= {t}
  {
    if t in owners && |owners| == 1 {
      assert |owners - {t}| == 0;
      assert owners - {t} == {};
    }
    if owners <= {t} && owners != {} { assert owners == {t}; }
  }

  lemma {:induction false} RecordAt(held: seq<Held>, k: Key, mode: Mode, i: nat)
    requires i <= |held| && (i < |held| ==> held[i].key == k) && (forall j :: 0 <= j < i ==> held[j].key != k)
    ensures i < |held| ==>
            RecordHeld(held, k, mode) == if mode == Exclusive then held[i := Held(k, Exclusive)] else held
    ensures i == |held| ==> RecordHeld(held, k, mode) == held + [Held(k, mode)]
  {
    if held != [] {
      assert held == [held[0]] + held[1..];
      if i > 0 {
        RecordAt(held[1..], k, mode, i - 1);
        assert held[0].key != k;
      }
    }
  }
}
