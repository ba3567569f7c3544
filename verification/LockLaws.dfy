/** What a lock call answers, decided by who owns the key and who waits for it, in every reachable state. */
module LockLaws {
  import opened Options
  import opened WaitForGraphs
  import opened LockTables
  import opened LockSafety

  /** Transaction u owns the key in a mode that conflicts with the request, or has a conflicting request ahead of it. */
  ghost predicate Conflicts(s: LockState, t: Txn, mode: Mode, u: Txn) {
    || s.exclusive == Some(u)
    || (mode == Exclusive && u in s.shared && u != t)
    || (mode == Exclusive && exists i :: 0 <= i < |s.waiters| && s.waiters[i].txn == u)
    || (mode == Shared && exists i :: 0 <= i < |s.waiters| && s.waiters[i] == Waiter(u, Exclusive))
  }

  ghost predicate HoldsAlready(s: LockState, t: Txn, mode: Mode) {
    s.exclusive == Some(t) || (mode == Shared && t in s.shared)
  }

  /** The caller may ask: it is active and does not wait. */
  ghost predicate MayAsk(sys: System, t: Txn) {
    Active(sys, t) && sys.txns[t].waitsFor.None?
  }

  /** Everything but the caller's record and the key itself is as before. */
  ghost predicate OnlyHere(sys: System, after: System, t: Txn, k: Key) {
    && (forall j: Key :: j != k ==> At(after, j) == At(sys, j))
    && after.txns.Keys == sys.txns.Keys
    && (forall u :: u in sys.txns && u != t ==> after.txns[u] == sys.txns[u])
  }

  lemma BlockersAre(s: LockState, t: Txn, mode: Mode, u: Txn)
    ensures u in Blockers(s, t, mode) <==> Conflicts(s, t, mode, u)
  {
    if mode == Shared && u in (set w | w in s.waiters && (mode == Exclusive || w.mode == Exclusive) :: w.txn) {
      var w :| w in s.waiters && w.mode == Exclusive && w.txn == u;
      assert w == Waiter(u, Exclusive);
    }
  }

  /** Nobody conflicts exactly when the key is free for the request and nobody queues: a queue whose front is blocked
      conflicts with every newcomer. */
  lemma FreeIs(sys: System, t: Txn, k: Key, mode: Mode)
    requires Inv(sys) && MayAsk(sys, t) && !HoldsAlready(At(sys, k), t, mode)
    ensures var s := At(sys, k);
            (forall u :: !Conflicts(s, t, mode, u)) <==>
              s.waiters == [] && s.exclusive.None? && (mode == Exclusive ==> s.shared <= {t})
  {
    hide Sound;
    var s := At(sys, k);
    assert !Grantable(s);
    if s.exclusive.Some? {
      assert Conflicts(s, t, mode, s.exclusive.value);
    } else if s.waiters != [] {
      assert s.waiters[0] == Waiter(s.waiters[0].txn, s.waiters[0].mode);
      assert Conflicts(s, t, mode, s.waiters[0].txn);
    } else if mode == Exclusive && !(s.shared <= {t}) {
      var u :| u in s.shared && u != t;
      assert Conflicts(s, t, mode, u);
    }
  }

  lemma BlockersKnown(sys: System, t: Txn, k: Key, mode: Mode)
    requires Sound(sys)
    ensures Blockers(At(sys, k), t, mode) <= sys.txns.Keys
    ensures Consistent(sys.graph) && Ranked(sys.graph) && sys.graph.incoming.Keys == sys.txns.Keys
    ensures sys.graph.outgoing.Keys == sys.txns.Keys
  {
    hide Ranked, HeldMatches, WaitState;
    assert OwnersOk(sys, k) && QueueOk(sys, k);
    forall w | w in At(sys, k).waiters ensures w.txn in sys.txns {
      var i :| 0 <= i < |At(sys, k).waiters| && At(sys, k).waiters[i] == w;
      assert WaiterOk(sys, k, i);
    }
  }

  lemma NotQueued(sys: System, t: Txn, k: Key, i: nat)
    requires Sound(sys) && t in sys.txns && sys.txns[t].waitsFor.None? && i < |At(sys, k).waiters|
    ensures At(sys, k).waiters[i].txn != t
  {
    hide GraphOk, HeldMatches, WaitState, OwnersOk;
    assert QueueOk(sys, k) && WaiterOk(sys, k, i);
  }

  /** What a conflicting request gets: a place at the end of the queue, or a refusal if waiting would close a cycle. */
  lemma ConflictAnswer(sys: System, t: Txn, k: Key, mode: Mode, waits: set<Txn>)
    requires Inv(sys) && MayAsk(sys, t) && !HoldsAlready(At(sys, k), t, mode)
    requires forall u :: u in waits <==> Conflicts(At(sys, k), t, mode, u)
    requires waits != {}
    ensures t in sys.graph.outgoing
    ensures var (after, status) := LockCall(sys, t, k, mode);
            if Acyclic(WithEdges(sys.graph, t, waits))
            then && status == Waiting && OnlyHere(sys, after, t, k)
                 && At(after, k) == At(sys, k).(waiters := At(sys, k).waiters + [Waiter(t, mode)])
                 && after.txns[t] == sys.txns[t].(waitsFor := Some(k))
                 && after.graph == WithEdges(sys.graph, t, waits)
            else status == Deadlock && after == sys
  {
    hide Sound, Acyclic, Accepts, WithEdges, Conflicts, Blockers;
    var s := At(sys, k);
    forall u ensures u in waits <==> u in Blockers(s, t, mode) { BlockersAre(s, t, mode, u); }
    assert waits == Blockers(s, t, mode);
    BlockersKnown(sys, t, k, mode);
    AcceptsExactly(sys.graph, t, waits);
    var u :| u in waits;
    FreeIs(sys, t, k, mode);
  }

  /** In every run, for an active caller that does not wait: a lock it holds already is reported and nothing changes; a
      request that conflicts with nobody is granted at once; any other request joins the end of the queue, unless its
      wait would close a cycle, in which case it is refused and nothing changes. No other answer is ever given. */
  lemma AnswerLaw(actions: seq<Action>, t: Txn, k: Key, mode: Mode, waits: set<Txn>)
    requires MayAsk(Run(actions), t)
    requires forall u :: u in waits <==> Conflicts(At(Run(actions), k), t, mode, u)
    ensures t in Run(actions).graph.outgoing
    ensures var sys := Run(actions);
            var s := At(sys, k);
            var (after, status) := LockCall(sys, t, k, mode);
            && (HoldsAlready(s, t, mode) ==>
                  status == (if s.exclusive == Some(t) then HoldsExclusive else HoldsShared) && after == sys)
            && (!HoldsAlready(s, t, mode) && waits == {} ==>
                  && status == Success && OnlyHere(sys, after, t, k) && after.graph == sys.graph
                  && At(after, k) == (if mode == Shared then LockState(s.shared + {t}, None, [])
                                      else LockState({}, Some(t), []))
                  && after.txns[t].active && after.txns[t].waitsFor.None? && Held(k, mode) in after.txns[t].held)
            && (!HoldsAlready(s, t, mode) && waits != {} ==>
                  if Acyclic(WithEdges(sys.graph, t, waits))
                  then && status == Waiting && OnlyHere(sys, after, t, k)
                       && At(after, k) == s.(waiters := s.waiters + [Waiter(t, mode)])
                       && after.txns[t] == sys.txns[t].(waitsFor := Some(k))
                  else status == Deadlock && after == sys)
  {
    hide Run, Sound, Acyclic, WithEdges, Conflicts, Enqueue;
    var sys := Run(actions);
    var s := At(sys, k);
    RunInv(actions);
    BlockersKnown(sys, t, k, mode);
    if HoldsAlready(s, t, mode) {
      OneMode(sys, k);
    } else if waits == {} {
      FreeIs(sys, t, k, mode);
      GrantAnswer(sys, t, k, mode);
    } else {
      ConflictAnswer(sys, t, k, mode, waits);
    }
  }

  lemma OneMode(sys: System, k: Key)
    requires Sound(sys)
    ensures At(sys, k).exclusive.Some? ==> At(sys, k).shared == {}
  {
    hide GraphOk, HeldMatches, WaitState, QueueOk;
    assert OwnersOk(sys, k);
  }

  lemma GrantAnswer(sys: System, t: Txn, k: Key, mode: Mode)
    requires Inv(sys) && MayAsk(sys, t) && !HoldsAlready(At(sys, k), t, mode)
    requires var s := At(sys, k); s.waiters == [] && s.exclusive.None? && (mode == Exclusive ==> s.shared <= {t})
    ensures var s := At(sys, k);
            var (after, status) := LockCall(sys, t, k, mode);
            && status == Success && OnlyHere(sys, after, t, k) && after.graph == sys.graph
            && At(after, k) == (if mode == Shared then LockState(s.shared + {t}, None, [])
                                else LockState({}, Some(t), []))
            && after.txns[t].active && after.txns[t].waitsFor.None? && Held(k, mode) in after.txns[t].held
  {
    hide GraphOk, WaitState, QueueOk, OwnersOk, RecordHeld;
    assert HeldMatches(sys, t);
    RecordMeaning(sys.txns[t].held, k, mode);
  }

  /** The same read from the answer: what each status tells the caller, and that it tells it whenever it is so. */
  lemma StatusMeaning(actions: seq<Action>, t: Txn, k: Key, mode: Mode)
    requires MayAsk(Run(actions), t)
    ensures var sys := Run(actions);
            var (after, status) := LockCall(sys, t, k, mode);
            && (status == Success <==> Owns(At(after, k), t, mode) && !Owns(At(sys, k), t, mode))
            && (status == HoldsExclusive <==> At(sys, k).exclusive == Some(t))
            && (status == HoldsShared <==> mode == Shared && t in At(sys, k).shared)
            && (status == Waiting <==> exists i :: 0 <= i < |At(after, k).waiters| && At(after, k).waiters[i].txn == t)
            && (status == Waiting ==> At(after, k).waiters[|At(after, k).waiters| - 1] == Waiter(t, mode))
            && (status != Success && status != Waiting ==> after == sys)
            && status != NotFound && status != NotOwner
  {
    hide Run, Sound, Acyclic, WithEdges, Conflicts, LockCall, Blockers;
    var sys := Run(actions);
    RunInv(actions);
    var waits := Blockers(At(sys, k), t, mode);
    forall u ensures u in waits <==> Conflicts(At(sys, k), t, mode, u) { BlockersAre(At(sys, k), t, mode, u); }
    AnswerLaw(actions, t, k, mode, waits);
    OneMode(sys, k);
    forall i | 0 <= i < |At(sys, k).waiters| ensures At(sys, k).waiters[i].txn != t { NotQueued(sys, t, k, i); }
    var (after, status) := LockCall(sys, t, k, mode);
    if status == Waiting {
      var n := |At(sys, k).waiters|;
      assert At(after, k).waiters[n] == Waiter(t, mode);
    }
  }

  // ---------------------------------------------------------------- the end of a transaction

  lemma {:induction false} SettleSpares(sys: System, k: Key, t: Txn)
    requires WaitersKnown(sys, k) && t in sys.txns
    requires forall i :: 0 <= i < |At(sys, k).waiters| ==> At(sys, k).waiters[i].txn != t
    ensures t in Settle(sys, k).txns && Settle(sys, k).txns[t] == sys.txns[t]
    decreases |At(sys, k).waiters|
  {
    hide RecordHeld, WithoutOutgoing;
    if Grantable(At(sys, k)) {
      var next := GrantStep(sys, k);
      assert At(next, k) == GrantFront(At(sys, k));
      SettleSpares(next, k, t);
    }
  }

  /** One release takes exactly the last recorded lock off the list of a finished transaction. */
  lemma ReleaseShrinks(sys: System, t: Txn)
    requires Inv(sys) && t in sys.txns && sys.txns[t].waitsFor.None? && !sys.txns[t].active && sys.txns[t].held != []
    ensures var after := Next(sys, Release(t));
            && t in after.txns
            && after.txns[t] == sys.txns[t].(held := sys.txns[t].held[..|sys.txns[t].held| - 1])
  {
    hide Sound, Settle;
    var k := sys.txns[t].held[|sys.txns[t].held| - 1].key;
    ReleaseMeaning(sys, t);
    var dropped := Surrendered(sys, t);
    assert At(dropped, k).waiters == At(sys, k).waiters;
    forall i | 0 <= i < |At(sys, k).waiters| ensures At(sys, k).waiters[i].txn != t { NotQueued(sys, t, k, i); }
    SettleSpares(dropped, k, t);
  }

  function Releases(t: Txn, n: nat): seq<Action> {
    if n == 0 then [] else [Release(t)] + Releases(t, n - 1)
  }

  lemma RunMore(actions: seq<Action>, a: Action)
    ensures Run(actions + [a]) == Next(Run(actions), a)
  {
    assert (actions + [a])[..|actions|] == actions;
  }

  lemma {:induction false} AllReleased(actions: seq<Action>, t: Txn, n: nat)
    requires t in Run(actions).txns
    requires var info := Run(actions).txns[t]; !info.active && info.waitsFor.None? && |info.held| == n
    ensures t in Run(actions + Releases(t, n)).txns
    ensures Run(actions + Releases(t, n)).txns[t] == TxnInfo(false, [], None)
    decreases n
  {
    hide Run, Next, Inv;
    if n == 0 {
      assert actions + Releases(t, 0) == actions;
    } else {
      RunInv(actions);
      ReleaseShrinks(Run(actions), t);
      RunMore(actions, Release(t));
      assert actions + Releases(t, n) == (actions + [Release(t)]) + Releases(t, n - 1);
      AllReleased(actions + [Release(t)], t, n - 1);
    }
  }

  /** The transaction owns nothing, waits for nothing and is no node of the graph. */
  ghost predicate Traceless(sys: System, t: Txn) {
    && t !in sys.txns && t !in sys.graph.outgoing && t !in sys.graph.incoming
    && (forall k: Key :: t !in At(sys, k).shared && At(sys, k).exclusive != Some(t))
    && (forall k: Key, i: nat :: i < |At(sys, k).waiters| ==> At(sys, k).waiters[i].txn != t)
  }

  lemma UnknownIsTraceless(sys: System, t: Txn)
    requires Sound(sys) && t !in sys.txns
    ensures Traceless(sys, t)
  {
    hide Ranked, HeldMatches, WaitState;
    forall k: Key ensures t !in At(sys, k).shared && At(sys, k).exclusive != Some(t) { assert OwnersOk(sys, k); }
    forall k: Key, i: nat | i < |At(sys, k).waiters| ensures At(sys, k).waiters[i].txn != t {
      assert QueueOk(sys, k) && WaiterOk(sys, k, i);
    }
  }

  /** In every run a transaction that does not wait can finish, release its recorded locks one by one, and end; then
      nothing is left of it. */
  lemma EndsWithoutTrace(actions: seq<Action>, t: Txn)
    requires t in Run(actions).txns && Run(actions).txns[t].waitsFor.None?
    ensures var n := |Run(actions).txns[t].held|;
            Traceless(Run(actions + [Finish(t)] + Releases(t, n) + [End(t)]), t)
  {
    hide Run, Inv, Sound, Traceless, LockCall, ReleaseLast, Without;
    var n := |Run(actions).txns[t].held|;
    var finished := actions + [Finish(t)];
    RunMore(actions, Finish(t));
    AllReleased(finished, t, n);
    var released := finished + Releases(t, n);
    RunMore(released, End(t));
    var after := Run(released + [End(t)]);
    assert t !in after.txns;
    RunInv(released + [End(t)]);
    assert Sound(after) by { InvIsSound(after); }
    UnknownIsTraceless(after, t);
  }

  lemma InvIsSound(sys: System)
    requires Inv(sys)
    ensures Sound(sys)
  {
  }

  // ---------------------------------------------------------------- the table

  /** No entry for a key that nobody owns or waits for. */
  ghost predicate Tight(locks: map<Key, LockState>) {
    forall k :: k in locks ==> locks[k] != FREE
  }

  lemma {:induction false} SettleOnlyHere(sys: System, k: Key)
    requires WaitersKnown(sys, k)
    ensures forall j :: j != k ==> (j in Settle(sys, k).locks <==> j in sys.locks)
    ensures forall j :: j != k && j in sys.locks ==> Settle(sys, k).locks[j] == sys.locks[j]
    decreases |At(sys, k).waiters|
  {
    hide RecordHeld, WithoutOutgoing;
    if Grantable(At(sys, k)) {
      var next := GrantStep(sys, k);
      assert At(next, k) == GrantFront(At(sys, k));
      SettleOnlyHere(next, k);
    }
  }

  lemma NextIsTight(sys: System, a: Action)
    requires Inv(sys) && Tight(sys.locks)
    ensures Tight(Next(sys, a).locks)
  {
    hide Sound, Settle, Accepts, Blockers, WithEdges, Without, RecordHeld;
    if a.Release? && Next(sys, a) != sys {
      var held := sys.txns[a.txn].held;
      var k := held[|held| - 1].key;
      ReleaseMeaning(sys, a.txn);
      SettleOnlyHere(Surrendered(sys, a.txn), k);
    } else if a.Lock? {
      JoinedIsBusy(At(sys, a.key), a.txn, a.mode);
    }
  }

  lemma JoinedIsBusy(s: LockState, t: Txn, mode: Mode)
    ensures s.(waiters := s.waiters + [Waiter(t, mode)]) != FREE
  {
    assert |s.waiters + [Waiter(t, mode)]| > 0;
  }

  /** In every run the table has entries only for keys that somebody owns or waits for. */
  lemma {:induction false} TableIsTight(actions: seq<Action>)
    ensures Tight(Run(actions).locks)
  {
    hide Next, Inv;
    if actions != [] {
      TableIsTight(actions[..|actions| - 1]);
      RunInv(actions[..|actions| - 1]);
      NextIsTight(Run(actions[..|actions| - 1]), actions[|actions| - 1]);
    }
  }
}
