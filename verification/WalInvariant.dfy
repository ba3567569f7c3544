/** What every legally written log satisfies, after every prefix. */
module WalInvariant {
  import opened Sequences
  import opened Options
  import opened Wal

  // ---------------------------------------------------------------- the invariant

  /** The walk from the last record recovers exactly the actions that are still to be undone. */
  ghost predicate ChainOk(log: seq<Record>, t: Txn, o: Open) {
    && Walkable(log, t, o.last) && Chain(log, t, o.last) == o.stack
    && (forall x :: x in o.stack ==> x.before.None? ==> x.after.Some?)
  }

  ghost predicate Separate(sc: Scanned) {
    forall t, u :: t in sc.open && u in sc.open && t != u ==> Keys(sc.open[t].stack) !! Keys(sc.open[u].stack)
  }

  ghost predicate Undoable(sc: Scanned) {
    forall t :: t in sc.open ==> Matches(sc.open[t].stack, sc.store)
  }

  predicate Owned(sc: Scanned, k: Bytes) {
    exists t :: t in sc.open && k in Keys(sc.open[t].stack)
  }

  /** Undoing the owner's stack brings a key back to its committed value; unowned keys already have it. */
  ghost predicate Restores(sc: Scanned, committed: Store) {
    && (forall t, k :: t in sc.open && k in Keys(sc.open[t].stack) ==>
          Get(RollBack(sc.open[t].stack, sc.store), k) == Get(committed, k))
    && (forall k :: !Owned(sc, k) ==> Get(sc.store, k) == Get(committed, k))
  }

  /** Position i holds an action on k that no later action on k follows. */
  predicate LatestOn(log: seq<Record>, i: int, k: Bytes) {
    && 0 <= i < |log| && log[i].Action? && log[i].key == k
    && (forall j :: i < j < |log| && log[j].Action? ==> log[j].key != k)
  }

  /** A transaction that may still commit: its stack is all it wrote, and it wrote last on each of its keys. */
  ghost predicate Complete(log: seq<Record>, sc: Scanned, t: Txn)
    requires t in sc.open
  {
    && (forall i :: 0 <= i < |log| && log[i].Action? && log[i].txn == t ==> log[i].key in Keys(sc.open[t].stack))
    && (forall k :: k in Keys(sc.open[t].stack) ==>
          exists i :: LatestOn(log, i, k) && log[i].txn == t && log[i].after == Get(sc.store, k))
  }

  ghost predicate Known(log: seq<Record>, sc: Scanned) {
    && sc.open.Keys <= sc.seen
    && (forall i :: 0 <= i < |log| ==> log[i].txn in sc.seen)
    && sc.open.Keys !! CommittedIn(log)
  }

  ghost predicate Inv(log: seq<Record>) {
    var sc := Scan(log);
    && (forall t :: t in sc.open ==> ChainOk(log, t, sc.open[t]))
    && Separate(sc) && Undoable(sc) && Restores(sc, CommittedStore(log))
    && (forall t :: t in sc.open && !sc.open[t].aborting ==> Complete(log, sc, t))
    && Known(log, sc)
  }

  // ---------------------------------------------------------------- each record keeps it

  lemma ChainKept(log: seq<Record>, r: Record, t: Txn, o: Open)
    requires ChainOk(log, t, o)
    ensures ChainOk(log + [r], t, o)
  {
    WalkStable(log, t, o.last, r);
  }

  lemma CommittedGrows(log: seq<Record>, r: Record)
    ensures CommittedIn(log + [r]) == CommittedIn(log) + if r.Commit? then {r.txn} else {}
  {
    var more := log + [r];
    forall t | t in CommittedIn(log) ensures t in CommittedIn(more) {
      var i :| 0 <= i < |log| && log[i].Commit? && log[i].txn == t;
      assert more[i] == log[i];
    }
    if r.Commit? { assert more[|log|] == r; }
  }

  lemma ReplayAppend(log: seq<Record>, r: Record, txns: set<Txn>)
    ensures Replay(log + [r], txns) == if r.Action? && r.txn in txns then Set(Replay(log, txns), r.key, r.after)
            else Replay(log, txns)
  {
    assert Front(log + [r]) == log;
  }

  /** Only a Commit record changes the committed store. */
  lemma CommittedSame(log: seq<Record>, r: Record)
    requires Known(log, Scan(log)) && Legal(Scan(log), r) && !r.Commit?
    ensures CommittedStore(log + [r]) == CommittedStore(log)
  {
    CommittedGrows(log, r);
    assert CommittedIn(log + [r]) == CommittedIn(log);
    ReplayAppend(log, r, CommittedIn(log));
    assert r.Action? ==> r.txn in Scan(log).open.Keys;
  }

  lemma KnownKept(log: seq<Record>, r: Record)
    requires Known(log, Scan(log)) && Legal(Scan(log), r)
    ensures Known(log + [r], Scan(log + [r]))
  {
    Appended(log, r);
    CommittedGrows(log, r);
    var sc, next := Scan(log), Scan(log + [r]);
    assert r.txn in next.seen;
  }

  lemma KeysSnoc(stack: seq<Item>, x: Item)
    ensures Keys(stack + [x]) == Keys(stack) + {x.key}
  {
    KeysFront(stack + [x]);
    assert Front(stack + [x]) == stack;
  }

  /** t writes v to k; nobody else has k on its stack, and t's stack follows the change. */
  ghost predicate Mutates(sc: Scanned, next: Scanned, t: Txn, k: Bytes, v: Option<Bytes>) {
    && t in sc.open && next.open.Keys == sc.open.Keys && next.store == Set(sc.store, k, v)
    && (forall u :: u in sc.open && u != t ==> next.open[u].stack == sc.open[u].stack && k !in Keys(sc.open[u].stack))
    && Keys(sc.open[t].stack) + {k} == Keys(next.open[t].stack) + {k}
    && RollBack(next.open[t].stack, next.store) == RollBack(sc.open[t].stack, sc.store)
    && Matches(next.open[t].stack, next.store)
  }

  lemma MutationSeparate(sc: Scanned, next: Scanned, t: Txn, k: Bytes, v: Option<Bytes>)
    requires Mutates(sc, next, t, k, v) && Separate(sc) && Undoable(sc)
    ensures Separate(next) && Undoable(next)
  {
    forall u, w | u in next.open && w in next.open && u != w
      ensures Keys(next.open[u].stack) !! Keys(next.open[w].stack)
    {
      assert Keys(sc.open[u].stack) !! Keys(sc.open[w].stack);
    }
    forall u | u in next.open && u != t ensures Matches(next.open[u].stack, next.store) {
      MatchesFrame(sc.open[u].stack, sc.store, next.store);
    }
  }

  /** For t and any key that nobody else owns, undoing t's stack gives the committed value. */
  lemma OwnerRestores(sc: Scanned, committed: Store, t: Txn, j: Bytes)
    requires t in sc.open && Restores(sc, committed) && (j in Keys(sc.open[t].stack) || !Owned(sc, j))
    ensures Get(RollBack(sc.open[t].stack, sc.store), j) == Get(committed, j)
  {
    if j !in Keys(sc.open[t].stack) { UndoElsewhere(sc.open[t].stack, sc.store, j); }
  }

  lemma OwnedBy(sc: Scanned, next: Scanned, t: Txn, k: Bytes, v: Option<Bytes>, j: Bytes)
    requires Mutates(sc, next, t, k, v)
    ensures Owned(sc, j) ==> j in Keys(sc.open[t].stack) || (j != k && Owned(next, j))
    ensures Owned(next, j) && !Owned(sc, j) ==> j == k
    ensures Owned(sc, j) && !Owned(next, j) ==> j == k
  {
    if Owned(sc, j) {
      var u :| u in sc.open && j in Keys(sc.open[u].stack);
      assert u != t ==> j in Keys(next.open[u].stack);
      assert u == t && j != k ==> j in Keys(next.open[t].stack);
    }
    if Owned(next, j) {
      var u :| u in next.open && j in Keys(next.open[u].stack);
      assert u != t ==> j in Keys(sc.open[u].stack);
      assert u == t && j != k ==> j in Keys(sc.open[t].stack);
    }
  }

  lemma MutationRestores(sc: Scanned, next: Scanned, t: Txn, k: Bytes, v: Option<Bytes>, committed: Store)
    requires Mutates(sc, next, t, k, v) && Restores(sc, committed)
    ensures Restores(next, committed)
  {
    OwnedBy(sc, next, t, k, v, k);
    OwnerRestores(sc, committed, t, k);
    forall u, j | u in next.open && j in Keys(next.open[u].stack)
      ensures Get(RollBack(next.open[u].stack, next.store), j) == Get(committed, j)
    {
      if u != t {
        UndoFrame(sc.open[u].stack, next.store, sc.store, j);
      } else if j != k {
        OwnerRestores(sc, committed, t, j);
      }
    }
    forall j | !Owned(next, j) ensures Get(next.store, j) == Get(committed, j) {
      OwnedBy(sc, next, t, k, v, j);
      if j == k {
        assert k !in Keys(next.open[t].stack);
        UndoElsewhere(next.open[t].stack, next.store, k);
      }
    }
  }

  // ---- actions

  lemma SetBack(store: Store, k: Bytes, v: Option<Bytes>)
    ensures Set(Set(store, k, v), k, Get(store, k)) == store
  {
  }

  lemma ActionChains(log: seq<Record>, r: Record, u: Txn)
    requires Inv(log) && r.Action? && Legal(Scan(log), r) && u in Scan(log + [r]).open
    ensures ChainOk(log + [r], u, Scan(log + [r]).open[u])
  {
    Appended(log, r);
    var sc, more := Scan(log), log + [r];
    if u != r.txn {
      ChainKept(log, r, u, sc.open[u]);
    } else {
      var o := sc.open[u];
      assert ChainOk(log, u, o);
      WalkStable(log, u, o.last, r);
      assert more[|log|] == r && Next(more, |more|) == o.last;
      assert Chain(more, u, |more|) == o.stack + [ItemAt(more, |more|)];
    }
  }

  lemma ActionMutates(log: seq<Record>, r: Record)
    requires Inv(log) && r.Action? && Legal(Scan(log), r)
    ensures Mutates(Scan(log), Scan(log + [r]), r.txn, r.key, r.after)
  {
    hide WellFormed, Walkable, CommittedStore, Complete, ChainOk, Restores, Known, Separate, Set, Get, Keys;
    Appended(log, r);
    var sc, next := Scan(log), Scan(log + [r]);
    assert Matches(sc.open[r.txn].stack, sc.store);
    var x := Item(|log| + 1, r.prev, r.key, r.before, r.after);
    var was, now := sc.open[r.txn].stack, sc.open[r.txn].stack + [x];
    KeysSnoc(was, x);
    assert Front(now) == was && Last(now) == x;
    SetBack(sc.store, r.key, r.after);
    SetGets(sc.store, r.key, r.after);
    assert RollBack(now, next.store) == RollBack(was, sc.store);
  }

  lemma SetGets(store: Store, k: Bytes, v: Option<Bytes>)
    ensures Get(Set(store, k, v), k) == v
  {
  }

  lemma ActionStacks(log: seq<Record>, r: Record)
    requires Inv(log) && r.Action? && Legal(Scan(log), r)
    ensures Separate(Scan(log + [r])) && Undoable(Scan(log + [r]))
    ensures Restores(Scan(log + [r]), CommittedStore(log + [r]))
  {
    hide Scan, ChainOk, Complete, CommittedStore, Separate, Undoable, Restores, Mutates;
    CommittedSame(log, r);
    ActionMutates(log, r);
    MutationSeparate(Scan(log), Scan(log + [r]), r.txn, r.key, r.after);
    MutationRestores(Scan(log), Scan(log + [r]), r.txn, r.key, r.after, CommittedStore(log));
  }

  lemma LatestKept(log: seq<Record>, r: Record, i: int, k: Bytes)
    requires LatestOn(log, i, k) && !(r.Action? && r.key == k)
    ensures LatestOn(log + [r], i, k)
  {
    var more := log + [r];
    forall j | i < j < |more| && more[j].Action? ensures more[j].key != k {
      if j < |log| { assert more[j] == log[j]; }
    }
  }

  /** The stack and the store at u's keys are as before, and no action on them was added. */
  lemma CompleteKept(log: seq<Record>, r: Record, u: Txn)
    requires u in Scan(log).open && Complete(log, Scan(log), u)
    requires u in Scan(log + [r]).open && Scan(log + [r]).open[u].stack == Scan(log).open[u].stack
    requires r.Action? ==> r.txn != u && r.key !in Keys(Scan(log).open[u].stack)
    requires forall k :: k in Keys(Scan(log).open[u].stack) ==> Get(Scan(log + [r]).store, k) == Get(Scan(log).store, k)
    ensures Complete(log + [r], Scan(log + [r]), u)
  {
    hide Scan;
    var more := log + [r];
    var keys := Keys(Scan(log).open[u].stack);
    forall i | 0 <= i < |more| && more[i].Action? && more[i].txn == u ensures more[i].key in keys {
      assert i < |log|;
      assert more[i] == log[i];
    }
    forall k | k in keys
      ensures exists i :: LatestOn(more, i, k) && more[i].txn == u && more[i].after == Get(Scan(more).store, k)
    {
      var i :| LatestOn(log, i, k) && log[i].txn == u && log[i].after == Get(Scan(log).store, k);
      LatestKept(log, r, i, k);
      assert more[i] == log[i];
    }
  }

  lemma ActionComplete(log: seq<Record>, r: Record, u: Txn)
    requires Inv(log) && r.Action? && Legal(Scan(log), r) && u in Scan(log + [r]).open
    requires !Scan(log + [r]).open[u].aborting
    ensures Complete(log + [r], Scan(log + [r]), u)
  {
    hide WellFormed, Walkable, CommittedStore, Restores, Separate, Undoable;
    Appended(log, r);
    var sc, next, more := Scan(log), Scan(log + [r]), log + [r];
    assert Complete(log, sc, u);
    if u != r.txn {
      CompleteKept(log, r, u);
    } else {
      var x := Item(|log| + 1, r.prev, r.key, r.before, r.after);
      KeysSnoc(sc.open[u].stack, x);
      forall i | 0 <= i < |more| && more[i].Action? && more[i].txn == u
        ensures more[i].key in Keys(next.open[u].stack)
      {
        if i < |log| { assert more[i] == log[i]; }
      }
      forall k | k in Keys(next.open[u].stack)
        ensures exists i :: LatestOn(more, i, k) && more[i].txn == u && more[i].after == Get(next.store, k)
      {
        if k == r.key {
          assert more[|log|] == r && LatestOn(more, |log|, k);
        } else {
          var i :| LatestOn(log, i, k) && log[i].txn == u && log[i].after == Get(sc.store, k);
          LatestKept(log, r, i, k);
          assert more[i] == log[i];
        }
      }
    }
  }

  lemma ActionKeeps(log: seq<Record>, r: Record)
    requires Inv(log) && r.Action? && Legal(Scan(log), r)
    ensures Inv(log + [r])
  {
    hide Scan, ChainOk, Separate, Undoable, Restores, Complete, Known, Legal;
    KnownKept(log, r);
    ActionStacks(log, r);
    forall u | u in Scan(log + [r]).open ensures ChainOk(log + [r], u, Scan(log + [r]).open[u]) {
      ActionChains(log, r, u);
    }
    forall u | u in Scan(log + [r]).open && !Scan(log + [r]).open[u].aborting
      ensures Complete(log + [r], Scan(log + [r]), u)
    {
      ActionComplete(log, r, u);
    }
  }

  // ---- compensations

  lemma CompensationChains(log: seq<Record>, r: Record, u: Txn)
    requires Inv(log) && r.Compensation? && Legal(Scan(log), r) && u in Scan(log + [r]).open
    ensures ChainOk(log + [r], u, Scan(log + [r]).open[u])
  {
    Appended(log, r);
    var sc, more := Scan(log), log + [r];
    if u != r.txn {
      ChainKept(log, r, u, sc.open[u]);
    } else {
      var o := sc.open[u];
      assert ChainOk(log, u, o);
      ChainTop(log, u, o.last);
      WalkStable(log, u, r.undoNext, r);
      assert more[|log|] == r && Next(more, |more|) == r.undoNext;
      assert Chain(more, u, |more|) == Front(o.stack) + [];
      assert forall x :: x in Front(o.stack) ==> x in o.stack;
    }
  }

  lemma CompensationMutates(log: seq<Record>, r: Record)
    requires Inv(log) && r.Compensation? && Legal(Scan(log), r)
    ensures Mutates(Scan(log), Scan(log + [r]), r.txn, r.key, r.restored)
  {
    hide WellFormed, Walkable, CommittedStore, Complete, ChainOk, Restores, Known;
    Appended(log, r);
    var sc := Scan(log);
    var was := sc.open[r.txn].stack;
    KeysFront(was);
    assert Matches(was, sc.store);
    forall u | u in sc.open && u != r.txn ensures r.key !in Keys(sc.open[u].stack) {
      assert Keys(was) !! Keys(sc.open[u].stack);
    }
  }

  lemma CompensationStacks(log: seq<Record>, r: Record)
    requires Inv(log) && r.Compensation? && Legal(Scan(log), r)
    ensures Separate(Scan(log + [r])) && Undoable(Scan(log + [r]))
    ensures Restores(Scan(log + [r]), CommittedStore(log + [r]))
  {
    hide Scan, ChainOk, Complete, CommittedStore, Separate, Undoable, Restores, Mutates;
    CommittedSame(log, r);
    CompensationMutates(log, r);
    MutationSeparate(Scan(log), Scan(log + [r]), r.txn, r.key, r.restored);
    MutationRestores(Scan(log), Scan(log + [r]), r.txn, r.key, r.restored, CommittedStore(log));
  }

  lemma CompensationKeeps(log: seq<Record>, r: Record)
    requires Inv(log) && r.Compensation? && Legal(Scan(log), r)
    ensures Inv(log + [r])
  {
    hide Scan, ChainOk, Separate, Undoable, Restores, Complete, Known, Legal;
    KnownKept(log, r);
    CompensationStacks(log, r);
    forall u | u in Scan(log + [r]).open ensures ChainOk(log + [r], u, Scan(log + [r]).open[u]) {
      CompensationChains(log, r, u);
    }
    forall u | u in Scan(log + [r]).open && !Scan(log + [r]).open[u].aborting
      ensures Complete(log + [r], Scan(log + [r]), u)
    {
      CompensationComplete(log, r, u);
    }
  }

  lemma CompensationComplete(log: seq<Record>, r: Record, u: Txn)
    requires Inv(log) && r.Compensation? && Legal(Scan(log), r) && u in Scan(log + [r]).open
    requires !Scan(log + [r]).open[u].aborting
    ensures Complete(log + [r], Scan(log + [r]), u)
  {
    hide WellFormed, Walkable, CommittedStore, Restores, Undoable;
    Appended(log, r);
    var sc := Scan(log);
    assert u != r.txn;
    KeysFront(sc.open[r.txn].stack);
    assert Keys(sc.open[r.txn].stack) !! Keys(sc.open[u].stack);
    CompleteKept(log, r, u);
  }

  // ---- decisions

  lemma DecisionChains(log: seq<Record>, r: Record, u: Txn)
    requires Inv(log) && !r.Action? && !r.Compensation? && Legal(Scan(log), r) && u in Scan(log + [r]).open
    ensures ChainOk(log + [r], u, Scan(log + [r]).open[u])
  {
    Appended(log, r);
    var sc, more := Scan(log), log + [r];
    if r.Begin? && u == r.txn {
      assert more[|log|] == r;
    } else {
      ChainKept(log, r, u, sc.open[u]);
    }
  }

  lemma DecisionComplete(log: seq<Record>, r: Record, u: Txn)
    requires Inv(log) && !r.Action? && !r.Compensation? && Legal(Scan(log), r)
    requires u in Scan(log + [r]).open && !Scan(log + [r]).open[u].aborting
    ensures Complete(log + [r], Scan(log + [r]), u)
  {
    hide WellFormed, Walkable, CommittedStore, Restores, Separate, Undoable;
    Appended(log, r);
    var sc, more := Scan(log), log + [r];
    if r.Begin? && u == r.txn {
      forall i | 0 <= i < |more| && more[i].Action? ensures more[i].txn != u {
        assert i < |log| && more[i] == log[i];
      }
    } else {
      CompleteKept(log, r, u);
    }
  }

  /** The store is untouched, stacks stay as they are, and only empty ones come or go. */
  ghost predicate StacksSame(sc: Scanned, next: Scanned) {
    && next.store == sc.store
    && (forall u :: u in next.open ==> next.open[u].stack == if u in sc.open then sc.open[u].stack else [])
    && (forall u :: u in sc.open && u !in next.open ==> sc.open[u].stack == [])
  }

  lemma SameStacks(sc: Scanned, next: Scanned, committed: Store)
    requires StacksSame(sc, next) && Separate(sc) && Undoable(sc) && Restores(sc, committed)
    ensures Separate(next) && Undoable(next) && Restores(next, committed)
  {
    assert Keys([]) == {};
    forall j | !Owned(next, j) ensures !Owned(sc, j) {
      forall u | u in sc.open ensures j !in Keys(sc.open[u].stack) {
        assert u in next.open ==> j !in Keys(next.open[u].stack);
      }
    }
  }

  lemma QuietStacks(log: seq<Record>, r: Record)
    requires Inv(log) && (r.Begin? || r.Abort? || r.End?) && Legal(Scan(log), r)
    ensures Separate(Scan(log + [r])) && Undoable(Scan(log + [r]))
    ensures Restores(Scan(log + [r]), CommittedStore(log + [r]))
  {
    hide WellFormed, CommittedStore, Complete, ChainOk, Separate, Undoable, Restores, CommittedIn;
    Appended(log, r);
    CommittedSame(log, r);
    var sc, next := Scan(log), Scan(log + [r]);
    assert StacksSame(sc, next) by { assert r.Begin? ==> r.txn !in sc.open.Keys; }
    SameStacks(sc, next, CommittedStore(log));
  }

  /** At a key the committing transaction wrote, its last write becomes the committed value. */
  lemma CommitOwn(log: seq<Record>, r: Record, k: Bytes)
    requires Inv(log) && r.Commit? && Legal(Scan(log), r) && k in Keys(Scan(log).open[r.txn].stack)
    ensures Get(CommittedStore(log + [r]), k) == Get(Scan(log).store, k)
  {
    hide WellFormed, Walkable, Restores, Separate, Undoable, ChainOk, Known;
    var sc := Scan(log);
    CommittedGrows(log, r);
    ReplayAppend(log, r, CommittedIn(log + [r]));
    assert Complete(log, sc, r.txn);
    var i :| LatestOn(log, i, k) && log[i].txn == r.txn && log[i].after == Get(sc.store, k);
    ReplayLast(log, CommittedIn(log + [r]), k, i);
  }

  lemma CommitOther(log: seq<Record>, r: Record, k: Bytes)
    requires Inv(log) && r.Commit? && Legal(Scan(log), r) && k !in Keys(Scan(log).open[r.txn].stack)
    ensures Get(CommittedStore(log + [r]), k) == Get(CommittedStore(log), k)
  {
    hide WellFormed, Walkable, Restores, Separate, Undoable, ChainOk;
    var sc := Scan(log);
    CommittedGrows(log, r);
    ReplayAppend(log, r, CommittedIn(log + [r]));
    assert Complete(log, sc, r.txn);
    ReplaySame(log, CommittedIn(log), CommittedIn(log + [r]), k);
  }

  lemma CommitStacks(log: seq<Record>, r: Record)
    requires Inv(log) && r.Commit? && Legal(Scan(log), r)
    ensures Separate(Scan(log + [r])) && Undoable(Scan(log + [r]))
    ensures Restores(Scan(log + [r]), CommittedStore(log + [r]))
  {
    hide WellFormed, Walkable, CommittedStore, Complete, ChainOk;
    Appended(log, r);
    var sc, next := Scan(log), Scan(log + [r]);
    var own := Keys(sc.open[r.txn].stack);
    forall u, j | u in next.open && j in Keys(next.open[u].stack)
      ensures Get(RollBack(next.open[u].stack, next.store), j) == Get(CommittedStore(log + [r]), j)
    {
      assert own !! Keys(sc.open[u].stack);
      CommitOther(log, r, j);
    }
    forall j | !Owned(next, j) ensures Get(next.store, j) == Get(CommittedStore(log + [r]), j) {
      if j in own {
        CommitOwn(log, r, j);
      } else {
        CommitOther(log, r, j);
        forall u | u in sc.open ensures j !in Keys(sc.open[u].stack) {
          assert u != r.txn ==> j !in Keys(next.open[u].stack);
        }
        assert !Owned(sc, j);
      }
    }
  }

  lemma DecisionKeeps(log: seq<Record>, r: Record)
    requires Inv(log) && !r.Action? && !r.Compensation? && Legal(Scan(log), r)
    ensures Inv(log + [r])
  {
    hide Scan, ChainOk, Separate, Undoable, Restores, Complete, Known, Legal;
    KnownKept(log, r);
    if r.Commit? { CommitStacks(log, r); } else { QuietStacks(log, r); }
    forall u | u in Scan(log + [r]).open ensures ChainOk(log + [r], u, Scan(log + [r]).open[u]) {
      DecisionChains(log, r, u);
    }
    forall u | u in Scan(log + [r]).open && !Scan(log + [r]).open[u].aborting
      ensures Complete(log + [r], Scan(log + [r]), u)
    {
      DecisionComplete(log, r, u);
    }
  }

  lemma {:induction false} LogInv(log: seq<Record>)
    requires WellFormed(log)
    ensures Inv(log)
  {
    if log != [] {
      LogInv(Front(log));
      assert log == Front(log) + [Last(log)];
      if Last(log).Action? {
        ActionKeeps(Front(log), Last(log));
      } else if Last(log).Compensation? {
        CompensationKeeps(Front(log), Last(log));
      } else {
        DecisionKeeps(Front(log), Last(log));
      }
    }
  }
}
