/** Crash recovery: analysis and redo of a log prefix, then the undo walk over all losers, latest LSN first. */
module Recovery {
  import opened Sequences
  import opened Options
  import opened Wal
  import opened WalInvariant

  type Effects = map<Page, Image>
  type Pages = map<Page, Image>

  // ---------------------------------------------------------------- analysis

  /** The transactions without Commit or End, each with the LSN its undo starts from. */
  function Analysis(log: seq<Record>): map<Txn, nat> {
    if log == [] then map[]
    else
      var unresolved := Analysis(Front(log));
      match Last(log)
      case Begin(t) => unresolved[t := |log|]
      case Action(t, _, _, _, _, _) => unresolved[t := |log|]
      case Compensation(t, _, _, _, _, _, _) => unresolved[t := |log|]
      case Commit(t, _, _) => unresolved - {t}
      case End(t, _) => unresolved - {t}
      case Abort(_, _) => unresolved
  }

  ghost function Lasts(sc: Scanned): map<Txn, nat> {
    map t | t in sc.open :: sc.open[t].last
  }

  lemma {:induction false} AnalysisFindsLosers(log: seq<Record>)
    requires WellFormed(log)
    ensures Analysis(log) == Lasts(Scan(log))
  {
    if log != [] {
      AnalysisFindsLosers(Front(log));
      assert Lasts(Scan(log)).Keys == Scan(log).open.Keys;
    }
  }

  /** The greatest Raft index named by a Commit record; 0 when there is none. */
  function Watermark(log: seq<Record>): nat {
    if log == [] then 0
    else if Last(log).Commit? && Last(log).raftIndex > Watermark(Front(log)) then Last(log).raftIndex
    else Watermark(Front(log))
  }

  // ---------------------------------------------------------------- redo

  function EffectsOf(r: Record): Effects {
    match r
    case Action(_, _, _, _, _, effects) => effects
    case Compensation(_, _, _, _, _, _, effects) => effects
    case _ => map[]
  }

  /** Writes every after-image of the log over a set of pages, in log order. */
  function Redone(pages: Pages, log: seq<Record>): Pages {
    if log == [] then pages else Redone(pages, Front(log)) + EffectsOf(Last(log))
  }

  /** Every page of the file is as it was at some moment of the logged history, each page at its own moment. */
  ghost predicate FromHistory(file: Pages, initial: Pages, log: seq<Record>) {
    && initial.Keys <= file.Keys
    && (forall p :: p in file ==> exists n :: OfMoment(file, initial, log, p, n))
  }

  ghost predicate OfMoment(file: Pages, initial: Pages, log: seq<Record>, p: Page, n: int) {
    && 0 <= n <= |log| && p in file
    && p in Redone(initial, log[..n]) && Redone(initial, log[..n])[p] == file[p]
  }

  /** The last image of a page decides, whatever the page held before. */
  lemma {:induction false} RedoDecides(a: Pages, b: Pages, log: seq<Record>, n: nat, p: Page)
    requires n <= |log| && p in a
    requires p in Redone(b, log[..n]) && Redone(b, log[..n])[p] == a[p]
    ensures p in Redone(a, log) && p in Redone(b, log) && Redone(a, log)[p] == Redone(b, log)[p]
  {
    if n < |log| {
      assert Front(log)[..n] == log[..n];
      RedoDecides(a, b, Front(log), n, p);
    } else {
      assert log[..n] == log;
      RedoKeeps(a, b, log, p);
    }
  }

  /** If the history ends with the image the page already holds, redo ends with it too. */
  lemma {:induction false} RedoKeeps(a: Pages, b: Pages, log: seq<Record>, p: Page)
    requires p in a && p in Redone(b, log) && Redone(b, log)[p] == a[p]
    ensures p in Redone(a, log) && Redone(a, log)[p] == a[p]
  {
    if log != [] && p !in EffectsOf(Last(log)) {
      RedoKeeps(a, b, Front(log), p);
    }
  }

  lemma {:induction false} RedoKeys(a: Pages, b: Pages, log: seq<Record>, p: Page)
    requires p in Redone(b, log) && p !in b
    ensures p in Redone(a, log) && Redone(a, log)[p] == Redone(b, log)[p]
  {
    if p !in EffectsOf(Last(log)) { RedoKeys(a, b, Front(log), p); }
  }

  /** Redo from any such file, torn between moments page by page, restores the last logged moment exactly. */
  lemma RedoRestores(file: Pages, initial: Pages, log: seq<Record>)
    requires FromHistory(file, initial, log)
    ensures Redone(file, log) == Redone(initial, log)
  {
    var a, b := Redone(file, log), Redone(initial, log);
    forall p | p in b ensures p in a && a[p] == b[p] {
      if p in file {
        var n :| OfMoment(file, initial, log, p, n);
        RedoDecides(file, initial, log, n, p);
      } else {
        RedoKeys(file, initial, log, p);
      }
    }
    forall p | p in a ensures p in b {
      if p in file {
        var n :| OfMoment(file, initial, log, p, n);
        RedoDecides(file, initial, log, n, p);
      } else {
        RedoKeys(initial, file, log, p);
      }
    }
  }

  // ---------------------------------------------------------------- undo

  /** `heap` holds, for each loser, the LSN its walk visits next. */
  datatype Pass = Pass(log: seq<Record>, store: Store, unresolved: map<Txn, nat>, heap: map<Txn, nat>)

  predicate Highest(heap: map<Txn, nat>, t: Txn) {
    t in heap && (forall u :: u in heap ==> heap[u] <= heap[t])
  }

  lemma {:induction false} SomeHighest(heap: map<Txn, nat>)
    requires heap != map[]
    ensures exists t :: Highest(heap, t)
    decreases |heap|
  {
    var t :| t in heap;
    var rest := heap - {t};
    if rest == map[] {
      assert forall u :: u in heap ==> u == t || u in rest;
      assert Highest(heap, t);
    } else {
      assert heap.Keys == rest.Keys + {t};
      SomeHighest(rest);
      var u :| Highest(rest, u);
      assert forall w :: w in heap ==> w == t || w in rest;
      assert Highest(heap, if heap[t] < heap[u] then u else t);
    }
  }

  /** The logical inverse can run: removing a key needs the key to be there. */
  predicate CanUndo(store: Store, key: Bytes, before: Option<Bytes>) {
    before.None? ==> key in store
  }

  predicate Visits(s: Pass, t: Txn) {
    && t in s.heap && t in s.unresolved && 1 <= s.heap[t] <= |s.log|
    && (s.log[s.heap[t] - 1].Action? ==> CanUndo(s.store, s.log[s.heap[t] - 1].key, s.log[s.heap[t] - 1].before))
  }

  /** One round of the undo loop for transaction t, whose entry was popped. */
  function Visit(s: Pass, t: Txn, effects: Effects): Pass
    requires Visits(s, t)
  {
    var lsn := s.heap[t];
    match s.log[lsn - 1]
    case Begin(_) =>
      Pass(s.log + [End(t, s.unresolved[t])], s.store, s.unresolved - {t}, s.heap - {t})
    case Action(_, prev, k, before, _, _) =>
      Pass(s.log + [Compensation(t, s.unresolved[t], lsn, prev, k, before, effects)],
           Set(s.store, k, before), s.unresolved[t := |s.log| + 1], s.heap[t := prev])
    case Compensation(_, _, _, undoNext, _, _, _) => s.(heap := s.heap[t := undoNext])
    case Abort(_, prev) => s.(heap := s.heap[t := prev])
    case _ => s.(heap := s.heap - {t})
  }

  ghost predicate Walks(s: Pass, t: Txn) {
    && t in s.heap && t in Scan(s.log).open
    && Walkable(s.log, t, s.heap[t]) && Chain(s.log, t, s.heap[t]) == Scan(s.log).open[t].stack
  }

  ghost predicate Sound(s: Pass) {
    var sc := Scan(s.log);
    && WellFormed(s.log) && s.store == sc.store && s.unresolved == Lasts(sc)
    && s.heap.Keys == sc.open.Keys
    && (forall t :: t in s.heap ==> Walks(s, t))
  }

  /** The pass after analysis and redo, as seen by the undo loop. */
  function Start(log: seq<Record>): Pass {
    Pass(log, Scan(log).store, Analysis(log), Analysis(log))
  }

  lemma StartSound(log: seq<Record>)
    requires WellFormed(log)
    ensures Sound(Start(log))
  {
    LogInv(log);
    AnalysisFindsLosers(log);
    var sc := Scan(log);
    forall t | t in sc.open ensures Walks(Start(log), t) {
      assert ChainOk(log, t, sc.open[t]);
    }
  }

  /** The walk finds every record it needs and every inverse can run: recovery never throws. */
  lemma VisitPossible(s: Pass, t: Txn)
    requires Sound(s) && t in s.heap
    ensures Visits(s, t)
    ensures s.log[s.heap[t] - 1].Action? ==>
              && Scan(s.log).open[t].stack != [] && Last(Scan(s.log).open[t].stack) == ItemAt(s.log, s.heap[t])
              && Get(s.store, s.log[s.heap[t] - 1].key) == s.log[s.heap[t] - 1].after
  {
    hide WellFormed, Scan, Walkable, Matches;
    var sc := Scan(s.log);
    assert Walks(s, t);
    assert t in sc.open.Keys && t in s.unresolved.Keys;
    LoserFacts(s.log, t);
    WalkStart(s.log, t, s.heap[t]);
    if s.log[s.heap[t] - 1].Action? {
      assert Last(sc.open[t].stack) in sc.open[t].stack;
    }
  }

  lemma LoserFacts(log: seq<Record>, t: Txn)
    requires WellFormed(log) && t in Scan(log).open
    ensures forall x :: x in Scan(log).open[t].stack ==> x.before.None? ==> x.after.Some?
    ensures var o := Scan(log).open[t]; o.stack != [] ==> Get(Scan(log).store, Last(o.stack).key) == Last(o.stack).after
  {
    hide WellFormed, Scan, Restores, Separate, Complete, Known, Walkable;
    LogInv(log);
    assert ChainOk(log, t, Scan(log).open[t]);
    assert Matches(Scan(log).open[t].stack, Scan(log).store);
  }

  lemma WalkStart(log: seq<Record>, t: Txn, lsn: nat)
    requires Walkable(log, t, lsn)
    ensures 1 <= lsn <= |log|
    ensures log[lsn - 1].Action? ==> Chain(log, t, lsn) != [] && Last(Chain(log, t, lsn)) == ItemAt(log, lsn)
  {
  }

  lemma WalkKept(s: Pass, next: Pass, r: Record, u: Txn)
    requires Walks(s, u) && next.log == s.log + [r] && u in next.heap && next.heap[u] == s.heap[u]
    requires u in Scan(next.log).open && Scan(next.log).open[u].stack == Scan(s.log).open[u].stack
    ensures Walks(next, u)
  {
    WalkStable(s.log, u, s.heap[u], r);
  }

  lemma EndVisit(s: Pass, t: Txn, effects: Effects)
    requires Sound(s) && t in s.heap && Visits(s, t) && s.log[s.heap[t] - 1].Begin?
    ensures Sound(Visit(s, t, effects))
  {
    hide WellFormed, Walkable, Chain;
    var next := Visit(s, t, effects);
    var r := End(t, s.unresolved[t]);
    var sc := Scan(s.log);
    assert Walks(s, t);
    assert sc.open[t].stack == [] by { BeginChain(s.log, t, s.heap[t]); }
    Appended(s.log, r);
    assert next.unresolved == Lasts(Scan(next.log));
    forall u | u in next.heap ensures Walks(next, u) {
      assert Walks(s, u);
      WalkKept(s, next, r, u);
    }
  }

  lemma BeginChain(log: seq<Record>, t: Txn, lsn: nat)
    requires Walkable(log, t, lsn) && log[lsn - 1].Begin?
    ensures Chain(log, t, lsn) == []
  {
  }

  lemma ActionChain(log: seq<Record>, t: Txn, lsn: nat, r: Record)
    requires Walkable(log, t, lsn) && log[lsn - 1].Action?
    ensures Walkable(log + [r], t, log[lsn - 1].prev) && log[lsn - 1].prev < lsn
    ensures Chain(log, t, lsn) != [] && Chain(log + [r], t, log[lsn - 1].prev) == Front(Chain(log, t, lsn))
  {
    WalkStable(log, t, log[lsn - 1].prev, r);
  }

  lemma ActionVisit(s: Pass, t: Txn, effects: Effects)
    requires Sound(s) && t in s.heap && Visits(s, t) && s.log[s.heap[t] - 1].Action?
    ensures Sound(Visit(s, t, effects))
  {
    hide WellFormed, Walkable, Chain;
    var next := Visit(s, t, effects);
    var a := s.log[s.heap[t] - 1];
    var r := Compensation(t, s.unresolved[t], s.heap[t], a.prev, a.key, a.before, effects);
    var sc := Scan(s.log);
    VisitPossible(s, t);
    assert Walks(s, t);
    Appended(s.log, r);
    assert Legal(sc, r);
    ActionChain(s.log, t, s.heap[t], r);
    assert next.unresolved == Lasts(Scan(next.log));
    forall u | u in next.heap ensures Walks(next, u) {
      assert Walks(s, u);
      if u != t { WalkKept(s, next, r, u); }
    }
  }

  lemma SkipVisit(s: Pass, t: Txn, effects: Effects)
    requires Sound(s) && t in s.heap && Visits(s, t) && s.log[s.heap[t] - 1].Compensation?
    ensures Sound(Visit(s, t, effects))
  {
    hide WellFormed, Scan;
    var next := Visit(s, t, effects);
    assert Walks(s, t);
    assert Walks(next, t);
    forall u | u in next.heap ensures Walks(next, u) {
      assert Walks(s, u);
    }
  }

  lemma VisitSound(s: Pass, t: Txn, effects: Effects)
    requires Sound(s) && t in s.heap
    ensures Visits(s, t) && Sound(Visit(s, t, effects))
    ensures t in Visit(s, t, effects).heap ==> Visit(s, t, effects).heap[t] < s.heap[t]
    ensures Visit(s, t, effects).heap - {t} == s.heap - {t}
  {
    hide WellFormed, Scan, Chain;
    VisitPossible(s, t);
    assert Walks(s, t);
    var r := s.log[s.heap[t] - 1];
    if r.Begin? {
      EndVisit(s, t, effects);
    } else if r.Action? {
      ActionVisit(s, t, effects);
    } else {
      SkipVisit(s, t, effects);
    }
  }

  /** No two losers are ever at the same LSN, so the largest LSN names one transaction. */
  lemma HighestUnique(s: Pass, t: Txn, u: Txn)
    requires Sound(s) && Highest(s.heap, t) && Highest(s.heap, u)
    ensures t == u
  {
    hide WellFormed, Scan, Chain;
    assert Walks(s, t) && Walks(s, u);
    assert s.heap[t] == s.heap[u];
  }

  ghost function Peak(heap: map<Txn, nat>): nat {
    if heap == map[] then 0
    else
      SomeHighest(heap);
      var t :| Highest(heap, t);
      heap[t]
  }

  lemma PeakIs(heap: map<Txn, nat>, t: Txn)
    requires Highest(heap, t)
    ensures Peak(heap) == heap[t]
  {
  }

  /** The largest LSN still to visit falls in every round, so the loop ends. */
  lemma PeakFalls(s: Pass, t: Txn, effects: Effects)
    requires Sound(s) && Highest(s.heap, t)
    ensures Visits(s, t) && Sound(Visit(s, t, effects)) && Peak(Visit(s, t, effects).heap) < Peak(s.heap)
  {
    hide Sound, Visit, Walks;
    VisitSound(s, t, effects);
    PeakIs(s.heap, t);
    var next := Visit(s, t, effects).heap;
    if next == map[] {
      assert s.heap[t] > 0 by { assert Visits(s, t); }
    } else {
      SomeHighest(next);
      var u :| Highest(next, u);
      PeakIs(next, u);
      if u != t {
        assert u in next - {t};
        assert u in s.heap && s.heap[u] == next[u];
        if s.heap[u] == s.heap[t] { HighestUnique(s, t, u); }
      }
    }
  }

  /** Runs the undo loop to its end. `fx` supplies the page effects of the record written at each LSN. */
  ghost function UndoAll(s: Pass, fx: nat -> Effects): Pass
    requires Sound(s)
    decreases Peak(s.heap)
  {
    if s.heap == map[] then s
    else
      SomeHighest(s.heap);
      var t :| Highest(s.heap, t);
      PeakFalls(s, t, fx(|s.log| + 1));
      UndoAll(Visit(s, t, fx(|s.log| + 1)), fx)
  }

  lemma UndoAllStep(s: Pass, t: Txn, fx: nat -> Effects)
    requires Sound(s) && Highest(s.heap, t)
    ensures Visits(s, t) && Sound(Visit(s, t, fx(|s.log| + 1)))
    ensures UndoAll(s, fx) == UndoAll(Visit(s, t, fx(|s.log| + 1)), fx)
  {
    hide Sound, Visit, Highest, Visits;
    PeakFalls(s, t, fx(|s.log| + 1));
    assert s.heap != map[] by { InHeap(s.heap, t); }
    SomeHighest(s.heap);
    forall u | Highest(s.heap, u) ensures u == t { HighestUnique(s, t, u); }
  }

  lemma InHeap(heap: map<Txn, nat>, t: Txn)
    requires Highest(heap, t)
    ensures heap != map[]
  {
  }

  /** Recovery appends only compensations and End records. */
  predicate OnlyUndo(tail: seq<Record>) {
    forall i :: 0 <= i < |tail| ==> tail[i].Compensation? || tail[i].End?
  }

  lemma VisitAppends(s: Pass, t: Txn, effects: Effects) returns (tail: seq<Record>)
    requires Visits(s, t)
    ensures Visit(s, t, effects).log == s.log + tail && OnlyUndo(tail)
  {
    var r := s.log[s.heap[t] - 1];
    if r.Begin? {
      tail := [End(t, s.unresolved[t])];
    } else if r.Action? {
      tail := [Compensation(t, s.unresolved[t], s.heap[t], r.prev, r.key, r.before, effects)];
    } else {
      tail := [];
      assert s.log + [] == s.log;
    }
  }

  lemma {:induction false} UndoAllEnds(s: Pass, fx: nat -> Effects) returns (tail: seq<Record>)
    requires Sound(s)
    ensures Sound(UndoAll(s, fx)) && UndoAll(s, fx).heap == map[]
    ensures UndoAll(s, fx).log == s.log + tail && OnlyUndo(tail)
    decreases Peak(s.heap)
  {
    hide Sound, Visit, Visits, Highest;
    if s.heap == map[] {
      tail := [];
      assert s.log + [] == s.log;
    } else {
      SomeHighest(s.heap);
      var t :| Highest(s.heap, t);
      var effects := fx(|s.log| + 1);
      PeakFalls(s, t, effects);
      UndoAllStep(s, t, fx);
      var first := VisitAppends(s, t, effects);
      var rest := UndoAllEnds(Visit(s, t, effects), fx);
      tail := first + rest;
      assert s.log + tail == (s.log + first) + rest;
    }
  }

  lemma {:induction false} UndoCommitsNothing(log: seq<Record>, tail: seq<Record>)
    requires OnlyUndo(tail)
    ensures CommittedIn(log + tail) == CommittedIn(log) && CommittedStore(log + tail) == CommittedStore(log)
  {
    if tail == [] {
      assert log + tail == log;
    } else {
      assert OnlyUndo(Front(tail));
      UndoCommitsNothing(log, Front(tail));
      var r := Last(tail);
      assert r == tail[|tail| - 1];
      assert log + tail == (log + Front(tail)) + [r];
      CommittedGrows(log + Front(tail), r);
      ReplayAppend(log + Front(tail), r, CommittedIn(log));
      assert CommittedIn(log + tail) == CommittedIn(log);
    }
  }

  // ---------------------------------------------------------------- main results

  ghost function Recovered(log: seq<Record>, fx: nat -> Effects): Pass
    requires WellFormed(log)
  {
    StartSound(log);
    UndoAll(Start(log), fx)
  }

  lemma RestoredWhenClosed(log: seq<Record>)
    requires WellFormed(log) && Scan(log).open == map[]
    ensures Scan(log).store == CommittedStore(log)
  {
    LogInv(log);
    var store, committed := Scan(log).store, CommittedStore(log);
    forall k ensures Get(store, k) == Get(committed, k) {
      assert !Owned(Scan(log), k);
    }
    forall k | k in store ensures k in committed && committed[k] == store[k] {
      assert Get(store, k) == Get(committed, k);
    }
    forall k | k in committed ensures k in store {
      assert Get(store, k) == Get(committed, k);
    }
  }

  /** Crash atomicity: recovering any legal log leaves exactly the committed transactions' map, resolves
      every transaction, and appends nothing but compensations and Ends. */
  lemma CrashAtomicity(log: seq<Record>, fx: nat -> Effects) returns (tail: seq<Record>)
    requires WellFormed(log)
    ensures var after := Recovered(log, fx);
            && after.log == log + tail && OnlyUndo(tail)
            && WellFormed(after.log) && Scan(after.log).open == map[]
            && after.store == CommittedStore(log) == CommittedStore(after.log)
  {
    hide WellFormed, Scan, CommittedStore;
    StartSound(log);
    var s := Start(log);
    tail := UndoAllEnds(s, fx);
    var after := Recovered(log, fx);
    assert Scan(after.log).open.Keys == {};
    RestoredWhenClosed(after.log);
    UndoCommitsNothing(log, tail);
  }

  /** Recovery may itself crash anywhere: whatever part of its records survives, recovering again gives the
      same map. */
  lemma RecoveryIsRestartable(log: seq<Record>, fx: nat -> Effects, n: nat, fx': nat -> Effects)
    requires WellFormed(log) && |log| <= n <= |Recovered(log, fx).log|
    ensures WellFormed(Recovered(log, fx).log[..n])
    ensures Recovered(Recovered(log, fx).log[..n], fx').store == Recovered(log, fx).store
  {
    hide WellFormed, Scan, CommittedStore, Recovered;
    var tail := CrashAtomicity(log, fx);
    var cut := Recovered(log, fx).log[..n];
    PrefixWellFormed(Recovered(log, fx).log, n);
    var _ := CrashAtomicity(cut, fx');
    var part := tail[..n - |log|];
    assert cut == log + part;
    UndoCommitsNothing(log, part);
  }
}
