/** Exactly-once compensation: what the records of one transaction look like in every legally written log. */
module Compensations {
  import opened Sequences
  import opened Wal
  import opened WalInvariant

  /** The LSNs of t's actions, in log order. */
  function ActionsOf(log: seq<Record>, t: Txn): seq<nat> {
    if log == [] then []
    else ActionsOf(Front(log), t) + if Last(log).Action? && Last(log).txn == t then [|log|] else []
  }

  /** The LSNs that t's compensations undo, in log order. */
  function UndoneBy(log: seq<Record>, t: Txn): seq<nat> {
    if log == [] then []
    else UndoneBy(Front(log), t) + if Last(log).Compensation? && Last(log).txn == t then [Last(log).undoOf] else []
  }

  function EndsOf(log: seq<Record>, t: Txn): nat {
    if log == [] then 0 else EndsOf(Front(log), t) + if Last(log).End? && Last(log).txn == t then 1 else 0
  }

  function Reversed(s: seq<nat>): seq<nat> {
    if s == [] then [] else [Last(s)] + Reversed(Front(s))
  }

  function Lsns(stack: seq<Item>): seq<nat> {
    if stack == [] then [] else Lsns(Front(stack)) + [Last(stack).lsn]
  }

  /** Every action is either still on the stack or undone, and undone ones were undone latest first. */
  ghost predicate OpenAccount(log: seq<Record>, t: Txn, o: Open) {
    && ActionsOf(log, t) == Lsns(o.stack) + Reversed(UndoneBy(log, t))
    && EndsOf(log, t) == 0
    && (!o.aborting ==> UndoneBy(log, t) == [])
  }

  ghost predicate ClosedAccount(log: seq<Record>, t: Txn) {
    if t in CommittedIn(log) then UndoneBy(log, t) == [] && EndsOf(log, t) == 0
    else ActionsOf(log, t) == Reversed(UndoneBy(log, t)) && EndsOf(log, t) == 1
  }

  ghost predicate Accounted(log: seq<Record>, t: Txn) {
    var sc := Scan(log);
    if t in sc.open then OpenAccount(log, t, sc.open[t])
    else if t in sc.seen then ClosedAccount(log, t)
    else ActionsOf(log, t) == [] && UndoneBy(log, t) == [] && EndsOf(log, t) == 0
  }

  lemma OtherOpen(sc: Scanned, lsn: nat, r: Record, t: Txn)
    requires r.txn != t
    ensures t in Advance(sc, lsn, r).open <==> t in sc.open
    ensures t in sc.open ==> Advance(sc, lsn, r).open[t] == sc.open[t]
    ensures t in Advance(sc, lsn, r).seen <==> t in sc.seen
  {
  }

  /** What one record adds to a transaction's account. */
  lemma AccountAppend(log: seq<Record>, r: Record, t: Txn)
    ensures ActionsOf(log + [r], t) == if r.Action? && r.txn == t then ActionsOf(log, t) + [|log| + 1]
            else ActionsOf(log, t)
    ensures UndoneBy(log + [r], t) == if r.Compensation? && r.txn == t then UndoneBy(log, t) + [r.undoOf]
            else UndoneBy(log, t)
    ensures EndsOf(log + [r], t) == EndsOf(log, t) + if r.End? && r.txn == t then 1 else 0
  {
    var more := log + [r];
    assert Front(more) == log && Last(more) == r;
    assert ActionsOf(log, t) + [] == ActionsOf(log, t) && UndoneBy(log, t) + [] == UndoneBy(log, t);
  }

  lemma LsnsSnoc(stack: seq<Item>, x: Item)
    ensures Lsns(stack + [x]) == Lsns(stack) + [x.lsn]
  {
    assert Front(stack + [x]) == stack && Last(stack + [x]) == x;
  }

  lemma ReversedSnoc(s: seq<nat>, x: nat)
    ensures Reversed(s + [x]) == [x] + Reversed(s)
  {
    assert Front(s + [x]) == s && Last(s + [x]) == x;
  }

  lemma AccountMutation(log: seq<Record>, r: Record)
    requires Inv(log) && Legal(Scan(log), r) && Accounted(log, r.txn) && (r.Action? || r.Compensation?)
    ensures Accounted(log + [r], r.txn)
  {
    hide Inv, WellFormed, ActionsOf, UndoneBy, EndsOf, Lsns, Reversed, CommittedIn;
    Appended(log, r);
    AccountAppend(log, r, r.txn);
    var stack := Scan(log).open[r.txn].stack;
    if r.Action? {
      LsnsSnoc(stack, Item(|log| + 1, r.prev, r.key, r.before, r.after));
      NothingReversed();
      assert Lsns(stack) + [] + [|log| + 1] == (Lsns(stack) + [|log| + 1]) + [];
    } else {
      assert stack == Front(stack) + [Last(stack)];
      LsnsSnoc(Front(stack), Last(stack));
      ReversedSnoc(UndoneBy(log, r.txn), r.undoOf);
      assert Lsns(Front(stack)) + ([r.undoOf] + Reversed(UndoneBy(log, r.txn)))
        == (Lsns(Front(stack)) + [r.undoOf]) + Reversed(UndoneBy(log, r.txn));
    }
  }

  lemma NothingReversed()
    ensures Reversed([]) == [] && Lsns([]) == []
  {
  }

  lemma AccountDecision(log: seq<Record>, r: Record)
    requires Inv(log) && Legal(Scan(log), r) && Accounted(log, r.txn) && !r.Action? && !r.Compensation?
    ensures Accounted(log + [r], r.txn)
  {
    hide WellFormed, ActionsOf, UndoneBy, EndsOf, Lsns, Reversed, ChainOk, Complete, Separate, Undoable, Restores,
      CommittedIn;
    Appended(log, r);
    CommittedGrows(log, r);
    AccountAppend(log, r, r.txn);
    NothingReversed();
    var undone := Reversed(UndoneBy(log, r.txn));
    assert [] + undone == undone;
    assert r.txn in Scan(log).open ==> r.txn in Scan(log).open.Keys;
  }

  lemma AccountOther(log: seq<Record>, r: Record, t: Txn)
    requires Accounted(log, t) && r.txn != t
    ensures Accounted(log + [r], t)
  {
    hide WellFormed, ActionsOf, UndoneBy, EndsOf, Lsns, Reversed, CommittedIn;
    Appended(log, r);
    CommittedGrows(log, r);
    AccountAppend(log, r, t);
    OtherOpen(Scan(log), |log| + 1, r, t);
    assert t in CommittedIn(log + [r]) <==> t in CommittedIn(log);
  }

  lemma AccountStep(log: seq<Record>, r: Record, t: Txn)
    requires Inv(log) && Legal(Scan(log), r) && Accounted(log, t)
    ensures Accounted(log + [r], t)
  {
    hide Inv, Accounted, Legal, Scan;
    if r.txn != t {
      AccountOther(log, r, t);
    } else if r.Action? || r.Compensation? {
      AccountMutation(log, r);
    } else {
      AccountDecision(log, r);
    }
  }

  lemma {:induction false} AllAccounted(log: seq<Record>, t: Txn)
    requires WellFormed(log)
    ensures Accounted(log, t)
  {
    if log != [] {
      AllAccounted(Front(log), t);
      LogInv(Front(log));
      assert log == Front(log) + [Last(log)];
      AccountStep(Front(log), Last(log), t);
    }
  }

  lemma {:induction false} ActionsAscend(log: seq<Record>, t: Txn)
    ensures forall i :: 0 <= i < |ActionsOf(log, t)| ==> ActionsOf(log, t)[i] <= |log|
    ensures forall i, j :: 0 <= i < j < |ActionsOf(log, t)| ==> ActionsOf(log, t)[i] < ActionsOf(log, t)[j]
  {
    if log != [] { ActionsAscend(Front(log), t); }
  }

  lemma {:induction false} ReversedLength(s: seq<nat>)
    ensures |Reversed(s)| == |s|
  {
    if s != [] { ReversedLength(Front(s)); }
  }

  lemma {:induction false} ReversedAt(s: seq<nat>, i: nat)
    requires i < |s|
    ensures |Reversed(s)| == |s| && Reversed(s)[|s| - 1 - i] == s[i]
  {
    ReversedLength(s);
    if i < |s| - 1 { ReversedAt(Front(s), i); }
  }

  /** A rolled-back transaction: exactly one compensation per action, latest action first, and one End. */
  lemma ExactlyOnce(log: seq<Record>, t: Txn)
    requires WellFormed(log) && t in Scan(log).seen && t !in Scan(log).open && t !in CommittedIn(log)
    ensures EndsOf(log, t) == 1
    ensures |UndoneBy(log, t)| == |ActionsOf(log, t)|
    ensures forall i :: 0 <= i < |UndoneBy(log, t)| ==>
            UndoneBy(log, t)[i] == ActionsOf(log, t)[|ActionsOf(log, t)| - 1 - i]
    ensures forall i, j :: 0 <= i < j < |UndoneBy(log, t)| ==> UndoneBy(log, t)[i] > UndoneBy(log, t)[j]
  {
    hide WellFormed, Scan;
    AllAccounted(log, t);
    ActionsAscend(log, t);
    var u, a := UndoneBy(log, t), ActionsOf(log, t);
    ReversedLength(u);
    forall i | 0 <= i < |u| ensures u[i] == a[|a| - 1 - i] {
      ReversedAt(u, i);
    }
  }

  /** At any moment: a committed transaction has no compensation and no End, and compensations never repeat. */
  lemma NeverTwice(log: seq<Record>, t: Txn)
    requires WellFormed(log)
    ensures t in CommittedIn(log) ==> UndoneBy(log, t) == [] && EndsOf(log, t) == 0
    ensures EndsOf(log, t) <= 1
    ensures forall i, j :: 0 <= i < j < |UndoneBy(log, t)| ==> UndoneBy(log, t)[i] > UndoneBy(log, t)[j]
  {
    hide Scan, ActionsOf, UndoneBy, EndsOf, Lsns;
    AllAccounted(log, t);
    LogInv(log);
    ActionsAscend(log, t);
    var u, a := UndoneBy(log, t), ActionsOf(log, t);
    ReversedLength(u);
    assert t in CommittedIn(log) ==> t in Scan(log).seen && t !in Scan(log).open.Keys;
    if u != [] {
      var n := |a| - |u|;
      assert a[n..] == Reversed(u);
      forall i, j | 0 <= i < j < |u| ensures u[i] > u[j] {
        ReversedAt(u, i);
        ReversedAt(u, j);
        assert a[n..][|u| - 1 - i] == a[n + |u| - 1 - i] && a[n..][|u| - 1 - j] == a[n + |u| - 1 - j];
      }
    }
  }
}
