/** Every record that any run of transactions, crashes and recoveries writes can be encoded, and names the record of its
    transaction before it. */
module WalHeaders {
  import opened Sequences
  import opened Options
  import opened Wal
  import opened WalInvariant
  import opened Recovery
  import opened Transactions
  import Crc32c
  import WalRecordCodec

  function PrevOf(r: Record): nat {
    if r.Begin? then 0 else r.prev
  }

  /** Record l is the last of transaction t, decisions to abort left aside. */
  ghost predicate LastIs(log: seq<Record>, t: Txn, l: nat) {
    && 1 <= l <= |log| && log[l - 1].txn == t
    && (forall j :: l <= j < |log| && log[j].txn == t ==> log[j].Abort?)
  }

  /** Every record belongs to a numbered transaction and, unless it opens it, points back at the last record of that
      transaction before it. */
  ghost predicate Linked(log: seq<Record>) {
    forall i :: 0 <= i < |log| ==>
      log[i].txn >= 1 && (!log[i].Begin? ==> PrevOf(log[i]) <= i && LastIs(log[..i], log[i].txn, PrevOf(log[i])))
  }

  lemma LinkedAppend(log: seq<Record>, r: Record)
    requires Linked(log) && r.txn >= 1 && (!r.Begin? ==> LastIs(log, r.txn, PrevOf(r)))
    ensures Linked(log + [r])
  {
    hide LastIs;
    var more := log + [r];
    forall i | 0 <= i < |more|
      ensures more[i].txn >= 1
      ensures !more[i].Begin? ==> PrevOf(more[i]) <= i && LastIs(more[..i], more[i].txn, PrevOf(more[i]))
    {
      if i < |log| { assert more[..i] == log[..i] && more[i] == log[i]; }
      else {
        assert more[..i] == log;
        if !r.Begin? { LastBound(log, r.txn, PrevOf(r)); }
      }
    }
  }

  lemma LastBound(log: seq<Record>, t: Txn, l: nat)
    requires LastIs(log, t, l)
    ensures 1 <= l <= |log|
  {
  }

  lemma LinkedPrefix(log: seq<Record>, n: nat)
    requires Linked(log) && n <= |log|
    ensures Linked(log[..n])
  {
    hide LastIs;
    forall i | 0 <= i < n ensures log[..n][..i] == log[..i] {}
  }

  lemma LastKept(log: seq<Record>, r: Record, t: Txn, l: nat)
    requires LastIs(log, t, l) && (r.txn != t || r.Abort?)
    ensures LastIs(log + [r], t, l)
  {
  }

  lemma LastNew(log: seq<Record>, r: Record)
    ensures LastIs(log + [r], r.txn, |log| + 1)
  {
  }

  lemma LinkedAt(log: seq<Record>, t: Txn, l: nat)
    requires Linked(log) && LastIs(log, t, l)
    ensures t >= 1
  {
  }

  /** The scan of a legal log knows the last record of every open transaction. */
  lemma {:induction false} ScanKnowsLast(log: seq<Record>, t: Txn)
    requires WellFormed(log) && t in Scan(log).open
    ensures LastIs(log, t, Scan(log).open[t].last)
    decreases |log|
  {
    hide LastIs, Keys;
    var init, r := Front(log), Last(log);
    assert log == init + [r];
    if r.txn == t && !r.Abort? {
      LastNew(init, r);
    } else {
      ScanKnowsLast(init, t);
      LastKept(init, r, t, Scan(init).open[t].last);
    }
  }

  /** What the transaction manager remembers as the last record is the last record. */
  ghost predicate LinkedDb(db: Db) {
    Linked(db.log) && (db.phase.Running? ==> forall t :: t in db.live ==> LastIs(db.log, t, db.live[t].last))
  }

  /** Appending a record of t that points back at its last one. */
  lemma AppendLinks(db: Db, r: Record, next: Db)
    requires LinkedDb(db) && db.phase.Running? && next.phase.Running? && next.log == db.log + [r] && r.txn >= 1
    requires !r.Begin? ==> LastIs(db.log, r.txn, PrevOf(r))
    requires forall t :: t in next.live && t != r.txn ==> t in db.live && next.live[t].last == db.live[t].last
    requires r.txn in next.live ==> next.live[r.txn].last == |db.log| + 1
    ensures LinkedDb(next)
  {
    hide LastIs, Linked;
    LinkedAppend(db.log, r);
    forall t | t in next.live ensures LastIs(next.log, t, next.live[t].last) {
      if t == r.txn { LastNew(db.log, r); } else { LastKept(db.log, r, t, db.live[t].last); }
    }
  }

  lemma CallLinks(db: Db, s: Step)
    requires LinkedDb(db) && db.phase.Running? && !s.DoCrash?
    ensures LinkedDb(NextDb(db, s))
  {
    hide LastIs, Linked, CanUndo;
    var next := NextDb(db, s);
    assert next.phase.Running?;
    if s.DoBegin? {
      AppendLinks(db, Begin(Greatest(db.log) + 1), next);
    } else if !s.DoRecover? && !s.DoOpen? && s.txn in db.live {
      LinkedAt(db.log, s.txn, db.live[s.txn].last);
      if |next.log| == |db.log| + 1 {
        var r := Last(next.log);
        AppendLinks(db, r, next);
      }
    }
  }

  lemma RecoveryLinks(db: Db, s: Step)
    requires LinkedDb(db) && db.phase.Recovering? && DbInv(db) && !s.DoCrash?
    ensures LinkedDb(NextDb(db, s))
  {
    hide LastIs, Linked, CanUndo, Walkable, Chain, HoldsLocks, Highest;
    var next := NextDb(db, s);
    if s.DoRecover? && db.phase.heap != map[] {
      SomeHighest(db.phase.heap);
      if next.log != db.log {
        VisitLinks(db, s.effects);
      }
    }
  }

  /** What a round of the undo loop appends, if anything, points back at what analysis found for the transaction. */
  lemma VisitWrites(s: Pass, t: Txn, effects: Effects) returns (r: Record)
    requires Visits(s, t)
    ensures || Visit(s, t, effects).log == s.log
            || (Visit(s, t, effects).log == s.log + [r] && r.txn == t && !r.Begin? && PrevOf(r) == s.unresolved[t])
  {
    var next := Visit(s, t, effects);
    r := if s.log[s.heap[t] - 1].Begin? then End(t, s.unresolved[t]) else Last(next.log);
  }

  lemma VisitLinks(db: Db, effects: Effects)
    requires LinkedDb(db) && db.phase.Recovering? && db.phase.heap != map[] && Sound(PassOf(db))
    ensures Linked(RecoverOne(db, effects).log)
  {
    hide LastIs, Linked, CanUndo, Walkable, Chain;
    SomeHighest(db.phase.heap);
    var next := RecoverOne(db, effects);
    if next.log != db.log {
      var t :| Highest(db.phase.heap, t) && Visits(PassOf(db), t) && next.log == Visit(PassOf(db), t, effects).log;
      assert t in Scan(db.log).open;
      ScanKnowsLast(db.log, t);
      LinkedAt(db.log, t, db.phase.unresolved[t]);
      var r := VisitWrites(PassOf(db), t, effects);
      LinkedAppend(db.log, r);
    }
  }

  lemma StepLinks(db: Db, s: Step)
    requires LinkedDb(db) && DbInv(db)
    ensures LinkedDb(NextDb(db, s))
  {
    hide DbInv, LastIs, Linked;
    if s.DoCrash? {
      if s.kept <= |db.log| { LinkedPrefix(db.log, s.kept); }
    } else if db.phase.Running? {
      CallLinks(db, s);
    } else {
      RecoveryLinks(db, s);
    }
  }

  /** In every run every record points back at the last record of its transaction before it. */
  lemma {:induction false} EveryRecordIsLinked(steps: seq<Step>)
    ensures LinkedDb(RunDb(steps))
  {
    hide NextDb, DbInv, LastIs;
    if steps != [] {
      EveryRecordIsLinked(Front(steps));
      RunKeeps(Front(steps));
      StepLinks(RunDb(Front(steps)), Last(steps));
    }
  }

  // ---------------------------------------------------------------- encoding

  const WORD64: nat := 0x1_0000_0000_0000_0000

  function Field(n: nat): bv64
    requires n < WORD64
  {
    n as bv64
  }

  lemma FieldNonzero(n: nat)
    requires 0 < n < WORD64
    ensures Field(n) != 0
  {
  }

  function KindOf(r: Record): bv16 {
    match r
    case Begin(_) => 1
    case Action(_, _, _, _, _, _) => 2
    case Compensation(_, _, _, _, _, _, _) => 3
    case Commit(_, _, _) => 5
    case Abort(_, _) => 6
    case End(_, _) => 7
  }

  /** The header of record number lsn, over its encoded payload. */
  function HeaderOf(r: Record, lsn: nat, payload: Crc32c.Octets): WalRecordCodec.Record
    requires lsn < WORD64 && r.txn < WORD64 && PrevOf(r) < WORD64
  {
    WalRecordCodec.Record(Field(lsn), KindOf(r), Field(r.txn), Field(PrevOf(r)), payload)
  }

  lemma HeaderIsValid(r: Record, lsn: nat, payload: Crc32c.Octets)
    requires 0 < lsn < WORD64 && 0 < r.txn < WORD64 && PrevOf(r) < WORD64 && (r.Begin? <==> PrevOf(r) == 0)
    ensures WalRecordCodec.ValidFields(HeaderOf(r, lsn, payload))
  {
    FieldNonzero(lsn);
    FieldNonzero(r.txn);
    if !r.Begin? { FieldNonzero(PrevOf(r)); }
  }

  /** In every run every record that is written can be encoded, as long as its numbers have 64 bits and its payload
      leaves the size 32 bits, and is decoded as it was. */
  lemma EveryRecordEncodes(steps: seq<Step>, i: nat, payload: Crc32c.Octets)
    requires i < |RunDb(steps).log| && i + 1 < WORD64 && RunDb(steps).log[i].txn < WORD64
    requires |payload| < WalRecordCodec.WORD32 - WalRecordCodec.HEADER
    ensures PrevOf(RunDb(steps).log[i]) < WORD64
    ensures var header := HeaderOf(RunDb(steps).log[i], i + 1, payload);
            && WalRecordCodec.Encode(header).Some?
            && WalRecordCodec.Decode(WalRecordCodec.Encode(header).value) == Some(header)
  {
    hide RunDb, WalRecordCodec.ValidFields, HeaderOf, WalRecordCodec.Layout, WalRecordCodec.Checksum,
      WalRecordCodec.Decode;
    EveryRecordIsLinked(steps);
    var r := RunDb(steps).log[i];
    HeaderIsValid(r, i + 1, payload);
    PayloadIs(r, i + 1, payload);
    WalRecordCodec.DecodeInvertsEncode(HeaderOf(r, i + 1, payload));
  }

  lemma PayloadIs(r: Record, lsn: nat, payload: Crc32c.Octets)
    requires lsn < WORD64 && r.txn < WORD64 && PrevOf(r) < WORD64
    ensures HeaderOf(r, lsn, payload).data == payload
  {
  }
}
