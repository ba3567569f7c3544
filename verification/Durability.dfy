/** Page images, the synced log and acknowledged commits along every run of transactions, crashes and restarts. */
module Durability {
  import opened Sequences
  import opened Wal
  import opened WalInvariant
  import opened Recovery
  import opened Transactions
  import PageCaches

  /** `synced` is the length of the log prefix on stable storage, `file` the database file, and `acknowledged` the
      transactions whose commit was reported as successful. */
  datatype Server = Server(db: Db, file: Pages, synced: nat, acknowledged: set<Txn>)

  datatype Event =
    | Work(step: Step)
    | Sync(upTo: nat)
    | WriteBack(page: Page, moment: nat)
    | Acknowledge(txn: Txn, lsn: nat)
    | CrashAt(kept: nat)

  /** How a map is read off a set of pages, and the pages of the empty file. */
  datatype Layout = Layout(content: Pages -> Store, initial: Pages)

  /** The pages as they were after the first n records. */
  function PagesAt(lay: Layout, log: seq<Record>, n: nat): Pages
    requires n <= |log|
  {
    Redone(lay.initial, log[..n])
  }

  /** A tree operation logs the images of the pages that hold the new map. A page goes to the file only in an image
      whose record is synced. A commit is acknowledged only once its record is synced. A crash keeps every synced
      record, and what it keeps is on stable storage. */
  ghost function NextServer(lay: Layout, s: Server, e: Event): Server {
    match e
    case Work(step) =>
      if step.DoCrash? then s
      else
        var next := NextDb(s.db, step);
        if lay.content(Redone(lay.initial, next.log)) == next.store then s.(db := next) else s
    case Sync(upTo) => if s.synced <= upTo <= |s.db.log| then s.(synced := upTo) else s
    case WriteBack(p, moment) =>
      if moment <= s.synced <= |s.db.log| && p in PagesAt(lay, s.db.log, moment)
      then s.(file := s.file[p := PagesAt(lay, s.db.log, moment)[p]]) else s
    case Acknowledge(t, lsn) =>
      if 1 <= lsn <= s.synced <= |s.db.log| && s.db.log[lsn - 1].Commit? && s.db.log[lsn - 1].txn == t
      then s.(acknowledged := s.acknowledged + {t}) else s
    case CrashAt(kept) =>
      if s.synced <= kept <= |s.db.log| then s.(db := Crashed(s.db, kept), synced := kept) else s
  }

  ghost function RunServer(lay: Layout, events: seq<Event>): Server {
    if events == [] then Server(EMPTY_DB, lay.initial, 0, {})
    else NextServer(lay, RunServer(lay, Front(events)), Last(events))
  }

  // ---------------------------------------------------------------- the invariant

  /** At every moment of the log the pages hold the map that the log describes. */
  ghost predicate ContentRight(lay: Layout, log: seq<Record>) {
    forall n :: 0 <= n <= |log| ==> lay.content(PagesAt(lay, log, n)) == Scan(log[..n]).store
  }

  ghost predicate ServerInv(lay: Layout, s: Server) {
    && DbInv(s.db) && s.synced <= |s.db.log|
    && ContentRight(lay, s.db.log)
    && FromHistory(s.file, lay.initial, s.db.log[..s.synced])
    && s.acknowledged <= CommittedIn(s.db.log[..s.synced])
  }

  /** Between crashes the log only grows, by at most one record a step. */
  lemma LogGrows(db: Db, step: Step)
    requires !step.DoCrash?
    ensures db.log <= NextDb(db, step).log && |NextDb(db, step).log| <= |db.log| + 1
  {
    hide CanUndo, Highest;
    if db.phase.Recovering? && step.DoRecover? && db.phase.heap != map[] {
      SomeHighest(db.phase.heap);
    }
  }

  lemma StoreOf(db: Db)
    requires DbInv(db)
    ensures db.store == Scan(db.log).store && WellFormed(db.log)
  {
  }

  lemma ContentGrows(lay: Layout, log: seq<Record>, more: seq<Record>)
    requires ContentRight(lay, log) && log <= more && |more| <= |log| + 1
    requires lay.content(Redone(lay.initial, more)) == Scan(more).store
    ensures ContentRight(lay, more)
  {
    hide Redone, Scan;
    forall n | 0 <= n <= |more| ensures lay.content(PagesAt(lay, more, n)) == Scan(more[..n]).store {
      if n <= |log| { assert more[..n] == log[..n]; } else { assert more[..n] == more; }
    }
  }

  lemma ContentCut(lay: Layout, log: seq<Record>, n: nat)
    requires ContentRight(lay, log) && n <= |log|
    ensures ContentRight(lay, log[..n])
  {
    hide Redone, Scan;
    forall m | 0 <= m <= n ensures lay.content(PagesAt(lay, log[..n], m)) == Scan(log[..n][..m]).store {
      assert log[..n][..m] == log[..m];
    }
  }

  /** More synced history does not unmake a page's moment. */
  lemma HistoryGrows(lay: Layout, file: Pages, log: seq<Record>, n: nat, m: nat)
    requires n <= m <= |log| && FromHistory(file, lay.initial, log[..n])
    ensures FromHistory(file, lay.initial, log[..m])
  {
    hide Redone;
    forall p | p in file ensures exists k :: OfMoment(file, lay.initial, log[..m], p, k) {
      var k :| OfMoment(file, lay.initial, log[..n], p, k);
      assert log[..n][..k] == log[..k] == log[..m][..k];
      assert OfMoment(file, lay.initial, log[..m], p, k);
    }
  }

  lemma CommittedGrows(log: seq<Record>, n: nat, m: nat)
    requires n <= m <= |log|
    ensures CommittedIn(log[..n]) <= CommittedIn(log[..m])
  {
    forall t | t in CommittedIn(log[..n]) ensures t in CommittedIn(log[..m]) {
      var i :| 0 <= i < n && log[..n][i].Commit? && log[..n][i].txn == t;
      assert log[..m][i] == log[i];
    }
  }

  lemma WrittenBack(lay: Layout, s: Server, p: Page, moment: nat)
    requires ServerInv(lay, s) && moment <= s.synced && p in PagesAt(lay, s.db.log, moment)
    ensures FromHistory(s.file[p := PagesAt(lay, s.db.log, moment)[p]], lay.initial, s.db.log[..s.synced])
  {
    hide Redone, DbInv;
    var log := s.db.log[..s.synced];
    var file := s.file[p := PagesAt(lay, s.db.log, moment)[p]];
    assert log[..moment] == s.db.log[..moment];
    assert OfMoment(file, lay.initial, log, p, moment);
    forall q | q in file ensures exists k :: OfMoment(file, lay.initial, log, q, k) {
      if q != p {
        var k :| OfMoment(s.file, lay.initial, log, q, k);
        assert OfMoment(file, lay.initial, log, q, k);
      }
    }
  }

  lemma NextKeeps(lay: Layout, s: Server, e: Event)
    requires ServerInv(lay, s)
    ensures ServerInv(lay, NextServer(lay, s, e))
  {
    hide DbInv, NextDb, Crashed, FromHistory, ContentRight, Redone, CommittedIn, Scan;
    match e
    case Work(step) =>
      if !step.DoCrash? {
        var next := NextDb(s.db, step);
        LogGrows(s.db, step);
        StepKeeps(s.db, step);
        StoreOf(next);
        assert next.log[..s.synced] == s.db.log[..s.synced];
        if lay.content(Redone(lay.initial, next.log)) == next.store { ContentGrows(lay, s.db.log, next.log); }
      }
    case Sync(upTo) =>
      if s.synced <= upTo <= |s.db.log| {
        HistoryGrows(lay, s.file, s.db.log, s.synced, upTo);
        CommittedGrows(s.db.log, s.synced, upTo);
      }
    case WriteBack(p, moment) =>
      if moment <= s.synced && p in PagesAt(lay, s.db.log, moment) { WrittenBack(lay, s, p, moment); }
    case Acknowledge(t, lsn) =>
      if 1 <= lsn <= s.synced && s.db.log[lsn - 1].Commit? && s.db.log[lsn - 1].txn == t {
        RecordCommits(s.db.log, s.synced, lsn);
      }
    case CrashAt(kept) =>
      if s.synced <= kept <= |s.db.log| {
        CrashKeeps(s.db, kept);
        CrashedLog(s.db, kept);
        ContentCut(lay, s.db.log, kept);
        HistoryGrows(lay, s.file, s.db.log, s.synced, kept);
        CommittedGrows(s.db.log, s.synced, kept);
        assert s.db.log[..kept][..kept] == s.db.log[..kept];
      }
  }

  lemma CrashedLog(db: Db, n: nat)
    requires n <= |db.log|
    ensures Crashed(db, n).log == db.log[..n]
  {
  }

  lemma RecordCommits(log: seq<Record>, n: nat, lsn: nat)
    requires 1 <= lsn <= n <= |log| && log[lsn - 1].Commit?
    ensures log[lsn - 1].txn in CommittedIn(log[..n])
  {
    assert log[..n][lsn - 1] == log[lsn - 1];
  }

  lemma {:induction false} RunServerKeeps(lay: Layout, events: seq<Event>)
    requires lay.content(lay.initial) == map[]
    ensures ServerInv(lay, RunServer(lay, events))
  {
    hide ServerInv, NextServer;
    if events == [] {
      FreshServer(lay);
    } else {
      RunServerKeeps(lay, Front(events));
      NextKeeps(lay, RunServer(lay, Front(events)), Last(events));
    }
  }

  lemma FreshServer(lay: Layout)
    requires lay.content(lay.initial) == map[]
    ensures ServerInv(lay, Server(EMPTY_DB, lay.initial, 0, {}))
  {
    var none: seq<Record> := [];
    assert none[..0] == none;
    forall p | p in lay.initial ensures exists n :: OfMoment(lay.initial, lay.initial, none, p, n) {
      assert OfMoment(lay.initial, lay.initial, none, p, 0);
    }
  }

  // ---------------------------------------------------------------- what holds in every run

  /** Whatever part of the log a crash keeps, as long as it keeps what was synced: the file is torn only between
      logged moments, redoing the log over it gives pages that hold exactly the map the log describes, recovery ends
      with the map of the committed transactions, and every acknowledged transaction is among them. */
  lemma EveryRestartIsExact(lay: Layout, events: seq<Event>, n: nat, fx: nat -> Effects)
    requires lay.content(lay.initial) == map[]
    requires RunServer(lay, events).synced <= n <= |RunServer(lay, events).db.log|
    ensures var s := RunServer(lay, events);
            var log := s.db.log[..n];
            && WellFormed(log) && FromHistory(s.file, lay.initial, log)
            && lay.content(Redone(s.file, log)) == Scan(log).store
            && Recovered(log, fx).store == CommittedStore(log)
            && s.acknowledged <= CommittedIn(log)
  {
    hide RunServer, DbInv, FromHistory, Redone, CommittedIn, Scan, WellFormed, Recovered, CommittedStore;
    RunServerKeeps(lay, events);
    var s := RunServer(lay, events);
    var log := s.db.log[..n];
    StoreOf(s.db);
    PrefixWellFormed(s.db.log, n);
    HistoryGrows(lay, s.file, s.db.log, s.synced, n);
    RedoRestores(s.file, lay.initial, log);
    assert lay.content(PagesAt(lay, s.db.log, n)) == Scan(log).store;
    CommittedGrows(s.db.log, s.synced, n);
    var _ := CrashAtomicity(log, fx);
  }

  /** No event takes an acknowledgement back. */
  lemma {:induction false} AcknowledgedStays(lay: Layout, events: seq<Event>, more: seq<Event>)
    ensures RunServer(lay, events).acknowledged <= RunServer(lay, events + more).acknowledged
    decreases |more|
  {
    hide NextDb, Redone, Crashed;
    if more == [] {
      assert events + more == events;
    } else {
      AcknowledgedStays(lay, events, Front(more));
      assert Front(events + more) == events + Front(more) && Last(events + more) == Last(more);
    }
  }

  /** Durability: once a commit was acknowledged, the transaction is committed in every log that any later crash of any
      continuation keeps. */
  lemma AcknowledgedIsDurable(lay: Layout, events: seq<Event>, more: seq<Event>, n: nat, t: Txn)
    requires lay.content(lay.initial) == map[] && t in RunServer(lay, events).acknowledged
    requires RunServer(lay, events + more).synced <= n <= |RunServer(lay, events + more).db.log|
    ensures t in CommittedIn(RunServer(lay, events + more).db.log[..n])
  {
    hide RunServer, CommittedIn, DbInv, ContentRight, FromHistory;
    AcknowledgedStays(lay, events, more);
    RunServerKeeps(lay, events + more);
    CommittedGrows(RunServer(lay, events + more).db.log, RunServer(lay, events + more).synced, n);
  }

  lemma DoCommitIs(db: Db, t: Txn, raftIndex: nat)
    requires db.phase.Running? && t in db.live && db.live[t].active
    ensures NextDb(db, DoCommit(t, raftIndex)) == CommitTxn(db, t, raftIndex)
  {
  }

  lemma {:induction false} CommitKeepsPages(initial: Pages, log: seq<Record>, r: Record)
    requires r.Commit?
    ensures Redone(initial, log + [r]) == Redone(initial, log)
  {
    assert Front(log + [r]) == log && Last(log + [r]) == r;
  }

  lemma ContentNow(lay: Layout, log: seq<Record>)
    requires ContentRight(lay, log)
    ensures lay.content(Redone(lay.initial, log)) == Scan(log).store
  {
    hide Redone, Scan;
    assert log[..|log|] == log;
    assert lay.content(PagesAt(lay, log, |log|)) == Scan(log).store;
  }

  /** An active transaction can always commit, sync and be acknowledged: the commit record changes no page. */
  lemma CommitIsAcknowledged(lay: Layout, s: Server, t: Txn, raftIndex: nat)
    requires ServerInv(lay, s) && s.db.phase.Running? && t in s.db.live && s.db.live[t].active
    ensures var committed := NextServer(lay, s, Work(DoCommit(t, raftIndex)));
            var lsn := |committed.db.log|;
            var synced := NextServer(lay, committed, Sync(lsn));
            && committed.db == CommitTxn(s.db, t, raftIndex)
            && NextServer(lay, synced, Acknowledge(t, lsn)) == synced.(acknowledged := s.acknowledged + {t})
  {
    hide DbInv, FromHistory, CommittedIn, Scan, NextDb, Redone, ContentRight;
    DoCommitIs(s.db, t, raftIndex);
    CommitKeepsPages(lay.initial, s.db.log, Commit(t, s.db.live[t].last, raftIndex));
    StoreOf(s.db);
    ContentNow(lay, s.db.log);
  }

  // ---------------------------------------------------------------- the page cache

  /** What the cache publishes under a record number is the image that record holds. `read` gives the image behind the
      cache's bytes. */
  ghost predicate Logged(published: set<(nat, PageCaches.Image)>, log: seq<Record>, read: PageCaches.Payload -> Image) {
    forall e :: e in published ==> Holds(log, e.1.lsn, e.0, read(e.1.bytes))
  }

  ghost predicate Holds(log: seq<Record>, lsn: nat, p: Page, image: Image) {
    1 <= lsn <= |log| && p in EffectsOf(log[lsn - 1]) && EffectsOf(log[lsn - 1])[p] == image
  }

  /** The database file: what the cache has written, over the empty file. */
  ghost function FileOf(lay: Layout, pool: PageCaches.Pool, read: PageCaches.Payload -> Image): Pages {
    lay.initial + map n | n in pool.disk :: read(pool.disk[n].bytes)
  }

  lemma {:induction false} RecordDecides(lay: Layout, log: seq<Record>, lsn: nat, p: Page, image: Image)
    requires Holds(log, lsn, p, image)
    ensures p in PagesAt(lay, log, lsn) && PagesAt(lay, log, lsn)[p] == image
  {
    assert Last(log[..lsn]) == log[lsn - 1];
  }

  /** Every write that any run of the page cache makes is a WriteBack of the server, and puts the same image in the
      file: the image is of a moment that is already synced. */
  lemma EveryCacheWriteIsWriteBack(lay: Layout, s: Server, w: PageCaches.World, actions: seq<PageCaches.Action>, i: nat,
      read: PageCaches.Payload -> Image)
    requires PageCaches.Init(w) && i < |PageCaches.Run(w, actions).pool.writes|
    requires Logged(PageCaches.Run(w, actions).published, s.db.log, read)
    requires PageCaches.Run(w, actions).pool.writes[i].durable <= s.synced <= |s.db.log|
    ensures var write := PageCaches.Run(w, actions).pool.writes[i];
            NextServer(lay, s, WriteBack(write.page, write.image.lsn))
            == s.(file := s.file[write.page := read(write.image.bytes)])
  {
    hide Redone, PageCaches.Init, PageCaches.Run, Holds;
    PageCaches.WalBeforeData(w, actions, i);
    var write := PageCaches.Run(w, actions).pool.writes[i];
    var e := (write.page, write.image);
    assert Holds(s.db.log, e.1.lsn, e.0, read(e.1.bytes));
    RecordDecides(lay, s.db.log, e.1.lsn, e.0, read(e.1.bytes));
  }

  /** Whatever the cache did before a crash, redoing any log that keeps what the cache made durable restores, over the
      file the cache left, exactly the pages of the last record kept. */
  lemma RedoOverTheCachesFile(lay: Layout, w: PageCaches.World, actions: seq<PageCaches.Action>, log: seq<Record>,
      n: nat, read: PageCaches.Payload -> Image)
    requires PageCaches.Init(w) && Logged(PageCaches.Run(w, actions).published, log, read)
    requires PageCaches.Run(w, actions).pool.log.durable <= n <= |log|
    ensures var file := FileOf(lay, PageCaches.Run(w, actions).pool, read);
            FromHistory(file, lay.initial, log[..n]) && Redone(file, log[..n]) == PagesAt(lay, log, n)
  {
    hide Redone, PageCaches.Init, PageCaches.Run, Holds;
    PageCaches.RunKeeps(w, actions);
    var now := PageCaches.Run(w, actions);
    var file := FileOf(lay, now.pool, read);
    forall p | p in file ensures exists k :: OfMoment(file, lay.initial, log[..n], p, k) {
      if p in now.pool.disk {
        CachedMoment(lay, now, log, n, p, read);
      } else {
        assert log[..n][..0] == [];
        NothingRedone(lay.initial);
        assert OfMoment(file, lay.initial, log[..n], p, 0);
      }
    }
    RedoRestores(file, lay.initial, log[..n]);
  }

  lemma NothingRedone(pages: Pages)
    ensures Redone(pages, []) == pages
  {
  }

  lemma CachedMoment(lay: Layout, now: PageCaches.World, log: seq<Record>, n: nat, p: Page,
      read: PageCaches.Payload -> Image)
    requires PageCaches.Inv(now) && Logged(now.published, log, read)
    requires now.pool.log.durable <= n <= |log| && p in now.pool.disk
    ensures OfMoment(FileOf(lay, now.pool, read), lay.initial, log[..n], p, now.pool.disk[p].lsn)
  {
    hide Redone, Holds, PageCaches.LogInv, PageCaches.AllWritten;
    assert PageCaches.PageInv(now, p);
    var e := (p, now.pool.disk[p]);
    assert e in now.published;
    assert Holds(log, e.1.lsn, p, read(e.1.bytes));
    RecordDecides(lay, log, e.1.lsn, p, read(e.1.bytes));
    assert log[..n][..e.1.lsn] == log[..e.1.lsn];
  }
}
