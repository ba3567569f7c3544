/** The page cache, the database file and the log: no page reaches the file before its log record is durable. */
module PageCaches {
  import opened Options

  type Payload = nat

  /** A page image carries the number of the log record that describes its last change. */
  datatype Image = Image(lsn: nat, bytes: Payload)

  datatype Frame = Frame(image: Image, dirty: bool, pending: bool, needFlush: bool, refs: nat)

  datatype Write = Write(page: nat, image: Image, durable: nat)

  // ---------------------------------------------------------------- the log's durable end

  datatype Span = Span(base: nat, next: nat)

  /** Consecutive segments, the first record number, and the last number known to be on stable storage. */
  datatype Log = Log(segments: seq<Span>, initial: nat, durable: nat)

  ghost predicate Consecutive(segments: seq<Span>, initial: nat) {
    && segments != [] && segments[0].base == initial
    && (forall i :: 0 <= i < |segments| ==> segments[i].base <= segments[i].next)
    && (forall i :: 0 <= i < |segments| - 1 ==> segments[i].next == segments[i + 1].base)
  }

  ghost predicate LogInv(log: Log) {
    log.initial > 0 && Consecutive(log.segments, log.initial) && log.initial - 1 <= log.durable < Next(log)
  }

  function Next(log: Log): nat {
    if log.segments == [] then log.initial else log.segments[|log.segments| - 1].next
  }

  /** Synchronizes whole segments until the target is covered. */
  function SyncFrom(segments: seq<Span>, durable: nat, target: nat, i: nat): nat
    requires i <= |segments|
    decreases |segments| - i
  {
    if i == |segments| then durable
    else
      var s := segments[i];
      if s.next <= s.base || s.next - 1 <= durable then SyncFrom(segments, durable, target, i + 1)
      else if s.next - 1 >= target then s.next - 1
      else SyncFrom(segments, s.next - 1, target, i + 1)
  }

  function SyncThrough(log: Log, target: nat): Option<Log> {
    if target < log.initial || target >= Next(log) then None
    else if target <= log.durable then Some(log)
    else Some(log.(durable := SyncFrom(log.segments, log.durable, target, 0)))
  }

  lemma {:induction false} SyncFromCovers(segments: seq<Span>, initial: nat, durable: nat, target: nat, i: nat)
    requires Consecutive(segments, initial) && segments != [] && i <= |segments| && initial <= durable + 1
    requires durable < segments[|segments| - 1].next && target < segments[|segments| - 1].next
    requires i > 0 ==> segments[i - 1].next <= durable + 1
    ensures durable <= SyncFrom(segments, durable, target, i) < segments[|segments| - 1].next
    ensures target <= SyncFrom(segments, durable, target, i)
    decreases |segments| - i
  {
    hide Consecutive;
    if i < |segments| {
      var s := segments[i];
      NextGrows(segments, initial, i, |segments| - 1);
      SegmentStart(segments, initial, i);
      if s.next <= s.base || s.next - 1 <= durable {
        SyncFromCovers(segments, initial, durable, target, i + 1);
      } else if s.next - 1 < target {
        SyncFromCovers(segments, initial, s.next - 1, target, i + 1);
      }
    }
  }

  lemma {:induction false} NextGrows(segments: seq<Span>, initial: nat, i: nat, j: nat)
    requires Consecutive(segments, initial) && i <= j < |segments|
    ensures segments[i].next <= segments[j].next
    decreases j
  {
    if i < j {
      NextGrows(segments, initial, i, j - 1);
      assert segments[j - 1].next == segments[j].base;
    }
  }

  lemma SegmentStart(segments: seq<Span>, initial: nat, i: nat)
    requires Consecutive(segments, initial) && i < |segments|
    ensures segments[i].base <= segments[i].next && segments[i].base == if i == 0 then initial else segments[i - 1].next
  {
    if i > 0 { assert segments[i - 1].next == segments[i].base; }
  }

  /** A successful synchronization covers the target and never moves backwards. */
  lemma SyncCovers(log: Log, target: nat)
    requires LogInv(log)
    ensures SyncThrough(log, target).Some? <==> log.initial <= target < Next(log)
    ensures SyncThrough(log, target).Some? ==>
              var after := SyncThrough(log, target).value;
              LogInv(after) && log.durable <= after.durable && target <= after.durable && Next(after) == Next(log)
  {
    if log.durable < target < Next(log) {
      SyncFromCovers(log.segments, log.initial, log.durable, target, 0);
    }
  }

  function Appended(log: Log, rollover: bool): Log {
    if log.segments == [] || rollover then log.(segments := log.segments + [Span(Next(log), Next(log) + 1)])
    else
      var last := |log.segments| - 1;
      log.(segments := log.segments[last := log.segments[last].(next := Next(log) + 1)])
  }

  lemma AppendKeeps(log: Log, rollover: bool)
    requires LogInv(log)
    ensures LogInv(Appended(log, rollover)) && Next(Appended(log, rollover)) == Next(log) + 1
    ensures Appended(log, rollover).durable == log.durable
  {
  }

  // ---------------------------------------------------------------- the cache

  /** `writes` is the history of the database file, `disk` its present contents. */
  datatype Pool = Pool(cache: map<nat, Frame>, unpinned: seq<nat>, tracked: set<nat>, disk: map<nat, Image>,
                       writes: seq<Write>, log: Log, capacity: nat)

  datatype Status =
    | Success | NoEvictablePage | CacheSpillFailed | DbWriteFailed | PageNotCached | PageCorrupt | PageOutOfRange | Busy

  predicate Clean(cache: map<nat, Frame>, n: nat) {
    n in cache && !cache[n].pending && !cache[n].dirty
  }

  predicate Spillable(cache: map<nat, Frame>, n: nat) {
    n in cache && !cache[n].pending
  }

  /** The last clean page of the list, or else the last dirty one that is not pending. */
  function LastClean(cache: map<nat, Frame>, list: seq<nat>): Option<nat> {
    if list == [] then None
    else
      var n := list[|list| - 1];
      if Clean(cache, n) then Some(n) else LastClean(cache, list[..|list| - 1])
  }

  function LastSpillable(cache: map<nat, Frame>, list: seq<nat>): Option<nat> {
    if list == [] then None
    else
      var n := list[|list| - 1];
      if Spillable(cache, n) then Some(n) else LastSpillable(cache, list[..|list| - 1])
  }

  function Victim(cache: map<nat, Frame>, list: seq<nat>): Option<nat> {
    var clean := LastClean(cache, list);
    if clean.Some? then clean else LastSpillable(cache, list)
  }

  lemma {:induction false} LastCleanIs(cache: map<nat, Frame>, list: seq<nat>)
    ensures LastClean(cache, list).Some? ==>
            LastClean(cache, list).value in list && Clean(cache, LastClean(cache, list).value)
    ensures LastClean(cache, list).None? <==> forall n :: n in list ==> !Clean(cache, n)
  {
    if list != [] {
      LastCleanIs(cache, list[..|list| - 1]);
      assert list == list[..|list| - 1] + [list[|list| - 1]];
    }
  }

  lemma {:induction false} LastSpillableIs(cache: map<nat, Frame>, list: seq<nat>)
    ensures LastSpillable(cache, list).Some? ==>
              LastSpillable(cache, list).value in list && Spillable(cache, LastSpillable(cache, list).value)
    ensures LastSpillable(cache, list).None? <==> forall n :: n in list ==> !Spillable(cache, n)
  {
    if list != [] {
      LastSpillableIs(cache, list[..|list| - 1]);
      assert list == list[..|list| - 1] + [list[|list| - 1]];
    }
  }

  /** A victim is an unpinned page without unlogged bytes, clean whenever there is such a clean page; there is none
      exactly when every unpinned page is pending. */
  lemma VictimIs(cache: map<nat, Frame>, list: seq<nat>)
    requires forall n :: n in list ==> n in cache
    ensures Victim(cache, list).Some? ==>
              && Victim(cache, list).value in list && Victim(cache, list).value in cache
              && !cache[Victim(cache, list).value].pending
              && (cache[Victim(cache, list).value].dirty ==> forall n :: n in list ==>
                    cache[n].pending || cache[n].dirty)
    ensures Victim(cache, list).None? <==> forall n :: n in list ==> cache[n].pending
  {
    LastCleanIs(cache, list);
    LastSpillableIs(cache, list);
  }

  function Without(list: seq<nat>, n: nat): seq<nat> {
    if list == [] then []
    else if list[0] == n then Without(list[1..], n)
    else [list[0]] + Without(list[1..], n)
  }

  lemma {:induction false} WithoutIs(list: seq<nat>, n: nat)
    ensures forall m :: m in Without(list, n) <==> m in list && m != n
  {
    if list != [] {
      WithoutIs(list[1..], n);
      assert list == [list[0]] + list[1..];
    }
  }

  /** The image goes to the file, after the log up to the image's own record is durable. */
  function FlushPage(p: Pool, n: nat): (Pool, Status) {
    if n !in p.cache then (p.(tracked := p.tracked - {n}), Success)
    else if p.cache[n].pending then (p, CacheSpillFailed)
    else if !p.cache[n].dirty then
      (p.(cache := p.cache[n := p.cache[n].(needFlush := false)], tracked := p.tracked - {n}), Success)
    else
      var image := p.cache[n].image;
      if image.lsn == 0 then (p, CacheSpillFailed)
      else
        var synced := SyncThrough(p.log, image.lsn);
        if synced.None? then (p, DbWriteFailed)
        else
          (p.(cache := p.cache[n := p.cache[n].(dirty := false, needFlush := false)],
              tracked := p.tracked - {n},
              disk := p.disk[n := image],
              writes := p.writes + [Write(n, image, synced.value.durable)],
              log := synced.value), Success)
  }

  datatype PutOutcome = Placed(pool: Pool) | NoVictim | MustFlush(victim: nat)

  function Evicted(p: Pool, n: nat): Pool {
    p.(cache := p.cache - {n}, unpinned := Without(p.unpinned, n),
       tracked := if n in p.cache && p.cache[n].dirty then p.tracked - {n} else p.tracked)
  }

  function Placing(p: Pool, n: nat, f: Frame): Pool {
    p.(cache := p.cache[n := f], unpinned := if f.refs == 0 then p.unpinned + [n] else p.unpinned)
  }

  /** Puts a frame into the cache, making room when it is full. */
  function Put(p: Pool, n: nat, f: Frame): PutOutcome {
    if |p.cache| != p.capacity then Placed(Placing(p, n, f))
    else
      var victim := Victim(p.cache, p.unpinned);
      if victim.None? || victim.value !in p.cache then NoVictim
      else if p.cache[victim.value].dirty && p.cache[victim.value].needFlush then MustFlush(victim.value)
      else Placed(Placing(Evicted(p, victim.value), n, f))
  }

  /** A dirty victim is flushed first and the frame put again. */
  function CachePut(p: Pool, n: nat, f: Frame): (Pool, Status) {
    match Put(p, n, f)
    case Placed(after) => (after, Success)
    case NoVictim => (p, NoEvictablePage)
    case MustFlush(victim) =>
      var (flushed, status) := FlushPage(p, victim);
      if status != Success then (flushed, status)
      else
        match Put(flushed, n, f)
        case Placed(after) => (after, Success)
        case NoVictim => (flushed, NoEvictablePage)
        case MustFlush(_) => (flushed, CacheSpillFailed)
  }

  /** The cached frame, or the image on disk brought into the cache. */
  function Load(p: Pool, n: nat): (Pool, Status) {
    if n in p.cache then (p, Success)
    else if n !in p.disk then (p, PageOutOfRange)
    else CachePut(p, n, Frame(p.disk[n], false, false, false, 0))
  }

  function Pinned(p: Pool, n: nat): Pool
    requires n in p.cache
  {
    p.(cache := p.cache[n := p.cache[n].(refs := p.cache[n].refs + 1)], unpinned := Without(p.unpinned, n))
  }

  function Unpinned(p: Pool, n: nat): Pool
    requires n in p.cache && p.cache[n].refs > 0
  {
    var f := p.cache[n].(refs := p.cache[n].refs - 1);
    p.(cache := p.cache[n := f], unpinned := if f.refs == 0 then p.unpinned + [n] else p.unpinned)
  }

  function Marked(p: Pool, n: nat): Pool
    requires n in p.cache
  {
    p.(cache := p.cache[n := p.cache[n].(dirty := true, pending := true, needFlush := true)],
      tracked := p.tracked + {n})
  }

  // ---------------------------------------------------------------- the world

  /** `latest` is what each page should read as; `published` are the images that were given a log record number. */
  datatype World = World(pool: Pool, latest: map<nat, Payload>, published: set<(nat, Image)>)

  datatype Action =
    | Get(page: nat)
    | Unref(page: nat)
    | BeginWrite(page: nat)
    | Modify(page: nat, bytes: Payload)
    | Install(page: nat, lsn: nat)
    | Create(page: nat, bytes: Payload)
    | Flush(page: nat)
    | AppendRecord(rollover: bool)

  function Step(w: World, a: Action): World {
    var p := w.pool;
    match a
    case Get(n) =>
      var (after, status) := Load(p, n);
      w.(pool := if status == Success && n in after.cache then Pinned(after, n) else after)
    case Unref(n) =>
      if n in p.cache && p.cache[n].refs > 0 then w.(pool := Unpinned(p, n)) else w
    case BeginWrite(n) =>
      var (after, status) := Load(p, n);
      w.(pool := if status == Success && n in after.cache then Marked(after, n) else after)
    case Modify(n, bytes) =>
      if n in p.cache && p.cache[n].pending then
        w.(pool := p.(cache := p.cache[n := p.cache[n].(image := p.cache[n].image.(bytes := bytes))]),
          latest := w.latest[n := bytes])
      else w
    case Install(n, lsn) =>
      if lsn != 0 && n in p.cache && p.cache[n].pending then
        var image := p.cache[n].image.(lsn := lsn);
        w.(pool := p.(cache := p.cache[n := p.cache[n].(image := image, dirty := true, pending := false)]),
          published := w.published + {(n, image)})
      else w
    case Create(n, bytes) =>
      if n in p.cache || n in p.disk then w
      else
        var (after, status) := CachePut(p.(tracked := p.tracked + {n}), n, Frame(Image(0, bytes), true, true, true, 1));
        if status == Success then w.(pool := after, latest := w.latest[n := bytes])
        else w.(pool := after.(tracked := after.tracked - {n}))
    case Flush(n) => w.(pool := FlushPage(p, n).0)
    case AppendRecord(rollover) => w.(pool := p.(log := Appended(p.log, rollover)))
  }

  function Run(w: World, actions: seq<Action>): World {
    if actions == [] then w else Step(Run(w, actions[..|actions| - 1]), actions[|actions| - 1])
  }

  // ---------------------------------------------------------------- the invariant

  /** Dirty implies need-flushing and tracked, unlogged implies dirty, and a clean frame equals the file. */
  ghost predicate FrameInv(p: Pool, published: set<(nat, Image)>, n: nat) {
    n in p.cache ==>
      var f := p.cache[n];
      && (f.dirty ==> f.needFlush) && (f.pending ==> f.dirty)
      && (!f.dirty ==> n in p.disk && p.disk[n] == f.image)
      && (f.dirty && !f.pending ==> (n, f.image) in published)
      && (f.dirty ==> n in p.tracked)
  }

  ghost predicate DiskInv(p: Pool, published: set<(nat, Image)>, n: nat) {
    n in p.disk ==> (n, p.disk[n]) in published && p.disk[n].lsn <= p.log.durable
  }

  /** The newest bytes of a page are in its frame, or in the file if it has no frame. */
  ghost predicate LatestInv(p: Pool, latest: map<nat, Payload>, n: nat) {
    && (n in p.cache || n in p.disk ==> n in latest)
    && (n in latest ==>
          if n in p.cache then p.cache[n].image.bytes == latest[n]
          else n in p.disk && p.disk[n].bytes == latest[n])
  }

  /** The eviction list holds exactly the frames nobody references. */
  ghost predicate ListInv(p: Pool, n: nat) {
    n in p.unpinned <==> n in p.cache && p.cache[n].refs == 0
  }

  ghost predicate PageInv(w: World, n: nat) {
    && FrameInv(w.pool, w.published, n) && DiskInv(w.pool, w.published, n)
    && LatestInv(w.pool, w.latest, n) && ListInv(w.pool, n)
  }

  ghost predicate WrittenWell(write: Write, published: set<(nat, Image)>) {
    0 < write.image.lsn <= write.durable && (write.page, write.image) in published
  }

  ghost predicate AllWritten(w: World) {
    forall i :: 0 <= i < |w.pool.writes| ==> WrittenWell(w.pool.writes[i], w.published)
  }

  ghost predicate Inv(w: World) {
    LogInv(w.pool.log) && AllWritten(w) && forall n: nat :: PageInv(w, n)
  }

  /** An empty cache over a file whose images are all covered by the log. */
  ghost predicate Init(w: World) {
    var p := w.pool;
    && LogInv(p.log) && p.cache == map[] && p.unpinned == [] && p.tracked == {} && p.writes == []
    && w.latest == (map n | n in p.disk :: p.disk[n].bytes)
    && (forall n: nat :: DiskInv(p, w.published, n))
  }

  lemma InitHolds(w: World)
    requires Init(w)
    ensures Inv(w)
  {
    forall n: nat ensures PageInv(w, n) { assert DiskInv(w.pool, w.published, n); }
  }

  /** Flushing keeps every frame, and never touches a frame with unlogged bytes. */
  lemma FlushKeeps(w: World, n: nat)
    requires Inv(w)
    ensures Inv(w.(pool := FlushPage(w.pool, n).0))
    ensures var after := FlushPage(w.pool, n).0;
            && after.cache.Keys == w.pool.cache.Keys && after.unpinned == w.pool.unpinned
            && after.capacity == w.pool.capacity
            && (forall m :: m in w.pool.disk ==> m in after.disk)
            && (forall m :: m in w.pool.cache && (m != n || w.pool.cache[m].pending) ==>
                  after.cache[m] == w.pool.cache[m])
            && (forall m :: m in w.pool.cache ==>
                  after.cache[m].image == w.pool.cache[m].image && after.cache[m].refs == w.pool.cache[m].refs)
    ensures FlushPage(w.pool, n).1 == Success && n in w.pool.cache ==> !FlushPage(w.pool, n).0.cache[n].dirty
  {
    hide SyncThrough, LogInv;
    var w2 := w.(pool := FlushPage(w.pool, n).0);
    assert PageInv(w, n);
    if n in w.pool.cache { SyncCovers(w.pool.log, w.pool.cache[n].image.lsn); }
    forall m: nat ensures PageInv(w2, m) { assert PageInv(w, m); }
  }

  /** The log holds this record, so it can be made durable. */
  ghost predicate HeldByLog(log: Log, lsn: nat) {
    log.initial <= lsn < Next(log)
  }

  /** No unlogged bytes, and clean or under a record the log holds. */
  ghost predicate Flushable(f: Frame, log: Log) {
    !f.pending && (f.dirty ==> HeldByLog(log, f.image.lsn))
  }

  /** Flushing succeeds unless the page has unlogged bytes or is dirty under a record the log does not hold; a failure
      changes nothing, and a dirty page is then in the file as it is in the cache. */
  lemma FlushLaw(p: Pool, n: nat)
    requires LogInv(p.log)
    ensures var (after, status) := FlushPage(p, n);
            && (status == Success <==>
                  n in p.cache ==> Flushable(p.cache[n], p.log))
            && (status != Success ==> after == p)
            && after.cache.Keys == p.cache.Keys && after.unpinned == p.unpinned && after.capacity == p.capacity
            && after.log.initial == p.log.initial && Next(after.log) == Next(p.log)
            && p.log.durable <= after.log.durable
            && (forall m :: m in p.cache && m != n ==> after.cache[m] == p.cache[m])
            && (status == Success && n in p.cache ==>
                  after.cache[n] == p.cache[n].(dirty := false, needFlush := false)
                  && after.disk == if p.cache[n].dirty then p.disk[n := p.cache[n].image] else p.disk)
            && (n !in p.cache || !p.cache[n].dirty ==> after.disk == p.disk && after.log == p.log)
  {
    hide LogInv, SyncFrom;
    if n in p.cache {
      LogStarts(p.log);
      SyncCovers(p.log, p.cache[n].image.lsn);
    }
  }

  lemma LogStarts(log: Log)
    requires LogInv(log)
    ensures log.initial > 0
  {
  }

  /** A clean page without references may go: the file has its bytes. */
  lemma EvictKeeps(w: World, n: nat)
    requires Inv(w) && n in w.pool.unpinned && n in w.pool.cache && !w.pool.cache[n].dirty
    ensures Inv(w.(pool := Evicted(w.pool, n)))
  {
    hide LogInv, Without;
    WithoutIs(w.pool.unpinned, n);
    forall m: nat ensures PageInv(w.(pool := Evicted(w.pool, n)), m) { assert PageInv(w, m); }
  }

  /** A frame fit for a page without one: clean and equal to the file, or new and still to be logged. */
  ghost predicate Fresh(p: Pool, n: nat, f: Frame) {
    && n !in p.cache
    && if f.dirty then f.pending && f.needFlush && n in p.tracked
       else !f.pending && n in p.disk && p.disk[n] == f.image
  }

  ghost function Shown(w: World, p: Pool, n: nat, f: Frame): World {
    w.(pool := p, latest := w.latest[n := f.image.bytes])
  }

  lemma PlaceKeeps(w: World, n: nat, f: Frame)
    requires Inv(w) && Fresh(w.pool, n, f)
    ensures Inv(Shown(w, Placing(w.pool, n, f), n, f))
  {
    hide LogInv;
    forall m: nat ensures PageInv(Shown(w, Placing(w.pool, n, f), n, f), m) { assert PageInv(w, m); }
  }

  /** Frames that are referenced or hold unlogged bytes stay as they are. */
  ghost predicate Protected(before: Pool, after: Pool) {
    forall m :: m in before.cache && (before.cache[m].refs > 0 || before.cache[m].pending) ==>
      && m in after.cache && after.cache[m].image == before.cache[m].image
      && after.cache[m].refs == before.cache[m].refs && after.cache[m].pending == before.cache[m].pending
  }

  lemma UnpinnedCached(w: World)
    requires Inv(w)
    ensures forall n: nat :: n in w.pool.unpinned ==> n in w.pool.cache && w.pool.cache[n].refs == 0
  {
    forall n: nat | n in w.pool.unpinned ensures n in w.pool.cache && w.pool.cache[n].refs == 0 {
      assert PageInv(w, n);
    }
  }

  lemma PutKeeps(w: World, n: nat, f: Frame)
    requires Inv(w) && Fresh(w.pool, n, f)
    ensures Put(w.pool, n, f).Placed? ==>
              var after := Put(w.pool, n, f).pool;
              Inv(Shown(w, after, n, f)) && n in after.cache && after.cache[n] == f && Protected(w.pool, after)
    ensures Put(w.pool, n, f).MustFlush? ==>
              var victim := Put(w.pool, n, f).victim;
              victim != n && victim in w.pool.cache && !w.pool.cache[victim].pending && w.pool.cache[victim].refs == 0
  {
    hide Inv, Victim, Evicted, Placing;
    if |w.pool.cache| != w.pool.capacity {
      PlaceKeeps(w, n, f);
      PlacingIs(w.pool, n, f);
    } else {
      UnpinnedCached(w);
      VictimIs(w.pool.cache, w.pool.unpinned);
      var victim := Victim(w.pool.cache, w.pool.unpinned);
      if victim.Some? {
        var v := victim.value;
        assert w.pool.cache[v].dirty ==> w.pool.cache[v].needFlush by { assert PageInv(w, v) by { AtPage(w, v); } }
        if !w.pool.cache[v].dirty {
          EvictKeeps(w, v);
          var w2 := w.(pool := Evicted(w.pool, v));
          EvictedIs(w.pool, v, n, f);
          PlaceKeeps(w2, n, f);
          PlacingIs(w2.pool, n, f);
        }
      }
    }
  }

  lemma AtPage(w: World, n: nat)
    requires Inv(w)
    ensures PageInv(w, n)
  {
  }

  lemma PlacingIs(p: Pool, n: nat, f: Frame)
    requires n !in p.cache
    ensures var after := Placing(p, n, f); n in after.cache && after.cache[n] == f && Protected(p, after)
  {
  }

  lemma EvictedIs(p: Pool, v: nat, n: nat, f: Frame)
    requires v in p.cache && p.cache[v].refs == 0 && !p.cache[v].pending && !p.cache[v].dirty && Fresh(p, n, f)
    ensures Fresh(Evicted(p, v), n, f) && Protected(p, Evicted(p, v))
    ensures Protected(p, Placing(Evicted(p, v), n, f))
  {
  }

  /** Making room, flushing if need be, keeps the invariant; on success the frame is in the cache. */
  lemma CachePutKeeps(w: World, n: nat, f: Frame)
    requires Inv(w) && Fresh(w.pool, n, f)
    ensures var (after, status) := CachePut(w.pool, n, f);
            && (if status == Success then Inv(Shown(w, after, n, f)) && n in after.cache && after.cache[n] == f
                else Inv(w.(pool := after)) && n !in after.cache)
            && Protected(w.pool, after)
  {
    hide Inv, Put, FlushPage, LogInv;
    PutKeeps(w, n, f);
    match Put(w.pool, n, f)
    case Placed(_) => assert w.(pool := w.pool) == w;
    case NoVictim => assert w.(pool := w.pool) == w;
    case MustFlush(victim) =>
      FlushKeeps(w, victim);
      var w2 := w.(pool := FlushPage(w.pool, victim).0);
      FlushedFresh(w, victim, n, f);
      PutKeeps(w2, n, f);
  }

  lemma FlushedFresh(w: World, victim: nat, n: nat, f: Frame)
    requires Inv(w) && Fresh(w.pool, n, f) && victim != n && victim in w.pool.cache
    ensures Fresh(FlushPage(w.pool, victim).0, n, f)
  {
    hide SyncThrough;
  }

  /** A loaded page shows its newest bytes. */
  lemma LoadKeeps(w: World, n: nat)
    requires Inv(w)
    ensures var (after, status) := Load(w.pool, n);
            && Inv(w.(pool := after)) && Protected(w.pool, after)
            && (status == Success ==> n in after.cache && n in w.latest && after.cache[n].image.bytes == w.latest[n])
  {
    hide Inv, CachePut;
    AtPage(w, n);
    assert w.(pool := w.pool) == w;
    if n !in w.pool.cache && n in w.pool.disk {
      var f := Frame(w.pool.disk[n], false, false, false, 0);
      CachePutKeeps(w, n, f);
      assert w.latest[n := w.pool.disk[n].bytes] == w.latest;
    }
  }

  // ---------------------------------------------------------------- every step, every run

  lemma PinKeeps(w: World, n: nat)
    requires Inv(w) && n in w.pool.cache
    ensures Inv(w.(pool := Pinned(w.pool, n)))
  {
    hide LogInv, Without;
    WithoutIs(w.pool.unpinned, n);
    forall m: nat ensures PageInv(w.(pool := Pinned(w.pool, n)), m) { assert PageInv(w, m); }
  }

  lemma UnpinKeeps(w: World, n: nat)
    requires Inv(w) && n in w.pool.cache && w.pool.cache[n].refs > 0
    ensures Inv(w.(pool := Unpinned(w.pool, n)))
  {
    hide LogInv;
    forall m: nat ensures PageInv(w.(pool := Unpinned(w.pool, n)), m) { assert PageInv(w, m); }
  }

  lemma MarkKeeps(w: World, n: nat)
    requires Inv(w) && n in w.pool.cache
    ensures Inv(w.(pool := Marked(w.pool, n)))
  {
    hide LogInv;
    forall m: nat ensures PageInv(w.(pool := Marked(w.pool, n)), m) { assert PageInv(w, m); }
  }

  lemma ModifyKeeps(w: World, n: nat, bytes: Payload)
    requires Inv(w)
    ensures Inv(Step(w, Modify(n, bytes)))
  {
    hide LogInv;
    forall m: nat ensures PageInv(Step(w, Modify(n, bytes)), m) { assert PageInv(w, m); }
  }

  lemma InstallKeeps(w: World, n: nat, lsn: nat)
    requires Inv(w)
    ensures Inv(Step(w, Install(n, lsn)))
  {
    hide LogInv;
    forall m: nat ensures PageInv(Step(w, Install(n, lsn)), m) { assert PageInv(w, m); }
  }

  lemma TrackedKeeps(w: World, n: nat)
    requires Inv(w) && n !in w.pool.cache
    ensures Inv(w.(pool := w.pool.(tracked := w.pool.tracked + {n})))
    ensures Inv(w.(pool := w.pool.(tracked := w.pool.tracked - {n})))
  {
    hide LogInv;
    forall m: nat
      ensures PageInv(w.(pool := w.pool.(tracked := w.pool.tracked + {n})), m)
      ensures PageInv(w.(pool := w.pool.(tracked := w.pool.tracked - {n})), m)
    {
      assert PageInv(w, m);
    }
  }

  lemma CreateKeeps(w: World, n: nat, bytes: Payload)
    requires Inv(w)
    ensures Inv(Step(w, Create(n, bytes)))
    ensures Protected(w.pool, Step(w, Create(n, bytes)).pool)
  {
    hide Inv, CachePut;
    if n !in w.pool.cache && n !in w.pool.disk {
      TrackedKeeps(w, n);
      var p2 := w.pool.(tracked := w.pool.tracked + {n});
      var f := Frame(Image(0, bytes), true, true, true, 1);
      CachePutKeeps(w.(pool := p2), n, f);
      var (after, status) := CachePut(p2, n, f);
      if status != Success { TrackedKeeps(w.(pool := after), n); }
    }
  }

  lemma AppendRecordKeeps(w: World, rollover: bool)
    requires Inv(w)
    ensures Inv(Step(w, AppendRecord(rollover)))
  {
    hide Appended, LogInv;
    AppendKeeps(w.pool.log, rollover);
    forall m: nat ensures PageInv(Step(w, AppendRecord(rollover)), m) { assert PageInv(w, m); }
  }

  lemma StepKeeps(w: World, a: Action)
    requires Inv(w)
    ensures Inv(Step(w, a))
  {
    hide Inv, Load, FlushPage, CachePut, Pinned, Unpinned, Marked, Appended;
    match a
    case Get(n) =>
      LoadKeeps(w, n);
      var (after, status) := Load(w.pool, n);
      if status == Success { PinKeeps(w.(pool := after), n); }
    case Unref(n) => if n in w.pool.cache && w.pool.cache[n].refs > 0 { UnpinKeeps(w, n); }
    case BeginWrite(n) =>
      LoadKeeps(w, n);
      var (after, status) := Load(w.pool, n);
      if status == Success { MarkKeeps(w.(pool := after), n); }
    case Modify(n, bytes) => ModifyKeeps(w, n, bytes);
    case Install(n, lsn) => InstallKeeps(w, n, lsn);
    case Create(n, bytes) => CreateKeeps(w, n, bytes);
    case Flush(n) => FlushKeeps(w, n);
    case AppendRecord(rollover) => AppendRecordKeeps(w, rollover);
  }

  lemma {:induction false} RunKeeps(w: World, actions: seq<Action>)
    requires Init(w)
    ensures Inv(Run(w, actions))
  {
    hide Inv, Init, Step;
    if actions == [] {
      InitHolds(w);
    } else {
      RunKeeps(w, actions[..|actions| - 1]);
      StepKeeps(Run(w, actions[..|actions| - 1]), actions[|actions| - 1]);
    }
  }

  /** In every run, each image ever written to the database file was published under a log record that was durable at
      that moment. */
  lemma WalBeforeData(w: World, actions: seq<Action>, i: nat)
    requires Init(w) && i < |Run(w, actions).pool.writes|
    ensures var write := Run(w, actions).pool.writes[i];
            0 < write.image.lsn <= write.durable && (write.page, write.image) in Run(w, actions).published
  {
    RunKeeps(w, actions);
  }

  /** In every run, reading a page gives the bytes last stored in it, whether they are cached or come from the file. */
  lemma ReadsLatest(w: World, actions: seq<Action>, n: nat)
    requires Init(w)
    ensures var now := Run(w, actions);
            var (after, status) := Load(now.pool, n);
            status == Success ==> n in after.cache && n in now.latest && after.cache[n].image.bytes == now.latest[n]
  {
    hide Inv, Init, Load;
    RunKeeps(w, actions);
    LoadKeeps(Run(w, actions), n);
  }

  /** No step takes away a frame that is referenced or holds unlogged bytes. */
  lemma ProtectedStays(w: World, a: Action, n: nat)
    requires Inv(w) && n in w.pool.cache && (w.pool.cache[n].refs > 0 || w.pool.cache[n].pending)
    ensures n in Step(w, a).pool.cache
  {
    hide Inv, Load, FlushPage, CachePut;
    match a
    case Get(m) => LoadKeeps(w, m);
    case BeginWrite(m) => LoadKeeps(w, m);
    case Create(m, bytes) => CreateKeeps(w, m, bytes);
    case Flush(m) => FlushKeeps(w, m);
    case Unref(_) | Modify(_, _) | Install(_, _) | AppendRecord(_) =>
  }

  /** Unlogged bytes never reach the file. */
  lemma PendingNotWritten(w: World, a: Action, n: nat)
    requires Inv(w) && n in w.pool.cache && w.pool.cache[n].pending
    ensures n in Step(w, a).pool.disk <==> n in w.pool.disk
    ensures n in w.pool.disk ==> Step(w, a).pool.disk[n] == w.pool.disk[n]
  {
    hide Inv, Put, SyncThrough, Victim;
    match a
    case Get(m) =>
      SpillSpares(w, m, Frame(if m in w.pool.disk then w.pool.disk[m] else Image(0, 0), false, false, false, 0), n);
    case BeginWrite(m) =>
      SpillSpares(w, m, Frame(if m in w.pool.disk then w.pool.disk[m] else Image(0, 0), false, false, false, 0), n);
    case Create(m, bytes) =>
      if m !in w.pool.cache { TrackedKeeps(w, m); }
      SpillSpares(w.(pool := w.pool.(tracked := w.pool.tracked + {m})), m, Frame(Image(0, bytes), true, true, true, 1),
        n);
    case Flush(m) =>
    case Unref(_) | Modify(_, _) | Install(_, _) | AppendRecord(_) =>
  }

  lemma SpillSpares(w: World, m: nat, f: Frame, n: nat)
    requires n in w.pool.cache && w.pool.cache[n].pending
    ensures var after := CachePut(w.pool, m, f).0;
            (n in after.disk <==> n in w.pool.disk) && (n in w.pool.disk ==> after.disk[n] == w.pool.disk[n])
  {
    hide Victim, SyncThrough, Without;
  }

  // ---------------------------------------------------------------- flushing everything

  function FlushEach(p: Pool, pages: seq<nat>): (Pool, Status)
    decreases |pages|
  {
    if pages == [] then (p, Success)
    else
      var (after, status) := FlushPage(p, pages[0]);
      if status != Success then (after, status) else FlushEach(after, pages[1..])
  }

  lemma {:induction false} FlushEachKeeps(w: World, pages: seq<nat>)
    requires Inv(w)
    ensures var (after, status) := FlushEach(w.pool, pages);
            && Inv(w.(pool := after)) && after.cache.Keys == w.pool.cache.Keys
            && (forall n :: n in w.pool.cache && !w.pool.cache[n].dirty ==> !after.cache[n].dirty)
            && (status == Success ==> forall n :: n in pages && n in after.cache ==> !after.cache[n].dirty)
    decreases |pages|
  {
    hide Inv, FlushPage;
    assert w.(pool := w.pool) == w;
    if pages != [] {
      FlushKeeps(w, pages[0]);
      FlushOnlyCleans(w, pages[0]);
      var w2 := w.(pool := FlushPage(w.pool, pages[0]).0);
      FlushEachKeeps(w2, pages[1..]);
      assert pages == [pages[0]] + pages[1..];
    }
  }

  lemma FlushOnlyCleans(w: World, n: nat)
    ensures forall m :: m in w.pool.cache && !w.pool.cache[m].dirty ==>
              m in FlushPage(w.pool, n).0.cache && !FlushPage(w.pool, n).0.cache[m].dirty
  {
    hide SyncThrough;
  }

  /** When flushing all tracked pages succeeds, the file alone holds the newest bytes of every page. */
  lemma FlushAllCompletes(w: World, actions: seq<Action>, pages: seq<nat>)
    requires Init(w)
    requires forall n :: n in Run(w, actions).pool.tracked ==> n in pages
    ensures var now := Run(w, actions);
            var (after, status) := FlushEach(now.pool, pages);
            status == Success ==> forall n :: n in now.latest ==>
              n in after.disk && after.disk[n].bytes == now.latest[n]
  {
    hide Init, FlushEach, LogInv;
    var now := Run(w, actions);
    RunKeeps(w, actions);
    FlushEachKeeps(now, pages);
    var (after, status) := FlushEach(now.pool, pages);
    if status == Success {
      forall n: nat | n in now.latest ensures n in after.disk && after.disk[n].bytes == now.latest[n] {
        assert PageInv(now, n);
        assert PageInv(now.(pool := after), n);
      }
    }
  }

  // ---------------------------------------------------------------- the pager

  /** Walks the segments in order and stops once the target is durable. */
  method SyncSegments(segments: seq<Span>, start: nat, target: nat) returns (durable: nat)
    ensures durable == SyncFrom(segments, start, target, 0)
  {
    durable := start;
    for i := 0 to |segments|
      invariant SyncFrom(segments, start, target, 0) == SyncFrom(segments, durable, target, i)
    {
      var s := segments[i];
      if s.next <= s.base || s.next - 1 <= durable { continue; }
      durable := s.next - 1;
      if durable >= target { return; }
    }
  }

  /** Looks for a clean page from the end of the list, remembering the first dirty one on the way. */
  method FindVictim(cache: map<nat, Frame>, list: seq<nat>) returns (victim: Option<nat>)
    requires forall n :: n in list ==> n in cache
    ensures victim == Victim(cache, list)
  {
    victim := None;
    var i := |list|;
    assert list[..i] == list;
    while i > 0
      invariant 0 <= i <= |list|
      invariant LastClean(cache, list) == LastClean(cache, list[..i])
      invariant LastSpillable(cache, list) == if victim.Some? then victim else LastSpillable(cache, list[..i])
    {
      var n := list[i - 1];
      assert list[..i][..i - 1] == list[..i - 1] && list[..i][i - 1] == n;
      if !cache[n].pending {
        if !cache[n].dirty { return Some(n); }
        if victim.None? { victim := Some(n); }
      }
      i := i - 1;
    }
  }

  datatype PutStatus = InCache | NoRoom | Spill(victim: nat)

  class Pager {
    var cache: map<nat, Frame>
    var unpinned: seq<nat>
    var tracked: set<nat>
    var disk: map<nat, Image>
    var log: Log
    const capacity: nat
    ghost var writes: seq<Write>
    ghost var latest: map<nat, Payload>
    ghost var published: set<(nat, Image)>

    ghost function State(): Pool
      reads this
    {
      Pool(cache, unpinned, tracked, disk, writes, log, capacity)
    }

    ghost function Now(): World
      reads this
    {
      World(State(), latest, published)
    }

    ghost predicate Valid()
      reads this
    {
      Inv(Now())
    }

    /** An empty cache over a database file whose images the log covers. */
    constructor (disk: map<nat, Image>, log: Log, capacity: nat)
      requires LogInv(log) && (forall n :: n in disk ==> disk[n].lsn <= log.durable)
      ensures Valid() && Init(Now()) && State() == Pool(map[], [], {}, disk, [], log, capacity)
    {
      this.disk, this.log, this.capacity := disk, log, capacity;
      cache, unpinned, tracked, writes := map[], [], {}, [];
      latest := map n | n in disk :: disk[n].bytes;
      published := set n | n in disk :: (n, disk[n]);
      new;
      InitHolds(Now());
    }

    /** Makes the log durable up to the target, if the log has such a record. */
    method Sync(target: nat) returns (ok: bool)
      modifies `log
      ensures ok <==> SyncThrough(old(log), target).Some?
      ensures log == if ok then SyncThrough(old(log), target).value else old(log)
    {
      if target < log.initial || target >= Next(log) { return false; }
      if target > log.durable {
        var durable := SyncSegments(log.segments, log.durable, target);
        log := log.(durable := durable);
      }
      return true;
    }

    /** Writes the page out once its log record is durable; a page with unlogged bytes is refused. */
    method FlushWalPage(n: nat) returns (status: Status)
      requires Valid()
      modifies this
      ensures Valid() && latest == old(latest) && published == old(published)
      ensures (State(), status) == FlushPage(old(State()), n)
    {
      hide Inv, SyncThrough;
      FlushKeeps(Now(), n);
      if n !in cache {
        tracked := tracked - {n};
        return Success;
      }
      if cache[n].pending { return CacheSpillFailed; }
      if !cache[n].dirty {
        cache := cache[n := cache[n].(needFlush := false)];
        tracked := tracked - {n};
        return Success;
      }
      if cache[n].image.lsn == 0 { return CacheSpillFailed; }
      var ok := Sync(cache[n].image.lsn);
      if !ok { return DbWriteFailed; }
      disk := disk[n := cache[n].image];
      writes := writes + [Write(n, cache[n].image, log.durable)];
      cache := cache[n := cache[n].(dirty := false, needFlush := false)];
      tracked := tracked - {n};
      return Success;
    }

    /** Puts a frame into the cache, evicting a page when it is full; a dirty victim must be flushed first. */
    method Place(n: nat, f: Frame) returns (outcome: PutStatus)
      requires Valid() && Fresh(State(), n, f)
      modifies `cache, `unpinned, `tracked
      ensures Put(old(State()), n, f) ==
                match outcome { case InCache => Placed(State()) case NoRoom => NoVictim case Spill(v) => MustFlush(v) }
      ensures !outcome.InCache? ==> State() == old(State())
    {
      hide Inv, Victim, Without, Fresh;
      if |cache| == capacity {
        UnpinnedCached(Now());
        VictimIs(cache, unpinned);
        var victim := FindVictim(cache, unpinned);
        if victim.None? { return NoRoom; }
        var v := victim.value;
        if cache[v].dirty && cache[v].needFlush { return Spill(v); }
        if cache[v].dirty { tracked := tracked - {v}; }
        unpinned := Without(unpinned, v);
        cache := cache - {v};
      }
      cache := cache[n := f];
      if f.refs == 0 { unpinned := unpinned + [n]; }
      return InCache;
    }

    /** Makes room for a frame, spilling one dirty page if that is the only way. */
    method MakeRoom(n: nat, f: Frame) returns (status: Status)
      requires Valid() && Fresh(State(), n, f)
      modifies this
      ensures Valid() && published == old(published)
      ensures latest == if status == Success then old(latest)[n := f.image.bytes] else old(latest)
      ensures (State(), status) == CachePut(old(State()), n, f)
      ensures Protected(old(State()), State())
    {
      hide Inv, Fresh, FlushPage, Put, Protected;
      CachePutKeeps(Now(), n, f);
      PutKeeps(Now(), n, f);
      var outcome := Place(n, f);
      if outcome.Spill? {
        FlushedFresh(Now(), outcome.victim, n, f);
        status := FlushWalPage(outcome.victim);
        if status != Success { return; }
        outcome := Place(n, f);
      }
      match outcome
      case InCache =>
        latest := latest[n := f.image.bytes];
        return Success;
      case NoRoom => return NoEvictablePage;
      case Spill(_) => return CacheSpillFailed;
    }

    /** The page's frame shows its newest bytes. */
    method GetOrLoad(n: nat) returns (status: Status)
      requires Valid()
      modifies this
      ensures Valid() && latest == old(latest) && published == old(published)
      ensures (State(), status) == Load(old(State()), n)
      ensures status == Success ==> n in cache && n in latest && cache[n].image.bytes == latest[n]
      ensures Protected(old(State()), State())
    {
      hide Inv, CachePut, Protected;
      LoadKeeps(Now(), n);
      if n in cache { return Success; }
      if n !in disk { return PageOutOfRange; }
      AtPage(Now(), n);
      assert latest[n := disk[n].bytes] == latest;
      status := MakeRoom(n, Frame(disk[n], false, false, false, 0));
    }

    /** Loads and references a page. */
    method GetPage(n: nat) returns (status: Status)
      requires Valid()
      modifies this
      ensures Valid() && Now() == Step(old(Now()), Get(n)) && status == Load(old(State()), n).1
      ensures status == Success ==> n in cache && cache[n].refs > 0 && n in latest && cache[n].image.bytes == latest[n]
    {
      hide Inv, Load, Protected;
      StepKeeps(Now(), Get(n));
      status := GetOrLoad(n);
      if status == Success {
        cache := cache[n := cache[n].(refs := cache[n].refs + 1)];
        unpinned := Without(unpinned, n);
      }
    }

    /** Drops a reference; the last one makes the page evictable. */
    method UnrefPage(n: nat)
      requires Valid() && n in cache && cache[n].refs > 0
      modifies this
      ensures Valid() && Now() == Step(old(Now()), Unref(n))
      ensures n in cache && cache[n] == old(cache)[n].(refs := old(cache)[n].refs - 1)
      ensures n in unpinned <==> cache[n].refs == 0
    {
      hide Inv;
      StepKeeps(Now(), Unref(n));
      cache := cache[n := cache[n].(refs := cache[n].refs - 1)];
      if cache[n].refs == 0 { unpinned := unpinned + [n]; }
      AtPage(Now(), n);
    }

    /** Holds a page back from the file before its first byte changes. */
    method BeginWalWrite(n: nat, exclusive: bool) returns (status: Status)
      requires Valid()
      modifies this
      ensures Valid() && latest == old(latest) && published == old(published)
      ensures var (loaded, result) := Load(old(State()), n);
              && status == (if result != Success then result else if exclusive then Success else Busy)
              && (status != Success ==> State() == loaded)
      ensures status == Success ==> Now() == Step(old(Now()), BeginWrite(n)) && n in cache && cache[n].pending
    {
      hide Inv, Load, Protected;
      StepKeeps(Now(), BeginWrite(n));
      status := GetOrLoad(n);
      if status != Success { return; }
      if !exclusive { return Busy; }
      cache := cache[n := cache[n].(dirty := true, pending := true, needFlush := true)];
      tracked := tracked + {n};
    }

    /** Publishes the changed page under its log record, after which it may be written out. */
    method InstallPageLsn(n: nat, lsn: nat, exclusive: bool) returns (status: Status)
      requires Valid()
      modifies this
      ensures Valid()
      ensures status == if lsn == 0 then PageCorrupt else if !exclusive then Busy
                        else if n !in old(cache) then PageNotCached
                        else if !old(cache)[n].pending then CacheSpillFailed else Success
      ensures Now() == if status == Success then Step(old(Now()), Install(n, lsn)) else old(Now())
      ensures status == Success ==>
              n in cache && !cache[n].pending && (n, cache[n].image) in published && cache[n].image.lsn == lsn
    {
      hide Inv;
      StepKeeps(Now(), Install(n, lsn));
      if lsn == 0 { return PageCorrupt; }
      if !exclusive { return Busy; }
      if n !in cache { return PageNotCached; }
      if !cache[n].pending { return CacheSpillFailed; }
      var image := cache[n].image.(lsn := lsn);
      cache := cache[n := cache[n].(image := image, dirty := true, pending := false)];
      published := published + {(n, image)};
      return Success;
    }

    /** Flushes every tracked page; on success the file alone holds the newest bytes of every page. It succeeds unless
        some dirty page has unlogged bytes or a record that the log does not hold. */
    method FlushWalPages() returns (status: Status)
      requires Valid()
      modifies this
      ensures Valid() && latest == old(latest) && published == old(published)
      ensures status == Success ==> forall n :: n in latest ==> n in disk && disk[n].bytes == latest[n]
      ensures status == Success
              <==> forall n :: n in old(cache) && old(cache)[n].dirty ==> Flushable(old(cache)[n], old(log))
    {
      hide Inv, FlushPage, Flushable;
      var pages := tracked;
      Untouched(Now());
      while pages != {}
        invariant Valid() && latest == old(latest) && published == old(published)
        invariant forall n :: n in cache && cache[n].dirty ==> n in pages
        invariant cache.Keys == old(cache).Keys && (forall n :: n in pages && n in cache ==> cache[n] == old(cache)[n])
        invariant log.initial == old(log).initial && Next(log) == Next(old(log))
        invariant forall n :: n in old(cache) && old(cache)[n].dirty && n !in pages ==>
                  Flushable(old(cache)[n], old(log))
        decreases |pages|
      {
        var n :| n in pages;
        FlushKeeps(Now(), n);
        FlushFails(Now(), n, old(log));
        status := FlushWalPage(n);
        if status != Success { return; }
        pages := pages - {n};
      }
      AllOnDisk(Now());
      return Success;
    }
  }

  lemma FlushFails(w: World, n: nat, log: Log)
    requires Inv(w) && log.initial == w.pool.log.initial && Next(log) == Next(w.pool.log)
    ensures var (after, status) := FlushPage(w.pool, n);
            && (status == Success <==> n in w.pool.cache && w.pool.cache[n].dirty ==> Flushable(w.pool.cache[n], log))
            && after.cache.Keys == w.pool.cache.Keys
            && after.log.initial == w.pool.log.initial && Next(after.log) == Next(w.pool.log)
            && (forall m :: m in w.pool.cache && m != n ==> after.cache[m] == w.pool.cache[m])
  {
    hide FlushPage;
    AtPage(w, n);
    FlushLaw(w.pool, n);
  }

  lemma Untouched(w: World)
    requires Inv(w)
    ensures forall n :: n in w.pool.cache && w.pool.cache[n].dirty ==> n in w.pool.tracked
  {
    hide LogInv;
    forall n | n in w.pool.cache && w.pool.cache[n].dirty ensures n in w.pool.tracked { assert PageInv(w, n); }
  }

  lemma AllOnDisk(w: World)
    requires Inv(w) && (forall n :: n in w.pool.cache ==> !w.pool.cache[n].dirty)
    ensures forall n :: n in w.latest ==> n in w.pool.disk && w.pool.disk[n].bytes == w.latest[n]
  {
    hide LogInv;
    forall n | n in w.latest ensures n in w.pool.disk && w.pool.disk[n].bytes == w.latest[n] { assert PageInv(w, n); }
  }
}
