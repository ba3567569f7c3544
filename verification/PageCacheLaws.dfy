/** When the page cache makes room and when it does not, how much it holds, and who still references what. */
module PageCacheLaws {
  import opened Options
  import opened PageCaches

  ghost predicate Idle(p: Pool, m: nat) {
    m in p.cache && p.cache[m].refs == 0
  }

  ghost predicate IdleClean(p: Pool, m: nat) {
    Idle(p, m) && !p.cache[m].pending && !p.cache[m].dirty
  }

  ghost function Swapped(p: Pool, v: nat, n: nat, f: Frame): map<nat, Frame> {
    (p.cache - {v})[n := f]
  }

  // ---------------------------------------------------------------- making room

  lemma {:induction false} OnlyClean(cache: map<nat, Frame>, list: seq<nat>, v: nat)
    requires v in list && Clean(cache, v) && (forall m :: m in list && m != v ==> !Clean(cache, m))
    ensures Victim(cache, list) == Some(v)
  {
    LastCleanIs(cache, list);
  }

  /** The list of unreferenced pages is exactly the idle frames. */
  lemma ListIsIdle(w: World)
    requires Inv(w)
    ensures forall m: nat :: m in w.pool.unpinned <==> Idle(w.pool, m)
  {
    hide LogInv, FrameInv, DiskInv, LatestInv;
    forall m: nat ensures m in w.pool.unpinned <==> Idle(w.pool, m) { assert PageInv(w, m); }
  }

  lemma DirtyNeedsFlush(w: World, v: nat)
    requires Inv(w) && v in w.pool.cache && w.pool.cache[v].dirty
    ensures w.pool.cache[v].needFlush
  {
    hide LogInv, DiskInv, LatestInv, ListInv;
    assert PageInv(w, v);
  }

  /** What putting a frame does, by cases on the cache alone. With room the frame is added. Full, it takes the place
      of an idle clean frame if there is one; else of an idle dirty frame without unlogged bytes, which is first
      written to the file, if the log holds its record; else, when every idle frame has unlogged bytes, there is no
      room. A failure changes nothing. */
  lemma PutLaw(w: World, n: nat, f: Frame) returns (v: nat)
    requires Inv(w) && Fresh(w.pool, n, f) && |w.pool.cache| <= w.pool.capacity
    ensures var p := w.pool;
            var (after, status) := CachePut(p, n, f);
            var full := |p.cache| == p.capacity;
            var none := full && forall m :: Idle(p, m) ==> p.cache[m].pending;
            && (!full ==> status == Success && after.cache == p.cache[n := f] && after.disk == p.disk)
            && (none ==> status == NoEvictablePage && after == p)
            && (full && !none ==>
                  && Idle(p, v) && !p.cache[v].pending && v != n
                  && (p.cache[v].dirty ==> forall m :: !IdleClean(p, m))
                  && (status == Success <==> p.cache[v].dirty ==> HeldByLog(p.log, p.cache[v].image.lsn))
                  && (status == Success ==>
                        && after.cache == Swapped(p, v, n, f)
                        && after.disk == if p.cache[v].dirty then p.disk[v := p.cache[v].image] else p.disk)
                  && (status != Success ==> after == p && status != NoEvictablePage))
            && after.capacity == p.capacity
  {
    hide Inv, Victim, Without, FlushPage, Fresh;
    var p := w.pool;
    v := 0;
    NotThere(p, n, f);
    ListIsIdle(w);
    UnpinnedCached(w);
    if |p.cache| == p.capacity {
      VictimIs(p.cache, p.unpinned);
      var victim := Victim(p.cache, p.unpinned);
      if victim.Some? {
        v := victim.value;
        if p.cache[v].dirty {
          DirtyNeedsFlush(w, v);
          SpillLaw(w, v, n, f);
        }
      } else {
        assert forall m :: Idle(p, m) ==> p.cache[m].pending;
      }
    }
  }

  lemma NotThere(p: Pool, n: nat, f: Frame)
    requires Fresh(p, n, f)
    ensures n !in p.cache
  {
  }

  /** A full cache whose best victim is dirty: the victim is flushed, becomes the only clean idle frame, and goes. */
  lemma SpillLaw(w: World, v: nat, n: nat, f: Frame)
    requires Inv(w) && n !in w.pool.cache && |w.pool.cache| == w.pool.capacity
    requires forall m :: m in w.pool.unpinned <==> Idle(w.pool, m)
    requires Idle(w.pool, v) && !w.pool.cache[v].pending && w.pool.cache[v].dirty && w.pool.cache[v].needFlush
    requires Victim(w.pool.cache, w.pool.unpinned) == Some(v) && (forall m :: !IdleClean(w.pool, m))
    ensures var p := w.pool;
            var (after, status) := CachePut(p, n, f);
            && (status == Success <==> HeldByLog(p.log, p.cache[v].image.lsn))
            && (status == Success ==> after.cache == Swapped(p, v, n, f) && after.disk == p.disk[v := p.cache[v].image])
            && (status != Success ==> after == p && status != NoEvictablePage)
            && after.capacity == p.capacity
  {
    hide Victim, Without, FlushPage, PageInv, AllWritten;
    var p := w.pool;
    assert Put(p, n, f) == MustFlush(v);
    FlushLaw(p, v);
    FlushFailure(p, v);
    var (flushed, status) := FlushPage(p, v);
    if status == Success {
      assert flushed.cache.Keys == p.cache.Keys;
      assert |flushed.cache| == |flushed.cache.Keys| == |p.cache.Keys| == |p.cache|;
      forall m | m in flushed.unpinned && m != v ensures !Clean(flushed.cache, m) { assert !IdleClean(p, m); }
      OnlyClean(flushed.cache, flushed.unpinned, v);
      SameFrames(p, flushed, v, n, f);
    }
  }

  lemma SameFrames(p: Pool, flushed: Pool, v: nat, n: nat, f: Frame)
    requires flushed.cache.Keys == p.cache.Keys
    requires forall m :: m in p.cache && m != v ==> flushed.cache[m] == p.cache[m]
    ensures (flushed.cache - {v})[n := f] == Swapped(p, v, n, f)
  {
  }

  lemma FlushFailure(p: Pool, n: nat)
    ensures FlushPage(p, n).1 != NoEvictablePage
  {
    hide SyncThrough;
  }

  // ---------------------------------------------------------------- capacity

  lemma AddOne(s: set<nat>, n: nat)
    ensures |s + {n}| <= |s| + 1
  {
    if n in s { assert s + {n} == s; } else { assert |s + {n}| == |s| + 1; }
  }

  lemma DropOne(s: set<nat>, n: nat)
    requires n in s
    ensures |s - {n}| == |s| - 1
  {
    assert s == (s - {n}) + {n};
  }

  lemma Fits(p: Pool, v: nat, n: nat, f: Frame)
    requires |p.cache| <= p.capacity
    ensures |p.cache| < p.capacity ==> |p.cache[n := f]| <= p.capacity
    ensures v in p.cache ==> |Swapped(p, v, n, f)| <= p.capacity
  {
    var keys := p.cache.Keys;
    SizeIs(p.cache);
    SizeIs(p.cache[n := f]);
    SizeIs(Swapped(p, v, n, f));
    assert p.cache[n := f].Keys == keys + {n};
    assert Swapped(p, v, n, f).Keys == (keys - {v}) + {n};
    AddOne(keys, n);
    if v in keys {
      DropOne(keys, v);
      AddOne(keys - {v}, n);
    }
  }

  lemma SizeIs(m: map<nat, Frame>)
    ensures |m| == |m.Keys|
  {
  }

  lemma PutFits(w: World, n: nat, f: Frame)
    requires Inv(w) && Fresh(w.pool, n, f) && |w.pool.cache| <= w.pool.capacity
    ensures var after := CachePut(w.pool, n, f).0;
            |after.cache| <= after.capacity == w.pool.capacity
  {
    hide Inv, CachePut, Fresh;
    var v := PutLaw(w, n, f);
    Fits(w.pool, v, n, f);
  }

  lemma SameSize(a: map<nat, Frame>, b: map<nat, Frame>)
    requires a.Keys == b.Keys
    ensures |a| == |b|
  {
    assert |a| == |a.Keys| && |b| == |b.Keys|;
  }

  lemma LoadFits(w: World, n: nat)
    requires Inv(w) && |w.pool.cache| <= w.pool.capacity
    ensures var after := Load(w.pool, n).0;
            |after.cache| <= after.capacity == w.pool.capacity
  {
    hide Inv, CachePut;
    if n !in w.pool.cache && n in w.pool.disk {
      PutFits(w, n, Frame(w.pool.disk[n], false, false, false, 0));
    }
  }

  lemma StepFits(w: World, a: Action)
    requires Inv(w) && |w.pool.cache| <= w.pool.capacity
    ensures |Step(w, a).pool.cache| <= Step(w, a).pool.capacity == w.pool.capacity
  {
    hide Inv, Load, FlushPage, CachePut, Without, Appended;
    var p, q := w.pool, Step(w, a).pool;
    match a
    case Get(n) =>
      LoadFits(w, n);
      var (after, status) := Load(p, n);
      if status == Success && n in after.cache { SameSize(q.cache, after.cache); }
    case BeginWrite(n) =>
      LoadFits(w, n);
      var (after, status) := Load(p, n);
      if status == Success && n in after.cache { SameSize(q.cache, after.cache); }
    case Create(n, bytes) =>
      if n !in p.cache && n !in p.disk {
        TrackedKeeps(w, n);
        var p2 := p.(tracked := p.tracked + {n});
        PutFits(w.(pool := p2), n, Frame(Image(0, bytes), true, true, true, 1));
      }
    case Flush(n) => FlushKeeps(w, n); SameSize(q.cache, p.cache);
    case Unref(n) => if n in p.cache && p.cache[n].refs > 0 { SameSize(q.cache, p.cache); }
    case Modify(n, _) => if n in p.cache && p.cache[n].pending { SameSize(q.cache, p.cache); }
    case Install(n, lsn) => if lsn != 0 && n in p.cache && p.cache[n].pending { SameSize(q.cache, p.cache); }
    case AppendRecord(_) =>
  }

  /** In every run the cache never holds more frames than its capacity, which never changes. */
  lemma {:induction false} WithinCapacity(w: World, actions: seq<Action>)
    requires Init(w)
    ensures |Run(w, actions).pool.cache| <= Run(w, actions).pool.capacity == w.pool.capacity
  {
    hide Inv, Step;
    if actions != [] {
      WithinCapacity(w, actions[..|actions| - 1]);
      RunKeeps(w, actions[..|actions| - 1]);
      StepFits(Run(w, actions[..|actions| - 1]), actions[|actions| - 1]);
    }
  }

  // ---------------------------------------------------------------- loading

  /** In every run: a cached page is there, a page that is neither cached nor in the file is out of range, and loading
      any other page succeeds if there is room, if some idle frame is clean, or if the dirty frame that has to go can
      be written out. It fails for want of room if and only if the cache is full and every idle frame has unlogged
      bytes. */
  lemma LoadLaw(w: World, actions: seq<Action>, n: nat) returns (v: nat)
    requires Init(w)
    ensures var p := Run(w, actions).pool;
            var (after, status) := Load(p, n);
            var absent := n !in p.cache && n in p.disk;
            var full := |p.cache| == p.capacity;
            var none := full && forall m :: Idle(p, m) ==> p.cache[m].pending;
            && (n in p.cache ==> status == Success && after == p)
            && (n !in p.cache && n !in p.disk ==> status == PageOutOfRange && after == p)
            && (status == NoEvictablePage <==> absent && none)
            && (absent && !full ==> status == Success)
            && (absent && (exists m :: IdleClean(p, m)) ==> status == Success && after.disk == p.disk)
            && (absent && full && !none ==>
                  && Idle(p, v) && !p.cache[v].pending && (p.cache[v].dirty ==> forall m :: !IdleClean(p, m))
                  && (status == Success <==> p.cache[v].dirty ==> HeldByLog(p.log, p.cache[v].image.lsn))
                  && (status == Success ==> after.cache == Swapped(p, v, n, Frame(p.disk[n], false, false, false, 0))))
            && (absent && status == Success ==> n in after.cache && after.cache[n].image == p.disk[n])
            && (status != Success ==> after == p)
  {
    hide Inv, Init, Run, CachePut;
    v := 0;
    var now := Run(w, actions);
    RunKeeps(w, actions);
    WithinCapacity(w, actions);
    if n !in now.pool.cache && n in now.pool.disk {
      v := PutLaw(now, n, Frame(now.pool.disk[n], false, false, false, 0));
    }
  }

  // ---------------------------------------------------------------- references

  /** References given out for a page so far and not returned. */
  function Given(w: World, actions: seq<Action>, n: nat): int
    decreases |actions|
  {
    if actions == [] then 0
    else
      var init := actions[..|actions| - 1];
      var p := Run(w, init).pool;
      var now := Given(w, init, n);
      match actions[|actions| - 1]
      case Get(m) => if m == n && Load(p, m).1 == Success then now + 1 else now
      case Unref(m) => if m == n && m in p.cache && p.cache[m].refs > 0 then now - 1 else now
      case Create(m, bytes) =>
        if m == n && m !in p.cache && m !in p.disk && n in Step(Run(w, init), Create(m, bytes)).pool.cache then 1
          else now
      case _ => now
  }

  ghost predicate Counted(p: Pool, n: nat, count: int) {
    count == if n in p.cache then p.cache[n].refs else 0
  }

  lemma PutCounts(w: World, n: nat, f: Frame, m: nat)
    requires Inv(w) && Fresh(w.pool, n, f) && |w.pool.cache| <= w.pool.capacity && m != n
    ensures var after := CachePut(w.pool, n, f).0;
            Counted(after, m, if m in w.pool.cache then w.pool.cache[m].refs else 0)
    ensures n in CachePut(w.pool, n, f).0.cache <==> CachePut(w.pool, n, f).1 == Success
    ensures n in CachePut(w.pool, n, f).0.cache ==> CachePut(w.pool, n, f).0.cache[n].refs == f.refs
  {
    hide Inv, CachePut;
    var v := PutLaw(w, n, f);
  }

  lemma LoadCounts(w: World, n: nat, m: nat)
    requires Inv(w) && |w.pool.cache| <= w.pool.capacity
    ensures var (after, status) := Load(w.pool, n);
            && Counted(after, m, if m in w.pool.cache then w.pool.cache[m].refs else 0)
            && (status == Success <==> n in after.cache)
  {
    hide Inv, CachePut;
    if n !in w.pool.cache && n in w.pool.disk {
      var f := Frame(w.pool.disk[n], false, false, false, 0);
      PutCounts(w, n, f, if m != n then m else n + 1);
    }
  }

  lemma StepCounts(w: World, a: Action, n: nat)
    requires Inv(w) && |w.pool.cache| <= w.pool.capacity
    ensures var was := if n in w.pool.cache then w.pool.cache[n].refs else 0;
            var p := w.pool;
            Counted(Step(w, a).pool, n,
              match a
              case Get(m) => if m == n && Load(p, m).1 == Success then was + 1 else was
              case Unref(m) => if m == n && m in p.cache && p.cache[m].refs > 0 then was - 1 else was
              case Create(m, bytes) =>
                if m == n && m !in p.cache && m !in p.disk && n in Step(w, a).pool.cache then 1 else was
              case _ => was)
  {
    hide Inv, Load, CachePut, FlushPage, Without, Appended;
    match a
    case Get(m) => LoadCounts(w, m, n);
    case BeginWrite(m) => LoadCounts(w, m, n);
    case Create(m, bytes) =>
      if m !in w.pool.cache && m !in w.pool.disk {
        TrackedKeeps(w, m);
        var w2 := w.(pool := w.pool.(tracked := w.pool.tracked + {m}));
        PutCounts(w2, m, Frame(Image(0, bytes), true, true, true, 1), if m != n then n else n + 1);
      }
    case Flush(m) => FlushKeeps(w, m);
    case Unref(_) | Modify(_, _) | Install(_, _) | AppendRecord(_) =>
  }

  /** In every run the reference count of a frame is the number of references given out for the page and not returned; a
      page without a frame has none. So a page in use is never evicted and an unused one always can be. */
  lemma {:induction false} ReferencesBalance(w: World, actions: seq<Action>, n: nat)
    requires Init(w)
    ensures Counted(Run(w, actions).pool, n, Given(w, actions, n))
  {
    hide Inv, Step, Load;
    if actions != [] {
      var init := actions[..|actions| - 1];
      ReferencesBalance(w, init, n);
      RunKeeps(w, init);
      WithinCapacity(w, init);
      StepCounts(Run(w, init), actions[|actions| - 1], n);
    }
  }
}
