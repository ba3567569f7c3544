/** Insertion into a B+ tree: overwrite, leaf insert, leaf split, new root, and when the code cannot go on. */
module BTreeInsert {
  import opened Sequences
  import opened Options
  import opened Walks
  import opened BTreeModel
  import opened BTreeRemove

  function With<T>(s: seq<T>, i: nat, x: T): seq<T>
    requires i <= |s|
  {
    s[..i] + [x] + s[i..]
  }

  /** Leaf f with k set to v; one key too many is possible. */
  function Grown(f: Tree, k: Key, v: Value): Tree
    requires f.Leaf? && |f.vals| == |f.keys| && LowerBound(f.keys, k) <= |f.keys|
  {
    var i := LowerBound(f.keys, k);
    if HasKey(f, k) then Leaf(f.page, f.keys, f.vals[i := v])
    else Leaf(f.page, With(f.keys, i, k), With(f.vals, i, v))
  }

  /** The lower half stays, the upper half moves to a new page. */
  function LowerHalf(g: Tree): Tree
    requires g.Leaf? && |g.vals| == |g.keys|
  {
    Leaf(g.page, g.keys[..|g.keys| / 2], g.vals[..|g.keys| / 2])
  }

  function UpperHalf(g: Tree, page: nat): Tree
    requires g.Leaf? && |g.vals| == |g.keys|
  {
    Leaf(page, g.keys[|g.keys| / 2..], g.vals[|g.keys| / 2..])
  }

  /** Splitting leaf g at c with fresh pages for the right half and, when g was the root, for a new root.
      None: the parent is full too, and splitting an internal page ends the process. */
  function Split(c: Ctx, g: Tree, leafPage: nat, rootPage: nat): Option<Tree>
    requires g.Leaf? && |g.vals| == |g.keys| > 1
  {
    var l, r := LowerHalf(g), UpperHalf(g, leafPage);
    if c.Top? then Some(Node(rootPage, [r.keys[0]], [l, r]))
    else if |c.keysL| + |c.keysR| + 1 > MAX_KEYS then None
    else Some(Plug(c.(keysR := [r.keys[0]] + c.keysR, right := [r] + c.right), l))
  }

  function InsertAt(c: Ctx, f: Tree, k: Key, v: Value, leafPage: nat, rootPage: nat): Option<Tree>
    requires f.Leaf? && |f.vals| == |f.keys| && LowerBound(f.keys, k) <= |f.keys|
  {
    var g := Grown(f, k, v);
    if |g.keys| <= MAX_KEYS then Some(Plug(c, g)) else Split(c, g, leafPage, rootPage)
  }

  /** The parent of the target leaf cannot take another separator. */
  predicate ParentFull(c: Ctx) {
    c.Below? && |c.keysL| + |c.keysR| == MAX_KEYS
  }

  predicate Stuck(c: Ctx, f: Tree, k: Key) {
    !HasKey(f, k) && |f.keys| == MAX_KEYS && ParentFull(c)
  }

  // ---------------------------------------------------------------- what insertion does to the walk

  lemma GrownWalk(c: Ctx, f: Tree, k: Key, v: Value)
    requires f.Leaf? && |f.vals| == |f.keys| && Ordered(Around(c, f)) && LeftOf(Pre(c), k) && RightOf(Post(c), k)
    ensures LowerBound(f.keys, k) <= |f.keys|
    ensures Ordered(Around(c, Grown(f, k, v))) && Entries(Around(c, Grown(f, k, v))) == Entries(Around(c, f))[k := v]
  {
    LowerBoundIs(f.keys, k);
    if HasKey(f, k) {
      OverwrittenWalk(c, f, k, v);
    } else {
      AddedWalk(c, f, k, v);
    }
  }

  lemma OverwrittenWalk(c: Ctx, f: Tree, k: Key, v: Value)
    requires HasKey(f, k) && Ordered(Around(c, f))
    ensures Ordered(Around(c, Grown(f, k, v))) && Entries(Around(c, Grown(f, k, v))) == Entries(Around(c, f))[k := v]
  {
    hide Ordered, Entries, Zip;
    var i, g := LowerBound(f.keys, k), Grown(f, k, v);
    LeafParts(f, i);
    LeafParts(g, i);
    var a, b := Zip(f.keys[..i], f.vals[..i]), Zip(f.keys[i + 1..], f.vals[i + 1..]);
    assert g.vals[..i] == f.vals[..i] && g.vals[i + 1..] == f.vals[i + 1..];
    var l, r := Pre(c) + a, b + Post(c);
    MiddleOut(Pre(c), a, [K(k, f.vals[i])], b, Post(c));
    MiddleOut(Pre(c), a, [K(k, v)], b, Post(c));
    SidesOfEntry(l, k, f.vals[i], r);
    OrderedDrop(l, [K(k, f.vals[i])], r);
    OrderedPut(l, k, v, r);
    EntriesPut(l, k, f.vals[i], r);
    EntriesPut(l, k, v, r);
  }

  lemma WithWalk(f: Tree, k: Key, v: Value, i: nat)
    requires f.Leaf? && |f.vals| == |f.keys| && i <= |f.keys|
    ensures Zip(With(f.keys, i, k), With(f.vals, i, v))
            == Zip(f.keys[..i], f.vals[..i]) + [K(k, v)] + Zip(f.keys[i..], f.vals[i..])
  {
  }

  lemma AddedWalk(c: Ctx, f: Tree, k: Key, v: Value)
    requires f.Leaf? && |f.vals| == |f.keys| && Ordered(Around(c, f)) && LeftOf(Pre(c), k) && RightOf(Post(c), k)
    requires !HasKey(f, k)
    requires LowerBound(f.keys, k) <= |f.keys|
    ensures Ordered(Around(c, Grown(f, k, v))) && Entries(Around(c, Grown(f, k, v))) == Entries(Around(c, f))[k := v]
  {
    hide Ordered, Entries, Zip, LeftOf, RightOf;
    var i := LowerBound(f.keys, k);
    OrderedThree(Pre(c), Walk(f), Post(c));
    LeafSorted(f);
    LeafSides(f, k);
    WithWalk(f, k, v, i);
    var a, b := Zip(f.keys[..i], f.vals[..i]), Zip(f.keys[i..], f.vals[i..]);
    var l, r := Pre(c) + a, b + Post(c);
    MiddleOut(Pre(c), a, [K(k, v)], b, Post(c));
    assert Around(c, f) == l + r by { Regroup(Pre(c), a, b, Post(c), []); }
    SidesConcat(Pre(c), a, k);
    SidesConcat(b, Post(c), k);
    OrderedPut(l, k, v, r);
    EntriesPut(l, k, v, r);
  }

  /** The new separator is the right half's first key. */
  lemma HalvesWalk(a: seq<Item>, g: Tree, page: nat, b: seq<Item>)
    requires g.Leaf? && |g.vals| == |g.keys| > 1
    ensures SameMap(a + Walk(g) + b,
            a + Walk(LowerHalf(g)) + [S(UpperHalf(g, page).keys[0])] + Walk(UpperHalf(g, page)) + b)
  {
    hide Ordered, Entries, Zip;
    var n := |g.keys| / 2;
    var l, r := LowerHalf(g), UpperHalf(g, page);
    assert l.keys + r.keys == g.keys && l.vals + r.vals == g.vals;
    ZipConcat(l.keys, l.vals, r.keys, r.vals);
    ZipLast(l.keys, l.vals);
    ZipFirst(r.keys, r.vals);
    var x, y := K(Last(l.keys), Last(l.vals)), K(r.keys[0], r.vals[0]);
    var p, q := Zip(Front(l.keys), Front(l.vals)), Zip(r.keys[1..], r.vals[1..]);
    var s := [S(y.key)];
    SplitSeqs(a, p, [x], s, [y], q, b);
    var whole, left, right := (a + p) + [x] + [y] + (q + b), (a + p) + [x], [y] + (q + b);
    EntriesSkipSep(left, y.key, right);
    if Ordered(whole) { OrderedNewSep(a + p, x, y, q + b); }
  }

  lemma SplitSeqs(a: seq<Item>, p: seq<Item>, x: seq<Item>, s: seq<Item>, y: seq<Item>, q: seq<Item>, b: seq<Item>)
    ensures a + ((p + x) + (y + q)) + b == (a + p) + x + y + (q + b) == ((a + p) + x) + (y + (q + b))
    ensures a + (p + x) + s + (y + q) + b == (a + p) + x + s + y + (q + b) == ((a + p) + x) + s + (y + (q + b))
  {
  }

  // ---------------------------------------------------------------- limits

  lemma HalvesGood(g: Tree, page: nat)
    requires g.Leaf? && |g.vals| == |g.keys| == MAX_KEYS + 1
    ensures Good(LowerHalf(g), 0, MIN_KEYS) && Good(UpperHalf(g, page), 0, MIN_KEYS)
  {
  }

  lemma NewRootWalk(rootPage: nat, s: Key, l: Tree, r: Tree)
    ensures Walk(Node(rootPage, [s], [l, r])) == Walk(l) + [S(s)] + Walk(r)
  {
    hide Walk, WalkLeft;
    NodeAppend(rootPage, [], [l], s, r);
    assert [] + [s] == [s] && [l] + [r] == [l, r];
    OneChild(rootPage, l);
  }

  lemma NewRootGood(rootPage: nat, s: Key, l: Tree, r: Tree)
    requires Good(l, 0, MIN_KEYS) && Good(r, 0, MIN_KEYS)
    ensures Good(Node(rootPage, [s], [l, r]), 1, 1)
  {
  }

  lemma SplitRefines(c: Ctx, g: Tree, leafPage: nat, rootPage: nat)
    requires GoodCtx(c, 0) && g.Leaf? && |g.vals| == |g.keys| == MAX_KEYS + 1 && Ordered(Around(c, g)) && !ParentFull(c)
    ensures Split(c, g, leafPage, rootPage).Some?
    ensures Proper(Split(c, g, leafPage, rootPage).value)
    ensures Contents(Split(c, g, leafPage, rootPage).value) == Entries(Around(c, g))
  {
    hide Ordered, Entries, Walk, WalkRight, Good;
    var l, r := LowerHalf(g), UpperHalf(g, leafPage);
    var s := r.keys[0];
    HalvesGood(g, leafPage);
    HalvesWalk(Pre(c), g, leafPage, Post(c));
    GoodIsShaped(c, 0);
    if c.Top? {
      NewRootWalk(rootPage, s, l, r);
      NewRootGood(rootPage, s, l, r);
      assert [] + Walk(l) + [S(s)] + Walk(r) + [] == Walk(l) + [S(s)] + Walk(r);
    } else {
      var d := c.(keysR := [s] + c.keysR, right := [r] + c.right);
      OneGood(r, 0);
      AllGoodParts([r], c.right, 0);
      assert GoodCtx(d, 0);
      RightConcat([s], [r], c.keysR, c.right);
      RightOne(s, r);
      assert Post(d) == [S(s)] + Walk(r) + Post(c) by {
        Assoc([S(s)] + Walk(r), WalkRight(c.keysR, c.right), Post(c.up));
      }
      RegroupRight(Pre(c), Walk(l), [S(s)], Walk(r), Post(c));
      assert Around(d, l) == Pre(c) + Walk(l) + [S(s)] + Walk(r) + Post(c) by {
        Assoc(Pre(c) + Walk(l) + [S(s)], Walk(r), Post(c));
      }
      Stops(c, g, d, l, 0);
    }
  }

  lemma GrownGood(c: Ctx, f: Tree, k: Key, v: Value)
    requires Good(f, 0, Lo(c)) && LowerBound(f.keys, k) <= |f.keys|
    ensures var g := Grown(f, k, v);
            && g.Leaf? && |g.vals| == |g.keys|
            && |g.keys| == (if HasKey(f, k) then |f.keys| else |f.keys| + 1)
            && (|g.keys| <= MAX_KEYS ==> Good(g, 0, Lo(c)))
  {
  }

  lemma InsertAtRefines(c: Ctx, f: Tree, k: Key, v: Value, leafPage: nat, rootPage: nat)
    requires GoodCtx(c, 0) && f.Leaf? && Good(f, 0, Lo(c)) && Ordered(Around(c, f)) && LeftOf(Pre(c), k)
    requires RightOf(Post(c), k)
    ensures LowerBound(f.keys, k) <= |f.keys|
    ensures var r := InsertAt(c, f, k, v, leafPage, rootPage);
            && (r.None? <==> Stuck(c, f, k))
            && (r.Some? ==> Proper(r.value) && Contents(r.value) == Entries(Around(c, f))[k := v])
  {
    hide Ordered, Entries, Around, Grown, Split;
    GrownWalk(c, f, k, v);
    GrownGood(c, f, k, v);
    GoodIsShaped(c, 0);
    var g := Grown(f, k, v);
    if |g.keys| <= MAX_KEYS {
      Stops(c, g, c, g, 0);
    } else if ParentFull(c) {
      StuckSplit(c, g, leafPage, rootPage);
    } else {
      SplitRefines(c, g, leafPage, rootPage);
    }
  }

  lemma StuckSplit(c: Ctx, g: Tree, leafPage: nat, rootPage: nat)
    requires g.Leaf? && |g.vals| == |g.keys| > 1 && ParentFull(c)
    ensures Split(c, g, leafPage, rootPage).None?
  {
  }

  // ---------------------------------------------------------------- insert

  function Inserted(t: Tree, k: Key, v: Value, leafPage: nat, rootPage: nat): Option<Tree> {
    var (c, f) := Find(Top, t, k);
    if f.Leaf? && |f.vals| == |f.keys| && LowerBound(f.keys, k) <= |f.keys|
    then InsertAt(c, f, k, v, leafPage, rootPage) else None
  }

  /** As long as every page can hold what is written to it, insert is map update on every proper tree, and goes through
      exactly unless a new key meets a full leaf under a full parent. */
  lemma InsertedIsUpdate(t: Tree, k: Key, v: Value, leafPage: nat, rootPage: nat)
    requires Proper(t)
    ensures var r := Inserted(t, k, v, leafPage, rootPage);
            && (r.None? <==> Stuck(Find(Top, t, k).0, Find(Top, t, k).1, k))
            && (r.Some? ==> Proper(r.value) && Contents(r.value) == Contents(t)[k := v])
  {
    hide Ordered, Entries, Walk, InsertAt;
    var h :| Good(t, h, 1);
    NoSides(k);
    FindReaches(Top, t, k, h);
    var (c, f) := Find(Top, t, k);
    GoodIsShaped(c, 0);
    PlugWalk(c, f);
    InsertAtRefines(c, f, k, v, leafPage, rootPage);
  }

  /** The first insert makes a one-entry leaf the root. */
  lemma FirstInsert(page: nat, k: Key, v: Value)
    ensures Proper(Leaf(page, [k], [v])) && Contents(Leaf(page, [k], [v])) == map[k := v]
  {
    var t := Leaf(page, [k], [v]);
    assert Good(t, 0, 1);
    assert Walk(t) == [K(k, v)];
    var none: seq<Item> := [];
    EntriesPut(none, k, v, none);
    assert none + [K(k, v)] + none == [K(k, v)] && none + none == none;
  }

  // ---------------------------------------------------------------- lookup and optimistic descent

  function Lookup(t: Tree, k: Key): Option<Value> {
    var f := Find(Top, t, k).1;
    if HasKey(f, k) then Some(f.vals[LowerBound(f.keys, k)]) else None
  }

  lemma LookupRefines(t: Tree, k: Key)
    requires Proper(t)
    ensures Lookup(t, k) == if k in Contents(t) then Some(Contents(t)[k]) else None
  {
    hide Ordered, Entries, Walk;
    var h :| Good(t, h, 1);
    NoSides(k);
    FindReaches(Top, t, k, h);
    var (c, f) := Find(Top, t, k);
    GoodIsShaped(c, 0);
    PlugWalk(c, f);
    if HasKey(f, k) { ShrunkWalk(c, f, k); } else { AbsentFromWalk(c, f, k); }
  }

  /** The optimistic insert descent keeps going only when the leaf can absorb the key. */
  predicate InsertSafe(f: Tree, k: Key) {
    HasKey(f, k) || |f.keys| < MAX_KEYS
  }

  /** The optimistic remove descent keeps going only when nothing above the leaf can change. */
  predicate RemoveSafe(c: Ctx, f: Tree, k: Key) {
    !HasKey(f, k) || (if c.Top? then |f.keys| > 1 else LowerBound(f.keys, k) != 0 && |f.keys| > MIN_KEYS)
  }

  /** No restart requested means only the leaf changes, so no released ancestor was needed. Restart is requested
      exactly when an insertion would split. */
  lemma OptimisticInsert(c: Ctx, f: Tree, k: Key, v: Value, leafPage: nat, rootPage: nat)
    requires f.Leaf? && |f.vals| == |f.keys| <= MAX_KEYS && LowerBound(f.keys, k) <= |f.keys|
    ensures InsertSafe(f, k) <==> |Grown(f, k, v).keys| <= MAX_KEYS
    ensures InsertSafe(f, k) ==> InsertAt(c, f, k, v, leafPage, rootPage) == Some(Plug(c, Grown(f, k, v)))
  {
  }

  lemma OptimisticRemove(c: Ctx, f: Tree, k: Key)
    requires RemoveSafe(c, f, k) && f.Leaf?
    ensures RemoveAt(c, f, k).0 == Some(Plug(c, if HasKey(f, k) then Shrunk(f, k) else f))
  {
  }
}
