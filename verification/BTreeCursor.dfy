/** Cursors: ordered iteration over a tree by leaves, from the first key or from a lower bound. */
module BTreeCursors {
  import opened Sequences
  import opened Options
  import opened Walks
  import opened BTreeModel
  import opened BTreeRemove
  import opened BTreeInsert
  import opened BTreePages
  import opened BTrees
  import KeyOrder

  // ---------------------------------------------------------------- the entries of a walk, in order

  type Pair = (Key, Value)

  function Pairs(w: seq<Item>): seq<Pair> {
    if w == [] then [] else PairOf(w[0]) + Pairs(w[1..])
  }

  function PairOf(i: Item): seq<Pair> {
    if i.K? then [(i.key, i.val)] else []
  }

  function PairUp(keys: seq<Key>, vals: seq<Value>): seq<Pair>
    requires |keys| == |vals|
  {
    seq(|keys|, i requires 0 <= i < |keys| => (keys[i], vals[i]))
  }

  /** Strictly increasing keys: every entry once, in order. */
  ghost predicate Increasing(ps: seq<Pair>) {
    forall i, j :: 0 <= i < j < |ps| ==> ps[i].0 < ps[j].0
  }

  function MapOf(ps: seq<Pair>): map<Key, Value> {
    if ps == [] then map[] else map[ps[0].0 := ps[0].1] + MapOf(ps[1..])
  }

  lemma {:induction false} PairsConcat(a: seq<Item>, b: seq<Item>)
    ensures Pairs(a + b) == Pairs(a) + Pairs(b)
  {
    hide Pairs, PairOf;
    PairsStep(a);
    PairsStep(a + b);
    if a == [] {
      assert a + b == b;
    } else {
      assert (a + b)[0] == a[0] && (a + b)[1..] == a[1..] + b;
      PairsConcat(a[1..], b);
      PairsAssoc(PairOf(a[0]), Pairs(a[1..]), Pairs(b));
    }
  }

  lemma PairsAssoc(a: seq<Pair>, b: seq<Pair>, c: seq<Pair>)
    ensures (a + b) + c == a + (b + c) && [] + c == c
  {
  }

  lemma PairsStep(w: seq<Item>)
    ensures Pairs(w) == if w == [] then [] else PairOf(w[0]) + Pairs(w[1..])
  {
  }

  lemma {:induction false} PairsOfLeaf(keys: seq<Key>, vals: seq<Value>)
    requires |keys| == |vals|
    ensures Pairs(Zip(keys, vals)) == PairUp(keys, vals)
  {
    if keys != [] {
      assert Zip(keys, vals)[1..] == Zip(keys[1..], vals[1..]);
      PairsOfLeaf(keys[1..], vals[1..]);
      assert PairUp(keys, vals) == [(keys[0], vals[0])] + PairUp(keys[1..], vals[1..]);
    }
  }

  lemma PairsSep(s: Key)
    ensures Pairs([S(s)]) == []
  {
    assert [S(s)][1..] == [];
  }

  lemma {:induction false} PairsKeep(w: seq<Item>)
    ensures MapOf(Pairs(w)) == Entries(w)
  {
    hide Pairs, MapOf;
    PairsStep(w);
    if w == [] {
      assert MapOf([]) == map[] by { MapOfNone(); }
    } else {
      PairsKeep(w[1..]);
      if w[0].K? { MapOfStep((w[0].key, w[0].val), Pairs(w[1..])); } else { PairsAssoc([], [], Pairs(w[1..])); }
    }
  }

  lemma MapOfNone()
    ensures MapOf([]) == map[]
  {
  }

  lemma MapOfStep(p: Pair, ps: seq<Pair>)
    ensures MapOf([p] + ps) == map[p.0 := p.1] + MapOf(ps)
  {
    assert ([p] + ps)[1..] == ps;
  }

  lemma {:induction false} PairsCome(w: seq<Item>, j: nat)
    requires j < |Pairs(w)|
    ensures K(Pairs(w)[j].0, Pairs(w)[j].1) in w
  {
    hide Pairs;
    PairsStep(w);
    var first := PairOf(w[0]);
    if j >= |first| {
      PairsCome(w[1..], j - |first|);
      assert Pairs(w)[j] == Pairs(w[1..])[j - |first|];
      assert w == [w[0]] + w[1..];
    }
  }

  lemma {:induction false} PairsIncrease(w: seq<Item>)
    requires Ordered(w)
    ensures Increasing(Pairs(w))
  {
    if w != [] {
      assert w == [w[0]] + w[1..];
      OrderedSplit([w[0]], w[1..]);
      PairsIncrease(w[1..]);
      assert [] + Pairs(w[1..]) == Pairs(w[1..]);
      if w[0].K? { FirstIsLeast(w); }
    }
  }

  lemma FirstIsLeast(w: seq<Item>)
    requires w != [] && w[0].K? && Ordered(w) && Increasing(Pairs(w[1..]))
    ensures Increasing([(w[0].key, w[0].val)] + Pairs(w[1..]))
  {
    hide Pairs;
    var rest := Pairs(w[1..]);
    forall j | 0 <= j < |rest| ensures w[0].key < rest[j].0 {
      PairsCome(w[1..], j);
      var i :| 0 <= i < |w[1..]| && w[1..][i] == K(rest[j].0, rest[j].1);
      assert Before(w[0], w[i + 1]);
    }
  }

  // ---------------------------------------------------------------- moving between leaves

  /** Always the first child, down to a leaf. */
  function Leftmost(c: Ctx, t: Tree): (Ctx, Tree)
    decreases t
  {
    if t.Node? && |t.kids| == |t.keys| + 1 then Leftmost(Into(c, t, 0), t.kids[0]) else (c, t)
  }

  function RightOfHere(c: Ctx, f: Tree): Ctx
    requires HasRight(c)
  {
    Below(c.up, c.page, c.keysL + [c.keysR[0]], c.left + [f], c.keysR[1..], c.right[1..])
  }

  ghost predicate Place(c: Ctx, f: Tree, h: nat) {
    GoodCtx(c, h) && Good(f, h, Lo(c))
  }

  lemma {:induction false} LeftmostReaches(c: Ctx, t: Tree, h: nat)
    requires Place(c, t, h)
    ensures var (d, g) := Leftmost(c, t);
            && g.Leaf? && Place(d, g, 0) && Plug(d, g) == Plug(c, t)
            && Pre(d) == Pre(c) && Walk(g) + Post(d) == Walk(t) + Post(c)
    decreases t
  {
    hide Plug, Walk, WalkLeft, WalkRight;
    if t.Node? {
      var b := Into(c, t, 0);
      IntoGood(c, t, 0, h);
      IntoPlugs(c, t, 0);
      LeftmostReaches(b, t.kids[0], h - 1);
      NothingLeft(b);
      RebuiltWalk(b, t.kids[0]);
      FirstChild(WalkLeft(b.left, b.keysL), Walk(t.kids[0]), WalkRight(b.keysR, b.right), Post(c));
    }
  }

  lemma NothingLeft(b: Ctx)
    requires b.Below? && b.left == [] && b.keysL == []
    ensures WalkLeft(b.left, b.keysL) == [] && Pre(b) == Pre(b.up)
  {
    assert Pre(b.up) + [] == Pre(b.up);
  }

  lemma FirstChild(l: seq<Item>, m: seq<Item>, r: seq<Item>, post: seq<Item>)
    requires l == []
    ensures m + (r + post) == (l + m + r) + post
  {
  }

  lemma Recut<T>(a: seq<T>, x: T, b: seq<T>)
    requires b != []
    ensures (a + [x]) + [b[0]] + b[1..] == a + [x] + b
    ensures (a + [b[0]]) + b[1..] == a + b
    ensures b == [b[0]] + b[1..]
  {
  }

  lemma RightPlace(c: Ctx, f: Tree, h: nat)
    requires HasRight(c) && Place(c, f, h)
    ensures Place(RightOfHere(c, f), c.right[0], h)
  {
    hide Good, AllGood;
    CtxSizes(c, h);
    OneGood(f, h);
    AllGoodParts(c.left, [f], h);
    Recut(c.left, f, c.right);
    AllGoodParts([c.right[0]], c.right[1..], h);
    OneGood(c.right[0], h);
  }

  lemma RightOfHereIs(c: Ctx, f: Tree, h: nat)
    requires HasRight(c) && Place(c, f, h)
    ensures Place(RightOfHere(c, f), c.right[0], h)
    ensures Rebuilt(RightOfHere(c, f), c.right[0]) == Rebuilt(c, f)
    ensures Post(c) == [S(c.keysR[0])] + (Walk(c.right[0]) + Post(RightOfHere(c, f)))
  {
    hide Walk, WalkRight, Place;
    RightPlace(c, f, h);
    Recut(c.left, f, c.right);
    Recut(c.keysL, c.keysR[0], c.keysR);
    PostOpens(c);
    Assoc([S(c.keysR[0])], Walk(c.right[0]), Tail(c));
  }

  lemma CtxSizes(c: Ctx, h: nat)
    requires GoodCtx(c, h) && c.Below?
    ensures |c.left| == |c.keysL| && |c.right| == |c.keysR| && AllGood(c.left, h) && AllGood(c.right, h)
    ensures Lo(c.up) <= |c.keysL| + |c.keysR| <= MAX_KEYS && GoodCtx(c.up, h + 1)
  {
  }

  lemma PlaceSizes(c: Ctx, f: Tree, h: nat)
    requires Place(c, f, h)
    ensures c.Below? ==> |c.left| == |c.keysL| && |c.right| == |c.keysR|
  {
  }

  lemma SomeKeys(c: Ctx, f: Tree)
    requires Place(c, f, 0)
    ensures f.keys != []
  {
  }

  lemma NothingFollows()
    ensures Pairs(Post(Top)) == []
  {
  }

  lemma NoRight(c: Ctx)
    requires c.Below? && c.right == []
    ensures Post(c) == Post(c.up)
  {
    assert [] + Post(c.up) == Post(c.up);
  }

  // ---------------------------------------------------------------- what is still to be visited

  /** The entries from position i of leaf f at c to the end of the tree. */
  function From(c: Ctx, f: Tree, i: nat): seq<Pair>
    requires f.Leaf? && |f.vals| == |f.keys| && i <= |f.keys|
  {
    PairUp(f.keys[i..], f.vals[i..]) + Pairs(Post(c))
  }

  lemma FromStart(c: Ctx, f: Tree)
    requires f.Leaf? && |f.vals| == |f.keys|
    ensures From(c, f, 0) == Pairs(Walk(f) + Post(c))
  {
    hide Pairs;
    assert f.keys[0..] == f.keys && f.vals[0..] == f.vals;
    PairsOfLeaf(f.keys, f.vals);
    PairsConcat(Walk(f), Post(c));
  }

  lemma FromNext(c: Ctx, f: Tree, i: nat)
    requires f.Leaf? && |f.vals| == |f.keys| && i < |f.keys|
    ensures From(c, f, i) == [(f.keys[i], f.vals[i])] + From(c, f, i + 1)
  {
    hide Pairs;
    assert PairUp(f.keys[i..], f.vals[i..]) == [(f.keys[i], f.vals[i])] + PairUp(f.keys[i + 1..], f.vals[i + 1..]);
  }

  lemma FromEnd(c: Ctx, f: Tree)
    requires f.Leaf? && |f.vals| == |f.keys|
    ensures From(c, f, |f.keys|) == Pairs(Post(c))
  {
    assert PairUp([], []) + Pairs(Post(c)) == Pairs(Post(c));
  }

  /** `rest` is the part of the ordered entries from the first key that is at least k. */
  ghost predicate SplitsAt(all: seq<Pair>, k: Key, before: seq<Pair>, rest: seq<Pair>) {
    && all == before + rest
    && (forall j :: 0 <= j < |before| ==> before[j].0 < k)
    && (forall j :: 0 <= j < |rest| ==> rest[j].0 >= k)
  }

  ghost predicate IsFrom(all: seq<Pair>, k: Key, rest: seq<Pair>) {
    exists before :: SplitsAt(all, k, before, rest)
  }

  /** Where a lower-bound search lands: everything before is below k, everything from there on is not. */
  lemma FromLowerBound(c: Ctx, f: Tree, k: Key)
    requires f.Leaf? && Place(c, f, 0) && Ordered(Around(c, f)) && LeftOf(Pre(c), k) && RightOf(Post(c), k)
    ensures LowerBound(f.keys, k) <= |f.keys| && |f.vals| == |f.keys|
    ensures IsFrom(Pairs(Around(c, f)), k, From(c, f, LowerBound(f.keys, k)))
  {
    hide Pairs, Ordered, LowerBound, Zip, PairUp, LeftOf, RightOf;
    SortedLeaf(c, f);
    LowerBoundIs(f.keys, k);
    var i := LowerBound(f.keys, k);
    var a, b := PairUp(f.keys[..i], f.vals[..i]), PairUp(f.keys[i..], f.vals[i..]);
    LeafCut(f, k, i);
    PairsConcat(Pre(c) + Walk(f), Post(c));
    PairsConcat(Pre(c), Walk(f));
    PairsOfLeaf(f.keys, f.vals);
    PairsSide(Pre(c), k);
    PairsSide(Post(c), k);
    var before := Pairs(Pre(c)) + a;
    Cut(Pairs(Pre(c)), a, b, Pairs(Post(c)));
    assert SplitsAt(Pairs(Around(c, f)), k, before, From(c, f, i));
  }

  lemma Cut(pre: seq<Pair>, a: seq<Pair>, b: seq<Pair>, post: seq<Pair>)
    ensures pre + (a + b) + post == (pre + a) + (b + post)
  {
  }

  lemma LeafCut(f: Tree, k: Key, i: nat)
    requires f.Leaf? && |f.vals| == |f.keys| && Sorted(f.keys) && i <= |f.keys|
    requires (forall j :: 0 <= j < i ==> f.keys[j] < k) && (i < |f.keys| ==> f.keys[i] >= k)
    ensures var a, b := PairUp(f.keys[..i], f.vals[..i]), PairUp(f.keys[i..], f.vals[i..]);
            && PairUp(f.keys, f.vals) == a + b
            && (forall j :: 0 <= j < |a| ==> a[j].0 < k) && (forall j :: 0 <= j < |b| ==> b[j].0 >= k)
  {
  }

  lemma PairsSide(w: seq<Item>, k: Key)
    ensures LeftOf(w, k) ==> forall j :: 0 <= j < |Pairs(w)| ==> Pairs(w)[j].0 < k
    ensures RightOf(w, k) ==> forall j :: 0 <= j < |Pairs(w)| ==> Pairs(w)[j].0 > k
  {
    hide Pairs;
    forall j | 0 <= j < |Pairs(w)| ensures exists i :: 0 <= i < |w| && w[i] == K(Pairs(w)[j].0, Pairs(w)[j].1) {
      PairsCome(w, j);
    }
  }

  /** All entries of the tree in key order. */
  ghost function All(t: BTree): seq<Pair>
    reads t
  {
    if t.tree.None? then [] else Pairs(Walk(t.tree.value))
  }

  /** The ordered list of entries is strictly increasing and holds exactly the map. */
  lemma AllIsTheMap(t: BTree)
    requires t.Valid()
    ensures Increasing(All(t)) && MapOf(All(t)) == t.Map()
  {
    if t.tree.Some? {
      PairsKeep(Walk(t.tree.value));
      PairsIncrease(Walk(t.tree.value));
    }
  }

  // ---------------------------------------------------------------- the cursor

  datatype Status = Success | EndOfTree | NotPositioned | Closed

  /** The tree is not written while a cursor is open. */
  class BTreeCursor {
    const tree: BTree
    var leaf: nat
    var index: nat
    var path: seq<Hop>
    var positioned: bool
    var exhausted: bool
    var closed: bool
    ghost var ctx: Ctx
    ghost var focus: Tree

    constructor (tree: BTree)
      requires tree.Valid()
      ensures this.tree == tree && Valid() && !positioned && !exhausted && !closed
    {
      this.tree := tree;
      leaf, index, path := 0, 0, [];
      positioned, exhausted, closed := false, false, false;
      ctx, focus := Top, Leaf(0, [], []);
    }

    ghost predicate Valid()
      reads this, tree
    {
      && tree.Valid()
      && (positioned ==>
            && tree.tree.Some? && Plug(ctx, focus) == tree.tree.value && PathOf(path, ctx) && leaf == focus.page
            && Represents(tree.pages, ctx, focus) && Place(ctx, focus, 0) && focus.Leaf?
            && |focus.vals| == |focus.keys| && index < |focus.keys|)
    }

    /** The entries not yet passed; the first one is the current entry. */
    ghost function Remaining(): seq<Pair>
      requires Valid()
      reads this, tree
    {
      if positioned then From(ctx, focus, index) else []
    }

    method ReleaseLeaf()
      requires Valid()
      modifies this
      ensures Valid() && !positioned && exhausted == old(exhausted) && closed == old(closed)
    {
      leaf, index, path, positioned := 0, 0, [], false;
    }

    method DescendToLeftmost(page: nat, start: seq<Hop>, ghost c: Ctx, ghost t: Tree, ghost h: nat)
      requires tree.Valid() && tree.tree.Some? && !closed
      requires Represents(tree.pages, c, t) && page == t.page && PathOf(start, c) && Place(c, t, h)
      requires Plug(c, t) == tree.tree.value
      modifies this
      ensures Valid() && positioned && exhausted == old(exhausted) && !closed
      ensures Remaining() == Pairs(Walk(t) + Post(c))
    {
      hide Represents, GoodCtx, Good, Plug, Pairs, Walk, Post, Place, BTree.Valid;
      ghost var d, g, k := c, t, h;
      var current, way := page, start;
      ReadFocus(tree.pages, d, g);
      while tree.pages[current].InnerPage?
        invariant Represents(tree.pages, d, g) && current == g.page && PathOf(way, d) && Place(d, g, k)
        invariant current in tree.pages && tree.pages[current] == Content(g)
        invariant Leftmost(d, g) == Leftmost(c, t) && Plug(d, g) == tree.tree.value
        modifies {}
        decreases g
      {
        NodeShape(d, g, k);
        ghost var b := Into(d, g, 0);
        StepFirst(tree.pages, d, g, k);
        var hop := Hop(current, 0, false);
        assert Front(way + [hop]) == way;
        current := tree.pages[current].kids[0];
        way := way + [hop];
        d, g, k := b, g.kids[0], k - 1;
      }
      LeftmostReaches(c, t, h);
      LeafShape(d, g, k);
      FromStart(d, g);
      leaf, index, path, positioned := current, 0, way, true;
      ctx, focus := d, g;
    }

    method SeekFirst() returns (status: Status)
      requires Valid()
      modifies this
      ensures Valid() && closed == old(closed)
      ensures closed ==> status == Closed && Remaining() == old(Remaining())
      ensures !closed ==>
              Remaining() == All(tree) && exhausted == (All(tree) == []) && status == if exhausted then EndOfTree
              else Success
      ensures Remaining() != [] ==> positioned
    {
      if closed { return Closed; }
      ReleaseLeaf();
      exhausted := false;
      RootInUse(tree.pages, tree.tree);
      if tree.root == 0 {
        exhausted := true;
        return EndOfTree;
      }
      ghost var h := StartDown(tree.tree.value);
      DescendToLeftmost(tree.root, [], Top, tree.tree.value, h);
      assert Walk(tree.tree.value) + Post(Top) == Walk(tree.tree.value);
      FromNext(ctx, focus, index);
      return Success;
    }

    /** Climbs to the nearest ancestor with an unvisited child to the right. */
    method Climb() returns (found: bool, next: nat, way: seq<Hop>, ghost c: Ctx, ghost f: Tree, ghost h: nat)
      requires Valid() && positioned
      ensures found ==>
              next == f.page && Represents(tree.pages, c, f) && PathOf(way, c) && Place(c, f, h)
              && Plug(c, f) == tree.tree.value
      ensures found ==> Pairs(Walk(f) + Post(c)) == Pairs(Post(ctx))
      ensures !found ==> Pairs(Post(ctx)) == []
    {
      hide Represents, Place, Plug, Pairs, Walk, Post, BTree.Valid;
      c, f, h := ctx, focus, 0;
      way, next, found := path, 0, false;
      while way != []
        invariant Represents(tree.pages, c, f) && PathOf(way, c) && Place(c, f, h) && Plug(c, f) == tree.tree.value
        invariant Pairs(Post(c)) == Pairs(Post(ctx))
        decreases |way|
      {
        var hop := Last(way);
        var child := ChildIndex(hop);
        PlaceSizes(c, f, h);
        ReadFocus(tree.pages, c, f);
        var parent := tree.pages[hop.page];
        if child < |parent.keys| {
          StepRight(tree.pages, c, f, h);
          next, found := parent.kids[child + 1], true;
          ghost var up := Front(way);
          way := Front(way) + [Hop(hop.page, child, true)];
          assert Front(way) == up;
          c, f := RightOfHere(c, f), c.right[0];
          return;
        }
        StepUp(tree.pages, c, f, h);
        way := Front(way);
        c, f, h := c.up, Rebuilt(c, f), h + 1;
      }
      NothingFollows();
    }

    /** The next leaf to the right, if there is one; otherwise the cursor lets go of its leaf. */
    method MoveToNextLeaf() returns (status: Status)
      requires Valid() && positioned && !closed
      modifies this
      ensures Valid() && !closed && exhausted == old(exhausted)
      ensures Remaining() == Pairs(Post(old(ctx)))
      ensures status == if Remaining() == [] then EndOfTree else Success
      ensures positioned <==> status == Success
    {
      hide Represents, Place, Plug, Pairs, Walk, Post, PathOf, BTree.Valid, PairUp;
      ghost var c, f, h;
      var found, next, way;
      found, next, way, c, f, h := Climb();
      if found {
        DescendToLeftmost(next, way, c, f, h);
        FromNext(ctx, focus, index);
        return Success;
      }
      ReleaseLeaf();
      return EndOfTree;
    }

    /** One entry further; at the end the cursor stays exhausted. */
    method Next() returns (status: Status)
      requires Valid()
      modifies this
      ensures Valid() && closed == old(closed)
      ensures status == if closed then Closed else if old(exhausted) then EndOfTree
                        else if !old(positioned) then NotPositioned
                        else if Remaining() == [] then EndOfTree else Success
      ensures !closed && !old(exhausted) && old(positioned) ==>
              old(Remaining()) != [] && Remaining() == old(Remaining())[1..]
      ensures closed || old(exhausted) || !old(positioned) ==> Remaining() == old(Remaining())
      ensures exhausted == (old(exhausted) || status == EndOfTree)
      ensures Remaining() != [] ==> positioned
    {
      hide Represents, Place, Plug, Pairs, PairUp, PathOf, Proper;
      if closed { return Closed; }
      if exhausted { return EndOfTree; }
      if !positioned { return NotPositioned; }
      FromNext(ctx, focus, index);
      ReadFocus(tree.pages, ctx, focus);
      if index + 1 < |tree.pages[leaf].keys| {
        FromNext(ctx, focus, index + 1);
        index := index + 1;
        return Success;
      }
      FromEnd(ctx, focus);
      status := MoveToNextLeaf();
      if status == EndOfTree { exhausted := true; }
    }

    /** Descends to the leaf for k and stands on the first key that is not below k, or on the last key if the leaf has
        none; then the search goes on in the next leaf. */
    method Land(k: Key) returns (past: bool)
      requires Valid() && tree.tree.Some?
      modifies this
      ensures Valid() && positioned && closed == old(closed) && exhausted == old(exhausted)
      ensures IsFrom(All(tree), k, if past then Pairs(Post(ctx)) else Remaining())
    {
      hide Ordered, Pairs, Represents, Plug, LowerBound, Find, Around, LeftOf, RightOf, Good, GoodCtx, From, IsFrom,
        PathOf, BTree.Valid, Walk, Post, PairUp;
      ghost var c, f;
      var page, way;
      RootKnown(tree);
      page, way, c, f := tree.Descend(k);
      ReadFocus(tree.pages, c, f);
      SortedLeaf(c, f);
      SomeKeys(c, f);
      var node := tree.pages[page];
      var i := LowerBoundIndex(node.keys, k);
      FromLowerBound(c, f, k);
      AroundIsAll(tree, c, f);
      FromEnd(c, f);
      ctx, focus, leaf, path, positioned := c, f, page, way, true;
      past := i == |node.keys|;
      index := if past then |node.keys| - 1 else i;
    }

    /** Positions on the least key that is at least k, in this leaf or in the next one. */
    method Seek(k: Key) returns (status: Status)
      requires Valid()
      modifies this
      ensures Valid() && closed == old(closed)
      ensures closed ==> status == Closed && Remaining() == old(Remaining())
      ensures !closed ==>
              status == (if Remaining() == [] then EndOfTree else Success) && exhausted == (status == EndOfTree)
      ensures !closed ==> IsFrom(All(tree), k, Remaining())
      ensures Remaining() != [] ==> positioned
    {
      hide Ordered, Pairs, Represents, Plug, LowerBound, Find, Around, LeftOf, RightOf, Good, GoodCtx, From, SplitsAt,
        IsFrom, PathOf, BTree.Valid, Walk, Post, PairUp;
      if closed { return Closed; }
      ReleaseLeaf();
      exhausted := false;
      RootKnown(tree);
      if tree.root == 0 {
        exhausted := true;
        NothingToSplit(k);
        return EndOfTree;
      }
      var past := Land(k);
      if !past {
        FromNext(ctx, focus, index);
        return Success;
      }
      status := MoveToNextLeaf();
      if status == EndOfTree { exhausted := true; }
    }

    method Current() returns (status: Status, entry: Option<Pair>)
      requires Valid()
      ensures status == if closed then Closed else if exhausted then EndOfTree else if !positioned then NotPositioned
              else Success
      ensures status == Success ==> Remaining() != [] && entry == Some(Remaining()[0])
      ensures status != Success ==> entry == None
    {
      if closed { return Closed, None; }
      if exhausted { return EndOfTree, None; }
      if !positioned { return NotPositioned, None; }
      FromNext(ctx, focus, index);
      ReadFocus(tree.pages, ctx, focus);
      var node := tree.pages[leaf];
      return Success, Some((node.keys[index], node.vals[index]));
    }
  }

  lemma RootKnown(t: BTree)
    requires t.Valid()
    ensures t.root == 0 <==> t.tree.None?
  {
    RootInUse(t.pages, t.tree);
  }

  lemma NothingToSplit(k: Key)
    ensures IsFrom([], k, [])
  {
    assert SplitsAt([], k, [], []);
  }

  lemma AroundIsAll(t: BTree, c: Ctx, f: Tree)
    requires t.Valid() && t.tree.Some? && Plug(c, f) == t.tree.value && GoodCtx(c, 0)
    ensures Pairs(Around(c, f)) == All(t)
  {
    GoodIsShaped(c, 0);
    PlugWalk(c, f);
  }

  /** One step of the descent along first children. */
  lemma StepFirst(st: Store, d: Ctx, g: Tree, k: nat)
    requires Represents(st, d, g) && Place(d, g, k) && g.Node? && |g.kids| == |g.keys| + 1 && k > 0
    ensures var b := Into(d, g, 0);
            && Represents(st, b, g.kids[0]) && Place(b, g.kids[0], k - 1) && Plug(b, g.kids[0]) == Plug(d, g)
            && Leftmost(b, g.kids[0]) == Leftmost(d, g) && b.left == [] && b.page == g.page && b.up == d
            && g.kids[0].page in st && st[g.kids[0].page] == Content(g.kids[0])
  {
    hide Represents, Plug;
    var b := Into(d, g, 0);
    IntoGood(d, g, 0, k);
    IntoPlugs(d, g, 0);
    UpRepresents(st, b, g.kids[0]);
    ReadFocus(st, b, g.kids[0]);
  }

  lemma NodeShape(c: Ctx, t: Tree, h: nat)
    requires Place(c, t, h) && t.Node?
    ensures |t.kids| == |t.keys| + 1 && h > 0
  {
  }

  lemma LeafShape(c: Ctx, t: Tree, h: nat)
    requires Place(c, t, h) && t.Leaf?
    ensures |t.vals| == |t.keys| && h == 0 && t.keys != []
  {
  }

  /** The climb has found a sibling to the right. */
  lemma StepRight(st: Store, c: Ctx, f: Tree, h: nat)
    requires Represents(st, c, f) && Place(c, f, h) && HasRight(c) && |c.left| == |c.keysL|
    ensures var d := RightOfHere(c, f);
            && Represents(st, d, c.right[0]) && Place(d, c.right[0], h) && Plug(d, c.right[0]) == Plug(c, f)
            && Pairs(Walk(c.right[0]) + Post(d)) == Pairs(Post(c))
    ensures var p := HoleContent(c, f.page); |c.left| + 1 < |p.kids| && p.kids[|c.left| + 1] == c.right[0].page
  {
    hide Represents, GoodCtx, Good, Plug, Pairs, Walk;
    ReadRight(st, c, f);
    RightOfHereIs(c, f, h);
    UpRepresents(st, c, f);
    UpRepresents(st, RightOfHere(c, f), c.right[0]);
    SamePlug(RightOfHere(c, f), c.right[0], c, f);
    SkipSep(c, f);
  }

  lemma StepUp(st: Store, c: Ctx, f: Tree, h: nat)
    requires Represents(st, c, f) && Place(c, f, h) && c.Below? && c.right == []
    ensures Represents(st, c.up, Rebuilt(c, f)) && Place(c.up, Rebuilt(c, f), h + 1)
    ensures Plug(c.up, Rebuilt(c, f)) == Plug(c, f)
    ensures Post(c) == Post(c.up)
  {
    hide Represents, Good;
    NoRight(c);
    RebuiltGood(c, f, h, Lo(c.up));
    UpRepresents(st, c, f);
  }

  lemma SamePlug(d: Ctx, g: Tree, c: Ctx, f: Tree)
    requires c.Below?
    requires (d == c.up && g == Rebuilt(c, f)) || (d.Below? && d.up == c.up && Rebuilt(d, g) == Rebuilt(c, f))
    ensures Plug(d, g) == Plug(c, f)
  {
  }

  lemma SkipSep(c: Ctx, f: Tree)
    requires HasRight(c)
    requires Post(c) == [S(c.keysR[0])] + (Walk(c.right[0]) + Post(RightOfHere(c, f)))
    ensures Pairs(Post(c)) == Pairs(Walk(c.right[0]) + Post(RightOfHere(c, f)))
  {
    hide Walk, Pairs;
    PairsConcat([S(c.keysR[0])], Walk(c.right[0]) + Post(RightOfHere(c, f)));
    PairsSep(c.keysR[0]);
    assert [] + Pairs(Walk(c.right[0]) + Post(RightOfHere(c, f))) == Pairs(Walk(c.right[0]) + Post(RightOfHere(c, f)));
  }

  // ---------------------------------------------------------------- scans

  ghost predicate Within(found: seq<Pair>, inBounds: Key -> bool) {
    forall i :: 0 <= i < |found| ==> inBounds(found[i].0)
  }

  /** Collects entries from the current one on, up to the first key that is out of bounds. */
  method Collect(cursor: BTreeCursor, inBounds: Key -> bool) returns (found: seq<Pair>)
    requires cursor.Valid() && !cursor.closed
    requires cursor.exhausted == (cursor.Remaining() == []) && (cursor.Remaining() != [] ==> cursor.positioned)
    modifies cursor
    ensures found <= old(cursor.Remaining()) && Within(found, inBounds)
    ensures |found| < |old(cursor.Remaining())| ==> !inBounds(old(cursor.Remaining())[|found|].0)
  {
    hide BTreeCursor.Valid, BTreeCursor.Remaining, Within;
    ghost var all := cursor.Remaining();
    found := [];
    NothingFound(inBounds);
    var status, entry := cursor.Current();
    while status == Success && inBounds(entry.value.0)
      invariant cursor.Valid() && !cursor.closed
      invariant cursor.exhausted == (cursor.Remaining() == []) && (cursor.Remaining() != [] ==> cursor.positioned)
      invariant |found| <= |all| && found == all[..|found|] && cursor.Remaining() == all[|found|..]
      invariant status == (if cursor.Remaining() == [] then EndOfTree else Success)
      invariant status == Success ==> entry == Some(cursor.Remaining()[0])
      invariant Within(found, inBounds)
      decreases |all| - |found|
    {
      TakeOne(all, |found|);
      OneMoreWithin(found, entry.value, inBounds);
      found := found + [entry.value];
      var _ := cursor.Next();
      status, entry := cursor.Current();
    }
    if status == Success { TakeOne(all, |found|); }
  }

  lemma NothingFound(inBounds: Key -> bool)
    ensures Within([], inBounds)
  {
  }

  lemma OneMoreWithin(found: seq<Pair>, p: Pair, inBounds: Key -> bool)
    requires Within(found, inBounds) && inBounds(p.0)
    ensures Within(found + [p], inBounds)
  {
  }

  lemma TakeOne(all: seq<Pair>, n: nat)
    requires n <= |all| && all[n..] != []
    ensures n < |all| && all[n..][0] == all[n] && all[..n + 1] == all[..n] + [all[n]] && all[n..][1..] == all[n + 1..]
  {
  }

  lemma RestIsLarger(all: seq<Pair>, n: nat)
    requires Increasing(all) && n < |all|
    ensures forall i :: n <= i < |all| ==> all[i].0 >= all[n].0
  {
  }

  /** The half-open range [start, end): every entry in it, once, in key order, and nothing else. */
  method ScanRange(tree: BTree, start: Key, end: Key) returns (found: seq<Pair>)
    requires tree.Valid()
    ensures Increasing(found)
    ensures forall p :: p in found <==> p in All(tree) && start <= p.0 < end
  {
    hide BTreeCursor.Valid, BTreeCursor.Remaining, Increasing, Pairs, MapOf, BTree.Valid;
    AllIsTheMap(tree);
    var cursor := new BTreeCursor(tree);
    var _ := cursor.Seek(start);
    ghost var rest := cursor.Remaining();
    ghost var before :| SplitsAt(All(tree), start, before, rest);
    SuffixIncreases(before, rest);
    found := Collect(cursor, k => k < end);
    if |found| < |rest| { RestIsLarger(rest, |found|); }
    RangeIs(All(tree), start, before, rest, found, end);
  }

  lemma SuffixIncreases(a: seq<Pair>, b: seq<Pair>)
    requires Increasing(a + b)
    ensures Increasing(b)
  {
    forall i, j | 0 <= i < j < |b| ensures b[i].0 < b[j].0 {
      assert (a + b)[|a| + i] == b[i] && (a + b)[|a| + j] == b[j];
    }
  }

  lemma RangeIs(all: seq<Pair>, start: Key, before: seq<Pair>, rest: seq<Pair>, found: seq<Pair>, end: Key)
    requires SplitsAt(all, start, before, rest) && Increasing(rest) && found <= rest
    requires forall i :: 0 <= i < |found| ==> found[i].0 < end
    requires forall i :: |found| <= i < |rest| ==> rest[i].0 >= end
    ensures Increasing(found)
    ensures forall p :: p in found <==> p in all && start <= p.0 < end
  {
    assert found == rest[..|found|];
    forall p ensures p in found <==> p in all && start <= p.0 < end {
      if p in found {
        var i :| 0 <= i < |found| && found[i] == p;
        assert rest[i] == p && all[|before| + i] == p;
      }
      if p in all && start <= p.0 < end {
        var i :| 0 <= i < |all| && all[i] == p;
        if i < |before| {
          assert before[i] == p;
        } else {
          assert rest[i - |before|] == p;
          assert found[i - |before|] == p;
        }
      }
    }
  }

  /** Everything that is in the tree, in key order. */
  method ScanAll(tree: BTree) returns (found: seq<Pair>)
    requires tree.Valid()
    ensures found == All(tree)
  {
    hide BTreeCursor.Valid, BTreeCursor.Remaining, Pairs, BTree.Valid;
    var cursor := new BTreeCursor(tree);
    var _ := cursor.SeekFirst();
    found := Collect(cursor, k => true);
  }

  /** The encoded keys of the entries. */
  function Encoded(ps: seq<Pair>, keyOf: Key -> KeyOrder.Key): seq<KeyOrder.Key> {
    seq(|ps|, i requires 0 <= i < |ps| => keyOf(ps[i].0))
  }

  /** The keys of one type that begin with the prefix: all of them, once, in key order, and nothing else. `keyOf` reads
      the encoded key off its place in the order. */
  method ScanPrefix(tree: BTree, prefix: KeyOrder.Key, keyOf: Key -> KeyOrder.Key) returns (found: seq<Pair>)
    requires tree.Valid() && (forall p :: p in All(tree) ==> KeyOrder.Embed(keyOf(p.0)) == p.0)
    ensures Increasing(found)
    ensures forall p :: p in found <==> p in All(tree) && KeyOrder.HasPrefix(keyOf(p.0), prefix)
  {
    hide BTreeCursor.Valid, BTreeCursor.Remaining, Increasing, Pairs, MapOf, BTree.Valid, KeyOrder.Embed,
      KeyOrder.HasPrefix;
    AllIsTheMap(tree);
    var cursor := new BTreeCursor(tree);
    var start := KeyOrder.Embed(prefix);
    var _ := cursor.Seek(start);
    ghost var rest := cursor.Remaining();
    ghost var before :| SplitsAt(All(tree), start, before, rest);
    found := Collect(cursor, k => KeyOrder.HasPrefix(keyOf(k), prefix));
    PrefixIs(All(tree), prefix, keyOf, before, rest, found);
  }

  lemma EncodedInOrder(all: seq<Pair>, keyOf: Key -> KeyOrder.Key)
    requires Increasing(all) && (forall p :: p in all ==> KeyOrder.Embed(keyOf(p.0)) == p.0)
    ensures KeyOrder.InOrder(Encoded(all, keyOf))
  {
    hide KeyOrder.Embed, KeyOrder.Less;
    var keys := Encoded(all, keyOf);
    forall i, j | 0 <= i < j < |keys| ensures KeyOrder.Less(keys[i], keys[j]) {
      assert all[i] in all && all[j] in all;
      KeyOrder.EmbedOrder(keys[i], keys[j]);
    }
  }

  lemma PrefixIs(all: seq<Pair>, prefix: KeyOrder.Key, keyOf: Key -> KeyOrder.Key, before: seq<Pair>, rest: seq<Pair>,
      found: seq<Pair>)
    requires SplitsAt(all, KeyOrder.Embed(prefix), before, rest) && Increasing(all) && found <= rest
    requires forall p :: p in all ==> KeyOrder.Embed(keyOf(p.0)) == p.0
    requires forall i :: 0 <= i < |found| ==> KeyOrder.HasPrefix(keyOf(found[i].0), prefix)
    requires |found| < |rest| ==> !KeyOrder.HasPrefix(keyOf(rest[|found|].0), prefix)
    ensures Increasing(found)
    ensures forall p :: p in found <==> p in all && KeyOrder.HasPrefix(keyOf(p.0), prefix)
  {
    hide KeyOrder.Embed, KeyOrder.Less, KeyOrder.HasPrefix, KeyOrder.InOrder, SplitsAt, Increasing;
    var keys, from := Encoded(all, keyOf), |before|;
    var to := from + |found|;
    EncodedInOrder(all, keyOf);
    SplitEncoded(all, prefix, keyOf, before, rest);
    forall i | from <= i < to ensures found[i - from] == all[i] && KeyOrder.HasPrefix(keys[i], prefix) {
      assert found[i - from] == rest[i - from] == all[i];
    }
    assert to < |keys| ==> all[to] == rest[|found|];
    KeyOrder.PrefixScan(keys, prefix, from, to);
    Window(all, from, to, found);
    WindowMembers(all, keys, from, to, found, prefix, keyOf);
  }

  /** The place where the seek lands, seen in the encoded keys. */
  lemma SplitEncoded(all: seq<Pair>, prefix: KeyOrder.Key, keyOf: Key -> KeyOrder.Key, before: seq<Pair>,
      rest: seq<Pair>)
    requires SplitsAt(all, KeyOrder.Embed(prefix), before, rest)
    requires forall p :: p in all ==> KeyOrder.Embed(keyOf(p.0)) == p.0
    ensures all == before + rest
    ensures forall i :: 0 <= i < |before| ==> KeyOrder.Less(Encoded(all, keyOf)[i], prefix)
    ensures rest != [] ==>
            prefix == Encoded(all, keyOf)[|before|] || KeyOrder.Less(prefix, Encoded(all, keyOf)[|before|])
  {
    hide KeyOrder.Embed, KeyOrder.Less;
    var keys := Encoded(all, keyOf);
    forall i | 0 <= i < |before| ensures KeyOrder.Less(keys[i], prefix) {
      assert before[i] == all[i] && all[i] in all;
      KeyOrder.EmbedOrder(keys[i], prefix);
    }
    if rest != [] {
      assert rest[0] == all[|before|] && all[|before|] in all;
      KeyOrder.EmbedOrder(prefix, keys[|before|]);
    }
  }

  lemma Window(all: seq<Pair>, from: nat, to: nat, found: seq<Pair>)
    requires from <= to <= |all| && |found| == to - from && (forall i :: from <= i < to ==> found[i - from] == all[i])
    requires Increasing(all)
    ensures Increasing(found)
  {
    forall i, j | 0 <= i < j < |found| ensures found[i].0 < found[j].0 {
      assert found[from + i - from] == all[from + i] && found[from + j - from] == all[from + j];
    }
  }

  lemma WindowMembers(all: seq<Pair>, keys: seq<KeyOrder.Key>, from: nat, to: nat, found: seq<Pair>,
      prefix: KeyOrder.Key, keyOf: Key -> KeyOrder.Key)
    requires keys == Encoded(all, keyOf) && from <= to <= |all| && |found| == to - from
    requires forall i :: from <= i < to ==> found[i - from] == all[i]
    requires forall i :: 0 <= i < |keys| ==> (KeyOrder.HasPrefix(keys[i], prefix) <==> from <= i < to)
    ensures forall p :: p in found <==> p in all && KeyOrder.HasPrefix(keyOf(p.0), prefix)
  {
    hide KeyOrder.HasPrefix;
    forall p ensures p in found <==> p in all && KeyOrder.HasPrefix(keyOf(p.0), prefix) {
      if p in found {
        var i :| 0 <= i < |found| && found[i] == p;
        assert found[from + i - from] == all[from + i] && KeyOrder.HasPrefix(keys[from + i], prefix);
      }
      if p in all && KeyOrder.HasPrefix(keyOf(p.0), prefix) {
        var i :| 0 <= i < |all| && all[i] == p;
        assert KeyOrder.HasPrefix(keys[i], prefix);
        assert found[i - from] == p;
      }
    }
  }
}
