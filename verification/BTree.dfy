/** The imperative B+ tree over numbered pages, refining the tree functions. */
module BTrees {
  import opened Sequences
  import opened Options
  import opened Walks
  import opened BTreeModel
  import opened BTreeRemove
  import opened BTreeInsert
  import opened BTreePages
  import opened BTreeSizes

  /** A recorded step down: the parent page, the separator used, and the side taken. */
  datatype Hop = Hop(page: nat, sep: nat, right: bool)

  function ChildIndex(h: Hop): nat {
    if h.right then h.sep + 1 else h.sep
  }

  ghost predicate PathOf(path: seq<Hop>, c: Ctx) {
    if c.Top? then path == []
    else path != [] && Last(path).page == c.page && ChildIndex(Last(path)) == |c.left| && PathOf(Front(path), c.up)
  }

  function TopPage(c: Ctx): nat
    requires c.Below?
  {
    if c.up.Top? then c.page else TopPage(c.up)
  }

  lemma {:induction false} PlugPage(c: Ctx, f: Tree)
    requires c.Below?
    ensures Plug(c, f).page == TopPage(c)
  {
    if c.up.Below? { PlugPage(c.up, Rebuilt(c, f)); }
  }

  lemma {:induction false} LowerBoundUnique(keys: seq<Key>, k: Key, i: nat)
    requires i <= |keys| && (forall j :: 0 <= j < i ==> keys[j] < k) && (i < |keys| ==> keys[i] >= k)
    ensures i == LowerBound(keys, k)
  {
    if i > 0 {
      assert keys[0] < k;
      LowerBoundUnique(keys[1..], k, i - 1);
    }
  }

  // ---------------------------------------------------------------- reading the pages around a node

  lemma ReadFocus(st: Store, c: Ctx, f: Tree)
    requires Represents(st, c, f)
    ensures f.page in st && st[f.page] == Content(f)
    ensures c.Below? ==> c.page in st && st[c.page] == HoleContent(c, f.page)
  {
  }

  lemma ReadRight(st: Store, c: Ctx, f: Tree)
    requires Represents(st, c, f) && HasRight(c) && |c.left| == |c.keysL|
    ensures c.right[0].page in st && st[c.right[0].page] == Content(c.right[0])
    ensures var p := HoleContent(c, f.page);
            && |c.left| < |p.keys| && |p.kids| == |p.keys| + 1
            && p.kids[|c.left|] == f.page && p.kids[|c.left| + 1] == c.right[0].page && p.keys[|c.left|] == c.keysR[0]
  {
    assert Holds(st, c.right[0]);
  }

  lemma ReadLeft(st: Store, c: Ctx, f: Tree)
    requires Represents(st, c, f) && HasLeft(c) && |c.right| == |c.keysR|
    ensures Last(c.left).page in st && st[Last(c.left).page] == Content(Last(c.left))
    ensures var p := HoleContent(c, f.page);
            && 0 < |c.left| <= |p.keys| && |p.kids| == |p.keys| + 1
            && p.kids[|c.left|] == f.page && p.kids[|c.left| - 1] == Last(c.left).page
            && p.keys[|c.left| - 1] == Last(c.keysL)
  {
    assert Holds(st, c.left[|c.left| - 1]);
  }

  /** The parent page after its separator at the right of the child is set. */
  lemma ParentSetRight(c: Ctx, d: Ctx, hole: nat, s: Key)
    requires HasRight(c) && |c.left| == |c.keysL| && d.Below? && d.keysL == c.keysL && d.left == c.left
    requires d.keysR == [s] + c.keysR[1..] && |d.right| == |c.right| && d.right[1..] == c.right[1..]
    requires d.right[0].page == c.right[0].page
    ensures HoleContent(d, hole) == InnerPage(HoleContent(c, hole).keys[|c.left| := s], HoleContent(c, hole).kids)
  {
    assert Numbers(d.right) == Numbers(c.right) by {
      forall i | 0 <= i < |c.right| ensures d.right[i].page == c.right[i].page {
        if i > 0 { assert d.right[i] == d.right[1..][i - 1] && c.right[i] == c.right[1..][i - 1]; }
      }
    }
    assert (c.keysL + c.keysR)[|c.keysL| := s] == c.keysL + ([s] + c.keysR[1..]);
  }

  lemma ParentSetLeft(c: Ctx, d: Ctx, hole: nat, s: Key)
    requires HasLeft(c) && d.Below? && d.keysR == c.keysR && d.right == c.right
    requires d.keysL == Front(c.keysL) + [s] && |d.left| == |c.left| && Front(d.left) == Front(c.left)
    requires Last(d.left).page == Last(c.left).page
    ensures HoleContent(d, hole) == InnerPage(HoleContent(c, hole).keys[|c.left| - 1 := s], HoleContent(c, hole).kids)
  {
    assert Numbers(d.left) == Numbers(c.left) by {
      forall i | 0 <= i < |c.left| ensures d.left[i].page == c.left[i].page {
        if i < |c.left| - 1 { assert d.left[i] == Front(d.left)[i] && c.left[i] == Front(c.left)[i]; }
      }
    }
    assert (c.keysL + c.keysR)[|c.keysL| - 1 := s] == (Front(c.keysL) + [s]) + c.keysR;
  }

  /** The parent page after the separator and the child to its right are removed. */
  lemma ParentDropRight(c: Ctx, hole: nat)
    requires HasRight(c) && |c.left| == |c.keysL|
    ensures HoleContent(c.(keysR := c.keysR[1..], right := c.right[1..]), hole)
         == InnerPage(Without(HoleContent(c, hole).keys, |c.left|), Without(HoleContent(c, hole).kids, |c.left| + 1))
  {
    var p := HoleContent(c, hole);
    assert Without(p.keys, |c.left|) == c.keysL + c.keysR[1..];
    assert Numbers(c.right) == [c.right[0].page] + Numbers(c.right[1..]);
    assert Without(p.kids, |c.left| + 1) == Numbers(c.left) + [hole] + Numbers(c.right[1..]);
  }

  lemma ParentDropLeft(c: Ctx, hole: nat)
    requires HasLeft(c) && |c.right| == |c.keysR|
    ensures HoleContent(c.(keysL := Front(c.keysL), left := Front(c.left)), Last(c.left).page)
         == InnerPage(Without(HoleContent(c, hole).keys, |c.left| - 1), Without(HoleContent(c, hole).kids, |c.left|))
  {
    var p := HoleContent(c, hole);
    assert Without(p.keys, |c.left| - 1) == Front(c.keysL) + c.keysR;
    assert Numbers(c.left) == Numbers(Front(c.left)) + [Last(c.left).page];
    assert Without(p.kids, |c.left|) == Numbers(Front(c.left)) + [Last(c.left).page] + Numbers(c.right);
  }

  // ---------------------------------------------------------------- moving entries between pages

  lemma WithoutSlices<T>(s: seq<T>, at: nat)
    requires at < |s|
    ensures |Without(s, at)| == |s| - 1
    ensures Without(s, at)[..at] == s[..at] && Without(s, at)[at..] == s[at + 1..] && s[at..] == [s[at]] + s[at + 1..]
  {
  }

  lemma Shift<T>(a: seq<T>, x: T, b: seq<T>)
    ensures a + ([x] + b) == (a + [x]) + b
  {
  }

  /** Moves everything from position `at` on into an empty page, one entry at a time. */
  method MigrateLeaf(src: PageNode, at: nat) returns (low: PageNode, high: PageNode)
    requires src.LeafPage? && |src.vals| == |src.keys| && at <= |src.keys|
    ensures low == LeafPage(src.keys[..at], src.vals[..at]) && high == LeafPage(src.keys[at..], src.vals[at..])
  {
    hide Without;
    low, high := src, LeafPage([], []);
    while |low.keys| > at
      invariant low.LeafPage? && high.LeafPage? && |low.keys| == |low.vals| >= at && |high.keys| == |high.vals|
      invariant low.keys[..at] == src.keys[..at] && low.vals[..at] == src.vals[..at]
      invariant high.keys + low.keys[at..] == src.keys[at..] && high.vals + low.vals[at..] == src.vals[at..]
      decreases |low.keys|
    {
      WithoutSlices(low.keys, at);
      WithoutSlices(low.vals, at);
      Shift(high.keys, low.keys[at], low.keys[at + 1..]);
      Shift(high.vals, low.vals[at], low.vals[at + 1..]);
      high := LeafPage(high.keys + [low.keys[at]], high.vals + [low.vals[at]]);
      low := LeafPage(Without(low.keys, at), Without(low.vals, at));
    }
  }

  /** Moves the entries of b to the end of a, first one first. */
  method DrainLeaf(a: PageNode, b: PageNode) returns (m: PageNode)
    requires a.LeafPage? && b.LeafPage? && |a.vals| == |a.keys| && |b.vals| == |b.keys|
    ensures m == LeafPage(a.keys + b.keys, a.vals + b.vals)
  {
    m := a;
    var rest := b;
    while |rest.keys| > 0
      invariant m.LeafPage? && rest.LeafPage? && |rest.vals| == |rest.keys|
      invariant m.keys + rest.keys == a.keys + b.keys && m.vals + rest.vals == a.vals + b.vals
      decreases |rest.keys|
    {
      m := LeafPage(m.keys + [rest.keys[0]], m.vals + [rest.vals[0]]);
      rest := LeafPage(rest.keys[1..], rest.vals[1..]);
    }
  }

  /** Brings the separator down, then moves b's separators and children to the end of a. */
  method DrainInner(a: PageNode, sep: Key, b: PageNode) returns (m: PageNode)
    requires a.InnerPage? && b.InnerPage? && |a.kids| == |a.keys| + 1 && |b.kids| == |b.keys| + 1
    ensures m == InnerPage(a.keys + [sep] + b.keys, a.kids + b.kids)
  {
    m := InnerPage(a.keys + [sep], a.kids + [b.kids[0]]);
    var rest := b;
    while |rest.keys| > 0
      invariant m.InnerPage? && rest.InnerPage? && |rest.kids| == |rest.keys| + 1
      invariant m.keys + rest.keys == a.keys + [sep] + b.keys && m.kids + rest.kids[1..] == a.kids + b.kids
      decreases |rest.keys|
    {
      m := InnerPage(m.keys + [rest.keys[0]], m.kids + [rest.kids[1]]);
      rest := InnerPage(rest.keys[1..], rest.kids[1..]);
    }
  }

  /** Binary search for the first key that is not below k. */
  method LowerBoundIndex(keys: seq<Key>, k: Key) returns (i: nat)
    requires Sorted(keys)
    ensures i == LowerBound(keys, k)
  {
    var left, right := 0, |keys|;
    while left < right
      invariant 0 <= left <= right <= |keys|
      invariant (forall j :: 0 <= j < left ==> keys[j] < k) && (forall j :: right <= j < |keys| ==> keys[j] >= k)
    {
      var mid := left + (right - left) / 2;
      if keys[mid] < k { left := mid + 1; } else { right := mid; }
    }
    LowerBoundUnique(keys, k, left);
    return left;
  }

  /** The cells of the page and their directory lie clear of each other. */
  predicate PageFits(size: Sizes, n: PageNode) {
    match n
    case LeafPage(keys, vals) => LeafFits(size, keys, vals)
    case InnerPage(keys, _) => InnerFits(size, keys)
  }

  lemma ContentFits(size: Sizes, t: Tree)
    ensures PageFits(size, Content(t)) <==> NodeOk(FITTING(size), t)
  {
  }

  lemma HoleFits(size: Sizes, d: Ctx, g: Tree)
    requires d.Below?
    ensures PageFits(size, HoleContent(d, g.page)) <==> NodeOk(FITTING(size), Rebuilt(d, g))
  {
  }

  lemma LeftInnerContent(c: Ctx, f: Tree)
    requires HasLeft(c) && |c.right| == |c.keysR| && Alike(f, Last(c.left)) && f.Node? && CanLend(Last(c.left))
    ensures var (d, g) := BorrowLeft(c, f);
            var l := Last(c.left);
            var last := |l.keys| - 1;
            && d.Below? && d.left != [] && d.page == c.page && g.page == f.page && Last(d.left).page == l.page
            && |Numbers(l.kids)| == last + 2
            && Content(g) == InnerPage([Last(c.keysL)] + f.keys, [Numbers(l.kids)[last + 1]] + Numbers(f.kids))
            && Content(Last(d.left)) == InnerPage(l.keys[..last], Numbers(l.kids)[..last + 1])
            && HoleContent(d, f.page)
                 == InnerPage(HoleContent(c, f.page).keys[|c.left| - 1 := l.keys[last]], HoleContent(c, f.page).kids)
  {
    var (d, g) := BorrowLeft(c, f);
    var l := Last(c.left);
    var last := |l.keys| - 1;
    assert Numbers([Last(l.kids)] + f.kids) == [Numbers(l.kids)[last + 1]] + Numbers(f.kids);
    assert Numbers(Front(l.kids)) == Numbers(l.kids)[..last + 1];
    ParentSetLeft(c, d, f.page, l.keys[last]);
  }

  lemma BorrowedFits(size: Sizes, d: Ctx, g: Tree, sib: Tree)
    requires d.Below?
    ensures WritesOk(FITTING(size), [g, sib, Rebuilt(d, g)]) <==>
              PageFits(size, Content(g)) && PageFits(size, Content(sib)) && PageFits(size, HoleContent(d, g.page))
  {
    hide FITTING;
    ThreeOk(FITTING(size), g, sib, Rebuilt(d, g));
    ContentFits(size, g);
    ContentFits(size, sib);
    HoleFits(size, d, g);
  }

  class BTree {
    const size: Sizes
    var pages: Store
    /** No page was ever written that could not hold its contents. */
    var intact: bool
    var root: nat
    var free: set<nat>
    var limit: nat
    ghost var tree: Option<Tree>

    /** Page numbers 1..limit-1 are either in use or free, never both, and page 0 is neither. */
    ghost predicate Space()
      reads this
    {
      limit > 0 && pages.Keys !! free && (forall p :: p in pages || p in free <==> 0 < p < limit)
    }

    ghost predicate Valid()
      reads this
    {
      && Space() && intact
      && (tree.None? ==> root == 0 && pages == map[])
      && (tree.Some? ==>
            root == tree.value.page && Represents(pages, Top, tree.value) && Proper(tree.value)
            && TreeOk(FITTING(size), tree.value))
    }

    ghost function Map(): map<Key, Value>
      reads this
    {
      Left(tree)
    }

    constructor (size: Sizes)
      ensures Valid() && Map() == map[] && this.size == size
    {
      this.size := size;
      pages, root, free, limit, tree, intact := map[], 0, {}, 1, None, true;
    }

    /** Writes a page back. One whose cells do not fit damages itself, after which nothing is promised any more. */
    method Write(p: nat, node: PageNode)
      requires p in pages
      modifies this`pages, this`intact
      ensures pages == old(pages)[p := node] && intact == (old(intact) && PageFits(size, node))
      ensures old(Space()) ==> Space()
    {
      pages := pages[p := node];
      intact := intact && PageFits(size, node);
    }

    /** Reuses a free page, or extends the file; the new page starts with the given layout. */
    method Allocate(layout: PageNode) returns (p: nat)
      requires Space()
      modifies this`pages, this`free, this`limit
      ensures Space() && p !in old(pages) && p != 0 && pages == old(pages)[p := layout]
    {
      if free != {} {
        p :| p in free;
        free := free - {p};
      } else {
        p := limit;
        limit := limit + 1;
      }
      pages := pages[p := layout];
    }

    method Free(p: nat)
      requires Space() && p in pages
      modifies this`pages, this`free
      ensures Space() && pages == old(pages) - {p} && free == old(free) + {p}
    {
      pages := pages - {p};
      free := free + {p};
    }

    // -------------------------------------------------------------- borrowing

    method BorrowFromRightLeaf(cur: nat, parent: nat, i: nat, ghost c: Ctx, ghost f: Tree) returns (ok: bool)
      requires Space() && Represents(pages, c, f) && HasRight(c) && Shaped(c) && Alike(f, c.right[0]) && f.Leaf?
      requires cur == f.page && parent == c.page && i == |c.left|
      modifies this`pages, this`intact
      ensures Space() && (ok <==> CanLend(c.right[0]))
      ensures !ok ==> pages == old(pages)
      ensures ok ==> var (d, g) := BorrowRight(c, f);
              d.Below? && d.right != [] && pages == BorrowedStore(old(pages), d, g, d.right[0])
      ensures intact
              == (old(intact)
                  && (ok ==> var (d, g) := BorrowRight(c, f); WritesOk(FITTING(size), [g, d.right[0], Rebuilt(d, g)])))
    {
      hide Represents, WritesOk, NodeOk, FITTING, PageFits, Space;
      ReadFocus(pages, c, f);
      ReadRight(pages, c, f);
      FocusInUse(pages, c, f);
      var leaf, up := pages[cur], pages[parent];
      var right := up.kids[i + 1];
      var sibling := pages[right];
      if |sibling.keys| <= MIN_KEYS { return false; }
      var moved := LeafPage(sibling.keys[1..], sibling.vals[1..]);
      ghost var (d, g) := BorrowRight(c, f);
      ParentSetRight(c, d, f.page, moved.keys[0]);
      Write(cur, LeafPage(leaf.keys + [sibling.keys[0]], leaf.vals + [sibling.vals[0]]));
      Write(right, moved);
      Write(parent, InnerPage(up.keys[i := moved.keys[0]], up.kids));
      BorrowedFits(size, d, g, d.right[0]);
      return true;
    }

    method BorrowFromLeftLeaf(cur: nat, parent: nat, i: nat, ghost c: Ctx, ghost f: Tree) returns (ok: bool)
      requires Space() && Represents(pages, c, f) && HasLeft(c) && Shaped(c) && Alike(f, Last(c.left)) && f.Leaf?
      requires cur == f.page && parent == c.page && i == |c.left|
      modifies this`pages, this`intact
      ensures Space() && (ok <==> CanLend(Last(c.left)))
      ensures !ok ==> pages == old(pages)
      ensures ok ==> var (d, g) := BorrowLeft(c, f);
              d.Below? && d.left != [] && pages == BorrowedStore(old(pages), d, g, Last(d.left))
      ensures intact
              == (old(intact)
                  && (ok ==> var (d, g) := BorrowLeft(c, f); WritesOk(FITTING(size), [g, Last(d.left), Rebuilt(d, g)])))
    {
      hide Represents, WritesOk, NodeOk, FITTING, PageFits, Space;
      ReadFocus(pages, c, f);
      ReadLeft(pages, c, f);
      FocusInUse(pages, c, f);
      var leaf, up := pages[cur], pages[parent];
      var left := up.kids[i - 1];
      var sibling := pages[left];
      if |sibling.keys| <= MIN_KEYS { return false; }
      var last := |sibling.keys| - 1;
      var key, value := sibling.keys[last], sibling.vals[last];
      ghost var (d, g) := BorrowLeft(c, f);
      ParentSetLeft(c, d, f.page, key);
      Write(cur, LeafPage([key] + leaf.keys, [value] + leaf.vals));
      Write(left, LeafPage(sibling.keys[..last], sibling.vals[..last]));
      Write(parent, InnerPage(up.keys[i - 1 := key], up.kids));
      BorrowedFits(size, d, g, Last(d.left));
      return true;
    }

    /** Rotates through the parent: its separator comes down, the sibling's first separator goes up. */
    method BorrowFromRightInner(cur: nat, parent: nat, i: nat, ghost c: Ctx, ghost f: Tree) returns (ok: bool)
      requires Space() && Represents(pages, c, f) && HasRight(c) && Shaped(c) && Alike(f, c.right[0]) && f.Node?
      requires cur == f.page && parent == c.page && i == |c.left|
      modifies this`pages, this`intact
      ensures Space() && (ok <==> CanLend(c.right[0]))
      ensures !ok ==> pages == old(pages)
      ensures ok ==> var (d, g) := BorrowRight(c, f);
              d.Below? && d.right != [] && pages == BorrowedStore(old(pages), d, g, d.right[0])
      ensures intact
              == (old(intact)
                  && (ok ==> var (d, g) := BorrowRight(c, f); WritesOk(FITTING(size), [g, d.right[0], Rebuilt(d, g)])))
    {
      hide Represents, WritesOk, NodeOk, FITTING, PageFits, Space;
      ReadFocus(pages, c, f);
      ReadRight(pages, c, f);
      FocusInUse(pages, c, f);
      var node, up := pages[cur], pages[parent];
      var right := up.kids[i + 1];
      var sibling := pages[right];
      if |sibling.keys| <= MIN_KEYS { return false; }
      ghost var (d, g) := BorrowRight(c, f);
      ghost var r := c.right[0];
      assert Numbers(f.kids + [r.kids[0]]) == node.kids + [sibling.kids[0]];
      assert Numbers(r.kids[1..]) == sibling.kids[1..];
      ParentSetRight(c, d, f.page, sibling.keys[0]);
      Write(cur, InnerPage(node.keys + [up.keys[i]], node.kids + [sibling.kids[0]]));
      Write(right, InnerPage(sibling.keys[1..], sibling.kids[1..]));
      Write(parent, InnerPage(up.keys[i := sibling.keys[0]], up.kids));
      BorrowedFits(size, d, g, d.right[0]);
      return true;
    }

    method BorrowFromLeftInner(cur: nat, parent: nat, i: nat, ghost c: Ctx, ghost f: Tree) returns (ok: bool)
      requires Space() && Represents(pages, c, f) && HasLeft(c) && Shaped(c) && Alike(f, Last(c.left)) && f.Node?
      requires cur == f.page && parent == c.page && i == |c.left|
      modifies this`pages, this`intact
      ensures Space() && (ok <==> CanLend(Last(c.left)))
      ensures !ok ==> pages == old(pages)
      ensures ok ==> var (d, g) := BorrowLeft(c, f);
              d.Below? && d.left != [] && pages == BorrowedStore(old(pages), d, g, Last(d.left))
      ensures intact
              == (old(intact)
                  && (ok ==> var (d, g) := BorrowLeft(c, f); WritesOk(FITTING(size), [g, Last(d.left), Rebuilt(d, g)])))
    {
      hide Represents, WritesOk, NodeOk, FITTING, PageFits, BorrowLeft, Numbers, Space;
      ReadFocus(pages, c, f);
      ReadLeft(pages, c, f);
      FocusInUse(pages, c, f);
      var node, up := pages[cur], pages[parent];
      var left := up.kids[i - 1];
      var sibling := pages[left];
      if |sibling.keys| <= MIN_KEYS { return false; }
      var last := |sibling.keys| - 1;
      LeftInnerContent(c, f);
      ghost var (d, g) := BorrowLeft(c, f);
      Write(cur, InnerPage([up.keys[i - 1]] + node.keys, [sibling.kids[last + 1]] + node.kids));
      Write(left, InnerPage(sibling.keys[..last], sibling.kids[..last + 1]));
      Write(parent, InnerPage(up.keys[i - 1 := sibling.keys[last]], up.kids));
      BorrowedFits(size, d, g, Last(d.left));
      return true;
    }

    // -------------------------------------------------------------- merging

    /** The right sibling's contents move here and its page is freed. */
    method MergeWithRight(cur: nat, parent: nat, i: nat, ghost c: Ctx, ghost f: Tree)
      requires Space() && Represents(pages, c, f) && HasRight(c) && Shaped(c) && Alike(f, c.right[0])
      requires cur == f.page && parent == c.page && i == |c.left|
      modifies this`pages, this`free, this`intact
      ensures Space()
      ensures var (d, g) := MergeRight(c, f);
              && d.Below? && pages == MergedStore(old(pages), d, g, c.right[0].page)
              && intact == (old(intact) && NodeOk(FITTING(size), g) && NodeOk(FITTING(size), Rebuilt(d, g)))
    {
      hide Represents, WritesOk, NodeOk, FITTING, PageFits;
      ReadFocus(pages, c, f);
      ReadRight(pages, c, f);
      FocusInUse(pages, c, f);
      var node, up := pages[cur], pages[parent];
      var right := up.kids[i + 1];
      var sibling := pages[right];
      var merged;
      if node.LeafPage? {
        merged := DrainLeaf(node, sibling);
      } else {
        merged := DrainInner(node, up.keys[i], sibling);
        NumbersConcat(f.kids, c.right[0].kids);
      }
      ParentDropRight(c, f.page);
      Write(cur, merged);
      Write(parent, InnerPage(Without(up.keys, i), Without(up.kids, i + 1)));
      Free(right);
      ghost var (d, g) := MergeRight(c, f);
      ContentFits(size, g);
      HoleFits(size, d, g);
    }

    /** This node's contents move to the left sibling and its page is freed. */
    method MergeWithLeft(cur: nat, parent: nat, i: nat, ghost c: Ctx, ghost f: Tree)
      requires Space() && Represents(pages, c, f) && HasLeft(c) && Shaped(c) && Alike(Last(c.left), f)
      requires cur == f.page && parent == c.page && i == |c.left|
      modifies this`pages, this`free, this`intact
      ensures Space()
      ensures var (d, g) := MergeLeft(c, f);
              && d.Below? && pages == MergedStore(old(pages), d, g, f.page)
              && intact == (old(intact) && NodeOk(FITTING(size), g) && NodeOk(FITTING(size), Rebuilt(d, g)))
    {
      hide Represents, WritesOk, NodeOk, FITTING, PageFits;
      ReadFocus(pages, c, f);
      ReadLeft(pages, c, f);
      FocusInUse(pages, c, f);
      var node, up := pages[cur], pages[parent];
      var left := up.kids[i - 1];
      var sibling := pages[left];
      var merged;
      if node.LeafPage? {
        merged := DrainLeaf(sibling, node);
      } else {
        merged := DrainInner(sibling, up.keys[i - 1], node);
        NumbersConcat(Last(c.left).kids, f.kids);
      }
      ParentDropLeft(c, f.page);
      Write(left, merged);
      Write(parent, InnerPage(Without(up.keys, i - 1), Without(up.kids, i)));
      Free(cur);
      ghost var (d, g) := MergeLeft(c, f);
      ContentFits(size, g);
      HoleFits(size, d, g);
    }

    // -------------------------------------------------------------- underflow

    /** The tree stored here, when a repair has produced r. */
    ghost predicate Stores(r: Option<Tree>)
      reads this
    {
      if r.None? then root == 0 && pages == map[] else root == r.value.page && Represents(pages, Top, r.value)
    }

    method HandleRootUnderflow(page: nat, ghost f: Tree, ghost h: nat)
      requires Space() && Represents(pages, Top, f) && page == f.page == root && Good(f, h, 0)
      modifies this
      ensures Space() && tree == old(tree) && intact == old(intact) && Stores(RootRepair(f))
    {
      hide Represents;
      ReadFocus(pages, Top, f);
      var node := pages[page];
      if |node.keys| > 0 { return; }
      RootHeld(pages, f);
      if node.LeafPage? {
        root := 0;
      } else {
        root := node.kids[0];
      }
      Free(page);
    }

    /** Right sibling first, then left; nothing changes when neither can lend. */
    method TryBorrow(page: nat, parent: nat, i: nat, ghost c: Ctx, ghost f: Tree) returns (ok: bool)
      requires Space() && Represents(pages, c, f) && c.Below? && Shaped(c) && Repairable(c, f)
      requires page == f.page && parent == c.page && i == |c.left| && root == TopPage(c)
      modifies this`pages, this`intact
      ensures Space() && (ok <==> (c.right != [] && CanLend(c.right[0])) || (c.left != [] && CanLend(Last(c.left))))
      ensures ok ==> Stores(Repair(c, f))
      ensures !ok ==> pages == old(pages)
      ensures intact == (old(intact) && (ok ==> WritesOk(FITTING(size), RepairWrites(c, f))))
    {
      hide Represents, Repair, RepairWrites, Space, BorrowRight, BorrowLeft, BorrowedStore, WritesOk, FITTING;
      ReadFocus(pages, c, f);
      ReadSizes(c);
      RepairBelow(c, f);
      var up := pages[parent];
      var leaf := pages[page].LeafPage?;
      if i < |up.keys| {
        if leaf {
          ok := BorrowFromRightLeaf(page, parent, i, c, f);
        } else {
          ok := BorrowFromRightInner(page, parent, i, c, f);
        }
        if ok {
          BorrowRightHeld(old(pages), c, f);
          BorrowRightKids(c, f);
          SamePlugPage(c, BorrowRight(c, f).0, BorrowRight(c, f).1);
          PlugRepresents(pages, BorrowRight(c, f).0, BorrowRight(c, f).1);
          return;
        }
      }
      if i > 0 {
        if leaf {
          ok := BorrowFromLeftLeaf(page, parent, i, c, f);
        } else {
          ok := BorrowFromLeftInner(page, parent, i, c, f);
        }
        if ok {
          BorrowLeftHeld(old(pages), c, f);
          BorrowLeftKids(c, f);
          SamePlugPage(c, BorrowLeft(c, f).0, BorrowLeft(c, f).1);
          PlugRepresents(pages, BorrowLeft(c, f).0, BorrowLeft(c, f).1);
          return;
        }
      }
      return false;
    }

    /** Merges with the right sibling if there is one, otherwise with the left one. */
    method Merge(page: nat, parent: nat, i: nat, ghost c: Ctx, ghost f: Tree)
      requires Space() && Represents(pages, c, f) && c.Below? && Shaped(c) && Repairable(c, f)
      requires page == f.page && parent == c.page && i == |c.left|
      modifies this`pages, this`free, this`intact
      ensures Space()
      ensures var (d, g) := if c.right != [] then MergeRight(c, f) else MergeLeft(c, f);
              && d.Below? && Represents(pages, c.up, Rebuilt(d, g))
              && intact == (old(intact) && NodeOk(FITTING(size), g) && NodeOk(FITTING(size), Rebuilt(d, g)))
    {
      hide Represents, Space, MergedStore, Fused, NodeOk, FITTING;
      ReadFocus(pages, c, f);
      ReadSizes(c);
      ghost var (d, g) := if c.right != [] then MergeRight(c, f) else MergeLeft(c, f);
      if i < |pages[parent].keys| {
        MergeWithRight(page, parent, i, c, f);
        MergeRightHeld(old(pages), c, f);
      } else {
        MergeWithLeft(page, parent, i, c, f);
        MergeLeftHeld(old(pages), c, f);
      }
      UpRepresents(pages, d, g);
    }

    /** Repairs an underflow: borrow right, borrow left, merge right, merge left, then upward. */
    method PropagateMerging(page: nat, path: seq<Hop>, ghost c: Ctx, ghost f: Tree, ghost h: nat)
      requires Space() && Represents(pages, c, f) && page == f.page && root == Plug(c, f).page
      requires PathOf(path, c) && GoodCtx(c, h) && Underflows(c, f, h)
      modifies this
      ensures Space() && tree == old(tree) && Stores(Repair(c, f))
      ensures intact == (old(intact) && WritesOk(FITTING(size), RepairWrites(c, f)))
      decreases |path|
    {
      hide Represents, GoodCtx, Good, Repair, RepairWrites, Space, MergeRight, MergeLeft, Stores, WritesOk, NodeOk,
        FITTING;
      if path == [] {
        RepairTop(f);
        NoneOk(FITTING(size));
        HandleRootUnderflow(page, f, h);
        return;
      }
      var hop := Last(path);
      CanRepair(c, f, h);
      GoodIsShaped(c, h);
      RepairBelow(c, f);
      PlugPage(c, f);
      var ok := TryBorrow(page, hop.page, ChildIndex(hop), c, f);
      if ok { return; }
      Merge(page, hop.page, ChildIndex(hop), c, f);
      ghost var (d, g) := if c.right != [] then MergeRight(c, f) else MergeLeft(c, f);
      ghost var node := Rebuilt(d, g);
      MergedShape(c, f, h);
      TwoOk(FITTING(size), g, node, if |node.keys| < MIN_KEYS then RepairWrites(c.up, node) else []);
      NoneOk(FITTING(size));
      ReadFocus(pages, c.up, node);
      SamePlugPage(c, d, g);
      if |pages[hop.page].keys| < MIN_KEYS {
        ShortAgain(node, h + 1, c.up);
        PropagateMerging(hop.page, path[..|path| - 1], c.up, node, h + 1);
      } else {
        PlugRepresents(pages, c.up, node);
        assert Stores(Some(Plug(c.up, node))) by { Stored(Plug(c.up, node)); }
      }
    }

    lemma Stored(t: Tree)
      requires root == t.page && Represents(pages, Top, t)
      ensures Stores(Some(t))
    {
    }

    /** Climbs to the first level where the path did not take the leftmost child and renames the separator there. */
    method PropagateSeparatorChange(path: seq<Hop>, m: Key, ghost c: Ctx, ghost f: Tree)
      requires Space() && Represents(pages, c, f) && PathOf(path, c) && Shaped(c)
      modifies this`pages, this`intact
      ensures Space() && pages == RaisedStore(old(pages), c, f.page, m)
      ensures intact == (old(intact) && WritesOk(FITTING(size), RaiseWrites(c, f, m)))
    {
      hide Represents, FITTING;
      var i := |path|;
      ghost var d, g := c, f;
      assert path[..i] == path;
      while i > 0
        invariant 0 <= i <= |path| && pages == old(pages) && intact == old(intact)
        invariant RaiseWrites(d, g, m) == RaiseWrites(c, f, m)
        invariant Represents(pages, d, g) && PathOf(path[..i], d) && Shaped(d)
        invariant RaisedStore(pages, d, g.page, m) == RaisedStore(pages, c, f.page, m)
      {
        var hop := path[i - 1];
        assert Last(path[..i]) == hop && Front(path[..i]) == path[..i - 1];
        var child := ChildIndex(hop);
        ReadFocus(pages, d, g);
        if child > 0 {
          var up := pages[hop.page];
          ParentRaise(d, g.page, m);
          Write(hop.page, InnerPage(up.keys[child - 1 := m], up.kids));
          HoleFits(size, RaiseSep(d, m), g);
          assert RaiseWrites(d, g, m) == [Rebuilt(RaiseSep(d, m), g)] + [];
          OneOk(FITTING(size), Rebuilt(RaiseSep(d, m), g), []);
          return;
        }
        UpRepresents(pages, d, g);
        d, g := d.up, Rebuilt(d, g);
        i := i - 1;
      }
    }

    // -------------------------------------------------------------- descent

    /** From the root to the leaf where k belongs, recording the way. */
    method Descend(k: Key) returns (leaf: nat, path: seq<Hop>, ghost c: Ctx, ghost f: Tree)
      requires Valid() && tree.Some?
      ensures (c, f) == Find(Top, tree.value, k) && leaf == f.page && PathOf(path, c) && Represents(pages, c, f)
      ensures f.Leaf? && GoodCtx(c, 0) && Good(f, 0, Lo(c)) && Plug(c, f) == tree.value
      ensures Ordered(Around(c, f)) && LeftOf(Pre(c), k) && RightOf(Post(c), k)
    {
      hide Represents, Ordered, GoodCtx, Good, Find, Route, LowerBound, Proper, Around, Plug;
      leaf, path, c, f := root, [], Top, tree.value;
      ghost var h := StartDown(f);
      ReadFocus(pages, c, f);
      while pages[leaf].InnerPage?
        invariant leaf == f.page && f.page in pages && pages[f.page] == Content(f)
        invariant Represents(pages, c, f) && PathOf(path, c) && Find(c, f, k) == Find(Top, tree.value, k)
        invariant GoodCtx(c, h) && Good(f, h, Lo(c)) && Ordered(Walk(f))
        decreases f
      {
        var node := pages[leaf];
        StepDown(pages, c, f, k, h);
        var idx := LowerBoundIndex(node.keys, k);
        var hop, next;
        if idx == |node.keys| {
          hop, next := Hop(leaf, idx - 1, true), node.kids[idx];
        } else if node.keys[idx] == k {
          hop, next := Hop(leaf, idx, true), node.kids[idx + 1];
        } else {
          hop, next := Hop(leaf, idx, false), node.kids[idx];
        }
        ghost var i := Route(f.keys, k);
        assert ChildIndex(hop) == i && next == f.kids[i].page;
        ghost var b := Into(c, f, i);
        ReadFocus(pages, b, f.kids[i]);
        assert Front(path + [hop]) == path && |b.left| == i;
        path := path + [hop];
        leaf := next;
        c, f, h := b, f.kids[i], h - 1;
      }
      FindAtLeaf(c, f, k);
      DescentFacts(tree.value, k);
    }

    method Get(k: Key) returns (v: Option<Value>)
      requires Valid()
      ensures v == if k in Map() then Some(Map()[k]) else None
    {
      if root == 0 { RootInUse(pages, tree); return None; }
      LookupRefines(tree.value, k);
      ghost var c, f;
      var leaf, path;
      leaf, path, c, f := Descend(k);
      ReadFocus(pages, c, f);
      OrderedThree(Pre(c), Walk(f), Post(c));
      LeafSorted(f);
      var node := pages[leaf];
      var idx := LowerBoundIndex(node.keys, k);
      if idx < |node.keys| && node.keys[idx] == k { return Some(node.vals[idx]); }
      return None;
    }

    // -------------------------------------------------------------- remove

    /** Only this page differs. */
    ghost predicate OnlyPage(a: Store, p: nat)
      reads this
    {
      pages.Keys == a.Keys && (forall q :: q in a && q != p ==> pages[q] == a[q])
    }

    /** Deletes k and returns what was stored. The pages stay readable exactly when everything that is written fits.
        When the optimistic descent asks for no restart, only the leaf is written. */
    method Remove(k: Key) returns (v: Option<Value>)
      requires Valid()
      modifies this
      ensures intact
              <==> (old(tree).Some? ==>
              RemoveFits(size, Find(Top, old(tree).value, k).0, Find(Top, old(tree).value, k).1, k))
      ensures intact ==> Valid() && Map() == old(Map()) - {k}
      ensures v == if k in old(Map()) then Some(old(Map())[k]) else None
      ensures old(tree).Some? && RemoveSafe(Find(Top, old(tree).value, k).0, Find(Top, old(tree).value, k).1, k) ==>
                root == old(root) && OnlyPage(old(pages), Find(Top, old(tree).value, k).1.page)
    {
      hide Represents, Good, GoodCtx, Ordered, Around, Proper, Find, RemoveAt, Contents, TreeOk, FITTING, RemoveFits,
        HasKey;
      RootInUse(pages, tree);
      if root == 0 { return None; }
      ghost var t := tree.value;
      RemovedIsDeletion(t, k);
      RemoveRefines(size, t, k);
      ghost var c, f;
      var leaf, path;
      leaf, path, c, f := Descend(k);
      ReadFocus(pages, c, f);
      SortedLeaf(c, f);
      var node := pages[leaf];
      var idx := LowerBoundIndex(node.keys, k);
      LowerBoundIs(f.keys, k);
      FoundOrNot(f, k);
      RemoveAtCases(c, f, k);
      if idx == |node.keys| || node.keys[idx] != k {
        NothingRemoved(size, c, f, k);
        return None;
      }
      v := Some(node.vals[idx]);
      RemoveFound(leaf, path, idx, k, c, f);
    }

    /** Takes the entry out of its leaf and repairs what that upsets. */
    method RemoveFound(leaf: nat, path: seq<Hop>, idx: nat, k: Key, ghost c: Ctx, ghost f: Tree)
      requires Space() && tree.Some? && Represents(pages, c, f) && leaf == f.page && PathOf(path, c)
      requires Plug(c, f) == tree.value && root == tree.value.page
      requires GoodCtx(c, 0) && Good(f, 0, Lo(c)) && HasKey(f, k) && idx == LowerBound(f.keys, k)
      modifies this
      ensures Space() && tree == RemoveAt(c, f, k).0 && Stores(tree)
      ensures intact == (old(intact) && WritesOk(FITTING(size), RemoveWrites(c, f, k)))
      ensures RemoveSafe(c, f, k) ==> root == old(root) && OnlyPage(old(pages), f.page)
    {
      hide Represents, Good, GoodCtx, Repair, RemoveAt, Plug, RaisedStore, RaiseSep, RepairWrites, RaiseWrites,
        WritesOk, FITTING, NodeOk, Stores;
      ReadFocus(pages, c, f);
      var node := pages[leaf];
      ghost var g := Shrunk(f, k);
      RemoveAtCases(c, f, k);
      Write(leaf, LeafPage(Without(node.keys, idx), Without(node.vals, idx)));
      ContentFits(size, g);
      OneOk(FITTING(size), g, RemoveWrites(c, f, k)[1..]);
      EditFocus(old(pages), c, f, g);
      SameTop(c, f, g);
      ShrunkGood(c, f, k);
      NoneOk(FITTING(size));
      tree := RemoveAt(c, f, k).0;
      if |pages[leaf].keys| < MIN_KEYS {
        PropagateMerging(leaf, path, c, g, 0);
        if RemoveSafe(c, f, k) {
          OptimisticRoot(c, f, k);
          OnePage(old(pages), f);
          OnlyRoot(g);
          AloneOnTop(c, f);
        }
      } else if idx == 0 {
        GoodIsShaped(c, 0);
        var m := pages[leaf].keys[0];
        PropagateSeparatorChange(path, m, c, g);
        RaisedHeld(old(pages)[leaf := Content(g)], c, g, m);
        PlugRepresents(pages, RaiseSep(c, m), g);
        RaisedTop(c, g, m);
        Stored(Plug(RaiseSep(c, m), g));
        if c.Top? { NothingAbove(old(pages)[leaf := Content(g)], g.page, m); }
      } else {
        PlugRepresents(pages, c, g);
        Stored(Plug(c, g));
      }
    }

    lemma OnlyRoot(g: Tree)
      requires Stores(Some(g)) && g.Leaf?
      ensures pages.Keys == {g.page} && root == g.page
    {
      OnePage(pages, g);
    }

    // -------------------------------------------------------------- insert

    /** Sets k to v. The answer is false exactly where the code ends the process: a new key, a full leaf and a full
        parent. The pages stay readable exactly when everything that is written fits. When the optimistic descent asks
        for no restart, only the leaf is written. */
    method Insert(k: Key, v: Value) returns (ok: bool)
      requires Valid()
      modifies this
      ensures old(tree).None? ==> ok && (intact <==> LeafFits(size, [k], [v]))
      ensures old(tree).Some? ==>
                var (c, f) := Find(Top, old(tree).value, k);
                && f.Leaf? && |f.vals| == |f.keys| && LowerBound(f.keys, k) <= |f.keys|
                && (ok <==> !Stuck(c, f, k)) && (intact <==> InsertFits(size, c, f, k, v))
                && (InsertSafe(f, k) ==> ok && root == old(root) && OnlyPage(old(pages), f.page))
      ensures ok && intact ==> Valid() && Map() == old(Map())[k := v]
    {
      hide Represents, Good, GoodCtx, Ordered, Around, Proper, Find, Plug, Contents, InsertAt, LowerBound, Split,
        TreeOk, FITTING, LeafCells, InnerCells, InsertWrites;
      RootInUse(pages, tree);
      if root == 0 {
        var first := Allocate(LeafPage([], []));
        Write(first, LeafPage([k], [v]));
        root, tree := first, Some(Leaf(first, [k], [v]));
        FirstPage(pages, first, k, v);
        assert intact ==> TreeOk(FITTING(size), tree.value) by {
          LeafTree(FITTING(size), tree.value);
          ContentFits(size, tree.value);
        }
        return true;
      }
      ghost var t := tree.value;
      ghost var c, f;
      var leaf, path;
      leaf, path, c, f := Descend(k);
      ReadFocus(pages, c, f);
      SortedLeaf(c, f);
      var node := pages[leaf];
      var idx := LowerBoundIndex(node.keys, k);
      LowerBoundIs(f.keys, k);
      ghost var g := Grown(f, k, v);
      GrownGood(c, f, k, v);
      LeafSizes(c, f);
      OptimisticInsert(c, f, k, v, 0, 0);
      AroundPlug(c, f);
      if idx < |node.keys| && node.keys[idx] == k {
        Write(leaf, LeafPage(node.keys, node.vals[idx := v]));
      } else {
        Write(leaf, LeafPage(With(node.keys, idx, k), With(node.vals, idx, v)));
      }
      EditFocus(old(pages), c, f, g);
      SameTop(c, f, g);
      InsertedFits(size, t, k, v, c, f);
      if |pages[leaf].keys| <= MAX_KEYS {
        InsertAtRefines(c, f, k, v, 0, 0);
        PlugRepresents(pages, c, g);
        tree := Some(Plug(c, g));
        return true;
      }
      ok := SplitLeaf(leaf, path, k, v, c, f, g);
    }

    /** Splits an overfull leaf; a root leaf gets a new root above it, otherwise the parent takes the separator. */
    method SplitLeaf(leaf: nat, path: seq<Hop>, k: Key, v: Value, ghost c: Ctx, ghost f: Tree, ghost g: Tree)
        returns (ok: bool)
      requires Space() && Represents(pages, c, g) && leaf == g.page && PathOf(path, c) && root == Plug(c, g).page
      requires GoodCtx(c, 0) && f.Leaf? && Good(f, 0, Lo(c)) && Ordered(Around(c, f)) && LeftOf(Pre(c), k)
      requires RightOf(Post(c), k)
      requires LowerBound(f.keys, k) <= |f.keys| && g == Grown(f, k, v) && |g.keys| > MAX_KEYS
      requires CtxOk(FITTING(size), c) && (intact <==> LeafFits(size, g.keys, g.vals))
      modifies this
      ensures (ok <==> !Stuck(c, f, k)) && (intact <==> InsertFits(size, c, f, k, v))
      ensures ok && intact ==> Valid() && Map() == Entries(Around(c, f))[k := v]
    {
      hide Represents, Good, GoodCtx, Ordered, Around, Proper, Plug, Contents, InsertAt, LowerBound, Split, Grown,
        Content, LowerHalf, UpperHalf, CtxOk, TreeOk, FITTING, LeafFits, InnerFits, Stuck;
      ReadFocus(pages, c, g);
      FocusInUse(pages, c, g);
      GrownGood(c, f, k, v);
      LeafSizes(c, f);
      GrownLeaf(f, k, v);
      GrownIsLeaf(f, k, v);
      var count := |pages[leaf].keys|;
      var fresh' := Allocate(LeafPage([], []));
      var low, high := MigrateLeaf(pages[leaf], count / 2);
      Write(leaf, low);
      Write(fresh', high);
      var sep := high.keys[0];
      HalvesContent(g, fresh');
      assert pages == old(pages)[leaf := low][fresh' := high];
      GoodIsShaped(c, 0);
      if old(intact) { SplitNeedsParent(size, c, g); }
      if path == [] {
        NewRoot(leaf, fresh', sep, old(pages), g);
        SplitRefinesMap(c, f, k, v, fresh', root);
        SplitKeepsFit(size, c, f, k, v, fresh', root);
        return true;
      }
      var hop := Last(path);
      ok := GiveToParent(leaf, fresh', sep, hop.page, ChildIndex(hop), old(pages), c, g);
      SplitRefinesMap(c, f, k, v, fresh', 0);
      SplitKeepsFit(size, c, f, k, v, fresh', 0);
      StuckSize(c, f, k);
    }

    /** A root leaf that split gets a new internal root above its two halves. */
    method NewRoot(leaf: nat, right: nat, sep: Key, ghost st: Store, ghost g: Tree)
      requires Space() && Represents(st, Top, g) && g.Leaf? && |g.vals| == |g.keys| > 1 && leaf == g.page
      requires right !in st
      requires pages == st[leaf := Content(LowerHalf(g))][right := Content(UpperHalf(g, right))]
      requires sep == UpperHalf(g, right).keys[0]
      modifies this
      ensures Space() && Split(Top, g, right, root).Some? && tree == Split(Top, g, right, root)
      ensures root == tree.value.page && Represents(pages, Top, tree.value)
      ensures intact == (old(intact) && InnerFits(size, [sep]))
    {
      hide Represents, Content, LowerHalf, UpperHalf, InnerFits;
      ghost var l, r := LowerHalf(g), UpperHalf(g, right);
      HalvesContent(g, right);
      var top := Allocate(InnerPage([], [0]));
      ghost var before := pages;
      Write(top, InnerPage([sep], [leaf, right]));
      assert pages.Keys == before.Keys;
      root := top;
      tree := Split(Top, g, right, top);
      assert tree == Some(Node(top, [sep], [l, r]));
      SplitRootHeld(st, g, l, r, sep, top);
      assert pages == st[leaf := Content(l)][right := Content(r)][top := InnerPage([sep], [leaf, right])];
    }

    /** The parent takes the new separator and child, unless that makes it overflow. */
    method GiveToParent(leaf: nat, right: nat, sep: Key, parent: nat, i: nat, ghost st: Store, ghost c: Ctx,
        ghost g: Tree) returns (ok: bool)
      requires Space() && Represents(st, c, g) && c.Below? && Shaped(c) && g.Leaf? && |g.vals| == |g.keys| > 1
      requires leaf == g.page && right !in st && parent == c.page && i == |c.left| && root == Plug(c, g).page
      requires pages == st[leaf := Content(LowerHalf(g))][right := Content(UpperHalf(g, right))]
      requires sep == UpperHalf(g, right).keys[0]
      modifies this
      ensures Space() && (ok <==> |c.keysL| + |c.keysR| + 1 <= MAX_KEYS)
      ensures ok ==> Split(c, g, right, 0).Some? && tree == Split(c, g, right, 0)
      ensures ok ==> root == tree.value.page && Represents(pages, Top, tree.value)
      ensures intact == (old(intact) && InnerFits(size, c.keysL + ([sep] + c.keysR)))
    {
      hide Represents, Content, Plug, LowerHalf, UpperHalf, InnerFits;
      ReadFocus(st, c, g);
      FocusInUse(st, c, g);
      var up := pages[parent];
      ghost var l, r := LowerHalf(g), UpperHalf(g, right);
      HalvesContent(g, right);
      ghost var before := pages;
      ghost var d := c.(keysR := [sep] + c.keysR, right := [r] + c.right);
      ParentGains(c, d, leaf, sep, r);
      Write(parent, InnerPage(With(up.keys, i, sep), With(up.kids, i + 1, right)));
      assert pages.Keys == before.Keys;
      if |pages[parent].keys| > MAX_KEYS { return false; }
      SplitHeld(st, c, g, l, r, sep);
      PlugRepresents(pages, d, l);
      SamePlugPage(c, d, l);
      PlugPage(c, g);
      tree := Split(c, g, right, 0);
      return true;
    }
  }

  lemma NoneOk(rule: Rule)
    ensures WritesOk(rule, [])
  {
  }

  lemma AloneOnTop(c: Ctx, f: Tree)
    ensures c.Top? ==> Plug(c, f) == f
  {
  }

  lemma FoundOrNot(f: Tree, k: Key)
    requires f.Leaf? && |f.vals| == |f.keys|
    ensures HasKey(f, k) <==> LowerBound(f.keys, k) < |f.keys| && f.keys[LowerBound(f.keys, k)] == k
  {
  }

  lemma NothingRemoved(size: Sizes, c: Ctx, f: Tree, k: Key)
    requires !HasKey(f, k)
    ensures RemoveFits(size, c, f, k) && RemoveAt(c, f, k) == (Some(Plug(c, f)), None)
  {
  }

  lemma InsertedFits(size: Sizes, t: Tree, k: Key, v: Value, c: Ctx, f: Tree)
    requires TreeOk(FITTING(size), t) && (c, f) == Find(Top, t, k) && f.Leaf? && |f.vals| == |f.keys|
    requires LowerBound(f.keys, k) <= |f.keys|
    ensures CtxOk(FITTING(size), c)
    ensures LeafFits(size, Grown(f, k, v).keys, Grown(f, k, v).vals) ==> TreeOk(FITTING(size), Plug(c, Grown(f, k, v)))
  {
    hide LowerBound, Grown, LeafFits, Plug;
    TopOk(FITTING(size));
    FindOk(FITTING(size), Top, t, k);
    GrownIsLeaf(f, k, v);
    LeafTree(FITTING(size), Grown(f, k, v));
    PlugOk(FITTING(size), c, Grown(f, k, v));
  }

  lemma SplitKeepsFit(size: Sizes, c: Ctx, f: Tree, k: Key, v: Value, leafPage: nat, rootPage: nat)
    requires f.Leaf? && |f.vals| == |f.keys| && LowerBound(f.keys, k) <= |f.keys| && CtxOk(FITTING(size), c)
    requires Grown(f, k, v).Leaf? && |Grown(f, k, v).vals| == |Grown(f, k, v).keys| > MAX_KEYS
    ensures var r := Split(c, Grown(f, k, v), leafPage, rootPage);
            InsertFits(size, c, f, k, v) && r.Some? ==> TreeOk(FITTING(size), r.value)
  {
    hide LowerBound, Grown, TreeOk, CtxOk, WritesOk, Split, InsertWrites;
    InsertWritesFit(size, c, f, k, v, leafPage, rootPage);
    if InsertFits(size, c, f, k, v) { InsertOk(FITTING(size), c, f, k, v, leafPage, rootPage); }
  }

  lemma StuckSize(c: Ctx, f: Tree, k: Key)
    requires GoodCtx(c, 0) && c.Below? && f.Leaf? && |f.keys| == MAX_KEYS && !HasKey(f, k)
    ensures Stuck(c, f, k) <==> |c.keysL| + |c.keysR| + 1 > MAX_KEYS
  {
  }

  lemma SplitRefinesMap(c: Ctx, f: Tree, k: Key, v: Value, leafPage: nat, rootPage: nat)
    requires GoodCtx(c, 0) && f.Leaf? && Good(f, 0, Lo(c)) && Ordered(Around(c, f)) && LeftOf(Pre(c), k)
    requires RightOf(Post(c), k)
    requires LowerBound(f.keys, k) <= |f.keys| && |Grown(f, k, v).keys| > MAX_KEYS
    requires |Grown(f, k, v).vals| == |Grown(f, k, v).keys|
    ensures Grown(f, k, v).Leaf?
    ensures var r := Split(c, Grown(f, k, v), leafPage, rootPage);
            && (r.None? <==> Stuck(c, f, k))
            && (r.Some? ==> Proper(r.value) && Contents(r.value) == Entries(Around(c, f))[k := v])
  {
    hide Ordered, Around, Proper, Contents, Split, Stuck;
    InsertAtRefines(c, f, k, v, leafPage, rootPage);
    GrownGood(c, f, k, v);
    assert InsertAt(c, f, k, v, leafPage, rootPage) == Split(c, Grown(f, k, v), leafPage, rootPage);
  }

  lemma GrownLeaf(f: Tree, k: Key, v: Value)
    requires f.Leaf? && |f.vals| == |f.keys| && LowerBound(f.keys, k) <= |f.keys|
    ensures Content(Grown(f, k, v)) == LeafPage(Grown(f, k, v).keys, Grown(f, k, v).vals)
  {
  }

  lemma HalvesContent(g: Tree, page: nat)
    requires g.Leaf? && |g.vals| == |g.keys| > 1
    ensures var n := |g.keys| / 2;
            && LowerHalf(g).Leaf? && UpperHalf(g, page).Leaf? && LowerHalf(g).page == g.page
            && UpperHalf(g, page).page == page
            && Content(LowerHalf(g)) == LeafPage(g.keys[..n], g.vals[..n])
            && Content(UpperHalf(g, page)) == LeafPage(g.keys[n..], g.vals[n..])
            && UpperHalf(g, page).keys == g.keys[n..]
  {
  }

  lemma ParentGains(c: Ctx, d: Ctx, hole: nat, s: Key, r: Tree)
    requires c.Below? && Shaped(c) && d == c.(keysR := [s] + c.keysR, right := [r] + c.right)
    ensures HoleContent(c, hole).InnerPage? && |c.left| <= |HoleContent(c, hole).keys|
    ensures |c.left| + 1 <= |HoleContent(c, hole).kids|
    ensures HoleContent(d, hole)
            == InnerPage(With(HoleContent(c, hole).keys, |c.left|, s),
            With(HoleContent(c, hole).kids, |c.left| + 1, r.page))
    ensures |HoleContent(d, hole).keys| == |c.keysL| + |c.keysR| + 1
  {
    hide Numbers;
    NumbersLength(c.left);
    NumbersLength(c.right);
    WithMiddle(c.keysL, s, c.keysR);
    NumbersConcat([r], c.right);
    NumbersOne(r);
    WithMiddle(Numbers(c.left) + [hole], r.page, Numbers(c.right));
  }

  lemma WithMiddle<T>(a: seq<T>, x: T, b: seq<T>)
    ensures With(a + b, |a|, x) == a + ([x] + b)
  {
  }

  lemma NumbersLength(kids: seq<Tree>)
    ensures |Numbers(kids)| == |kids|
  {
  }

  lemma NumbersOne(t: Tree)
    ensures Numbers([t]) == [t.page]
  {
  }

  lemma FirstPage(st: Store, p: nat, k: Key, v: Value)
    requires st == map[p := LeafPage([k], [v])]
    ensures var t := Leaf(p, [k], [v]); Represents(st, Top, t) && Proper(t) && Contents(t) == map[k := v]
  {
    var t := Leaf(p, [k], [v]);
    FirstInsert(p, k, v);
    LeafPages(t);
    forall q ensures (PagesCtx(Top) + Pages(t))[q] == if q in st then 1 else 0 {}
  }

  lemma AroundPlug(c: Ctx, f: Tree)
    requires GoodCtx(c, 0)
    ensures Entries(Around(c, f)) == Contents(Plug(c, f))
  {
    GoodIsShaped(c, 0);
    PlugWalk(c, f);
  }

  lemma LeafSizes(c: Ctx, f: Tree)
    requires f.Leaf? && Good(f, 0, Lo(c))
    ensures Lo(c) <= |f.keys| <= MAX_KEYS && |f.vals| == |f.keys|
  {
  }

  lemma OnePage(st: Store, f: Tree)
    requires Represents(st, Top, f) && f.Leaf?
    ensures st.Keys == {f.page}
  {
    forall p ensures p in st.Keys <==> p == f.page {
      assert (PagesCtx(Top) + Pages(f))[p] == if p in st then 1 else 0;
    }
  }

  lemma NothingAbove(st: Store, hole: nat, m: Key)
    ensures RaisedStore(st, Top, hole, m) == st && RaiseSep(Top, m) == Top
  {
  }

  lemma SortedLeaf(c: Ctx, f: Tree)
    requires f.Leaf? && Good(f, 0, Lo(c)) && Ordered(Around(c, f))
    ensures Sorted(f.keys) && |f.vals| == |f.keys|
  {
    OrderedThree(Pre(c), Walk(f), Post(c));
    LeafSorted(f);
  }

  lemma SameTop(c: Ctx, f: Tree, g: Tree)
    requires f.page == g.page
    ensures Plug(c, f).page == Plug(c, g).page
  {
    if c.Below? {
      PlugPage(c, f);
      PlugPage(c, g);
    }
  }

  lemma {:induction false} RaisedTop(c: Ctx, g: Tree, m: Key)
    ensures Plug(RaiseSep(c, m), g).page == Plug(c, g).page
  {
    if c.Below? {
      PlugPage(c, g);
      PlugPage(RaiseSep(c, m), g);
      RaisedTopPage(c, m);
    }
  }

  lemma {:induction false} RaisedTopPage(c: Ctx, m: Key)
    requires c.Below?
    ensures RaiseSep(c, m).Below? && TopPage(RaiseSep(c, m)) == TopPage(c)
  {
    if c.up.Below? && !(c.left != [] && c.keysL != []) { RaisedTopPage(c.up, m); }
  }

  /** The three ways a removal goes on. */
  lemma RemoveAtCases(c: Ctx, f: Tree, k: Key)
    requires f.Leaf? && |f.vals| == |f.keys|
    ensures RemoveAt(c, f, k).1 == if HasKey(f, k) then Some(f.vals[LowerBound(f.keys, k)]) else None
    ensures !HasKey(f, k) ==> RemoveAt(c, f, k).0 == Some(Plug(c, f))
    ensures HasKey(f, k) ==>
              var g := Shrunk(f, k);
              RemoveAt(c, f, k).0 == if |g.keys| < MIN_KEYS then Repair(c, g)
                                     else if LowerBound(f.keys, k) == 0 then Some(Plug(RaiseSep(c, g.keys[0]), g))
                                     else Some(Plug(c, g))
  {
  }

  /** A root leaf that stays nonempty is left alone by the repair. */
  lemma OptimisticRoot(c: Ctx, f: Tree, k: Key)
    requires HasKey(f, k) && RemoveSafe(c, f, k) && |Shrunk(f, k).keys| < MIN_KEYS
    ensures c.Top? && Repair(c, Shrunk(f, k)) == Some(Shrunk(f, k))
  {
  }

  lemma StartDown(t: Tree) returns (h: nat)
    requires Proper(t)
    ensures Good(t, h, 1) && GoodCtx(Top, h) && Ordered(Walk(t))
  {
    h :| Good(t, h, 1);
  }

  lemma FindAtLeaf(c: Ctx, f: Tree, k: Key)
    requires f.Leaf?
    ensures Find(c, f, k) == (c, f)
  {
  }

  /** What the descent needs to know to take one step. */
  lemma StepDown(st: Store, c: Ctx, f: Tree, k: Key, h: nat)
    requires f.Node? && Represents(st, c, f) && GoodCtx(c, h) && Good(f, h, Lo(c)) && Ordered(Walk(f))
    ensures |f.kids| == |f.keys| + 1 && |f.keys| >= 1 && Sorted(f.keys)
    ensures LowerBound(f.keys, k) <= |f.keys| && Route(f.keys, k) <= |f.keys|
    ensures Route(f.keys, k) == var i := LowerBound(f.keys, k); if i < |f.keys| && f.keys[i] == k then i + 1 else i
    ensures var i := Route(f.keys, k);
            && h > 0 && Represents(st, Into(c, f, i), f.kids[i]) && Find(Into(c, f, i), f.kids[i], k) == Find(c, f, k)
            && GoodCtx(Into(c, f, i), h - 1) && Good(f.kids[i], h - 1, MIN_KEYS) && Ordered(Walk(f.kids[i]))
  {
    hide Represents, Ordered, GoodCtx, Walk, LowerBound;
    NodeSorted(f);
    RouteSides(c, f, k);
    LowerBoundIs(f.keys, k);
    var i := Route(f.keys, k);
    IntoGood(c, f, i, h);
    IntoPlugs(c, f, i);
    UpRepresents(st, Into(c, f, i), f.kids[i]);
  }

  lemma MergedShape(c: Ctx, f: Tree, h: nat)
    requires c.Below? && GoodCtx(c, h) && Underflows(c, f, h) && Repairable(c, f)
    requires !(c.right != [] && CanLend(c.right[0])) && !(c.left != [] && CanLend(Last(c.left)))
    ensures var (d, g) := if c.right != [] then MergeRight(c, f) else MergeLeft(c, f);
            && d.Below? && d.up == c.up && d.page == c.page && GoodCtx(c.up, h + 1)
            && Good(Rebuilt(d, g), h + 1, Lo(c.up) - 1)
  {
    if c.right != [] { MergeRightGood(c, f, h); } else { MergeLeftGood(c, f, h); }
  }

  lemma RootInUse(st: Store, tree: Option<Tree>)
    requires tree.Some? ==> Represents(st, Top, tree.value)
    ensures tree.Some? ==> tree.value.page in st
  {
  }

  lemma RepairTop(f: Tree)
    ensures Repair(Top, f) == RootRepair(f) && RepairWrites(Top, f) == []
  {
  }

  lemma RepairBelow(c: Ctx, f: Tree)
    requires c.Below? && Repairable(c, f)
    ensures c.right != [] && CanLend(c.right[0]) ==>
              var (d, g) := BorrowRight(c, f);
                d.right != [] && Repair(c, f) == Some(Plug(d, g))
                && RepairWrites(c, f) == [g, d.right[0], Rebuilt(d, g)]
    ensures !(c.right != [] && CanLend(c.right[0])) && c.left != [] && CanLend(Last(c.left)) ==>
              var (d, g) := BorrowLeft(c, f);
                d.left != [] && Repair(c, f) == Some(Plug(d, g))
                && RepairWrites(c, f) == [g, Last(d.left), Rebuilt(d, g)]
    ensures !(c.right != [] && CanLend(c.right[0])) && !(c.left != [] && CanLend(Last(c.left))) ==>
              var (d, g) := if c.right != [] then MergeRight(c, f) else MergeLeft(c, f);
              && d.Below?
              && Repair(c, f)
                   == (if |Rebuilt(d, g).keys| < MIN_KEYS then Repair(c.up, Rebuilt(d, g))
                   else Some(Plug(c.up, Rebuilt(d, g))))
              && RepairWrites(c, f)
                   == [g, Rebuilt(d, g)] + if |Rebuilt(d, g).keys| < MIN_KEYS then RepairWrites(c.up, Rebuilt(d, g))
                   else []
  {
  }

  lemma ReadSizes(c: Ctx)
    requires c.Below? && Shaped(c)
    ensures forall hole :: |HoleContent(c, hole).keys| == |c.left| + |c.right|
  {
  }

  lemma SamePlugPage(c: Ctx, d: Ctx, g: Tree)
    requires c.Below? && d.Below? && d.up == c.up && d.page == c.page
    ensures Plug(d, g).page == TopPage(c) && Plug(c.up, Rebuilt(d, g)).page == TopPage(c)
  {
    PlugPage(d, g);
  }

  lemma ParentRaise(c: Ctx, hole: nat, m: Key)
    requires c.Below? && Shaped(c) && c.left != []
    ensures HoleContent(RaiseSep(c, m), hole)
            == InnerPage(HoleContent(c, hole).keys[|c.left| - 1 := m], HoleContent(c, hole).kids)
  {
    assert (c.keysL + c.keysR)[|c.keysL| - 1 := m] == (Front(c.keysL) + [m]) + c.keysR;
  }

  lemma DescentFacts(t: Tree, k: Key)
    requires Proper(t)
    ensures var (c, f) := Find(Top, t, k);
            && f.Leaf? && GoodCtx(c, 0) && Good(f, 0, Lo(c)) && Plug(c, f) == t
            && Ordered(Around(c, f)) && LeftOf(Pre(c), k) && RightOf(Post(c), k)
  {
    hide Ordered, Walk;
    var h :| Good(t, h, 1);
    NoSides(k);
    FindReaches(Top, t, k, h);
    var (c, f) := Find(Top, t, k);
    GoodIsShaped(c, 0);
    PlugWalk(c, f);
  }
}
