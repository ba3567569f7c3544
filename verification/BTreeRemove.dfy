/** Deletion from a B+ tree: borrowing, merging, root collapse, and what they preserve. */
module BTreeRemove {
  import opened Sequences
  import opened Options
  import opened Walks
  import opened BTreeModel

  predicate CanLend(t: Tree) {
    |t.keys| > MIN_KEYS
  }

  predicate HasRight(c: Ctx) {
    c.Below? && c.right != [] && |c.right| == |c.keysR|
  }

  predicate HasLeft(c: Ctx) {
    c.Below? && c.left != [] && |c.left| == |c.keysL|
  }

  /** Both leaves, or both internal nodes with one child more than keys. */
  predicate Alike(a: Tree, b: Tree) {
    if a.Leaf? then b.Leaf? && |a.vals| == |a.keys| && |b.vals| == |b.keys|
    else b.Node? && |a.kids| == |a.keys| + 1 && |b.kids| == |b.keys| + 1
  }

  // ---------------------------------------------------------------- the four repairs

  function BorrowRight(c: Ctx, f: Tree): (Ctx, Tree)
    requires HasRight(c) && Alike(f, c.right[0]) && CanLend(c.right[0])
  {
    var r := c.right[0];
    if f.Leaf? then
      var r' := Leaf(r.page, r.keys[1..], r.vals[1..]);
      (c.(keysR := [r'.keys[0]] + c.keysR[1..], right := [r'] + c.right[1..]),
       Leaf(f.page, f.keys + [r.keys[0]], f.vals + [r.vals[0]]))
    else
      (c.(keysR := [r.keys[0]] + c.keysR[1..], right := [Node(r.page, r.keys[1..], r.kids[1..])] + c.right[1..]),
       Node(f.page, f.keys + [c.keysR[0]], f.kids + [r.kids[0]]))
  }

  function BorrowLeft(c: Ctx, f: Tree): (Ctx, Tree)
    requires HasLeft(c) && Alike(f, Last(c.left)) && CanLend(Last(c.left))
  {
    var l := Last(c.left);
    if f.Leaf? then
      (c.(keysL := Front(c.keysL) + [Last(l.keys)],
        left := Front(c.left) + [Leaf(l.page, Front(l.keys), Front(l.vals))]),
       Leaf(f.page, [Last(l.keys)] + f.keys, [Last(l.vals)] + f.vals))
    else
      (c.(keysL := Front(c.keysL) + [Last(l.keys)],
        left := Front(c.left) + [Node(l.page, Front(l.keys), Front(l.kids))]),
       Node(f.page, [Last(c.keysL)] + f.keys, [Last(l.kids)] + f.kids))
  }

  /** The right node's contents move into the left one; between internal nodes the separator comes down. */
  function Fused(a: Tree, s: Key, b: Tree): Tree
    requires Alike(a, b)
  {
    if a.Leaf? then Leaf(a.page, a.keys + b.keys, a.vals + b.vals)
    else Node(a.page, a.keys + [s] + b.keys, a.kids + b.kids)
  }

  function MergeRight(c: Ctx, f: Tree): (Ctx, Tree)
    requires HasRight(c) && Alike(f, c.right[0])
  {
    (c.(keysR := c.keysR[1..], right := c.right[1..]), Fused(f, c.keysR[0], c.right[0]))
  }

  function MergeLeft(c: Ctx, f: Tree): (Ctx, Tree)
    requires HasLeft(c) && Alike(Last(c.left), f)
  {
    (c.(keysL := Front(c.keysL), left := Front(c.left)), Fused(Last(c.left), Last(c.keysL), f))
  }

  /** The root may be small; an empty leaf root empties the tree, an internal root without keys gives way to its
      child. */
  function RootRepair(f: Tree): Option<Tree> {
    if |f.keys| > 0 then Some(f)
    else if f.Leaf? || f.kids == [] then None
    else Some(f.kids[0])
  }

  predicate Repairable(c: Ctx, f: Tree) {
    c.Below? ==>
      && (c.right != [] || c.left != [])
      && (c.right != [] ==> HasRight(c) && Alike(f, c.right[0]))
      && (c.left != [] ==> HasLeft(c) && Alike(Last(c.left), f))
  }

  /** Repairs an underflow at f: borrow right, borrow left, merge right, merge left, and upward after a merge. */
  function Repair(c: Ctx, f: Tree): Option<Tree>
    decreases c
  {
    if c.Top? then RootRepair(f)
    else if !Repairable(c, f) then Some(Plug(c, f))
    else if c.right != [] && CanLend(c.right[0]) then var (d, g) := BorrowRight(c, f); Some(Plug(d, g))
    else if c.left != [] && CanLend(Last(c.left)) then var (d, g) := BorrowLeft(c, f); Some(Plug(d, g))
    else
      var (d, g) := if c.right != [] then MergeRight(c, f) else MergeLeft(c, f);
      var parent := Rebuilt(d, g);
      if |parent.keys| < MIN_KEYS then Repair(c.up, parent) else Some(Plug(c.up, parent))
  }

  // ---------------------------------------------------------------- walks of changed nodes

  lemma NodeAppend(p: nat, keys: seq<Key>, kids: seq<Tree>, s: Key, t: Tree)
    requires |kids| == |keys| + 1
    ensures Walk(Node(p, keys + [s], kids + [t])) == Walk(Node(p, keys, kids)) + [S(s)] + Walk(t)
  {
    hide WalkLeft, Walk;
    var big := Node(p, keys + [s], kids + [t]);
    NodeWalk(big);
    NodeWalk(Node(p, keys, kids));
    assert Front(big.kids) == kids && Last(big.kids) == t;
    assert kids == Front(kids) + [Last(kids)];
    LeftConcat(Front(kids), keys, [Last(kids)], [s]);
    LeftOne(Last(kids), s);
    Assoc(WalkLeft(Front(kids), keys), Walk(Last(kids)), [S(s)]);
  }

  lemma NodeJoin(p: nat, k1: seq<Key>, kids1: seq<Tree>, s: Key, k2: seq<Key>, kids2: seq<Tree>)
    requires |kids1| == |k1| + 1 && |kids2| == |k2| + 1
    ensures Walk(Node(p, k1 + [s] + k2, kids1 + kids2)) == Walk(Node(p, k1, kids1)) + [S(s)] + Walk(Node(p, k2, kids2))
  {
    hide WalkLeft, Walk;
    var big := Node(p, k1 + [s] + k2, kids1 + kids2);
    NodeWalk(big);
    NodeWalk(Node(p, k1, kids1));
    NodeWalk(Node(p, k2, kids2));
    assert Front(big.kids) == kids1 + Front(kids2) && Last(big.kids) == Last(kids2);
    LeftConcat(kids1, k1 + [s], Front(kids2), k2);
    assert kids1 == Front(kids1) + [Last(kids1)];
    LeftConcat(Front(kids1), k1, [Last(kids1)], [s]);
    LeftOne(Last(kids1), s);
    Assoc(WalkLeft(Front(kids1), k1), Walk(Last(kids1)), [S(s)]);
    Assoc(WalkLeft(kids1, k1 + [s]), WalkLeft(Front(kids2), k2), Walk(Last(kids2)));
  }

  /** Page numbers do not show in the walk. */
  lemma WalkIgnoresPage(p: nat, q: nat, keys: seq<Key>, kids: seq<Tree>)
    ensures Walk(Node(p, keys, kids)) == Walk(Node(q, keys, kids))
  {
  }

  lemma NodePrepend(p: nat, t: Tree, s: Key, keys: seq<Key>, kids: seq<Tree>)
    requires |kids| == |keys| + 1
    ensures Walk(Node(p, [s] + keys, [t] + kids)) == Walk(t) + [S(s)] + Walk(Node(p, keys, kids))
  {
    hide WalkLeft, Walk;
    NodeJoin(p, [], [t], s, keys, kids);
    assert [] + [s] + keys == [s] + keys;
    OneChild(p, t);
  }

  lemma OneChild(p: nat, t: Tree)
    ensures Walk(Node(p, [], [t])) == Walk(t)
  {
    assert [] + Walk(t) == Walk(t);
  }

  lemma ZipConcat(k1: seq<Key>, v1: seq<Value>, k2: seq<Key>, v2: seq<Value>)
    requires |k1| == |v1| && |k2| == |v2|
    ensures Zip(k1 + k2, v1 + v2) == Zip(k1, v1) + Zip(k2, v2)
  {
  }

  lemma ZipOne(k: Key, v: Value)
    ensures Zip([k], [v]) == [K(k, v)]
  {
  }

  // ---------------------------------------------------------------- the surroundings, opened at one sibling

  function Tail(c: Ctx): seq<Item>
    requires HasRight(c)
  {
    WalkRight(c.keysR[1..], c.right[1..]) + Post(c.up)
  }

  function Head(c: Ctx): seq<Item>
    requires HasLeft(c)
  {
    Pre(c.up) + WalkLeft(Front(c.left), Front(c.keysL))
  }

  lemma PostOpens(c: Ctx)
    requires HasRight(c)
    ensures Post(c) == [S(c.keysR[0])] + Walk(c.right[0]) + Tail(c)
  {
    Assoc([S(c.keysR[0])] + Walk(c.right[0]), WalkRight(c.keysR[1..], c.right[1..]), Post(c.up));
  }

  lemma PreOpens(c: Ctx)
    requires HasLeft(c)
    ensures Pre(c) == Head(c) + Walk(Last(c.left)) + [S(Last(c.keysL))]
  {
    var a, b, s := WalkLeft(Front(c.left), Front(c.keysL)), Walk(Last(c.left)), [S(Last(c.keysL))];
    Regroup(Pre(c.up), a, b, s, []);
    Assoc(Pre(c.up), a, b + s);
    Assoc(a, b, s);
    Assoc(Pre(c.up) + a, b, s);
  }

  function Around(c: Ctx, f: Tree): seq<Item> {
    Pre(c) + Walk(f) + Post(c)
  }

  /** A repair keeps the entries and the order. */
  ghost predicate SameMap(a: seq<Item>, b: seq<Item>) {
    Entries(b) == Entries(a) && (Ordered(a) ==> Ordered(b))
  }

  // ---------------------------------------------------------------- internal nodes: the walk does not change at all

  lemma RightNeighbours(pre: seq<Item>, f: seq<Item>, s: seq<Item>, a: seq<Item>, r: seq<Item>, b: seq<Item>,
      tail: seq<Item>)
    ensures pre + f + (s + (a + r + b) + tail) == pre + (f + s + a) + (r + b + tail)
  {
  }

  lemma BorrowRightNode(c: Ctx, f: Tree)
    requires HasRight(c) && Alike(f, c.right[0]) && CanLend(c.right[0]) && f.Node?
    ensures Around(BorrowRight(c, f).0, BorrowRight(c, f).1) == Around(c, f)
  {
    hide Walk, WalkRight, WalkLeft;
    var (d, g) := BorrowRight(c, f);
    var r, s := c.right[0], c.keysR[0];
    PostOpens(c);
    PostOpens(d);
    assert d.right[1..] == c.right[1..] && d.keysR[1..] == c.keysR[1..];
    NodeAppend(f.page, f.keys, f.kids, s, r.kids[0]);
    NodePrepend(r.page, r.kids[0], r.keys[0], r.keys[1..], r.kids[1..]);
    assert [r.keys[0]] + r.keys[1..] == r.keys && [r.kids[0]] + r.kids[1..] == r.kids;
    RightNeighbours(Pre(c), Walk(f), [S(s)], Walk(r.kids[0]), [S(r.keys[0])], Walk(d.right[0]), Tail(c));
  }

  lemma LeftNeighbours(head: seq<Item>, a: seq<Item>, r: seq<Item>, b: seq<Item>, s: seq<Item>, f: seq<Item>,
      post: seq<Item>)
    ensures head + (a + r + b) + s + f + post == head + a + r + (b + s + f) + post
  {
  }

  lemma BorrowLeftNode(c: Ctx, f: Tree)
    requires HasLeft(c) && Alike(f, Last(c.left)) && CanLend(Last(c.left)) && f.Node?
    ensures Around(BorrowLeft(c, f).0, BorrowLeft(c, f).1) == Around(c, f)
  {
    hide Walk, WalkRight, WalkLeft;
    var (d, g) := BorrowLeft(c, f);
    var l, s := Last(c.left), Last(c.keysL);
    PreOpens(c);
    PreOpens(d);
    assert Front(d.left) == Front(c.left) && Front(d.keysL) == Front(c.keysL);
    NodePrepend(f.page, Last(l.kids), s, f.keys, f.kids);
    NodeAppend(l.page, Front(l.keys), Front(l.kids), Last(l.keys), Last(l.kids));
    assert Front(l.keys) + [Last(l.keys)] == l.keys && Front(l.kids) + [Last(l.kids)] == l.kids;
    LeftNeighbours(Head(c), Walk(Last(d.left)), [S(Last(l.keys))], Walk(Last(l.kids)), [S(s)], Walk(f), Post(c));
  }

  lemma FusedNodeWalk(a: Tree, s: Key, b: Tree)
    requires Alike(a, b) && a.Node?
    ensures Walk(Fused(a, s, b)) == Walk(a) + [S(s)] + Walk(b)
  {
    hide WalkLeft, Walk;
    NodeJoin(a.page, a.keys, a.kids, s, b.keys, b.kids);
    WalkIgnoresPage(a.page, b.page, b.keys, b.kids);
  }

  lemma FusedLeafWalk(a: Tree, s: Key, b: Tree)
    requires Alike(a, b) && a.Leaf?
    ensures Walk(Fused(a, s, b)) == Walk(a) + Walk(b)
  {
    ZipConcat(a.keys, a.vals, b.keys, b.vals);
  }

  lemma MergeRightWalk(c: Ctx, f: Tree)
    requires HasRight(c) && Alike(f, c.right[0])
    ensures SameMap(Around(c, f), Around(MergeRight(c, f).0, MergeRight(c, f).1))
  {
    hide Walk, WalkRight, WalkLeft, Ordered, Entries;
    var (d, g) := MergeRight(c, f);
    var s, r := c.keysR[0], c.right[0];
    PostOpens(c);
    assert Post(d) == Tail(c) && Pre(d) == Pre(c);
    var a, b := Pre(c) + Walk(f), Walk(r) + Tail(c);
    assert Around(c, f) == a + [S(s)] + b by { RegroupRight(Pre(c), Walk(f), [S(s)], Walk(r), Tail(c)); }
    if f.Node? {
      FusedNodeWalk(f, s, r);
      assert Around(d, g) == a + [S(s)] + b by { RegroupRight(Pre(c), Walk(f), [S(s)], Walk(r), Tail(c)); }
    } else {
      FusedLeafWalk(f, s, r);
      assert Around(d, g) == a + b by { Regroup(Pre(c), Walk(f), Walk(r), Tail(c), []); }
      EntriesSkipSep(a, s, b);
      if Ordered(Around(c, f)) { OrderedDrop(a, [S(s)], b); }
    }
  }

  lemma RegroupRight(pre: seq<Item>, f: seq<Item>, s: seq<Item>, r: seq<Item>, tail: seq<Item>)
    ensures pre + f + (s + r + tail) == (pre + f) + s + (r + tail) == pre + (f + s + r) + tail
  {
  }

  lemma MergeLeftWalk(c: Ctx, f: Tree)
    requires HasLeft(c) && Alike(Last(c.left), f)
    ensures SameMap(Around(c, f), Around(MergeLeft(c, f).0, MergeLeft(c, f).1))
  {
    hide Walk, WalkRight, WalkLeft, Ordered, Entries;
    var (d, g) := MergeLeft(c, f);
    var s, l := Last(c.keysL), Last(c.left);
    PreOpens(c);
    assert Pre(d) == Head(c) && Post(d) == Post(c);
    var a, b := Head(c) + Walk(l), Walk(f) + Post(c);
    assert Around(c, f) == a + [S(s)] + b by { Assoc(a + [S(s)], Walk(f), Post(c)); }
    if l.Node? {
      FusedNodeWalk(l, s, f);
      assert Around(d, g) == a + [S(s)] + b by { RegroupRight(Head(c), Walk(l), [S(s)], Walk(f), Post(c)); }
    } else {
      FusedLeafWalk(l, s, f);
      assert Around(d, g) == a + b by { Regroup(Head(c), Walk(l), Walk(f), Post(c), []); }
      EntriesSkipSep(a, s, b);
      if Ordered(Around(c, f)) { OrderedDrop(a, [S(s)], b); }
    }
  }

  // ---------------------------------------------------------------- leaves: the separator moves by one entry

  /** ... f | s | x y ... becomes ... f x | y | y ... */
  lemma SepMovesRight(a: seq<Item>, s: Key, x: Item, y: Item, b: seq<Item>)
    requires x.K? && y.K?
    ensures SameMap(a + [S(s)] + [x] + [y] + b, a + [x] + [S(y.key)] + [y] + b)
  {
    hide Ordered, Entries;
    var rest := [x] + [y] + b;
    assert a + [S(s)] + [x] + [y] + b == a + [S(s)] + rest;
    assert a + rest == a + [x] + [y] + b;
    EntriesSkipSep(a, s, rest);
    EntriesSkipSep(a + [x], y.key, [y] + b);
    assert a + [x] + [S(y.key)] + ([y] + b) == a + [x] + [S(y.key)] + [y] + b;
    assert a + [x] + ([y] + b) == a + [x] + [y] + b;
    if Ordered(a + [S(s)] + rest) {
      OrderedDrop(a, [S(s)], rest);
      OrderedNewSep(a, x, y, b);
    }
  }

  /** ... x y | s | f ... becomes ... x | y | y f ... */
  lemma SepMovesLeft(a: seq<Item>, x: Item, y: Item, s: Key, b: seq<Item>)
    requires x.K? && y.K?
    ensures SameMap(a + [x] + [y] + [S(s)] + b, a + [x] + [S(y.key)] + [y] + b)
  {
    hide Ordered, Entries;
    EntriesSkipSep(a + [x] + [y], s, b);
    EntriesSkipSep(a + [x], y.key, [y] + b);
    assert a + [x] + [S(y.key)] + ([y] + b) == a + [x] + [S(y.key)] + [y] + b;
    assert a + [x] + ([y] + b) == a + [x] + [y] + b;
    if Ordered(a + [x] + [y] + [S(s)] + b) {
      OrderedDrop(a + [x] + [y], [S(s)], b);
      OrderedNewSep(a, x, y, b);
    }
  }

  lemma ZipFirst(keys: seq<Key>, vals: seq<Value>)
    requires |keys| == |vals| > 0
    ensures Zip(keys, vals) == [K(keys[0], vals[0])] + Zip(keys[1..], vals[1..])
  {
  }

  lemma ZipLast(keys: seq<Key>, vals: seq<Value>)
    requires |keys| == |vals| > 0
    ensures Zip(keys, vals) == Zip(Front(keys), Front(vals)) + [K(Last(keys), Last(vals))]
  {
  }

  lemma ShiftRight(pre: seq<Item>, f: seq<Item>, s: seq<Item>, x: seq<Item>, y: seq<Item>, z: seq<Item>,
      tail: seq<Item>, t: seq<Item>)
    ensures pre + f + (s + (x + (y + z)) + tail) == (pre + f) + s + x + y + (z + tail)
    ensures pre + (f + x) + (t + (y + z) + tail) == (pre + f) + x + t + y + (z + tail)
  {
  }

  lemma BorrowRightLeaf(c: Ctx, f: Tree)
    requires HasRight(c) && Alike(f, c.right[0]) && CanLend(c.right[0]) && f.Leaf?
    ensures SameMap(Around(c, f), Around(BorrowRight(c, f).0, BorrowRight(c, f).1))
  {
    hide WalkRight, WalkLeft, Ordered, Entries, Zip;
    var (d, g) := BorrowRight(c, f);
    var r, s := c.right[0], c.keysR[0];
    PostOpens(c);
    PostOpens(d);
    assert d.right[1..] == c.right[1..] && d.keysR[1..] == c.keysR[1..];
    var x, y := K(r.keys[0], r.vals[0]), K(r.keys[1], r.vals[1]);
    ZipFirst(r.keys, r.vals);
    ZipFirst(r.keys[1..], r.vals[1..]);
    ZipConcat(f.keys, f.vals, [r.keys[0]], [r.vals[0]]);
    ZipOne(r.keys[0], r.vals[0]);
    var z := Zip(r.keys[1..][1..], r.vals[1..][1..]);
    ShiftRight(Pre(c), Walk(f), [S(s)], [x], [y], z, Tail(c), [S(y.key)]);
    SepMovesRight(Pre(c) + Walk(f), s, x, y, z + Tail(c));
  }

  lemma ShiftLeft(head: seq<Item>, z: seq<Item>, x: seq<Item>, y: seq<Item>, s: seq<Item>, f: seq<Item>,
      post: seq<Item>, t: seq<Item>)
    ensures head + ((z + x) + y) + s + f + post == (head + z) + x + y + s + (f + post)
    ensures head + (z + x) + t + (y + f) + post == (head + z) + x + t + y + (f + post)
  {
  }

  lemma BorrowLeftLeaf(c: Ctx, f: Tree)
    requires HasLeft(c) && Alike(f, Last(c.left)) && CanLend(Last(c.left)) && f.Leaf?
    ensures SameMap(Around(c, f), Around(BorrowLeft(c, f).0, BorrowLeft(c, f).1))
  {
    hide WalkRight, WalkLeft, Ordered, Entries, Zip;
    var (d, g) := BorrowLeft(c, f);
    var l, s := Last(c.left), Last(c.keysL);
    PreOpens(c);
    PreOpens(d);
    assert Front(d.left) == Front(c.left) && Front(d.keysL) == Front(c.keysL);
    var y := K(Last(l.keys), Last(l.vals));
    var x := K(Last(Front(l.keys)), Last(Front(l.vals)));
    ZipLast(l.keys, l.vals);
    ZipLast(Front(l.keys), Front(l.vals));
    ZipConcat([Last(l.keys)], [Last(l.vals)], f.keys, f.vals);
    ZipOne(Last(l.keys), Last(l.vals));
    var z := Zip(Front(Front(l.keys)), Front(Front(l.vals)));
    ShiftLeft(Head(c), z, [x], [y], [S(s)], Walk(f), Post(c), [S(y.key)]);
    SepMovesLeft(Head(c) + z, x, y, s, Walk(f) + Post(c));
  }

  // ---------------------------------------------------------------- sizes

  lemma AllGoodParts(a: seq<Tree>, b: seq<Tree>, h: nat)
    ensures AllGood(a + b, h) <==> AllGood(a, h) && AllGood(b, h)
  {
    assert forall i :: 0 <= i < |a| ==> (a + b)[i] == a[i];
    assert forall i :: 0 <= i < |b| ==> (a + b)[|a| + i] == b[i];
    assert forall i :: |a| <= i < |a + b| ==> (a + b)[i] == b[i - |a|];
  }

  lemma KidsGood(t: Tree, h: nat, lo: nat)
    requires Good(t, h, lo) && t.Node?
    ensures h > 0 && AllGood(t.kids, h - 1)
  {
  }

  lemma NodeGood(p: nat, keys: seq<Key>, kids: seq<Tree>, h: nat, lo: nat)
    requires |kids| == |keys| + 1 && AllGood(kids, h) && lo <= |keys| <= MAX_KEYS
    ensures Good(Node(p, keys, kids), h + 1, lo)
  {
  }

  lemma OneGood(t: Tree, h: nat)
    ensures AllGood([t], h) <==> Good(t, h, MIN_KEYS)
  {
    assert [t][0] == t;
  }

  lemma TakeRight(r: Tree, h: nat)
    requires Good(r, h, MIN_KEYS) && CanLend(r)
    ensures r.Leaf? ==> Good(Leaf(r.page, r.keys[1..], r.vals[1..]), h, MIN_KEYS)
    ensures r.Node? ==> Good(Node(r.page, r.keys[1..], r.kids[1..]), h, MIN_KEYS) && Good(r.kids[0], h - 1, MIN_KEYS)
  {
    if r.Node? {
      KidsGood(r, h, MIN_KEYS);
      assert r.kids == [r.kids[0]] + r.kids[1..];
      AllGoodParts([r.kids[0]], r.kids[1..], h - 1);
      NodeGood(r.page, r.keys[1..], r.kids[1..], h - 1, MIN_KEYS);
    }
  }

  lemma TakeLeft(l: Tree, h: nat)
    requires Good(l, h, MIN_KEYS) && CanLend(l)
    ensures l.Leaf? ==> Good(Leaf(l.page, Front(l.keys), Front(l.vals)), h, MIN_KEYS)
    ensures l.Node? ==>
            Good(Node(l.page, Front(l.keys), Front(l.kids)), h, MIN_KEYS) && Good(Last(l.kids), h - 1, MIN_KEYS)
  {
    if l.Node? {
      KidsGood(l, h, MIN_KEYS);
      assert l.kids == Front(l.kids) + [Last(l.kids)];
      AllGoodParts(Front(l.kids), [Last(l.kids)], h - 1);
      NodeGood(l.page, Front(l.keys), Front(l.kids), h - 1, MIN_KEYS);
    }
  }

  /** One key short: what a deletion or a merge below leaves behind. */
  ghost predicate Short(f: Tree, h: nat) {
    Good(f, h, MIN_KEYS - 1) && |f.keys| == MIN_KEYS - 1
  }

  lemma BorrowRightGood(c: Ctx, f: Tree, h: nat)
    requires GoodCtx(c, h) && HasRight(c) && Short(f, h) && CanLend(c.right[0])
    ensures Alike(f, c.right[0])
    ensures GoodCtx(BorrowRight(c, f).0, h) && Good(BorrowRight(c, f).1, h, MIN_KEYS)
  {
    hide Good;
    SameHeight(f, h, MIN_KEYS - 1, c.right[0], MIN_KEYS);
    var (d, g) := BorrowRight(c, f);
    var r := c.right[0];
    TakeRight(r, h);
    assert c.right == [r] + c.right[1..];
    AllGoodParts([r], c.right[1..], h);
    OneGood(d.right[0], h);
    AllGoodParts([d.right[0]], c.right[1..], h);
    assert d.right == [d.right[0]] + c.right[1..];
    if f.Leaf? {
      LeafGood(g, h);
    } else {
      KidsGood(f, h, MIN_KEYS - 1);
      OneGood(r.kids[0], h - 1);
      AllGoodParts(f.kids, [r.kids[0]], h - 1);
      NodeGood(f.page, g.keys, g.kids, h - 1, MIN_KEYS);
    }
  }

  lemma LeafGood(g: Tree, h: nat)
    requires g.Leaf? && |g.vals| == |g.keys| && h == 0 && MIN_KEYS <= |g.keys| <= MAX_KEYS
    ensures Good(g, h, MIN_KEYS)
  {
  }

  lemma SameHeight(a: Tree, h: nat, lo: nat, b: Tree, lo': nat)
    requires Good(a, h, lo) && Good(b, h, lo')
    ensures Alike(a, b) && Alike(b, a) && (a.Leaf? <==> h == 0)
    ensures lo <= |a.keys| <= MAX_KEYS && lo' <= |b.keys| <= MAX_KEYS
  {
  }

  lemma BorrowLeftGood(c: Ctx, f: Tree, h: nat)
    requires GoodCtx(c, h) && HasLeft(c) && Short(f, h) && CanLend(Last(c.left))
    ensures Alike(f, Last(c.left))
    ensures GoodCtx(BorrowLeft(c, f).0, h) && Good(BorrowLeft(c, f).1, h, MIN_KEYS)
  {
    hide Good;
    var l := Last(c.left);
    assert Good(c.left[|c.left| - 1], h, MIN_KEYS);
    SameHeight(f, h, MIN_KEYS - 1, l, MIN_KEYS);
    var (d, g) := BorrowLeft(c, f);
    TakeLeft(l, h);
    assert c.left == Front(c.left) + [l];
    AllGoodParts(Front(c.left), [l], h);
    OneGood(Last(d.left), h);
    AllGoodParts(Front(c.left), [Last(d.left)], h);
    assert d.left == Front(c.left) + [Last(d.left)];
    if f.Leaf? {
      LeafGood(g, h);
    } else {
      KidsGood(f, h, MIN_KEYS - 1);
      OneGood(Last(l.kids), h - 1);
      AllGoodParts([Last(l.kids)], f.kids, h - 1);
      NodeGood(f.page, g.keys, g.kids, h - 1, MIN_KEYS);
    }
  }

  lemma FusedGood(a: Tree, s: Key, b: Tree, h: nat)
    requires Good(a, h, MIN_KEYS - 1) && Good(b, h, MIN_KEYS - 1)
    requires |a.keys| + |b.keys| == 2 * MIN_KEYS - 1
    ensures Alike(a, b) && Good(Fused(a, s, b), h, MIN_KEYS)
  {
    hide Good;
    SameHeight(a, h, MIN_KEYS - 1, b, MIN_KEYS - 1);
    var g := Fused(a, s, b);
    if a.Leaf? {
      LeafGood(g, h);
    } else {
      KidsGood(a, h, MIN_KEYS - 1);
      KidsGood(b, h, MIN_KEYS - 1);
      AllGoodParts(a.kids, b.kids, h - 1);
      NodeGood(a.page, g.keys, g.kids, h - 1, MIN_KEYS);
    }
  }

  /** After a merge the parent has one key less and everything below it is within limits. */
  lemma MergeRightGood(c: Ctx, f: Tree, h: nat)
    requires GoodCtx(c, h) && HasRight(c) && Short(f, h) && !CanLend(c.right[0])
    ensures Alike(f, c.right[0])
    ensures Good(Rebuilt(MergeRight(c, f).0, MergeRight(c, f).1), h + 1, Lo(c.up) - 1)
  {
    hide Good;
    SameHeight(f, h, MIN_KEYS - 1, c.right[0], MIN_KEYS);
    Weaker(c.right[0], h);
    FusedGood(f, c.keysR[0], c.right[0], h);
    var (d, g) := MergeRight(c, f);
    assert c.right == [c.right[0]] + c.right[1..];
    AllGoodParts([c.right[0]], c.right[1..], h);
    RebuiltGood(d, g, h, Lo(c.up) - 1);
  }

  lemma Weaker(t: Tree, h: nat)
    requires Good(t, h, MIN_KEYS)
    ensures Good(t, h, MIN_KEYS - 1)
  {
  }

  lemma MergeLeftGood(c: Ctx, f: Tree, h: nat)
    requires GoodCtx(c, h) && HasLeft(c) && Short(f, h) && !CanLend(Last(c.left))
    ensures Alike(Last(c.left), f)
    ensures Good(Rebuilt(MergeLeft(c, f).0, MergeLeft(c, f).1), h + 1, Lo(c.up) - 1)
  {
    hide Good;
    var l := Last(c.left);
    assert Good(c.left[|c.left| - 1], h, MIN_KEYS);
    SameHeight(f, h, MIN_KEYS - 1, l, MIN_KEYS);
    Weaker(l, h);
    FusedGood(l, Last(c.keysL), f, h);
    var (d, g) := MergeLeft(c, f);
    assert c.left == Front(c.left) + [l];
    AllGoodParts(Front(c.left), [l], h);
    RebuiltGood(d, g, h, Lo(c.up) - 1);
  }

  // ---------------------------------------------------------------- the whole repair

  ghost predicate Underflows(c: Ctx, f: Tree, h: nat) {
    if c.Top? then Good(f, h, 0) && |f.keys| < MIN_KEYS else Short(f, h)
  }

  lemma CanRepair(c: Ctx, f: Tree, h: nat)
    requires GoodCtx(c, h) && Underflows(c, f, h)
    ensures Repairable(c, f)
  {
    if c.Below? {
      if c.right != [] { SameHeight(f, h, MIN_KEYS - 1, c.right[0], MIN_KEYS); }
      if c.left != [] {
        assert Good(c.left[|c.left| - 1], h, MIN_KEYS);
        SameHeight(f, h, MIN_KEYS - 1, Last(c.left), MIN_KEYS);
      }
    }
  }

  /** What is left of the tree; the empty tree has no root. */
  function Left(r: Option<Tree>): map<Key, Value> {
    if r.None? then map[] else Contents(r.value)
  }

  ghost predicate ProperOrEmpty(r: Option<Tree>) {
    r.Some? ==> Proper(r.value)
  }

  lemma RootRepaired(f: Tree, h: nat)
    requires Good(f, h, 0) && Ordered(Walk(f))
    ensures ProperOrEmpty(RootRepair(f)) && Left(RootRepair(f)) == Contents(f)
  {
    if |f.keys| > 0 {
      assert Good(f, h, 1);
    } else if f.Node? {
      assert Good(f.kids[0], h - 1, MIN_KEYS);
      assert f.kids == [f.kids[0]] && f.keys == [];
      OneChild(f.page, f.kids[0]);
      assert Good(f.kids[0], h - 1, 1);
    } else {
      assert Walk(f) == [];
    }
  }

  /** The plugged result of a repair that stops here. */
  lemma Stops(c: Ctx, f: Tree, d: Ctx, g: Tree, h: nat)
    requires Shaped(c) && GoodCtx(d, h) && Good(g, h, Lo(d)) && SameMap(Around(c, f), Around(d, g))
    requires Ordered(Around(c, f))
    ensures Proper(Plug(d, g)) && Contents(Plug(d, g)) == Entries(Around(c, f))
  {
    hide Walk, Ordered, Entries, Good;
    GoodIsShaped(d, h);
    PlugWalk(d, g);
    PlugGood(d, g, h);
  }

  lemma AroundUp(d: Ctx, g: Tree)
    requires d.Below? && Shaped(d)
    ensures Around(d.up, Rebuilt(d, g)) == Around(d, g)
  {
    hide Walk, WalkLeft, WalkRight;
    RebuiltWalk(d, g);
    Regroup(Pre(d.up), WalkLeft(d.left, d.keysL), Walk(g), WalkRight(d.keysR, d.right), Post(d.up));
  }

  /** The merged pair in its parent: one key fewer, same entries, same order. */
  lemma Merged(c: Ctx, f: Tree, h: nat)
    requires GoodCtx(c, h) && Short(f, h) && c.Below? && Repairable(c, f) && Ordered(Around(c, f))
    requires (c.right != [] ==> !CanLend(c.right[0])) && (c.left != [] ==> !CanLend(Last(c.left)))
    ensures var (d, g) := if c.right != [] then MergeRight(c, f) else MergeLeft(c, f);
            && d.Below? && d.up == c.up
            && Good(Rebuilt(d, g), h + 1, Lo(c.up) - 1)
            && Ordered(Around(c.up, Rebuilt(d, g))) && Entries(Around(c.up, Rebuilt(d, g))) == Entries(Around(c, f))
  {
    hide Good, Ordered, Entries, Walk, Around;
    GoodIsShaped(c, h);
    if c.right != [] {
      MergeRightGood(c, f, h);
      MergeRightWalk(c, f);
      AroundUp(MergeRight(c, f).0, MergeRight(c, f).1);
    } else {
      MergeLeftGood(c, f, h);
      MergeLeftWalk(c, f);
      AroundUp(MergeLeft(c, f).0, MergeLeft(c, f).1);
    }
  }

  lemma ShortAgain(t: Tree, h: nat, up: Ctx)
    requires Good(t, h, Lo(up) - 1) && |t.keys| < MIN_KEYS
    ensures Underflows(up, t, h)
  {
  }

  lemma EnoughAgain(t: Tree, h: nat, up: Ctx)
    requires Good(t, h, Lo(up) - 1) && |t.keys| >= MIN_KEYS
    ensures Good(t, h, Lo(up))
  {
  }

  /** Repair restores every limit and changes neither the entries nor their order. */
  lemma {:induction false} RepairRestores(c: Ctx, f: Tree, h: nat)
    requires GoodCtx(c, h) && Underflows(c, f, h) && Ordered(Around(c, f))
    ensures ProperOrEmpty(Repair(c, f)) && Left(Repair(c, f)) == Entries(Around(c, f))
    decreases c
  {
    hide Good, Ordered, Entries, Around;
    CanRepair(c, f, h);
    GoodIsShaped(c, h);
    if c.Top? {
      assert Around(c, f) == Walk(f) by { AroundTop(f); }
      RootRepaired(f, h);
    } else if c.right != [] && CanLend(c.right[0]) {
      BorrowRightGood(c, f, h);
      if f.Leaf? { BorrowRightLeaf(c, f); } else { BorrowRightNode(c, f); }
      Stops(c, f, BorrowRight(c, f).0, BorrowRight(c, f).1, h);
    } else if c.left != [] && CanLend(Last(c.left)) {
      BorrowLeftGood(c, f, h);
      if f.Leaf? { BorrowLeftLeaf(c, f); } else { BorrowLeftNode(c, f); }
      Stops(c, f, BorrowLeft(c, f).0, BorrowLeft(c, f).1, h);
    } else {
      Merged(c, f, h);
      var (d, g) := if c.right != [] then MergeRight(c, f) else MergeLeft(c, f);
      var parent := Rebuilt(d, g);
      if |parent.keys| < MIN_KEYS {
        ShortAgain(parent, h + 1, c.up);
        RepairRestores(c.up, parent, h + 1);
      } else {
        EnoughAgain(parent, h + 1, c.up);
        Stops(c.up, parent, c.up, parent, h + 1);
      }
    }
  }

  lemma AroundTop(f: Tree)
    ensures Around(Top, f) == Walk(f)
  {
    assert [] + Walk(f) + [] == Walk(f);
  }

  // ---------------------------------------------------------------- separators after a first-key deletion

  /** The nearest separator to the left of this place, at whatever level it is, becomes m. */
  function RaiseSep(c: Ctx, m: Key): Ctx {
    if c.Top? then Top
    else if c.left != [] && c.keysL != [] then c.(keysL := Front(c.keysL) + [m])
    else c.(up := RaiseSep(c.up, m))
  }

  lemma {:induction false} RaisedPre(c: Ctx, m: Key)
    requires Shaped(c)
    ensures Shaped(RaiseSep(c, m)) && Post(RaiseSep(c, m)) == Post(c)
    ensures Pre(c) == [] ==> Pre(RaiseSep(c, m)) == []
    ensures Pre(c) != [] ==> Last(Pre(c)).S? && Pre(RaiseSep(c, m)) == Front(Pre(c)) + [S(m)]
  {
    hide Walk;
    if c.Below? {
      if c.left != [] {
        var d := RaiseSep(c, m);
        PreOpens(c);
        PreOpens(d);
        assert Front(d.keysL) == Front(c.keysL) && Last(d.keysL) == m;
        assert Front(Pre(c)) == Head(c) + Walk(Last(c.left));
      } else {
        RaisedPre(c.up, m);
        assert Pre(c) == Pre(c.up) + [] == Pre(c.up);
        var d := RaiseSep(c, m);
        assert Pre(d) == Pre(d.up) + [] == Pre(d.up);
      }
    }
  }

  lemma {:induction false} RaisedGood(c: Ctx, m: Key, h: nat)
    requires GoodCtx(c, h)
    ensures GoodCtx(RaiseSep(c, m), h) && (RaiseSep(c, m).Top? <==> c.Top?)
  {
    hide Good;
    if c.Below? && c.left == [] {
      RaisedGood(c.up, m, h + 1);
    }
  }

  // ---------------------------------------------------------------- remove

  function Without<T>(s: seq<T>, i: nat): seq<T>
    requires i < |s|
  {
    s[..i] + s[i + 1..]
  }

  predicate HasKey(f: Tree, k: Key) {
    f.Leaf? && |f.vals| == |f.keys| && LowerBound(f.keys, k) < |f.keys| && f.keys[LowerBound(f.keys, k)] == k
  }

  function Shrunk(f: Tree, k: Key): Tree
    requires HasKey(f, k)
  {
    Leaf(f.page, Without(f.keys, LowerBound(f.keys, k)), Without(f.vals, LowerBound(f.keys, k)))
  }

  /** The tree after removing k from leaf f at c, and the value that was stored. */
  function RemoveAt(c: Ctx, f: Tree, k: Key): (Option<Tree>, Option<Value>) {
    if !HasKey(f, k) then (Some(Plug(c, f)), None)
    else
      var g, v := Shrunk(f, k), Some(f.vals[LowerBound(f.keys, k)]);
      if |g.keys| < MIN_KEYS then (Repair(c, g), v)
      else if LowerBound(f.keys, k) == 0 then (Some(Plug(RaiseSep(c, g.keys[0]), g)), v)
      else (Some(Plug(c, g)), v)
  }

  function Removed(t: Tree, k: Key): (Option<Tree>, Option<Value>) {
    var (c, f) := Find(Top, t, k);
    RemoveAt(c, f, k)
  }

  /** The leaf around k: the entries before it, and those after. */
  lemma LeafParts(f: Tree, i: nat)
    requires f.Leaf? && |f.vals| == |f.keys| && i < |f.keys|
    ensures Walk(f) == Zip(f.keys[..i], f.vals[..i]) + [K(f.keys[i], f.vals[i])] + Zip(f.keys[i + 1..], f.vals[i + 1..])
    ensures Zip(Without(f.keys, i), Without(f.vals, i))
            == Zip(f.keys[..i], f.vals[..i]) + Zip(f.keys[i + 1..], f.vals[i + 1..])
  {
  }

  /** In a leaf without k, the lower bound separates the smaller keys from the larger ones. */
  lemma LeafSides(f: Tree, k: Key)
    requires f.Leaf? && |f.vals| == |f.keys| && Sorted(f.keys) && !HasKey(f, k)
    ensures var i := LowerBound(f.keys, k);
            && i <= |f.keys| && Walk(f) == Zip(f.keys[..i], f.vals[..i]) + Zip(f.keys[i..], f.vals[i..])
            && LeftOf(Zip(f.keys[..i], f.vals[..i]), k) && RightOf(Zip(f.keys[i..], f.vals[i..]), k)
  {
    LowerBoundIs(f.keys, k);
  }

  /** A leaf without k, between neighbours on their sides of k, means k is not in the map. */
  lemma AbsentFromWalk(c: Ctx, f: Tree, k: Key)
    requires f.Leaf? && |f.vals| == |f.keys| && Ordered(Around(c, f)) && !HasKey(f, k) && LeftOf(Pre(c), k)
    requires RightOf(Post(c), k)
    ensures k !in Entries(Around(c, f))
  {
    hide Entries, Ordered, LeftOf, RightOf, Zip, Walk, LowerBound, HasKey;
    OrderedThree(Pre(c), Walk(f), Post(c));
    LeafSorted(f);
    LeafSides(f, k);
    var i := LowerBound(f.keys, k);
    var a, b := Zip(f.keys[..i], f.vals[..i]), Zip(f.keys[i..], f.vals[i..]);
    SidesConcat(Pre(c), a, k);
    SidesConcat(b, Post(c), k);
    SideHasNoKey(Pre(c) + a, k);
    SideHasNoKey(b + Post(c), k);
    assert Around(c, f) == (Pre(c) + a) + (b + Post(c)) by { Regroup(Pre(c), a, b, Post(c), []); }
    EntriesConcat(Pre(c) + a, b + Post(c));
  }

  lemma LeafSorted(f: Tree)
    requires f.Leaf? && |f.vals| == |f.keys| && Ordered(Walk(f))
    ensures Sorted(f.keys)
  {
    forall i, j | 0 <= i < j < |f.keys| ensures f.keys[i] < f.keys[j] {
      assert Before(Walk(f)[i], Walk(f)[j]);
    }
  }

  /** Taking k out of its leaf takes exactly k out of the map. */
  lemma ShrunkWalk(c: Ctx, f: Tree, k: Key)
    requires HasKey(f, k) && Ordered(Around(c, f))
    ensures Ordered(Around(c, Shrunk(f, k)))
    ensures Entries(Around(c, Shrunk(f, k))) == Entries(Around(c, f)) - {k}
    ensures k in Entries(Around(c, f)) && Entries(Around(c, f))[k] == f.vals[LowerBound(f.keys, k)]
  {
    hide Ordered, Entries, Zip;
    var i := LowerBound(f.keys, k);
    var v := f.vals[i];
    LeafParts(f, i);
    var a, b := Zip(f.keys[..i], f.vals[..i]), Zip(f.keys[i + 1..], f.vals[i + 1..]);
    assert Around(c, f) == (Pre(c) + a) + [K(k, v)] + (b + Post(c)) by { MiddleOut(Pre(c), a, [K(k, v)], b, Post(c)); }
    assert Around(c, Shrunk(f, k)) == (Pre(c) + a) + (b + Post(c)) by { Regroup(Pre(c), a, b, Post(c), []); }
    SidesOfEntry(Pre(c) + a, k, v, b + Post(c));
    OrderedDrop(Pre(c) + a, [K(k, v)], b + Post(c));
    EntriesPut(Pre(c) + a, k, v, b + Post(c));
  }

  lemma MiddleOut(pre: seq<Item>, a: seq<Item>, m: seq<Item>, b: seq<Item>, post: seq<Item>)
    ensures pre + (a + m + b) + post == (pre + a) + m + (b + post)
  {
  }

  /** After the least key of a leaf went, naming the next one keeps order and entries. */
  lemma RaisedWalk(c: Ctx, f: Tree, k: Key, h: nat)
    requires GoodCtx(c, h) && HasKey(f, k) && LowerBound(f.keys, k) == 0 && |f.keys| > 1 && Ordered(Around(c, f))
    ensures SameMap(Around(c, Shrunk(f, k)), Around(RaiseSep(c, Shrunk(f, k).keys[0]), Shrunk(f, k)))
  {
    hide Entries, Walk, Ordered, RaiseSep;
    GoodIsShaped(c, h);
    var g := Shrunk(f, k);
    var m := g.keys[0];
    RaisedPre(c, m);
    var d := RaiseSep(c, m);
    if Pre(c) != [] {
      var p, s := Front(Pre(c)), Last(Pre(c)).sep;
      assert Pre(c) == p + [S(s)];
      LeafFirst(g);
      var y, rest := K(m, g.vals[0]), Walk(g)[1..] + Post(c);
      SepFacts(c, f, k, p, s);
      assert Around(c, g) == p + [S(s)] + [y] + rest by { OpenFirst(p, [S(s)], [y], Walk(g)[1..], Post(c)); }
      assert Around(d, g) == p + [S(m)] + [y] + rest by { OpenFirst(p, [S(m)], [y], Walk(g)[1..], Post(c)); }
      SepRenamed(p, s, y, rest);
    }
  }

  lemma SepRenamed(p: seq<Item>, s: Key, y: Item, rest: seq<Item>)
    requires y.K? && s <= y.key
    ensures SameMap(p + [S(s)] + [y] + rest, p + [S(y.key)] + [y] + rest)
  {
    hide Entries, Ordered;
    EntriesSkipSep(p, s, [y] + rest);
    EntriesSkipSep(p, y.key, [y] + rest);
    assert p + [S(s)] + ([y] + rest) == p + [S(s)] + [y] + rest
      && p + [S(y.key)] + ([y] + rest) == p + [S(y.key)] + [y] + rest;
    if Ordered(p + [S(s)] + [y] + rest) { OrderedRaiseSep(p, s, y, rest); }
  }

  lemma OpenFirst(p: seq<Item>, s: seq<Item>, y: seq<Item>, w: seq<Item>, post: seq<Item>)
    ensures (p + s) + (y + w) + post == p + s + y + (w + post)
  {
  }

  lemma LeafFirst(g: Tree)
    requires g.Leaf? && |g.vals| == |g.keys| > 0
    ensures Walk(g) == [K(g.keys[0], g.vals[0])] + Walk(g)[1..]
  {
  }

  /** The separator to the left is at most the removed key, hence below the next one. */
  lemma SepFacts(c: Ctx, f: Tree, k: Key, p: seq<Item>, s: Key)
    requires HasKey(f, k) && LowerBound(f.keys, k) == 0 && |f.keys| > 1 && Ordered(Around(c, f)) && Pre(c) == p + [S(s)]
    ensures s <= k < Shrunk(f, k).keys[0]
  {
    OrderedThree(Pre(c), Walk(f), Post(c));
    assert Before(Pre(c)[|p|], Walk(f)[0]) && Before(Walk(f)[0], Walk(f)[1]);
    assert Walk(f)[0].key == k && Shrunk(f, k).keys[0] == f.keys[1];
  }

  lemma ShrunkGood(c: Ctx, f: Tree, k: Key)
    requires Good(f, 0, Lo(c)) && HasKey(f, k)
    ensures |Shrunk(f, k).keys| < MIN_KEYS ==> Underflows(c, Shrunk(f, k), 0)
    ensures |Shrunk(f, k).keys| >= MIN_KEYS ==> Good(Shrunk(f, k), 0, Lo(c))
  {
  }

  lemma RemoveAtRefines(c: Ctx, f: Tree, k: Key)
    requires GoodCtx(c, 0) && f.Leaf? && Good(f, 0, Lo(c)) && Ordered(Around(c, f)) && LeftOf(Pre(c), k)
    requires RightOf(Post(c), k)
    ensures var (r, v) := RemoveAt(c, f, k);
            && ProperOrEmpty(r) && Left(r) == Entries(Around(c, f)) - {k}
            && v == if k in Entries(Around(c, f)) then Some(Entries(Around(c, f))[k]) else None
  {
    hide Ordered, Entries, Around, Shrunk, Repair, RaiseSep;
    GoodIsShaped(c, 0);
    if !HasKey(f, k) {
      AbsentFromWalk(c, f, k);
      Stops(c, f, c, f, 0);
    } else {
      var g := Shrunk(f, k);
      ShrunkWalk(c, f, k);
      ShrunkGood(c, f, k);
      if |g.keys| < MIN_KEYS {
        RepairRestores(c, g, 0);
      } else if LowerBound(f.keys, k) == 0 {
        ShrunkLength(f, k);
        RaisedWalk(c, f, k, 0);
        RaisedGood(c, g.keys[0], 0);
        Stops(c, g, RaiseSep(c, g.keys[0]), g, 0);
      } else {
        Stops(c, g, c, g, 0);
      }
    }
  }

  lemma ShrunkLength(f: Tree, k: Key)
    requires HasKey(f, k)
    ensures |Shrunk(f, k).keys| == |f.keys| - 1
  {
  }

  /** As long as every page can hold what is written to it, remove is map deletion on every proper tree and returns what
      was stored. */
  lemma RemovedIsDeletion(t: Tree, k: Key)
    requires Proper(t)
    ensures var (r, v) := Removed(t, k);
            && ProperOrEmpty(r) && Left(r) == Contents(t) - {k}
            && v == if k in Contents(t) then Some(Contents(t)[k]) else None
  {
    hide Ordered, Entries, Walk, RemoveAt;
    var h :| Good(t, h, 1);
    NoSides(k);
    FindReaches(Top, t, k, h);
    var (c, f) := Find(Top, t, k);
    GoodIsShaped(c, 0);
    PlugWalk(c, f);
    RemoveAtRefines(c, f, k);
  }

  lemma NoSides(k: Key)
    ensures LeftOf([], k) && RightOf([], k)
  {
  }
}
