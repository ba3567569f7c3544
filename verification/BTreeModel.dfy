/** B+ trees as values, seen whole or as a subtree in its surroundings. */
module BTreeModel {
  import opened Sequences
  import opened Walks

  const MAX_KEYS := 199
  const MIN_KEYS := 99

  /** An internal node with n separators has n + 1 children. */
  datatype Tree =
    | Leaf(page: nat, keys: seq<Key>, vals: seq<Value>)
    | Node(page: nat, keys: seq<Key>, kids: seq<Tree>)

  /** A tree with one subtree cut out; `left` and `right` are the cut subtree's siblings, nearest ones innermost. */
  datatype Ctx =
    | Top
    | Below(up: Ctx, page: nat, keysL: seq<Key>, left: seq<Tree>, keysR: seq<Key>, right: seq<Tree>)

  // ---------------------------------------------------------------- the walk

  function Zip(keys: seq<Key>, vals: seq<Value>): seq<Item> {
    seq(if |keys| <= |vals| then |keys| else |vals|, i requires 0 <= i < |keys| && i < |vals| => K(keys[i], vals[i]))
  }

  /** Each subtree followed by the separator to its right. */
  function WalkLeft(kids: seq<Tree>, keys: seq<Key>): seq<Item>
    decreases kids
  {
    if kids == [] || |kids| != |keys| then []
    else WalkLeft(Front(kids), Front(keys)) + Walk(Last(kids)) + [S(Last(keys))]
  }

  /** Each subtree preceded by the separator to its left. */
  function WalkRight(keys: seq<Key>, kids: seq<Tree>): seq<Item>
    decreases kids
  {
    if kids == [] || |kids| != |keys| then []
    else [S(keys[0])] + Walk(kids[0]) + WalkRight(keys[1..], kids[1..])
  }

  function Walk(t: Tree): seq<Item>
    decreases t
  {
    match t
    case Leaf(_, keys, vals) => Zip(keys, vals)
    case Node(_, keys, kids) => if |kids| != |keys| + 1 then [] else WalkLeft(Front(kids), keys) + Walk(Last(kids))
  }

  function Contents(t: Tree): map<Key, Value> {
    Entries(Walk(t))
  }

  function Pre(c: Ctx): seq<Item> {
    if c.Top? then [] else Pre(c.up) + WalkLeft(c.left, c.keysL)
  }

  function Post(c: Ctx): seq<Item> {
    if c.Top? then [] else WalkRight(c.keysR, c.right) + Post(c.up)
  }

  function Rebuilt(c: Ctx, f: Tree): Tree
    requires c.Below?
  {
    Node(c.page, c.keysL + c.keysR, c.left + [f] + c.right)
  }

  function Plug(c: Ctx, f: Tree): Tree {
    if c.Top? then f else Plug(c.up, Rebuilt(c, f))
  }

  // ---------------------------------------------------------------- shape

  /** Height h, every non-root node within its limits, and at least lo keys at the top. */
  ghost predicate Good(t: Tree, h: nat, lo: nat)
    decreases t
  {
    && lo <= |t.keys| <= MAX_KEYS
    && match t
       case Leaf(_, keys, vals) => h == 0 && |vals| == |keys|
       case Node(_, keys, kids) =>
         h > 0 && |kids| == |keys| + 1 && (forall i :: 0 <= i < |kids| ==> Good(kids[i], h - 1, MIN_KEYS))
  }

  ghost predicate AllGood(kids: seq<Tree>, h: nat) {
    forall i :: 0 <= i < |kids| ==> Good(kids[i], h, MIN_KEYS)
  }

  /** The least number of keys the node in this place may have. */
  function Lo(c: Ctx): nat {
    if c.Top? then 1 else MIN_KEYS
  }

  /** Surroundings fit for a subtree of height h. */
  ghost predicate GoodCtx(c: Ctx, h: nat) {
    c.Below? ==>
      && |c.left| == |c.keysL| && |c.right| == |c.keysR|
      && Lo(c.up) <= |c.keysL| + |c.keysR| <= MAX_KEYS
      && AllGood(c.left, h) && AllGood(c.right, h)
      && GoodCtx(c.up, h + 1)
  }

  function Depth(c: Ctx): nat {
    if c.Top? then 0 else 1 + Depth(c.up)
  }

  /** A whole tree: balanced, filled within limits, ordered. */
  ghost predicate Proper(t: Tree) {
    (exists h :: Good(t, h, 1)) && Ordered(Walk(t))
  }

  // ---------------------------------------------------------------- the walk of a plugged tree

  lemma {:induction false} LeftConcat(a: seq<Tree>, x: seq<Key>, b: seq<Tree>, y: seq<Key>)
    requires |a| == |x| && |b| == |y|
    ensures WalkLeft(a + b, x + y) == WalkLeft(a, x) + WalkLeft(b, y)
    decreases |b|
  {
    hide WalkLeft, Walk;
    if b == [] {
      NoWalk();
      assert a + b == a && x + y == x && WalkLeft(a, x) + [] == WalkLeft(a, x);
    } else {
      LeftStep(a + b, x + y);
      LeftStep(b, y);
      LeftConcat(a, x, Front(b), Front(y));
      assert Front(a + b) == a + Front(b) && Front(x + y) == x + Front(y);
      Stack(WalkLeft(a, x), WalkLeft(Front(b), Front(y)), Walk(Last(b)), [S(Last(y))]);
    }
  }

  lemma Stack(a: seq<Item>, b: seq<Item>, c: seq<Item>, d: seq<Item>)
    ensures (a + b) + c + d == a + (b + c + d)
    ensures a + b + (c + d) == (a + b + c) + d
  {
  }

  lemma LeftStep(kids: seq<Tree>, keys: seq<Key>)
    requires |kids| == |keys| > 0
    ensures WalkLeft(kids, keys) == WalkLeft(Front(kids), Front(keys)) + Walk(Last(kids)) + [S(Last(keys))]
  {
  }

  lemma RightStep(keys: seq<Key>, kids: seq<Tree>)
    requires |kids| == |keys| > 0
    ensures WalkRight(keys, kids) == [S(keys[0])] + Walk(kids[0]) + WalkRight(keys[1..], kids[1..])
  {
  }

  lemma {:induction false} RightConcat(x: seq<Key>, a: seq<Tree>, y: seq<Key>, b: seq<Tree>)
    requires |a| == |x| && |b| == |y|
    ensures WalkRight(x + y, a + b) == WalkRight(x, a) + WalkRight(y, b)
    decreases |a|
  {
    hide WalkRight, Walk;
    if a == [] {
      NoWalk();
      assert a + b == b && x + y == y && [] + WalkRight(y, b) == WalkRight(y, b);
    } else {
      RightStep(x + y, a + b);
      RightStep(x, a);
      RightConcat(x[1..], a[1..], y, b);
      assert (a + b)[1..] == a[1..] + b && (x + y)[1..] == x[1..] + y;
      Stack([S(x[0])], Walk(a[0]), WalkRight(x[1..], a[1..]), WalkRight(y, b));
    }
  }

  lemma LeftOne(t: Tree, s: Key)
    ensures WalkLeft([t], [s]) == Walk(t) + [S(s)]
  {
    assert Front([t]) == [] && Front([s]) == [];
    assert [] + Walk(t) == Walk(t);
  }

  lemma RightOne(s: Key, t: Tree)
    ensures WalkRight([s], [t]) == [S(s)] + Walk(t)
  {
    assert [s][1..] == [] && [t][1..] == [];
    assert [S(s)] + Walk(t) + [] == [S(s)] + Walk(t);
  }

  lemma Regroup(a: seq<Item>, b: seq<Item>, c: seq<Item>, d: seq<Item>, e: seq<Item>)
    ensures a + (b + c + d) + e == (a + b) + c + (d + e)
    ensures a + b + (c + d) == a + (b + c) + d == a + b + c + d
  {
  }

  lemma Assoc(a: seq<Item>, b: seq<Item>, c: seq<Item>)
    ensures a + (b + c) == a + b + c
  {
  }

  /** Moving the seam: a subtree and the separators around it belong to either side. */
  lemma {:induction false} Seam(kids: seq<Tree>, keys: seq<Key>, last: Tree)
    requires |kids| == |keys| && kids != []
    ensures WalkLeft(kids, keys) + Walk(last) == Walk(kids[0]) + WalkRight(keys, kids[1..] + [last])
    decreases |kids|
  {
    hide WalkLeft, WalkRight, Walk;
    var rest, restKeys, after := kids[1..], keys[1..], kids[1..] + [last];
    assert kids == [kids[0]] + rest && keys == [keys[0]] + restKeys;
    LeftConcat([kids[0]], [keys[0]], rest, restKeys);
    LeftOne(kids[0], keys[0]);
    assert after == [after[0]] + after[1..];
    RightConcat([keys[0]], [after[0]], restKeys, after[1..]);
    RightOne(keys[0], after[0]);
    if rest == [] {
      NoWalk();
      assert after == [last] && after[1..] == [] && restKeys == [];
      Regroup(Walk(kids[0]), [S(keys[0])], [], Walk(last), []);
    } else {
      Seam(rest, restKeys, last);
      assert after[0] == rest[0] && after[1..] == rest[1..] + [last];
      var w := WalkRight(restKeys, after[1..]);
      Regroup(Walk(kids[0]), [S(keys[0])], WalkLeft(rest, restKeys), Walk(last), []);
      Regroup(Walk(kids[0]), [S(keys[0])], Walk(after[0]), w, []);
    }
  }

  lemma NoWalk()
    ensures WalkLeft([], []) == [] && WalkRight([], []) == []
  {
  }

  lemma NodeWalk(t: Tree)
    requires t.Node? && |t.kids| == |t.keys| + 1
    ensures Walk(t) == WalkLeft(Front(t.kids), t.keys) + Walk(Last(t.kids))
  {
  }

  /** The walk of a node around any one of its children. */
  lemma RebuiltWalk(c: Ctx, f: Tree)
    requires c.Below? && |c.left| == |c.keysL| && |c.right| == |c.keysR|
    ensures Walk(Rebuilt(c, f)) == WalkLeft(c.left, c.keysL) + Walk(f) + WalkRight(c.keysR, c.right)
  {
    hide WalkLeft, WalkRight, Walk;
    var kids, keys := c.left + [f] + c.right, c.keysL + c.keysR;
    NodeWalk(Rebuilt(c, f));
    var l := WalkLeft(c.left, c.keysL);
    if c.right == [] {
      NoWalk();
      assert keys == c.keysL && Front(kids) == c.left;
      assert l + Walk(f) + [] == l + Walk(f);
    } else {
      var inner := [f] + Front(c.right);
      assert Front(kids) == c.left + inner && Last(kids) == Last(c.right);
      LeftConcat(c.left, c.keysL, inner, c.keysR);
      Seam(inner, c.keysR, Last(c.right));
      assert inner[1..] + [Last(c.right)] == c.right;
      assert inner[0] == f;
      Assoc(l, WalkLeft(inner, c.keysR), Walk(Last(c.right)));
      Assoc(l, Walk(f), WalkRight(c.keysR, c.right));
    }
  }

  ghost predicate Shaped(c: Ctx) {
    c.Below? ==> |c.left| == |c.keysL| && |c.right| == |c.keysR| && Shaped(c.up)
  }

  lemma {:induction false} GoodIsShaped(c: Ctx, h: nat)
    requires GoodCtx(c, h)
    ensures Shaped(c)
  {
    if c.Below? { GoodIsShaped(c.up, h + 1); }
  }

  lemma {:induction false} PlugWalk(c: Ctx, f: Tree)
    requires Shaped(c)
    ensures Walk(Plug(c, f)) == Pre(c) + Walk(f) + Post(c)
  {
    hide WalkLeft, WalkRight, Walk;
    if c.Top? {
      assert [] + Walk(f) + [] == Walk(f);
    } else {
      PlugWalk(c.up, Rebuilt(c, f));
      RebuiltWalk(c, f);
      Regroup(Pre(c.up), WalkLeft(c.left, c.keysL), Walk(f), WalkRight(c.keysR, c.right), Post(c.up));
    }
  }

  lemma RebuiltGood(c: Ctx, f: Tree, h: nat, lo: nat)
    requires c.Below? && |c.left| == |c.keysL| && |c.right| == |c.keysR| && AllGood(c.left, h) && AllGood(c.right, h)
    requires Good(f, h, MIN_KEYS) && lo <= |c.keysL| + |c.keysR| <= MAX_KEYS
    ensures Good(Rebuilt(c, f), h + 1, lo)
  {
    var kids := c.left + [f] + c.right;
    forall i | 0 <= i < |kids| ensures Good(kids[i], h, MIN_KEYS) {
      if i < |c.left| {
        assert kids[i] == c.left[i];
      } else if i > |c.left| {
        assert kids[i] == c.right[i - |c.left| - 1];
      }
    }
  }

  lemma {:induction false} PlugGood(c: Ctx, f: Tree, h: nat)
    requires GoodCtx(c, h) && Good(f, h, Lo(c))
    ensures Good(Plug(c, f), h + Depth(c), 1)
  {
    if c.Below? {
      RebuiltGood(c, f, h, Lo(c.up));
      PlugGood(c.up, Rebuilt(c, f), h + 1);
    }
  }

  // ---------------------------------------------------------------- descending

  /** The number of leading keys below k: the index that a lower-bound search returns on sorted keys. */
  function LowerBound(keys: seq<Key>, k: Key): nat {
    if keys == [] || keys[0] >= k then 0 else 1 + LowerBound(keys[1..], k)
  }

  /** The child to descend into: a key equal to a separator lives to its right. */
  function Route(keys: seq<Key>, k: Key): nat {
    var i := LowerBound(keys, k);
    if i < |keys| && keys[i] == k then i + 1 else i
  }

  ghost predicate Sorted(keys: seq<Key>) {
    forall i, j :: 0 <= i < j < |keys| ==> keys[i] < keys[j]
  }

  lemma {:induction false} LowerBoundIs(keys: seq<Key>, k: Key)
    ensures LowerBound(keys, k) <= |keys|
    ensures forall i :: 0 <= i < LowerBound(keys, k) ==> keys[i] < k
    ensures LowerBound(keys, k) < |keys| ==> keys[LowerBound(keys, k)] >= k
  {
    if keys != [] && keys[0] < k {
      LowerBoundIs(keys[1..], k);
      forall i | 0 <= i < LowerBound(keys, k) ensures keys[i] < k {
        if i > 0 { assert keys[i] == keys[1..][i - 1]; }
      }
    }
  }

  lemma RouteIs(keys: seq<Key>, k: Key)
    requires Sorted(keys)
    ensures Route(keys, k) <= |keys|
    ensures forall i :: 0 <= i < Route(keys, k) ==> keys[i] <= k
    ensures forall i :: Route(keys, k) <= i < |keys| ==> keys[i] > k
  {
    LowerBoundIs(keys, k);
  }

  /** The surroundings of child i of a node that sits at c. */
  function Into(c: Ctx, t: Tree, i: nat): Ctx
    requires t.Node? && |t.kids| == |t.keys| + 1 && i <= |t.keys|
  {
    Below(c, t.page, t.keys[..i], t.kids[..i], t.keys[i..], t.kids[i + 1..])
  }

  /** The leaf where k belongs, with its surroundings. */
  function Find(c: Ctx, t: Tree, k: Key): (Ctx, Tree)
    decreases t
  {
    if t.Node? && |t.kids| == |t.keys| + 1 && Route(t.keys, k) <= |t.keys|
    then Find(Into(c, t, Route(t.keys, k)), t.kids[Route(t.keys, k)], k)
    else (c, t)
  }

  lemma IntoPlugs(c: Ctx, t: Tree, i: nat)
    requires t.Node? && |t.kids| == |t.keys| + 1 && i <= |t.keys|
    ensures Rebuilt(Into(c, t, i), t.kids[i]) == t
    ensures Plug(Into(c, t, i), t.kids[i]) == Plug(c, t)
  {
    assert t.keys[..i] + t.keys[i..] == t.keys;
    assert t.kids[..i] + [t.kids[i]] + t.kids[i + 1..] == t.kids;
  }

  lemma IntoGood(c: Ctx, t: Tree, i: nat, h: nat)
    requires GoodCtx(c, h) && Good(t, h, Lo(c)) && t.Node? && i <= |t.keys|
    ensures h > 0 && GoodCtx(Into(c, t, i), h - 1) && Good(t.kids[i], h - 1, MIN_KEYS)
  {
    var b := Into(c, t, i);
    assert forall j :: 0 <= j < |b.left| ==> b.left[j] == t.kids[j];
    assert forall j :: 0 <= j < |b.right| ==> b.right[j] == t.kids[i + 1 + j];
  }

  lemma {:induction false} SepIn(kids: seq<Tree>, keys: seq<Key>, i: nat)
    requires |kids| == |keys| && i < |keys|
    ensures S(keys[i]) in WalkLeft(kids, keys)
    decreases |kids|
  {
    if i < |keys| - 1 {
      SepIn(Front(kids), Front(keys), i);
    } else {
      assert S(Last(keys)) in [S(Last(keys))];
    }
  }

  lemma {:induction false} LeftSorted(kids: seq<Tree>, keys: seq<Key>)
    requires |kids| == |keys| && Ordered(WalkLeft(kids, keys))
    ensures Sorted(keys)
    decreases |kids|
  {
    if kids != [] {
      var a, s := WalkLeft(Front(kids), Front(keys)), [S(Last(keys))];
      OrderedThree(a, Walk(Last(kids)), s);
      LeftSorted(Front(kids), Front(keys));
      forall i | 0 <= i < |keys| - 1 ensures keys[i] < Last(keys) {
        SepIn(Front(kids), Front(keys), i);
        var j :| 0 <= j < |a| && a[j] == S(keys[i]);
        assert Before(a[j], s[0]);
      }
    }
  }

  lemma NodeSorted(t: Tree)
    requires t.Node? && |t.kids| == |t.keys| + 1 && Ordered(Walk(t))
    ensures Sorted(t.keys)
  {
    OrderedSplit(WalkLeft(Front(t.kids), t.keys), Walk(Last(t.kids)));
    LeftSorted(Front(t.kids), t.keys);
  }

  /** Everything up to a separator that is at most k lies left of k. */
  lemma LeftSide(kids: seq<Tree>, keys: seq<Key>, k: Key)
    requires |kids| == |keys| && Ordered(WalkLeft(kids, keys)) && (keys != [] ==> Last(keys) <= k)
    ensures LeftOf(WalkLeft(kids, keys), k)
  {
    if keys != [] {
      var x, s := WalkLeft(Front(kids), Front(keys)) + Walk(Last(kids)), Last(keys);
      OrderedSplit(x, [S(s)]);
      SidesOfSep(x, s, k);
      SidesConcat(x, [S(s)], k);
    }
  }

  lemma RightSide(keys: seq<Key>, kids: seq<Tree>, k: Key)
    requires |kids| == |keys| && Ordered(WalkRight(keys, kids)) && (keys != [] ==> k < keys[0])
    ensures RightOf(WalkRight(keys, kids), k)
  {
    if keys != [] {
      var s, x := keys[0], Walk(kids[0]) + WalkRight(keys[1..], kids[1..]);
      assert WalkRight(keys, kids) == [S(s)] + x;
      OrderedSplit([S(s)], x);
      SidesOfSep(x, s, k);
      SidesConcat([S(s)], x, k);
    }
  }

  /** Siblings left of the routed child lie left of k, siblings right of it lie right of k. */
  lemma RouteSides(c: Ctx, t: Tree, k: Key)
    requires t.Node? && |t.kids| == |t.keys| + 1 && Ordered(Walk(t))
    ensures Route(t.keys, k) <= |t.keys|
    ensures var b := Into(c, t, Route(t.keys, k));
            && LeftOf(WalkLeft(b.left, b.keysL), k) && RightOf(WalkRight(b.keysR, b.right), k)
            && Ordered(Walk(t.kids[Route(t.keys, k)]))
  {
    hide WalkLeft, WalkRight, Walk, Route, Ordered;
    NodeSorted(t);
    RouteIs(t.keys, k);
    var i := Route(t.keys, k);
    var b := Into(c, t, i);
    IntoPlugs(c, t, i);
    RebuiltWalk(b, t.kids[i]);
    OrderedThree(WalkLeft(b.left, b.keysL), Walk(t.kids[i]), WalkRight(b.keysR, b.right));
    LeftSide(b.left, b.keysL, k);
    RightSide(b.keysR, b.right, k);
  }

  /** The descent reaches a leaf, loses nothing on the way, and everything outside the leaf is on its side of k. */
  lemma {:induction false} FindReaches(c: Ctx, t: Tree, k: Key, h: nat)
    requires GoodCtx(c, h) && Good(t, h, Lo(c)) && Ordered(Walk(t)) && LeftOf(Pre(c), k) && RightOf(Post(c), k)
    ensures var (d, f) := Find(c, t, k);
            && f.Leaf? && Plug(d, f) == Plug(c, t)
            && GoodCtx(d, 0) && Good(f, 0, Lo(d))
            && LeftOf(Pre(d), k) && RightOf(Post(d), k)
    decreases t
  {
    hide Walk, WalkLeft, WalkRight, Ordered, LeftOf, RightOf, Route, Plug;
    if t.Node? {
      RouteSides(c, t, k);
      var i := Route(t.keys, k);
      var b := Into(c, t, i);
      IntoPlugs(c, t, i);
      IntoGood(c, t, i, h);
      SidesConcat(Pre(c), WalkLeft(b.left, b.keysL), k);
      SidesConcat(WalkRight(b.keysR, b.right), Post(c), k);
      FindReaches(b, t.kids[i], k, h - 1);
    }
  }
}
