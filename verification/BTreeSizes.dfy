/** The pages a tree operation writes, their sizes in bytes, and what becomes of the tree when a page does not fit. */
module BTreeSizes {
  import opened Sequences
  import opened Options
  import opened Walks
  import opened BTreeModel
  import opened BTreeRemove
  import opened BTreeInsert

  /** The number of bytes in the encoding of a key. */
  type Sizes = Key -> nat

  const PAGE_BYTES: nat := 4072
  const LEAF_HEAD: nat := 7
  const INNER_HEAD: nat := 11

  /** Directory entries and cells of a leaf: two bytes and six bytes around key and value. */
  function LeafCells(size: Sizes, keys: seq<Key>, vals: seq<Value>): nat
    requires |vals| == |keys|
  {
    if keys == [] then 0 else LeafCells(size, Front(keys), Front(vals)) + 8 + size(Last(keys)) + |Last(vals)|
  }

  /** Directory entries and cells of an internal page: two bytes and seven bytes around the separator. */
  function InnerCells(size: Sizes, keys: seq<Key>): nat {
    if keys == [] then 0 else InnerCells(size, Front(keys)) + 9 + size(Last(keys))
  }

  predicate LeafFits(size: Sizes, keys: seq<Key>, vals: seq<Value>) {
    |vals| == |keys| && LEAF_HEAD + LeafCells(size, keys, vals) <= PAGE_BYTES
  }

  predicate InnerFits(size: Sizes, keys: seq<Key>) {
    INNER_HEAD + InnerCells(size, keys) <= PAGE_BYTES
  }

  lemma {:induction false} LeafCellsConcat(size: Sizes, a: seq<Key>, x: seq<Value>, b: seq<Key>, y: seq<Value>)
    requires |x| == |a| && |y| == |b|
    ensures LeafCells(size, a + b, x + y) == LeafCells(size, a, x) + LeafCells(size, b, y)
    decreases |b|
  {
    if b == [] {
      assert a + b == a && x + y == x;
    } else {
      assert Front(a + b) == a + Front(b) && Front(x + y) == x + Front(y);
      LeafCellsConcat(size, a, x, Front(b), Front(y));
    }
  }

  lemma {:induction false} InnerCellsConcat(size: Sizes, a: seq<Key>, b: seq<Key>)
    ensures InnerCells(size, a + b) == InnerCells(size, a) + InnerCells(size, b)
    decreases |b|
  {
    if b == [] {
      assert a + b == a;
    } else {
      assert Front(a + b) == a + Front(b);
      InnerCellsConcat(size, a, Front(b));
    }
  }

  // ---------------------------------------------------------------- rules about single nodes

  /** A condition on the contents of one page. */
  datatype Rule = Rule(leaf: (seq<Key>, seq<Value>) -> bool, inner: seq<Key> -> bool)

  function FITTING(size: Sizes): Rule {
    Rule((keys, vals) => LeafFits(size, keys, vals), keys => InnerFits(size, keys))
  }

  predicate NodeOk(rule: Rule, t: Tree) {
    match t
    case Leaf(_, keys, vals) => rule.leaf(keys, vals)
    case Node(_, keys, _) => rule.inner(keys)
  }

  ghost predicate TreeOk(rule: Rule, t: Tree)
    decreases t
  {
    NodeOk(rule, t) && (t.Node? ==> forall i :: 0 <= i < |t.kids| ==> TreeOk(rule, t.kids[i]))
  }

  ghost predicate AllOk(rule: Rule, ts: seq<Tree>) {
    forall i :: 0 <= i < |ts| ==> TreeOk(rule, ts[i])
  }

  ghost predicate CtxOk(rule: Rule, c: Ctx) {
    c.Below? ==> rule.inner(c.keysL + c.keysR) && AllOk(rule, c.left) && AllOk(rule, c.right) && CtxOk(rule, c.up)
  }

  predicate WritesOk(rule: Rule, ts: seq<Tree>) {
    forall i :: 0 <= i < |ts| ==> NodeOk(rule, ts[i])
  }

  lemma AllOkConcat(rule: Rule, a: seq<Tree>, b: seq<Tree>)
    ensures AllOk(rule, a + b) <==> AllOk(rule, a) && AllOk(rule, b)
  {
    hide TreeOk;
    forall i | 0 <= i < |a| ensures (a + b)[i] == a[i] {}
    forall i | 0 <= i < |b| ensures (a + b)[|a| + i] == b[i] {}
  }

  lemma AllOkOne(rule: Rule, t: Tree)
    ensures AllOk(rule, [t]) <==> TreeOk(rule, t)
  {
    hide TreeOk;
    assert [t][0] == t;
  }

  lemma NodeTree(rule: Rule, p: nat, keys: seq<Key>, kids: seq<Tree>)
    ensures TreeOk(rule, Node(p, keys, kids)) <==> rule.inner(keys) && AllOk(rule, kids)
  {
  }

  lemma RebuiltOk(rule: Rule, c: Ctx, f: Tree)
    requires c.Below?
    ensures TreeOk(rule, Rebuilt(c, f)) <==>
              rule.inner(c.keysL + c.keysR) && AllOk(rule, c.left) && AllOk(rule, c.right) && TreeOk(rule, f)
  {
    hide TreeOk, AllOk;
    NodeTree(rule, c.page, c.keysL + c.keysR, c.left + [f] + c.right);
    AllOkConcat(rule, c.left + [f], c.right);
    AllOkConcat(rule, c.left, [f]);
    AllOkOne(rule, f);
  }

  lemma {:induction false} PlugOk(rule: Rule, c: Ctx, f: Tree)
    ensures TreeOk(rule, Plug(c, f)) <==> CtxOk(rule, c) && TreeOk(rule, f)
  {
    hide TreeOk, AllOk;
    if c.Below? {
      RebuiltOk(rule, c, f);
      PlugOk(rule, c.up, Rebuilt(c, f));
    }
  }

  lemma IntoOk(rule: Rule, c: Ctx, t: Tree, i: nat)
    requires CtxOk(rule, c) && TreeOk(rule, t) && t.Node? && |t.kids| == |t.keys| + 1 && i <= |t.keys|
    ensures CtxOk(rule, Into(c, t, i)) && TreeOk(rule, t.kids[i])
  {
    assert t.keys[..i] + t.keys[i..] == t.keys;
    assert t.kids[..i] + t.kids[i..] == t.kids && [t.kids[i]] + t.kids[i + 1..] == t.kids[i..];
    AllOkConcat(rule, t.kids[..i], t.kids[i..]);
    AllOkConcat(rule, [t.kids[i]], t.kids[i + 1..]);
  }

  /** Going down to the leaf keeps the rule in the surroundings and in the leaf. */
  lemma {:induction false} FindOk(rule: Rule, c: Ctx, t: Tree, k: Key)
    requires CtxOk(rule, c) && TreeOk(rule, t)
    ensures CtxOk(rule, Find(c, t, k).0) && TreeOk(rule, Find(c, t, k).1)
    decreases t
  {
    if t.Node? && |t.kids| == |t.keys| + 1 && Route(t.keys, k) <= |t.keys| {
      var i := Route(t.keys, k);
      IntoOk(rule, c, t, i);
      FindOk(rule, Into(c, t, i), t.kids[i], k);
    }
  }

  // ---------------------------------------------------------------- the pages that are written

  /** The nodes an underflow repair writes, level by level. */
  function RepairWrites(c: Ctx, f: Tree): seq<Tree>
    decreases c
  {
    if c.Top? || !Repairable(c, f) then []
    else if c.right != [] && CanLend(c.right[0]) then var (d, g) := BorrowRight(c, f); [g, d.right[0], Rebuilt(d, g)]
    else if c.left != [] && CanLend(Last(c.left)) then var (d, g) := BorrowLeft(c, f); [g, Last(d.left), Rebuilt(d, g)]
    else
      var (d, g) := if c.right != [] then MergeRight(c, f) else MergeLeft(c, f);
      var parent := Rebuilt(d, g);
      [g, parent] + if |parent.keys| < MIN_KEYS then RepairWrites(c.up, parent) else []
  }

  /** The node whose separator is renamed, if there is one. */
  function RaiseWrites(c: Ctx, f: Tree, m: Key): seq<Tree> {
    if c.Top? then []
    else if c.left != [] && c.keysL != [] then [Rebuilt(RaiseSep(c, m), f)]
    else RaiseWrites(c.up, Rebuilt(c, f), m)
  }

  function RemoveWrites(c: Ctx, f: Tree, k: Key): seq<Tree> {
    if !HasKey(f, k) then []
    else
      var g := Shrunk(f, k);
      [g] + if |g.keys| < MIN_KEYS then RepairWrites(c, g)
            else if LowerBound(f.keys, k) == 0 then RaiseWrites(c, g, g.keys[0])
            else []
  }

  /** The parent with the new separator and the right half. */
  function Widened(c: Ctx, l: Tree, r: Tree): Tree
    requires c.Below? && r.keys != []
  {
    Rebuilt(c.(keysR := [r.keys[0]] + c.keysR, right := [r] + c.right), l)
  }

  /** The overfull leaf is written before it splits. */
  function InsertWrites(c: Ctx, f: Tree, k: Key, v: Value, leafPage: nat, rootPage: nat): seq<Tree>
    requires f.Leaf? && |f.vals| == |f.keys| && LowerBound(f.keys, k) <= |f.keys|
  {
    var g := Grown(f, k, v);
    if |g.keys| <= MAX_KEYS then [g]
    else
      var l, r := LowerHalf(g), UpperHalf(g, leafPage);
      [g, l, r] + [if c.Top? then Node(rootPage, [r.keys[0]], [l, r]) else Widened(c, l, r)]
  }

  // ---------------------------------------------------------------- the rule holds where it is kept

  lemma BorrowRightOk(rule: Rule, c: Ctx, f: Tree)
    requires HasRight(c) && Alike(f, c.right[0]) && CanLend(c.right[0]) && CtxOk(rule, c) && TreeOk(rule, f)
    requires var (d, g) := BorrowRight(c, f); WritesOk(rule, [g, d.right[0], Rebuilt(d, g)])
    ensures var (d, g) := BorrowRight(c, f); CtxOk(rule, d) && TreeOk(rule, g)
  {
    var (d, g) := BorrowRight(c, f);
    var r := c.right[0];
    var ws := [g, d.right[0], Rebuilt(d, g)];
    assert NodeOk(rule, ws[0]) && NodeOk(rule, ws[1]) && NodeOk(rule, ws[2]);
    assert TreeOk(rule, r);
    assert forall i :: 0 <= i < |c.right| - 1 ==> c.right[1..][i] == c.right[i + 1];
    if f.Node? {
      AllOkConcat(rule, f.kids, [r.kids[0]]);
      NodeTree(rule, g.page, g.keys, g.kids);
      assert forall i :: 0 <= i < |r.kids| - 1 ==> r.kids[1..][i] == r.kids[i + 1];
      NodeTree(rule, r.page, d.right[0].keys, r.kids[1..]);
    }
    AllOkConcat(rule, [d.right[0]], c.right[1..]);
  }

  lemma BorrowLeftOk(rule: Rule, c: Ctx, f: Tree)
    requires HasLeft(c) && Alike(f, Last(c.left)) && CanLend(Last(c.left)) && CtxOk(rule, c) && TreeOk(rule, f)
    requires var (d, g) := BorrowLeft(c, f); WritesOk(rule, [g, Last(d.left), Rebuilt(d, g)])
    ensures var (d, g) := BorrowLeft(c, f); CtxOk(rule, d) && TreeOk(rule, g)
  {
    var (d, g) := BorrowLeft(c, f);
    var l := Last(c.left);
    var ws := [g, Last(d.left), Rebuilt(d, g)];
    assert NodeOk(rule, ws[0]) && NodeOk(rule, ws[1]) && NodeOk(rule, ws[2]);
    assert TreeOk(rule, l);
    if f.Node? {
      AllOkConcat(rule, [Last(l.kids)], f.kids);
      NodeTree(rule, g.page, g.keys, g.kids);
      NodeTree(rule, l.page, Last(d.left).keys, Front(l.kids));
    }
    AllOkConcat(rule, Front(c.left), [Last(d.left)]);
  }

  lemma MergedOk(rule: Rule, c: Ctx, f: Tree)
    requires c.Below? && Repairable(c, f) && CtxOk(rule, c) && TreeOk(rule, f)
    requires var (d, g) := if c.right != [] then MergeRight(c, f) else MergeLeft(c, f);
             NodeOk(rule, g) && NodeOk(rule, Rebuilt(d, g))
    ensures var (d, g) := if c.right != [] then MergeRight(c, f) else MergeLeft(c, f); TreeOk(rule, Rebuilt(d, g))
  {
    var (d, g) := if c.right != [] then MergeRight(c, f) else MergeLeft(c, f);
    var sib := if c.right != [] then c.right[0] else Last(c.left);
    assert TreeOk(rule, sib);
    if f.Node? {
      AllOkConcat(rule, f.kids, sib.kids);
      AllOkConcat(rule, sib.kids, f.kids);
      NodeTree(rule, g.page, g.keys, g.kids);
    }
    if c.right != [] { assert forall i :: 0 <= i < |c.right| - 1 ==> c.right[1..][i] == c.right[i + 1]; }
    RebuiltOk(rule, d, g);
  }

  /** If every node a repair writes keeps the rule, the whole repaired tree keeps it. */
  lemma {:induction false} RepairOk(rule: Rule, c: Ctx, f: Tree)
    requires CtxOk(rule, c) && TreeOk(rule, f) && WritesOk(rule, RepairWrites(c, f))
    ensures Repair(c, f).Some? ==> TreeOk(rule, Repair(c, f).value)
    decreases c
  {
    hide TreeOk, AllOk, BorrowRight, BorrowLeft, NodeOk, Fused;
    if c.Top? {
      assert f.Node? && |f.kids| > 0 ==> TreeOk(rule, f.kids[0]) by { FirstKid(rule, f); }
    } else if !Repairable(c, f) {
      PlugOk(rule, c, f);
    } else if c.right != [] && CanLend(c.right[0]) {
      BorrowRightOk(rule, c, f);
      PlugOk(rule, BorrowRight(c, f).0, BorrowRight(c, f).1);
    } else if c.left != [] && CanLend(Last(c.left)) {
      assert Alike(f, Last(c.left));
      BorrowLeftOk(rule, c, f);
      PlugOk(rule, BorrowLeft(c, f).0, BorrowLeft(c, f).1);
    } else {
      var (d, g) := if c.right != [] then MergeRight(c, f) else MergeLeft(c, f);
      var parent := Rebuilt(d, g);
      var ws := RepairWrites(c, f);
      assert ws[0] == g && ws[1] == parent;
      MergedOk(rule, c, f);
      if |parent.keys| < MIN_KEYS {
        assert ws[2..] == RepairWrites(c.up, parent);
        RepairOk(rule, c.up, parent);
      } else {
        PlugOk(rule, c.up, parent);
      }
    }
  }

  lemma FirstKid(rule: Rule, f: Tree)
    requires TreeOk(rule, f)
    ensures f.Node? && |f.kids| > 0 ==> TreeOk(rule, f.kids[0])
  {
  }

  lemma {:induction false} RaiseOk(rule: Rule, c: Ctx, f: Tree, m: Key)
    requires CtxOk(rule, c) && TreeOk(rule, f) && WritesOk(rule, RaiseWrites(c, f, m))
    ensures CtxOk(rule, RaiseSep(c, m))
  {
    hide TreeOk, AllOk;
    if c.Below? {
      if c.left != [] && c.keysL != [] {
        assert NodeOk(rule, RaiseWrites(c, f, m)[0]);
      } else {
        RebuiltOk(rule, c, f);
        RaiseOk(rule, c.up, Rebuilt(c, f), m);
      }
    }
  }

  lemma RemoveOk(rule: Rule, c: Ctx, f: Tree, k: Key)
    requires CtxOk(rule, c) && TreeOk(rule, f) && WritesOk(rule, RemoveWrites(c, f, k))
    ensures RemoveAt(c, f, k).0.Some? ==> TreeOk(rule, RemoveAt(c, f, k).0.value)
  {
    hide TreeOk, Repair, RepairWrites, RaiseWrites, Shrunk, LowerBound;
    if !HasKey(f, k) {
      PlugOk(rule, c, f);
    } else {
      var g := Shrunk(f, k);
      var ws := RemoveWrites(c, f, k);
      assert ws[0] == g && NodeOk(rule, ws[0]);
      assert TreeOk(rule, g) by { ShrunkIsLeaf(f, k); LeafTree(rule, g); }
      if |g.keys| < MIN_KEYS {
        assert ws[1..] == RepairWrites(c, g);
        RepairOk(rule, c, g);
      } else if LowerBound(f.keys, k) == 0 {
        assert ws[1..] == RaiseWrites(c, g, g.keys[0]);
        RaiseOk(rule, c, g, g.keys[0]);
        PlugOk(rule, RaiseSep(c, g.keys[0]), g);
      } else {
        PlugOk(rule, c, g);
      }
    }
  }

  lemma ShrunkIsLeaf(f: Tree, k: Key)
    requires HasKey(f, k)
    ensures Shrunk(f, k).Leaf?
  {
  }

  lemma LeafTree(rule: Rule, t: Tree)
    requires t.Leaf?
    ensures TreeOk(rule, t) <==> NodeOk(rule, t)
  {
  }

  lemma InsertOk(rule: Rule, c: Ctx, f: Tree, k: Key, v: Value, leafPage: nat, rootPage: nat)
    requires f.Leaf? && |f.vals| == |f.keys| && LowerBound(f.keys, k) <= |f.keys|
    requires CtxOk(rule, c) && WritesOk(rule, InsertWrites(c, f, k, v, leafPage, rootPage))
    ensures InsertAt(c, f, k, v, leafPage, rootPage).Some? ==>
            TreeOk(rule, InsertAt(c, f, k, v, leafPage, rootPage).value)
  {
    hide TreeOk, AllOk, LowerBound, Grown;
    GrownIsLeaf(f, k, v);
    var g := Grown(f, k, v);
    var ws := InsertWrites(c, f, k, v, leafPage, rootPage);
    LeafTree(rule, g);
    assert NodeOk(rule, ws[0]);
    if |g.keys| <= MAX_KEYS {
      PlugOk(rule, c, g);
    } else {
      var l, r := LowerHalf(g), UpperHalf(g, leafPage);
      assert NodeOk(rule, ws[1]) && NodeOk(rule, ws[2]) && NodeOk(rule, ws[3]);
      LeafTree(rule, l);
      LeafTree(rule, r);
      if c.Top? {
        NodeTree(rule, rootPage, [r.keys[0]], [l, r]);
        AllOkConcat(rule, [l], [r]);
        AllOkOne(rule, l);
        AllOkOne(rule, r);
        assert [l] + [r] == [l, r];
      } else {
        var d := c.(keysR := [r.keys[0]] + c.keysR, right := [r] + c.right);
        AllOkConcat(rule, [r], c.right);
        AllOkOne(rule, r);
        PlugOk(rule, d, l);
      }
    }
  }

  lemma GrownIsLeaf(f: Tree, k: Key, v: Value)
    requires f.Leaf? && |f.vals| == |f.keys| && LowerBound(f.keys, k) <= |f.keys|
    ensures Grown(f, k, v).Leaf? && |Grown(f, k, v).vals| == |Grown(f, k, v).keys| > 0
    ensures |f.keys| <= |Grown(f, k, v).keys| <= |f.keys| + 1
  {
  }

  // ---------------------------------------------------------------- exactly when every written page fits

  lemma LeafParted(size: Sizes, a: seq<Key>, x: seq<Value>, b: seq<Key>, y: seq<Value>)
    requires |x| == |a| && |y| == |b| && LeafFits(size, a + b, x + y)
    ensures LeafFits(size, a, x) && LeafFits(size, b, y)
  {
    LeafCellsConcat(size, a, x, b, y);
  }

  lemma InnerParted(size: Sizes, a: seq<Key>, b: seq<Key>)
    requires InnerFits(size, a + b)
    ensures InnerFits(size, a) && InnerFits(size, b)
  {
    InnerCellsConcat(size, a, b);
  }

  lemma InnerWithout(size: Sizes, a: seq<Key>, s: Key, b: seq<Key>)
    requires InnerFits(size, a + ([s] + b))
    ensures InnerFits(size, a + b)
  {
    InnerCellsConcat(size, a, [s] + b);
    InnerCellsConcat(size, [s], b);
    InnerCellsConcat(size, a, b);
  }

  /** The leaf with its new entry fits, and if it splits below a parent, so does the parent with the new separator. */
  predicate InsertFits(size: Sizes, c: Ctx, f: Tree, k: Key, v: Value)
    requires f.Leaf? && |f.vals| == |f.keys| && LowerBound(f.keys, k) <= |f.keys|
  {
    var g := Grown(f, k, v);
    && LeafFits(size, g.keys, g.vals)
    && (|g.keys| > MAX_KEYS && c.Below? ==> InnerFits(size, c.keysL + ([g.keys[|g.keys| / 2]] + c.keysR)))
  }

  lemma {:induction false} OneKeyFits(size: Sizes, keys: seq<Key>, vals: seq<Value>, i: nat)
    requires |vals| == |keys| && i < |keys|
    ensures LeafCells(size, keys, vals) >= 8 * |keys| + size(keys[i])
  {
    if i < |keys| - 1 {
      OneKeyFits(size, Front(keys), Front(vals), i);
    } else {
      AtLeastSlots(size, Front(keys), Front(vals));
    }
  }

  lemma {:induction false} AtLeastSlots(size: Sizes, keys: seq<Key>, vals: seq<Value>)
    requires |vals| == |keys|
    ensures LeafCells(size, keys, vals) >= 8 * |keys|
  {
    if keys != [] { AtLeastSlots(size, Front(keys), Front(vals)); }
  }

  /** Both halves of a split leaf fit, and so does what stands above them afterwards. */
  predicate SplitFits(size: Sizes, c: Ctx, g: Tree)
    requires g.Leaf? && |g.vals| == |g.keys| > 0
  {
    var n := |g.keys| / 2;
    && LeafFits(size, g.keys[..n], g.vals[..n]) && LeafFits(size, g.keys[n..], g.vals[n..])
    && InnerFits(size, if c.Top? then [g.keys[n]] else c.keysL + ([g.keys[n]] + c.keysR))
  }

  /** If the overfull leaf fits, the halves and a new root need no test. */
  lemma SplitNeedsParent(size: Sizes, c: Ctx, g: Tree)
    requires g.Leaf? && |g.vals| == |g.keys| > MAX_KEYS && LeafFits(size, g.keys, g.vals)
    ensures SplitFits(size, c, g) <==> (c.Below? ==> InnerFits(size, c.keysL + ([g.keys[|g.keys| / 2]] + c.keysR)))
  {
    hide LeafCells;
    var n := |g.keys| / 2;
    assert g.keys == g.keys[..n] + g.keys[n..] && g.vals == g.vals[..n] + g.vals[n..];
    LeafParted(size, g.keys[..n], g.vals[..n], g.keys[n..], g.vals[n..]);
    OneKeyFits(size, g.keys, g.vals, n);
    OneInner(size, g.keys[n]);
  }

  /** Every page an insertion writes fits exactly under this condition. */
  lemma InsertWritesFit(size: Sizes, c: Ctx, f: Tree, k: Key, v: Value, leafPage: nat, rootPage: nat)
    requires f.Leaf? && |f.vals| == |f.keys| && LowerBound(f.keys, k) <= |f.keys|
    ensures WritesOk(FITTING(size), InsertWrites(c, f, k, v, leafPage, rootPage)) <==> InsertFits(size, c, f, k, v)
  {
    hide LowerBound, Grown, LeafCells, InnerCells;
    GrownIsLeaf(f, k, v);
    var g := Grown(f, k, v);
    var ws := InsertWrites(c, f, k, v, leafPage, rootPage);
    assert ws[0] == g;
    if |g.keys| > MAX_KEYS {
      assert ws[1] == LowerHalf(g) && ws[2] == UpperHalf(g, leafPage);
      assert c.Below? ==> ws[3].keys == c.keysL + ([g.keys[|g.keys| / 2]] + c.keysR);
      assert ws == [ws[0], ws[1]] + [ws[2], ws[3]] && [ws[2], ws[3]] == [ws[2], ws[3]] + [];
      TwoOk(FITTING(size), ws[0], ws[1], [ws[2], ws[3]]);
      TwoOk(FITTING(size), ws[2], ws[3], []);
      assert WritesOk(FITTING(size), ws) <==> LeafFits(size, g.keys, g.vals) && SplitFits(size, c, g);
      if LeafFits(size, g.keys, g.vals) { SplitNeedsParent(size, c, g); }
    }
  }

  lemma OneInner(size: Sizes, s: Key)
    ensures InnerCells(size, [s]) == 9 + size(s)
  {
    assert Front([s]) == [];
  }

  /** On the way up: the node that gains fits, a parent with a changed separator fits, a parent that loses one needs no
      test. */
  predicate RepairFits(size: Sizes, c: Ctx, f: Tree)
    decreases c
  {
    if c.Top? || !Repairable(c, f) then true
    else if c.right != [] && CanLend(c.right[0]) then
      var (d, g) := BorrowRight(c, f);
      NodeOk(FITTING(size), g) && InnerFits(size, d.keysL + d.keysR)
    else if c.left != [] && CanLend(Last(c.left)) then
      var (d, g) := BorrowLeft(c, f);
      NodeOk(FITTING(size), g) && InnerFits(size, d.keysL + d.keysR)
    else
      var (d, g) := if c.right != [] then MergeRight(c, f) else MergeLeft(c, f);
      NodeOk(FITTING(size), g) && (|d.keysL + d.keysR| < MIN_KEYS ==> RepairFits(size, c.up, Rebuilt(d, g)))
  }

  predicate RaiseFits(size: Sizes, c: Ctx, m: Key) {
    if c.Top? then true
    else if c.left != [] && c.keysL != [] then InnerFits(size, Front(c.keysL) + [m] + c.keysR)
    else RaiseFits(size, c.up, m)
  }

  predicate RemoveFits(size: Sizes, c: Ctx, f: Tree, k: Key) {
    HasKey(f, k) ==>
      var g := Shrunk(f, k);
      if |g.keys| < MIN_KEYS then RepairFits(size, c, g)
      else LowerBound(f.keys, k) == 0 ==> RaiseFits(size, c, g.keys[0])
  }

  lemma LenderFits(size: Sizes, c: Ctx, f: Tree)
    requires CtxOk(FITTING(size), c)
    ensures HasRight(c) && Alike(f, c.right[0]) && CanLend(c.right[0]) ==>
            NodeOk(FITTING(size), BorrowRight(c, f).0.right[0])
    ensures HasLeft(c) && Alike(f, Last(c.left)) && CanLend(Last(c.left)) ==>
            NodeOk(FITTING(size), Last(BorrowLeft(c, f).0.left))
  {
    hide LeafCells, InnerCells;
    if HasRight(c) && Alike(f, c.right[0]) && CanLend(c.right[0]) {
      var r := c.right[0];
      assert NodeOk(FITTING(size), r);
      assert r.keys == [r.keys[0]] + r.keys[1..];
      if f.Leaf? {
        assert r.vals == [r.vals[0]] + r.vals[1..];
        LeafParted(size, [r.keys[0]], [r.vals[0]], r.keys[1..], r.vals[1..]);
      } else {
        InnerParted(size, [r.keys[0]], r.keys[1..]);
      }
    }
    if HasLeft(c) && Alike(f, Last(c.left)) && CanLend(Last(c.left)) {
      var l := Last(c.left);
      assert NodeOk(FITTING(size), l);
      assert l.keys == Front(l.keys) + [Last(l.keys)];
      if f.Leaf? {
        assert l.vals == Front(l.vals) + [Last(l.vals)];
        LeafParted(size, Front(l.keys), Front(l.vals), [Last(l.keys)], [Last(l.vals)]);
      } else {
        InnerParted(size, Front(l.keys), [Last(l.keys)]);
      }
    }
  }

  lemma MergedParentFits(size: Sizes, c: Ctx, f: Tree)
    requires c.Below? && Repairable(c, f) && CtxOk(FITTING(size), c)
    ensures var (d, g) := if c.right != [] then MergeRight(c, f) else MergeLeft(c, f);
            InnerFits(size, d.keysL + d.keysR)
  {
    hide InnerCells;
    if c.right != [] {
      assert c.keysR == [c.keysR[0]] + c.keysR[1..];
      InnerWithout(size, c.keysL, c.keysR[0], c.keysR[1..]);
    } else {
      assert c.keysL + c.keysR == Front(c.keysL) + ([Last(c.keysL)] + c.keysR);
      InnerWithout(size, Front(c.keysL), Last(c.keysL), c.keysR);
    }
  }

  lemma {:induction false} RepairWritesFit(size: Sizes, c: Ctx, f: Tree)
    requires CtxOk(FITTING(size), c) && TreeOk(FITTING(size), f)
    ensures WritesOk(FITTING(size), RepairWrites(c, f)) <==> RepairFits(size, c, f)
    decreases c
  {
    hide TreeOk, AllOk, NodeOk, Fused, FITTING;
    var rule := FITTING(size);
    if c.Below? && Repairable(c, f) {
      var ws := RepairWrites(c, f);
      LenderFits(size, c, f);
      if c.right != [] && CanLend(c.right[0]) {
        var (d, g) := BorrowRight(c, f);
        InnerNode(size, Rebuilt(d, g));
        ThreeOk(rule, g, d.right[0], Rebuilt(d, g));
      } else if c.left != [] && CanLend(Last(c.left)) {
        assert Alike(f, Last(c.left));
        var (d, g) := BorrowLeft(c, f);
        InnerNode(size, Rebuilt(d, g));
        ThreeOk(rule, g, Last(d.left), Rebuilt(d, g));
      } else {
        var (d, g) := if c.right != [] then MergeRight(c, f) else MergeLeft(c, f);
        var parent := Rebuilt(d, g);
        InnerNode(size, parent);
        MergedParentFits(size, c, f);
        TwoOk(rule, g, parent, if |parent.keys| < MIN_KEYS then RepairWrites(c.up, parent) else []);
        if NodeOk(rule, g) && |parent.keys| < MIN_KEYS {
          MergedOk(rule, c, f);
          RepairWritesFit(size, c.up, parent);
        }
      }
    }
  }

  lemma InnerNode(size: Sizes, t: Tree)
    requires t.Node?
    ensures NodeOk(FITTING(size), t) <==> InnerFits(size, t.keys)
  {
  }

  lemma ThreeOk(rule: Rule, a: Tree, b: Tree, c: Tree)
    ensures WritesOk(rule, [a, b, c]) <==> NodeOk(rule, a) && NodeOk(rule, b) && NodeOk(rule, c)
  {
    var ws := [a, b, c];
    assert ws[0] == a && ws[1] == b && ws[2] == c;
  }

  lemma TwoOk(rule: Rule, a: Tree, b: Tree, rest: seq<Tree>)
    ensures WritesOk(rule, [a, b] + rest) <==> NodeOk(rule, a) && NodeOk(rule, b) && WritesOk(rule, rest)
  {
    var ws := [a, b] + rest;
    assert ws[0] == a && ws[1] == b && ws[2..] == rest;
    forall i | 0 <= i < |rest| ensures ws[i + 2] == rest[i] {}
  }

  lemma {:induction false} RaiseWritesFit(size: Sizes, c: Ctx, f: Tree, m: Key)
    ensures WritesOk(FITTING(size), RaiseWrites(c, f, m)) <==> RaiseFits(size, c, m)
  {
    hide InnerCells;
    if c.Below? {
      if c.left != [] && c.keysL != [] {
        assert RaiseWrites(c, f, m)[0].keys == Front(c.keysL) + [m] + c.keysR;
      } else {
        RaiseWritesFit(size, c.up, Rebuilt(c, f), m);
      }
    }
  }

  /** On a tree whose pages fit, every page a removal writes fits exactly under this condition. */
  lemma RemoveWritesFit(size: Sizes, c: Ctx, f: Tree, k: Key)
    requires CtxOk(FITTING(size), c) && TreeOk(FITTING(size), f)
    ensures WritesOk(FITTING(size), RemoveWrites(c, f, k)) <==> RemoveFits(size, c, f, k)
  {
    hide LeafCells, RepairWrites, RepairFits, RaiseWrites, RaiseFits, LowerBound, CtxOk;
    if HasKey(f, k) {
      var i := LowerBound(f.keys, k);
      var g := Shrunk(f, k);
      var rest := RemoveWrites(c, f, k)[1..];
      assert LeafFits(size, g.keys, g.vals) by { ShrunkFits(size, f.keys, f.vals, i); }
      assert NodeOk(FITTING(size), g) && TreeOk(FITTING(size), g);
      OneOk(FITTING(size), g, rest);
      if |g.keys| < MIN_KEYS {
        RepairWritesFit(size, c, g);
      } else if i == 0 {
        RaiseWritesFit(size, c, g, g.keys[0]);
      }
    }
  }

  lemma ShrunkFits(size: Sizes, keys: seq<Key>, vals: seq<Value>, i: nat)
    requires i < |keys| && LeafFits(size, keys, vals)
    ensures LeafFits(size, Without(keys, i), Without(vals, i))
  {
    var a, x, b, y := keys[..i], vals[..i], keys[i + 1..], vals[i + 1..];
    assert keys == a + ([keys[i]] + b) && vals == x + ([vals[i]] + y);
    LeafCellsConcat(size, a, x, [keys[i]] + b, [vals[i]] + y);
    LeafCellsConcat(size, [keys[i]], [vals[i]], b, y);
    LeafCellsConcat(size, a, x, b, y);
  }

  lemma OneOk(rule: Rule, a: Tree, rest: seq<Tree>)
    ensures WritesOk(rule, [a] + rest) <==> NodeOk(rule, a) && WritesOk(rule, rest)
  {
    var ws := [a] + rest;
    assert ws[0] == a;
    forall i | 0 <= i < |rest| ensures ws[i + 1] == rest[i] {}
  }

  // ---------------------------------------------------------------- what the operations come to

  /** The tree after the operation, the end of the process, or a page whose cells lie over its own directory. */
  datatype Outcome = Done(tree: Option<Tree>) | Ended | Damaged

  function InsertOutcome(size: Sizes, t: Tree, k: Key, v: Value, leafPage: nat, rootPage: nat): Outcome {
    var (c, f) := Find(Top, t, k);
    if f.Leaf? && |f.vals| == |f.keys| && LowerBound(f.keys, k) <= |f.keys|
      && !WritesOk(FITTING(size), InsertWrites(c, f, k, v, leafPage, rootPage))
    then Damaged
    else
      match Inserted(t, k, v, leafPage, rootPage)
      case None => Ended
      case Some(r) => Done(Some(r))
  }

  function RemoveOutcome(size: Sizes, t: Tree, k: Key): Outcome {
    var (c, f) := Find(Top, t, k);
    if !WritesOk(FITTING(size), RemoveWrites(c, f, k)) then Damaged else Done(Removed(t, k).0)
  }

  /** Insert writes only pages that fit exactly under InsertFits, and then refines map update unless the new key meets
      a full leaf under a full parent. */
  lemma InsertRefines(size: Sizes, t: Tree, k: Key, v: Value, leafPage: nat, rootPage: nat)
    requires Proper(t) && TreeOk(FITTING(size), t)
    ensures var r := InsertOutcome(size, t, k, v, leafPage, rootPage);
            var (c, f) := Find(Top, t, k);
            && f.Leaf? && |f.vals| == |f.keys| && LowerBound(f.keys, k) <= |f.keys|
            && (r.Damaged? <==> !InsertFits(size, c, f, k, v))
            && (r.Ended? <==> InsertFits(size, c, f, k, v) && Stuck(c, f, k))
            && (r.Done? ==>
                  r.tree.Some? && Proper(r.tree.value) && TreeOk(FITTING(size), r.tree.value)
                  && Contents(r.tree.value) == Contents(t)[k := v])
  {
    hide Proper, TreeOk, CtxOk, WritesOk, InsertFits, InsertWrites, InsertAt, Contents, FITTING, Stuck;
    FoundLeaf(t, k);
    var (c, f) := Find(Top, t, k);
    InsertedIsUpdate(t, k, v, leafPage, rootPage);
    InsertWritesFit(size, c, f, k, v, leafPage, rootPage);
    TopOk(FITTING(size));
    FindOk(FITTING(size), Top, t, k);
    if InsertFits(size, c, f, k, v) { InsertOk(FITTING(size), c, f, k, v, leafPage, rootPage); }
  }

  lemma TopOk(rule: Rule)
    ensures CtxOk(rule, Top)
  {
  }

  lemma FoundLeaf(t: Tree, k: Key)
    requires Proper(t)
    ensures var (c, f) := Find(Top, t, k);
            f.Leaf? && |f.vals| == |f.keys| && LowerBound(f.keys, k) <= |f.keys| && GoodCtx(c, 0) && Good(f, 0, Lo(c))
  {
    hide Ordered, Walk;
    var h :| Good(t, h, 1);
    NoSides(k);
    FindReaches(Top, t, k, h);
    LowerBoundIs(Find(Top, t, k).1.keys, k);
  }

  /** Remove writes only pages that fit exactly under RemoveFits, and then refines map deletion. */
  lemma RemoveRefines(size: Sizes, t: Tree, k: Key)
    requires Proper(t) && TreeOk(FITTING(size), t)
    ensures var r := RemoveOutcome(size, t, k);
            var (c, f) := Find(Top, t, k);
            && (r.Damaged? <==> !RemoveFits(size, c, f, k)) && !r.Ended?
            && (r.Done? ==>
                  ProperOrEmpty(r.tree) && Left(r.tree) == Contents(t) - {k}
                  && (r.tree.Some? ==> TreeOk(FITTING(size), r.tree.value)))
  {
    hide Proper, TreeOk, CtxOk, WritesOk, RemoveFits, RemoveWrites, RemoveAt, Contents, FITTING, ProperOrEmpty;
    var (c, f) := Find(Top, t, k);
    RemovedIsDeletion(t, k);
    TopOk(FITTING(size));
    FindOk(FITTING(size), Top, t, k);
    RemoveWritesFit(size, c, f, k);
    if RemoveFits(size, c, f, k) { RemoveOk(FITTING(size), c, f, k); }
  }

  // ---------------------------------------------------------------- entries that always fit

  /** A cell of at most 18 bytes in a leaf, and of at most 18 bytes as a separator. */
  predicate SmallEntry(size: Sizes, k: Key, v: Value) {
    SmallKey(size, k) && 6 + size(k) + |v| <= 18
  }

  predicate SmallKey(size: Sizes, k: Key) {
    7 + size(k) <= 18
  }

  predicate SmallLeaf(size: Sizes, keys: seq<Key>, vals: seq<Value>) {
    |vals| == |keys| <= MAX_KEYS + 1 && forall i :: 0 <= i < |keys| ==> SmallEntry(size, keys[i], vals[i])
  }

  predicate SmallInner(size: Sizes, keys: seq<Key>) {
    |keys| <= MAX_KEYS + 1 && SmallKeys(size, keys)
  }

  predicate SmallKeys(size: Sizes, keys: seq<Key>) {
    forall i :: 0 <= i < |keys| ==> SmallKey(size, keys[i])
  }

  function SMALL(size: Sizes): Rule {
    Rule((keys, vals) => SmallLeaf(size, keys, vals), keys => SmallInner(size, keys))
  }

  lemma {:induction false} SmallLeafCells(size: Sizes, keys: seq<Key>, vals: seq<Value>)
    requires |vals| == |keys| && (forall i :: 0 <= i < |keys| ==> SmallEntry(size, keys[i], vals[i]))
    ensures LeafCells(size, keys, vals) <= 20 * |keys|
  {
    if keys != [] { SmallLeafCells(size, Front(keys), Front(vals)); }
  }

  lemma {:induction false} SmallInnerCells(size: Sizes, keys: seq<Key>)
    requires SmallKeys(size, keys)
    ensures InnerCells(size, keys) <= 20 * |keys|
  {
    if keys != [] { SmallInnerCells(size, Front(keys)); }
  }

  /** With cells of at most 18 bytes every page of up to 200 entries fits: the overfull leaf before its split too. */
  lemma SmallFits(size: Sizes, t: Tree)
    requires NodeOk(SMALL(size), t)
    ensures NodeOk(FITTING(size), t)
  {
    if t.Leaf? { SmallLeafCells(size, t.keys, t.vals); } else { SmallInnerCells(size, t.keys); }
  }

  lemma SmallWritesFit(size: Sizes, ws: seq<Tree>)
    requires WritesOk(SMALL(size), ws)
    ensures WritesOk(FITTING(size), ws)
  {
    hide SMALL, FITTING;
    forall i | 0 <= i < |ws| ensures NodeOk(FITTING(size), ws[i]) { SmallFits(size, ws[i]); }
  }

  lemma SmallKeysConcat(size: Sizes, a: seq<Key>, b: seq<Key>)
    ensures SmallKeys(size, a + b) <==> SmallKeys(size, a) && SmallKeys(size, b)
  {
    hide SmallKey;
    forall i | 0 <= i < |a| ensures (a + b)[i] == a[i] {}
    forall i | 0 <= i < |b| ensures (a + b)[|a| + i] == b[i] {}
  }

  lemma SmallBorrowRight(size: Sizes, c: Ctx, f: Tree)
    requires HasRight(c) && Alike(f, c.right[0]) && CanLend(c.right[0]) && CtxOk(SMALL(size), c)
    requires NodeOk(SMALL(size), f) && |f.keys| < MIN_KEYS
    ensures var (d, g) := BorrowRight(c, f); WritesOk(SMALL(size), [g, d.right[0], Rebuilt(d, g)])
  {
    hide SmallKey, CtxOk;
    var (d, g) := BorrowRight(c, f);
    var r := c.right[0];
    assert NodeOk(SMALL(size), r) && SmallInner(size, c.keysL + c.keysR) by { NextOk(SMALL(size), c); }
    SmallKeysConcat(size, c.keysL, c.keysR);
    SmallKeysConcat(size, c.keysL, d.keysR);
    assert SmallKey(size, c.keysR[0]) && SmallKey(size, d.keysR[0]);
    ThreeOk(SMALL(size), g, d.right[0], Rebuilt(d, g));
  }

  lemma NextOk(rule: Rule, c: Ctx)
    requires c.Below? && CtxOk(rule, c)
    ensures rule.inner(c.keysL + c.keysR)
    ensures c.right != [] ==> NodeOk(rule, c.right[0])
    ensures c.left != [] ==> NodeOk(rule, Last(c.left))
  {
  }

  lemma SmallBorrowLeft(size: Sizes, c: Ctx, f: Tree)
    requires HasLeft(c) && Alike(f, Last(c.left)) && CanLend(Last(c.left)) && CtxOk(SMALL(size), c)
    requires NodeOk(SMALL(size), f) && |f.keys| < MIN_KEYS
    ensures var (d, g) := BorrowLeft(c, f); WritesOk(SMALL(size), [g, Last(d.left), Rebuilt(d, g)])
  {
    hide SmallKey, CtxOk;
    var (d, g) := BorrowLeft(c, f);
    var l := Last(c.left);
    assert NodeOk(SMALL(size), l) && SmallInner(size, c.keysL + c.keysR) by { NextOk(SMALL(size), c); }
    SmallKeysConcat(size, c.keysL, c.keysR);
    SmallKeysConcat(size, d.keysL, c.keysR);
    assert SmallKey(size, Last(c.keysL)) && SmallKey(size, Last(d.keysL));
    ThreeOk(SMALL(size), g, Last(d.left), Rebuilt(d, g));
  }

  lemma SmallMerge(size: Sizes, c: Ctx, f: Tree)
    requires c.Below? && Repairable(c, f) && CtxOk(SMALL(size), c) && NodeOk(SMALL(size), f) && |f.keys| < MIN_KEYS
    requires (c.right != [] ==> !CanLend(c.right[0])) && (c.left != [] ==> !CanLend(Last(c.left)))
    ensures var (d, g) := if c.right != [] then MergeRight(c, f) else MergeLeft(c, f);
            NodeOk(SMALL(size), g) && NodeOk(SMALL(size), Rebuilt(d, g))
  {
    hide SmallKey, CtxOk;
    var (d, g) := if c.right != [] then MergeRight(c, f) else MergeLeft(c, f);
    NextOk(SMALL(size), c);
    SmallKeysConcat(size, c.keysL, c.keysR);
    SmallKeysConcat(size, d.keysL, d.keysR);
    if f.Node? {
      var (a, s, b) := if c.right != [] then (f, c.keysR[0], c.right[0]) else (Last(c.left), Last(c.keysL), f);
      assert g.keys == a.keys + ([s] + b.keys);
      SmallKeysConcat(size, a.keys, [s] + b.keys);
      SmallKeysConcat(size, [s], b.keys);
    }
  }

  lemma {:induction false} SmallRepair(size: Sizes, c: Ctx, f: Tree)
    requires CtxOk(SMALL(size), c) && TreeOk(SMALL(size), f) && |f.keys| < MIN_KEYS
    ensures WritesOk(SMALL(size), RepairWrites(c, f))
    decreases c
  {
    hide TreeOk, NodeOk, Fused, SMALL, AllOk;
    var rule := SMALL(size);
    if c.Below? && Repairable(c, f) {
      assert NodeOk(rule, f) by { HereOk(rule, f); }
      if c.right != [] && CanLend(c.right[0]) {
        SmallBorrowRight(size, c, f);
      } else if c.left != [] && CanLend(Last(c.left)) {
        assert Alike(f, Last(c.left));
        SmallBorrowLeft(size, c, f);
      } else {
        var (d, g) := if c.right != [] then MergeRight(c, f) else MergeLeft(c, f);
        var parent := Rebuilt(d, g);
        SmallMerge(size, c, f);
        TwoOk(rule, g, parent, if |parent.keys| < MIN_KEYS then RepairWrites(c.up, parent) else []);
        if |parent.keys| < MIN_KEYS {
          MergedOk(rule, c, f);
          SmallRepair(size, c.up, parent);
        }
      }
    }
  }

  lemma HereOk(rule: Rule, t: Tree)
    requires TreeOk(rule, t)
    ensures NodeOk(rule, t)
  {
  }

  lemma {:induction false} SmallRaise(size: Sizes, c: Ctx, f: Tree, m: Key)
    requires CtxOk(SMALL(size), c) && SmallKey(size, m)
    ensures WritesOk(SMALL(size), RaiseWrites(c, f, m))
  {
    hide SmallKey;
    if c.Below? {
      if c.left != [] && c.keysL != [] {
        SmallKeysConcat(size, c.keysL, c.keysR);
        SmallKeysConcat(size, Front(c.keysL) + [m], c.keysR);
        assert RaiseWrites(c, f, m)[0].keys == (Front(c.keysL) + [m]) + c.keysR;
      } else {
        SmallRaise(size, c.up, Rebuilt(c, f), m);
      }
    }
  }

  lemma SmallRemove(size: Sizes, c: Ctx, f: Tree, k: Key)
    requires CtxOk(SMALL(size), c) && TreeOk(SMALL(size), f)
    ensures WritesOk(SMALL(size), RemoveWrites(c, f, k))
  {
    hide CtxOk, RepairWrites, RaiseWrites, LowerBound, SmallEntry;
    if HasKey(f, k) {
      var g := Shrunk(f, k);
      assert SmallLeaf(size, g.keys, g.vals);
      assert TreeOk(SMALL(size), g);
      OneOk(SMALL(size), g, RemoveWrites(c, f, k)[1..]);
      if |g.keys| < MIN_KEYS {
        SmallRepair(size, c, g);
      } else if LowerBound(f.keys, k) == 0 {
        assert SmallKey(size, g.keys[0]) by {
          assert SmallEntry(size, g.keys[0], g.vals[0]);
          EntryKey(size, g.keys[0], g.vals[0]);
        }
        SmallRaise(size, c, g, g.keys[0]);
      }
    }
  }

  lemma EntryKey(size: Sizes, k: Key, v: Value)
    requires SmallEntry(size, k, v)
    ensures SmallKey(size, k)
  {
  }

  lemma SmallInsert(size: Sizes, c: Ctx, f: Tree, k: Key, v: Value, leafPage: nat, rootPage: nat)
    requires f.Leaf? && |f.vals| == |f.keys| <= MAX_KEYS && LowerBound(f.keys, k) <= |f.keys|
    requires CtxOk(SMALL(size), c) && TreeOk(SMALL(size), f) && SmallEntry(size, k, v)
    requires c.Below? ==> |c.keysL| + |c.keysR| <= MAX_KEYS
    ensures WritesOk(SMALL(size), InsertWrites(c, f, k, v, leafPage, rootPage))
  {
    hide LowerBound, SmallEntry, AllOk;
    var g := Grown(f, k, v);
    var rule := SMALL(size);
    var ws := InsertWrites(c, f, k, v, leafPage, rootPage);
    assert SmallLeaf(size, g.keys, g.vals);
    assert ws[0] == g;
    if |g.keys| > MAX_KEYS {
      var l, r := LowerHalf(g), UpperHalf(g, leafPage);
      assert SmallLeaf(size, l.keys, l.vals) && SmallLeaf(size, r.keys, r.vals);
      EntryKey(size, r.keys[0], r.vals[0]);
      assert ws[1] == l && ws[2] == r;
      if c.Below? {
        SmallKeysConcat(size, c.keysL, c.keysR);
        SmallKeysConcat(size, c.keysL, [r.keys[0]] + c.keysR);
        SmallKeysConcat(size, [r.keys[0]], c.keysR);
      }
      assert NodeOk(rule, ws[3]);
    }
  }

  // ---------------------------------------------------------------- every run of small entries

  datatype Op = Put(key: Key, value: Value, leafPage: nat, rootPage: nat) | Delete(key: Key)

  function Next(size: Sizes, o: Outcome, op: Op): Outcome {
    if !o.Done? then o
    else
      match op
      case Put(k, v, leafPage, rootPage) =>
        if o.tree.Some? then InsertOutcome(size, o.tree.value, k, v, leafPage, rootPage)
        else if LeafFits(size, [k], [v]) then Done(Some(Leaf(leafPage, [k], [v])))
        else Damaged
      case Delete(k) => if o.tree.Some? then RemoveOutcome(size, o.tree.value, k) else o
  }

  function Run(size: Sizes, ops: seq<Op>): Outcome {
    if ops == [] then Done(None) else Next(size, Run(size, Front(ops)), Last(ops))
  }

  /** The map that the operations describe. */
  function MapOf(ops: seq<Op>): map<Key, Value> {
    if ops == [] then map[]
    else
      var m := MapOf(Front(ops));
      match Last(ops)
      case Put(k, v, _, _) => m[k := v]
      case Delete(k) => m - {k}
  }

  /** What a tree that is still there looks like. */
  ghost predicate Sound(size: Sizes, o: Outcome) {
    o.Done? ==> ProperOrEmpty(o.tree) && (o.tree.Some? ==> TreeOk(FITTING(size), o.tree.value))
  }

  lemma NextSound(size: Sizes, o: Outcome, op: Op)
    requires Sound(size, o)
    ensures Sound(size, Next(size, o, op))
    ensures Next(size, o, op).Done? ==>
              && o.Done?
              && Left(Next(size, o, op).tree)
                   == match op { case Put(k, v, _, _) => Left(o.tree)[k := v] case Delete(k) => Left(o.tree) - {k} }
  {
    hide Proper, TreeOk, InsertOutcome, RemoveOutcome, Contents;
    if o.Done? {
      match op
      case Put(k, v, leafPage, rootPage) =>
        if o.tree.Some? { InsertRefines(size, o.tree.value, k, v, leafPage, rootPage); }
        else {
          FirstInsert(leafPage, k, v);
          LeafTree(FITTING(size), Leaf(leafPage, [k], [v]));
        }
      case Delete(k) => if o.tree.Some? { RemoveRefines(size, o.tree.value, k); }
    }
  }

  /** Whatever is put and deleted in whatever order: as long as no page overflows and the process lives, the tree is
      well formed and holds exactly the map that the operations describe. */
  lemma {:induction false} RunIsMap(size: Sizes, ops: seq<Op>)
    ensures Sound(size, Run(size, ops))
    ensures Run(size, ops).Done? ==> Left(Run(size, ops).tree) == MapOf(ops)
  {
    hide Next, ProperOrEmpty, TreeOk, FITTING;
    if ops == [] {
      NothingYet(size);
    } else {
      RunIsMap(size, Front(ops));
      NextSound(size, Run(size, Front(ops)), Last(ops));
    }
  }

  lemma NothingYet(size: Sizes)
    ensures Sound(size, Done(None)) && Left(None) == map[]
  {
  }

  ghost predicate SmallOps(size: Sizes, ops: seq<Op>) {
    forall i :: 0 <= i < |ops| && ops[i].Put? ==> SmallEntry(size, ops[i].key, ops[i].value)
  }

  lemma SmallNext(size: Sizes, o: Outcome, op: Op)
    requires Sound(size, o) && !o.Damaged? && (o.Done? && o.tree.Some? ==> TreeOk(SMALL(size), o.tree.value))
    requires op.Put? ==> SmallEntry(size, op.key, op.value)
    ensures var n := Next(size, o, op); !n.Damaged? && (n.Done? && n.tree.Some? ==> TreeOk(SMALL(size), n.tree.value))
  {
    hide Proper, TreeOk, CtxOk, InsertAt, RemoveAt, InsertWrites, RemoveWrites, WritesOk, Find, LowerBound, GoodCtx,
      Good, SMALL, FITTING;
    if o.Done? {
      match op
      case Put(k, v, leafPage, rootPage) =>
        if o.tree.Some? {
          SmallPut(size, o.tree.value, k, v, leafPage, rootPage);
        } else {
          SmallFirst(size, leafPage, k, v);
        }
      case Delete(k) => if o.tree.Some? { SmallDelete(size, o.tree.value, k); }
    }
  }

  lemma SmallFirst(size: Sizes, page: nat, k: Key, v: Value)
    requires SmallEntry(size, k, v)
    ensures TreeOk(SMALL(size), Leaf(page, [k], [v])) && LeafFits(size, [k], [v])
  {
    var t := Leaf(page, [k], [v]);
    assert NodeOk(SMALL(size), t);
    SmallFits(size, t);
  }

  lemma SmallPut(size: Sizes, t: Tree, k: Key, v: Value, leafPage: nat, rootPage: nat)
    requires Proper(t) && TreeOk(SMALL(size), t) && SmallEntry(size, k, v)
    ensures var n := InsertOutcome(size, t, k, v, leafPage, rootPage);
            !n.Damaged? && (n.Done? ==> n.tree.Some? && TreeOk(SMALL(size), n.tree.value))
  {
    hide Proper, TreeOk, CtxOk, InsertAt, InsertWrites, WritesOk, SMALL, FITTING, Good;
    var rule := SMALL(size);
    FoundLeaf(t, k);
    TopOk(rule);
    FindOk(rule, Top, t, k);
    var (c, f) := Find(Top, t, k);
    assert |f.keys| <= MAX_KEYS by { LeafLimit(f, Lo(c)); }
    SmallInsert(size, c, f, k, v, leafPage, rootPage);
    SmallWritesFit(size, InsertWrites(c, f, k, v, leafPage, rootPage));
    InsertOk(rule, c, f, k, v, leafPage, rootPage);
  }

  lemma LeafLimit(f: Tree, lo: nat)
    requires Good(f, 0, lo)
    ensures |f.keys| <= MAX_KEYS
  {
  }

  lemma SmallDelete(size: Sizes, t: Tree, k: Key)
    requires TreeOk(SMALL(size), t)
    ensures var n := RemoveOutcome(size, t, k); n.Done? && (n.tree.Some? ==> TreeOk(SMALL(size), n.tree.value))
  {
    hide TreeOk, CtxOk, RemoveAt, RemoveWrites, WritesOk, SMALL, FITTING;
    var rule := SMALL(size);
    TopOk(rule);
    FindOk(rule, Top, t, k);
    var (c, f) := Find(Top, t, k);
    SmallRemove(size, c, f, k);
    SmallWritesFit(size, RemoveWrites(c, f, k));
    RemoveOk(rule, c, f, k);
  }

  lemma {:induction false} SmallRun(size: Sizes, ops: seq<Op>)
    requires SmallOps(size, ops)
    ensures !Run(size, ops).Damaged?
    ensures Run(size, ops).Done? && Run(size, ops).tree.Some? ==> TreeOk(SMALL(size), Run(size, ops).tree.value)
  {
    hide Next, TreeOk, SMALL, SmallEntry;
    if ops != [] {
      SmallRun(size, Front(ops));
      RunIsMap(size, Front(ops));
      SmallNext(size, Run(size, Front(ops)), Last(ops));
    }
  }

  /** In every run of entries with cells of at most 18 bytes no page ever overflows, so unless an internal page has to
      split, the tree holds exactly the map. */
  lemma SmallRunsKeepTheMap(size: Sizes, ops: seq<Op>)
    requires SmallOps(size, ops)
    ensures Run(size, ops).Ended?
            || (Run(size, ops).Done? && ProperOrEmpty(Run(size, ops).tree) && Left(Run(size, ops).tree) == MapOf(ops))
  {
    hide Run, MapOf, SmallOps, TreeOk;
    SmallRun(size, ops);
    RunIsMap(size, ops);
  }
}
