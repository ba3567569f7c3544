/** Two well-formed trees whose pages all fit, on which an insertion and a removal write a page that does not. */
module BTreeOverflow {
  import opened Sequences
  import opened Walks
  import opened BTreeModel
  import opened BTreeRemove
  import opened BTreeInsert
  import opened BTreeFull
  import opened BTreeSizes

  /** Keys of eight bytes and values of five: leaf cells of 19 bytes. */
  function Eight(k: Key): nat {
    8
  }

  const FIVE: Value := [0, 0, 0, 0, 0]

  /** A leaf with the keys base, base + 1, ... */
  function Row(page: nat, base: nat, n: nat): Tree {
    Leaf(page, seq(n, j => base as real + j as real), seq(n, j => FIVE))
  }

  lemma {:induction false} RowCells(keys: seq<Key>, vals: seq<Value>)
    requires |vals| == |keys| && (forall i :: 0 <= i < |vals| ==> vals[i] == FIVE)
    ensures LeafCells(Eight, keys, vals) == 21 * |keys|
  {
    if keys != [] { RowCells(Front(keys), Front(vals)); }
  }

  lemma RowWalk(page: nat, base: nat, n: nat)
    ensures Ordered(Walk(Row(page, base, n))) && AtLeast(Walk(Row(page, base, n)), base as real)
    ensures Under(Walk(Row(page, base, n)), base as real + n as real)
  {
  }

  lemma {:induction false} RowBound(keys: seq<Key>, base: real, k: nat)
    requires k <= |keys| && (forall j :: 0 <= j < |keys| ==> keys[j] == base + j as real)
    ensures LowerBound(keys, base + k as real) == k
  {
    if k > 0 {
      assert forall j :: 0 <= j < |keys| - 1 ==> keys[1..][j] == keys[j + 1];
      RowBound(keys[1..], base + 1.0, k - 1);
      assert (base + 1.0) + (k - 1) as real == base + k as real;
    }
  }

  /** A root leaf with 193 such entries. */
  function FullRoot(): Tree {
    Row(1, 0, 193)
  }

  lemma FullRootFits()
    ensures Proper(FullRoot()) && TreeOk(FITTING(Eight), FullRoot())
  {
    var t := FullRoot();
    RowWalk(1, 0, 193);
    assert Good(t, 0, 1);
    RowCells(t.keys, t.vals);
  }

  lemma RowLimits(page: nat, base: nat, n: nat)
    ensures var t := Row(page, base, n);
            && LEAF_HEAD + LeafCells(Eight, t.keys, t.vals) == 7 + 21 * n && |t.keys| == |t.vals| == n
            && (TreeOk(FITTING(Eight), t) <==> n <= 193)
  {
    var t := Row(page, base, n);
    RowCells(t.keys, t.vals);
  }

  lemma FindInLeaf(t: Tree, k: Key)
    requires t.Leaf?
    ensures Find(Top, t, k) == (Top, t)
  {
  }

  lemma GrownRow(n: nat)
    ensures var t := Row(1, 0, n);
            && LowerBound(t.keys, n as real) == n
            && var g := Grown(t, n as real, FIVE);
               |g.keys| == |g.vals| == n + 1 && LeafCells(Eight, g.keys, g.vals) == 21 * (n + 1)
                 && !HasKey(t, n as real)
  {
    hide LowerBound, LeafCells;
    var t := Row(1, 0, n);
    RowBound(t.keys, 0.0, n);
    assert 0.0 + n as real == n as real;
    var g := Grown(t, n as real, FIVE);
    RowCells(g.keys, g.vals);
  }

  /** The next such entry does not fit, although the leaf is not full in entries. */
  lemma InsertOverflows(leafPage: nat, rootPage: nat)
    ensures Proper(FullRoot()) && TreeOk(FITTING(Eight), FullRoot())
    ensures var (c, f) := Find(Top, FullRoot(), 193.0); !Stuck(c, f, 193.0)
    ensures InsertOutcome(Eight, FullRoot(), 193.0, FIVE, leafPage, rootPage) == Damaged
  {
    hide Proper, TreeOk, Find, Row, Grown, InsertOutcome, LeafCells, LowerBound, Contents;
    FullRootFits();
    InsertRefines(Eight, FullRoot(), 193.0, FIVE, leafPage, rootPage);
    assert FullRoot().Leaf? by { RowIsLeaf(1, 0, 193); }
    FindInLeaf(FullRoot(), 193.0);
    GrownRow(193);
  }

  lemma RowIsLeaf(page: nat, base: nat, n: nat)
    ensures Row(page, base, n).Leaf?
  {
  }

  // ---------------------------------------------------------------- a full parent

  /** With empty values, every page of the full tree of two levels is well inside its limit. */
  lemma FullTreeIsSmall()
    ensures TreeOk(SMALL(Eight), FullTree())
  {
    var t := FullTree();
    forall i | 0 <= i < |t.kids| ensures TreeOk(SMALL(Eight), t.kids[i]) { assert t.kids[i] == FullLeaf(i); }
  }

  /** A leaf under a full parent ends an insertion although every page fits. */
  lemma FullParentEnds(v: Value, leafPage: nat, rootPage: nat)
    requires SmallEntry(Eight, 0.5, v)
    ensures Proper(FullTree()) && TreeOk(SMALL(Eight), FullTree())
    ensures InsertOutcome(Eight, FullTree(), 0.5, v, leafPage, rootPage) == Ended
  {
    hide Proper, TreeOk, FullTree, Inserted, InsertWrites, WritesOk, Find, LowerBound, SMALL, FITTING;
    FullParentStops(v, leafPage, rootPage);
    FullTreeIsSmall();
    SmallPut(Eight, FullTree(), 0.5, v, leafPage, rootPage);
  }

  // ---------------------------------------------------------------- a merge

  /** A root over two leaves of 99 such entries each. */
  function LeanTree(): Tree {
    Node(1, [1000.0], [Row(2, 0, 99), Row(3, 1000, 99)])
  }

  lemma LeanTreeFits()
    ensures Proper(LeanTree()) && TreeOk(FITTING(Eight), LeanTree())
  {
    hide Row, Ordered, Walk, Good, TreeOk, FITTING, LeafCells, InnerCells;
    var a, b := Row(2, 0, 99), Row(3, 1000, 99);
    LeanWalk();
    RowGood(2, 0, 99);
    RowGood(3, 1000, 99);
    RowLimits(2, 0, 99);
    RowLimits(3, 1000, 99);
    PairGood(1, 1000.0, a, b);
    assert TreeOk(FITTING(Eight), LeanTree()) by { PairFits(1, 1000.0, a, b); }
  }

  lemma RowGood(page: nat, base: nat, n: nat)
    requires MIN_KEYS <= n <= MAX_KEYS
    ensures Good(Row(page, base, n), 0, MIN_KEYS)
  {
  }

  lemma PairGood(page: nat, s: Key, a: Tree, b: Tree)
    requires Good(a, 0, MIN_KEYS) && Good(b, 0, MIN_KEYS)
    ensures Good(Node(page, [s], [a, b]), 1, 1)
  {
  }

  lemma PairFits(page: nat, s: Key, a: Tree, b: Tree)
    requires TreeOk(FITTING(Eight), a) && TreeOk(FITTING(Eight), b)
    ensures TreeOk(FITTING(Eight), Node(page, [s], [a, b]))
  {
    hide TreeOk;
    OneInner(Eight, s);
    NodeTree(FITTING(Eight), page, [s], [a, b]);
  }

  lemma LeanWalk()
    ensures Ordered(Walk(LeanTree()))
  {
    hide Ordered, Under, AtLeast;
    var a, b := Row(2, 0, 99), Row(3, 1000, 99);
    RowWalk(2, 0, 99);
    RowWalk(3, 1000, 99);
    assert Under(Walk(a), 1000.0) by { UnderMore(Walk(a), 99.0, 1000.0); }
    var none: seq<Item> := [];
    assert Ordered(none) && Under(none, 0.0) by { Nothing(); assert First(0) == 0.0; }
    NextPart(none, Walk(a), 0.0, 1000.0);
    assert none + Walk(a) + [S(1000.0)] == Walk(a) + [S(1000.0)];
    UnderAtLeast(Walk(a) + [S(1000.0)], Walk(b), 1000.0);
    OrderedSplit(Walk(a) + [S(1000.0)], Walk(b));
    LeftOne(a, 1000.0);
    assert Front(LeanTree().kids) == [a] && Last(LeanTree().kids) == b;
  }

  lemma UnderMore(w: seq<Item>, b: Key, c: Key)
    requires Under(w, b) && b <= c
    ensures Under(w, c)
  {
  }

  /** Removing one entry leaves 98, the neighbour cannot lend, and the merged leaf of 197 entries does not fit. */
  lemma RemoveOverflows()
    ensures Proper(LeanTree()) && TreeOk(FITTING(Eight), LeanTree())
    ensures RemoveOutcome(Eight, LeanTree(), 5.0) == Damaged
  {
    hide Proper, TreeOk, RemoveOutcome, RemoveFits, Find, Row;
    LeanTreeFits();
    RemoveRefines(Eight, LeanTree(), 5.0);
    LeanFind();
    LeanRepair();
  }

  lemma LeanFind()
    ensures Find(Top, LeanTree(), 5.0) == (Into(Top, LeanTree(), 0), Row(2, 0, 99))
  {
    hide Row;
    var t := LeanTree();
    assert LowerBound(t.keys, 5.0) == 0;
    RowIsLeaf(2, 0, 99);
    assert t.kids[0] == Row(2, 0, 99);
  }

  lemma LeanShrunk()
    ensures var a := Row(2, 0, 99);
            && HasKey(a, 5.0)
            && |Shrunk(a, 5.0).keys| == |Shrunk(a, 5.0).vals| == 98
            && (forall i :: 0 <= i < 98 ==> Shrunk(a, 5.0).vals[i] == FIVE)
  {
    hide LowerBound;
    RowBound(Row(2, 0, 99).keys, 0.0, 5);
    assert 0.0 + 5 as real == 5.0;
  }

  lemma LeanMerged()
    requires HasKey(Row(2, 0, 99), 5.0)
    ensures var f, b := Shrunk(Row(2, 0, 99), 5.0), Row(3, 1000, 99);
            Alike(f, b) && !NodeOk(FITTING(Eight), Fused(f, 1000.0, b))
  {
    hide LowerBound, LeafCells, HasKey;
    LeanShrunk();
    var f, b := Shrunk(Row(2, 0, 99), 5.0), Row(3, 1000, 99);
    var g := Fused(f, 1000.0, b);
    RowCells(g.keys, g.vals);
  }

  lemma LeanRepair()
    ensures !RemoveFits(Eight, Into(Top, LeanTree(), 0), Row(2, 0, 99), 5.0)
  {
    hide LowerBound, LeafCells, HasKey, NodeOk, Shrunk, Fused;
    LeanShrunk();
    LeanMerged();
    var c := Into(Top, LeanTree(), 0);
    assert c.right == [Row(3, 1000, 99)] && c.keysR == [1000.0] && c.left == [];
  }
}
