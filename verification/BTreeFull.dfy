/** A full tree of two levels, on which an insertion cannot go on. */
module BTreeFull {
  import opened Sequences
  import opened Options
  import opened Walks
  import opened BTreeModel
  import opened BTreeRemove
  import opened BTreeInsert

  /** The first key of leaf i; the leaves' keys are 1 apart. */
  function First(i: nat): Key {
    (1000 * i) as real
  }

  function FullKeys(i: nat): seq<Key> {
    seq(MAX_KEYS, j => First(i) + j as real)
  }

  function FullLeaf(i: nat): Tree {
    Leaf(i + 2, FullKeys(i), seq(MAX_KEYS, j => []))
  }

  function Seps(n: nat): seq<Key> {
    seq(n, i requires i >= 0 => First(i + 1))
  }

  function Leaves(n: nat): seq<Tree> {
    seq(n, i requires i >= 0 => FullLeaf(i))
  }

  /** 199 separators over 200 leaves of 199 keys each. */
  function FullTree(): Tree {
    Node(1, Seps(MAX_KEYS), Leaves(MAX_KEYS + 1))
  }

  /** Entries below b, separators at most b. */
  ghost predicate Under(w: seq<Item>, b: Key) {
    forall i :: 0 <= i < |w| ==> if w[i].K? then w[i].key < b else w[i].sep <= b
  }

  ghost predicate AtLeast(w: seq<Item>, b: Key) {
    forall i :: 0 <= i < |w| ==> w[i].K? && w[i].key >= b
  }

  lemma UnderAtLeast(w: seq<Item>, x: seq<Item>, b: Key)
    requires Under(w, b) && AtLeast(x, b)
    ensures Joined(w, x)
  {
  }

  lemma LeafWalk(i: nat)
    ensures Ordered(Walk(FullLeaf(i))) && AtLeast(Walk(FullLeaf(i)), First(i)) && Under(Walk(FullLeaf(i)), First(i + 1))
  {
  }

  lemma {:induction false} FullLeft(n: nat)
    ensures Ordered(WalkLeft(Leaves(n), Seps(n))) && Under(WalkLeft(Leaves(n), Seps(n)), First(n))
  {
    hide WalkLeft, Walk, FullLeaf, Ordered, Under, AtLeast;
    if n == 0 {
      assert Leaves(0) == [] && Seps(0) == [];
      NoWalk();
      Nothing();
    } else {
      FullLeft(n - 1);
      LeftStep(Leaves(n), Seps(n));
      assert Front(Leaves(n)) == Leaves(n - 1) && Front(Seps(n)) == Seps(n - 1);
      assert Last(Leaves(n)) == FullLeaf(n - 1) && Last(Seps(n)) == First(n);
      LeafWalk(n - 1);
      NextPart(WalkLeft(Leaves(n - 1), Seps(n - 1)), Walk(FullLeaf(n - 1)), First(n - 1), First(n));
    }
  }

  lemma Nothing()
    ensures Ordered([]) && Under([], First(0))
  {
  }

  lemma NextPart(w: seq<Item>, x: seq<Item>, b: Key, c: Key)
    requires Ordered(w) && Under(w, b) && Ordered(x) && AtLeast(x, b) && Under(x, c) && b < c
    ensures Ordered(w + x + [S(c)]) && Under(w + x + [S(c)], c)
  {
    hide Ordered;
    UnderAtLeast(w, x, b);
    assert Ordered([S(c)]) by { OneItem(S(c)); }
    OrderedThree(w, x, [S(c)]);
  }

  lemma OneItem(i: Item)
    ensures Ordered([i])
  {
  }

  lemma FullIsProper()
    ensures Proper(FullTree())
  {
    hide WalkLeft, Ordered, Under, AtLeast;
    var n := MAX_KEYS;
    FullLeft(n);
    LeafWalk(n);
    assert Front(Leaves(n + 1)) == Leaves(n) && Last(Leaves(n + 1)) == FullLeaf(n);
    UnderAtLeast(WalkLeft(Leaves(n), Seps(n)), Walk(FullLeaf(n)), First(n));
    OrderedSplit(WalkLeft(Leaves(n), Seps(n)), Walk(FullLeaf(n)));
    assert Good(FullTree(), 1, 1);
  }

  /** A new key in a full tree: the leaf splits, its parent overflows, and the insertion cannot go on. */
  lemma FullParentStops(v: Value, leafPage: nat, rootPage: nat)
    ensures Proper(FullTree()) && Inserted(FullTree(), 0.5, v, leafPage, rootPage).None?
  {
    hide Proper;
    FullIsProper();
    InsertedIsUpdate(FullTree(), 0.5, v, leafPage, rootPage);
    FindsFirst();
  }

  lemma FindsFirst()
    ensures var (c, f) := Find(Top, FullTree(), 0.5); Stuck(c, f, 0.5)
  {
    var t := FullTree();
    assert Seps(MAX_KEYS)[0] == First(1) && First(1) >= 0.5;
    assert Route(t.keys, 0.5) == 0;
    assert t.kids[0] == FullLeaf(0);
    assert Find(Top, t, 0.5) == (Into(Top, t, 0), FullLeaf(0));
    assert FullKeys(0)[0] == 0.0 && FullKeys(0)[1..][0] == 1.0;
    assert LowerBound(FullKeys(0), 0.5) == 1;
  }
}
