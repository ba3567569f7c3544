/** The sizes used for tree nodes are those of the pages that hold them. */
module PageFit {
  import KeyOrder
  import SlottedPages
  import Walks
  import BTreeSizes
  import Sequences

  /** The length of the encoded key that a tree key stands for. */
  ghost function KeySize(x: Walks.Key): nat {
    if exists k: KeyOrder.Key :: KeyOrder.Embed(k) == x
    then var k: KeyOrder.Key :| KeyOrder.Embed(k) == x; |k.data|
    else 0
  }

  /** Distinct keys stand in distinct places, so the length can be read off the tree key. */
  lemma KeySizeIs(k: KeyOrder.Key)
    ensures KeySize(KeyOrder.Embed(k)) == |k.data|
  {
    var x := KeyOrder.Embed(k);
    var j: KeyOrder.Key :| KeyOrder.Embed(j) == x && KeySize(x) == |j.data|;
    KeyOrder.EmbedOrder(j, k);
  }

  /** Tree entries and the encoded keys and values they stand for. */
  ghost predicate Stands(size: BTreeSizes.Sizes, keys: seq<Walks.Key>, vals: seq<Walks.Value>,
      stored: seq<KeyOrder.Key>, values: seq<SlottedPages.Value>)
  {
    && |keys| == |vals| == |stored| == |values|
    && forall i :: 0 <= i < |keys| ==> size(keys[i]) == |stored[i].data| && |vals[i]| == |values[i].data|
  }

  lemma {:induction false} LeafBytes(size: BTreeSizes.Sizes, keys: seq<Walks.Key>, vals: seq<Walks.Value>,
      stored: seq<KeyOrder.Key>, values: seq<SlottedPages.Value>, n: nat)
    requires Stands(size, keys, vals, stored, values) && n <= |keys|
    ensures BTreeSizes.LeafCells(size, keys[..n], vals[..n])
            == 2 * n + SlottedPages.Sum(SlottedPages.LeafCells(stored, values)[..n])
  {
    if n > 0 {
      LeafBytes(size, keys, vals, stored, values, n - 1);
      var cells := SlottedPages.LeafCells(stored, values);
      SlottedPages.SumStep(cells, n - 1);
      SlottedPages.LeafCellLength(stored[n - 1], values[n - 1]);
      assert Sequences.Front(keys[..n]) == keys[..n - 1] && Sequences.Front(vals[..n]) == vals[..n - 1];
    }
  }

  /** A leaf node fits exactly when its page fits. */
  lemma LeafAgrees(size: BTreeSizes.Sizes, keys: seq<Walks.Key>, vals: seq<Walks.Value>, stored: seq<KeyOrder.Key>,
      values: seq<SlottedPages.Value>)
    requires Stands(size, keys, vals, stored, values)
    ensures BTreeSizes.LeafFits(size, keys, vals)
            <==> SlottedPages.Fits(SlottedPages.LEAF_HEAD, SlottedPages.LeafCells(stored, values))
  {
    var n := |keys|;
    LeafBytes(size, keys, vals, stored, values, n);
    assert keys[..n] == keys && vals[..n] == vals;
    assert SlottedPages.LeafCells(stored, values)[..n] == SlottedPages.LeafCells(stored, values);
  }

  lemma {:induction false} InternalBytes(size: BTreeSizes.Sizes, keys: seq<Walks.Key>, stored: seq<KeyOrder.Key>,
      children: seq<nat>, n: nat)
    requires |stored| == |keys| && |children| == |keys| + 1 && n <= |keys|
    requires forall i :: 0 <= i < |keys| ==> size(keys[i]) == |stored[i].data|
    ensures BTreeSizes.InnerCells(size, keys[..n])
            == 2 * n + SlottedPages.Sum(SlottedPages.InternalCells(stored, children)[..n])
  {
    if n > 0 {
      InternalBytes(size, keys, stored, children, n - 1);
      SlottedPages.SumStep(SlottedPages.InternalCells(stored, children), n - 1);
      SlottedPages.InternalCellLength(stored[n - 1], children[n]);
      assert Sequences.Front(keys[..n]) == keys[..n - 1];
    }
  }

  /** An internal node fits exactly when its page fits. */
  lemma InternalAgrees(size: BTreeSizes.Sizes, keys: seq<Walks.Key>, stored: seq<KeyOrder.Key>, children: seq<nat>)
    requires |stored| == |keys| && |children| == |keys| + 1
    requires forall i :: 0 <= i < |keys| ==> size(keys[i]) == |stored[i].data|
    ensures BTreeSizes.InnerFits(size, keys)
            <==> SlottedPages.Fits(SlottedPages.INTERNAL_HEAD, SlottedPages.InternalCells(stored, children))
  {
    var n := |keys|;
    InternalBytes(size, keys, stored, children, n);
    assert keys[..n] == keys;
    assert SlottedPages.InternalCells(stored, children)[..n] == SlottedPages.InternalCells(stored, children);
  }
}
