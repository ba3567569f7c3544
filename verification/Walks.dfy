/** The left-to-right walk over a tree: its entries and its separators, in one sequence. */
module Walks {
  import RaftTypes

  /** Keys enter the tree only through comparison; KeyOrder embeds the encoded keys into this order. */
  type Key = real
  type Value = RaftTypes.Bytes

  datatype Item = K(key: Key, val: Value) | S(sep: Key)

  /** Left keys < separator <= right keys, and everything strictly increasing otherwise. */
  predicate Before(a: Item, b: Item) {
    match (a, b)
    case (K(x, _), K(y, _)) => x < y
    case (K(x, _), S(y)) => x < y
    case (S(x), K(y, _)) => x <= y
    case (S(x), S(y)) => x < y
  }

  ghost predicate Ordered(w: seq<Item>) {
    forall i, j :: 0 <= i < j < |w| ==> Before(w[i], w[j])
  }

  /** Everything in a may stand before everything in b. */
  ghost predicate Joined(a: seq<Item>, b: seq<Item>) {
    forall i, j :: 0 <= i < |a| && 0 <= j < |b| ==> Before(a[i], b[j])
  }

  /** The map that the entries of a walk describe. */
  function Entries(w: seq<Item>): map<Key, Value> {
    if w == [] then map[]
    else if w[0].K? then map[w[0].key := w[0].val] + Entries(w[1..])
    else Entries(w[1..])
  }

  lemma OrderedSplit(a: seq<Item>, b: seq<Item>)
    ensures Ordered(a + b) <==> Ordered(a) && Ordered(b) && Joined(a, b)
  {
    var w := a + b;
    if Ordered(w) {
      forall i, j | 0 <= i < j < |a| ensures Before(a[i], a[j]) {
        assert w[i] == a[i] && w[j] == a[j];
      }
      forall i, j | 0 <= i < j < |b| ensures Before(b[i], b[j]) {
        assert w[|a| + i] == b[i] && w[|a| + j] == b[j];
      }
      forall i, j | 0 <= i < |a| && 0 <= j < |b| ensures Before(a[i], b[j]) {
        assert w[i] == a[i] && w[|a| + j] == b[j];
      }
    }
    if Ordered(a) && Ordered(b) && Joined(a, b) {
      forall i, j | 0 <= i < j < |w| ensures Before(w[i], w[j]) {
        if j < |a| {
          assert w[i] == a[i] && w[j] == a[j];
        } else if i < |a| {
          assert w[i] == a[i] && w[j] == b[j - |a|];
        } else {
          assert w[i] == b[i - |a|] && w[j] == b[j - |a|];
        }
      }
    }
  }

  lemma JoinedSplit(a: seq<Item>, b: seq<Item>, c: seq<Item>)
    ensures Joined(a + b, c) <==> Joined(a, c) && Joined(b, c)
    ensures Joined(c, a + b) <==> Joined(c, a) && Joined(c, b)
  {
    var w := a + b;
    assert forall i :: 0 <= i < |a| ==> w[i] == a[i];
    assert forall i :: 0 <= i < |b| ==> w[|a| + i] == b[i];
    assert forall i :: |a| <= i < |w| ==> w[i] == b[i - |a|];
  }

  /** Three parts in a row. */
  lemma OrderedThree(a: seq<Item>, b: seq<Item>, c: seq<Item>)
    ensures Ordered(a + b + c) <==>
              Ordered(a) && Ordered(b) && Ordered(c) && Joined(a, b) && Joined(a, c) && Joined(b, c)
  {
    OrderedSplit(a + b, c);
    OrderedSplit(a, b);
    JoinedSplit(a, b, c);
  }

  /** Dropping a middle part keeps the order. */
  lemma OrderedDrop(a: seq<Item>, b: seq<Item>, c: seq<Item>)
    requires Ordered(a + b + c)
    ensures Ordered(a + c)
  {
    OrderedThree(a, b, c);
    OrderedSplit(a, c);
  }

  lemma {:induction false} EntriesConcat(a: seq<Item>, b: seq<Item>)
    ensures Entries(a + b) == Entries(a) + Entries(b)
  {
    if a == [] {
      assert a + b == b;
    } else {
      assert (a + b)[1..] == a[1..] + b;
      EntriesConcat(a[1..], b);
    }
  }

  lemma {:induction false} EntryIs(w: seq<Item>, k: Key)
    ensures k in Entries(w) <==> exists i :: 0 <= i < |w| && w[i].K? && w[i].key == k
  {
    if w != [] {
      EntryIs(w[1..], k);
      if k in Entries(w) {
        if !(w[0].K? && w[0].key == k) {
          var i :| 0 <= i < |w[1..]| && w[1..][i].K? && w[1..][i].key == k;
          assert w[i + 1] == w[1..][i];
        }
      }
      if i :| 0 <= i < |w| && w[i].K? && w[i].key == k {
        if i > 0 { assert w[1..][i - 1] == w[i]; }
      }
    }
  }

  /** Separators carry no entries. */
  lemma EntriesSkipSep(a: seq<Item>, s: Key, b: seq<Item>)
    ensures Entries(a + [S(s)] + b) == Entries(a + b)
  {
    EntriesConcat(a + [S(s)], b);
    EntriesConcat(a, [S(s)]);
    EntriesConcat(a, b);
  }

  // ---------------------------------------------------------------- searching

  /** Everything here lies strictly to the left of where k belongs. */
  ghost predicate LeftOf(w: seq<Item>, k: Key) {
    forall i :: 0 <= i < |w| ==> if w[i].K? then w[i].key < k else w[i].sep <= k
  }

  /** Everything here lies strictly to the right of where k belongs. */
  ghost predicate RightOf(w: seq<Item>, k: Key) {
    forall i :: 0 <= i < |w| ==> if w[i].K? then w[i].key > k else w[i].sep > k
  }

  lemma SidesConcat(a: seq<Item>, b: seq<Item>, k: Key)
    ensures LeftOf(a + b, k) <==> LeftOf(a, k) && LeftOf(b, k)
    ensures RightOf(a + b, k) <==> RightOf(a, k) && RightOf(b, k)
  {
    var w := a + b;
    assert forall i :: 0 <= i < |a| ==> w[i] == a[i];
    assert forall i :: 0 <= i < |b| ==> w[|a| + i] == b[i];
    assert forall i :: |a| <= i < |w| ==> w[i] == b[i - |a|];
  }

  /** Whatever stands before a separator that is at most k is left of k; dually on the right. */
  lemma SidesOfSep(a: seq<Item>, s: Key, k: Key)
    ensures s <= k && Joined(a, [S(s)]) ==> LeftOf(a, k)
    ensures k < s && Joined([S(s)], a) ==> RightOf(a, k)
  {
    if Joined(a, [S(s)]) {
      forall i | 0 <= i < |a| ensures Before(a[i], S(s)) { assert [S(s)][0] == S(s); }
    }
    if Joined([S(s)], a) {
      forall i | 0 <= i < |a| ensures Before(S(s), a[i]) { assert [S(s)][0] == S(s); }
    }
  }

  lemma SideHasNoKey(w: seq<Item>, k: Key)
    requires LeftOf(w, k) || RightOf(w, k)
    ensures k !in Entries(w)
  {
    EntryIs(w, k);
  }

  /** Putting one entry where it belongs. */
  lemma EntriesPut(a: seq<Item>, k: Key, v: Value, b: seq<Item>)
    requires LeftOf(a, k) && RightOf(b, k)
    ensures Entries(a + [K(k, v)] + b) == Entries(a + b)[k := v]
    ensures Entries(a + b) == Entries(a + [K(k, v)] + b) - {k}
  {
    SideHasNoKey(a, k);
    SideHasNoKey(b, k);
    EntriesConcat(a + [K(k, v)], b);
    EntriesConcat(a, [K(k, v)]);
    EntriesConcat(a, b);
    assert Entries([K(k, v)]) == map[k := v] by { assert [K(k, v)][1..] == []; }
  }

  lemma OrderedPut(a: seq<Item>, k: Key, v: Value, b: seq<Item>)
    requires LeftOf(a, k) && RightOf(b, k) && Ordered(a + b)
    ensures Ordered(a + [K(k, v)] + b)
  {
    OrderedSplit(a, b);
    OrderedThree(a, [K(k, v)], b);
  }

  /** In an ordered walk an entry has its neighbours on the proper sides. */
  lemma SidesOfEntry(a: seq<Item>, k: Key, v: Value, b: seq<Item>)
    requires Ordered(a + [K(k, v)] + b)
    ensures LeftOf(a, k) && RightOf(b, k)
  {
    OrderedThree(a, [K(k, v)], b);
    forall i | 0 <= i < |a| ensures Before(a[i], K(k, v)) { assert [K(k, v)][0] == K(k, v); }
    forall i | 0 <= i < |b| ensures Before(K(k, v), b[i]) { assert [K(k, v)][0] == K(k, v); }
  }

  // ---------------------------------------------------------------- separators

  /** A new separator may stand right before an entry that another entry precedes. */
  lemma OrderedNewSep(a: seq<Item>, x: Item, y: Item, b: seq<Item>)
    requires x.K? && y.K? && Ordered(a + [x] + [y] + b)
    ensures Ordered(a + [x] + [S(y.key)] + [y] + b)
  {
    var s := [S(y.key)];
    OrderedThree(a + [x], [y], b);
    OrderedSplit(a, [x]);
    JoinedSplit(a, [x], [y]);
    JoinedSplit(a, [x], b);
    assert Before(x, y) by { assert [x][0] == x && [y][0] == y; }
    forall i | 0 <= i < |a| ensures Before(a[i], S(y.key)) { assert [x][0] == x && Before(a[i], x); }
    forall j | 0 <= j < |b| ensures Before(S(y.key), b[j]) { assert [y][0] == y && Before(y, b[j]); }
    assert Joined(a, s) && Joined([x], s) && Joined(s, [y]) && Joined(s, b);
    JoinedSplit(a, [x], s);
    OrderedSplit(a + [x], s);
    OrderedSplit(s, [y]);
    JoinedSplit(a + [x], s, [y]);
    JoinedSplit(a + [x], s, b);
    OrderedThree(a + [x] + s, [y], b);
  }

  /** The separator before a subtree may rise to the subtree's new least key. */
  lemma OrderedRaiseSep(a: seq<Item>, s: Key, y: Item, b: seq<Item>)
    requires y.K? && s <= y.key && Ordered(a + [S(s)] + [y] + b)
    ensures Ordered(a + [S(y.key)] + [y] + b)
  {
    OrderedThree(a + [S(s)], [y], b);
    OrderedSplit(a, [S(s)]);
    JoinedSplit(a, [S(s)], [y]);
    JoinedSplit(a, [S(s)], b);
    var r := [S(y.key)];
    forall i | 0 <= i < |a| ensures Before(a[i], S(y.key)) { assert [S(s)][0] == S(s) && Before(a[i], S(s)); }
    forall j | 0 <= j < |b| ensures Before(S(y.key), b[j]) { assert [y][0] == y && Before(y, b[j]); }
    assert Joined(a, r) && Joined(r, [y]) && Joined(r, b);
    OrderedSplit(a, r);
    JoinedSplit(a, r, [y]);
    JoinedSplit(a, r, b);
    OrderedThree(a + r, [y], b);
  }
}
