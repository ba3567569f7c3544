/** Separators that name the least key to their right, and why a deletion renames one. */
module BTreeExact {
  import opened Sequences
  import opened Options
  import opened Walks
  import opened BTreeModel
  import opened BTreeRemove

  /** Every separator stands right before the entry it names. */
  ghost predicate Exact(w: seq<Item>) {
    forall i :: 0 <= i < |w| && w[i].S? ==> i + 1 < |w| && w[i + 1].K? && w[i + 1].key == w[i].sep
  }

  /** An entry that does not follow a separator may go. */
  lemma DropInside(p: seq<Item>, x: Item, r: seq<Item>)
    requires Exact(p + [x] + r) && p != [] && Last(p).K?
    ensures Exact(p + r)
  {
    var w, u := p + [x] + r, p + r;
    forall i | 0 <= i < |u| && u[i].S? ensures i + 1 < |u| && u[i + 1].K? && u[i + 1].key == u[i].sep {
      if i < |p| {
        assert w[i] == u[i] && w[i + 1] == u[i + 1];
      } else {
        assert w[i + 1] == u[i] && w[i + 2] == u[i + 1];
      }
    }
  }

  lemma DropFirst(x: Item, r: seq<Item>)
    requires Exact([x] + r)
    ensures Exact(r)
  {
    var w := [x] + r;
    forall i | 0 <= i < |r| && r[i].S? ensures i + 1 < |r| && r[i + 1].K? && r[i + 1].key == r[i].sep {
      assert w[i + 1] == r[i] && w[i + 2] == r[i + 1];
    }
  }

  /** When the entry a separator names goes, the separator has to name the next one. */
  lemma RenameAndDrop(p: seq<Item>, s: Key, x: Item, r: seq<Item>)
    requires Exact(p + [S(s)] + [x] + r) && r != [] && r[0].K?
    ensures Exact(p + [S(r[0].key)] + r)
  {
    var w, u := p + [S(s)] + [x] + r, p + [S(r[0].key)] + r;
    forall i | 0 <= i < |u| && u[i].S? ensures i + 1 < |u| && u[i + 1].K? && u[i + 1].key == u[i].sep {
      if i < |p| {
        assert w[i] == u[i];
        assert w[i + 1].K?;
        assert i + 1 < |p|;
        assert w[i + 1] == u[i + 1];
      } else if i > |p| {
        assert w[i + 1] == u[i] && w[i + 2] == u[i + 1];
      }
    }
  }

  lemma RemoveAtExact(c: Ctx, f: Tree, k: Key)
    requires Shaped(c) && HasKey(f, k) && |f.keys| > MIN_KEYS && Exact(Around(c, f))
    ensures RemoveAt(c, f, k).0.Some? && Exact(Walk(RemoveAt(c, f, k).0.value))
  {
    hide Exact, Walk, Zip, RaiseSep, Around;
    var i := LowerBound(f.keys, k);
    var g := Shrunk(f, k);
    ShrunkLength(f, k);
    LeafParts(f, i);
    WalkOfShrunk(f, k);
    var x := K(k, f.vals[i]);
    var a, b := Zip(f.keys[..i], f.vals[..i]), Zip(f.keys[i + 1..], f.vals[i + 1..]);
    AroundIs(c, f);
    if i > 0 {
      PlugWalk(c, g);
      AroundIs(c, g);
      ZipEnds(f.keys[..i], f.vals[..i]);
      assert Around(c, f) == (Pre(c) + a) + [x] + (b + Post(c)) by { MiddleOut(Pre(c), a, [x], b, Post(c)); }
      DropInside(Pre(c) + a, x, b + Post(c));
      assert Around(c, g) == (Pre(c) + a) + (b + Post(c)) by { Regroup(Pre(c), a, b, Post(c), []); }
    } else {
      FirstGoes(c, f, k, x, b);
    }
  }

  lemma AroundIs(c: Ctx, f: Tree)
    ensures Around(c, f) == Pre(c) + Walk(f) + Post(c)
  {
  }

  lemma WalkOfShrunk(f: Tree, k: Key)
    requires HasKey(f, k)
    ensures Walk(Shrunk(f, k)) == Zip(Without(f.keys, LowerBound(f.keys, k)), Without(f.vals, LowerBound(f.keys, k)))
  {
  }

  lemma ZipEnds(keys: seq<Key>, vals: seq<Value>)
    requires |keys| == |vals| > 0
    ensures var z := Zip(keys, vals);
            && |z| == |keys| && z[0] == K(keys[0], vals[0]) && z != [] && Last(z).K?
  {
  }

  lemma FirstGoes(c: Ctx, f: Tree, k: Key, x: Item, b: seq<Item>)
    requires Shaped(c) && HasKey(f, k) && LowerBound(f.keys, k) == 0 && |f.keys| > MIN_KEYS && Exact(Around(c, f))
    requires x == K(k, f.vals[0]) && b == Zip(f.keys[1..], f.vals[1..])
    ensures RemoveAt(c, f, k).0.Some? && Exact(Walk(RemoveAt(c, f, k).0.value))
  {
    hide Exact, Walk, Zip, RaiseSep, Around;
    var g := Shrunk(f, k);
    ShrunkLength(f, k);
    LeafParts(f, 0);
    WalkOfShrunk(f, k);
    NoZip(f.keys[..0], f.vals[..0]);
    ZipEnds(f.keys[1..], f.vals[1..]);
    var m := f.keys[1];
    assert g.keys[0] == m;
    var d := RaiseSep(c, m);
    RaisedPre(c, m);
    PlugWalk(d, g);
    AroundIs(c, f);
    AroundIs(d, g);
    var r := b + Post(c);
    assert Walk(f) == [x] + b && Walk(g) == b;
    if Pre(c) == [] {
      assert Around(c, f) == [x] + r;
      DropFirst(x, r);
      assert Around(d, g) == r;
    } else {
      var p, s := Front(Pre(c)), Last(Pre(c)).sep;
      assert Pre(c) == p + [S(s)];
      assert Around(c, f) == p + [S(s)] + [x] + r by { OpenFirst(p, [S(s)], [x], b, Post(c)); }
      RenameAndDrop(p, s, x, r);
      assert Around(d, g) == p + [S(m)] + r by { Regroup3(p, [S(m)], b, Post(c)); }
    }
  }

  lemma NoZip(keys: seq<Key>, vals: seq<Value>)
    requires keys == [] && vals == []
    ensures Zip(keys, vals) == []
  {
  }

  lemma Regroup3(p: seq<Item>, s: seq<Item>, b: seq<Item>, post: seq<Item>)
    ensures (p + s) + b + post == p + s + (b + post)
  {
  }

  /** In a proper tree whose separators name the entries to their right, removing a key from a leaf that stays large
      enough keeps it so. Without the renamed separator it would not: the removed key would still be named. */
  lemma RemoveKeepsExact(t: Tree, k: Key)
    requires Proper(t) && Exact(Walk(t))
    requires var f := Find(Top, t, k).1; HasKey(f, k) ==> |f.keys| > MIN_KEYS
    ensures Removed(t, k).0.Some? && Exact(Walk(Removed(t, k).0.value))
  {
    hide Ordered, Entries, Walk, RemoveAt, Exact;
    var h :| Good(t, h, 1);
    NoSides(k);
    FindReaches(Top, t, k, h);
    var (c, f) := Find(Top, t, k);
    GoodIsShaped(c, 0);
    PlugWalk(c, f);
    if HasKey(f, k) { RemoveAtExact(c, f, k); } else { Untouched(c, f, k); }
  }

  lemma Untouched(c: Ctx, f: Tree, k: Key)
    requires !HasKey(f, k)
    ensures RemoveAt(c, f, k).0 == Some(Plug(c, f))
  {
  }
}
