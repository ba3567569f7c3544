/** How a tree lies in numbered pages, and what the page edits of each repair do to it. */
module BTreePages {
  import opened Sequences
  import opened Walks
  import opened BTreeModel
  import opened BTreeRemove

  datatype PageNode =
    | LeafPage(keys: seq<Key>, vals: seq<Value>)
    | InnerPage(keys: seq<Key>, kids: seq<nat>)

  type Store = map<nat, PageNode>

  function Numbers(kids: seq<Tree>): seq<nat> {
    seq(|kids|, i requires 0 <= i < |kids| => kids[i].page)
  }

  /** What the root page of t holds. */
  function Content(t: Tree): PageNode {
    match t
    case Leaf(_, keys, vals) => LeafPage(keys, vals)
    case Node(_, keys, kids) => InnerPage(keys, Numbers(kids))
  }

  // ---------------------------------------------------------------- the pages of a tree

  function Pages(t: Tree): multiset<nat>
    decreases t
  {
    multiset{t.page} + if t.Node? then PagesAll(t.kids) else multiset{}
  }

  function PagesAll(kids: seq<Tree>): multiset<nat>
    decreases kids
  {
    if kids == [] then multiset{} else Pages(kids[0]) + PagesAll(kids[1..])
  }

  function PagesCtx(c: Ctx): multiset<nat> {
    if c.Top? then multiset{} else multiset{c.page} + PagesAll(c.left) + PagesAll(c.right) + PagesCtx(c.up)
  }

  lemma {:induction false} PagesConcat(a: seq<Tree>, b: seq<Tree>)
    ensures PagesAll(a + b) == PagesAll(a) + PagesAll(b)
  {
    if a == [] {
      assert a + b == b;
    } else {
      assert (a + b)[1..] == a[1..] + b;
      PagesConcat(a[1..], b);
    }
  }

  lemma PagesOne(t: Tree)
    ensures PagesAll([t]) == Pages(t)
  {
    assert [t][1..] == [];
  }

  lemma PagesFirst(kids: seq<Tree>)
    requires kids != []
    ensures PagesAll(kids) == Pages(kids[0]) + PagesAll(kids[1..])
  {
  }

  lemma PagesLast(kids: seq<Tree>)
    requires kids != []
    ensures PagesAll(kids) == PagesAll(Front(kids)) + Pages(Last(kids))
  {
    assert kids == Front(kids) + [Last(kids)];
    PagesConcat(Front(kids), [Last(kids)]);
    PagesOne(Last(kids));
  }

  lemma {:induction false} PagesIn(kids: seq<Tree>, i: nat)
    requires i < |kids|
    ensures Pages(kids[i]) <= PagesAll(kids)
  {
    if i > 0 { PagesIn(kids[1..], i - 1); }
  }

  /** Numbers of a rebuilt node. */
  lemma NumbersConcat(a: seq<Tree>, b: seq<Tree>)
    ensures Numbers(a + b) == Numbers(a) + Numbers(b)
  {
  }

  // ---------------------------------------------------------------- holding a tree

  ghost predicate Holds(st: Store, t: Tree)
    decreases t
  {
    && t.page in st && st[t.page] == Content(t)
    && (t.Node? ==> forall i :: 0 <= i < |t.kids| ==> Holds(st, t.kids[i]))
  }

  ghost predicate HoldsAll(st: Store, kids: seq<Tree>) {
    forall i :: 0 <= i < |kids| ==> Holds(st, kids[i])
  }

  function HoleContent(c: Ctx, hole: nat): PageNode
    requires c.Below?
  {
    InnerPage(c.keysL + c.keysR, Numbers(c.left) + [hole] + Numbers(c.right))
  }

  /** The surroundings are in place and point at page `hole`. */
  ghost predicate HoldsCtx(st: Store, c: Ctx, hole: nat) {
    c.Below? ==>
      && c.page in st && st[c.page] == HoleContent(c, hole)
      && HoldsAll(st, c.left) && HoldsAll(st, c.right)
      && HoldsCtx(st, c.up, c.page)
  }

  /** Exactly these pages are in use, each once. */
  ghost predicate Exactly(st: Store, ps: multiset<nat>) {
    forall p :: ps[p] == if p in st then 1 else 0
  }

  ghost predicate Represents(st: Store, c: Ctx, f: Tree) {
    HoldsCtx(st, c, f.page) && Holds(st, f) && Exactly(st, PagesCtx(c) + Pages(f))
  }

  // ---------------------------------------------------------------- frames

  ghost predicate Agree(a: Store, b: Store, ps: multiset<nat>) {
    forall p :: p in ps && p in a ==> p in b && b[p] == a[p]
  }

  lemma {:induction false} HoldsFrame(a: Store, b: Store, t: Tree)
    requires Holds(a, t) && Agree(a, b, Pages(t))
    ensures Holds(b, t)
    decreases t
  {
    assert t.page in Pages(t);
    if t.Node? {
      forall i | 0 <= i < |t.kids| ensures Holds(b, t.kids[i]) {
        PagesIn(t.kids, i);
        HoldsFrame(a, b, t.kids[i]);
      }
    }
  }

  lemma HoldsAllFrame(a: Store, b: Store, kids: seq<Tree>)
    requires HoldsAll(a, kids) && Agree(a, b, PagesAll(kids))
    ensures HoldsAll(b, kids)
  {
    forall i | 0 <= i < |kids| ensures Holds(b, kids[i]) {
      PagesIn(kids, i);
      HoldsFrame(a, b, kids[i]);
    }
  }

  lemma AgreeOn(a: Store, b: Store, ps: multiset<nat>, qs: multiset<nat>)
    requires Agree(a, b, ps) && qs <= ps
    ensures Agree(a, b, qs)
  {
    forall p | p in qs && p in a ensures p in b && b[p] == a[p] {
      assert ps[p] >= qs[p];
    }
  }

  lemma {:induction false} HoldsCtxFrame(a: Store, b: Store, c: Ctx, hole: nat)
    requires HoldsCtx(a, c, hole) && Agree(a, b, PagesCtx(c))
    ensures HoldsCtx(b, c, hole)
  {
    hide Agree, HoldsAll, PagesAll;
    if c.Below? {
      var all := PagesCtx(c);
      AgreeOn(a, b, all, PagesAll(c.left));
      AgreeOn(a, b, all, PagesAll(c.right));
      AgreeOn(a, b, all, PagesCtx(c.up));
      AgreeAt(a, b, all, c.page);
      HoldsAllFrame(a, b, c.left);
      HoldsAllFrame(a, b, c.right);
      HoldsCtxFrame(a, b, c.up, c.page);
    }
  }

  lemma AgreeAt(a: Store, b: Store, ps: multiset<nat>, p: nat)
    requires Agree(a, b, ps) && p in ps && p in a
    ensures p in b && b[p] == a[p]
  {
  }

  /** A page outside a set of pages that are each used once. */
  lemma Apart(st: Store, ps: multiset<nat>, qs: multiset<nat>, p: nat)
    requires Exactly(st, ps + qs) && p in ps
    ensures p !in qs && p in st
  {
    assert (ps + qs)[p] == ps[p] + qs[p];
  }

  // ---------------------------------------------------------------- plugging

  lemma RebuiltPages(c: Ctx, f: Tree)
    requires c.Below?
    ensures PagesCtx(c.up) + Pages(Rebuilt(c, f)) == PagesCtx(c) + Pages(f)
  {
    hide Pages, PagesAll;
    NodePages(Rebuilt(c, f));
    PagesConcat(c.left + [f], c.right);
    PagesConcat(c.left, [f]);
    PagesOne(f);
  }

  lemma NodePages(t: Tree)
    requires t.Node?
    ensures Pages(t) == multiset{t.page} + PagesAll(t.kids)
  {
  }

  lemma LeafPages(t: Tree)
    requires t.Leaf?
    ensures Pages(t) == multiset{t.page}
  {
  }

  lemma RebuiltContent(c: Ctx, f: Tree)
    requires c.Below?
    ensures Content(Rebuilt(c, f)) == HoleContent(c, f.page)
  {
    NumbersConcat(c.left + [f], c.right);
    NumbersConcat(c.left, [f]);
  }

  lemma HoldsParts(st: Store, a: seq<Tree>, b: seq<Tree>)
    ensures HoldsAll(st, a + b) <==> HoldsAll(st, a) && HoldsAll(st, b)
  {
    assert forall i :: 0 <= i < |a| ==> (a + b)[i] == a[i];
    assert forall i :: 0 <= i < |b| ==> (a + b)[|a| + i] == b[i];
    assert forall i :: |a| <= i < |a + b| ==> (a + b)[i] == b[i - |a|];
  }

  lemma HoldsOne(st: Store, t: Tree)
    ensures HoldsAll(st, [t]) <==> Holds(st, t)
  {
    assert [t][0] == t;
  }

  lemma HoldsNode(st: Store, t: Tree)
    requires t.Node?
    ensures Holds(st, t) <==> t.page in st && st[t.page] == Content(t) && HoldsAll(st, t.kids)
  {
  }

  lemma RebuiltHolds(st: Store, c: Ctx, f: Tree)
    requires c.Below?
    ensures HoldsCtx(st, c, f.page) && Holds(st, f) <==> HoldsCtx(st, c.up, c.page) && Holds(st, Rebuilt(c, f))
  {
    hide Holds;
    HoldsNode(st, Rebuilt(c, f));
    RebuiltContent(c, f);
    HoldsParts(st, c.left + [f], c.right);
    HoldsParts(st, c.left, [f]);
    HoldsOne(st, f);
  }

  /** Looking at a subtree in its surroundings or at the whole tree is the same. */
  lemma {:induction false} PlugRepresents(st: Store, c: Ctx, f: Tree)
    ensures Represents(st, c, f) <==> Represents(st, Top, Plug(c, f))
  {
    hide Holds, Exactly, Pages, PagesAll;
    if c.Below? {
      RebuiltHolds(st, c, f);
      RebuiltPages(c, f);
      PlugRepresents(st, c.up, Rebuilt(c, f));
    }
  }

  lemma UpRepresents(st: Store, c: Ctx, f: Tree)
    requires c.Below?
    ensures Represents(st, c, f) <==> Represents(st, c.up, Rebuilt(c, f))
  {
    hide Holds, Exactly, Pages, PagesAll;
    RebuiltHolds(st, c, f);
    RebuiltPages(c, f);
  }

  // ---------------------------------------------------------------- edits

  /** Everything around the edited pages stays in place: the edit touches only pages of `touched`, which is
      separate from `rest`. */
  lemma Untouched(a: Store, b: Store, touched: multiset<nat>, rest: multiset<nat>)
    requires Exactly(a, touched + rest)
    requires forall p :: p in a && p !in touched ==> p in b && b[p] == a[p]
    ensures Agree(a, b, rest)
  {
    forall p | p in rest && p in a ensures p in b && b[p] == a[p] {
      assert (touched + rest)[p] == touched[p] + rest[p];
    }
  }

  /** The leaf page is rewritten, nothing else. */
  lemma EditFocus(st: Store, c: Ctx, f: Tree, g: Tree)
    requires Represents(st, c, f) && f.Leaf? && g.Leaf? && g.page == f.page
    ensures Represents(st[f.page := Content(g)], c, g)
  {
    hide Exactly, PagesAll, PagesCtx;
    var b := st[f.page := Content(g)];
    LeafPages(f);
    LeafPages(g);
    assert Agree(st, b, PagesCtx(c)) by {
      assert Pages(f) + PagesCtx(c) == PagesCtx(c) + Pages(f);
      Untouched(st, b, Pages(f), PagesCtx(c));
    }
    HoldsCtxFrame(st, b, c, f.page);
    assert Exactly(b, PagesCtx(c) + Pages(g)) by { SameKeys(st, b, PagesCtx(c) + Pages(f)); }
  }

  lemma SameKeys(a: Store, b: Store, ps: multiset<nat>)
    requires Exactly(a, ps) && a.Keys == b.Keys
    ensures Exactly(b, ps)
  {
    forall p ensures ps[p] == if p in b then 1 else 0 {
      assert p in a.Keys <==> p in b.Keys;
    }
  }

  lemma FocusInUse(st: Store, c: Ctx, f: Tree)
    requires Represents(st, c, f)
    ensures f.page in st && (c.Below? ==> c.page in st && c.page != f.page)
  {
    if c.Below? {
      assert c.page in PagesCtx(c) && f.page in Pages(f);
      Apart(st, PagesCtx(c), Pages(f), c.page);
    }
  }

  // ---------------------------------------------------------------- edits of a node, a sibling and their parent

  function Kids(t: Tree): seq<Tree> {
    if t.Node? then t.kids else []
  }

  lemma PagesKids(t: Tree)
    ensures Pages(t) == multiset{t.page} + PagesAll(Kids(t))
  {
  }

  lemma HoldsKids(st: Store, t: Tree)
    ensures Holds(st, t) <==> t.page in st && st[t.page] == Content(t) && HoldsAll(st, Kids(t))
  {
  }

  /** The node at c and its sibling `sib`; `others` are the pages of the remaining siblings. */
  ghost predicate Family(st: Store, c: Ctx, f: Tree, sib: Tree, others: multiset<nat>) {
    Represents(st, c, f) && c.Below? && PagesAll(c.left) + PagesAll(c.right) == Pages(sib) + others
  }

  function Trio(c: Ctx, f: Tree, sib: Tree): multiset<nat>
    requires c.Below?
  {
    multiset{c.page} + multiset{f.page} + multiset{sib.page}
  }

  function Rest(c: Ctx, f: Tree, sib: Tree, others: multiset<nat>): multiset<nat>
    requires c.Below?
  {
    others + PagesCtx(c.up) + PagesAll(Kids(f)) + PagesAll(Kids(sib))
  }

  lemma FamilyPages(st: Store, c: Ctx, f: Tree, sib: Tree, others: multiset<nat>)
    requires Family(st, c, f, sib, others)
    ensures Exactly(st, Trio(c, f, sib) + Rest(c, f, sib, others))
    ensures PagesCtx(c) + Pages(f) == Trio(c, f, sib) + Rest(c, f, sib, others)
  {
    hide Exactly, PagesAll, Holds;
    PagesKids(f);
    PagesKids(sib);
    Gather(multiset{c.page}, PagesAll(c.left), PagesAll(c.right), PagesCtx(c.up), multiset{f.page}, PagesAll(Kids(f)),
           multiset{sib.page}, PagesAll(Kids(sib)), others);
  }

  lemma Gather(p: multiset<nat>, l: multiset<nat>, r: multiset<nat>, u: multiset<nat>, f: multiset<nat>,
      fk: multiset<nat>,
               s: multiset<nat>, sk: multiset<nat>, o: multiset<nat>)
    requires l + r == (s + sk) + o
    ensures (p + l + r + u) + (f + fk) == (p + f + s) + (o + u + fk + sk)
  {
    forall x ensures ((p + l + r + u) + (f + fk))[x] == ((p + f + s) + (o + u + fk + sk))[x] {
      assert (l + r)[x] == ((s + sk) + o)[x];
    }
  }

  lemma FamilyDistinct(st: Store, c: Ctx, f: Tree, sib: Tree, others: multiset<nat>)
    requires Family(st, c, f, sib, others)
    ensures c.page != f.page && c.page != sib.page && f.page != sib.page
    ensures c.page in st && f.page in st && sib.page in st
  {
    hide PagesAll, Holds, PagesCtx, Represents;
    FamilyPages(st, c, f, sib, others);
    var all := Trio(c, f, sib) + Rest(c, f, sib, others);
    assert all[c.page] >= Trio(c, f, sib)[c.page] && all[f.page] >= Trio(c, f, sib)[f.page]
      && all[sib.page] >= Trio(c, f, sib)[sib.page];
  }

  ghost predicate EditsOnly(a: Store, b: Store, c: Ctx, f: Tree, sib: Tree)
    requires c.Below?
  {
    forall p :: p in a && p != c.page && p != f.page && p != sib.page ==> p in b && b[p] == a[p]
  }

  /** Other siblings, the levels above and the children of both nodes are where they were. */
  lemma FamilyFrame(a: Store, b: Store, c: Ctx, f: Tree, sib: Tree, others: multiset<nat>)
    requires Family(a, c, f, sib, others) && EditsOnly(a, b, c, f, sib)
    ensures Agree(a, b, others) && Agree(a, b, PagesCtx(c.up)) && Agree(a, b, PagesAll(Kids(f)) + PagesAll(Kids(sib)))
  {
    hide Exactly, PagesAll, PagesCtx, Holds, Represents, Agree;
    FamilyPages(a, c, f, sib, others);
    TrioOnly(a, b, c, f, sib);
    Untouched(a, b, Trio(c, f, sib), Rest(c, f, sib, others));
    var rest := Rest(c, f, sib, others);
    AgreeOn(a, b, rest, others);
    AgreeOn(a, b, rest, PagesCtx(c.up));
    AgreeOn(a, b, rest, PagesAll(Kids(f)) + PagesAll(Kids(sib)));
  }

  lemma TrioOnly(a: Store, b: Store, c: Ctx, f: Tree, sib: Tree)
    requires c.Below? && EditsOnly(a, b, c, f, sib)
    ensures forall p :: p in a && p !in Trio(c, f, sib) ==> p in b && b[p] == a[p]
  {
  }

  /** Kids that were somewhere below the pair are still held. */
  lemma MovedKids(a: Store, b: Store, kids: seq<Tree>, pool: multiset<nat>)
    requires HoldsAll(a, kids) && Agree(a, b, pool) && PagesAll(kids) <= pool
    ensures HoldsAll(b, kids)
  {
    HoldsAllFrame(a, b, kids);
  }

  // ---- borrowing

  function BorrowedStore(st: Store, d: Ctx, g: Tree, sib: Tree): Store
    requires d.Below?
  {
    st[g.page := Content(g)][sib.page := Content(sib)][d.page := HoleContent(d, g.page)]
  }

  lemma BorrowRightKids(c: Ctx, f: Tree)
    requires HasRight(c) && Alike(f, c.right[0]) && CanLend(c.right[0])
    ensures var (d, g) := BorrowRight(c, f);
            && d.Below? && d.right != [] && g.page == f.page && d.right[0].page == c.right[0].page
            && Kids(g) + Kids(d.right[0]) == Kids(f) + Kids(c.right[0])
            && d.right[1..] == c.right[1..] && d.left == c.left && d.up == c.up && d.page == c.page
  {
  }

  lemma KidsSplit(st: Store, a: seq<Tree>, b: seq<Tree>, x: seq<Tree>, y: seq<Tree>)
    requires a + b == x + y
    ensures PagesAll(a) + PagesAll(b) == PagesAll(x) + PagesAll(y)
    ensures HoldsAll(st, x) && HoldsAll(st, y) ==> HoldsAll(st, a) && HoldsAll(st, b)
  {
    PagesConcat(a, b);
    PagesConcat(x, y);
    HoldsParts(st, a, b);
    HoldsParts(st, x, y);
  }

  lemma RightFamily(st: Store, c: Ctx, f: Tree)
    requires Represents(st, c, f) && HasRight(c)
    ensures Family(st, c, f, c.right[0], PagesAll(c.left) + PagesAll(c.right[1..]))
    ensures HoldsAll(st, Kids(f)) && HoldsAll(st, Kids(c.right[0])) && HoldsAll(st, c.left)
    ensures HoldsAll(st, c.right[1..])
  {
    PagesFirst(c.right);
    HoldsKids(st, f);
    HoldsKids(st, c.right[0]);
  }

  lemma BorrowRightPages(c: Ctx, f: Tree)
    requires HasRight(c) && Alike(f, c.right[0]) && CanLend(c.right[0])
    ensures PagesCtx(BorrowRight(c, f).0) + Pages(BorrowRight(c, f).1) == PagesCtx(c) + Pages(f)
  {
    hide PagesAll, Pages, BorrowRight;
    var (d, g) := BorrowRight(c, f);
    BorrowRightKids(c, f);
    var r, r' := c.right[0], d.right[0];
    PagesConcat(Kids(g), Kids(r'));
    PagesConcat(Kids(f), Kids(r));
    PagesFirst(d.right);
    PagesFirst(c.right);
    PagesKids(f);
    PagesKids(g);
    PagesKids(r);
    PagesKids(r');
    Trade(multiset{c.page} + PagesAll(c.left), multiset{r.page}, PagesAll(Kids(r)), PagesAll(Kids(r')),
          PagesAll(c.right[1..]), PagesCtx(c.up), multiset{f.page}, PagesAll(Kids(f)), PagesAll(Kids(g)));
  }

  lemma Trade(p: multiset<nat>, r: multiset<nat>, rk: multiset<nat>, rk': multiset<nat>, o: multiset<nat>,
      u: multiset<nat>,
              f: multiset<nat>, fk: multiset<nat>, fk': multiset<nat>)
    requires fk' + rk' == fk + rk
    ensures (p + ((r + rk') + o) + u) + (f + fk') == (p + ((r + rk) + o) + u) + (f + fk)
  {
    forall x ensures ((p + ((r + rk') + o) + u) + (f + fk'))[x] == ((p + ((r + rk) + o) + u) + (f + fk))[x] {
      assert (fk' + rk')[x] == (fk + rk)[x];
    }
  }

  /** A pair of neighbours whose children were shared out anew. */
  lemma PairHeld(a: Store, b: Store, c: Ctx, f: Tree, sib: Tree, others: multiset<nat>, g: Tree, sib': Tree)
    requires Family(a, c, f, sib, others) && EditsOnly(a, b, c, f, sib)
    requires HoldsAll(a, Kids(f)) && HoldsAll(a, Kids(sib))
    requires Kids(g) + Kids(sib') == Kids(f) + Kids(sib) || Kids(sib') + Kids(g) == Kids(sib) + Kids(f)
    requires g.page in b && b[g.page] == Content(g) && sib'.page in b && b[sib'.page] == Content(sib')
    ensures Holds(b, g) && Holds(b, sib')
  {
    hide Holds, PagesAll, Pages, Content, HoldsAll, Family;
    FamilyFrame(a, b, c, f, sib, others);
    if Kids(g) + Kids(sib') == Kids(f) + Kids(sib) {
      KidsSplit(a, Kids(g), Kids(sib'), Kids(f), Kids(sib));
    } else {
      KidsSplit(a, Kids(sib'), Kids(g), Kids(sib), Kids(f));
    }
    var pool := PagesAll(Kids(f)) + PagesAll(Kids(sib));
    assert PagesAll(Kids(g)) + PagesAll(Kids(sib')) == pool by {
      assert PagesAll(Kids(sib')) + PagesAll(Kids(g)) == PagesAll(Kids(g)) + PagesAll(Kids(sib'));
      assert PagesAll(Kids(sib)) + PagesAll(Kids(f)) == pool;
    }
    MovedKids(a, b, Kids(g), pool);
    MovedKids(a, b, Kids(sib'), pool);
    HoldsKids(b, g);
    HoldsKids(b, sib');
  }

  /** The remaining siblings and everything above. */
  lemma RestHeld(a: Store, b: Store, c: Ctx, f: Tree, sib: Tree, l: seq<Tree>, r: seq<Tree>)
    requires Family(a, c, f, sib, PagesAll(l) + PagesAll(r)) && EditsOnly(a, b, c, f, sib)
    requires HoldsAll(a, l) && HoldsAll(a, r)
    ensures HoldsAll(b, l) && HoldsAll(b, r) && HoldsCtx(b, c.up, c.page)
  {
    hide Holds, PagesAll, Pages, Content, HoldsAll, Exactly;
    FamilyFrame(a, b, c, f, sib, PagesAll(l) + PagesAll(r));
    MovedKids(a, b, l, PagesAll(l) + PagesAll(r));
    MovedKids(a, b, r, PagesAll(l) + PagesAll(r));
    HoldsCtxFrame(a, b, c.up, c.page);
  }

  lemma BorrowRightHeld(st: Store, c: Ctx, f: Tree)
    requires Represents(st, c, f) && HasRight(c) && Alike(f, c.right[0]) && CanLend(c.right[0])
    ensures var (d, g) := BorrowRight(c, f);
            d.Below? && d.right != [] && Represents(BorrowedStore(st, d, g, d.right[0]), d, g)
  {
    hide Holds, Exactly, PagesAll, Pages, Content, BorrowRight, HoldsAll, PagesCtx;
    var (d, g) := BorrowRight(c, f);
    BorrowRightKids(c, f);
    var r, r' := c.right[0], d.right[0];
    var others := PagesAll(c.left) + PagesAll(c.right[1..]);
    RightFamily(st, c, f);
    FamilyDistinct(st, c, f, r, others);
    var b := BorrowedStore(st, d, g, r');
    PairHeld(st, b, c, f, r, others, g, r');
    RestHeld(st, b, c, f, r, c.left, c.right[1..]);
    HoldsOne(b, r');
    HoldsParts(b, [r'], c.right[1..]);
    assert d.right == [r'] + c.right[1..];
    BorrowRightPages(c, f);
    SameKeys(st, b, PagesCtx(c) + Pages(f));
  }

  lemma BorrowLeftKids(c: Ctx, f: Tree)
    requires HasLeft(c) && Alike(f, Last(c.left)) && CanLend(Last(c.left))
    ensures var (d, g) := BorrowLeft(c, f);
            && d.Below? && d.left != [] && g.page == f.page && Last(d.left).page == Last(c.left).page
            && Kids(Last(d.left)) + Kids(g) == Kids(Last(c.left)) + Kids(f)
            && Front(d.left) == Front(c.left) && d.right == c.right && d.up == c.up && d.page == c.page
  {
    var l := Last(c.left);
    if f.Node? { assert l.kids == Front(l.kids) + [Last(l.kids)]; }
  }

  lemma LeftFamily(st: Store, c: Ctx, f: Tree)
    requires Represents(st, c, f) && HasLeft(c)
    ensures Family(st, c, f, Last(c.left), PagesAll(Front(c.left)) + PagesAll(c.right))
    ensures HoldsAll(st, Kids(f)) && HoldsAll(st, Kids(Last(c.left))) && HoldsAll(st, Front(c.left))
    ensures HoldsAll(st, c.right)
  {
    hide Holds, PagesAll, Pages, Exactly, PagesCtx;
    PagesLast(c.left);
    HoldsKids(st, f);
    assert Holds(st, c.left[|c.left| - 1]);
    HoldsKids(st, Last(c.left));
    Swap(PagesAll(Front(c.left)), Pages(Last(c.left)), PagesAll(c.right));
  }

  lemma Swap(a: multiset<nat>, b: multiset<nat>, c: multiset<nat>)
    ensures (a + b) + c == b + (a + c)
  {
  }

  lemma BorrowLeftPages(c: Ctx, f: Tree)
    requires HasLeft(c) && Alike(f, Last(c.left)) && CanLend(Last(c.left))
    ensures PagesCtx(BorrowLeft(c, f).0) + Pages(BorrowLeft(c, f).1) == PagesCtx(c) + Pages(f)
  {
    hide PagesAll, Pages, BorrowLeft;
    var (d, g) := BorrowLeft(c, f);
    BorrowLeftKids(c, f);
    var l, l' := Last(c.left), Last(d.left);
    PagesConcat(Kids(l'), Kids(g));
    PagesConcat(Kids(l), Kids(f));
    PagesLast(d.left);
    PagesLast(c.left);
    PagesKids(f);
    PagesKids(g);
    PagesKids(l);
    PagesKids(l');
    TradeLeft(multiset{c.page}, PagesAll(Front(c.left)), multiset{l.page}, PagesAll(Kids(l)), PagesAll(Kids(l')),
              PagesAll(c.right) , PagesCtx(c.up), multiset{f.page}, PagesAll(Kids(f)), PagesAll(Kids(g)));
  }

  lemma TradeLeft(p: multiset<nat>, o: multiset<nat>, l: multiset<nat>, lk: multiset<nat>, lk': multiset<nat>,
      r: multiset<nat>,
                  u: multiset<nat>, f: multiset<nat>, fk: multiset<nat>, fk': multiset<nat>)
    requires lk' + fk' == lk + fk
    ensures (p + (o + (l + lk')) + r + u) + (f + fk') == (p + (o + (l + lk)) + r + u) + (f + fk)
  {
    forall x ensures ((p + (o + (l + lk')) + r + u) + (f + fk'))[x] == ((p + (o + (l + lk)) + r + u) + (f + fk))[x] {
      assert (lk' + fk')[x] == (lk + fk)[x];
    }
  }

  lemma BorrowLeftHeld(st: Store, c: Ctx, f: Tree)
    requires Represents(st, c, f) && HasLeft(c) && Alike(f, Last(c.left)) && CanLend(Last(c.left))
    ensures var (d, g) := BorrowLeft(c, f);
            d.Below? && d.left != [] && Represents(BorrowedStore(st, d, g, Last(d.left)), d, g)
  {
    hide Holds, Exactly, PagesAll, Pages, Content, BorrowLeft, HoldsAll, PagesCtx;
    var (d, g) := BorrowLeft(c, f);
    BorrowLeftKids(c, f);
    var l, l' := Last(c.left), Last(d.left);
    var others := PagesAll(Front(c.left)) + PagesAll(c.right);
    LeftFamily(st, c, f);
    FamilyDistinct(st, c, f, l, others);
    var b := BorrowedStore(st, d, g, l');
    PairHeld(st, b, c, f, l, others, g, l');
    RestHeld(st, b, c, f, l, Front(c.left), c.right);
    HoldsOne(b, l');
    HoldsParts(b, Front(c.left), [l']);
    assert d.left == Front(c.left) + [l'];
    BorrowLeftPages(c, f);
    SameKeys(st, b, PagesCtx(c) + Pages(f));
  }

  // ---- merging

  /** The merged node stays on its page, the parent forgets the other page, and that page is freed. */
  function MergedStore(st: Store, d: Ctx, g: Tree, freed: nat): Store
    requires d.Below?
  {
    st[g.page := Content(g)][d.page := HoleContent(d, g.page)] - {freed}
  }

  lemma FusedKids(a: Tree, s: Key, b: Tree)
    requires Alike(a, b)
    ensures Kids(Fused(a, s, b)) == Kids(a) + Kids(b) && Fused(a, s, b).page == a.page
  {
  }

  /** The merged node at home in the edited store. */
  lemma MergedHeld(a: Store, b: Store, c: Ctx, f: Tree, sib: Tree, others: multiset<nat>, g: Tree)
    requires Family(a, c, f, sib, others) && EditsOnly(a, b, c, f, sib)
    requires HoldsAll(a, Kids(f)) && HoldsAll(a, Kids(sib))
    requires Kids(g) == Kids(f) + Kids(sib) || Kids(g) == Kids(sib) + Kids(f)
    requires g.page in b && b[g.page] == Content(g)
    ensures Holds(b, g)
  {
    hide Holds, PagesAll, Pages, Content, HoldsAll, Family;
    FamilyFrame(a, b, c, f, sib, others);
    PagesConcat(Kids(f), Kids(sib));
    PagesConcat(Kids(sib), Kids(f));
    HoldsParts(a, Kids(f), Kids(sib));
    HoldsParts(a, Kids(sib), Kids(f));
    MovedKids(a, b, Kids(g), PagesAll(Kids(f)) + PagesAll(Kids(sib)));
    HoldsKids(b, g);
  }

  lemma FreedOne(a: Store, b: Store, ps: multiset<nat>, qs: multiset<nat>, freed: nat)
    requires Exactly(a, ps) && ps == qs + multiset{freed} && b.Keys == a.Keys - {freed}
    ensures Exactly(b, qs)
  {
    forall p ensures qs[p] == if p in b then 1 else 0 {
      assert ps[p] == qs[p] + multiset{freed}[p];
      assert p in b.Keys <==> p in a.Keys - {freed};
    }
  }

  lemma MergeRightPages(c: Ctx, f: Tree)
    requires HasRight(c) && Alike(f, c.right[0])
    ensures PagesCtx(c) + Pages(f)
            == PagesCtx(MergeRight(c, f).0) + Pages(MergeRight(c, f).1) + multiset{c.right[0].page}
  {
    hide PagesAll, Pages;
    var (d, g) := MergeRight(c, f);
    var r := c.right[0];
    FusedKids(f, c.keysR[0], r);
    PagesConcat(Kids(f), Kids(r));
    PagesFirst(c.right);
    PagesKids(f);
    PagesKids(r);
    PagesKids(g);
  }

  lemma MergeRightHeld(st: Store, c: Ctx, f: Tree)
    requires Represents(st, c, f) && HasRight(c) && Alike(f, c.right[0])
    ensures var (d, g) := MergeRight(c, f); d.Below? && Represents(MergedStore(st, d, g, c.right[0].page), d, g)
  {
    hide Holds, Exactly, PagesAll, Pages, Content, HoldsAll, PagesCtx, Fused;
    var (d, g) := MergeRight(c, f);
    var r := c.right[0];
    var others := PagesAll(c.left) + PagesAll(c.right[1..]);
    FusedKids(f, c.keysR[0], r);
    RightFamily(st, c, f);
    FamilyDistinct(st, c, f, r, others);
    var b := MergedStore(st, d, g, r.page);
    MergedHeld(st, b, c, f, r, others, g);
    RestHeld(st, b, c, f, r, c.left, c.right[1..]);
    MergeRightPages(c, f);
    FreedOne(st, b, PagesCtx(c) + Pages(f), PagesCtx(d) + Pages(g), r.page);
  }

  lemma MergeLeftPages(c: Ctx, f: Tree)
    requires HasLeft(c) && Alike(Last(c.left), f)
    ensures PagesCtx(c) + Pages(f) == PagesCtx(MergeLeft(c, f).0) + Pages(MergeLeft(c, f).1) + multiset{f.page}
  {
    hide PagesAll, Pages;
    var (d, g) := MergeLeft(c, f);
    var l := Last(c.left);
    FusedKids(l, Last(c.keysL), f);
    PagesConcat(Kids(l), Kids(f));
    PagesLast(c.left);
    PagesKids(f);
    PagesKids(l);
    PagesKids(g);
  }

  lemma MergeLeftHeld(st: Store, c: Ctx, f: Tree)
    requires Represents(st, c, f) && HasLeft(c) && Alike(Last(c.left), f)
    ensures var (d, g) := MergeLeft(c, f); d.Below? && Represents(MergedStore(st, d, g, f.page), d, g)
  {
    hide Holds, Exactly, PagesAll, Pages, Content, HoldsAll, PagesCtx, Fused;
    var (d, g) := MergeLeft(c, f);
    var l := Last(c.left);
    var others := PagesAll(Front(c.left)) + PagesAll(c.right);
    FusedKids(l, Last(c.keysL), f);
    LeftFamily(st, c, f);
    FamilyDistinct(st, c, f, l, others);
    var b := MergedStore(st, d, g, f.page);
    MergedHeld(st, b, c, f, l, others, g);
    RestHeld(st, b, c, f, l, Front(c.left), c.right);
    MergeLeftPages(c, f);
    FreedOne(st, b, PagesCtx(c) + Pages(f), PagesCtx(d) + Pages(g), f.page);
  }

  // ---- the root

  /** An internal root without keys gives its place to its only child; an empty leaf root leaves nothing. */
  lemma RootHeld(st: Store, f: Tree)
    requires Represents(st, Top, f) && f.keys == [] && (f.Node? ==> |f.kids| == 1)
    ensures f.Node? ==> Represents(st - {f.page}, Top, f.kids[0])
    ensures f.Leaf? ==> st - {f.page} == map[]
  {
    hide Exactly, PagesAll;
    var b := st - {f.page};
    PagesKids(f);
    if f.Node? {
      var t := f.kids[0];
      assert f.kids == [t];
      PagesOne(t);
      assert Pages(f) == Pages(t) + multiset{f.page};
      FreedOne(st, b, PagesCtx(Top) + Pages(f), PagesCtx(Top) + Pages(t), f.page);
      assert multiset{f.page} + Pages(t) == PagesCtx(Top) + Pages(f);
      Untouched(st, b, multiset{f.page}, Pages(t));
      HoldsFrame(st, b, t);
    } else {
      LeafAlone(st, f);
    }
  }

  lemma LeafAlone(st: Store, f: Tree)
    requires Represents(st, Top, f) && f.Leaf?
    ensures st - {f.page} == map[]
  {
    forall p | p in st ensures p == f.page {
      assert (PagesCtx(Top) + Pages(f))[p] == 1;
    }
  }

  // ---- separators above a leaf

  /** The climb: the first level where the path is not on the leftmost child has its separator rewritten. */
  function RaisedStore(st: Store, c: Ctx, hole: nat, m: Key): Store {
    if c.Top? then st
    else if c.left != [] && c.keysL != [] then st[c.page := HoleContent(RaiseSep(c, m), hole)]
    else RaisedStore(st, c.up, c.page, m)
  }

  lemma RaisedHere(st: Store, c: Ctx, f: Tree, m: Key)
    requires Represents(st, c, f) && c.Below? && c.left != [] && c.keysL != []
    ensures Represents(st[c.page := HoleContent(RaiseSep(c, m), f.page)], RaiseSep(c, m), f)
  {
    hide Exactly, PagesAll, Pages;
    var d := RaiseSep(c, m);
    var b := st[c.page := HoleContent(d, f.page)];
    var rest := PagesAll(c.left) + PagesAll(c.right) + PagesCtx(c.up) + Pages(f);
    assert multiset{c.page} + rest == PagesCtx(c) + Pages(f);
    Untouched(st, b, multiset{c.page}, rest);
    MovedKids(st, b, c.left, rest);
    MovedKids(st, b, c.right, rest);
    HoldsCtxFrame(st, b, c.up, c.page);
    HoldsFrame(st, b, f);
    assert PagesCtx(d) == PagesCtx(c);
    SameKeys(st, b, PagesCtx(c) + Pages(f));
  }

  lemma {:induction false} RaisedHeld(st: Store, c: Ctx, f: Tree, m: Key)
    requires Represents(st, c, f)
    ensures Represents(RaisedStore(st, c, f.page, m), RaiseSep(c, m), f)
    decreases c
  {
    hide Exactly, PagesAll, Pages, Holds, PagesCtx, HoldsCtx;
    if c.Below? {
      if c.left != [] && c.keysL != [] {
        RaisedHere(st, c, f, m);
      } else {
        UpRepresents(st, c, f);
        RaisedHeld(st, c.up, Rebuilt(c, f), m);
        var d := c.(up := RaiseSep(c.up, m));
        UpRepresents(RaisedStore(st, c.up, c.page, m), d, f);
      }
    }
  }

  // ---- splitting a leaf

  lemma NewPage(a: Store, b: Store, ps: multiset<nat>, p: nat)
    requires Exactly(a, ps) && p !in a && b.Keys == a.Keys + {p}
    ensures Exactly(b, ps + multiset{p})
  {
    forall q ensures (ps + multiset{p})[q] == if q in b then 1 else 0 {
      assert q in b.Keys <==> q in a.Keys + {p};
      assert ps[q] == if q in a then 1 else 0;
    }
  }

  lemma LeafHeld(st: Store, t: Tree)
    requires t.Leaf?
    ensures Holds(st, t) <==> t.page in st && st[t.page] == Content(t)
  {
  }

  lemma SplitPages(c: Ctx, f: Tree, l: Tree, r: Tree, s: Key)
    requires c.Below? && f.Leaf? && l.Leaf? && r.Leaf? && l.page == f.page
    ensures PagesCtx(c.(keysR := [s] + c.keysR, right := [r] + c.right)) + Pages(l)
            == PagesCtx(c) + Pages(f) + multiset{r.page}
  {
    hide PagesAll;
    LeafPages(f);
    LeafPages(l);
    LeafPages(r);
    PagesConcat([r], c.right);
    PagesOne(r);
  }

  /** Editing the focus leaf and its parent leaves the siblings and the levels above in place. */
  lemma AroundHeld(st: Store, b: Store, c: Ctx, f: Tree)
    requires Represents(st, c, f) && c.Below? && f.Leaf?
    requires forall p :: p in st && p != c.page && p != f.page ==> p in b && b[p] == st[p]
    ensures HoldsAll(b, c.left) && HoldsAll(b, c.right) && HoldsCtx(b, c.up, c.page)
  {
    hide Exactly, PagesAll, Holds;
    LeafPages(f);
    var rest := PagesAll(c.left) + PagesAll(c.right) + PagesCtx(c.up);
    assert (multiset{c.page} + multiset{f.page}) + rest == PagesCtx(c) + Pages(f);
    Untouched(st, b, multiset{c.page} + multiset{f.page}, rest);
    MovedKids(st, b, c.left, rest);
    MovedKids(st, b, c.right, rest);
    HoldsCtxFrame(st, b, c.up, c.page);
  }

  /** A second leaf to the right of the first, with a separator between them in the parent. */
  lemma SplitHeld(st: Store, c: Ctx, f: Tree, l: Tree, r: Tree, s: Key)
    requires Represents(st, c, f) && c.Below? && f.Leaf? && l.Leaf? && r.Leaf? && l.page == f.page && r.page !in st
    ensures var d := c.(keysR := [s] + c.keysR, right := [r] + c.right);
            Represents(st[l.page := Content(l)][r.page := Content(r)][c.page := HoleContent(d, l.page)], d, l)
  {
    hide Exactly, PagesAll, Holds, HoldsAll, Content, PagesCtx;
    var d := c.(keysR := [s] + c.keysR, right := [r] + c.right);
    FocusInUse(st, c, f);
    var b := st[l.page := Content(l)][r.page := Content(r)][c.page := HoleContent(d, l.page)];
    AroundHeld(st, b, c, f);
    LeafHeld(b, l);
    LeafHeld(b, r);
    HoldsOne(b, r);
    HoldsParts(b, [r], c.right);
    SplitPages(c, f, l, r, s);
    NewPage(st, b, PagesCtx(c) + Pages(f), r.page);
  }

  lemma SplitRootHeld(st: Store, f: Tree, l: Tree, r: Tree, s: Key, rootPage: nat)
    requires Represents(st, Top, f) && f.Leaf? && l.Leaf? && r.Leaf? && l.page == f.page
    requires r.page !in st && rootPage !in st && rootPage != r.page
    ensures Represents(st[l.page := Content(l)][r.page := Content(r)][rootPage := InnerPage([s], [l.page, r.page])],
            Top, Node(rootPage, [s], [l, r]))
  {
    hide Exactly, PagesAll, Holds, HoldsAll;
    var t := Node(rootPage, [s], [l, r]);
    var a := st[l.page := Content(l)][r.page := Content(r)];
    var b := a[rootPage := InnerPage([s], [l.page, r.page])];
    LeafPages(f);
    LeafPages(l);
    LeafPages(r);
    FocusInUse(st, Top, f);
    NewPage(st, a, PagesCtx(Top) + Pages(f), r.page);
    NewPage(a, b, PagesCtx(Top) + Pages(f) + multiset{r.page}, rootPage);
    PagesKids(t);
    assert [l, r] == [l] + [r];
    PagesConcat([l], [r]);
    PagesOne(l);
    PagesOne(r);
    assert PagesCtx(Top) + Pages(t) == PagesCtx(Top) + Pages(f) + multiset{r.page} + multiset{rootPage};
    LeafHeld(b, l);
    LeafHeld(b, r);
    HoldsOne(b, l);
    HoldsOne(b, r);
    HoldsParts(b, [l], [r]);
    assert Numbers([l, r]) == [l.page, r.page];
    HoldsNode(b, t);
  }
}
