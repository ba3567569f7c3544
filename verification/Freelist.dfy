/** Page allocation: the chain of free pages threaded through the pages themselves. */
module Freelists {
  const NULL_PAGE: nat := 0

  datatype Kind = Leaf | Internal | Metadata

  /** A page holds tree data or a pair of freelist links. */
  datatype Content = Data(kind: Kind) | Links(next: nat, prev: nat)

  /** The header fields and the page images of the database file. */
  datatype Files = Files(count: nat, head: nat, free: nat, pages: map<nat, Content>)

  const FRESH := Files(1, NULL_PAGE, 0, map[])

  /** The link bytes of a page; only freelist pages have meaningful ones. */
  function NextOf(pages: map<nat, Content>, n: nat): nat {
    if n in pages && pages[n].Links? then pages[n].next else NULL_PAGE
  }

  /** The page becomes a freelist page whose successor is kept and whose predecessor is replaced. */
  function Relinked(pages: map<nat, Content>, n: nat, prev: nat): map<nat, Content> {
    if n == NULL_PAGE then pages else pages[n := Links(NextOf(pages, n), prev)]
  }

  /** Takes the head of the chain, or grows the file by one page. */
  function Allocate(f: Files, kind: Kind): (Files, nat) {
    if f.free > 0 && f.head != NULL_PAGE then
      var next := NextOf(f.pages, f.head);
      (Files(f.count, next, f.free - 1, Relinked(f.pages, next, NULL_PAGE)[f.head := Data(kind)]), f.head)
    else (Files(f.count + 1, f.head, f.free, f.pages[f.count := Data(kind)]), f.count)
  }

  predicate InRange(f: Files, n: nat) {
    n != NULL_PAGE && n < f.count
  }

  /** Pushes the page onto the chain. */
  function Free(f: Files, n: nat): Files {
    Files(f.count, n, f.free + 1, Relinked(f.pages, f.head, n)[n := Links(f.head, NULL_PAGE)])
  }

  // ---------------------------------------------------------------- well-formed chains

  ghost predicate Distinct(chain: seq<nat>) {
    forall i, j :: 0 <= i < j < |chain| ==> chain[i] != chain[j]
  }

  function Elements(chain: seq<nat>): set<nat> {
    set n | n in chain
  }

  /** All page numbers of a file with this many pages, the header page excluded. */
  function PageNumbers(count: nat): (numbers: set<nat>)
    ensures forall n: nat :: n in numbers <==> NULL_PAGE < n < count
  {
    if count <= 1 then {} else PageNumbers(count - 1) + {count - 1}
  }

  function Link(chain: seq<nat>, i: int): nat {
    if 0 <= i < |chain| then chain[i] else NULL_PAGE
  }

  /** Each page of the chain points to its neighbours in both directions. */
  ghost predicate Linked(pages: map<nat, Content>, chain: seq<nat>) {
    forall i :: 0 <= i < |chain| ==>
      chain[i] in pages && pages[chain[i]] == Links(Link(chain, i + 1), Link(chain, i - 1))
  }

  /** The chain is the freelist; with the pages in use it makes up the whole file. */
  ghost predicate Threads(f: Files, inUse: set<nat>, chain: seq<nat>) {
    && Distinct(chain) && Linked(f.pages, chain)
    && f.head == Link(chain, 0) && f.free == |chain|
    && Elements(chain) !! inUse && Elements(chain) + inUse == PageNumbers(f.count)
    && f.count > 0
  }

  ghost predicate WellFormed(f: Files, inUse: set<nat>) {
    exists chain :: Threads(f, inUse, chain)
  }

  lemma {:induction false} CountDistinct(chain: seq<nat>)
    requires Distinct(chain)
    ensures |Elements(chain)| == |chain|
  {
    if chain != [] {
      CountDistinct(chain[1..]);
      assert chain == [chain[0]] + chain[1..];
      assert Elements(chain) == {chain[0]} + Elements(chain[1..]);
      assert chain[0] !in chain[1..];
    }
  }

  lemma {:induction false} CountPages(count: nat)
    requires count > 0
    ensures |PageNumbers(count)| == count - 1
  {
    if count > 1 {
      CountPages(count - 1);
      assert PageNumbers(count) == PageNumbers(count - 1) + {count - 1};
    } else {
      assert PageNumbers(count) == {};
    }
  }

  lemma ChainMember(f: Files, inUse: set<nat>, chain: seq<nat>, i: nat)
    requires Threads(f, inUse, chain) && i < |chain|
    ensures InRange(f, chain[i]) && chain[i] !in inUse
  {
    assert chain[i] in Elements(chain);
    assert chain[i] in PageNumbers(f.count);
  }

  lemma PopLinks(pages: map<nat, Content>, chain: seq<nat>, kind: Kind)
    requires Distinct(chain) && Linked(pages, chain) && chain != [] && NULL_PAGE !in chain
    ensures NextOf(pages, chain[0]) == Link(chain, 1)
    ensures Linked(Relinked(pages, Link(chain, 1), NULL_PAGE)[chain[0] := Data(kind)], chain[1..])
  {
    var rest := chain[1..];
    var after := Relinked(pages, Link(chain, 1), NULL_PAGE)[chain[0] := Data(kind)];
    assert pages[chain[0]] == Links(Link(chain, 1), NULL_PAGE);
    forall i | 0 <= i < |rest|
      ensures rest[i] in after && after[rest[i]] == Links(Link(rest, i + 1), Link(rest, i - 1))
    {
      assert rest[i] == chain[i + 1] && rest[i] != chain[0];
      assert pages[chain[i + 1]] == Links(Link(chain, i + 2), Link(chain, i));
      assert i > 0 ==> rest[i] != chain[1];
    }
  }

  lemma PopElements(chain: seq<nat>, inUse: set<nat>)
    requires Distinct(chain) && chain != [] && Elements(chain) !! inUse
    ensures Distinct(chain[1..]) && Elements(chain[1..]) !! inUse + {chain[0]}
    ensures Elements(chain[1..]) + (inUse + {chain[0]}) == Elements(chain) + inUse
  {
    assert chain == [chain[0]] + chain[1..];
    assert chain[0] !in chain[1..];
    assert Elements(chain) == {chain[0]} + Elements(chain[1..]);
  }

  /** Popping keeps the rest of the chain. */
  lemma PopKeeps(f: Files, inUse: set<nat>, chain: seq<nat>, kind: Kind)
    requires Threads(f, inUse, chain) && chain != []
    ensures Threads(Allocate(f, kind).0, inUse + {chain[0]}, chain[1..]) && Allocate(f, kind).1 == chain[0]
  {
    hide Distinct, Linked, Elements, NextOf, Relinked;
    assert NULL_PAGE !in chain by {
      forall i | 0 <= i < |chain| ensures chain[i] != NULL_PAGE { ChainMember(f, inUse, chain, i); }
    }
    PopLinks(f.pages, chain, kind);
    PopElements(chain, inUse);
    assert Link(chain, 1) == Link(chain[1..], 0);
  }

  lemma GrowKeeps(f: Files, inUse: set<nat>, chain: seq<nat>, kind: Kind)
    requires Threads(f, inUse, chain) && chain == []
    ensures Threads(Allocate(f, kind).0, inUse + {f.count}, []) && Allocate(f, kind).1 == f.count
  {
    assert PageNumbers(f.count + 1) == PageNumbers(f.count) + {f.count};
    assert Elements([]) + (inUse + {f.count}) == (Elements([]) + inUse) + {f.count};
  }

  /** The page handed out was not in use, is a page of the file, and the rest is still well formed. */
  lemma AllocateKeeps(f: Files, inUse: set<nat>, kind: Kind)
    requires WellFormed(f, inUse)
    ensures var (after, n) := Allocate(f, kind);
            && n !in inUse && InRange(after, n) && n in after.pages && after.pages[n] == Data(kind)
            && WellFormed(after, inUse + {n})
  {
    hide Threads, Allocate, WellFormed;
    var chain := TheChain(f, inUse);
    AllocateWith(f, inUse, chain, kind);
  }

  lemma TheChain(f: Files, inUse: set<nat>) returns (chain: seq<nat>)
    requires WellFormed(f, inUse)
    ensures Threads(f, inUse, chain)
  {
    hide Threads;
    chain :| Threads(f, inUse, chain);
  }

  lemma IsWellFormed(f: Files, inUse: set<nat>, chain: seq<nat>)
    requires Threads(f, inUse, chain)
    ensures WellFormed(f, inUse)
  {
    hide Threads;
  }

  lemma AllocateWith(f: Files, inUse: set<nat>, chain: seq<nat>, kind: Kind)
    requires Threads(f, inUse, chain)
    ensures var (after, n) := Allocate(f, kind);
            && n !in inUse && InRange(after, n) && n in after.pages && after.pages[n] == Data(kind)
            && WellFormed(after, inUse + {n})
  {
    hide WellFormed;
    var (after, n) := Allocate(f, kind);
    if chain == [] {
      GrowKeeps(f, inUse, chain, kind);
      assert f.count !in PageNumbers(f.count);
      IsWellFormed(after, inUse + {n}, []);
    } else {
      PopKeeps(f, inUse, chain, kind);
      ChainMember(f, inUse, chain, 0);
      IsWellFormed(after, inUse + {n}, chain[1..]);
    }
  }

  lemma PushKeeps(f: Files, inUse: set<nat>, chain: seq<nat>, n: nat)
    requires Threads(f, inUse, chain) && n in inUse
    ensures Threads(Free(f, n), inUse - {n}, [n] + chain)
  {
    var longer := [n] + chain;
    var after := Free(f, n);
    assert n in PageNumbers(f.count);
    assert n !in chain by { assert n !in Elements(chain); }
    assert longer[1..] == chain;
    forall i | 0 <= i < |longer|
      ensures longer[i] in after.pages && after.pages[longer[i]] == Links(Link(longer, i + 1), Link(longer, i - 1))
    {
      if i > 0 {
        assert longer[i] == chain[i - 1];
        ChainMember(f, inUse, chain, i - 1);
      }
    }
    assert Elements(longer) == Elements(chain) + {n};
    assert Elements(longer) + (inUse - {n}) == Elements(chain) + inUse;
  }

  /** A page may be freed exactly when it is in use: freeing a page that is already free always breaks the chain. */
  lemma FreeKeepsExactlyWhen(f: Files, inUse: set<nat>, n: nat)
    requires WellFormed(f, inUse) && InRange(f, n)
    ensures WellFormed(Free(f, n), inUse - {n}) <==> n in inUse
  {
    hide Threads;
    var chain := TheChain(f, inUse);
    if n in inUse {
      PushKeeps(f, inUse, chain, n);
      IsWellFormed(Free(f, n), inUse - {n}, [n] + chain);
    } else {
      assert inUse - {n} == inUse;
      forall other | Threads(Free(f, n), inUse, other) ensures false {
        Balance(f, inUse, chain);
        Balance(Free(f, n), inUse, other);
      }
    }
  }

  /** No page is lost or counted twice. */
  lemma Balance(f: Files, inUse: set<nat>, chain: seq<nat>)
    requires Threads(f, inUse, chain)
    ensures |inUse| + f.free == f.count - 1
  {
    CountDistinct(chain);
    CountPages(f.count);
  }

  /** Freeing page 1 twice makes the allocator hand it out twice. */
  lemma DoubleFreeSharesAPage()
    ensures var f := Allocate(FRESH, Leaf).0;
            var twice := Free(Free(f, 1), 1);
            Allocate(twice, Leaf).1 == 1 && Allocate(Allocate(twice, Leaf).0, Leaf).1 == 1
  {
    var f := Allocate(FRESH, Leaf).0;
    var once := Free(f, 1);
    assert once.head == 1 && once.free == 1;
    var twice := Free(once, 1);
    assert twice.pages[1] == Links(1, NULL_PAGE);
  }

  // ---------------------------------------------------------------- every run

  datatype Call = AllocateCall(kind: Kind) | FreeCall(page: nat)

  /** The file and the pages its users hold. */
  datatype World = World(files: Files, inUse: set<nat>)

  /** Users free only pages they hold. */
  function Step(w: World, call: Call): World {
    match call
    case AllocateCall(kind) =>
      var (after, n) := Allocate(w.files, kind);
      World(after, w.inUse + {n})
    case FreeCall(n) =>
      if n in w.inUse then World(Free(w.files, n), w.inUse - {n}) else w
  }

  function Run(calls: seq<Call>): World {
    if calls == [] then World(FRESH, {}) else Step(Run(calls[..|calls| - 1]), calls[|calls| - 1])
  }

  lemma {:induction false} RunKeeps(calls: seq<Call>)
    ensures WellFormed(Run(calls).files, Run(calls).inUse)
  {
    hide WellFormed, Allocate, Free;
    if calls == [] {
      assert WellFormed(FRESH, {}) by { FreshIsWellFormed(); }
    } else {
      var before := Run(calls[..|calls| - 1]);
      RunKeeps(calls[..|calls| - 1]);
      match calls[|calls| - 1]
      case AllocateCall(kind) => AllocateKeeps(before.files, before.inUse, kind);
      case FreeCall(n) =>
        if n in before.inUse {
          HeldIsInRange(before.files, before.inUse, n);
          FreeKeepsExactlyWhen(before.files, before.inUse, n);
        }
    }
  }

  lemma FreshIsWellFormed()
    ensures WellFormed(FRESH, {})
  {
    assert PageNumbers(1) == {};
    assert Threads(FRESH, {}, []);
  }

  lemma HeldIsInRange(f: Files, inUse: set<nat>, n: nat)
    requires WellFormed(f, inUse) && n in inUse
    ensures InRange(f, n)
  {
    var chain := TheChain(f, inUse);
    assert n in PageNumbers(f.count);
  }

  /** In every run the free pages and the pages in use partition the file, and the next allocation hands out a page
      nobody holds. */
  lemma Conservation(calls: seq<Call>, kind: Kind)
    ensures var w := Run(calls);
            && |w.inUse| + w.files.free == w.files.count - 1
            && Allocate(w.files, kind).1 !in w.inUse
  {
    hide Threads, Allocate;
    var w := Run(calls);
    RunKeeps(calls);
    var chain := TheChain(w.files, w.inUse);
    Balance(w.files, w.inUse, chain);
    AllocateKeeps(w.files, w.inUse, kind);
  }

  /** The file grows only when there is no free page. */
  lemma GrowsOnlyWhenFull(f: Files, inUse: set<nat>, kind: Kind)
    requires WellFormed(f, inUse)
    ensures Allocate(f, kind).0.count == if f.free > 0 then f.count else f.count + 1
  {
    hide Linked, PageNumbers;
    var chain := TheChain(f, inUse);
    if f.free > 0 {
      assert f.head == chain[0] && chain[0] in Elements(chain);
      assert f.head in PageNumbers(f.count);
    }
  }

  /** The largest number of pages that were ever in use at the same time. */
  function Peak(calls: seq<Call>): nat {
    if calls == [] then 0
    else
      var before, now := Peak(calls[..|calls| - 1]), |Run(calls).inUse|;
      if before < now then now else before
  }

  /** In every run the file is as long as it ever had to be: one header page and the most pages ever in use together. */
  lemma {:induction false} FileIsThePeak(calls: seq<Call>)
    ensures Run(calls).files.count == 1 + Peak(calls)
  {
    hide WellFormed, Allocate, Free, Threads;
    if calls != [] {
      var init, call := calls[..|calls| - 1], calls[|calls| - 1];
      FileIsThePeak(init);
      var w := Run(init);
      Conservation(init, Metadata);
      Conservation(calls, Metadata);
      RunKeeps(init);
      match call
      case AllocateCall(kind) =>
        GrowsOnlyWhenFull(w.files, w.inUse, kind);
        AllocateKeeps(w.files, w.inUse, kind);
      case FreeCall(n) =>
        FreeCount(w.files, n);
    }
  }

  lemma FreeCount(f: Files, n: nat)
    ensures Free(f, n).count == f.count
  {
  }

  // ---------------------------------------------------------------- the pager

  datatype Outcome = Success(page: nat) | InvalidPageKind | PageOutOfRange

  class Pager {
    var count: nat
    var head: nat
    var free: nat
    var pages: map<nat, Content>
    ghost var inUse: set<nat>

    ghost function Image(): Files
      reads this
    {
      Files(count, head, free, pages)
    }

    ghost predicate Valid()
      reads this
    {
      WellFormed(Image(), inUse)
    }

    constructor ()
      ensures Valid() && Image() == FRESH && inUse == {}
    {
      count, head, free, pages, inUse := 1, NULL_PAGE, 0, map[], {};
      new;
      FreshIsWellFormed();
    }

    /** Hands out a page nobody holds, reusing freed pages first. */
    method AllocatePage(kind: Kind) returns (outcome: Outcome)
      requires Valid()
      modifies this
      ensures Valid()
      ensures outcome.InvalidPageKind? <==> kind == Metadata
      ensures outcome.InvalidPageKind? ==> Image() == old(Image()) && inUse == old(inUse)
      ensures kind != Metadata ==>
                && outcome.Success? && outcome.page !in old(inUse) && inUse == old(inUse) + {outcome.page}
                && outcome.page in pages && pages[outcome.page] == Data(kind)
                && Image() == Allocate(old(Image()), kind).0
      ensures forall n :: n in old(inUse) && n in old(pages) ==> n in pages && pages[n] == old(pages[n])
    {
      hide WellFormed;
      if kind == Metadata { return InvalidPageKind; }
      AllocateKeeps(Image(), inUse, kind);
      OthersKept(Image(), inUse, kind);
      if free > 0 && head != NULL_PAGE {
        var page := head;
        var next := NextOf(pages, head);
        if next != NULL_PAGE { pages := pages[next := Links(NextOf(pages, next), NULL_PAGE)]; }
        head := next;
        free := free - 1;
        pages := pages[page := Data(kind)];
        inUse := inUse + {page};
        return Success(page);
      }
      pages := pages[count := Data(kind)];
      inUse := inUse + {count};
      count := count + 1;
      return Success(count - 1);
    }

    /** Puts a page back at the front of the chain, which stays well formed exactly if the page was in use. */
    method FreePage(page: nat) returns (outcome: Outcome)
      requires Valid()
      modifies this
      ensures Valid() <==> InRange(old(Image()), page) ==> page in old(inUse)
      ensures outcome == if InRange(old(Image()), page) then Success(page) else PageOutOfRange
      ensures outcome.Success? ==> Image() == Free(old(Image()), page) && inUse == old(inUse) - {page}
      ensures outcome.PageOutOfRange? ==> Image() == old(Image()) && inUse == old(inUse)
    {
      hide WellFormed;
      if page == NULL_PAGE || page >= count { return PageOutOfRange; }
      FreeKeepsExactlyWhen(Image(), inUse, page);
      if head != NULL_PAGE { pages := pages[head := Links(NextOf(pages, head), page)]; }
      pages := pages[page := Links(head, NULL_PAGE)];
      head := page;
      free := free + 1;
      inUse := inUse - {page};
      return Success(page);
    }
  }

  /** Allocation does not touch the contents of pages in use. */
  lemma OthersKept(f: Files, inUse: set<nat>, kind: Kind)
    requires WellFormed(f, inUse)
    ensures forall n :: n in inUse && n in f.pages ==>
            n in Allocate(f, kind).0.pages && Allocate(f, kind).0.pages[n] == f.pages[n]
  {
    var chain := TheChain(f, inUse);
    if chain != [] {
      ChainMember(f, inUse, chain, 0);
      if |chain| > 1 { ChainMember(f, inUse, chain, 1); }
    }
    assert f.count !in PageNumbers(f.count);
  }
}
