/** The wait-for graph: two adjacency maps, breadth-first reachability, and batch edge insertion. */
module WaitForGraphs {
  type Txn = nat

  datatype Graph = Graph(outgoing: map<Txn, set<Txn>>, incoming: map<Txn, set<Txn>>)

  const EMPTY := Graph(map[], map[])

  predicate Edge(g: Graph, a: Txn, b: Txn) {
    a in g.outgoing && b in g.outgoing[a]
  }

  /** Both indexes cover the same transactions, and incoming is the transpose of outgoing. */
  ghost predicate Consistent(g: Graph) {
    && g.outgoing.Keys == g.incoming.Keys
    && (forall a :: a in g.outgoing ==> g.outgoing[a] <= g.outgoing.Keys)
    && (forall a, b :: a in g.outgoing && b in g.incoming ==> (b in g.outgoing[a] <==> a in g.incoming[b]))
    && (forall b :: b in g.incoming ==> g.incoming[b] <= g.incoming.Keys)
  }

  ghost predicate IsPath(g: Graph, p: seq<Txn>) {
    && |p| > 0
    && (forall i :: 0 <= i < |p| - 1 ==> Edge(g, p[i], p[i + 1]))
  }

  ghost predicate Joins(g: Graph, p: seq<Txn>, a: Txn, b: Txn) {
    IsPath(g, p) && p[0] == a && p[|p| - 1] == b
  }

  /** b can be reached from a along zero or more edges. */
  ghost predicate Reaches(g: Graph, a: Txn, b: Txn) {
    exists p :: Joins(g, p, a, b)
  }

  ghost predicate Cycle(g: Graph, p: seq<Txn>) {
    IsPath(g, p) && |p| > 1 && p[0] == p[|p| - 1]
  }

  ghost predicate Acyclic(g: Graph) {
    forall p :: !Cycle(g, p)
  }

  ghost predicate RankedBy(g: Graph, rank: map<Txn, nat>) {
    && g.outgoing.Keys <= rank.Keys
    && (forall a, b :: Edge(g, a, b) ==> a in rank && b in rank && rank[a] > rank[b])
  }

  /** Some numbering decreases along every edge. */
  ghost predicate Ranked(g: Graph) {
    exists rank :: RankedBy(g, rank)
  }

  // ---------------------------------------------------------------- operations on values

  function WithNode(g: Graph, t: Txn): Graph {
    if t in g.outgoing then g else Graph(g.outgoing[t := {}], g.incoming[t := {}])
  }

  function WithEdges(g: Graph, from: Txn, to: set<Txn>): Graph
    requires from in g.outgoing
  {
    Graph(g.outgoing[from := g.outgoing[from] + to],
          map b | b in g.incoming :: if b in to then g.incoming[b] + {from} else g.incoming[b])
  }

  function WithoutOutgoing(g: Graph, t: Txn): Graph {
    if t !in g.outgoing then g
    else Graph(g.outgoing[t := {}], map b | b in g.incoming :: g.incoming[b] - {t})
  }

  function Without(g: Graph, t: Txn): Graph {
    if t !in g.outgoing || t !in g.incoming then g
    else Graph(map a | a in g.outgoing && a != t :: g.outgoing[a] - {t},
               map b | b in g.incoming && b != t :: g.incoming[b] - {t})
  }

  /** A batch is accepted when every named transaction exists and no destination already reaches the source. */
  ghost predicate Accepts(g: Graph, from: Txn, to: set<Txn>) {
    from in g.outgoing && (forall d :: d in to ==> d in g.incoming && !Reaches(g, d, from))
  }

  // ---------------------------------------------------------------- paths

  lemma Step(g: Graph, a: Txn, b: Txn, c: Txn)
    requires Reaches(g, a, b) && Edge(g, b, c)
    ensures Reaches(g, a, c)
  {
    var p :| Joins(g, p, a, b);
    assert Joins(g, p + [c], a, c);
  }

  lemma Start(g: Graph, a: Txn, b: Txn, c: Txn)
    requires Edge(g, a, b) && Reaches(g, b, c)
    ensures Reaches(g, a, c)
  {
    var p :| Joins(g, p, b, c);
    var q := [a] + p;
    forall i | 0 <= i < |q| - 1 ensures Edge(g, q[i], q[i + 1]) {
      if i > 0 { assert q[i] == p[i - 1] && q[i + 1] == p[i]; }
    }
    assert Joins(g, q, a, c);
  }

  lemma Here(g: Graph, a: Txn)
    ensures Reaches(g, a, a)
  {
    assert Joins(g, [a], a, a);
  }

  /** A path that starts inside a set closed under edges never leaves it. */
  lemma {:induction false} StaysInside(g: Graph, s: set<Txn>, p: seq<Txn>)
    requires IsPath(g, p) && p[0] in s
    requires forall a, b :: a in s && Edge(g, a, b) ==> b in s
    ensures p[|p| - 1] in s
  {
    if |p| > 1 {
      assert Edge(g, p[0], p[1]);
      forall i | 0 <= i < |p[1..]| - 1 ensures Edge(g, p[1..][i], p[1..][i + 1]) {
        assert Edge(g, p[i + 1], p[i + 1 + 1]);
      }
      StaysInside(g, s, p[1..]);
    }
  }

  lemma {:induction false} RankFalls(g: Graph, rank: map<Txn, nat>, p: seq<Txn>)
    requires RankedBy(g, rank) && IsPath(g, p) && |p| > 1
    ensures p[0] in rank && p[|p| - 1] in rank && rank[p[0]] > rank[p[|p| - 1]]
  {
    assert Edge(g, p[|p| - 2], p[|p| - 2 + 1]);
    if |p| > 2 {
      var q := p[..|p| - 1];
      forall i | 0 <= i < |q| - 1 ensures Edge(g, q[i], q[i + 1]) {
        assert Edge(g, p[i], p[i + 1]);
      }
      RankFalls(g, rank, q);
    }
  }

  lemma RankedIsAcyclic(g: Graph)
    requires Ranked(g)
    ensures Acyclic(g)
  {
    var rank :| RankedBy(g, rank);
    forall p ensures !Cycle(g, p) {
      if Cycle(g, p) { RankFalls(g, rank, p); }
    }
  }

  // ---------------------------------------------------------------- accepted batches keep the graph acyclic

  /** Lifting everything that reaches the source above the old ranks makes room for the new edges. */
  lemma AcceptedStaysRanked(g: Graph, from: Txn, to: set<Txn>)
    requires Consistent(g) && Ranked(g) && Accepts(g, from, to)
    ensures Ranked(WithEdges(g, from, to))
  {
    var rank :| RankedBy(g, rank);
    var top := RankBound(rank, rank.Keys);
    var above := set a | a in rank && Reaches(g, a, from);
    var lifted := map a | a in rank :: if a in above then rank[a] + top else rank[a];
    var grown := WithEdges(g, from, to);
    Here(g, from);
    forall a, b | Edge(grown, a, b) ensures a in lifted && b in lifted && lifted[a] > lifted[b] {
      if Edge(g, a, b) {
        if b in above { Start(g, a, b, from); }
      } else {
        assert a == from && b in to && b !in above;
        assert b in g.outgoing;
      }
    }
    assert RankedBy(grown, lifted);
  }

  lemma {:induction false} RankBound(rank: map<Txn, nat>, keys: set<Txn>) returns (top: nat)
    requires keys <= rank.Keys
    ensures forall a :: a in keys ==> rank[a] < top
    decreases keys
  {
    if keys == {} {
      top := 0;
    } else {
      var k :| k in keys;
      top := RankBound(rank, keys - {k});
      if top <= rank[k] { top := rank[k] + 1; }
    }
  }

  /** A destination that already reaches the source would close a cycle. */
  lemma RejectedWouldCycle(g: Graph, from: Txn, to: set<Txn>, d: Txn)
    requires from in g.outgoing && d in to && Reaches(g, d, from)
    ensures !Acyclic(WithEdges(g, from, to))
  {
    var grown := WithEdges(g, from, to);
    var p :| Joins(g, p, d, from);
    var q := [from] + p;
    forall i | 0 <= i < |q| - 1 ensures Edge(grown, q[i], q[i + 1]) {
      if i > 0 { assert Edge(g, p[i - 1], p[i - 1 + 1]); }
    }
    assert Cycle(grown, q);
  }

  /** A batch whose transactions all exist is accepted exactly when it leaves the graph acyclic. */
  lemma AcceptsExactly(g: Graph, from: Txn, to: set<Txn>)
    requires Consistent(g) && Ranked(g) && from in g.outgoing && to <= g.incoming.Keys
    ensures Accepts(g, from, to) <==> Acyclic(WithEdges(g, from, to))
  {
    if Accepts(g, from, to) {
      AcceptedStaysRanked(g, from, to);
      RankedIsAcyclic(WithEdges(g, from, to));
    } else {
      var d :| d in to && Reaches(g, d, from);
      RejectedWouldCycle(g, from, to, d);
    }
  }

  lemma FewerEdgesStayRanked(g: Graph, h: Graph)
    requires Ranked(g) && h.outgoing.Keys <= g.outgoing.Keys
    requires forall a, b :: Edge(h, a, b) ==> Edge(g, a, b)
    ensures Ranked(h)
  {
    var rank :| RankedBy(g, rank);
    assert RankedBy(h, rank);
  }

  lemma NewNodeStaysRanked(g: Graph, t: Txn)
    requires Ranked(g) && Consistent(g)
    ensures Ranked(WithNode(g, t)) && Consistent(WithNode(g, t))
  {
    var rank :| RankedBy(g, rank);
    var wider := if t in rank then rank else rank[t := 0];
    forall a, b | Edge(WithNode(g, t), a, b) ensures a in wider && b in wider && wider[a] > wider[b] {
      assert Edge(g, a, b);
    }
    assert RankedBy(WithNode(g, t), wider);
  }

  lemma RemovalConsistent(g: Graph, t: Txn)
    requires Consistent(g)
    ensures Consistent(Without(g, t))
  {
    var h := Without(g, t);
    forall a | a in h.outgoing ensures h.outgoing[a] <= h.outgoing.Keys {
      assert g.outgoing[a] <= g.outgoing.Keys;
    }
    forall b | b in h.incoming ensures h.incoming[b] <= h.incoming.Keys {
      assert g.incoming[b] <= g.incoming.Keys;
    }
  }

  lemma ClearingConsistent(g: Graph, t: Txn)
    requires Consistent(g)
    ensures Consistent(WithoutOutgoing(g, t))
  {
    var h := WithoutOutgoing(g, t);
    forall b | b in h.incoming ensures h.incoming[b] <= h.incoming.Keys {
      assert g.incoming[b] <= g.incoming.Keys;
    }
  }

  lemma GrowthConsistent(g: Graph, from: Txn, to: set<Txn>)
    requires Consistent(g) && from in g.outgoing && to <= g.outgoing.Keys
    ensures Consistent(WithEdges(g, from, to))
  {
    var h := WithEdges(g, from, to);
    forall a | a in h.outgoing ensures h.outgoing[a] <= h.outgoing.Keys {
      assert g.outgoing[a] <= g.outgoing.Keys;
    }
    forall b | b in h.incoming ensures h.incoming[b] <= h.incoming.Keys {
      assert g.incoming[b] <= g.incoming.Keys;
    }
  }

  lemma OperationsStayConsistent(g: Graph, from: Txn, to: set<Txn>)
    requires Consistent(g)
    ensures Consistent(Without(g, from)) && Consistent(WithoutOutgoing(g, from))
    ensures from in g.outgoing && to <= g.outgoing.Keys ==> Consistent(WithEdges(g, from, to))
  {
    hide Consistent, Without, WithoutOutgoing, WithEdges;
    RemovalConsistent(g, from);
    ClearingConsistent(g, from);
    if from in g.outgoing && to <= g.outgoing.Keys { GrowthConsistent(g, from, to); }
  }

  lemma RemovalsStayRanked(g: Graph, t: Txn)
    requires Ranked(g)
    ensures Ranked(Without(g, t)) && Ranked(WithoutOutgoing(g, t))
  {
    FewerEdgesStayRanked(g, Without(g, t));
    FewerEdgesStayRanked(g, WithoutOutgoing(g, t));
  }

  // ---------------------------------------------------------------- the class

  function Elems(s: seq<Txn>): set<Txn> {
    set d | d in s
  }

  lemma ElemsSnoc(s: seq<Txn>, i: nat)
    requires i < |s|
    ensures Elems(s[..i + 1]) == Elems(s[..i]) + {s[i]}
  {
    assert s[..i + 1] == s[..i] + [s[i]];
  }

  lemma NoEdges(g: Graph, from: Txn)
    requires from in g.outgoing
    ensures WithEdges(g, from, {}) == g && Elems([]) == {}
  {
    assert g.outgoing[from] + {} == g.outgoing[from];
    assert WithEdges(g, from, {}).outgoing == g.outgoing;
    assert WithEdges(g, from, {}).incoming == g.incoming;
  }

  lemma OneMoreEdge(g: Graph, from: Txn, to: set<Txn>, d: Txn)
    requires from in g.outgoing && d in g.incoming
    ensures var h := WithEdges(g, from, to);
            Graph(h.outgoing[from := h.outgoing[from] + {d}], h.incoming[d := h.incoming[d] + {from}])
              == WithEdges(g, from, to + {d})
  {
    var h, k := WithEdges(g, from, to), WithEdges(g, from, to + {d});
    assert h.outgoing[from] + {d} == k.outgoing[from];
    assert h.outgoing[from := h.outgoing[from] + {d}] == k.outgoing;
    assert h.incoming[d := h.incoming[d] + {from}] == k.incoming;
  }

  function Erased(index: map<Txn, set<Txn>>, t: Txn, at: set<Txn>): map<Txn, set<Txn>> {
    map b | b in index :: if b in at then index[b] - {t} else index[b]
  }

  function Cleared(index: map<Txn, set<Txn>>, t: Txn): map<Txn, set<Txn>> {
    map b | b in index :: index[b] - {t}
  }

  /** Erasing t where it occurs erases it everywhere. */
  lemma ErasesEverywhere(index: map<Txn, set<Txn>>, t: Txn, at: set<Txn>)
    requires forall b :: b in index && b !in at ==> t !in index[b]
    ensures Erased(index, t, at) == Cleared(index, t)
  {
    var left := Erased(index, t, at);
    forall b | b in index ensures left[b] == index[b] - {t} {
      if b !in at { assert index[b] - {t} == index[b]; }
    }
  }

  /** In a consistent graph the two indexes name exactly the entries that mention t. */
  lemma ErasesAll(g: Graph, t: Txn)
    requires Consistent(g) && t in g.outgoing
    ensures Erased(g.incoming, t, g.outgoing[t]) == Cleared(g.incoming, t)
    ensures Erased(g.outgoing, t, g.incoming[t]) == Cleared(g.outgoing, t)
  {
    ErasesEverywhere(g.incoming, t, g.outgoing[t]);
    ErasesEverywhere(g.outgoing, t, g.incoming[t]);
  }

  lemma Dropping(index: map<Txn, set<Txn>>, t: Txn)
    ensures (map b | b in Cleared(index, t) && b != t :: Cleared(index, t)[b])
            == map b | b in index && b != t :: index[b] - {t}
  {
  }

  class WaitForGraph {
    var outgoing: map<Txn, set<Txn>>
    var incoming: map<Txn, set<Txn>>

    function View(): Graph
      reads this
    {
      Graph(outgoing, incoming)
    }

    constructor ()
      ensures View() == EMPTY
    {
      outgoing, incoming := map[], map[];
    }

    method AddNode(t: Txn)
      modifies this
      ensures View() == WithNode(old(View()), t)
    {
      if t in outgoing { return; }
      outgoing := outgoing[t := {}];
      incoming := incoming[t := {}];
    }

    /** Breadth-first search over the outgoing links. */
    method PathExists(from: Txn, to: Txn) returns (found: bool)
      requires Consistent(View())
      ensures found <==> from in outgoing && to in outgoing && Reaches(View(), from, to)
    {
      if from !in outgoing || to !in outgoing { return false; }
      Here(View(), from);
      if from == to { return true; }
      found := Search(View(), from, to);
    }

    static method Search(g: Graph, from: Txn, to: Txn) returns (found: bool)
      requires Consistent(g) && from in g.outgoing && from != to
      ensures found <==> Reaches(g, from, to)
    {
      Here(g, from);
      var pending := [from];
      var visited := {from};
      while pending != []
        invariant from in visited && to !in visited && visited <= g.outgoing.Keys
        invariant forall v :: v in visited ==> Reaches(g, from, v)
        invariant forall v :: v in pending ==> v in visited
        invariant forall a, b :: a in visited && a !in pending && Edge(g, a, b) ==> b in visited
        decreases g.outgoing.Keys - visited, |pending|
      {
        var current := pending[0];
        pending := pending[1..];
        var links := g.outgoing[current];
        if to in links {
          Step(g, from, current, to);
          return true;
        }
        ghost var before := visited;
        visited, pending := Enqueue(g, from, current, links, visited, pending);
      }
      forall p | Joins(g, p, from, to) ensures false {
        StaysInside(g, visited, p);
      }
      return false;
    }

    /** Marks the unseen neighbours of `current` as visited and appends them to the queue. */
    static method Enqueue(g: Graph, ghost from: Txn, ghost current: Txn, links: set<Txn>, seen: set<Txn>,
        queue: seq<Txn>)
      returns (visited: set<Txn>, pending: seq<Txn>)
      requires current in g.outgoing && links == g.outgoing[current] && Reaches(g, from, current)
      requires forall v :: v in seen ==> Reaches(g, from, v)
      ensures visited == seen + links
      ensures forall v :: v in visited ==> Reaches(g, from, v)
      ensures forall v :: v in pending <==> v in queue || v in links - seen
      ensures links <= seen ==> pending == queue
    {
      visited, pending := seen, queue;
      var rest := links;
      while rest != {}
        invariant rest <= links && visited == seen + (links - rest)
        invariant forall v :: v in visited ==> Reaches(g, from, v)
        invariant forall v :: v in pending <==> v in queue || v in (links - rest) - seen
        invariant links <= seen ==> pending == queue
        decreases rest
      {
        var next :| next in rest;
        rest := rest - {next};
        assert Edge(g, current, next);
        Step(g, from, current, next);
        if next !in visited {
          visited := visited + {next};
          pending := pending + [next];
        }
      }
    }

    /** All or nothing: on rejection neither index changes. */
    method AddEdges(from: Txn, destinations: seq<Txn>) returns (ok: bool)
      requires Consistent(View())
      modifies this
      ensures ok <==> Accepts(old(View()), from, Elems(destinations))
      ensures View() == if ok then WithEdges(old(View()), from, Elems(destinations)) else old(View())
    {
      if from !in outgoing { return false; }
      for i := 0 to |destinations|
        invariant View() == old(View())
        invariant forall d :: d in destinations[..i] ==> d in incoming && !Reaches(View(), d, from)
      {
        if destinations[i] !in incoming { return false; }
        var closes := PathExists(destinations[i], from);
        if closes { return false; }
      }
      assert destinations[..|destinations|] == destinations;
      InsertEdges(from, destinations);
      return true;
    }

    method InsertEdges(from: Txn, destinations: seq<Txn>)
      requires from in outgoing && (forall d :: d in destinations ==> d in incoming)
      modifies this
      ensures View() == WithEdges(old(View()), from, Elems(destinations))
    {
      hide WithEdges;
      NoEdges(View(), from);
      assert destinations[..0] == [];
      for i := 0 to |destinations|
        invariant from in outgoing && incoming.Keys == old(incoming).Keys
        invariant View() == WithEdges(old(View()), from, Elems(destinations[..i]))
      {
        var d := destinations[i];
        ElemsSnoc(destinations, i);
        OneMoreEdge(old(View()), from, Elems(destinations[..i]), d);
        outgoing := outgoing[from := outgoing[from] + {d}];
        incoming := incoming[d := incoming[d] + {from}];
      }
      assert destinations[..|destinations|] == destinations;
    }

    /** Drops t from the incoming index of each of `destinations`. */
    method EraseIncoming(t: Txn, destinations: set<Txn>)
      modifies this`incoming
      ensures incoming == Erased(old(incoming), t, destinations)
    {
      var rest := destinations;
      while rest != {}
        invariant rest <= destinations
        invariant incoming == Erased(old(incoming), t, destinations - rest)
        decreases rest
      {
        var d :| d in rest;
        rest := rest - {d};
        if d in incoming { incoming := incoming[d := incoming[d] - {t}]; }
      }
    }

    method EraseOutgoing(t: Txn, sources: set<Txn>)
      modifies this`outgoing
      ensures outgoing == Erased(old(outgoing), t, sources)
    {
      var rest := sources;
      while rest != {}
        invariant rest <= sources
        invariant outgoing == Erased(old(outgoing), t, sources - rest)
        decreases rest
      {
        var s :| s in rest;
        rest := rest - {s};
        if s in outgoing { outgoing := outgoing[s := outgoing[s] - {t}]; }
      }
    }

    method Remove(t: Txn)
      requires Consistent(View())
      modifies this
      ensures View() == Without(old(View()), t)
    {
      hide Consistent, Erased;
      if t !in outgoing || t !in incoming { return; }
      ErasesAll(View(), t);
      Dropping(outgoing, t);
      Dropping(incoming, t);
      var destinations, sources := outgoing[t], incoming[t];
      EraseIncoming(t, destinations);
      EraseOutgoing(t, sources);
      outgoing := map a | a in outgoing && a != t :: outgoing[a];
      incoming := map b | b in incoming && b != t :: incoming[b];
    }

    method RemoveOutgoing(t: Txn)
      requires Consistent(View())
      modifies this
      ensures View() == WithoutOutgoing(old(View()), t)
    {
      if t !in outgoing { return; }
      ErasesAll(View(), t);
      EraseIncoming(t, outgoing[t]);
      outgoing := outgoing[t := {}];
    }
  }
}
