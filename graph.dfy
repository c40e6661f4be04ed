/** The graph accumulator: the two insertion-ordered maps `nodes` and `edges`
    that the extractor fills (scripts/setup.ts lines 16-17) and the insertion
    rules that scripts/utilities/selector.ts applies for one matched
    (selector, dependency) pair (lines 47-81). The state is a value here; the
    class that holds it and updates it in place is `Analyzer.Accumulator`. */
module Graph {
  import opened Options

  /** One matched `get(dependency)` inside the selector named `selector`. */
  datatype Pair = Pair(selector: string, dependency: string)

  datatype Position = Position(x: int, y: int)

  /** The placeholder position every node is created with. */
  const ORIGIN := Position(0, 0)

  /** The type tag a node gets when it is first seen as a selector. */
  const SELECTOR_TYPE := "selector"

  datatype NodeData = NodeData(labelText: string, nodeType: Option<string>)

  datatype GraphNode = GraphNode(id: string, data: NodeData, position: Position)

  /** The arrowhead of every edge (an opaque constant of the rendering library). */
  datatype Marker = ArrowClosed

  datatype GraphEdge = GraphEdge(id: string, source: string, target: string, markerEnd: Marker)

  /** The two JavaScript `Map`s: each is a map together with its keys in the
      order in which they were first set, which is the order `entries()`
      yields them in. */
  datatype GraphState = GraphState(
    nodes: map<string, GraphNode>, nodeKeys: seq<string>,
    edges: map<string, GraphEdge>, edgeKeys: seq<string>)

  const EMPTY := GraphState(map[], [], map[], [])

  /** The record stored for a name first seen as a selector. */
  function SelectorNode(name: string): GraphNode {
    GraphNode(name, NodeData(name, Some(SELECTOR_TYPE)), ORIGIN)
  }

  /** The record stored for a name first seen as a dependency. */
  function DependencyNode(name: string): GraphNode {
    GraphNode(name, NodeData(name, None), ORIGIN)
  }

  /** The edge key `${selector}-->${dependency};`. */
  function EdgeId(source: string, target: string): string {
    source + "-->" + target + ";"
  }

  /** The edge record stored for a pair. */
  function NewEdge(source: string, target: string): GraphEdge {
    GraphEdge(EdgeId(source, target), source, target, ArrowClosed)
  }

  /** `if (!nodes.has(node.id)) nodes.set(node.id, node)`. */
  function AddNode(g: GraphState, node: GraphNode): GraphState {
    if node.id in g.nodes then g
    else g.(nodes := g.nodes[node.id := node], nodeKeys := g.nodeKeys + [node.id])
  }

  /** What selector.ts does with one matched pair: create the selector's node
      and the dependency's node if they are absent, then store the edge unless
      its key is already present or the selector reads itself. */
  function Ingest(g: GraphState, p: Pair): GraphState {
    var g1 := AddNode(g, SelectorNode(p.selector));
    var g2 := AddNode(g1, DependencyNode(p.dependency));
    var id := EdgeId(p.selector, p.dependency);
    if id !in g2.edges && p.selector != p.dependency then
      g2.(edges := g2.edges[id := NewEdge(p.selector, p.dependency)], edgeKeys := g2.edgeKeys + [id])
    else g2
  }

  /** Ingesting a sequence of pairs, first to last. */
  function Accumulate(g: GraphState, ps: seq<Pair>): GraphState
    decreases |ps|
  {
    if ps == [] then g else Accumulate(Ingest(g, ps[0]), ps[1..])
  }

  // ---------------------------------------------------------------------
  // Invariants

  ghost predicate Distinct(s: seq<string>) {
    forall i, j | 0 <= i < j < |s| :: s[i] != s[j]
  }

  /** `keys` lists exactly the keys of `m`. */
  ghost predicate Listed<V>(keys: seq<string>, m: map<string, V>) {
    forall k :: k in keys <==> k in m
  }

  /** The stored edge under key `k` is a well-formed edge of `g`. */
  ghost predicate EdgeWellFormed(g: GraphState, k: string)
    requires k in g.edges
  {
    var e := g.edges[k];
    && e.id == k
    && k == EdgeId(e.source, e.target)
    && e.source != e.target
    && e.source in g.nodes
    && e.target in g.nodes
  }

  /** What the two maps always satisfy: each key list records its map's keys
      once each; a node is stored under its own name at the origin; an edge is
      stored under its own id, is no self-loop, and joins two stored nodes. */
  ghost predicate Valid(g: GraphState) {
    && Distinct(g.nodeKeys) && Listed(g.nodeKeys, g.nodes)
    && Distinct(g.edgeKeys) && Listed(g.edgeKeys, g.edges)
    && (forall k | k in g.nodes ::
          g.nodes[k].id == k && g.nodes[k].data.labelText == k && g.nodes[k].position == ORIGIN)
    && (forall k | k in g.edges :: EdgeWellFormed(g, k))
  }

  /** `h` is `g` with entries added at the end: no key is removed, no stored
      value is replaced and the insertion order of the old keys is kept. */
  ghost predicate Extends(g: GraphState, h: GraphState) {
    && g.nodeKeys <= h.nodeKeys
    && g.edgeKeys <= h.edgeKeys
    && (forall k | k in g.nodes :: k in h.nodes && h.nodes[k] == g.nodes[k])
    && (forall k | k in g.edges :: k in h.edges && h.edges[k] == g.edges[k])
  }

  lemma ExtendsTransitive(f: GraphState, g: GraphState, h: GraphState)
    requires Extends(f, g) && Extends(g, h)
    ensures Extends(f, h)
  {
  }

  // ---------------------------------------------------------------------
  // One pair

  lemma AddNodeKeepsValid(g: GraphState, node: GraphNode)
    requires Valid(g)
    requires node.data.labelText == node.id && node.position == ORIGIN
    ensures Valid(AddNode(g, node)) && Extends(g, AddNode(g, node))
  {
    var h := AddNode(g, node);
    if node.id !in g.nodes {
      forall k | k in h.edges ensures EdgeWellFormed(h, k) {
        assert EdgeWellFormed(g, k);
      }
    }
  }

  /** One ingestion keeps the invariant, only adds entries, and leaves both
      names stored as nodes. */
  lemma IngestKeepsValid(g: GraphState, p: Pair)
    requires Valid(g)
    ensures Valid(Ingest(g, p))
    ensures Extends(g, Ingest(g, p))
    ensures p.selector in Ingest(g, p).nodes && p.dependency in Ingest(g, p).nodes
  {
    var g1 := AddNode(g, SelectorNode(p.selector));
    AddNodeKeepsValid(g, SelectorNode(p.selector));
    var g2 := AddNode(g1, DependencyNode(p.dependency));
    AddNodeKeepsValid(g1, DependencyNode(p.dependency));
    var id := EdgeId(p.selector, p.dependency);
    if id !in g2.edges && p.selector != p.dependency {
      var h := Ingest(g, p);
      assert h.edges == g2.edges[id := NewEdge(p.selector, p.dependency)];
      forall k | k in h.edges ensures EdgeWellFormed(h, k) {
        if k != id {
          assert EdgeWellFormed(g2, k);
        }
      }
    }
  }

  /** A pair changes the graph only by its own two names and its own edge:
      a node record already present is never overwritten, a name first seen
      here as a dependency gets no type, and a self-read stores no edge. */
  lemma IngestEffect(g: GraphState, p: Pair)
    ensures Extends(g, Ingest(g, p))
    ensures Ingest(g, p).nodes.Keys == g.nodes.Keys + {p.selector, p.dependency}
    ensures p.selector !in g.nodes ==> Ingest(g, p).nodes[p.selector] == SelectorNode(p.selector)
    ensures p.dependency !in g.nodes && p.dependency != p.selector ==>
      Ingest(g, p).nodes[p.dependency] == DependencyNode(p.dependency)
    ensures p.selector == p.dependency ==> Ingest(g, p).edges == g.edges
    ensures p.selector != p.dependency ==>
      Ingest(g, p).edges.Keys == g.edges.Keys + {EdgeId(p.selector, p.dependency)}
    ensures p.selector != p.dependency && EdgeId(p.selector, p.dependency) !in g.edges ==>
      Ingest(g, p).edges[EdgeId(p.selector, p.dependency)] == NewEdge(p.selector, p.dependency)
  {
  }

  /** Ingesting the same pair again is a no-op. */
  lemma IngestIdempotent(g: GraphState, p: Pair)
    ensures Ingest(Ingest(g, p), p) == Ingest(g, p)
  {
  }

  // ---------------------------------------------------------------------
  // Sequences of pairs

  /** The names a sequence of pairs mentions, in the order the ingestion
      looks at them: selector, then dependency, pair by pair. */
  function Mentions(ps: seq<Pair>): (r: seq<string>)
    ensures |r| == 2 * |ps|
    decreases |ps|
  {
    if ps == [] then [] else [ps[0].selector, ps[0].dependency] + Mentions(ps[1..])
  }

  /** The edge ids a sequence of pairs asks for, leaving out self-reads. */
  function EdgeIds(ps: seq<Pair>): seq<string>
    decreases |ps|
  {
    if ps == [] then []
    else (if ps[0].selector != ps[0].dependency then [EdgeId(ps[0].selector, ps[0].dependency)] else [])
         + EdgeIds(ps[1..])
  }

  /** A reference definition of insertion order: `seen` followed by the
      elements of `xs` that are new, each at its first occurrence. */
  function AppendNew(seen: seq<string>, xs: seq<string>): seq<string>
    decreases |xs|
  {
    if xs == [] then seen
    else AppendNew(if xs[0] in seen then seen else seen + [xs[0]], xs[1..])
  }

  lemma {:induction false} AppendNewProperties(seen: seq<string>, xs: seq<string>)
    ensures seen <= AppendNew(seen, xs)
    ensures forall x :: x in AppendNew(seen, xs) <==> x in seen || x in xs
    ensures Distinct(seen) ==> Distinct(AppendNew(seen, xs))
    decreases |xs|
  {
    if xs != [] {
      var next := if xs[0] in seen then seen else seen + [xs[0]];
      AppendNewProperties(next, xs[1..]);
      assert forall x :: x in xs <==> x == xs[0] || x in xs[1..] by {
        assert xs == [xs[0]] + xs[1..];
      }
    }
  }

  lemma {:induction false} AppendNewConcat(seen: seq<string>, xs: seq<string>, ys: seq<string>)
    ensures AppendNew(seen, xs + ys) == AppendNew(AppendNew(seen, xs), ys)
    decreases |xs|
  {
    if xs != [] {
      var next := if xs[0] in seen then seen else seen + [xs[0]];
      assert (xs + ys)[0] == xs[0] && (xs + ys)[1..] == xs[1..] + ys;
      AppendNewConcat(next, xs[1..], ys);
    } else {
      assert xs + ys == ys;
    }
  }

  lemma {:induction false} AccumulateAppend(g: GraphState, ps: seq<Pair>, qs: seq<Pair>)
    ensures Accumulate(g, ps + qs) == Accumulate(Accumulate(g, ps), qs)
    decreases |ps|
  {
    if ps == [] {
      assert ps + qs == qs;
    } else {
      assert (ps + qs)[0] == ps[0] && (ps + qs)[1..] == ps[1..] + qs;
      AccumulateAppend(Ingest(g, ps[0]), ps[1..], qs);
    }
  }

  /** Accumulating any pairs only adds entries to the maps. */
  lemma {:induction false} AccumulateExtends(g: GraphState, ps: seq<Pair>)
    ensures Extends(g, Accumulate(g, ps))
    decreases |ps|
  {
    if ps != [] {
      IngestEffect(g, ps[0]);
      AccumulateExtends(Ingest(g, ps[0]), ps[1..]);
      ExtendsTransitive(g, Ingest(g, ps[0]), Accumulate(g, ps));
    }
  }

  /** Accumulating any pairs keeps the invariant. */
  lemma {:induction false} AccumulateKeepsValid(g: GraphState, ps: seq<Pair>)
    requires Valid(g)
    ensures Valid(Accumulate(g, ps))
    decreases |ps|
  {
    if ps != [] {
      IngestKeepsValid(g, ps[0]);
      AccumulateKeepsValid(Ingest(g, ps[0]), ps[1..]);
    }
  }

  lemma EmptyValid()
    ensures Valid(EMPTY)
  {
  }

  lemma AddNodeOrder(g: GraphState, node: GraphNode)
    requires Listed(g.nodeKeys, g.nodes)
    ensures AddNode(g, node).nodeKeys == AppendNew(g.nodeKeys, [node.id])
    ensures Listed(AddNode(g, node).nodeKeys, AddNode(g, node).nodes)
  {
    assert [node.id][1..] == [];
  }

  /** The node keys come in the order of the names' first mention. */
  lemma {:induction false} AccumulateNodeOrder(g: GraphState, ps: seq<Pair>)
    requires Listed(g.nodeKeys, g.nodes)
    ensures Accumulate(g, ps).nodeKeys == AppendNew(g.nodeKeys, Mentions(ps))
    decreases |ps|
  {
    if ps != [] {
      var p := ps[0];
      var g1 := AddNode(g, SelectorNode(p.selector));
      AddNodeOrder(g, SelectorNode(p.selector));
      AddNodeOrder(g1, DependencyNode(p.dependency));
      AppendNewConcat(g.nodeKeys, [p.selector], [p.dependency]);
      assert [p.selector] + [p.dependency] == [p.selector, p.dependency];
      var h := Ingest(g, p);
      assert h.nodeKeys == AppendNew(g.nodeKeys, [p.selector, p.dependency]);
      AccumulateNodeOrder(h, ps[1..]);
      AppendNewConcat(g.nodeKeys, [p.selector, p.dependency], Mentions(ps[1..]));
    }
  }

  /** The edge keys come in the order of the first pair asking for each id,
      self-reads left out. */
  lemma {:induction false} AccumulateEdgeOrder(g: GraphState, ps: seq<Pair>)
    requires Listed(g.edgeKeys, g.edges)
    ensures Accumulate(g, ps).edgeKeys == AppendNew(g.edgeKeys, EdgeIds(ps))
    decreases |ps|
  {
    if ps != [] {
      var p := ps[0];
      var h := Ingest(g, p);
      var own := if p.selector != p.dependency then [EdgeId(p.selector, p.dependency)] else [];
      assert h.edgeKeys == AppendNew(g.edgeKeys, own) by {
        if own != [] {
          assert own[1..] == [];
        }
      }
      assert Listed(h.edgeKeys, h.edges);
      AccumulateEdgeOrder(h, ps[1..]);
      AppendNewConcat(g.edgeKeys, own, EdgeIds(ps[1..]));
    }
  }

  /** The pair whose ingestion first mentions a name decides its record: a
      selector node if that mention is as a selector, an untyped node if it is
      as a dependency ("first insertion wins"). */
  function FirstSeenAsSelector(ps: seq<Pair>, name: string): bool
    decreases |ps|
  {
    if ps == [] then false
    else if ps[0].selector == name then true
    else if ps[0].dependency == name then false
    else FirstSeenAsSelector(ps[1..], name)
  }

  lemma {:induction false} AccumulateNodeRecord(g: GraphState, ps: seq<Pair>, name: string)
    requires name !in g.nodes && name in Mentions(ps)
    ensures name in Accumulate(g, ps).nodes
    ensures Accumulate(g, ps).nodes[name] ==
      if FirstSeenAsSelector(ps, name) then SelectorNode(name) else DependencyNode(name)
    decreases |ps|
  {
    var p := ps[0];
    var h := Ingest(g, p);
    IngestEffect(g, p);
    AccumulateExtends(h, ps[1..]);
    if p.selector != name && p.dependency != name {
      assert name in Mentions(ps[1..]);
      AccumulateNodeRecord(h, ps[1..], name);
    }
  }

  /** Every stored edge either was there before or comes from a pair that
      is no self-read and has that edge's source and target. */
  lemma {:induction false} AccumulateEdgeOrigin(g: GraphState, ps: seq<Pair>, k: string)
    requires k in Accumulate(g, ps).edges
    ensures var e := Accumulate(g, ps).edges[k];
      (k in g.edges && e == g.edges[k])
      || (e == NewEdge(e.source, e.target) && e.source != e.target && Pair(e.source, e.target) in ps)
    decreases |ps|
  {
    if ps != [] {
      var p := ps[0];
      var h := Ingest(g, p);
      AccumulateEdgeOrigin(h, ps[1..], k);
      if k in h.edges && k !in g.edges {
        IngestEffect(g, p);
        AccumulateExtends(h, ps[1..]);
      }
    }
  }

  /** Every pair that is no self-read has its edge key stored. */
  lemma {:induction false} AccumulateStoresPairs(g: GraphState, ps: seq<Pair>, p: Pair)
    requires p in ps && p.selector != p.dependency
    ensures EdgeId(p.selector, p.dependency) in Accumulate(g, ps).edges
    decreases |ps|
  {
    var h := Ingest(g, ps[0]);
    if ps[0] == p {
      IngestEffect(g, p);
      AccumulateExtends(h, ps[1..]);
    } else {
      AccumulateStoresPairs(h, ps[1..], p);
    }
  }

  /** Every pair's names are stored as nodes. */
  lemma {:induction false} AccumulateStoresNames(g: GraphState, ps: seq<Pair>, name: string)
    requires name in Mentions(ps)
    ensures name in Accumulate(g, ps).nodes
    decreases |ps|
  {
    var h := Ingest(g, ps[0]);
    if name == ps[0].selector || name == ps[0].dependency {
      IngestEffect(g, ps[0]);
      AccumulateExtends(h, ps[1..]);
    } else {
      AccumulateStoresNames(h, ps[1..], name);
    }
  }

  // ---------------------------------------------------------------------
  // Edge ids

  /** A name that cannot hold the separator: TypeScript identifiers contain
      no `-`. */
  predicate DashFree(s: string) {
    '-' !in s
  }

  ghost predicate AllDashFree(ps: seq<Pair>) {
    forall p | p in ps :: DashFree(p.selector) && DashFree(p.dependency)
  }

  lemma EdgeIdLayout(a: string, b: string)
    ensures |EdgeId(a, b)| == |a| + |b| + 4
    ensures EdgeId(a, b)[..|a|] == a && EdgeId(a, b)[|a|] == '-'
    ensures EdgeId(a, b)[|a| + 3 .. |a| + 3 + |b|] == b
  {
  }

  /** For dash-free selector names, distinct ordered pairs get distinct edge
      ids. */
  lemma EdgeIdInjective(a: string, b: string, c: string, d: string)
    requires DashFree(a) && DashFree(c)
    requires EdgeId(a, b) == EdgeId(c, d)
    ensures a == c && b == d
  {
    var x := EdgeId(a, b);
    EdgeIdLayout(a, b);
    EdgeIdLayout(c, d);
    if |a| < |c| {
      assert false;
    } else if |c| < |a| {
      assert false;
    }
    assert a == x[..|a|] == c;
    assert b == x[|a| + 3 .. |x| - 1] == d;
  }

  /** Without that restriction the ids of two different pairs can coincide,
      and the second pair then stores no edge of its own. */
  lemma EdgeIdCollision()
    ensures EdgeId("a-->b", "c") == EdgeId("a", "b-->c")
    ensures Ingest(Ingest(EMPTY, Pair("a-->b", "c")), Pair("a", "b-->c")).edges
         == Ingest(EMPTY, Pair("a-->b", "c")).edges
  {
    assert EdgeId("a-->b", "c") == "a-->b-->c;";
    assert EdgeId("a", "b-->c") == "a-->b-->c;";
  }

  /** A stored edge from `a` to `b`. */
  ghost predicate HasEdge(g: GraphState, a: string, b: string) {
    exists k | k in g.edges :: g.edges[k].source == a && g.edges[k].target == b
  }

  /** For identifier names, the graph built from a sequence of pairs has an
      edge from `a` to `b` exactly when `(a, b)` is one of the pairs and is no
      self-read; the invariant makes that edge the only one between them. */
  lemma EdgesAreThePairs(ps: seq<Pair>, a: string, b: string)
    requires AllDashFree(ps)
    ensures HasEdge(Accumulate(EMPTY, ps), a, b) <==> Pair(a, b) in ps && a != b
  {
    var h := Accumulate(EMPTY, ps);
    EmptyValid();
    AccumulateKeepsValid(EMPTY, ps);
    if HasEdge(h, a, b) {
      var k :| k in h.edges && h.edges[k].source == a && h.edges[k].target == b;
      AccumulateEdgeOrigin(EMPTY, ps, k);
    }
    if Pair(a, b) in ps && a != b {
      var k := EdgeId(a, b);
      AccumulateStoresPairs(EMPTY, ps, Pair(a, b));
      var e := h.edges[k];
      AccumulateEdgeOrigin(EMPTY, ps, k);
      assert EdgeWellFormed(h, k);
      EdgeIdInjective(a, b, e.source, e.target);
    }
  }

  /** In a valid graph at most one edge joins an ordered pair of names. */
  lemma AtMostOneEdgePerPair(g: GraphState, k1: string, k2: string)
    requires Valid(g) && k1 in g.edges && k2 in g.edges
    requires g.edges[k1].source == g.edges[k2].source && g.edges[k1].target == g.edges[k2].target
    ensures k1 == k2
  {
    assert EdgeWellFormed(g, k1) && EdgeWellFormed(g, k2);
  }

  // ---------------------------------------------------------------------
  // Idempotence and order independence

  /** Every name of `ps` is a node of `g` and every edge id `ps` asks for is
      stored in `g`. */
  ghost predicate Covers(g: GraphState, ps: seq<Pair>) {
    forall p | p in ps ::
      p.selector in g.nodes && p.dependency in g.nodes
      && (p.selector != p.dependency ==> EdgeId(p.selector, p.dependency) in g.edges)
  }

  lemma {:induction false} CoveredIsNoOp(g: GraphState, ps: seq<Pair>)
    requires Covers(g, ps)
    ensures Accumulate(g, ps) == g
    decreases |ps|
  {
    if ps != [] {
      assert Ingest(g, ps[0]) == g;
      assert Covers(g, ps[1..]) by {
        forall p | p in ps[1..] ensures p in ps { }
      }
      CoveredIsNoOp(g, ps[1..]);
    }
  }

  lemma {:induction false} AccumulateCovers(g: GraphState, ps: seq<Pair>)
    ensures Covers(Accumulate(g, ps), ps)
  {
    var h := Accumulate(g, ps);
    forall p | p in ps
      ensures p.selector in h.nodes && p.dependency in h.nodes
      ensures p.selector != p.dependency ==> EdgeId(p.selector, p.dependency) in h.edges
    {
      assert p.selector in Mentions(ps) && p.dependency in Mentions(ps) by {
        MentionsOfMember(ps, p);
      }
      AccumulateStoresNames(g, ps, p.selector);
      AccumulateStoresNames(g, ps, p.dependency);
      if p.selector != p.dependency {
        AccumulateStoresPairs(g, ps, p);
      }
    }
  }

  lemma {:induction false} MentionsOfMember(ps: seq<Pair>, p: Pair)
    requires p in ps
    ensures p.selector in Mentions(ps) && p.dependency in Mentions(ps)
    decreases |ps|
  {
    if ps[0] != p {
      MentionsOfMember(ps[1..], p);
    }
  }

  /** Ingesting the same pairs a second time (the same file found twice, or
      two files with the same selectors) changes nothing. */
  lemma AccumulateTwice(g: GraphState, ps: seq<Pair>)
    ensures Accumulate(Accumulate(g, ps), ps) == Accumulate(g, ps)
  {
    AccumulateCovers(g, ps);
    CoveredIsNoOp(Accumulate(g, ps), ps);
  }

  /** Which names become nodes and which edge ids are stored depends only on
      the set of pairs, not on their order or their repetitions. */
  lemma KeysIgnoreOrder(ps: seq<Pair>, qs: seq<Pair>)
    requires forall p :: p in ps <==> p in qs
    ensures Accumulate(EMPTY, ps).nodes.Keys == Accumulate(EMPTY, qs).nodes.Keys
    ensures Accumulate(EMPTY, ps).edges.Keys == Accumulate(EMPTY, qs).edges.Keys
  {
    KeysOfPairs(ps);
    KeysOfPairs(qs);
  }

  /** The keys of the graph built from `ps`: its names and the ids of its
      pairs that are no self-reads. */
  lemma KeysOfPairs(ps: seq<Pair>)
    ensures forall n :: n in Accumulate(EMPTY, ps).nodes <==>
      exists p | p in ps :: n == p.selector || n == p.dependency
    ensures forall k :: k in Accumulate(EMPTY, ps).edges <==>
      exists p | p in ps :: p.selector != p.dependency && k == EdgeId(p.selector, p.dependency)
  {
    var h := Accumulate(EMPTY, ps);
    AccumulateNodeOrder(EMPTY, ps);
    AccumulateEdgeOrder(EMPTY, ps);
    AppendNewProperties([], Mentions(ps));
    AppendNewProperties([], EdgeIds(ps));
    EmptyValid();
    AccumulateKeepsValid(EMPTY, ps);
    forall n ensures n in h.nodes <==> exists p | p in ps :: n == p.selector || n == p.dependency {
      MentionsMeaning(ps, n);
    }
    forall k ensures k in h.edges <==>
      exists p | p in ps :: p.selector != p.dependency && k == EdgeId(p.selector, p.dependency)
    {
      EdgeIdsMeaning(ps, k);
    }
  }

  lemma {:induction false} MentionsMeaning(ps: seq<Pair>, n: string)
    ensures n in Mentions(ps) <==> exists p | p in ps :: n == p.selector || n == p.dependency
    decreases |ps|
  {
    if ps != [] {
      MentionsMeaning(ps[1..], n);
      if exists p | p in ps :: n == p.selector || n == p.dependency {
        var p :| p in ps && (n == p.selector || n == p.dependency);
        if p != ps[0] {
          assert p in ps[1..];
        }
      }
    }
  }

  lemma {:induction false} EdgeIdsMeaning(ps: seq<Pair>, k: string)
    ensures k in EdgeIds(ps) <==>
      exists p | p in ps :: p.selector != p.dependency && k == EdgeId(p.selector, p.dependency)
    decreases |ps|
  {
    if ps != [] {
      EdgeIdsMeaning(ps[1..], k);
      if exists p | p in ps :: p.selector != p.dependency && k == EdgeId(p.selector, p.dependency) {
        var p :| p in ps && p.selector != p.dependency && k == EdgeId(p.selector, p.dependency);
        if p != ps[0] {
          assert p in ps[1..];
        }
      }
    }
  }

  // ---------------------------------------------------------------------
  // Finalisation (setup.ts lines 50-51)

  /** `[...nodes.entries()].map(([, value]) => value)`. */
  function NodesArray(g: GraphState): (r: seq<GraphNode>)
    requires Listed(g.nodeKeys, g.nodes)
    ensures |r| == |g.nodeKeys|
    ensures forall i | 0 <= i < |r| :: r[i] == g.nodes[g.nodeKeys[i]]
  {
    seq(|g.nodeKeys|, i requires 0 <= i < |g.nodeKeys| => g.nodes[g.nodeKeys[i]])
  }

  /** `[...edges.entries()].map(([, value]) => value)`. */
  function EdgesArray(g: GraphState): (r: seq<GraphEdge>)
    requires Listed(g.edgeKeys, g.edges)
    ensures |r| == |g.edgeKeys|
    ensures forall i | 0 <= i < |r| :: r[i] == g.edges[g.edgeKeys[i]]
  {
    seq(|g.edgeKeys|, i requires 0 <= i < |g.edgeKeys| => g.edges[g.edgeKeys[i]])
  }

  lemma {:induction false} DistinctSize(s: seq<string>)
    requires Distinct(s)
    ensures |set x | x in s| == |s|
  {
    if s != [] {
      DistinctSize(s[1..]);
      assert (set x | x in s) == {s[0]} + (set x | x in s[1..]);
      assert s[0] !in s[1..];
    }
  }

  /** The node array holds every node record exactly once, in insertion order:
      one entry per distinct name. */
  lemma NodesArrayExact(g: GraphState)
    requires Valid(g)
    ensures |NodesArray(g)| == |g.nodes|
    ensures forall v :: v in NodesArray(g) <==> v in g.nodes.Values
    ensures forall i, j | 0 <= i < j < |NodesArray(g)| :: NodesArray(g)[i].id != NodesArray(g)[j].id
  {
    var r := NodesArray(g);
    DistinctSize(g.nodeKeys);
    assert (set x | x in g.nodeKeys) == g.nodes.Keys;
    forall v | v in g.nodes.Values ensures v in r {
      var k :| k in g.nodes && g.nodes[k] == v;
      var i :| 0 <= i < |g.nodeKeys| && g.nodeKeys[i] == k;
      assert r[i] == v;
    }
  }

  /** The edge array holds every edge record exactly once, in insertion order:
      one entry per distinct id. */
  lemma EdgesArrayExact(g: GraphState)
    requires Valid(g)
    ensures |EdgesArray(g)| == |g.edges|
    ensures forall v :: v in EdgesArray(g) <==> v in g.edges.Values
    ensures forall i, j | 0 <= i < j < |EdgesArray(g)| :: EdgesArray(g)[i].id != EdgesArray(g)[j].id
  {
    var r := EdgesArray(g);
    DistinctSize(g.edgeKeys);
    assert (set x | x in g.edgeKeys) == g.edges.Keys;
    forall i | 0 <= i < |r| ensures r[i].id == g.edgeKeys[i] {
      assert EdgeWellFormed(g, g.edgeKeys[i]);
    }
    forall v | v in g.edges.Values ensures v in r {
      var k :| k in g.edges && g.edges[k] == v;
      var i :| 0 <= i < |g.edgeKeys| && g.edgeKeys[i] == k;
      assert r[i] == v;
    }
  }
}
