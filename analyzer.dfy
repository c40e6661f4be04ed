/** The analysis as scripts/setup.ts and scripts/utilities/selector.ts run it:
    the module-level `nodes` and `edges` maps are the fields of an
    `Accumulator` object, the recursive walk of selector.ts updates them in
    place, `analyzeRecursively` walks the directory tree into them, and `run`
    walks every root argument, flattens the maps and writes the build
    directory. */
module Analyzer {
  import opened Options
  import opened Syntax
  import opened Graph
  import opened Extractor
  import opened Discovery

  /** The two maps of setup.ts lines 16-17, each with its keys in insertion
      order. */
  class Accumulator {
    var nodes: map<string, GraphNode>
    var nodeKeys: seq<string>
    var edges: map<string, GraphEdge>
    var edgeKeys: seq<string>

    /** The maps as a value. */
    function State(): GraphState
      reads this
    {
      GraphState(nodes, nodeKeys, edges, edgeKeys)
    }

    /** The maps as the module creates them: empty. */
    constructor ()
      ensures State() == EMPTY
    {
      nodes, nodeKeys := map[], [];
      edges, edgeKeys := map[], [];
    }

    /** selector.ts lines 47-81 for one matched pair: the selector's node and
        the dependency's node are set if absent, then the edge under the key
        `${selector}-->${dependency};` is set if absent and the selector does
        not read itself. The maps stay well formed. */
    method Record(selector: string, dependency: string)
      modifies this
      ensures State() == Ingest(old(State()), Pair(selector, dependency))
      ensures Graph.Valid(old(State())) ==> Graph.Valid(State())
    {
      ghost var before := State();
      if selector !in nodes {
        nodes := nodes[selector := SelectorNode(selector)];
        nodeKeys := nodeKeys + [selector];
      }
      assert State() == AddNode(before, SelectorNode(selector));
      ghost var withSelector := State();
      if dependency !in nodes {
        nodes := nodes[dependency := DependencyNode(dependency)];
        nodeKeys := nodeKeys + [dependency];
      }
      assert State() == AddNode(withSelector, DependencyNode(dependency));
      var id := EdgeId(selector, dependency);
      if id !in edges && selector != dependency {
        edges := edges[id := NewEdge(selector, dependency)];
        edgeKeys := edgeKeys + [id];
      }
      if Graph.Valid(before) {
        IngestKeepsValid(before, Pair(selector, dependency));
      }
    }

    /** The `isIdentifier(node)` case of the inner `collect(node)` of
        selector.ts lines 16-83 at `node`, whose ancestors are `ancestors`:
        a `get` identifier that passes every guard records its pair, and
        every other node changes nothing. */
    method CollectAt(node: Node, ancestors: seq<Node>)
      modifies this
      ensures State() == Accumulate(old(State()), Emit(MatchAt(node, ancestors)))
    {
      if node.Identifier? && node.text == ACCESSOR {
        if |ancestors| == 0 || !ancestors[|ancestors| - 1].Call? {
          return;
        }
        var call := ancestors[|ancestors| - 1];
        if |call.arguments| == 0 || !call.arguments[0].Identifier? {
          return;
        }
        var selectorDependency := call.arguments[0].text;
        var path := ancestors + [node];
        var ancestor := FindAncestor(path, |path| - 1);
        if ancestor.None? {
          return;
        }
        var i := ancestor.value;
        if i < 2 || !path[i - 2].VariableDeclaration? {
          return;
        }
        if !path[i - 2].name.Identifier? {
          return;
        }
        var selector := path[i - 2].name.text;
        Record(selector, selectorDependency);
        assert Emit(MatchAt(node, ancestors)) == [Pair(selector, selectorDependency)];
        assert [Pair(selector, selectorDependency)][1..] == [];
      }
    }

    /** The inner `collect(node)` of selector.ts: the matcher at `node`
        (whose ancestors are `ancestors`), then `forEachChild(node, collect)`.
        Its effect is that of ingesting, in order, the pairs the collect.ts
        walk yields for the same subtree. The early `return`s of the matcher
        only happen at an identifier, which has no children, so skipping
        `forEachChild` there is the same as running it. */
    method Collect(node: Node, ancestors: seq<Node>)
      modifies this
      ensures State() == Accumulate(old(State()), Pairs(node, ancestors))
      decreases node, 1
    {
      CollectAt(node, ancestors);
      ghost var mid := State();
      CollectChildren(node, ancestors + [node], |Children(node)|);
      AccumulateAppend(old(State()), Emit(MatchAt(node, ancestors)),
                       ChildPairs(node, ancestors + [node], |Children(node)|));
    }

    /** `ts.forEachChild(node, collect)` (selector.ts line 87), as far as
        the first `k` children: `collect` on each of them in order, `path`
        being their ancestors. */
    method CollectChildren(node: Node, path: seq<Node>, k: nat)
      requires k <= |Children(node)|
      modifies this
      ensures State() == Accumulate(old(State()), ChildPairs(node, path, k))
      decreases node, 0, k
    {
      if k > 0 {
        ghost var start := State();
        var j := k - 1;
        CollectChildren(node, path, j);
        Collect(Children(node)[j], path);
        AccumulateChildStep(start, node, path, j, k);
      }
    }

    /** `collectSelectorDependencies(sourceFile)` of selector.ts. */
    method CollectSelectorDependencies(sourceFile: Node)
      modifies this
      ensures State() == Accumulate(old(State()), Extractor.CollectSelectorDependencies(sourceFile))
    {
      Collect(sourceFile, []);
    }

    /** `analyzeRecursively(dir)` of setup.ts lines 21-42, given the listing
        of `dir`: the entries are visited in order, every directory is
        entered, and every other entry named `atoms.ts` is analysed into the
        maps. */
    method AnalyzeRecursively(dir: seq<string>, entries: seq<Entry>)
      modifies this
      ensures State() == Accumulate(old(State()), FilesPairs(AnalyzedFiles(dir, entries)))
      decreases entries
    {
      var i := 0;
      while i < |entries|
        invariant 0 <= i <= |entries|
        invariant State() == Accumulate(old(State()), FilesPairs(FilesIn(dir, entries, i)))
      {
        AnalyzeEntry(dir, entries[i]);
        AccumulateEntryStep(old(State()), dir, entries, i, i + 1);
        i := i + 1;
      }
    }

    /** The callback of setup.ts lines 25-40 for one entry `e` of the listing
        of `dir`: a directory is entered; a file named `atoms.ts` is parsed
        and its selector dependencies are collected; any other file is
        skipped. */
    method AnalyzeEntry(dir: seq<string>, e: Entry)
      modifies this
      ensures State() == Accumulate(old(State()), FilesPairs(EntryFiles(dir, e)))
      decreases e
    {
      if e.Directory? {
        AnalyzeRecursively(dir + [e.name], e.entries);
      } else if e.name == FILE_MATCHER {
        OneFilePairs(SourceFile(dir + [e.name], e.tree));
        CollectSelectorDependencies(e.tree);
      }
    }

    /** `directories.forEach(analyzeRecursively)` of setup.ts lines 45-48:
        the roots are analysed in order into the maps; the first root whose
        listing fails is returned, and then the maps hold what the roots
        before it contributed. */
    method AnalyzeRoots(cwd: seq<Entry>, roots: seq<seq<string>>) returns (missing: Option<seq<string>>)
      modifies this
      ensures missing == DiscoverRoots(cwd, roots, |roots|).missing
      ensures State() == Accumulate(old(State()), FilesPairs(DiscoverRoots(cwd, roots, |roots|).files))
    {
      var i := 0;
      while i < |roots|
        invariant 0 <= i <= |roots|
        invariant DiscoverRoots(cwd, roots, i).missing == None
        invariant State() == Accumulate(old(State()), FilesPairs(DiscoverRoots(cwd, roots, i).files))
      {
        var listing := Listing(cwd, roots[i]);
        if listing.None? {
          DiscoverStops(cwd, roots, i + 1);
          return Some(roots[i]);
        }
        ghost var before := FilesPairs(DiscoverRoots(cwd, roots, i).files);
        AnalyzeRecursively(roots[i], listing.value);
        DiscoverStep(cwd, roots, i, listing.value);
        AccumulateAppend(old(State()), before, FilesPairs(AnalyzedFiles(roots[i], listing.value)));
        i := i + 1;
      }
      missing := None;
    }
  }

  // ---------------------------------------------------------------------
  // run()

  /** A file of the build directory. */
  datatype Artifact =
    | Text(content: string)
    | GraphJson(nodes: seq<GraphNode>, edges: seq<GraphEdge>)

  const ANNOTATIONS_FILE := "annotations.ts"
  const GRAPH_FILE := "graph.json"

  /** How a run ends: the new contents of the build directory, or the root
      whose listing failed, which aborts the run before anything is
      written. */
  datatype Outcome =
    | Written(build: map<string, Artifact>)
    | Aborted(root: seq<string>)

  /** The graph a run builds from the files it finds. */
  function RunGraph(files: seq<SourceFile>): GraphState {
    Accumulate(EMPTY, FilesPairs(files))
  }

  lemma RunGraphValid(files: seq<SourceFile>)
    ensures Graph.Valid(RunGraph(files))
  {
    EmptyValid();
    AccumulateKeepsValid(EMPTY, FilesPairs(files));
  }

  /** What setup.ts lines 53-68 leave in the build directory, given its
      contents before (`None` when it does not exist) and the two arrays:
      the graph file holds both arrays, the annotations file is the one
      already there or else `template`, no other file appears, and every
      other file already there is left as it was. */
  ghost predicate BuildWritten(dir: map<string, Artifact>, build: Option<map<string, Artifact>>,
                         nodesArray: seq<GraphNode>, edgesArray: seq<GraphEdge>, template: string)
  {
    && GRAPH_FILE in dir
    && dir[GRAPH_FILE] == GraphJson(nodesArray, edgesArray)
    && ANNOTATIONS_FILE in dir
    && dir[ANNOTATIONS_FILE] ==
         (if build.Some? && ANNOTATIONS_FILE in build.value then build.value[ANNOTATIONS_FILE] else Text(template))
    && (forall k :: k in dir <==> k == GRAPH_FILE || k == ANNOTATIONS_FILE || (build.Some? && k in build.value))
    && (forall k | build.Some? && k in build.value && k != GRAPH_FILE :: dir[k] == build.value[k])
  }

  /** The writes of `run()` (setup.ts lines 53-68) on the build directory:
      create it if absent, create the annotations file only if absent, then
      overwrite the graph file. */
  method WriteBuild(build: Option<map<string, Artifact>>, nodesArray: seq<GraphNode>, edgesArray: seq<GraphEdge>, template: string)
    returns (dir: map<string, Artifact>)
    ensures BuildWritten(dir, build, nodesArray, edgesArray, template)
  {
    dir := if build.Some? then build.value else map[];
    if ANNOTATIONS_FILE !in dir {
      dir := dir[ANNOTATIONS_FILE := Text(template)];
    }
    dir := dir[GRAPH_FILE := GraphJson(nodesArray, edgesArray)];
  }

  /** `run()` of setup.ts: every root argument is analysed in order into the
      same maps; then the maps are flattened in insertion order and the build
      directory is written. A root whose listing fails aborts the run before
      anything is written. `template` is the fixed annotations scaffold. */
  method Run(cwd: seq<Entry>, roots: seq<seq<string>>, build: Option<map<string, Artifact>>, template: string)
    returns (outcome: Outcome)
    ensures var d := DiscoverRoots(cwd, roots, |roots|);
      d.missing.Some? ==> outcome == Aborted(d.missing.value)
    ensures var d := DiscoverRoots(cwd, roots, |roots|);
      d.missing.None? ==>
        && Graph.Valid(RunGraph(d.files))
        && outcome.Written?
        && BuildWritten(outcome.build, build, NodesArray(RunGraph(d.files)), EdgesArray(RunGraph(d.files)), template)
  {
    var acc := new Accumulator();
    var missing := acc.AnalyzeRoots(cwd, roots);
    if missing.Some? {
      return Aborted(missing.value);
    }
    var graph := acc.State();
    RunGraphValid(DiscoverRoots(cwd, roots, |roots|).files);
    var nodesArray := NodesArray(graph);
    var edgesArray := EdgesArray(graph);
    var dir := WriteBuild(build, nodesArray, edgesArray, template);
    outcome := Written(dir);
  }

  /** The graph artifact is a simple directed graph over its node list: node
      ids are distinct, and every edge joins two listed nodes, is no
      self-loop, and is the only edge of its ordered pair. */
  lemma ArtifactWellFormed(files: seq<SourceFile>)
    ensures var g := RunGraph(files);
      Graph.Valid(g) &&
      var ns := NodesArray(g);
      var es := EdgesArray(g);
      && (forall i, j | 0 <= i < j < |ns| :: ns[i].id != ns[j].id)
      && (forall e | e in es ::
            e.source != e.target
            && (exists n | n in ns :: n.id == e.source)
            && (exists n | n in ns :: n.id == e.target))
      && (forall i, j | 0 <= i < j < |es| :: es[i].source != es[j].source || es[i].target != es[j].target)
  {
    var g := RunGraph(files);
    RunGraphValid(files);
    NodesArrayExact(g);
    EdgesArrayExact(g);
    var ns := NodesArray(g);
    var es := EdgesArray(g);
    forall e | e in es
      ensures e.source != e.target
      ensures exists n | n in ns :: n.id == e.source
      ensures exists n | n in ns :: n.id == e.target
    {
      var k :| k in g.edges && g.edges[k] == e;
      assert EdgeWellFormed(g, k);
      assert g.nodes[e.source] in ns && g.nodes[e.target] in ns;
    }
    forall i, j | 0 <= i < j < |es| ensures es[i].source != es[j].source || es[i].target != es[j].target {
      assert EdgeWellFormed(g, g.edgeKeys[i]) && EdgeWellFormed(g, g.edgeKeys[j]);
    }
  }
}
