# recoil-analyzer dependency extractor, in Dafny

This project models the static dependency extractor of recoil-analyzer and
proves properties of the model. The extractor walks the TypeScript syntax
tree of every `atoms.ts` file under some root directories. For every read
`get(D)` inside a `const S = selector({...})` declaration, it records the
pair (S, D). It then builds a graph: one node per name, and one edge
`S-->D;` per pair that is not a self-read. Finally it writes the graph and,
when absent, an annotations scaffold into the build directory.

Modules, one per file:

- `Options` (options.dfy): the `Option` type.
- `Syntax` (syntax.dfy): the syntax tree, reduced to the node kinds the
  matcher tests, and the pre-order walk of `forEachChild` as a sequence of
  visits. A node's parent chain is the list of its ancestors, root first.
- `Graph` (graph.dfy): the node and edge maps as a value, with their keys in
  insertion order as JavaScript `Map`s keep them. Covers ingestion of one
  pair, folding over a sequence of pairs, the invariant, and flattening to
  arrays.
- `Extractor` (extractor.dfy): the matcher of scripts/collect.ts as a pure
  function, and the pair sequence the walk logs.
- `Discovery` (discovery.dfy): directory trees as values, the `atoms.ts`
  filter, `readFilesRecursively` as a method returning the logged pairs, and
  the walk over the root arguments.
- `Analyzer` (analyzer.dfy): the imperative part. `Accumulator` is a class
  whose fields are the two maps of scripts/setup.ts. In the selector.ts
  walk, its methods update those fields in place. `AnalyzeRecursively`
  walks a directory tree into them, and `Run` is `run()`, with the writes
  to the build directory.
- `Scenarios` (scenarios.dfy): concrete programs and the pairs and graphs
  they yield.

The central refinement is stated as a postcondition of
`Analyzer.Accumulator.Collect`. The maps that the in-place walk of
selector.ts leaves are the fold of the graph insertion over the pair
sequence that the collect.ts walk logs.

The comment at scripts/utilities/selector.ts:18 speaks of calls to
`get(...)`, but the code only checks that the parent of `get` is a call
(lines 20-26). The model follows the code, and
`Scenarios.ArgumentGetInA` shows that `foo(get)` inside a selector is
recorded as a read of `get`.

## Model

| member | source | states |
|---|---|---|
| Syntax.VisitsCount | scripts/utilities/selector.ts:14-16 | the walk calls the visitor exactly once per node of the tree: the number of visits is the tree's size |
| Syntax.ChildVisitsCount | scripts/utilities/selector.ts:87 | the walks of the first k children make as many visits as those subtrees have nodes |
| Syntax.VisitsFollowParents | scripts/utilities/selector.ts:87 | every visit receives the genuine chain of parent links from the root, extending the chain the walk started with |
| Syntax.ChildVisitsFollowParents | scripts/utilities/selector.ts:87 | each child's walk is given the parent chain of that child |
| Syntax.ChildVisitsInclude | scripts/utilities/selector.ts:87 | a child, and every visit of its own walk, is among the visits of the walk of its parent's children |
| Syntax.VisitsReachEveryDescendant | scripts/utilities/selector.ts:14-16 | every descendant is visited, with the chain from the root to it as its ancestors: nothing is pruned |
| Extractor.FindAncestor | scripts/collect.ts:31-38 | the result, if any, is the nearest index at or above the node that passes the selector-literal test; no result means no index passes |
| Extractor.NearestIsUnique | scripts/collect.ts:31-38 | the nearest selector literal of a path is unique |
| Extractor.MatchAtCharacterization | scripts/collect.ts:17-44 | the matcher yields (s, d) if and only if the node is `get`, its parent is a call whose first argument is the identifier d, and the nearest selector literal above it is directly declared as s |
| Extractor.OnlyGetMatches | scripts/collect.ts:16-17 | a node other than the identifier `get` yields nothing |
| Extractor.RejectedGetYieldsNothing | scripts/collect.ts:20-26 | a `get` whose parent is no call, or whose call has no first argument or a non-identifier one, yields nothing |
| Extractor.NoSelectorYieldsNothing | scripts/collect.ts:31-40 | a `get` with no `selector({...})` literal above it yields nothing |
| Extractor.NearestUndeclaredYieldsNothing | scripts/collect.ts:40-43 | when the nearest selector literal's call is not directly declared under an identifier, nothing is yielded, whatever lies further out |
| Extractor.AccumulateChildStep | scripts/utilities/selector.ts:87 | folding the pairs of k+1 children is folding those of k children and then those of child k |
| Extractor.EmittedAppend | scripts/collect.ts:14-52 | the pairs of two runs of visits are the pairs of each, concatenated |
| Extractor.PairsFollowVisits | scripts/collect.ts:14-52 | the logged pairs are exactly the matcher's outputs over the pre-order visits, in order, duplicates kept |
| Extractor.ChildPairsFollowVisits | scripts/collect.ts:52 | the same for the walks of the first k children |
| Extractor.EmittedMembers | scripts/collect.ts:46 | a pair is logged if and only if some visit yields it |
| Extractor.PairsMembers | scripts/collect.ts:14-52 | a pair is in the walk's log if and only if the matcher yields it at some visited node |
| Graph.AddNodeKeepsValid | scripts/utilities/selector.ts:47-67 | inserting a well-formed node record if absent keeps the invariant and only adds |
| Graph.IngestKeepsValid | scripts/utilities/selector.ts:47-81 | one ingestion keeps the maps valid, only adds entries, and stores both names as nodes |
| Graph.IngestEffect | scripts/utilities/selector.ts:47-81 | one ingestion adds exactly the two names; a new selector gets the "selector" type and a new dependency none; existing records are kept; self-reads add no edge; otherwise the edge `S-->D;` is stored, new if it was absent |
| Graph.IngestIdempotent | scripts/utilities/selector.ts:47-81 | ingesting the same pair again changes nothing |
| Graph.AppendNewProperties | scripts/setup.ts:16-17 | the reference insertion order extends what was there, holds exactly the old and new keys, and keeps them distinct |
| Graph.AppendNewConcat | scripts/setup.ts:16-17 | inserting two key sequences is inserting one after the other |
| Graph.AccumulateAppend | scripts/setup.ts:45-48 | folding two pair sequences is folding the first, then the second |
| Graph.AccumulateExtends | scripts/utilities/selector.ts:47-81 | the maps only grow: no key is removed, no stored value is replaced, key order is kept |
| Graph.AccumulateKeepsValid | scripts/utilities/selector.ts:47-81 | any number of ingestions keep the invariant: edges join stored nodes, are no self-loops and sit under their own id |
| Graph.EmptyValid | scripts/setup.ts:16-17 | the fresh empty maps satisfy the invariant |
| Graph.AddNodeOrder | scripts/utilities/selector.ts:47-67 | a node insertion appends its key only if new |
| Graph.AccumulateNodeOrder | scripts/utilities/selector.ts:47-67 | node keys come in the order of each name's first mention, selector before dependency |
| Graph.AccumulateEdgeOrder | scripts/utilities/selector.ts:69-81 | edge keys come in the order of the first non-self-read pair asking for each id |
| Graph.AccumulateNodeRecord | scripts/utilities/selector.ts:47-67 | a new name's record is decided by its first mention: typed as a selector only if first seen as one |
| Graph.AccumulateEdgeOrigin | scripts/utilities/selector.ts:69-81 | every stored edge was already there or comes from an ingested pair that is no self-read |
| Graph.AccumulateStoresPairs | scripts/utilities/selector.ts:69-81 | every ingested pair that is no self-read has its edge key stored |
| Graph.AccumulateStoresNames | scripts/utilities/selector.ts:47-67 | every name of an ingested pair is stored as a node |
| Graph.EdgeIdLayout | scripts/utilities/selector.ts:69 | the edge id is the selector, `-->`, the dependency and `;`, in that order |
| Graph.EdgeIdInjective | scripts/utilities/selector.ts:69 | for selector names without `-`, distinct ordered pairs get distinct edge ids |
| Graph.EdgeIdCollision | scripts/utilities/selector.ts:69-72 | without that restriction two different pairs share an id, and the second pair's edge is not stored |
| Graph.EdgesAreThePairs | scripts/utilities/selector.ts:69-81 | for dash-free names, the graph has an edge from a to b if and only if (a, b) was ingested and a differs from b |
| Graph.AtMostOneEdgePerPair | scripts/utilities/selector.ts:69-81 | in a valid graph, at most one edge joins an ordered pair of names |
| Graph.CoveredIsNoOp | scripts/utilities/selector.ts:47-81 | pairs already covered by the maps change nothing |
| Graph.AccumulateCovers | scripts/utilities/selector.ts:47-81 | after ingesting pairs, the maps cover them |
| Graph.MentionsOfMember | scripts/utilities/selector.ts:47-67 | both names of an ingested pair are mentioned |
| Graph.AccumulateTwice | scripts/setup.ts:45-48 | ingesting the same pairs a second time, as for the same file found twice, changes nothing |
| Graph.KeysIgnoreOrder | scripts/setup.ts:16-17 | the sets of node names and edge ids depend only on which pairs were ingested, not on their order or repetition |
| Graph.KeysOfPairs | scripts/setup.ts:16-17 | the node names are exactly the names of the pairs, and the edge ids exactly the ids of the pairs that are no self-reads |
| Graph.MentionsMeaning | scripts/utilities/selector.ts:47-67 | a name is mentioned if and only if it is a selector or dependency of some pair |
| Graph.EdgeIdsMeaning | scripts/utilities/selector.ts:69-72 | an id is asked for if and only if it is the id of some pair that is no self-read |
| Graph.DistinctSize | scripts/setup.ts:50-51 | a duplicate-free key list has as many elements as its set of keys |
| Graph.NodesArrayExact | scripts/setup.ts:50 | the node array holds each stored node exactly once: one entry per distinct name |
| Graph.EdgesArrayExact | scripts/setup.ts:51 | the edge array holds each stored edge exactly once: one entry per distinct id |
| Discovery.FilesInUnderDir | scripts/setup.ts:24-41 | every file found lies below the directory and is named `atoms.ts` |
| Discovery.AnalyzedUnderDir | scripts/setup.ts:30 | every analysed file lies below the walked directory and is named `atoms.ts` |
| Discovery.FilesInExact | scripts/setup.ts:24-41 | a file is found among the first k entries if and only if one of them holds it |
| Discovery.FileExact | scripts/setup.ts:30-38 | a non-directory entry is analysed if and only if its name is `atoms.ts` |
| Discovery.DirectoryExact | scripts/setup.ts:28-29 | a directory contributes exactly the `atoms.ts` files it holds at any depth |
| Discovery.AnalyzedExactly | scripts/collect.ts:59-74 | exactly the non-directory entries named `atoms.ts`, at any depth, are analysed |
| Discovery.OneFilePairs | scripts/collect.ts:73 | the pairs of one file are its walk's pairs |
| Discovery.FilesPairsAppend | scripts/collect.ts:59-75 | the pairs of two file sequences are the pairs of each, concatenated |
| Discovery.ReadFilesRecursively | scripts/collect.ts:56-76 | the pairs logged are those of the analysed files, in walk order |
| Discovery.ReadEntry | scripts/collect.ts:60-74 | one entry logs the pairs of the files it holds: a directory is entered, `atoms.ts` is collected, other files log nothing |
| Discovery.Named | scripts/setup.ts:46-47 | the entry found bears the name in the listing; none is found only if no entry bears it |
| Discovery.DiscoverRootsCompletes | scripts/collect.ts:78-81 | the walk over the roots goes past every root if and only if every root can be listed |
| Discovery.DiscoverRootsStopsAtFirst | scripts/setup.ts:45-48 | a walk that stops names the first root that cannot be listed |
| Discovery.DiscoverRootsExact | scripts/setup.ts:45-48 | when every root can be listed, the analysed files are exactly the `atoms.ts` files below some root |
| Discovery.CollectAll | scripts/collect.ts:78-81 | the pairs logged over all roots in order, and the root that stopped the walk, if any |
| Discovery.DiscoverStops | scripts/setup.ts:46-48 | once a root cannot be listed, the later roots change nothing |
| Analyzer.Accumulator.constructor | scripts/setup.ts:16-17 | the maps start empty |
| Analyzer.Accumulator.Record | scripts/utilities/selector.ts:47-81 | the in-place insertions leave the maps as one ingestion of the pair, and keep them valid |
| Analyzer.Accumulator.CollectAt | scripts/utilities/selector.ts:16-45 | at one node the maps change exactly as ingesting what the matcher yields there, so nothing changes where it yields nothing |
| Analyzer.Accumulator.Collect | scripts/utilities/selector.ts:14-87 | the in-place walk leaves the maps as the fold of the ingestion over the pairs the collect.ts walk logs |
| Analyzer.Accumulator.CollectChildren | scripts/utilities/selector.ts:87 | walking the first k children folds their pairs into the maps, in child order |
| Analyzer.Accumulator.CollectSelectorDependencies | scripts/utilities/selector.ts:11-13 | one file's walk folds that file's pairs into the maps |
| Analyzer.Accumulator.AnalyzeRecursively | scripts/setup.ts:21-42 | the maps receive the pairs of the analysed files, in walk order |
| Analyzer.Accumulator.AnalyzeEntry | scripts/setup.ts:25-40 | one entry folds in the pairs of the `atoms.ts` files it holds |
| Analyzer.Accumulator.AnalyzeRoots | scripts/setup.ts:45-48 | the roots are analysed in order into the same maps; the first unlistable root is returned, and the maps then hold what the roots before it contributed |
| Analyzer.RunGraphValid | scripts/setup.ts:44-51 | the graph of a run satisfies the invariant |
| Analyzer.WriteBuild | scripts/setup.ts:53-68 | the graph file holds both arrays; the annotations file is kept if present and otherwise is the template; no other file changes |
| Analyzer.Run | scripts/setup.ts:44-69 | a root that cannot be listed aborts the run before any write; otherwise the build directory holds the flattened, valid graph of every file found, and an annotations file created only if absent |
| Analyzer.ArtifactWellFormed | scripts/setup.ts:50-51 | in the arrays written, node ids are distinct, and every edge joins two listed nodes, is no self-loop and is the only edge of its ordered pair |
| Scenarios.NameLogsNothing | scripts/collect.ts:17 | an identifier other than `get` logs nothing |
| Scenarios.StrayGetLogsNothing | scripts/collect.ts:20 | a `get` whose parent is no call logs nothing |
| Scenarios.MatchInA | scripts/collect.ts:20-44 | a `get` argument of a call inside `const A = selector({...})` yields A with the call's first argument |
| Scenarios.ReadInA | scripts/collect.ts:20-46 | `get(B)` in the body of A logs exactly (A, B) |
| Scenarios.ArgumentGetInA | scripts/collect.ts:20-28 | `foo(get)` in the body of A logs (A, "get"): `get` is not required to be the callee |
| Scenarios.ParamsLogNothing | scripts/collect.ts:20 | the parameter list `({get})` logs nothing |
| Scenarios.BodyOfA | scripts/collect.ts:14-52 | `get(B) + get(C)` logs (A, B) then (A, C) |
| Scenarios.ReaderOfA | scripts/collect.ts:14-52 | the reader function logs (A, B) then (A, C) |
| Scenarios.PropertyOfA | scripts/collect.ts:14-52 | the `get:` property logs (A, B) then (A, C); its name is no call |
| Scenarios.SelectorOfA | scripts/collect.ts:14-52 | the selector call logs (A, B) then (A, C) |
| Scenarios.DeclarationOfA | scripts/collect.ts:14-52 | the declaration logs (A, B) then (A, C) wherever it stands |
| Scenarios.SumReadsBothDependencies | scripts/collect.ts:11-54 | the file `const A = selector({get: ({get}) => get(B) + get(C)})` logs (A, B) then (A, C) |
| Scenarios.WrappedSelectorLogsNothing | scripts/collect.ts:40-43 | in `const W = wrap(selector({...}))` the read yields nothing: the nearest selector call is not directly declared |
| Scenarios.EdgeKeyOfAB | scripts/utilities/selector.ts:69 | the edge key of (A, B) is `A-->B;` |
| Scenarios.GraphOfA | scripts/utilities/selector.ts:47-81 | the pairs (A, B), (A, C) give node A typed as a selector, untyped B and C, and the edges A to B and A to C, in that order |
| Scenarios.SelfReadInA | scripts/utilities/selector.ts:71-72 | `get(A)` inside A logs (A, A) and builds node A with no edge |
| Scenarios.SelfReadHasNoEdge | scripts/utilities/selector.ts:71-72 | a self-read creates the single node and no edge |
| Scenarios.FirstRecordWins | scripts/utilities/selector.ts:47-57 | a name first seen as a dependency keeps its untyped record when later seen as a selector |
| Scenarios.SameReadTwice | scripts/setup.ts:45-48 | the same read found twice yields two nodes and one edge |

## Left out

- The TypeScript parser (`ts.createSourceFile`, scripts/setup.ts:31-36) is not modelled: each file holds the tree its text parses to. Parse errors are not modelled either.
- The concrete child order of `forEachChild` is left to the tree: `Syntax.Children` takes the children of each node kind in the order they are stored.
- Node kinds the matcher does not distinguish are all `Other`. The type annotation child of a variable declaration, if any, is not kept.
- `findAncestor` is the library function. Its starting point, the node itself, causes no difference because the node is an identifier, which never passes the test.
- The redundant check `isCallExpression(ancestor.parent)` (scripts/utilities/selector.ts:41) is always true once the ancestor passes the test, so the model does not repeat it.
- Names are plain strings. TypeScript's `escapedText` prefixing of names that start with `__` is not modelled.
- `console.log` output (scripts/collect.ts:46) is modelled as the sequence of logged pairs, not as text.
- File system and process calls (`readdirSync`, `statSync`, `readFileSync`, `existsSync`, `mkdirSync`, `writeFileSync`, `process.argv`) become values. These values are a directory tree, the root paths, and the previous contents of the build directory.
- Path joining is a list of components. There is no normalisation of `..`, absolute paths or separators.
- Symbolic links and cycles are not modelled, because a directory tree is a finite value.
- A root that is not a directory, or that is missing, aborts the run (`Outcome.Aborted`). The other I/O failures, such as unreadable files and failed writes, are not modelled.
- `JSON.stringify` is not modelled: the graph file holds the arrays as values. `markerEnd` and the origin position are opaque constants.
- `annotationsTemplate` (scripts/utilities/annotations) is not part of this model: its content is the `template` parameter of `Run`.
- The module scripts/utilities/selector-family is not part of this model; its call is commented out in scripts/setup.ts:39.
- The creation of the build directory itself (scripts/setup.ts:53-55) is not modelled separately: an absent directory is `None`, and the result is the directory's new contents.
- source/App.tsx, the user interface with its layout, and source/types.ts, a type declaration, are not modelled.
- Analyzer.Accumulator.Record: its contract states the new maps and that the invariant is kept. The facts that the maps only grow and exactly which entries are added are stated about `Graph.Ingest` by `Graph.IngestEffect`.
