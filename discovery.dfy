/** File discovery: the recursive directory walk that analyses every file
    named `atoms.ts` (scripts/collect.ts lines 56-81, scripts/setup.ts lines
    19-42 and 45-48). The file system is a value: a directory listing is a
    sequence of entries in the order `readdirSync` returns them, and a file
    holds the tree the parser produces for its text. */
module Discovery {
  import opened Options
  import opened Syntax
  import opened Graph
  import opened Extractor

  /** The only file name that is analysed (`FILE_MATCHER`). */
  const FILE_MATCHER := "atoms.ts"

  /** An entry of a directory listing: a directory (what `statSync` reports
      as one) with its own listing, or any other entry, with the tree its text
      parses to. */
  datatype Entry =
    | File(name: string, tree: Node)
    | Directory(name: string, entries: seq<Entry>)

  /** An analysed file: its path, as the list of components `path.join`
      puts together, and its tree. */
  datatype SourceFile = SourceFile(path: seq<string>, tree: Node)

  /** The files analysed by the walk over the first `k` entries of the
      listing of `dir`, in the order the walk reaches them: directories are
      entered depth-first in listing order, and of the other entries only
      those named exactly `atoms.ts` are analysed. */
  function FilesIn(dir: seq<string>, entries: seq<Entry>, k: nat): seq<SourceFile>
    requires k <= |entries|
    decreases entries, k
  {
    if k == 0 then [] else FilesIn(dir, entries, k - 1) + EntryFiles(dir, entries[k - 1])
  }

  /** The files the walk analyses for one entry of the listing of `dir`. */
  function EntryFiles(dir: seq<string>, e: Entry): seq<SourceFile>
    decreases e
  {
    match e
    case Directory(name, sub) => FilesIn(dir + [name], sub, |sub|)
    case File(name, tree) => if name == FILE_MATCHER then [SourceFile(dir + [name], tree)] else []
  }

  /** Entry `j` extends the files of the first `j` entries; `k` names
      `j + 1` so that callers counting either way can use it. */
  lemma FilesInStep(dir: seq<string>, entries: seq<Entry>, j: nat, k: nat)
    requires k == j + 1 <= |entries|
    ensures FilesIn(dir, entries, k) == FilesIn(dir, entries, j) + EntryFiles(dir, entries[j])
  {
  }

  /** The files `readFilesRecursively(dir)` / `analyzeRecursively(dir)`
      analyse, given the listing of `dir`. */
  function AnalyzedFiles(dir: seq<string>, entries: seq<Entry>): seq<SourceFile> {
    FilesIn(dir, entries, |entries|)
  }

  /** An independent description of what is analysed: the entry `e` is, or
      holds at relative path `rel`, a non-directory named `atoms.ts` whose
      tree is `t`. */
  ghost predicate Holds(e: Entry, rel: seq<string>, t: Node)
    decreases e
  {
    match e
    case File(name, tree) => name == FILE_MATCHER && rel == [name] && tree == t
    case Directory(name, sub) =>
      |rel| > 1 && rel[0] == name && exists i | 0 <= i < |sub| :: Holds(sub[i], rel[1..], t)
  }

  lemma {:induction false} FilesInUnderDir(dir: seq<string>, entries: seq<Entry>, k: nat)
    requires k <= |entries|
    ensures forall f | f in FilesIn(dir, entries, k) ::
      |f.path| > |dir| && f.path[..|dir|] == dir && f.path[|f.path| - 1] == FILE_MATCHER
    decreases entries, k
  {
    if k > 0 {
      FilesInUnderDir(dir, entries, k - 1);
      match entries[k - 1]
      case Directory(name, sub) =>
        FilesInUnderDir(dir + [name], sub, |sub|);
        forall f | f in FilesIn(dir + [name], sub, |sub|)
          ensures f.path[..|dir|] == dir
        {
          assert f.path[..|dir|] == f.path[..|dir + [name]|][..|dir|];
        }
      case File(name, tree) =>
    }
  }

  /** Every analysed file lies below `dir` and is named `atoms.ts`. */
  lemma AnalyzedUnderDir(dir: seq<string>, entries: seq<Entry>)
    ensures forall f | f in AnalyzedFiles(dir, entries) ::
      |f.path| > |dir| && f.path[..|dir|] == dir && f.path[|f.path| - 1] == FILE_MATCHER
  {
    FilesInUnderDir(dir, entries, |entries|);
  }

  lemma {:induction false} FilesInExact(dir: seq<string>, entries: seq<Entry>, k: nat, rel: seq<string>, t: Node)
    requires k <= |entries|
    ensures SourceFile(dir + rel, t) in FilesIn(dir, entries, k) <==>
      exists i | 0 <= i < k :: Holds(entries[i], rel, t)
    decreases entries, k
  {
    if k > 0 {
      FilesInExact(dir, entries, k - 1, rel, t);
      var f := SourceFile(dir + rel, t);
      match entries[k - 1]
      case Directory(name, sub) =>
        DirectoryExact(dir, name, sub, rel, t);
      case File(name, tree) =>
        FileExact(dir, name, tree, rel, t);
    }
  }

  lemma FileExact(dir: seq<string>, name: string, tree: Node, rel: seq<string>, t: Node)
    ensures SourceFile(dir + rel, t) in (if name == FILE_MATCHER then [SourceFile(dir + [name], tree)] else [])
      <==> Holds(File(name, tree), rel, t)
  {
    assert dir + rel == dir + [name] <==> rel == [name] by {
      if dir + rel == dir + [name] {
        assert rel == (dir + rel)[|dir|..] == (dir + [name])[|dir|..];
      }
    }
  }

  lemma {:induction false} DirectoryExact(dir: seq<string>, name: string, sub: seq<Entry>, rel: seq<string>, t: Node)
    ensures SourceFile(dir + rel, t) in FilesIn(dir + [name], sub, |sub|) <==> Holds(Directory(name, sub), rel, t)
    decreases sub, |sub| + 1
  {
    var f := SourceFile(dir + rel, t);
    var inner := FilesIn(dir + [name], sub, |sub|);
    FilesInUnderDir(dir + [name], sub, |sub|);
    if |rel| > 1 && rel[0] == name {
      assert dir + rel == (dir + [name]) + rel[1..] by {
        assert rel == [name] + rel[1..];
      }
      FilesInExact(dir + [name], sub, |sub|, rel[1..], t);
    } else {
      forall g | g in inner ensures g != f {
        assert |g.path| > |dir| + 1 && g.path[..|dir| + 1] == dir + [name];
        if |rel| > 1 {
          assert (dir + rel)[|dir|] == rel[0] != name;
          assert g.path[|dir|] == name;
        }
      }
    }
  }

  /** Exactly the non-directory entries named `atoms.ts`, at any depth, are
      analysed: the file at relative path `rel` with tree `t` is analysed if
      and only if the listing holds it. */
  lemma AnalyzedExactly(dir: seq<string>, entries: seq<Entry>, rel: seq<string>, t: Node)
    ensures SourceFile(dir + rel, t) in AnalyzedFiles(dir, entries) <==>
      exists i | 0 <= i < |entries| :: Holds(entries[i], rel, t)
  {
    FilesInExact(dir, entries, |entries|, rel, t);
  }

  // ---------------------------------------------------------------------
  // What the analysed files yield

  /** The pairs of a sequence of files, file by file. */
  function FilesPairs(files: seq<SourceFile>): seq<Pair>
    decreases |files|
  {
    if files == [] then [] else FilesPairs(files[..|files| - 1]) + CollectSelectorDependencies(files[|files| - 1].tree)
  }

  lemma OneFilePairs(f: SourceFile)
    ensures FilesPairs([f]) == CollectSelectorDependencies(f.tree)
  {
    assert [f][..0] == [];
  }

  lemma {:induction false} FilesPairsAppend(fs: seq<SourceFile>, gs: seq<SourceFile>)
    ensures FilesPairs(fs + gs) == FilesPairs(fs) + FilesPairs(gs)
    decreases |gs|
  {
    if gs == [] {
      assert fs + gs == fs;
    } else {
      var last := gs[|gs| - 1];
      assert (fs + gs)[..|fs + gs| - 1] == fs + gs[..|gs| - 1];
      FilesPairsAppend(fs, gs[..|gs| - 1]);
    }
  }

  /** `readFilesRecursively(dir)` of collect.ts, given the listing of `dir`:
      the pairs it logs. */
  method ReadFilesRecursively(dir: seq<string>, entries: seq<Entry>) returns (log: seq<Pair>)
    ensures log == FilesPairs(AnalyzedFiles(dir, entries))
    decreases entries
  {
    log := [];
    var i := 0;
    while i < |entries|
      invariant 0 <= i <= |entries|
      invariant log == FilesPairs(FilesIn(dir, entries, i))
    {
      var found := ReadEntry(dir, entries[i]);
      EntryPairsStep(dir, entries, i, i + 1);
      log := log + found;
      i := i + 1;
    }
  }

  /** The callback of collect.ts lines 60-74 for one entry `e` of the
      listing of `dir`: a directory is entered, a file named `atoms.ts` is
      parsed and its pairs are logged, and any other file is skipped. */
  method ReadEntry(dir: seq<string>, e: Entry) returns (log: seq<Pair>)
    ensures log == FilesPairs(EntryFiles(dir, e))
    decreases e
  {
    if e.Directory? {
      log := ReadFilesRecursively(dir + [e.name], e.entries);
    } else if e.name == FILE_MATCHER {
      OneFilePairs(SourceFile(dir + [e.name], e.tree));
      log := CollectSelectorDependencies(e.tree);
    } else {
      log := [];
    }
  }

  // ---------------------------------------------------------------------
  // Roots

  /** The first entry of a listing with the given name. */
  function Named(entries: seq<Entry>, name: string): (r: Option<Entry>)
    ensures r.Some? ==> r.value in entries && r.value.name == name
    ensures r.None? ==> forall e | e in entries :: e.name != name
    decreases |entries|
  {
    if entries == [] then None
    else if entries[0].name == name then Some(entries[0])
    else Named(entries[1..], name)
  }

  /** `readdirSync(path)` below the working directory whose listing is
      `cwd`: the listing of the directory at `path`, or nothing when a
      component is missing or is not a directory (the call throws). */
  function Listing(cwd: seq<Entry>, path: seq<string>): Option<seq<Entry>>
    decreases |path|
  {
    if path == [] then Some(cwd)
    else match Named(cwd, path[0])
      case Some(Directory(_, sub)) => Listing(sub, path[1..])
      case _ => None
  }

  /** What the walk over the first `k` root arguments finds: the files of
      each root in argument order, up to the first root that cannot be
      listed, which `missing` names. */
  datatype Discovered = Discovered(files: seq<SourceFile>, missing: Option<seq<string>>)

  function DiscoverRoots(cwd: seq<Entry>, roots: seq<seq<string>>, k: nat): Discovered
    requires k <= |roots|
    decreases k
  {
    if k == 0 then Discovered([], None)
    else
      var prev := DiscoverRoots(cwd, roots, k - 1);
      if prev.missing.Some? then prev
      else match Listing(cwd, roots[k - 1])
        case None => Discovered(prev.files, Some(roots[k - 1]))
        case Some(entries) => Discovered(prev.files + AnalyzedFiles(roots[k - 1], entries), None)
  }

  /** `f` is analysed when walking the root `root`. */
  ghost predicate FoundUnder(cwd: seq<Entry>, root: seq<string>, f: SourceFile) {
    && Listing(cwd, root).Some?
    && |root| <= |f.path| && f.path[..|root|] == root
    && exists i | 0 <= i < |Listing(cwd, root).value| ::
         Holds(Listing(cwd, root).value[i], f.path[|root|..], f.tree)
  }

  /** The walk over the roots goes past every root exactly when each of
      them can be listed. */
  lemma {:induction false} DiscoverRootsCompletes(cwd: seq<Entry>, roots: seq<seq<string>>, k: nat)
    requires k <= |roots|
    ensures DiscoverRoots(cwd, roots, k).missing.None? <==>
      forall i | 0 <= i < k :: Listing(cwd, roots[i]).Some?
    decreases k
  {
    if k > 0 {
      DiscoverRootsCompletes(cwd, roots, k - 1);
    }
  }

  /** A walk that stops names the first root that cannot be listed. */
  lemma {:induction false} DiscoverRootsStopsAtFirst(cwd: seq<Entry>, roots: seq<seq<string>>, k: nat)
    requires k <= |roots|
    requires DiscoverRoots(cwd, roots, k).missing.Some?
    ensures exists i | 0 <= i < k ::
      && roots[i] == DiscoverRoots(cwd, roots, k).missing.value
      && Listing(cwd, roots[i]).None?
      && forall j | 0 <= j < i :: Listing(cwd, roots[j]).Some?
    decreases k
  {
    var prev := DiscoverRoots(cwd, roots, k - 1);
    if prev.missing.Some? {
      DiscoverRootsStopsAtFirst(cwd, roots, k - 1);
    } else {
      DiscoverRootsCompletes(cwd, roots, k - 1);
      assert roots[k - 1] == DiscoverRoots(cwd, roots, k).missing.value;
    }
  }

  /** When every root can be listed, the analysed files are exactly the
      `atoms.ts` files below some root. */
  lemma {:induction false} DiscoverRootsExact(cwd: seq<Entry>, roots: seq<seq<string>>, k: nat, f: SourceFile)
    requires k <= |roots|
    requires DiscoverRoots(cwd, roots, k).missing.None?
    ensures f in DiscoverRoots(cwd, roots, k).files <==> exists i | 0 <= i < k :: FoundUnder(cwd, roots[i], f)
    decreases k
  {
    if k > 0 {
      var prev := DiscoverRoots(cwd, roots, k - 1);
      DiscoverRootsExact(cwd, roots, k - 1, f);
      var root := roots[k - 1];
      var entries := Listing(cwd, root).value;
      var mine := AnalyzedFiles(root, entries);
      assert DiscoverRoots(cwd, roots, k).files == prev.files + mine;
      AnalyzedUnderDir(root, entries);
      if |root| <= |f.path| && f.path[..|root|] == root {
        assert f.path == root + f.path[|root|..];
        AnalyzedExactly(root, entries, f.path[|root|..], f.tree);
      }
      assert f in mine <==> FoundUnder(cwd, root, f);
      assert (exists i | 0 <= i < k :: FoundUnder(cwd, roots[i], f)) <==>
        (exists i | 0 <= i < k - 1 :: FoundUnder(cwd, roots[i], f)) || FoundUnder(cwd, root, f);
    }
  }

  /** The top level of collect.ts (lines 78-81): every root argument in
      order; the pairs logged, and the root at which a failed listing stopped
      the run, if any. */
  method CollectAll(cwd: seq<Entry>, roots: seq<seq<string>>) returns (log: seq<Pair>, missing: Option<seq<string>>)
    ensures log == FilesPairs(DiscoverRoots(cwd, roots, |roots|).files)
    ensures missing == DiscoverRoots(cwd, roots, |roots|).missing
  {
    log, missing := [], None;
    var i := 0;
    while i < |roots|
      invariant 0 <= i <= |roots|
      invariant DiscoverRoots(cwd, roots, i).missing == None
      invariant log == FilesPairs(DiscoverRoots(cwd, roots, i).files)
    {
      var listing := Listing(cwd, roots[i]);
      if listing.None? {
        missing := Some(roots[i]);
        DiscoverStops(cwd, roots, i + 1);
        return;
      }
      var found := ReadFilesRecursively(roots[i], listing.value);
      DiscoverStep(cwd, roots, i, listing.value);
      log := log + found;
      i := i + 1;
    }
  }

  lemma EntryPairsStep(dir: seq<string>, entries: seq<Entry>, j: nat, k: nat)
    requires k == j + 1 <= |entries|
    ensures FilesPairs(FilesIn(dir, entries, k))
         == FilesPairs(FilesIn(dir, entries, j)) + FilesPairs(EntryFiles(dir, entries[j]))
  {
    FilesInStep(dir, entries, j, k);
    FilesPairsAppend(FilesIn(dir, entries, j), EntryFiles(dir, entries[j]));
  }

  /** Walking one more entry ingests the pairs of its files after those of
      the entries before it. */
  lemma AccumulateEntryStep(g: GraphState, dir: seq<string>, entries: seq<Entry>, j: nat, k: nat)
    requires k == j + 1 <= |entries|
    ensures Accumulate(g, FilesPairs(FilesIn(dir, entries, k)))
         == Accumulate(Accumulate(g, FilesPairs(FilesIn(dir, entries, j))), FilesPairs(EntryFiles(dir, entries[j])))
  {
    EntryPairsStep(dir, entries, j, k);
    AccumulateAppend(g, FilesPairs(FilesIn(dir, entries, j)), FilesPairs(EntryFiles(dir, entries[j])));
  }

  /** One more root that can be listed adds the files found under it. */
  lemma DiscoverStep(cwd: seq<Entry>, roots: seq<seq<string>>, i: nat, entries: seq<Entry>)
    requires i < |roots| && DiscoverRoots(cwd, roots, i).missing == None
    requires Listing(cwd, roots[i]) == Some(entries)
    ensures DiscoverRoots(cwd, roots, i + 1)
         == Discovered(DiscoverRoots(cwd, roots, i).files + AnalyzedFiles(roots[i], entries), None)
    ensures FilesPairs(DiscoverRoots(cwd, roots, i + 1).files)
         == FilesPairs(DiscoverRoots(cwd, roots, i).files) + FilesPairs(AnalyzedFiles(roots[i], entries))
  {
    FilesPairsAppend(DiscoverRoots(cwd, roots, i).files, AnalyzedFiles(roots[i], entries));
  }

  /** Once a root cannot be listed, the later roots change nothing. */
  lemma {:induction false} DiscoverStops(cwd: seq<Entry>, roots: seq<seq<string>>, k: nat)
    requires k <= |roots| && DiscoverRoots(cwd, roots, k).missing.Some?
    ensures DiscoverRoots(cwd, roots, |roots|) == DiscoverRoots(cwd, roots, k)
    decreases |roots| - k
  {
    if k < |roots| {
      DiscoverStops(cwd, roots, k + 1);
    }
  }
}
