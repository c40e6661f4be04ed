/** The pattern matcher of scripts/collect.ts (lines 11-54), duplicated in
    scripts/utilities/selector.ts (lines 11-45): at every `get` identifier of
    the walk it looks for the enclosing `selector({...})` literal declared as a
    variable and yields the pair (variable name, first argument of the call).
    Here the walk is a pure function returning the pairs the collect.ts
    version logs, in order. */
module Extractor {
  import opened Options
  import opened Syntax
  import opened Graph

  /** The accessor name whose calls name dependencies. */
  const ACCESSOR := "get"

  /** The factory whose configuration object holds the accessor calls. */
  const FACTORY := "selector"

  /** The test `findAncestor` applies to `path[i]`: an object literal whose
      parent is a call whose callee is the identifier `selector`. */
  predicate IsSelectorLiteral(path: seq<Node>, i: nat)
    requires i < |path|
  {
    && path[i].ObjectLiteral?
    && i > 0 && path[i - 1].Call?
    && path[i - 1].callee.Identifier?
    && path[i - 1].callee.text == FACTORY
  }

  /** `findAncestor(path[i], test)`: the index of the nearest node at or above
      `path[i]` that passes the test, if there is one. */
  function FindAncestor(path: seq<Node>, i: nat): (r: Option<nat>)
    requires i < |path|
    ensures r.Some? ==>
      && r.value <= i && IsSelectorLiteral(path, r.value)
      && forall j | r.value < j <= i :: !IsSelectorLiteral(path, j)
    ensures r.None? ==> forall j | 0 <= j <= i :: !IsSelectorLiteral(path, j)
    decreases i
  {
    if IsSelectorLiteral(path, i) then Some(i)
    else if i == 0 then None
    else FindAncestor(path, i - 1)
  }

  /** What the visitor does at `node`, whose ancestors are `ancestors` (the
      source file first, the parent last): the pair it yields, if any. The
      `get` identifier is only required to have a call as parent, not to be
      that call's callee. */
  function MatchAt(node: Node, ancestors: seq<Node>): Option<Pair> {
    if !(node.Identifier? && node.text == ACCESSOR) then None
    else if |ancestors| == 0 || !ancestors[|ancestors| - 1].Call? then None
    else
      var call := ancestors[|ancestors| - 1];
      if |call.arguments| == 0 || !call.arguments[0].Identifier? then None
      else
        var dependency := call.arguments[0].text;
        var path := ancestors + [node];
        match FindAncestor(path, |path| - 1)
        case None => None
        case Some(i) =>
          // the ancestor's parent is a call by the test; its parent must be
          // a variable declaration named by an identifier
          if i < 2 || !path[i - 2].VariableDeclaration? then None
          else if !path[i - 2].name.Identifier? then None
          else Some(Pair(path[i - 2].name.text, dependency))
  }

  // ---------------------------------------------------------------------
  // The shape MatchAt recognises, stated independently

  /** The visited node is the identifier `get`, its parent is a call, and
      that call's first argument exists and is an identifier. */
  predicate AcceptedGet(node: Node, ancestors: seq<Node>) {
    && node == Identifier(ACCESSOR)
    && |ancestors| > 0
    && ancestors[|ancestors| - 1].Call?
    && |ancestors[|ancestors| - 1].arguments| > 0
    && ancestors[|ancestors| - 1].arguments[0].Identifier?
  }

  /** The dependency an accepted `get` names. */
  function DependencyName(ancestors: seq<Node>): string
    requires |ancestors| > 0 && ancestors[|ancestors| - 1].Call?
    requires |ancestors[|ancestors| - 1].arguments| > 0
    requires ancestors[|ancestors| - 1].arguments[0].Identifier?
  {
    ancestors[|ancestors| - 1].arguments[0].text
  }

  /** `path[i]` passes the ancestor test and nothing below it on the path
      does. */
  ghost predicate NearestSelectorLiteral(path: seq<Node>, i: nat) {
    && i < |path|
    && IsSelectorLiteral(path, i)
    && forall j | i < j < |path| :: !IsSelectorLiteral(path, j)
  }

  /** The call above `path[i]` is directly declared as the variable
      `name`. */
  ghost predicate DeclaredAs(path: seq<Node>, i: nat, name: string)
    requires i < |path|
  {
    2 <= i && path[i - 2].VariableDeclaration? && path[i - 2].name == Identifier(name)
  }

  lemma NearestIsUnique(path: seq<Node>, i: nat, j: nat)
    requires NearestSelectorLiteral(path, i) && NearestSelectorLiteral(path, j)
    ensures i == j
  {
  }

  /** The matcher yields `(s, d)` exactly when the visited node is an
      accepted `get` naming `d` and the nearest selector literal above it is
      directly declared as `s`. */
  lemma MatchAtCharacterization(node: Node, ancestors: seq<Node>, p: Pair)
    ensures MatchAt(node, ancestors) == Some(p) <==>
      && AcceptedGet(node, ancestors)
      && p.dependency == DependencyName(ancestors)
      && exists i :: NearestSelectorLiteral(ancestors + [node], i)
                  && DeclaredAs(ancestors + [node], i, p.selector)
  {
    var path := ancestors + [node];
    if MatchAt(node, ancestors) == Some(p) {
      var i := FindAncestor(path, |path| - 1).value;
      assert NearestSelectorLiteral(path, i);
      assert DeclaredAs(path, i, p.selector);
    }
    if && AcceptedGet(node, ancestors)
       && p.dependency == DependencyName(ancestors)
       && exists i :: NearestSelectorLiteral(path, i) && DeclaredAs(path, i, p.selector)
    {
      var i :| NearestSelectorLiteral(path, i) && DeclaredAs(path, i, p.selector);
      var r := FindAncestor(path, |path| - 1);
      assert r.Some?;
      NearestIsUnique(path, i, r.value);
    }
  }

  /** Any node other than the identifier `get` yields nothing: nothing else
      can change the graph. */
  lemma OnlyGetMatches(node: Node, ancestors: seq<Node>)
    requires node != Identifier(ACCESSOR)
    ensures MatchAt(node, ancestors) == None
  {
  }

  /** A `get` whose parent is not a call, or whose call has no first
      argument, or whose first argument is not an identifier (`get(a.b)`),
      yields nothing. */
  lemma RejectedGetYieldsNothing(node: Node, ancestors: seq<Node>)
    requires !AcceptedGet(node, ancestors)
    ensures MatchAt(node, ancestors) == None
  {
  }

  /** A `get` with no `selector({...})` literal above it yields nothing. */
  lemma NoSelectorYieldsNothing(node: Node, ancestors: seq<Node>)
    requires forall j | 0 <= j < |ancestors + [node]| :: !IsSelectorLiteral(ancestors + [node], j)
    ensures MatchAt(node, ancestors) == None
  {
  }

  /** The search stops at the nearest selector literal: if its call is not
      directly declared as a variable with an identifier name, nothing is
      yielded, whatever selector literals lie further out. */
  lemma NearestUndeclaredYieldsNothing(node: Node, ancestors: seq<Node>, i: nat)
    requires NearestSelectorLiteral(ancestors + [node], i)
    requires forall name :: !DeclaredAs(ancestors + [node], i, name)
    ensures MatchAt(node, ancestors) == None
  {
    if MatchAt(node, ancestors).Some? {
      var p := MatchAt(node, ancestors).value;
      MatchAtCharacterization(node, ancestors, p);
      var j :| NearestSelectorLiteral(ancestors + [node], j) && DeclaredAs(ancestors + [node], j, p.selector);
      NearestIsUnique(ancestors + [node], i, j);
      assert false;
    }
  }

  // ---------------------------------------------------------------------
  // The walk

  function Emit(m: Option<Pair>): seq<Pair> {
    if m.Some? then [m.value] else []
  }

  /** The pairs `collect(n)` logs, given the ancestors of `n`. */
  function Pairs(n: Node, ancestors: seq<Node>): seq<Pair>
    decreases n, 1
  {
    Emit(MatchAt(n, ancestors)) + ChildPairs(n, ancestors + [n], |Children(n)|)
  }

  /** The pairs logged by the walks of the first `k` children of `n`. */
  function ChildPairs(n: Node, path: seq<Node>, k: nat): seq<Pair>
    requires k <= |Children(n)|
    decreases n, 0, k
  {
    if k == 0 then [] else ChildPairs(n, path, k - 1) + Pairs(Children(n)[k - 1], path)
  }

  lemma ChildPairsStep(n: Node, path: seq<Node>, k: nat)
    requires k < |Children(n)|
    ensures ChildPairs(n, path, k + 1) == ChildPairs(n, path, k) + Pairs(Children(n)[k], path)
  {
  }

  /** Walking one more child ingests its pairs after those of the children
      before it. */
  lemma AccumulateChildStep(g: GraphState, n: Node, path: seq<Node>, j: nat, k: nat)
    requires k == j + 1 <= |Children(n)|
    ensures Accumulate(g, ChildPairs(n, path, k))
         == Accumulate(Accumulate(g, ChildPairs(n, path, j)), Pairs(Children(n)[j], path))
  {
    AccumulateAppend(g, ChildPairs(n, path, j), Pairs(Children(n)[j], path));
  }

  /** `collectSelectorDependencies(sourceFile)`: the pairs of a whole file. */
  function CollectSelectorDependencies(sourceFile: Node): seq<Pair> {
    Pairs(sourceFile, [])
  }

  /** The pairs yielded by a sequence of visits, in order. */
  function Emitted(vs: seq<Visit>): seq<Pair>
    decreases |vs|
  {
    if vs == [] then [] else Emit(MatchAt(vs[0].node, vs[0].ancestors)) + Emitted(vs[1..])
  }

  lemma {:induction false} EmittedAppend(vs: seq<Visit>, ws: seq<Visit>)
    ensures Emitted(vs + ws) == Emitted(vs) + Emitted(ws)
    decreases |vs|
  {
    if vs == [] {
      assert vs + ws == ws;
    } else {
      assert (vs + ws)[0] == vs[0] && (vs + ws)[1..] == vs[1..] + ws;
      EmittedAppend(vs[1..], ws);
    }
  }

  /** The walk yields one pair per visit the matcher accepts, in pre-order,
      repetitions kept. */
  lemma {:induction false} PairsFollowVisits(n: Node, ancestors: seq<Node>)
    ensures Pairs(n, ancestors) == Emitted(Visits(n, ancestors))
    decreases n, 1
  {
    var rest := ChildVisits(n, ancestors + [n], |Children(n)|);
    ChildPairsFollowVisits(n, ancestors + [n], |Children(n)|);
    EmittedAppend([Visit(n, ancestors)], rest);
    assert Emitted([Visit(n, ancestors)]) == Emit(MatchAt(n, ancestors)) by {
      assert [Visit(n, ancestors)][1..] == [];
    }
  }

  lemma {:induction false} ChildPairsFollowVisits(n: Node, path: seq<Node>, k: nat)
    requires k <= |Children(n)|
    ensures ChildPairs(n, path, k) == Emitted(ChildVisits(n, path, k))
    decreases n, 0, k
  {
    if k > 0 {
      var c := Children(n)[k - 1];
      ChildPairsFollowVisits(n, path, k - 1);
      PairsFollowVisits(c, path);
      EmittedAppend(ChildVisits(n, path, k - 1), Visits(c, path));
      assert ChildVisits(n, path, k) == ChildVisits(n, path, k - 1) + Visits(c, path);
    }
  }

  /** A pair is logged exactly when some visit of the walk yields it. */
  lemma {:induction false} EmittedMembers(vs: seq<Visit>, p: Pair)
    ensures p in Emitted(vs) <==> exists v | v in vs :: MatchAt(v.node, v.ancestors) == Some(p)
    decreases |vs|
  {
    if vs != [] {
      EmittedMembers(vs[1..], p);
      if exists v | v in vs :: MatchAt(v.node, v.ancestors) == Some(p) {
        var v :| v in vs && MatchAt(v.node, v.ancestors) == Some(p);
        if v != vs[0] {
          assert v in vs[1..];
        }
      }
    }
  }

  lemma PairsMembers(n: Node, ancestors: seq<Node>, p: Pair)
    ensures p in Pairs(n, ancestors) <==>
      exists v | v in Visits(n, ancestors) :: MatchAt(v.node, v.ancestors) == Some(p)
  {
    PairsFollowVisits(n, ancestors);
    EmittedMembers(Visits(n, ancestors), p);
  }
}
