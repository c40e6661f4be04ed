/** The part of a parsed TypeScript syntax tree that the dependency extractor
    looks at. The parser itself is not modelled: a tree is given as a value, and
    the parent of a node is the last element of the list of its ancestors from
    the source file down. */
module Syntax {
  import opened Options

  /** A syntax-tree node, reduced to the kinds the extractor tests. Every node
      kind the extractor does not distinguish (source file, statements, arrow
      functions, property assignments, binding patterns, binary expressions,
      ...) is `Other`. The children of each kind are listed in the order in
      which `forEachChild` visits them. */
  datatype Node =
    | Identifier(text: string)
    | Call(callee: Node, arguments: seq<Node>)
    | ObjectLiteral(properties: seq<Node>)
    | VariableDeclaration(name: Node, initializer: Option<Node>)
    | Other(children: seq<Node>)

  /** The children of `n`, in `forEachChild` order. */
  function Children(n: Node): (cs: seq<Node>)
    ensures forall i | 0 <= i < |cs| :: cs[i] < n
    ensures n.Identifier? ==> cs == []
  {
    match n
    case Identifier(_) => []
    case Call(callee, args) => [callee] + args
    case ObjectLiteral(props) => props
    case VariableDeclaration(name, init) =>
      [name] + (if init.Some? then [init.value] else [])
    case Other(cs) => cs
  }

  /** `c` is one of the children of `p`: `c.parent == p` in the parsed tree. */
  predicate IsChild(c: Node, p: Node) {
    c in Children(p)
  }

  /** A chain of nodes in which each one is a child of the one before it. */
  ghost predicate IsPath(path: seq<Node>) {
    forall i | 0 < i < |path| :: IsChild(path[i], path[i - 1])
  }

  /** One call of the visitor: the node and its ancestors, nearest last. */
  datatype Visit = Visit(node: Node, ancestors: seq<Node>)

  /** The calls the recursive walk `collect(node)` followed by
      `forEachChild(node, collect)` makes, in order: the node first, then the
      walk of each child in turn (pre-order). */
  function Visits(n: Node, ancestors: seq<Node>): seq<Visit>
    decreases n, 1
  {
    [Visit(n, ancestors)] + ChildVisits(n, ancestors + [n], |Children(n)|)
  }

  /** The walks of the first `k` children of `n`, whose ancestors are `path`. */
  function ChildVisits(n: Node, path: seq<Node>, k: nat): seq<Visit>
    requires k <= |Children(n)|
    decreases n, 0, k
  {
    if k == 0 then [] else ChildVisits(n, path, k - 1) + Visits(Children(n)[k - 1], path)
  }

  /** The number of nodes in the tree rooted at `n`. */
  function Size(n: Node): nat
    decreases n, 1
  {
    1 + ChildrenSize(n, |Children(n)|)
  }

  /** The number of nodes in the trees rooted at the first `k` children of `n`. */
  function ChildrenSize(n: Node, k: nat): nat
    requires k <= |Children(n)|
    decreases n, 0, k
  {
    if k == 0 then 0 else ChildrenSize(n, k - 1) + Size(Children(n)[k - 1])
  }

  /** The walk calls the visitor once per node of the tree: nothing is pruned
      and nothing is visited twice. */
  lemma {:induction false} VisitsCount(n: Node, ancestors: seq<Node>)
    ensures |Visits(n, ancestors)| == Size(n)
    decreases n, 1
  {
    ChildVisitsCount(n, ancestors + [n], |Children(n)|);
  }

  lemma {:induction false} ChildVisitsCount(n: Node, path: seq<Node>, k: nat)
    requires k <= |Children(n)|
    ensures |ChildVisits(n, path, k)| == ChildrenSize(n, k)
    decreases n, 0, k
  {
    if k > 0 {
      var c := Children(n)[k - 1];
      ChildVisitsCount(n, path, k - 1);
      VisitsCount(c, path);
      assert ChildVisits(n, path, k) == ChildVisits(n, path, k - 1) + Visits(c, path);
      assert ChildrenSize(n, k) == ChildrenSize(n, k - 1) + Size(c);
    }
  }

  /** Every visit the walk makes from a genuine chain of ancestors is itself
      given its genuine chain of ancestors: the list the matcher reads parents
      from is the chain of `parent` links of the parsed tree. */
  lemma {:induction false} VisitsFollowParents(n: Node, ancestors: seq<Node>)
    requires IsPath(ancestors + [n])
    ensures forall v | v in Visits(n, ancestors) ::
      IsPath(v.ancestors + [v.node]) && ancestors <= v.ancestors
    decreases n, 1
  {
    ChildVisitsFollowParents(n, ancestors + [n], |Children(n)|);
  }

  lemma {:induction false} ChildVisitsFollowParents(n: Node, path: seq<Node>, k: nat)
    requires k <= |Children(n)|
    requires |path| > 0 && path[|path| - 1] == n && IsPath(path)
    ensures forall v | v in ChildVisits(n, path, k) ::
      IsPath(v.ancestors + [v.node]) && path <= v.ancestors
    decreases n, 0, k
  {
    if k > 0 {
      ChildVisitsFollowParents(n, path, k - 1);
      var c := Children(n)[k - 1];
      assert IsChild(c, n);
      assert IsPath(path + [c]) by {
        forall i | 0 < i < |path + [c]|
          ensures IsChild((path + [c])[i], (path + [c])[i - 1])
        {
          if i < |path| {
            assert (path + [c])[i] == path[i] && (path + [c])[i - 1] == path[i - 1];
          }
        }
      }
      VisitsFollowParents(c, path);
    }
  }

  /** A child's walk is part of its parent's walk. */
  lemma {:induction false} ChildVisitsInclude(n: Node, path: seq<Node>, k: nat, j: nat)
    requires j < k <= |Children(n)|
    ensures Visit(Children(n)[j], path) in ChildVisits(n, path, k)
    ensures forall v | v in Visits(Children(n)[j], path) :: v in ChildVisits(n, path, k)
    decreases k
  {
    var c := Children(n)[k - 1];
    assert ChildVisits(n, path, k) == ChildVisits(n, path, k - 1) + Visits(c, path);
    if j < k - 1 {
      ChildVisitsInclude(n, path, k - 1, j);
    } else {
      assert Visits(c, path)[0] == Visit(c, path);
    }
  }

  /** Every node below `n`, reached by a chain of children `below`, is visited
      by the walk from `n`, with the chain from the root to it as ancestors. */
  lemma {:induction false} VisitsReachEveryDescendant(n: Node, ancestors: seq<Node>, below: seq<Node>)
    requires |below| > 0 && IsPath([n] + below)
    ensures Visit(below[|below| - 1], ancestors + [n] + below[..|below| - 1]) in Visits(n, ancestors)
    decreases |below|
  {
    var c := below[0];
    assert IsChild(c, n) by {
      assert ([n] + below)[1] == c && ([n] + below)[0] == n;
      assert IsChild(([n] + below)[1], ([n] + below)[0]);
    }
    var j :| 0 <= j < |Children(n)| && Children(n)[j] == c;
    ChildVisitsInclude(n, ancestors + [n], |Children(n)|, j);
    if |below| > 1 {
      var rest := below[1..];
      assert IsPath([c] + rest) by {
        forall i | 0 < i < |[c] + rest|
          ensures IsChild(([c] + rest)[i], ([c] + rest)[i - 1])
        {
          assert ([c] + rest)[i] == ([n] + below)[i + 1];
          assert ([c] + rest)[i - 1] == ([n] + below)[i];
        }
      }
      VisitsReachEveryDescendant(c, ancestors + [n], rest);
      assert ancestors + [n] + [c] + rest[..|rest| - 1] == ancestors + [n] + below[..|below| - 1];
      assert rest[|rest| - 1] == below[|below| - 1];
    } else {
      assert below[..0] == [] && below[0] == c;
      assert ancestors + [n] + below[..0] == ancestors + [n];
      assert Visits(c, ancestors + [n])[0] == Visit(c, ancestors + [n]);
      assert Visit(c, ancestors + [n]) in Visits(c, ancestors + [n]);
    }
  }
}
