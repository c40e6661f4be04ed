/** Concrete programs and the graphs the extractor builds for them. Each tree
    is the reduced form of what the TypeScript parser produces for the line
    quoted above it: statements, declaration lists, property assignments,
    arrow functions, parameter lists and binary expressions are `Other`
    nodes. */
module Scenarios {
  import opened Options
  import opened Syntax
  import opened Graph
  import opened Extractor

  // ---------------------------------------------------------------------
  // Unfolding the walk one node at a time

  /** A node that is not the identifier `get` logs only what its children
      log. */
  lemma InnerPairs(n: Node, ancestors: seq<Node>)
    requires n != Identifier(ACCESSOR)
    ensures Pairs(n, ancestors) == ChildPairs(n, ancestors + [n], |Children(n)|)
  {
    OnlyGetMatches(n, ancestors);
  }

  /** An identifier is a leaf: it logs what the matcher yields at it. */
  lemma LeafPairs(name: string, ancestors: seq<Node>)
    ensures Pairs(Identifier(name), ancestors) == Emit(MatchAt(Identifier(name), ancestors))
  {
    assert ChildPairs(Identifier(name), ancestors + [Identifier(name)], 0) == [];
  }

  lemma FirstChild(n: Node, path: seq<Node>)
    requires |Children(n)| >= 1
    ensures ChildPairs(n, path, 1) == Pairs(Children(n)[0], path)
  {
    assert ChildPairs(n, path, 0) == [];
  }

  lemma TwoChildren(n: Node, path: seq<Node>)
    requires |Children(n)| == 2
    ensures ChildPairs(n, path, 2) == Pairs(Children(n)[0], path) + Pairs(Children(n)[1], path)
  {
    FirstChild(n, path);
  }

  /** An identifier other than `get` logs nothing. */
  lemma NameLogsNothing(name: string, ancestors: seq<Node>)
    requires name != ACCESSOR
    ensures Pairs(Identifier(name), ancestors) == []
  {
    InnerPairs(Identifier(name), ancestors);
  }

  /** A `get` whose parent is not a call logs nothing. */
  lemma StrayGetLogsNothing(ancestors: seq<Node>)
    requires |ancestors| > 0 && !ancestors[|ancestors| - 1].Call?
    ensures Pairs(Identifier(ACCESSOR), ancestors) == []
  {
    RejectedGetYieldsNothing(Identifier(ACCESSOR), ancestors);
  }

  // ---------------------------------------------------------------------
  // const A = selector({get: ({get}) => get(B) + get(C)});

  /** `get(name)`. */
  function GetCall(name: string): Node {
    Call(Identifier(ACCESSOR), [Identifier(name)])
  }

  const BODY_A := Other([GetCall("B"), GetCall("C")])
  const PARAMS := Other([Identifier(ACCESSOR)])
  const READER_A := Other([PARAMS, BODY_A])
  const PROPERTY_A := Other([Identifier(ACCESSOR), READER_A])
  const CONFIG_A := ObjectLiteral([PROPERTY_A])
  const SELECTOR_A := Call(Identifier(FACTORY), [CONFIG_A])
  const DECLARATION_A := VariableDeclaration(Identifier("A"), Some(SELECTOR_A))
  const LIST_A := Other([DECLARATION_A])
  const STATEMENT_A := Other([LIST_A])
  const FILE_A := Other([STATEMENT_A])

  // The ancestors of each node of the declaration of `A`, `top` being the
  // ancestors of the declaration itself.

  function AboveSelector(top: seq<Node>): seq<Node> { top + [DECLARATION_A] }
  function AboveConfig(top: seq<Node>): seq<Node> { AboveSelector(top) + [SELECTOR_A] }
  function AboveProperty(top: seq<Node>): seq<Node> { AboveConfig(top) + [CONFIG_A] }
  function AboveReader(top: seq<Node>): seq<Node> { AboveProperty(top) + [PROPERTY_A] }
  function AboveBody(top: seq<Node>): seq<Node> { AboveReader(top) + [READER_A] }
  function AboveRead(top: seq<Node>): seq<Node> { AboveBody(top) + [BODY_A] }

  /** A `get` that is the first argument of a call in the body of `A`
      yields `A` paired with the call's own first argument: the nearest
      selector literal above it is the configuration of `A`, which is
      directly declared as `A`. */
  lemma MatchInA(top: seq<Node>, call: Node)
    requires call.Call? && |call.arguments| > 0 && call.arguments[0].Identifier?
    ensures MatchAt(Identifier(ACCESSOR), AboveRead(top) + [call])
         == Some(Pair("A", call.arguments[0].text))
  {
    var ancestors := AboveRead(top) + [call];
    var path := ancestors + [Identifier(ACCESSOR)];
    var i := |top| + 2;
    assert path[i] == CONFIG_A && path[i - 1] == SELECTOR_A && path[i - 2] == DECLARATION_A;
    assert path[i + 1..] == [PROPERTY_A, READER_A, BODY_A, call, Identifier(ACCESSOR)];
    assert NearestSelectorLiteral(path, i) by {
      forall j | i < j < |path| ensures !IsSelectorLiteral(path, j) {
        assert path[j] == path[i + 1..][j - i - 1];
      }
    }
    assert DeclaredAs(path, i, "A");
    MatchAtCharacterization(Identifier(ACCESSOR), ancestors, Pair("A", call.arguments[0].text));
  }

  /** A read `get(name)` in the body of `A` yields `(A, name)`. */
  lemma ReadInA(top: seq<Node>, name: string)
    requires name != ACCESSOR
    ensures Pairs(GetCall(name), AboveRead(top)) == [Pair("A", name)]
  {
    var ancestors := AboveRead(top) + [GetCall(name)];
    MatchInA(top, GetCall(name));
    LeafPairs(ACCESSOR, ancestors);
    InnerPairs(GetCall(name), AboveRead(top));
    TwoChildren(GetCall(name), ancestors);
    NameLogsNothing(name, ancestors);
  }

  /** `foo(get)` in the body of `A` yields `(A, "get")`: the matcher only
      asks that the parent of `get` be a call, not that `get` be its callee,
      so the argument `get` is taken for an accessor call naming itself. */
  lemma ArgumentGetInA(top: seq<Node>)
    ensures Pairs(Call(Identifier("foo"), [Identifier(ACCESSOR)]), AboveRead(top))
         == [Pair("A", ACCESSOR)]
  {
    var call := Call(Identifier("foo"), [Identifier(ACCESSOR)]);
    var ancestors := AboveRead(top) + [call];
    MatchInA(top, call);
    LeafPairs(ACCESSOR, ancestors);
    InnerPairs(call, AboveRead(top));
    TwoChildren(call, ancestors);
    NameLogsNothing("foo", ancestors);
  }

  /** The parameter list `({get})` logs nothing wherever it stands: its
      `get` is a binding, not a call. */
  lemma ParamsLogNothing(ancestors: seq<Node>)
    ensures Pairs(PARAMS, ancestors) == []
  {
    InnerPairs(PARAMS, ancestors);
    FirstChild(PARAMS, ancestors + [PARAMS]);
    StrayGetLogsNothing(ancestors + [PARAMS]);
  }

  lemma BodyOfA(top: seq<Node>)
    ensures Pairs(BODY_A, AboveBody(top)) == [Pair("A", "B"), Pair("A", "C")]
  {
    InnerPairs(BODY_A, AboveBody(top));
    TwoChildren(BODY_A, AboveRead(top));
    ReadInA(top, "B");
    ReadInA(top, "C");
  }

  lemma ReaderOfA(top: seq<Node>)
    ensures Pairs(READER_A, AboveReader(top)) == [Pair("A", "B"), Pair("A", "C")]
  {
    InnerPairs(READER_A, AboveReader(top));
    TwoChildren(READER_A, AboveBody(top));
    ParamsLogNothing(AboveBody(top));
    BodyOfA(top);
  }

  /** The property name `get` of `{get: ...}` has no call as parent. */
  lemma PropertyOfA(top: seq<Node>)
    ensures Pairs(PROPERTY_A, AboveProperty(top)) == [Pair("A", "B"), Pair("A", "C")]
  {
    InnerPairs(PROPERTY_A, AboveProperty(top));
    TwoChildren(PROPERTY_A, AboveReader(top));
    StrayGetLogsNothing(AboveReader(top));
    ReaderOfA(top);
  }

  lemma SelectorOfA(top: seq<Node>)
    ensures Pairs(SELECTOR_A, AboveSelector(top)) == [Pair("A", "B"), Pair("A", "C")]
  {
    InnerPairs(CONFIG_A, AboveConfig(top));
    FirstChild(CONFIG_A, AboveProperty(top));
    PropertyOfA(top);
    InnerPairs(SELECTOR_A, AboveSelector(top));
    TwoChildren(SELECTOR_A, AboveConfig(top));
    NameLogsNothing(FACTORY, AboveConfig(top));
  }

  /** The declaration `const A = selector(...)` logs the two reads of `A`
      wherever it stands. */
  lemma DeclarationOfA(top: seq<Node>)
    ensures Pairs(DECLARATION_A, top) == [Pair("A", "B"), Pair("A", "C")]
  {
    InnerPairs(DECLARATION_A, top);
    TwoChildren(DECLARATION_A, AboveSelector(top));
    NameLogsNothing("A", AboveSelector(top));
    SelectorOfA(top);
  }

  /** The walk yields the two reads of `A`, in source order; the `get`
      property name and the `get` parameter are not calls and yield nothing. */
  lemma SumReadsBothDependencies()
    ensures CollectSelectorDependencies(FILE_A) == [Pair("A", "B"), Pair("A", "C")]
  {
    var inFile: seq<Node> := [] + [FILE_A];
    var inStatement := inFile + [STATEMENT_A];
    var inList := inStatement + [LIST_A];
    DeclarationOfA(inList);
    InnerPairs(LIST_A, inStatement);
    FirstChild(LIST_A, inList);
    InnerPairs(STATEMENT_A, inFile);
    FirstChild(STATEMENT_A, inStatement);
    InnerPairs(FILE_A, []);
    FirstChild(FILE_A, inFile);
  }

  // ---------------------------------------------------------------------
  // const W = wrap(selector({get: ({get}) => get(B)}));

  const INNER_W := Other([PARAMS, GetCall("B")])
  const CONFIG_W := ObjectLiteral([Other([Identifier(ACCESSOR), INNER_W])])
  const SELECTOR_W := Call(Identifier(FACTORY), [CONFIG_W])
  const WRAP_W := Call(Identifier("wrap"), [SELECTOR_W])
  const DECLARATION_W := VariableDeclaration(Identifier("W"), Some(WRAP_W))

  /** The selector call is the argument of another call, so it is not
      directly declared: the read of `B` yields nothing, although the outer
      call is declared as `W`. */
  lemma WrappedSelectorLogsNothing(top: seq<Node>)
    ensures MatchAt(Identifier(ACCESSOR),
              top + [DECLARATION_W, WRAP_W, SELECTOR_W, CONFIG_W, CONFIG_W.properties[0], INNER_W, GetCall("B")])
         == None
  {
    var ancestors := top + [DECLARATION_W, WRAP_W, SELECTOR_W, CONFIG_W, CONFIG_W.properties[0], INNER_W, GetCall("B")];
    var path := ancestors + [Identifier(ACCESSOR)];
    var i := |top| + 3;
    assert path[i] == CONFIG_W && path[i - 1] == SELECTOR_W && path[i - 2] == WRAP_W;
    assert path[i + 1..] == [CONFIG_W.properties[0], INNER_W, GetCall("B"), Identifier(ACCESSOR)];
    assert NearestSelectorLiteral(path, i) by {
      forall j | i < j < |path| ensures !IsSelectorLiteral(path, j) {
        assert path[j] == path[i + 1..][j - i - 1];
      }
    }
    NearestUndeclaredYieldsNothing(Identifier(ACCESSOR), ancestors, i);
  }

  // ---------------------------------------------------------------------
  // The graphs the accumulator builds

  /** The edge key layout, written out for one pair. */
  lemma EdgeKeyOfAB()
    ensures EdgeId("A", "B") == "A-->B;"
  {
  }

  /** The graph of `A`: node `A` typed as a selector, then the untyped
      dependencies `B` and `C`, and one edge from `A` to each, in the order
      the reads appear. */
  lemma GraphOfA()
    ensures Accumulate(EMPTY, [Pair("A", "B"), Pair("A", "C")])
         == GraphState(
              map["A" := SelectorNode("A"), "B" := DependencyNode("B"), "C" := DependencyNode("C")],
              ["A", "B", "C"],
              map[EdgeId("A", "B") := NewEdge("A", "B"), EdgeId("A", "C") := NewEdge("A", "C")],
              [EdgeId("A", "B"), EdgeId("A", "C")])
  {
    assert "A" != "B" && "A" != "C" && "B" != "C" by {
      assert "A"[0] != "B"[0] && "A"[0] != "C"[0] && "B"[0] != "C"[0];
    }
    assert EdgeId("A", "B") != EdgeId("A", "C") by {
      assert EdgeId("A", "B")[4] != EdgeId("A", "C")[4];
    }
    var g1 := Ingest(EMPTY, Pair("A", "B"));
    assert g1 == GraphState(map["A" := SelectorNode("A"), "B" := DependencyNode("B")], ["A", "B"],
                            map[EdgeId("A", "B") := NewEdge("A", "B")], [EdgeId("A", "B")]);
    assert [Pair("A", "B"), Pair("A", "C")][1..] == [Pair("A", "C")];
    assert [Pair("A", "C")][1..] == [];
  }

  /** A selector reading itself gets its node but no edge. */
  lemma SelfReadHasNoEdge()
    ensures Ingest(EMPTY, Pair("A", "A")) == GraphState(map["A" := SelectorNode("A")], ["A"], map[], [])
  {
  }

  /** `get(A)` in the body of `A`: the read is logged, and the graph it
      builds holds the node `A` and no edge. */
  lemma SelfReadInA(top: seq<Node>)
    ensures Pairs(GetCall("A"), AboveRead(top)) == [Pair("A", "A")]
    ensures Accumulate(EMPTY, Pairs(GetCall("A"), AboveRead(top)))
         == GraphState(map["A" := SelectorNode("A")], ["A"], map[], [])
  {
    ReadInA(top, "A");
    SelfReadHasNoEdge();
    assert [Pair("A", "A")][1..] == [];
  }

  /** A name first seen as a dependency keeps its untyped record when it is
      later found to be a selector: `B` is read by `A` before `B`'s own
      reads are met. */
  lemma FirstRecordWins()
    ensures Accumulate(EMPTY, [Pair("A", "B"), Pair("B", "C")]).nodes["B"] == DependencyNode("B")
  {
    var g1 := Ingest(EMPTY, Pair("A", "B"));
    assert g1.nodes["B"] == DependencyNode("B");
    assert [Pair("A", "B"), Pair("B", "C")][1..] == [Pair("B", "C")];
    assert [Pair("B", "C")][1..] == [];
  }

  /** The same read found in two files, or twice in one, yields one edge
      and two nodes in all. */
  lemma SameReadTwice()
    ensures var g := Accumulate(EMPTY, [Pair("A", "B"), Pair("A", "B")]);
      g == Accumulate(EMPTY, [Pair("A", "B")]) && |g.nodeKeys| == 2 && |g.edgeKeys| == 1
  {
    var p := Pair("A", "B");
    IngestIdempotent(EMPTY, p);
    assert [p, p][1..] == [p] && [p][1..] == [];
    assert "A" != "B" by { assert "A"[0] != "B"[0]; }
  }
}
