/**
 * Concrete routes: the tree of the usage example in src/lib.rs with its
 * expected results, the no-backtracking behaviour, and the check order of
 * patterns with three or more literals.
 */
module RouteExamples {
  import opened Wrappers
  import opened PathSplit
  import opened RuleTree
  import opened Emitted
  import opened Walk
  import opened Matcher

  function Leaf(lit: string, ty: Name): Rule {
    Rule([lit], Some(ty), [])
  }

  /**
   * "foo" => { "a" => FooA, "b" => FooB },
   * "bar" => { "a" => BarA, "b" => BarB { "x" => X, "y" => Y } }
   */
  function DocRoutes(): (roots: seq<Rule>)
    ensures AllWellFormed(roots)
    ensures forall i :: 0 <= i < |roots| ==> ShortPatterns(roots[i])
  {
    [FooRule(), BarRule()]
  }

  function FooRule(): Rule {
    Rule(["foo"], None, [Leaf("a", "FooA"), Leaf("b", "FooB")])
  }

  function BarRule(): Rule {
    Rule(["bar"], None, [Leaf("a", "BarA"), BarBRule()])
  }

  function BarBRule(): Rule {
    Rule(["b"], Some("BarB"), [Leaf("x", "X"), Leaf("y", "Y")])
  }

  /** Paths starting `bar/b` reach the rule `BarB` with the remaining segments. */
  lemma IntoBarB(rest: seq<string>)
    ensures Dispatch(DocRoutes(), ["bar", "b"] + rest) == Finish(BarBRule(), rest)
  {
    var segs := ["bar", "b"] + rest;
    DispatchFirst(DocRoutes(), segs, 1);
    assert segs[1..] == ["b"] + rest && segs[2..] == rest;
    DispatchFirst(BarRule().children, ["b"] + rest, 1);
    assert (["b"] + rest)[1..] == rest;
  }

  /** A path `/bar/b/<seg>` is decided by the children of `BarB` alone. */
  lemma RouteBarB(seg: string)
    requires NoSep(seg)
    ensures RouteOf(DocRoutes(), "/bar/b/" + seg) == Dispatch(BarBRule().children, [seg])
  {
    var parts := ["", "bar", "b", seg];
    assert Join(parts[3..]) == seg;
    assert Join(parts[2..]) == "b" + "/" + seg == "b/" + seg;
    assert Join(parts[1..]) == "bar" + "/" + ("b/" + seg) == "bar/b/" + seg;
    assert Join(parts) == "" + "/" + ("bar/b/" + seg) == "/bar/b/" + seg;
    RouteOfPieces(DocRoutes(), parts, "/bar/b/" + seg);
    assert parts[1..] == ["bar", "b"] + [seg];
    IntoBarB([seg]);
  }

  /** Routing a path given by its pieces: everything after the first piece is walked. */
  lemma RouteOfPieces(roots: seq<Rule>, parts: seq<string>, path: string)
    requires AllWellFormed(roots) && |parts| >= 1
    requires forall i :: 0 <= i < |parts| ==> NoSep(parts[i])
    requires Join(parts) == path
    ensures RouteOf(roots, path) == Dispatch(roots, parts[1..])
  {
    SplitJoin(parts);
  }

  lemma DocTestFooA()
    ensures RouteOf(DocRoutes(), "/foo/a") == Some("FooA")
  {
    RouteOfPieces(DocRoutes(), ["", "foo", "a"], "/foo/a");
  }

  lemma DocTestTooLong()
    ensures RouteOf(DocRoutes(), "/foo/a/b") == None
  {
    RouteOfPieces(DocRoutes(), ["", "foo", "a", "b"], "/foo/a/b");
  }

  lemma DocTestBarB()
    ensures RouteOf(DocRoutes(), "/bar/b") == Some("BarB")
  {
    RouteOfPieces(DocRoutes(), ["", "bar", "b"], "/bar/b");
  }

  lemma DocTestTrailingSlash()
    ensures RouteOf(DocRoutes(), "/bar/b/") == None
  {
    RouteOfPieces(DocRoutes(), ["", "bar", "b", ""], "/bar/b/");
  }

  lemma DocTestX()
    ensures RouteOf(DocRoutes(), "/bar/b/x") == Some("X")
  {
    RouteBarB("x");
    assert "/bar/b/" + "x" == "/bar/b/x";
  }

  lemma DocTestY()
    ensures RouteOf(DocRoutes(), "/bar/b/y") == Some("Y")
  {
    RouteBarB("y");
    assert "/bar/b/" + "y" == "/bar/b/y";
  }

  lemma DocTestUnknownFirst()
    ensures RouteOf(DocRoutes(), "/wrong/b") == None
  {
    RouteOfPieces(DocRoutes(), ["", "wrong", "b"], "/wrong/b");
  }

  /** The usage example behaves the same whether its patterns are checked as written or in order. */
  lemma DocRoutesAsWritten(path: string)
    ensures ExecRoute(EmitAllAsWritten(DocRoutes()), path) == RouteOf(DocRoutes(), path)
  {
    RouteAsWrittenShort(DocRoutes(), path);
  }

  // ---------------------------------------------------------------------
  // No backtracking
  // ---------------------------------------------------------------------

  function Siblings(): (roots: seq<Rule>)
    ensures AllWellFormed(roots)
  {
    [Rule(["a", "b"], Some("AB"), []), Rule(["a", "c"], Some("AC"), [])]
  }

  /**
   * `"a" / "b" => AB, "a" / "c" => AC`: the path `/a/c` enters the first rule,
   * fails on `c` and is not tried against the second, which alone accepts it.
   */
  lemma NoBacktrackExample()
    ensures RouteOf(Siblings(), "/a/c") == None
    ensures RouteOf(Siblings()[1..], "/a/c") == Some("AC")
  {
    RouteOfPieces(Siblings(), ["", "a", "c"], "/a/c");
    RouteOfPieces(Siblings()[1..], ["", "a", "c"], "/a/c");
  }

  // ---------------------------------------------------------------------
  // Patterns of three literals
  // ---------------------------------------------------------------------

  function Triple(): (roots: seq<Rule>)
    ensures AllWellFormed(roots)
  {
    [Rule(["a", "b", "c"], Some("ABC"), [])]
  }

  /** The source checks `"a" / "b" / "c"` as `b`, `a`, `c`. */
  lemma TripleReordered()
    ensures ReorderAll(Triple()) == [Rule(["b", "a", "c"], Some("ABC"), [])]
  {
    var r := Triple()[0];
    assert Reverse(["a", "b"]) == ["b", "a"];
    assert Init(r.pattern) == ["a", "b"];
    assert Reorder(r).pattern == ["b", "a", "c"];
  }

  /** `"a" / "b" / "c" => ABC`: the source's matcher rejects `/a/b/c`, ... */
  lemma TripleAsWrittenRejectsInOrder()
    ensures ExecRoute(EmitAllAsWritten(Triple()), "/a/b/c") == None
  {
    var swapped := [Rule(["b", "a", "c"], Some("ABC"), [])];
    TripleReordered();
    RouteAsWritten(Triple(), "/a/b/c");
    RouteOfPieces(swapped, ["", "a", "b", "c"], "/a/b/c");
  }

  /** ... accepts `/b/a/c`, ... */
  lemma TripleAsWrittenAcceptsSwapped()
    ensures ExecRoute(EmitAllAsWritten(Triple()), "/b/a/c") == Some("ABC")
  {
    var swapped := [Rule(["b", "a", "c"], Some("ABC"), [])];
    TripleReordered();
    RouteAsWritten(Triple(), "/b/a/c");
    RouteOfPieces(swapped, ["", "b", "a", "c"], "/b/a/c");
    assert Dispatch(swapped, ["b", "a", "c"]) == Enter(swapped[0], ["b", "a", "c"]);
    LeafExact(swapped[0], ["b", "a", "c"]);
  }

  /** ... while the matcher that checks in declaration order accepts `/a/b/c`. */
  lemma TripleInOrderAccepts()
    ensures ExecRoute(EmitAll(Triple()), "/a/b/c") == Some("ABC")
  {
    RouteCorrect(Triple(), "/a/b/c");
    RouteOfPieces(Triple(), ["", "a", "b", "c"], "/a/b/c");
  }

  // ---------------------------------------------------------------------
  // The first piece and the path `/`
  // ---------------------------------------------------------------------

  /** A path that does not start with `/` is not rejected: `x/a` routes like `/a`. */
  lemma NoLeadingSlashExample()
    ensures RouteOf([Leaf("a", "A")], "x/a") == Some("A")
  {
    DropsFirstPiece([Leaf("a", "A")], "x", "a");
    assert "x" + "/" + "a" == "x/a";
    SplitJoin(["a"]);
  }

  /** A root whose first literal is empty accepts the path `/`. */
  lemma SlashAloneExample()
    ensures RouteOf([Leaf("", "Root")], "/") == Some("Root")
  {
    SlashAlone([Leaf("", "Root")]);
  }
}
