/**
 * src/matcher.rs: the `route` function that `ToTokens for Matcher` emits, and
 * the loop over the root rules that decides whether the route enum needs a
 * lifetime parameter.
 */
module Matcher {
  import opened Wrappers
  import opened PathSplit
  import opened RuleTree
  import opened Emitted
  import opened Walk

  // ---------------------------------------------------------------------
  // The emitted `route`
  // ---------------------------------------------------------------------

  /**
   * What the emitted `route(path)` returns when `code` is the root `match`:
   * split on `/`, discard the first piece (the `is_none()` guard), read the
   * next piece and run the root match; reaching the end yields `Some(r)`.
   */
  function ExecRoute(code: seq<Arm>, path: string): Option<Name> {
    var parts := Split(path);
    var (first, p1) := Read(parts, 0);
    if first.None? then None
    else
      var (next, p2) := Read(parts, p1);
      ExecArms(code, parts, p2, next)
  }

  /** The emitted `route(path)`, run against the `segments` iterator. */
  method Route(code: seq<Arm>, path: string) returns (r: Option<Name>)
    ensures r == ExecRoute(code, path)
  {
    var segments := new Segments(path);
    var first := segments.Next();
    if first.None? {
      return None;
    }
    var next := segments.Next();
    r := RunArms(code, segments, next);
  }

  /**
   * The `is_none()` guard on the first piece never fires: a path of one piece
   * (no `/`) routes to `None`, and otherwise the second piece is the first
   * segment matched against the roots' arms.
   */
  lemma ExecRouteReads(code: seq<Arm>, path: string)
    ensures ExecRoute(code, path) ==
      if |Split(path)| == 1 then None else ExecArms(code, Split(path), 2, Some(Split(path)[1]))
  {
  }

  /** The route the rule tree assigns to `path`: the walk over every piece after the first. */
  function RouteOf(roots: seq<Rule>, path: string): Option<Name>
    requires AllWellFormed(roots)
  {
    Dispatch(roots, Split(path)[1..])
  }

  /** The matcher emitted with declaration-order checking routes every path as the walk does. */
  lemma RouteCorrect(roots: seq<Rule>, path: string)
    requires AllWellFormed(roots)
    ensures ExecRoute(EmitAll(roots), path) == RouteOf(roots, path)
  {
    var parts := Split(path);
    var (next, pos) := Read(parts, 1);
    EmitAllExec(roots, parts, pos, next);
    if next.Some? {
      assert parts[1..] == [parts[1]] + parts[2..];
    }
  }

  /**
   * The matcher as the source emits it routes a path as the walk does over the
   * tree whose patterns are each put in check order.
   */
  lemma RouteAsWritten(roots: seq<Rule>, path: string)
    requires AllWellFormed(roots)
    ensures ExecRoute(EmitAllAsWritten(roots), path) == RouteOf(ReorderAll(roots), path)
  {
    EmitAllAsWrittenIsReordered(roots);
    RouteCorrect(ReorderAll(roots), path);
  }

  /** When no pattern has more than two literals, the source's matcher routes as the walk does. */
  lemma RouteAsWrittenShort(roots: seq<Rule>, path: string)
    requires AllWellFormed(roots)
    requires forall i :: 0 <= i < |roots| ==> ShortPatterns(roots[i])
    ensures ExecRoute(EmitAllAsWritten(roots), path) == RouteOf(roots, path)
  {
    RouteAsWritten(roots, path);
    ReorderAllShort(roots);
  }

  /**
   * The first piece of the path is discarded whatever it holds: a path that
   * does not start with `/` is routed on what follows its first `/`.
   */
  lemma DropsFirstPiece(roots: seq<Rule>, x: string, rest: string)
    requires AllWellFormed(roots) && NoSep(x)
    ensures RouteOf(roots, x + "/" + rest) == Dispatch(roots, Split(rest))
    ensures RouteOf(roots, x + "/" + rest) == RouteOf(roots, "/" + rest)
  {
    assert x + "/" + rest == x + ("/" + rest);
    SplitPrefix(x, "/" + rest);
    assert ("/" + rest)[1..] == rest;
    SplitPrefix("", "/" + rest);
    assert "" + ("/" + rest) == "/" + rest;
  }

  /** A path without any `/` routes nowhere: after its only piece there is no segment. */
  lemma NoSepPathFails(roots: seq<Rule>, path: string)
    requires AllWellFormed(roots) && NoSep(path)
    ensures RouteOf(roots, path) == None
  {
    SplitPrefix(path, "");
    assert path + "" == path;
  }

  /**
   * The path `/` holds one empty segment after the discarded piece, so it
   * routes like that segment: nowhere unless a root's first literal is `""`.
   */
  lemma SlashAlone(roots: seq<Rule>)
    requires AllWellFormed(roots)
    ensures RouteOf(roots, "/") == Dispatch(roots, [""])
    ensures (forall i :: 0 <= i < |roots| ==> roots[i].pattern[0] != "") ==> RouteOf(roots, "/") == None
  {
    assert Split("/") == ["", ""];
    if forall i :: 0 <= i < |roots| ==> roots[i].pattern[0] != "" {
      DispatchMiss(roots, [""]);
    }
  }

  // ---------------------------------------------------------------------
  // ToTokens for Matcher: collecting variants and the lifetime flag
  // ---------------------------------------------------------------------

  /**
   * What the calls of `add_variant` on `roots`, in order, append to `variants`,
   * where `addVariant(r)` gives what the call on `r` appends and what it returns.
   */
  function Appended<V>(roots: seq<Rule>, addVariant: Rule -> (seq<V>, bool)): seq<V> {
    if roots == [] then [] else Appended(roots[..|roots| - 1], addVariant) + addVariant(roots[|roots| - 1]).0
  }

  /**
   * The loop of src/matcher.rs:32-40: every root is visited, with no early
   * exit, so the variants of all roots are collected in order; the flag is set
   * exactly when some root's `add_variant` returned true.
   */
  method CollectVariants<V>(roots: seq<Rule>, addVariant: Rule -> (seq<V>, bool))
    returns (variants: seq<V>, hasLifetime: bool)
    ensures variants == Appended(roots, addVariant)
    ensures hasLifetime <==> exists i :: 0 <= i < |roots| && addVariant(roots[i]).1
  {
    variants := [];
    hasLifetime := false;
    for i := 0 to |roots|
      invariant variants == Appended(roots[..i], addVariant)
      invariant hasLifetime <==> exists j :: 0 <= j < i && addVariant(roots[j]).1
    {
      var (added, lifetime) := addVariant(roots[i]);
      variants := variants + added;
      if lifetime {
        hasLifetime := true;
      }
      assert roots[..i + 1][..i] == roots[..i];
    }
    assert roots[..|roots|] == roots;
  }

  /** Each root contributes exactly its own variants, after those of the roots before it. */
  lemma {:induction false} AppendedSplit<V>(a: seq<Rule>, b: seq<Rule>, addVariant: Rule -> (seq<V>, bool))
    ensures Appended(a + b, addVariant) == Appended(a, addVariant) + Appended(b, addVariant)
    decreases |b|
  {
    if b == [] {
      assert a + b == a;
    } else {
      assert (a + b)[..|a + b| - 1] == a + b[..|b| - 1];
      AppendedSplit(a, b[..|b| - 1], addVariant);
    }
  }
}
