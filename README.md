# uri_path_router matcher, modelled in Dafny

`uri_path_router` is a procedural macro. Given a tree of rules such as

```
"foo" => { "a" => FooA, "b" => FooB },
"bar" => { "a" => BarA, "b" => BarB { "x" => X, "y" => Y } }
```

it emits a route enum and a function `route(path: &str) -> Option<Route>`.
That function splits the path on `/`, discards the first piece, and walks the
rule tree with one shared `segments` iterator. Each sibling list is a `match`
on the current segment, and each rule is one arm of it. Any mismatch ends the
whole call with `return None`.

This project models what the emitted code does, not how its tokens are built:

- `RuleTree` (`rule_tree.dfy`): the `Rule` tree of `src/matcher/rule.rs`, its
  non-empty-pattern invariant, `Rule::add_names` as a method that threads the
  name vector, and the pattern loop of `Rule::parse` over an abstract token
  sequence.
- `Emitted` (`emitted.dfy`): the emitted code as a small syntax tree (`Arm`,
  `Body`), with its meaning (`ExecArms`, `ExecBody`) and methods that run it
  against the iterator (`RunArms`, `RunBody`). It also holds the `prev` fold of
  `ToTokens for Rule` as a method with its loop (`EmitRule`), the fold as a
  function (`EmitAsWritten`), and the fold corrected to check literals in
  declaration order (`Emit`).
- `Walk` (`walk.dfy`): the rule-tree walk stated directly over the remaining
  segments (`Dispatch`, `Enter`, `Finish`), its properties, and the proof that
  the corrected emitted code performs exactly this walk (`EmitAllExec`).
- `PathSplit` (`path_split.dfy`): `str::split("/")` and the `Segments`
  iterator class whose cursor `next()` advances.
- `Matcher` (`matcher.dfy`): the emitted `route` (`Route` runs it, `ExecRoute`
  is its meaning, `RouteOf` is the walk over a path), and the loop of
  `ToTokens for Matcher` that collects variants and decides the lifetime flag.
- `RouteExamples` (`route_examples.dfy`): the usage example of `src/lib.rs`
  with its seven expected results, plus concrete cases for no-backtracking,
  three-literal patterns and the first piece of the path.

Points where the code may surprise a reader, modelled as the code does them:

- A path that does not start with `/` is not rejected. The first piece is
  discarded whatever it holds, and the `is_none()` guard never fires because
  `split` always yields a piece (`Matcher.DropsFirstPiece`, `PathSplit.Split`).
- The path `/` yields one empty segment. It enters a root only if that root's
  first-checked literal is `""`, and only a one-literal root with a variant,
  `"" => V`, accepts it (`Matcher.SlashAlone`,
  `RouteExamples.SlashAloneExample`).
- There are no capture segments, no literal-over-capture precedence, no
  duplicate-variant check and no documentation prefix strings in these files.
- A pattern of three or more literals is not checked left to right (see
  Findings).

## Model

| member | source | states |
|---|---|---|
| `PathSplit.Split` | src/matcher.rs:66-70 | `split("/")` yields at least one piece, no piece holds `/`, and joining the pieces with `/` gives back the path; so the `is_none()` guard never fires |
| `PathSplit.SplitJoin` | src/matcher.rs:66 | splitting undoes joining for any non-empty list of pieces without `/` |
| `PathSplit.SplitPrefix` | src/matcher.rs:66 | a `/`-free prefix of the input stays glued to the first piece |
| `PathSplit.Segments.constructor` | src/matcher.rs:66 | the iterator starts before the first piece of `split("/")` |
| `PathSplit.Segments.Next` | src/matcher.rs:68-72 | `next()` hands out the piece at the cursor and advances; at the end it answers `None` and stays put |
| `RuleTree.WellFormedNodes` | src/matcher/rule.rs:6-10 | the invariant the emission relies on (`pattern.last().unwrap()` at line 117, `len - 1` at line 127): a `Rule` tree is well formed exactly when every rule in it, at any depth, has at least one literal |
| `RuleTree.AddNames` | src/matcher/rule.rs:13-21 | the vector keeps what it held, followed by the rule's own `ty` (if any) and then each child's names in declaration order |
| `RuleTree.NamesPreorder` | src/matcher/rule.rs:13-21 | the appended names are the `ty`s of the subtree's nodes in pre-order |
| `RuleTree.NamesMember` | src/matcher/rule.rs:13-21 | a name is appended exactly when some node of the subtree declares it |
| `RuleTree.NamesCount` | src/matcher/rule.rs:14-16 | the vector grows by exactly the number of rules in the subtree that have a `ty` |
| `RuleTree.ParsePattern` | src/matcher/rule.rs:55-62 | on success the pattern is non-empty, the tokens taken are its literals separated by `/`, and no `/` follows; a failure points at the first token that should have been a literal (the first token, or one right after a `/`) |
| `Emitted.EmitRule` | src/matcher/rule.rs:84-142 | the loop over `pattern.take(len - 1)` builds the arm for the last literal wrapped by each earlier literal in turn (`EmitAsWritten`) |
| `Emitted.NestChain` | src/matcher/rule.rs:125-139 | wrapping an arm chain with a list of literals puts them, reversed, in front of the chain |
| `Emitted.EmitAsWrittenIsReordered` | src/matcher/rule.rs:117-139 | the code emitted for a rule equals the declaration-order code for the same rule with every pattern permuted into check order |
| `Emitted.EmitAllAsWrittenIsReordered` | src/matcher/rule.rs:145-161 | the same for a sibling list, whose arms are the rules' arms in declaration order |
| `Emitted.EmitIsReversedFold` | src/matcher/rule.rs:125-139 | running the fold over `take(len - 1).rev()` yields the declaration-order chain |
| `Emitted.CheckOrderAt` | src/matcher/rule.rs:117-139 | a pattern of length n is checked as p[n-2], p[n-3], ..., p[0], then p[n-1] |
| `Emitted.CheckedInOrder` | src/matcher/rule.rs:125-139 | that order is declaration order for every pattern of length n exactly when n <= 2 |
| `Emitted.ReorderShort` | src/matcher/rule.rs:125-139 | a tree whose patterns have at most two literals is unchanged by putting patterns into check order |
| `Emitted.ArmsFirstMatch` | src/matcher/rule.rs:151-156 | in `match next`, the first arm in declaration order whose literal equals the segment runs its block, whatever later arms hold |
| `Emitted.ArmsMiss` | src/matcher/rule.rs:151-156 | with no segment, or no arm whose literal equals it, the `_ => return None` arm ends the route |
| `Emitted.TailBlock` | src/matcher/rule.rs:89-115 | the block after the last literal reads one segment: if the path ends there it yields the rule's variant (`None` for a rule without one), otherwise it matches the segment against the children's arms, and a leaf has none, so it rejects |
| `Emitted.EmitAsWritten` | src/matcher/rule.rs:84-142 | the outermost arm emitted for a rule is entered on `pattern[len - 2]` (on `pattern[0]` for a one-literal pattern), so not on `pattern[0]` once the pattern has three or more literals |
| `Emitted.EmitAllAsWrittenEnters` | src/matcher/rule.rs:145-161 | in the sibling `match` the source emits, the first rule in declaration order whose first-checked literal equals the segment is entered, whatever later siblings hold |
| `Emitted.EmitAllAsWrittenMiss` | src/matcher/rule.rs:145-161 | with no segment, or no sibling whose first-checked literal equals it, the source's sibling `match` gives `None` |
| `Emitted.RunArms` | src/matcher/rule.rs:151-156 | running a `match next` on the iterator yields what `ExecArms` gives: the first arm whose literal equals the segment runs; none, or no segment, is `None` |
| `Emitted.RunBody` | src/matcher/rule.rs:89-115 | running an arm's block reads one segment and yields what `ExecBody` gives |
| `Walk.DispatchFirst` | src/matcher/rule.rs:151-156 | the first rule in declaration order whose first literal equals the current segment decides the result |
| `Walk.DispatchMiss` | src/matcher/rule.rs:151-156 | with no segment, or no rule whose first literal equals it, the route is `None` |
| `Walk.NoBacktrack` | src/matcher/rule.rs:130-137 | once a rule's first literal matches, siblings declared after it are never consulted, even when the entered rule fails later |
| `Walk.EnterYields` | src/matcher/rule.rs:89-115 | an entered rule yields `v` exactly when its whole pattern comes next and then either the path ends and `v` is its `ty`, or more follows and its children yield `v` |
| `Walk.LeafExact` | src/matcher/rule.rs:90-99 | a leaf rule accepts exactly its own pattern: any further segment, even an empty one, gives `None` |
| `Walk.JunctionNeedsMore` | src/matcher/rule.rs:110-114 | a rule without `ty` never yields where the path ends right after its pattern |
| `Walk.ChainExec` | src/matcher/rule.rs:129-139 | a chain of arms checks the rest of its pattern against the next segments in order, and `return None` on the first mismatch or missing segment |
| `Walk.TailExec` | src/matcher/rule.rs:89-115 | the block after the last literal yields the `ty` when the path ends there, and otherwise dispatches into the children (`None` for a leaf) |
| `Walk.EmitAllExec` | src/matcher/rule.rs:145-161 | the emitted sibling `match` with declaration-order checking yields exactly what `Dispatch` yields on the remaining segments |
| `Matcher.ExecRouteReads` | src/matcher.rs:65-77 | the `is_none()` guard on the first piece never fires: a path of one piece routes to `None`, and otherwise the second piece is the first segment matched against the roots' arms |
| `Matcher.Route` | src/matcher.rs:65-77 | the emitted `route` run on the iterator returns `ExecRoute(code, path)` |
| `Matcher.RouteCorrect` | src/matcher.rs:65-77 | with declaration-order checking, `route` returns `Some(v)` exactly when the walk over the pieces after the first reaches `v`, and `None` otherwise |
| `Matcher.RouteAsWritten` | src/matcher.rs:65-77 | the source's `route` is the walk over the tree with every pattern in check order |
| `Matcher.RouteAsWrittenShort` | src/matcher.rs:65-77 | when no pattern has more than two literals, the source's `route` is exactly the walk |
| `Matcher.DropsFirstPiece` | src/matcher.rs:66-70 | the first piece is discarded whatever it holds; `x/rest` routes like `/rest` |
| `Matcher.NoSepPathFails` | src/matcher.rs:66-72 | a path with no `/` routes to `None` |
| `Matcher.SlashAlone` | src/matcher.rs:66-74 | `/` routes like one empty segment, so to `None` unless a root's first literal is `""` |
| `Matcher.CollectVariants` | src/matcher.rs:32-40 | every root is visited with no early exit: the variants of all roots are collected in order, and the flag is true exactly when some root's `add_variant` returned true |
| `Matcher.AppendedSplit` | src/matcher.rs:36-40 | the variants collected for two runs of roots are those of the first run followed by those of the second |
| `RouteExamples.DocTestFooA` | src/lib.rs:29 | `/foo/a` routes to `FooA` |
| `RouteExamples.DocTestTooLong` | src/lib.rs:30 | `/foo/a/b` routes to `None` |
| `RouteExamples.DocTestBarB` | src/lib.rs:31 | `/bar/b` routes to `BarB` |
| `RouteExamples.DocTestTrailingSlash` | src/lib.rs:32 | `/bar/b/` routes to `None` |
| `RouteExamples.DocTestX` | src/lib.rs:33 | `/bar/b/x` routes to `X` |
| `RouteExamples.DocTestY` | src/lib.rs:34 | `/bar/b/y` routes to `Y` |
| `RouteExamples.DocTestUnknownFirst` | src/lib.rs:35 | `/wrong/b` routes to `None` |
| `RouteExamples.DocRoutesAsWritten` | src/lib.rs:13-25 | for the usage example the source's matcher and the walk agree on every path |
| `RouteExamples.NoBacktrackExample` | src/matcher/rule.rs:130-137 | with `"a"/"b" => AB, "a"/"c" => AC`, `/a/c` is `None`, though the second rule alone accepts it |
| `RouteExamples.TripleReordered` | src/matcher/rule.rs:125-139 | `"a"/"b"/"c"` is checked as `b`, `a`, `c` |
| `RouteExamples.TripleAsWrittenRejectsInOrder` | src/matcher/rule.rs:125-139 | the source's matcher for `"a"/"b"/"c" => ABC` rejects `/a/b/c` |
| `RouteExamples.TripleAsWrittenAcceptsSwapped` | src/matcher/rule.rs:125-139 | the source's matcher for `"a"/"b"/"c" => ABC` accepts `/b/a/c` |
| `RouteExamples.TripleInOrderAccepts` | src/matcher/rule.rs:125-139 | the declaration-order matcher for `"a"/"b"/"c" => ABC` accepts `/a/b/c` |
| `RouteExamples.NoLeadingSlashExample` | src/matcher.rs:66-70 | `x/a` routes like `/a` |
| `RouteExamples.SlashAloneExample` | src/matcher.rs:66-74 | a root `"" => Root` accepts the path `/` |

## Findings

| source | as written | input that shows it | evidently intended | confidence | as-written member | corrected member |
|---|---|---|---|---|---|---|
| src/matcher/rule.rs:125-139 | the loop folds `pattern.take(len - 1)` front to back, so `pattern[0]` is wrapped first and `pattern[len - 2]` ends up outermost; segments are compared with p[n-2], ..., p[0], p[n-1] | `"a" / "b" / "c" => ABC`: `/a/b/c` gives `None` and `/b/a/c` gives `Some(ABC)` | literals checked in declaration order (fold over `take(len - 1).rev()`), so `/a/b/c` gives `Some(ABC)` | high; not executed | `RouteExamples.TripleAsWrittenRejectsInOrder` | `Matcher.RouteCorrect` |

The source's behaviour is modelled as well: `Emitted.EmitAsWritten` and
`Emitted.EmitRule` follow the loop as written, and `Matcher.RouteAsWritten`
states what they route. `Matcher.RouteCorrect`, `Walk.EmitAllExec` and the
walk's properties are about the corrected emission `Emitted.Emit`. By
`Matcher.RouteAsWrittenShort` the two agree whenever no pattern has more than
two literals, which covers every example in `src/lib.rs`.

## Left out

- Parsing with `syn` (`Parse for Matcher`, `Parse for Rules`, and the `=>`, identifier and brace handling of `Parse for Rule`): it works on a token stream of a library outside this model. The tree is taken as given, with the non-empty-pattern invariant that the pattern loop (`RuleTree.ParsePattern`) establishes.
- Token building with `quote!` and `proc_macro2`: the emitted code is modelled as a syntax tree of the three block shapes and the arm, not as tokens.
- The `#[proc_macro]` entry point in src/lib.rs: a wrapper; only the expected results of its usage example are used.
- The text of the enum definition and its `derive`: variants are opaque names, and the lifetime flag only chooses between the two enum texts.
- `Rules::set_route_id` and `Rule::add_variant`: they are called in src/matcher.rs but not defined in these files. `add_variant` is a parameter of `CollectVariants`.
- Matcher.CollectVariants: models `add_variant` as a function of the rule alone that gives what it appends and what it returns, because its definition is not part of this model; a version that reads the vector's earlier content is not covered.
- The hard-coded `Route::` prefix of src/matcher/rule.rs:95: variant names are opaque, so the enum's name plays no part.
- Escapes inside string literals: a literal is modelled by its value as a character sequence.
- Duplicate variant names and duplicate literals among siblings: the first rule still wins, as modelled; the Rust compiler's reaction to them is outside this model.
- The `Deref` and `Default` impls of `Rules`: boilerplate.
- The route identifier of the macro input: the usage example of src/lib.rs:13-25 starts with the rules, while `Parse for Matcher` (src/matcher.rs:15-17) first expects an identifier and a comma. The expected results of that example are used for the same rules preceded by `Route,`.
- A rule with neither a variant nor children, and an empty root list (`route!(Route,)`, whose root `match` at src/matcher.rs:74 is emitted the same way): the parsers accept both, but such a sibling list is emitted as `match next { , _ => return None, }`, an arm list that starts with a comma, which is not valid Rust, so the generated crate does not compile. The model does not capture that failure; it chooses to give an empty sibling list the meaning "no arm matches" (`None`), which is what every well-formed `match` with only the `_` arm would do.
