/**
 * The code that `ToTokens for Rule` and `ToTokens for Rules` in
 * src/matcher/rule.rs emit, as a small syntax tree, with its meaning
 * (`ExecArms`, `ExecBody`) and a method that runs it against the shared
 * `segments` iterator (`RunArms`, `RunBody`).
 *
 * A sibling list becomes `match next { arm, ..., _ => return None }`; a rule
 * becomes one arm `Some("lit") => { body }`. Reaching `return None` ends the
 * whole `route` call with `None`, so a block evaluates to either a variant
 * name (`Some`) or that early exit (`None`).
 */
module Emitted {
  import opened Wrappers
  import opened PathSplit
  import opened RuleTree

  /** `Some(lit) => { body }` */
  datatype Arm = Arm(lit: string, body: Body)

  datatype Body =
      /** `if segments.next().is_none() { Route::ty } else { return None }` */
    | Accept(ty: Name)
      /** `let next = segments.next(); if next.is_none() { Route::ty } else { match next { arms, _ => return None } }` */
    | AcceptOrDescend(ty: Name, arms: seq<Arm>)
      /** `let next = segments.next(); match next { arms, _ => return None }` */
    | Descend(arms: seq<Arm>)

  // ---------------------------------------------------------------------
  // What the code means
  // ---------------------------------------------------------------------

  /**
   * `match next { arms, _ => return None }` with the cursor of `segments` at
   * `pos`: the first arm whose literal equals the segment runs; no arm, or no
   * segment, is the early exit.
   */
  function ExecArms(arms: seq<Arm>, parts: seq<string>, pos: nat, next: Option<string>): (r: Option<Name>)
    requires pos <= |parts|
    decreases arms
  {
    if next.None? || arms == [] then None
    else if arms[0].lit == next.value then ExecBody(arms[0].body, parts, pos)
    else ExecArms(arms[1..], parts, pos, next)
  }

  /**
   * The block of an arm: it first reads one more segment. At the end of the
   * path it yields its variant, if it has one; otherwise a leaf rejects and
   * the other blocks dispatch the segment just read on their arms.
   */
  function ExecBody(b: Body, parts: seq<string>, pos: nat): (r: Option<Name>)
    requires pos <= |parts|
    decreases b
  {
    var (n, q) := Read(parts, pos);
    match b
    case Accept(ty) => if n.None? then Some(ty) else None
    case AcceptOrDescend(ty, arms) => if n.None? then Some(ty) else ExecArms(arms, parts, q, n)
    case Descend(arms) => ExecArms(arms, parts, q, n)
  }

  /** The first arm, in order, whose literal equals the segment read is the one that runs. */
  lemma {:induction false} ArmsFirstMatch(arms: seq<Arm>, parts: seq<string>, pos: nat, next: Option<string>, i: nat)
    requires pos <= |parts| && next.Some? && i < |arms| && arms[i].lit == next.value
    requires forall j :: 0 <= j < i ==> arms[j].lit != next.value
    ensures ExecArms(arms, parts, pos, next) == ExecBody(arms[i].body, parts, pos)
    decreases i
  {
    if i > 0 {
      ArmsFirstMatch(arms[1..], parts, pos, next, i - 1);
    }
  }

  /** With no segment, or no arm for it, the `_ => return None` arm ends the route. */
  lemma {:induction false} ArmsMiss(arms: seq<Arm>, parts: seq<string>, pos: nat, next: Option<string>)
    requires pos <= |parts|
    requires next.Some? ==> forall j :: 0 <= j < |arms| ==> arms[j].lit != next.value
    ensures ExecArms(arms, parts, pos, next) == None
    decreases |arms|
  {
    if next.Some? && arms != [] {
      ArmsMiss(arms[1..], parts, pos, next);
    }
  }

  /**
   * Runs `match next { ... }` against the iterator `seg`. Where the cursor ends
   * is left unstated: `route` returns the result at once and never reads the
   * iterator again.
   */
  method RunArms(arms: seq<Arm>, seg: Segments, next: Option<string>) returns (r: Option<Name>)
    requires seg.Valid()
    modifies seg
    ensures seg.Valid()
    ensures r == ExecArms(arms, seg.parts, old(seg.pos), next)
    decreases arms, 1
  {
    if next.None? {
      return None;
    }
    var i := 0;
    while i < |arms| && arms[i].lit != next.value
      invariant i <= |arms|
      invariant ExecArms(arms[i..], seg.parts, seg.pos, next) == ExecArms(arms, seg.parts, seg.pos, next)
    {
      assert arms[i..][1..] == arms[i + 1..];
      i := i + 1;
    }
    if i == |arms| {
      return None;
    }
    r := RunBody(arms[i].body, seg);
  }

  /** Runs the block of one arm against the iterator `seg` (final cursor unstated, as above). */
  method RunBody(b: Body, seg: Segments) returns (r: Option<Name>)
    requires seg.Valid()
    modifies seg
    ensures seg.Valid()
    ensures r == ExecBody(b, seg.parts, old(seg.pos))
    decreases b, 0
  {
    var n := seg.Next();
    match b
    case Accept(ty) =>
      r := if n.None? then Some(ty) else None;
    case AcceptOrDescend(ty, arms) =>
      if n.None? {
        r := Some(ty);
      } else {
        r := RunArms(arms, seg, n);
      }
    case Descend(arms) =>
      r := RunArms(arms, seg, n);
  }

  // ---------------------------------------------------------------------
  // What is emitted for a rule
  // ---------------------------------------------------------------------

  /**
   * The block after the last literal (src/matcher/rule.rs:89-115), given the
   * children's arms: where the path ends it yields the rule's variant, if any;
   * otherwise the segment it reads is matched against the children.
   */
  function Tail(ty: Option<Name>, arms: seq<Arm>): Body {
    if ty.Some? then
      if arms == [] then Accept(ty.value) else AcceptOrDescend(ty.value, arms)
    else Descend(arms)
  }

  /**
   * The block after the last literal reads one segment: where the path ends it
   * yields the rule's variant, if any, and otherwise it dispatches that segment
   * on the children's arms (a leaf has none, so it rejects).
   */
  lemma TailBlock(ty: Option<Name>, arms: seq<Arm>, parts: seq<string>, q: nat)
    requires q <= |parts|
    ensures ExecBody(Tail(ty, arms), parts, q) ==
      if q == |parts| then ty else ExecArms(arms, parts, q + 1, Some(parts[q]))
  {
  }

  /**
   * Arms nested in the order of `p`: the arm for `p[0]` reads the next
   * segment and matches it against the arm for `p[1]`, and so on; `tail` runs
   * after `p[|p| - 1]`.
   */
  function Chain(p: seq<string>, tail: Body): (a: Arm)
    requires |p| >= 1
    ensures a.lit == p[0]
    decreases |p|
  {
    if |p| == 1 then Arm(p[0], tail) else Arm(p[0], Descend([Chain(p[1..], tail)]))
  }

  /**
   * The `prev` fold of src/matcher/rule.rs:125-139: each literal in turn wraps
   * the arm built so far, so the literal folded last ends up outermost.
   */
  function Nest(lits: seq<string>, inner: Arm): (a: Arm)
    ensures a.lit == if lits == [] then inner.lit else lits[|lits| - 1]
    decreases |lits|
  {
    if lits == [] then inner else Nest(lits[1..], Arm(lits[0], Descend([inner])))
  }

  /** All literals of a pattern but the last, which `take(len - 1)` visits. */
  function Init(p: seq<string>): (q: seq<string>)
    requires |p| >= 1
    ensures q + [p[|p| - 1]] == p
  {
    p[..|p| - 1]
  }

  function Last(p: seq<string>): string
    requires |p| >= 1
  {
    p[|p| - 1]
  }

  function Reverse(s: seq<string>): (r: seq<string>)
    ensures |r| == |s|
    ensures forall i :: 0 <= i < |s| ==> r[i] == s[|s| - 1 - i]
  {
    if s == [] then [] else Reverse(s[1..]) + [s[0]]
  }

  lemma {:induction false} ReverseReverse(s: seq<string>)
    ensures Reverse(Reverse(s)) == s
  {
    var r := Reverse(Reverse(s));
    assert forall i :: 0 <= i < |s| ==> r[i] == s[i];
  }

  /** Folding a list of literals around an arm chain puts them, reversed, in front of it. */
  lemma {:induction false} NestChain(lits: seq<string>, q: seq<string>, t: Body)
    requires |q| >= 1
    ensures Nest(lits, Chain(q, t)) == Chain(Reverse(lits) + q, t)
    decreases |lits|
  {
    if lits != [] {
      var q' := [lits[0]] + q;
      assert q'[1..] == q;
      assert Chain(q', t) == Arm(lits[0], Descend([Chain(q, t)]));
      NestChain(lits[1..], q', t);
      assert Reverse(lits[1..]) + q' == Reverse(lits) + q;
    } else {
      assert Reverse(lits) + q == q;
    }
  }

  /** The arms emitted for a sibling list, in declaration order (`Rules::to_tokens`). */
  function EmitAll(rules: seq<Rule>): (arms: seq<Arm>)
    requires AllWellFormed(rules)
    ensures |arms| == |rules|
    ensures forall i :: 0 <= i < |rules| ==> arms[i] == Emit(rules[i])
    decreases rules, 0
  {
    if rules == [] then [] else [Emit(rules[0])] + EmitAll(rules[1..])
  }

  /**
   * The arm for a rule with the literal loop corrected to run backwards
   * (`take(len - 1).rev()`): the literals are checked in declaration order.
   */
  function Emit(r: Rule): (a: Arm)
    requires WellFormed(r)
    ensures a.lit == r.pattern[0]
    decreases r, 1
  {
    Chain(r.pattern, Tail(r.ty, EmitAll(r.children)))
  }

  /** The arms for a sibling list as the source emits them. */
  function EmitAllAsWritten(rules: seq<Rule>): (arms: seq<Arm>)
    requires AllWellFormed(rules)
    ensures |arms| == |rules|
    ensures forall i :: 0 <= i < |rules| ==> arms[i] == EmitAsWritten(rules[i])
    decreases rules, 0
  {
    seq(|rules|, i requires 0 <= i < |rules| => EmitAsWritten(rules[i]))
  }

  /**
   * The arm for a rule as the source emits it: the last literal's arm holds
   * the tail, and the fold wraps `pattern[0]`, ..., `pattern[len - 2]` around it
   * in that order.
   */
  function EmitAsWritten(r: Rule): (a: Arm)
    requires WellFormed(r)
    ensures a.lit == FirstChecked(r.pattern)
    decreases r, 1
  {
    Nest(Init(r.pattern), Arm(Last(r.pattern), Tail(r.ty, EmitAllAsWritten(r.children))))
  }

  /** The literal the source's code compares the first segment with: `p[len - 2]`, or `p[0]` alone. */
  function FirstChecked(p: seq<string>): string
    requires |p| >= 1
  {
    p[if |p| == 1 then 0 else |p| - 2]
  }

  /**
   * The sibling `match` as the source emits it: the first rule, in declaration
   * order, whose first-checked literal equals the segment is entered, whatever
   * later siblings hold.
   */
  lemma EmitAllAsWrittenEnters(rules: seq<Rule>, parts: seq<string>, pos: nat, s: string, i: nat)
    requires AllWellFormed(rules) && pos <= |parts| && i < |rules|
    requires FirstChecked(rules[i].pattern) == s
    requires forall j :: 0 <= j < i ==> FirstChecked(rules[j].pattern) != s
    ensures ExecArms(EmitAllAsWritten(rules), parts, pos, Some(s)) == ExecBody(EmitAsWritten(rules[i]).body, parts, pos)
  {
    ArmsFirstMatch(EmitAllAsWritten(rules), parts, pos, Some(s), i);
  }

  /** With no segment, or no sibling whose first-checked literal equals it, the source's `match` gives `None`. */
  lemma EmitAllAsWrittenMiss(rules: seq<Rule>, parts: seq<string>, pos: nat, next: Option<string>)
    requires AllWellFormed(rules) && pos <= |parts|
    requires next.Some? ==> forall j :: 0 <= j < |rules| ==> FirstChecked(rules[j].pattern) != next.value
    ensures ExecArms(EmitAllAsWritten(rules), parts, pos, next) == None
  {
    ArmsMiss(EmitAllAsWritten(rules), parts, pos, next);
  }

  /** The corrected fold is exactly the declaration-order chain. */
  lemma {:induction false} EmitIsReversedFold(r: Rule)
    requires WellFormed(r)
    ensures Emit(r) == Nest(Reverse(Init(r.pattern)), Arm(Last(r.pattern), Tail(r.ty, EmitAll(r.children))))
  {
    var init, last := Init(r.pattern), Last(r.pattern);
    var t := Tail(r.ty, EmitAll(r.children));
    assert Chain([last], t) == Arm(last, t);
    NestChain(Reverse(init), [last], t);
    ReverseReverse(init);
    assert init + [last] == r.pattern;
  }

  /**
   * `ToTokens for Rule` (src/matcher/rule.rs:84-142): the tail block, the arm
   * for the last literal, and the loop that wraps the other literals around it.
   */
  method EmitRule(r: Rule) returns (arm: Arm)
    requires WellFormed(r)
    ensures arm == EmitAsWritten(r)
  {
    var x := Tail(r.ty, EmitAllAsWritten(r.children));
    var n := |r.pattern|;
    var prev := Arm(r.pattern[n - 1], x);
    for i := 0 to n - 1
      invariant Nest(r.pattern[i..n - 1], prev) == EmitAsWritten(r)
    {
      assert r.pattern[i..n - 1][1..] == r.pattern[i + 1..n - 1];
      prev := Arm(r.pattern[i], Descend([prev]));
    }
    arm := prev;
  }

  // ---------------------------------------------------------------------
  // The order in which the source checks a pattern
  // ---------------------------------------------------------------------

  /** The literals of `p` in the order the emitted code compares them with segments. */
  function CheckOrder(p: seq<string>): (q: seq<string>)
    requires |p| >= 1
    ensures |q| == |p|
  {
    Reverse(Init(p)) + [Last(p)]
  }

  /** The index into the pattern of the `k`-th literal checked, for a pattern of length `n`. */
  function CheckedIndex(n: nat, k: nat): (i: nat)
    requires k < n
    ensures i < n
  {
    if k < n - 1 then n - 2 - k else n - 1
  }

  /** The emitted code checks `p[n-2], p[n-3], ..., p[0]`, then `p[n-1]`. */
  lemma CheckOrderAt(p: seq<string>, k: nat)
    requires k < |p|
    ensures CheckOrder(p)[k] == p[CheckedIndex(|p|, k)]
  {
  }

  /** That order is declaration order for every pattern of length `n` exactly when `n <= 2`. */
  lemma CheckedInOrder(n: nat)
    ensures (forall k :: 0 <= k < n ==> CheckedIndex(n, k) == k) <==> n <= 2
  {
    if n > 2 {
      assert CheckedIndex(n, 0) == n - 2 != 0;
    }
  }

  /** The rule with every pattern of its subtree put in the order the source checks it. */
  function Reorder(r: Rule): (r': Rule)
    requires WellFormed(r)
    ensures r'.ty == r.ty && |r'.children| == |r.children|
    ensures WellFormed(r')
    decreases r, 1
  {
    Rule(CheckOrder(r.pattern), r.ty, ReorderAll(r.children))
  }

  function ReorderAll(rules: seq<Rule>): (rs: seq<Rule>)
    requires AllWellFormed(rules)
    ensures |rs| == |rules| && AllWellFormed(rs)
    ensures forall i :: 0 <= i < |rules| ==> rs[i] == Reorder(rules[i])
    decreases rules, 0
  {
    seq(|rules|, i requires 0 <= i < |rules| => Reorder(rules[i]))
  }

  /** Every pattern of the subtree has at most two literals. */
  predicate ShortPatterns(r: Rule)
    decreases r
  {
    |r.pattern| <= 2 && forall i :: 0 <= i < |r.children| ==> ShortPatterns(r.children[i])
  }

  /**
   * The code the source emits for `r` is the corrected code for `r` with
   * every pattern permuted into check order.
   */
  lemma {:induction false} EmitAsWrittenIsReordered(r: Rule)
    requires WellFormed(r)
    ensures EmitAsWritten(r) == Emit(Reorder(r))
    decreases r, 1
  {
    EmitAllAsWrittenIsReordered(r.children);
    var t := Tail(r.ty, EmitAllAsWritten(r.children));
    assert Chain([Last(r.pattern)], t) == Arm(Last(r.pattern), t);
    NestChain(Init(r.pattern), [Last(r.pattern)], t);
  }

  lemma {:induction false} EmitAllAsWrittenIsReordered(rules: seq<Rule>)
    requires AllWellFormed(rules)
    ensures EmitAllAsWritten(rules) == EmitAll(ReorderAll(rules))
    decreases rules, 0
  {
    forall i | 0 <= i < |rules|
      ensures EmitAllAsWritten(rules)[i] == EmitAll(ReorderAll(rules))[i]
    {
      EmitAsWrittenIsReordered(rules[i]);
    }
  }

  /** With patterns of at most two literals, reordering changes nothing. */
  lemma {:induction false} ReorderShort(r: Rule)
    requires WellFormed(r) && ShortPatterns(r)
    ensures Reorder(r) == r
    decreases r, 1
  {
    ReorderAllShort(r.children);
    var p := r.pattern;
    if |p| == 2 {
      assert Reverse(p[..1]) == [p[0]];
    } else {
      assert Reverse(p[..0]) == [];
    }
    assert CheckOrder(p) == p;
  }

  lemma {:induction false} ReorderAllShort(rules: seq<Rule>)
    requires AllWellFormed(rules)
    requires forall i :: 0 <= i < |rules| ==> ShortPatterns(rules[i])
    ensures ReorderAll(rules) == rules
    decreases rules, 0
  {
    forall i | 0 <= i < |rules|
      ensures ReorderAll(rules)[i] == rules[i]
    {
      ReorderShort(rules[i]);
    }
  }
}
