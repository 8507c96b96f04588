/**
 * The rule-tree walk that the emitted matcher performs, stated directly over
 * the rules and the remaining path segments, and the proof that the code
 * emitted with declaration-order checking behaves exactly like it.
 */
module Walk {
  import opened Wrappers
  import opened PathSplit
  import opened RuleTree
  import opened Emitted

  /**
   * Sibling dispatch on the segments `segs` still to be read, `segs[0]` being
   * the current one: the first rule, in declaration order, whose first literal
   * equals it is entered; with no such rule, or no segment, the route fails.
   */
  function Dispatch(rules: seq<Rule>, segs: seq<string>): Option<Name>
    requires AllWellFormed(rules)
    decreases rules, 2
  {
    if segs == [] || rules == [] then None
    else if rules[0].pattern[0] == segs[0] then Enter(rules[0], segs)
    else Dispatch(rules[1..], segs)
  }

  /** An entered rule: its whole pattern must come next, or the route fails. */
  function Enter(r: Rule, segs: seq<string>): Option<Name>
    requires WellFormed(r)
    decreases r, 1
  {
    if r.pattern <= segs then Finish(r, segs[|r.pattern|..]) else None
  }

  /**
   * After the pattern: the rule's `ty` if the path ends here (which is the
   * failure `None` for a rule without `ty`), else dispatch into the children.
   */
  function Finish(r: Rule, rest: seq<string>): Option<Name>
    requires WellFormed(r)
    decreases r, 0
  {
    if rest == [] then r.ty else Dispatch(r.children, rest)
  }

  // ---------------------------------------------------------------------
  // Properties of the walk
  // ---------------------------------------------------------------------

  /** The first rule whose first literal equals the current segment decides the result. */
  lemma {:induction false} DispatchFirst(rules: seq<Rule>, segs: seq<string>, i: nat)
    requires AllWellFormed(rules) && segs != []
    requires i < |rules| && rules[i].pattern[0] == segs[0]
    requires forall j :: 0 <= j < i ==> rules[j].pattern[0] != segs[0]
    ensures Dispatch(rules, segs) == Enter(rules[i], segs)
    decreases i
  {
    if i > 0 {
      DispatchFirst(rules[1..], segs, i - 1);
    }
  }

  /** With no segment left, or no rule whose first literal equals it, the route fails. */
  lemma {:induction false} DispatchMiss(rules: seq<Rule>, segs: seq<string>)
    requires AllWellFormed(rules)
    requires segs == [] || forall i :: 0 <= i < |rules| ==> rules[i].pattern[0] != segs[0]
    ensures Dispatch(rules, segs) == None
    decreases rules
  {
    if segs != [] && rules != [] {
      DispatchMiss(rules[1..], segs);
    }
  }

  /**
   * No backtracking: once some rule's first literal equals the current segment,
   * rules declared after the list are never consulted, even when the entered
   * rule fails further on.
   */
  lemma {:induction false} NoBacktrack(rules: seq<Rule>, later: seq<Rule>, segs: seq<string>)
    requires AllWellFormed(rules) && AllWellFormed(later) && segs != []
    requires exists i :: 0 <= i < |rules| && rules[i].pattern[0] == segs[0]
    ensures AllWellFormed(rules + later)
    ensures Dispatch(rules + later, segs) == Dispatch(rules, segs)
    decreases rules
  {
    assert AllWellFormed(rules + later);
    if rules[0].pattern[0] != segs[0] {
      var i :| 0 <= i < |rules| && rules[i].pattern[0] == segs[0];
      assert rules[1..][i - 1] == rules[i];
      assert (rules + later)[1..] == rules[1..] + later;
      NoBacktrack(rules[1..], later, segs);
    }
  }

  /**
   * An entered rule yields `v` exactly when its whole pattern comes next and
   * then either the path ends and `v` is its `ty`, or more segments follow and
   * its children yield `v` for them.
   */
  lemma EnterYields(r: Rule, segs: seq<string>, v: Name)
    requires WellFormed(r)
    ensures Enter(r, segs) == Some(v) <==>
      r.pattern <= segs &&
      ((|segs| == |r.pattern| && r.ty == Some(v)) ||
       (|segs| > |r.pattern| && Dispatch(r.children, segs[|r.pattern|..]) == Some(v)))
  {
  }

  /** A leaf rule matches exactly its own pattern: one more segment, even an empty one, fails. */
  lemma {:induction false} LeafExact(r: Rule, segs: seq<string>)
    requires WellFormed(r) && r.children == []
    ensures Enter(r, segs) == if segs == r.pattern then r.ty else None
  {
    if r.pattern <= segs && segs != r.pattern {
      assert |segs| > |r.pattern|;
      assert segs[|r.pattern|..] != [];
      assert Dispatch(r.children, segs[|r.pattern|..]) == None;
    }
  }

  /** A rule without `ty` never yields where the path ends right after its pattern. */
  lemma JunctionNeedsMore(r: Rule)
    requires WellFormed(r) && r.ty.None?
    ensures Enter(r, r.pattern) == None
  {
    assert r.pattern[|r.pattern|..] == [];
  }

  // ---------------------------------------------------------------------
  // The emitted code performs the walk
  // ---------------------------------------------------------------------

  /** The segment already read into `next`, if any, as a stream prefix. */
  function Pending(next: Option<string>): (s: seq<string>)
    ensures |s| <= 1
    ensures next.Some? ==> s == [next.value]
  {
    if next.Some? then [next.value] else []
  }

  /** A chain of arms checks the rest of its pattern against the following segments, in order. */
  lemma {:induction false} ChainExec(p: seq<string>, t: Body, parts: seq<string>, pos: nat)
    requires |p| >= 1 && pos <= |parts|
    ensures ExecBody(Chain(p, t).body, parts, pos) ==
      if p[1..] <= parts[pos..] then ExecBody(t, parts, pos + |p| - 1) else None
    decreases |p|
  {
    if |p| > 1 {
      assert Chain(p, t).body == Descend([Chain(p[1..], t)]);
      var c := Chain(p[1..], t);
      if pos < |parts| {
        assert ExecBody(Descend([c]), parts, pos) == ExecArms([c], parts, pos + 1, Some(parts[pos]));
        assert ExecArms([c], parts, pos + 1, Some(parts[pos])) ==
          if p[1] == parts[pos] then ExecBody(c.body, parts, pos + 1) else None;
        ChainExec(p[1..], t, parts, pos + 1);
        assert p[1..][1..] == p[2..];
        assert parts[pos..] == [parts[pos]] + parts[pos + 1..];
        assert p[1..] == [p[1]] + p[2..];
        assert p[1..] <= parts[pos..] <==> p[1] == parts[pos] && p[2..] <= parts[pos + 1..];
      }
    } else {
      assert p[1..] == [];
    }
  }

  /** The block after a rule's pattern performs `Finish`. */
  lemma {:induction false} TailExec(r: Rule, parts: seq<string>, q: nat)
    requires WellFormed(r) && q <= |parts|
    ensures ExecBody(Tail(r.ty, EmitAll(r.children)), parts, q) == Finish(r, parts[q..])
    decreases r, 1
  {
    if q < |parts| {
      EmitAllExec(r.children, parts, q + 1, Some(parts[q]));
      assert [parts[q]] + parts[q + 1..] == parts[q..];
    }
  }

  /**
   * The arms emitted for a sibling list, run with `next` read and the cursor at
   * `pos`, yield what `Dispatch` yields on the segments from `next` on. As with
   * `str::Split`, `next` is `None` only once the segments are used up.
   */
  lemma {:induction false} EmitAllExec(rules: seq<Rule>, parts: seq<string>, pos: nat, next: Option<string>)
    requires AllWellFormed(rules) && pos <= |parts|
    requires next.None? ==> pos == |parts|
    ensures ExecArms(EmitAll(rules), parts, pos, next) == Dispatch(rules, Pending(next) + parts[pos..])
    decreases rules, 2
  {
    var segs := Pending(next) + parts[pos..];
    if next.Some? && rules != [] {
      var r, p := rules[0], rules[0].pattern;
      assert EmitAll(rules)[0] == Emit(r);
      if p[0] == next.value {
        ChainExec(p, Tail(r.ty, EmitAll(r.children)), parts, pos);
        assert p == [p[0]] + p[1..];
        assert p <= segs <==> p[1..] <= parts[pos..];
        if p[1..] <= parts[pos..] {
          TailExec(r, parts, pos + |p| - 1);
          assert segs[|p|..] == parts[pos + |p| - 1..];
        }
      } else {
        assert EmitAll(rules)[1..] == EmitAll(rules[1..]);
        EmitAllExec(rules[1..], parts, pos, next);
      }
    }
  }
}
