/**
 * The rule tree of src/matcher/rule.rs: each rule holds a literal pattern,
 * an optional variant name and its child rules. This module also holds the
 * two imperative helpers of that file: `Rule::add_names` and the pattern
 * loop of `Rule::parse`.
 */
module RuleTree {
  import opened Wrappers

  /** The identifier of one variant of the generated route enum, kept opaque. */
  type Name = string

  /**
   * `pattern` is the sequence of string literals written `"a" / "b" / ...`,
   * `ty` the variant named after `=>` (absent for a pure junction), and
   * `children` the rules written inside the braces, in declaration order.
   */
  datatype Rule = Rule(pattern: seq<string>, ty: Option<Name>, children: seq<Rule>)

  /** Every rule of the tree has a non-empty pattern, as `Rule::parse` ensures. */
  predicate WellFormed(r: Rule)
    decreases r
  {
    |r.pattern| >= 1 && forall i :: 0 <= i < |r.children| ==> WellFormed(r.children[i])
  }

  predicate AllWellFormed(rules: seq<Rule>) {
    forall i :: 0 <= i < |rules| ==> WellFormed(rules[i])
  }

  // ---------------------------------------------------------------------
  // Rule::add_names
  // ---------------------------------------------------------------------

  /** The variant name a rule contributes by itself: its `ty`, if any. */
  function Own(r: Rule): (names: seq<Name>)
    ensures |names| <= 1
    ensures names == [] <==> r.ty.None?
    ensures r.ty.Some? ==> names == [r.ty.value]
  {
    if r.ty.Some? then [r.ty.value] else []
  }

  /** The names `add_names` appends for `r`: its own `ty`, then each child's names in order. */
  function Names(r: Rule): seq<Name>
    decreases r, 1
  {
    Own(r) + NamesAll(r.children)
  }

  function NamesAll(rules: seq<Rule>): seq<Name>
    decreases rules, 0
  {
    if rules == [] then [] else NamesAll(rules[..|rules| - 1]) + Names(rules[|rules| - 1])
  }

  /**
   * `Rule::add_names(&self, names: &mut Vec<Ident>)`: the vector is threaded
   * through. What was already in `names` is kept, and the subtree's names
   * follow it.
   */
  method AddNames(r: Rule, names: seq<Name>) returns (out: seq<Name>)
    ensures out == names + Names(r)
    decreases r
  {
    out := names;
    if r.ty.Some? {
      out := out + [r.ty.value];
    }
    assert out == names + Own(r) + NamesAll(r.children[..0]) by {
      assert r.children[..0] == [];
    }
    for i := 0 to |r.children|
      invariant out == names + Own(r) + NamesAll(r.children[..i])
    {
      ghost var before := out;
      out := AddNames(r.children[i], out);
      assert out == names + Own(r) + NamesAll(r.children[..i + 1]) by {
        NamesAllSnoc(r.children, i);
        assert out == before + Names(r.children[i]);
      }
    }
    assert r.children[..|r.children|] == r.children;
  }

  lemma NamesAllSnoc(rules: seq<Rule>, i: nat)
    requires i < |rules|
    ensures NamesAll(rules[..i + 1]) == NamesAll(rules[..i]) + Names(rules[i])
  {
    assert rules[..i + 1][..i] == rules[..i];
  }

  /** The nodes of the subtree rooted at `r`, in pre-order. */
  function Nodes(r: Rule): (ns: seq<Rule>)
    ensures |ns| >= 1 && ns[0] == r
    decreases r, 1
  {
    [r] + NodesAll(r.children)
  }

  function NodesAll(rules: seq<Rule>): seq<Rule>
    decreases rules, 0
  {
    if rules == [] then [] else NodesAll(rules[..|rules| - 1]) + Nodes(rules[|rules| - 1])
  }

  /** A tree is well formed exactly when every rule in it has at least one literal. */
  lemma {:induction false} WellFormedNodes(r: Rule)
    ensures WellFormed(r) <==> forall n :: n in Nodes(r) ==> |n.pattern| >= 1
    decreases r, 1
  {
    WellFormedNodesAll(r.children);
  }

  lemma {:induction false} WellFormedNodesAll(rules: seq<Rule>)
    ensures AllWellFormed(rules) <==> forall n :: n in NodesAll(rules) ==> |n.pattern| >= 1
    decreases rules, 0
  {
    if rules != [] {
      var k := |rules| - 1;
      WellFormedNodesAll(rules[..k]);
      WellFormedNodes(rules[k]);
      assert AllWellFormed(rules) <==> AllWellFormed(rules[..k]) && WellFormed(rules[k]) by {
        assert rules == rules[..k] + [rules[k]];
      }
    }
  }

  /** The `ty` of every node in `ns` that has one, in order. */
  function TysOf(ns: seq<Rule>): seq<Name> {
    if ns == [] then [] else TysOf(ns[..|ns| - 1]) + Own(ns[|ns| - 1])
  }

  lemma {:induction false} TysOfAppend(a: seq<Rule>, b: seq<Rule>)
    ensures TysOf(a + b) == TysOf(a) + TysOf(b)
    decreases |b|
  {
    if b == [] {
      assert a + b == a;
    } else {
      assert (a + b)[..|a + b| - 1] == a + b[..|b| - 1];
      TysOfAppend(a, b[..|b| - 1]);
    }
  }

  /** `add_names` lists the variant names of the subtree in pre-order of its nodes. */
  lemma {:induction false} NamesPreorder(r: Rule)
    ensures Names(r) == TysOf(Nodes(r))
    decreases r, 1
  {
    calc {
      TysOf(Nodes(r));
      TysOf([r] + NodesAll(r.children));
      { TysOfAppend([r], NodesAll(r.children)); }
      TysOf([r]) + TysOf(NodesAll(r.children));
      { assert [r][..0] == []; }
      Own(r) + TysOf(NodesAll(r.children));
      { NamesAllPreorder(r.children); }
      Own(r) + NamesAll(r.children);
    }
  }

  lemma {:induction false} NamesAllPreorder(rules: seq<Rule>)
    ensures NamesAll(rules) == TysOf(NodesAll(rules))
    decreases rules, 0
  {
    if rules != [] {
      var n := |rules| - 1;
      NamesAllPreorder(rules[..n]);
      NamesPreorder(rules[n]);
      TysOfAppend(NodesAll(rules[..n]), Nodes(rules[n]));
    }
  }

  lemma {:induction false} TysOfMember(ns: seq<Rule>, v: Name)
    ensures v in TysOf(ns) <==> exists i :: 0 <= i < |ns| && ns[i].ty == Some(v)
    decreases |ns|
  {
    if ns != [] {
      var n := |ns| - 1;
      TysOfMember(ns[..n], v);
      if v in TysOf(ns[..n]) {
        var i :| 0 <= i < n && ns[..n][i].ty == Some(v);
        assert ns[i].ty == Some(v);
      }
      if exists i :: 0 <= i < |ns| && ns[i].ty == Some(v) {
        var i :| 0 <= i < |ns| && ns[i].ty == Some(v);
        if i < n {
          assert ns[..n][i].ty == Some(v);
        }
      }
    }
  }

  /** A name is collected for `r` exactly when some node of its subtree declares it. */
  lemma NamesMember(r: Rule, v: Name)
    ensures v in Names(r) <==> exists i :: 0 <= i < |Nodes(r)| && Nodes(r)[i].ty == Some(v)
  {
    NamesPreorder(r);
    TysOfMember(Nodes(r), v);
  }

  /** The number of rules in the subtree that carry a `ty`. */
  function CountTyped(r: Rule): nat
    decreases r, 1
  {
    (if r.ty.Some? then 1 else 0) + CountTypedAll(r.children)
  }

  function CountTypedAll(rules: seq<Rule>): nat
    decreases rules, 0
  {
    if rules == [] then 0 else CountTypedAll(rules[1..]) + CountTyped(rules[0])
  }

  lemma {:induction false} NamesAllFront(rules: seq<Rule>)
    requires rules != []
    ensures NamesAll(rules) == Names(rules[0]) + NamesAll(rules[1..])
    decreases |rules|
  {
    var n := |rules| - 1;
    if n > 0 {
      NamesAllFront(rules[..n]);
      assert rules[..n][1..] == rules[1..][..n - 1];
    } else {
      assert rules[..n] == [] && rules[1..] == [];
    }
  }

  /** `add_names` grows the vector by exactly one entry per rule of the subtree that has a `ty`. */
  lemma {:induction false} NamesCount(r: Rule)
    ensures |Names(r)| == CountTyped(r)
    decreases r, 1
  {
    NamesAllCount(r.children);
  }

  lemma {:induction false} NamesAllCount(rules: seq<Rule>)
    ensures |NamesAll(rules)| == CountTypedAll(rules)
    decreases rules, 0
  {
    if rules != [] {
      NamesAllFront(rules);
      NamesCount(rules[0]);
      NamesAllCount(rules[1..]);
    }
  }

  // ---------------------------------------------------------------------
  // The pattern loop of Rule::parse
  // ---------------------------------------------------------------------

  /** The tokens the pattern loop looks at: a string literal, a `/`, or anything else. */
  datatype Token = Str(text: string) | Slash | Other

  /** A pattern as tokens: its literals with a `/` between neighbours. */
  function Render(p: seq<string>): (toks: seq<Token>)
    requires |p| >= 1
    ensures |toks| == 2 * |p| - 1
    ensures toks[0] == Str(p[0])
  {
    if |p| == 1 then [Str(p[0])] else Render(p[..|p| - 1]) + [Slash, Str(p[|p| - 1])]
  }

  /**
   * Reads one literal, then `/ literal` for as long as a `/` comes next.
   * On success it returns the pattern and how many tokens it took; the pattern
   * is never empty and is followed by something other than `/`. It fails at the
   * first token that is not the literal it needs: the first token, or the one
   * right after a `/`.
   */
  method ParsePattern(toks: seq<Token>) returns (res: Result<(seq<string>, nat)>)
    ensures res.Ok? ==> |res.value.0| >= 1 && res.value.1 <= |toks|
    ensures res.Ok? ==> toks[..res.value.1] == Render(res.value.0)
    ensures res.Ok? ==> res.value.1 == |toks| || toks[res.value.1] != Slash
    ensures res.Err? ==> res.at <= |toks| && (res.at == |toks| || !toks[res.at].Str?)
    ensures res.Err? ==>
      (res.at == 0 || exists p :: |p| >= 1 && toks[..res.at] == Render(p) + [Slash])
  {
    if |toks| == 0 || !toks[0].Str? {
      return Err(0);
    }
    var pattern := [toks[0].text];
    var k := 1;
    while k < |toks| && toks[k] == Slash
      invariant 1 <= k <= |toks| && |pattern| >= 1
      invariant toks[..k] == Render(pattern)
      decreases |toks| - k
    {
      if k + 1 == |toks| || !toks[k + 1].Str? {
        assert toks[..k + 1] == Render(pattern) + [Slash];
        return Err(k + 1);
      }
      var next := pattern + [toks[k + 1].text];
      assert next[..|next| - 1] == pattern;
      assert toks[..k + 2] == toks[..k] + [Slash, Str(toks[k + 1].text)];
      pattern := next;
      k := k + 2;
    }
    return Ok((pattern, k));
  }
}
