/** The interpreter of macro grammars reads what the grammar says, wherever its recursion limit does not stop it. */
module PegRefinement {
  import opened Basics
  import opened Grammar
  import opened Parsing
  import opened Peg

  /** Nesting as deep as `nest` on top of `d` stays within the limit. */
  ghost predicate Fits(d: Depth, nest: multiset<nat>) {
    forall id: nat :: id in nest ==> d[id] + nest[id] <= LIMIT
  }

  lemma FitsMax(d: Depth, a: multiset<nat>, b: multiset<nat>)
    ensures Fits(d, Max(a, b)) <==> Fits(d, a) && Fits(d, b)
  {
    var m := Max(a, b);
    assert forall id: nat :: m[id] == if a[id] < b[id] then b[id] else a[id];
    if Fits(d, m) {
      assert forall id: nat :: id in a || id in b ==> id in m;
    }
  }

  lemma FitsEnter(d: Depth, id: nat, nest: multiset<nat>)
    ensures Fits(d, nest + multiset{id}) <==> d[id] < LIMIT && Fits(d + multiset{id}, nest)
  {
    if Fits(d, nest + multiset{id}) {
      assert id in nest + multiset{id};
      forall x: nat | x in nest
        ensures (d + multiset{id})[x] + nest[x] <= LIMIT
      {
        assert x in nest + multiset{id};
      }
    }
  }

  ghost predicate Agree(r: Parsed, peg: Option<Reading>) {
    peg.Some? && peg.value.outcome == r.outcome && peg.value.rest == r.rest
  }

  /**
   * Where the limit stops nothing, the grammar reads the same with as much fuel as there is budget,
   * and its nesting fits; where the nesting of the grammar fits, the limit stops nothing.
   */
  ghost predicate Same(g: Grammar, d: Depth, fuel: nat, r: Parsed, peg: Option<Reading>) {
    && (fuel >= Budget(g.ids, d) && r.hits == multiset{} ==> Agree(r, peg) && Fits(d, peg.value.nest))
    && (peg.Some? && Fits(d, peg.value.nest) ==> r.hits == multiset{} && Agree(r, peg))
  }

  /** `whole` nests at least as deep as its first part. */
  ghost predicate Contains(whole: Option<Reading>, first: Option<Reading>) {
    whole.Some? ==> first.Some? && Max(first.value.nest, whole.value.nest) == whole.value.nest
  }

  /** One reading after another: `whole` goes on with `second` when the first reading is as expected. */
  lemma SameThen(g: Grammar, d: Depth, fuel: nat, r: Parsed, first: Option<Reading>, s: Parsed, second: Option<Reading>, whole: Option<Reading>)
    requires Accounted(d, r) && Same(g, d, fuel, r, first) && Same(g, r.depth, fuel, s, second)
    requires Contains(whole, first) && (Agree(r, first) ==> whole == After(first.value.nest, second))
    ensures Same(g, d, fuel, s.(hits := r.hits + s.hits), whole)
  {
    assert r.hits == multiset{} ==> r.depth == d && r.hits + s.hits == s.hits;
    if r.hits + s.hits == multiset{} {
      NoHits(r.hits, s.hits);
    }
    if first.Some? && second.Some? {
      FitsMax(d, first.value.nest, second.value.nest);
    }
    if first.Some? && whole.Some? {
      FitsMax(d, first.value.nest, whole.value.nest);
    }
  }

  lemma NoHits(a: multiset<nat>, b: multiset<nat>)
    requires a + b == multiset{}
    ensures a == multiset{} == b
  {
    assert |a + b| == |a| + |b|;
  }

  /** A reading that ends with its first part, whatever is made of the outcome. */
  lemma SameLast(g: Grammar, d: Depth, fuel: nat, r: Parsed, first: Option<Reading>, s: Parsed, whole: Option<Reading>)
    requires Same(g, d, fuel, r, first) && s.hits == r.hits
    requires Contains(whole, first) && (Agree(r, first) ==> Agree(s, whole) && whole.value.nest == first.value.nest)
    ensures Same(g, d, fuel, s, whole)
  {
    if first.Some? && whole.Some? {
      FitsMax(d, first.value.nest, whole.value.nest);
    }
  }

  lemma WholeContains(first: Option<Reading>, whole: Option<Reading>)
    requires whole == first || (first.Some? && (whole.None? || first.value.nest <= whole.value.nest))
    ensures Contains(whole, first)
  {
    if first.Some? && whole.Some? {
      assert Max(first.value.nest, whole.value.nest) == whole.value.nest;
    }
  }

  lemma {:induction false} ParseIsPeg(g: Grammar, ctx: Context, d: Depth, fuel: nat, node: Node, toks: seq<string>)
    requires NodeOk(g.ids, node)
    ensures Same(g, d, fuel, Parse(g, ctx, d, node, toks), Read(g, ctx, fuel, node, toks))
    ensures Leaves(toks, Parse(g, ctx, d, node, toks).rest)
    decreases 2 * Budget(g.ids, d), node, 1, 0
  {
    if node.Macro? && node.notation.Some? {
      ParseIsPeg(g, [node.fields] + ctx, d, fuel, node.notation.value, toks);
    } else if node.Choice? {
      ChoiceIsPeg(g, ctx, d, fuel, node, 0, toks);
    } else if node.Sequence? || node.Reference? {
      CountedIsPeg(g, ctx, d, fuel, node, toks);
    }
  }

  lemma {:induction false} CountedIsPeg(g: Grammar, ctx: Context, d: Depth, fuel: nat, node: Node, toks: seq<string>)
    requires NodeOk(g.ids, node) && (node.Sequence? || node.Reference?)
    ensures Same(g, d, fuel, Parse(g, ctx, d, node, toks), Read(g, ctx, fuel, node, toks))
    ensures Leaves(toks, Parse(g, ctx, d, node, toks).rest)
    decreases 2 * Budget(g.ids, d), node, 0, 0
  {
    var entered := d + multiset{node.id};
    if d[node.id] >= LIMIT {
      assert Parse(g, ctx, d, node, toks).hits == multiset{node.id} && node.id in multiset{node.id};
      if fuel > 0 && Inner(g, ctx, fuel - 1, node, toks).Some? {
        FitsEnter(d, node.id, Inner(g, ctx, fuel - 1, node, toks).value.nest);
      }
      return;
    }
    BudgetEnter(g.ids, d, node.id);
    var r := ParseEntered(g, ctx, entered, node, toks);
    var whole := Parse(g, ctx, d, node, toks);
    assert whole == r.(depth := r.depth - multiset{node.id});
    EnteredIsPeg(g, ctx, entered, if fuel == 0 then 0 else fuel - 1, node, toks);
    if fuel > 0 {
      EnterIsPeg(g, d, node.id, fuel, r, Inner(g, ctx, fuel - 1, node, toks), whole, Read(g, ctx, fuel, node, toks));
    }
  }

  /** Entering a definition below its limit. */
  lemma EnterIsPeg(g: Grammar, d: Depth, id: nat, fuel: nat, r: Parsed, inner: Option<Reading>, s: Parsed, whole: Option<Reading>)
    requires d[id] < LIMIT && id < g.ids && fuel > 0 && Same(g, d + multiset{id}, fuel - 1, r, inner)
    requires s == r.(depth := s.depth)
    requires whole == if inner.None? then None else Some(inner.value.(nest := inner.value.nest + multiset{id}))
    ensures Same(g, d, fuel, s, whole)
  {
    BudgetEnter(g.ids, d, id);
    if inner.Some? {
      FitsEnter(d, id, inner.value.nest);
    }
  }

  lemma {:induction false} EnteredIsPeg(g: Grammar, ctx: Context, d: Depth, fuel: nat, node: Node, toks: seq<string>)
    requires NodeOk(g.ids, node) && (node.Sequence? || node.Reference?)
    ensures Same(g, d, fuel, ParseEntered(g, ctx, d, node, toks), Inner(g, ctx, fuel, node, toks))
    ensures Leaves(toks, ParseEntered(g, ctx, d, node, toks).rest)
    decreases 2 * Budget(g.ids, d) + 1, node, 3, 0
  {
    if node.Sequence? {
      var inner := if node.scope.Some? then [node.scope.value] + ctx else ctx;
      SequenceIsPeg(g, inner, d, fuel, node, 0, Building(map[], ""), toks);
    } else if !node.sequenceOf {
      OneIsPeg(g, ctx, d, fuel, node, toks);
    } else if toks == [] || toks[0] == "}" {
      assert Inner(g, ctx, fuel, node, toks).value.nest == multiset{};
    } else {
      ItemsArePeg(g, ctx, d, fuel, node, [], toks);
      assert ParseEntered(g, ctx, d, node, toks) == ParseItems(g, ctx, d, node, [], toks);
      assert Inner(g, ctx, fuel, node, toks) == Items(g, ctx, fuel, node, [], toks);
    }
  }

  lemma {:induction false} SequenceIsPeg(g: Grammar, ctx: Context, d: Depth, fuel: nat, node: Node, i: nat, b: Building, toks: seq<string>)
    requires NodeOk(g.ids, node) && node.Sequence? && i <= |node.pattern|
    ensures Same(g, d, fuel, ParseSequence(g, ctx, d, node, i, b, toks), Parts(g, ctx, fuel, node, i, b, toks))
    ensures Leaves(toks, ParseSequence(g, ctx, d, node, i, b, toks).rest)
    decreases 2 * Budget(g.ids, d), node, 0, |node.pattern| - i
  {
    if i == |node.pattern| {
      return;
    }
    ParseIsPeg(g, ctx, d, fuel, node.pattern[i], toks);
    var r, first := Parse(g, ctx, d, node.pattern[i], toks), Read(g, ctx, fuel, node.pattern[i], toks);
    var whole := Parts(g, ctx, fuel, node, i, b, toks);
    WholeContains(first, whole);
    if r.outcome.Fail? {
      SameLast(g, d, fuel, r, first, r, whole);
      return;
    }
    BudgetMonotone(g.ids, d, r.depth);
    var more := AddPart(b, i, node.pattern[i], r.outcome.value);
    SequenceIsPeg(g, ctx, r.depth, fuel, node, i + 1, more, r.rest);
    var s := ParseSequence(g, ctx, r.depth, node, i + 1, more, r.rest);
    LeavesTransitive(toks, r.rest, s.rest);
    SameThen(g, d, fuel, r, first, s, Parts(g, ctx, fuel, node, i + 1, more, r.rest), whole);
  }

  lemma {:induction false} ChoiceIsPeg(g: Grammar, ctx: Context, d: Depth, fuel: nat, node: Node, i: nat, toks: seq<string>)
    requires NodeOk(g.ids, node) && node.Choice? && i <= |node.alternatives|
    ensures Same(g, d, fuel, ParseChoice(g, ctx, d, node, i, toks), FirstOf(g, ctx, fuel, node, i, toks))
    ensures Leaves(toks, ParseChoice(g, ctx, d, node, i, toks).rest)
    decreases 2 * Budget(g.ids, d), node, 0, |node.alternatives| - i
  {
    if i == |node.alternatives| {
      return;
    }
    ParseIsPeg(g, ctx, d, fuel, node.alternatives[i], toks);
    var r, first := Parse(g, ctx, d, node.alternatives[i], toks), Read(g, ctx, fuel, node.alternatives[i], toks);
    var whole := FirstOf(g, ctx, fuel, node, i, toks);
    WholeContains(first, whole);
    if r.outcome.Ok? {
      SameLast(g, d, fuel, r, first, r, whole);
      return;
    }
    BudgetMonotone(g.ids, d, r.depth);
    ChoiceIsPeg(g, ctx, r.depth, fuel, node, i + 1, toks);
    SameThen(g, d, fuel, r, first, ParseChoice(g, ctx, r.depth, node, i + 1, toks), FirstOf(g, ctx, fuel, node, i + 1, toks), whole);
  }

  lemma {:induction false} OneIsPeg(g: Grammar, ctx: Context, d: Depth, fuel: nat, node: Node, toks: seq<string>)
    requires NodeOk(g.ids, node) && node.Reference?
    ensures Same(g, d, fuel, ParseOne(g, ctx, d, node, toks), One(g, ctx, fuel, node, toks))
    ensures Leaves(toks, ParseOne(g, ctx, d, node, toks).rest)
    decreases 2 * Budget(g.ids, d) + 1, node, 0, 0
  {
    if IsBuiltIn(node.ident) {
      BuiltInLeaves(node.ident, toks);
    } else if Find(g, ctx, node.ident).Some? {
      ParseIsPeg(g, ctx, d, fuel, Find(g, ctx, node.ident).value, toks);
    }
  }

  lemma {:induction false} ItemsArePeg(g: Grammar, ctx: Context, d: Depth, fuel: nat, node: Node, values: seq<Value>, toks: seq<string>)
    requires NodeOk(g.ids, node) && node.Reference?
    ensures Same(g, d, fuel, ParseItems(g, ctx, d, node, values, toks), Items(g, ctx, fuel, node, values, toks))
    ensures Leaves(toks, ParseItems(g, ctx, d, node, values, toks).rest)
    decreases 2 * Budget(g.ids, d) + 1, node, 1, |toks|
  {
    if toks == [] {
      return;
    }
    OneIsPeg(g, ctx, d, fuel, node, toks);
    var r, first := ParseOne(g, ctx, d, node, toks), One(g, ctx, fuel, node, toks);
    var s, whole := ParseItems(g, ctx, d, node, values, toks), Items(g, ctx, fuel, node, values, toks);
    WholeContains(first, whole);
    if r.outcome.Fail? || r.rest == [] || r.rest[0] != "," {
      SameLast(g, d, fuel, r, first, s, whole);
      return;
    }
    BudgetMonotone(g.ids, d, r.depth);
    var more := Listed(values, r.outcome.value);
    ItemsArePeg(g, ctx, r.depth, fuel, node, more, r.rest[1..]);
    var later := ParseItems(g, ctx, r.depth, node, more, r.rest[1..]);
    assert s == later.(hits := r.hits + later.hits);
    SameThen(g, d, fuel, r, first, later, Items(g, ctx, fuel, node, more, r.rest[1..]), whole);
    LeavesBehindComma(toks, r.rest, later.rest);
  }

  lemma LeavesBehindComma(toks: seq<string>, rest: seq<string>, later: seq<string>)
    requires Leaves(toks, rest) && rest != [] && Leaves(rest[1..], later)
    ensures Leaves(toks, later)
  {
    LeavesTransitive(rest, rest[1..], later);
  }

  /**
   * The limit stops nothing exactly when the grammar can be read and, for every definition, its count
   * and the depth to which the grammar nests it stay within the limit together.
   */
  lemma NeverStoppedIff(g: Grammar, ctx: Context, d: Depth, node: Node, toks: seq<string>)
    requires NodeOk(g.ids, node)
    ensures var peg := Read(g, ctx, Budget(g.ids, d), node, toks);
            Parse(g, ctx, d, node, toks).hits == multiset{} <==> peg.Some? && Fits(d, peg.value.nest)
  {
    ParseIsPeg(g, ctx, d, Budget(g.ids, d), node, toks);
  }

  /** Any amount of fuel will do: what ends, and nests no deeper than there is room, is read as the grammar says. */
  lemma FittingIsNeverStopped(g: Grammar, ctx: Context, d: Depth, fuel: nat, node: Node, toks: seq<string>)
    requires NodeOk(g.ids, node)
    requires var peg := Read(g, ctx, fuel, node, toks); peg.Some? && Fits(d, peg.value.nest)
    ensures var peg := Read(g, ctx, fuel, node, toks).value;
            Parse(g, ctx, d, node, toks) == Parsed(peg.outcome, peg.rest, d, multiset{})
  {
    ParseIsPeg(g, ctx, d, fuel, node, toks);
  }

  /** Where the limit stops nothing, the interpreter reads exactly what the grammar says, and all counts are restored. */
  lemma UnstoppedReadsTheGrammar(g: Grammar, ctx: Context, d: Depth, node: Node, toks: seq<string>)
    requires NodeOk(g.ids, node) && Parse(g, ctx, d, node, toks).hits == multiset{}
    ensures var r := Parse(g, ctx, d, node, toks);
            Agree(r, Read(g, ctx, Budget(g.ids, d), node, toks)) && r.depth == d
  {
    ParseIsPeg(g, ctx, d, Budget(g.ids, d), node, toks);
  }

  /** Two readings that the limit does not stop agree, whatever the counts were. */
  lemma CountsDoNotMatter(g: Grammar, ctx: Context, d: Depth, e: Depth, node: Node, toks: seq<string>)
    requires NodeOk(g.ids, node)
    requires Parse(g, ctx, d, node, toks).hits == multiset{} == Parse(g, ctx, e, node, toks).hits
    ensures Parse(g, ctx, d, node, toks).outcome == Parse(g, ctx, e, node, toks).outcome
    ensures Parse(g, ctx, d, node, toks).rest == Parse(g, ctx, e, node, toks).rest
  {
    var fuel := Budget(g.ids, d) + Budget(g.ids, e);
    ParseIsPeg(g, ctx, d, fuel, node, toks);
    ParseIsPeg(g, ctx, e, fuel, node, toks);
  }

  // ---------------------------------------------------------------- what a reading takes

  /** What is read is read off the front. */
  lemma ReadsAPrefix(g: Grammar, ctx: Context, d: Depth, node: Node, toks: seq<string>)
    requires NodeOk(g.ids, node)
    ensures exists n :: 0 <= n <= |toks| && Parse(g, ctx, d, node, toks).rest == toks[n..]
  {
    ParseIsPeg(g, ctx, d, 0, node, toks);
    var n := |toks| - |Parse(g, ctx, d, node, toks).rest|;
    assert 0 <= n <= |toks|;
  }

  /** What gives back everything when it fails: all but references, which may have read a part. */
  predicate GivesBack(node: Node) {
    match node
    case Reference(_, _, _) => false
    case Macro(_, notation) => notation.Some? ==> GivesBack(notation.value)
    case _ => true
  }

  lemma {:induction false} FailureTakesNothing(g: Grammar, ctx: Context, d: Depth, node: Node, toks: seq<string>)
    requires NodeOk(g.ids, node) && GivesBack(node) && Parse(g, ctx, d, node, toks).outcome.Fail?
    ensures Parse(g, ctx, d, node, toks).rest == toks
    decreases node
  {
    if node.Macro? && node.notation.Some? {
      FailureTakesNothing(g, [node.fields] + ctx, d, node.notation.value, toks);
    } else if node.Choice? {
      FailedChoiceTakesNothing(g, ctx, d, node, 0, toks);
    }
  }

  lemma {:induction false} FailedChoiceTakesNothing(g: Grammar, ctx: Context, d: Depth, node: Node, i: nat, toks: seq<string>)
    requires NodeOk(g.ids, node) && node.Choice? && i <= |node.alternatives|
    ensures var r := ParseChoice(g, ctx, d, node, i, toks); r.outcome.Fail? ==> r.rest == toks
    decreases |node.alternatives| - i
  {
    if i < |node.alternatives| {
      FailedChoiceTakesNothing(g, ctx, Parse(g, ctx, d, node.alternatives[i], toks).depth, node, i + 1, toks);
    }
  }

  // ---------------------------------------------------------------- left recursion

  /** The limit ends the recursion, and the count stays one too high: stopping is not undone. */
  lemma {:induction false} LeftRecursionLeaks(d: Depth, toks: seq<string>)
    requires d[0] <= LIMIT
    ensures Parse(Endless(), [0], d, Reference(0, "x", false), toks) == Parsed(Fail, toks, d + multiset{0}, multiset{0})
    decreases LIMIT - d[0]
  {
    if d[0] < LIMIT {
      var entered := d + multiset{0};
      LeftRecursionLeaks(entered, toks);
      var node := Reference(0, "x", false);
      assert Find(Endless(), [0], "x") == Some(node);
      assert ParseOne(Endless(), [0], entered, node, toks) == Parsed(Fail, toks, entered + multiset{0}, multiset{0});
      assert entered + multiset{0} - multiset{0} == entered;
    }
  }
}
