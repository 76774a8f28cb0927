/**
 * Macro grammars as parsing expression grammars: what is read depends on the tokens only, with no
 * recursion counts.
 */
module Peg {
  import opened Basics
  import opened Grammar
  import opened Parsing
  import opened Collecting

  /** What is read and left, and how often each definition is being read at once where it nests deepest. */
  datatype Reading = Reading(outcome: Outcome, rest: seq<string>, nest: multiset<nat>)

  function Flat(s: Simple): Option<Reading> {
    Some(Reading(s.outcome, s.rest, multiset{}))
  }

  /** For every definition the greater of two depths. */
  function Max(a: multiset<nat>, b: multiset<nat>): multiset<nat> {
    a + (b - a)
  }

  /** A reading after something that nested as deep as `before`. */
  function After(before: multiset<nat>, r: Option<Reading>): Option<Reading> {
    if r.None? then None else Some(r.value.(nest := Max(before, r.value.nest)))
  }

  /** What `node` reads from `toks`, unless definitions nest more than `fuel` deep in all. */
  function Read(g: Grammar, ctx: Context, fuel: nat, node: Node, toks: seq<string>): (r: Option<Reading>)
    ensures r.Some? ==> |r.value.rest| <= |toks|
    decreases 2 * fuel, node, 1, 0
  {
    match node
    case Expected(text) =>
      Flat(if toks != [] && Matches(toks[0], text) then Simple(Ok(Nothing), toks[1..]) else Simple(Fail, toks))
    case NotType => Flat(Simple(Fail, toks))
    case Macro(fields, notation) =>
      if notation.None? then Flat(Simple(Fail, toks)) else Read(g, [fields] + ctx, fuel, notation.value, toks)
    case Choice(_) => FirstOf(g, ctx, fuel, node, 0, toks)
    case _ =>
      if fuel == 0 then None
      else
        var r := Inner(g, ctx, fuel - 1, node, toks);
        if r.None? then None else Some(r.value.(nest := r.value.nest + multiset{node.id}))
  }

  function Inner(g: Grammar, ctx: Context, fuel: nat, node: Node, toks: seq<string>): (r: Option<Reading>)
    requires node.Sequence? || node.Reference?
    ensures r.Some? ==> |r.value.rest| <= |toks|
    decreases 2 * fuel + 1, node, 3, 0
  {
    if node.Sequence? then
      var r := Parts(g, if node.scope.Some? then [node.scope.value] + ctx else ctx, fuel, node, 0, Building(map[], ""), toks);
      if r.Some? && r.value.outcome.Fail? then Some(r.value.(rest := toks)) else r
    else if !node.sequenceOf then One(g, ctx, fuel, node, toks)
    else if toks == [] then Flat(Simple(Fail, toks))
    else if toks[0] == "}" then Flat(Simple(Ok(Values([])), toks))
    else Items(g, ctx, fuel, node, [], toks)
  }

  function Parts(g: Grammar, ctx: Context, fuel: nat, node: Node, i: nat, b: Building, toks: seq<string>): (r: Option<Reading>)
    requires node.Sequence? && i <= |node.pattern|
    ensures r.Some? ==> |r.value.rest| <= |toks|
    decreases 2 * fuel, node, 0, |node.pattern| - i
  {
    if i == |node.pattern| then Flat(Simple(Ok(Finish(b)), toks))
    else
      var r := Read(g, ctx, fuel, node.pattern[i], toks);
      if r.None? || r.value.outcome.Fail? then r
      else
        var more := AddPart(b, i, node.pattern[i], r.value.outcome.value);
        After(r.value.nest, Parts(g, ctx, fuel, node, i + 1, more, r.value.rest))
  }

  function FirstOf(g: Grammar, ctx: Context, fuel: nat, node: Node, i: nat, toks: seq<string>): (r: Option<Reading>)
    requires node.Choice? && i <= |node.alternatives|
    ensures r.Some? ==> |r.value.rest| <= |toks|
    decreases 2 * fuel, node, 0, |node.alternatives| - i
  {
    if i == |node.alternatives| then Flat(Simple(Fail, toks))
    else
      var r := Read(g, ctx, fuel, node.alternatives[i], toks);
      if r.None? || r.value.outcome.Ok? then r
      else After(r.value.nest, FirstOf(g, ctx, fuel, node, i + 1, toks))
  }

  function One(g: Grammar, ctx: Context, fuel: nat, node: Node, toks: seq<string>): (r: Option<Reading>)
    requires node.Reference?
    ensures r.Some? ==> |r.value.rest| <= |toks|
    decreases 2 * fuel + 1, node, 0, 0
  {
    if IsBuiltIn(node.ident) then
      BuiltInLeaves(node.ident, toks);
      Flat(ReadBuiltIn(node.ident, toks))
    else
      match Find(g, ctx, node.ident)
      case None => Flat(Simple(Fail, toks))
      case Some(def) => Read(g, ctx, fuel, def, toks)
  }

  function Items(g: Grammar, ctx: Context, fuel: nat, node: Node, values: seq<Value>, toks: seq<string>): (r: Option<Reading>)
    requires node.Reference?
    ensures r.Some? ==> |r.value.rest| <= |toks|
    decreases 2 * fuel + 1, node, 1, |toks|
  {
    if toks == [] then Flat(Simple(Ok(Values(values)), toks))
    else
      var r := One(g, ctx, fuel, node, toks);
      if r.None? || r.value.outcome.Fail? then r
      else
        var Reading(outcome, rest, nest) := r.value;
        var more := Listed(values, outcome.value);
        if rest != [] && rest[0] == "}" then Some(Reading(Ok(Values(more)), rest, nest))
        else if rest == [] || rest[0] != "," then Some(Reading(Fail, rest, nest))
        else After(nest, Items(g, ctx, fuel, node, more, rest[1..]))
  }

  /** What reads nothing adds no value to a list. */
  function Listed(values: seq<Value>, v: Value): seq<Value> {
    if v.Nothing? then values else values + [v]
  }

  // ---------------------------------------------------------------- choices and sequences

  /** `node` is read from `toks` like this. */
  ghost predicate CanRead(g: Grammar, ctx: Context, fuel: nat, node: Node, toks: seq<string>, outcome: Outcome, rest: seq<string>) {
    var r := Read(g, ctx, fuel, node, toks);
    r.Some? && r.value.outcome == outcome && r.value.rest == rest
  }

  /** `node` cannot be read from `toks`. */
  ghost predicate CannotRead(g: Grammar, ctx: Context, fuel: nat, node: Node, toks: seq<string>) {
    var r := Read(g, ctx, fuel, node, toks);
    r.Some? && r.value.outcome.Fail?
  }

  /** Of the alternatives from the `i`th on, the `k`th is the first one that can be read, and what is read. */
  lemma {:induction false} FirstReadable(g: Grammar, ctx: Context, fuel: nat, node: Node, i: nat, toks: seq<string>) returns (k: nat)
    requires node.Choice? && i <= |node.alternatives| && FirstOf(g, ctx, fuel, node, i, toks).Some?
    ensures i <= k <= |node.alternatives|
    ensures forall j :: i <= j < k ==> CannotRead(g, ctx, fuel, node.alternatives[j], toks)
    ensures var r := FirstOf(g, ctx, fuel, node, i, toks).value;
            if k == |node.alternatives| then r.outcome.Fail? && r.rest == toks
            else r.outcome.Ok? && CanRead(g, ctx, fuel, node.alternatives[k], toks, r.outcome, r.rest)
    decreases |node.alternatives| - i
  {
    if i == |node.alternatives| {
      return i;
    }
    var r := Read(g, ctx, fuel, node.alternatives[i], toks);
    if r.value.outcome.Ok? {
      return i;
    }
    assert FirstOf(g, ctx, fuel, node, i, toks) == After(r.value.nest, FirstOf(g, ctx, fuel, node, i + 1, toks));
    k := FirstReadable(g, ctx, fuel, node, i + 1, toks);
    assert CannotRead(g, ctx, fuel, node.alternatives[i], toks);
  }

  /** A choice reads what its `k`th alternative reads, the first one that can be read. */
  lemma ChoiceTakesFirst(g: Grammar, ctx: Context, fuel: nat, node: Node, toks: seq<string>) returns (k: nat)
    requires node.Choice? && Read(g, ctx, fuel, node, toks).Some?
    ensures k <= |node.alternatives|
    ensures forall j :: 0 <= j < k ==> CannotRead(g, ctx, fuel, node.alternatives[j], toks)
    ensures var r := Read(g, ctx, fuel, node, toks).value;
            if k == |node.alternatives| then r.outcome.Fail? && r.rest == toks
            else r.outcome.Ok? && CanRead(g, ctx, fuel, node.alternatives[k], toks, r.outcome, r.rest)
  {
    k := FirstReadable(g, ctx, fuel, node, 0, toks);
  }

  /** A value that has been read, and where reading it has stopped. */
  datatype Step = Step(value: Value, stop: seq<string>)

  /** The parts of a sequence from the `i`th on, each read from where the one before has stopped. */
  ghost predicate Threads(g: Grammar, ctx: Context, fuel: nat, node: Node, i: nat, toks: seq<string>, steps: seq<Step>, rest: seq<string>)
    requires node.Sequence? && i <= |node.pattern|
    decreases |steps|
  {
    if steps == [] || i == |node.pattern| then steps == [] && i == |node.pattern| && rest == toks
    else
      && CanRead(g, ctx, fuel, node.pattern[i], toks, Ok(steps[0].value), steps[0].stop)
      && Threads(g, ctx, fuel, node, i + 1, steps[0].stop, steps[1..], rest)
  }

  /** What the parts add up to. */
  function Build(node: Node, i: nat, b: Building, steps: seq<Step>): Building
    requires node.Sequence? && i + |steps| <= |node.pattern|
    decreases |steps|
  {
    if steps == [] then b else Build(node, i + 1, AddPart(b, i, node.pattern[i], steps[0].value), steps[1..])
  }

  lemma {:induction false} ThreadsLength(g: Grammar, ctx: Context, fuel: nat, node: Node, i: nat, toks: seq<string>, steps: seq<Step>,
                                         rest: seq<string>)
    requires node.Sequence? && i <= |node.pattern| && Threads(g, ctx, fuel, node, i, toks, steps, rest)
    ensures i + |steps| == |node.pattern|
    decreases |steps|
  {
    if steps != [] {
      ThreadsLength(g, ctx, fuel, node, i + 1, steps[0].stop, steps[1..], rest);
    }
  }

  /** A sequence is read only when its parts are, one after the other. */
  lemma {:induction false} SequenceThreads(g: Grammar, ctx: Context, fuel: nat, node: Node, i: nat, b: Building, toks: seq<string>)
    returns (steps: seq<Step>)
    requires node.Sequence? && i <= |node.pattern|
    requires var r := Parts(g, ctx, fuel, node, i, b, toks); r.Some? && r.value.outcome.Ok?
    ensures var r := Parts(g, ctx, fuel, node, i, b, toks).value;
            && Threads(g, ctx, fuel, node, i, toks, steps, r.rest) && i + |steps| == |node.pattern|
            && r.outcome == Ok(Finish(Build(node, i, b, steps)))
    decreases |node.pattern| - i
  {
    if i == |node.pattern| {
      return [];
    }
    var r := Read(g, ctx, fuel, node.pattern[i], toks);
    var step := Step(r.value.outcome.value, r.value.rest);
    var later := SequenceThreads(g, ctx, fuel, node, i + 1, AddPart(b, i, node.pattern[i], step.value), step.stop);
    steps := [step] + later;
    assert steps[1..] == later;
  }

  /** Conversely, parts that can be read one after the other make a sequence that can be read. */
  lemma {:induction false} ThreadsAreRead(g: Grammar, ctx: Context, fuel: nat, node: Node, i: nat, b: Building, toks: seq<string>,
                                          steps: seq<Step>, rest: seq<string>)
    requires node.Sequence? && i <= |node.pattern| && Threads(g, ctx, fuel, node, i, toks, steps, rest)
    ensures i + |steps| == |node.pattern|
    ensures var r := Parts(g, ctx, fuel, node, i, b, toks);
            r.Some? && r.value.outcome == Ok(Finish(Build(node, i, b, steps))) && r.value.rest == rest
    decreases |steps|
  {
    ThreadsLength(g, ctx, fuel, node, i, toks, steps, rest);
    if steps != [] {
      ThreadsAreRead(g, ctx, fuel, node, i + 1, AddPart(b, i, node.pattern[i], steps[0].value), steps[0].stop, steps[1..], rest);
    }
  }

  function ValuesOf(steps: seq<Step>): seq<Value> {
    seq(|steps|, i requires 0 <= i < |steps| => steps[i].value)
  }

  lemma ValuesBehind(done: seq<Value>, steps: seq<Step>)
    requires steps != []
    ensures done + [steps[0].value] + ValuesOf(steps[1..]) == done + ValuesOf(steps)
  {
  }

  lemma {:induction false} BuildIsAdded(node: Node, done: seq<Value>, steps: seq<Step>)
    requires node.Sequence? && |done| + |steps| <= |node.pattern|
    ensures Build(node, |done|, Added(node.pattern, done), steps) == Added(node.pattern, done + ValuesOf(steps))
    decreases |steps|
  {
    if steps == [] {
      assert done + ValuesOf(steps) == done;
    } else {
      AddedMore(node.pattern, done, steps[0].value);
      BuildIsAdded(node, done + [steps[0].value], steps[1..]);
      ValuesBehind(done, steps);
    }
  }

  /** In the grammar, too, a sequence gives just what the values of its parts are to be collected to. */
  lemma SequenceIsCollected(g: Grammar, ctx: Context, fuel: nat, node: Node, toks: seq<string>) returns (steps: seq<Step>)
    requires node.Sequence? && fuel > 0
    requires var r := Read(g, ctx, fuel, node, toks); r.Some? && r.value.outcome.Ok?
    ensures var r := Read(g, ctx, fuel, node, toks).value;
            && Threads(g, if node.scope.Some? then [node.scope.value] + ctx else ctx, fuel - 1, node, 0, toks, steps, r.rest)
            && |steps| == |node.pattern| && Collects(node.pattern, ValuesOf(steps), r.outcome.value)
  {
    var inner := if node.scope.Some? then [node.scope.value] + ctx else ctx;
    steps := SequenceThreads(g, inner, fuel - 1, node, 0, Building(map[], ""), toks);
    BuildIsAdded(node, [], steps);
    assert [] + ValuesOf(steps) == ValuesOf(steps);
    FinishCollects(node.pattern, ValuesOf(steps));
  }

  // ---------------------------------------------------------------- lists of values

  ghost predicate CanReadOne(g: Grammar, ctx: Context, fuel: nat, node: Node, toks: seq<string>, step: Step)
    requires node.Reference?
  {
    var r := One(g, ctx, fuel, node, toks);
    r.Some? && r.value.outcome == Ok(step.value) && r.value.rest == step.stop
  }

  /**
   * Values with commas between them, up to a closing brace, which is left; or up to the end of the
   * input, where there is a comma behind every value.
   */
  ghost predicate Separated(g: Grammar, ctx: Context, fuel: nat, node: Node, toks: seq<string>, steps: seq<Step>, rest: seq<string>)
    requires node.Reference?
    decreases |steps|
  {
    if steps == [] then toks == [] && rest == []
    else
      var stop := steps[0].stop;
      && toks != [] && stop != [] && CanReadOne(g, ctx, fuel, node, toks, steps[0])
      && (if stop[0] == "}" then |steps| == 1 && rest == stop
          else stop[0] == "," && Separated(g, ctx, fuel, node, stop[1..], steps[1..], rest))
  }

  function Collect(values: seq<Value>, steps: seq<Step>): seq<Value>
    decreases |steps|
  {
    if steps == [] then values else Collect(Listed(values, steps[0].value), steps[1..])
  }

  /** A list is read only from values that are separated like this, and has those that are not empty. */
  lemma {:induction false} ItemsAreSeparated(g: Grammar, ctx: Context, fuel: nat, node: Node, values: seq<Value>, toks: seq<string>)
    returns (steps: seq<Step>)
    requires node.Reference?
    requires var r := Items(g, ctx, fuel, node, values, toks); r.Some? && r.value.outcome.Ok?
    ensures var r := Items(g, ctx, fuel, node, values, toks).value;
            Separated(g, ctx, fuel, node, toks, steps, r.rest) && r.outcome == Ok(Values(Collect(values, steps)))
    decreases |toks|
  {
    if toks == [] {
      return [];
    }
    var r := One(g, ctx, fuel, node, toks).value;
    var step := Step(r.outcome.value, r.rest);
    if r.rest[0] == "}" {
      steps := [step];
      assert steps[1..] == [];
    } else {
      var later := ItemsAreSeparated(g, ctx, fuel, node, Listed(values, step.value), r.rest[1..]);
      steps := [step] + later;
      assert steps[1..] == later;
    }
  }

  /** Conversely, whatever is separated like this is read as a list. */
  lemma {:induction false} SeparatedAreRead(g: Grammar, ctx: Context, fuel: nat, node: Node, values: seq<Value>, toks: seq<string>,
                                            steps: seq<Step>, rest: seq<string>)
    requires node.Reference? && Separated(g, ctx, fuel, node, toks, steps, rest)
    ensures var r := Items(g, ctx, fuel, node, values, toks);
            r.Some? && r.value.outcome == Ok(Values(Collect(values, steps))) && r.value.rest == rest
    decreases |steps|
  {
    if steps != [] {
      var more := Listed(values, steps[0].value);
      if steps[0].stop[0] == "}" {
        assert steps[1..] == [];
      } else {
        SeparatedAreRead(g, ctx, fuel, node, more, steps[0].stop[1..], steps[1..], rest);
      }
    }
  }

  /** A value that is empty adds nothing to a list, any other is added at its end. */
  lemma {:induction false} CollectMore(values: seq<Value>, steps: seq<Step>, step: Step)
    ensures Collect(values, steps + [step]) == Collect(values, steps) + if step.value.Nothing? then [] else [step.value]
    decreases |steps|
  {
    var all := steps + [step];
    if steps == [] {
      assert all[0] == step && all[1..] == [];
      assert values + [] == values;
    } else {
      assert all[0] == steps[0] && all[1..] == steps[1..] + [step];
      CollectMore(Listed(values, steps[0].value), steps[1..], step);
    }
  }

  /** A list is read from a closing brace, which is left, as an empty one, and from separated values; never from nothing. */
  lemma ListIff(g: Grammar, ctx: Context, fuel: nat, node: Node, toks: seq<string>, list: seq<Value>, rest: seq<string>)
    requires node.Reference? && node.sequenceOf && fuel > 0
    ensures CanRead(g, ctx, fuel, node, toks, Ok(Values(list)), rest) <==>
            toks != [] &&
            if toks[0] == "}" then list == [] && rest == toks
            else exists steps :: Separated(g, ctx, fuel - 1, node, toks, steps, rest) && list == Collect([], steps)
  {
    var inner := Inner(g, ctx, fuel - 1, node, toks);
    assert Read(g, ctx, fuel, node, toks) ==
           if inner.None? then None else Some(inner.value.(nest := inner.value.nest + multiset{node.id}));
    if toks == [] || toks[0] == "}" {
      return;
    }
    assert inner == Items(g, ctx, fuel - 1, node, [], toks);
    if CanRead(g, ctx, fuel, node, toks, Ok(Values(list)), rest) {
      var steps := ItemsAreSeparated(g, ctx, fuel - 1, node, [], toks);
    }
    if steps :| Separated(g, ctx, fuel - 1, node, toks, steps, rest) && list == Collect([], steps) {
      SeparatedAreRead(g, ctx, fuel - 1, node, [], toks, steps, rest);
    }
  }

  // ---------------------------------------------------------------- left recursion

  /** A type that is defined as itself. */
  function Endless(): Grammar {
    Rules([map["x" := Reference(0, "x", false)]], 1)
  }

  /** No amount of fuel reads it, so that what the interpreter reads is not in the grammar. */
  lemma {:induction false} EndlessIsNoGrammar(fuel: nat, toks: seq<string>)
    ensures Read(Endless(), [0], fuel, Reference(0, "x", false), toks) == None
    decreases fuel
  {
    var node := Reference(0, "x", false);
    assert Find(Endless(), [0], "x") == Some(node);
    if fuel > 0 {
      EndlessIsNoGrammar(fuel - 1, toks);
      assert One(Endless(), [0], fuel - 1, node, toks) == None;
    }
  }
}
