/** The interpreter of macro grammars as a function of tokens and recursion counts. */
module Parsing {
  import opened Basics
  import opened Grammar

  /** `hits` counts, for every definition, how often the recursion limit stopped it. */
  datatype Parsed = Parsed(outcome: Outcome, rest: seq<string>, depth: Depth, hits: multiset<nat>)

  /** A definition's count grows by one for every time that it was stopped, and is restored otherwise. */
  ghost predicate Accounted(d: Depth, r: Parsed) {
    r.depth == d + r.hits
  }

  /** What a sequence has collected: the fields, and the last keyword that has no value yet. */
  datatype Building = Building(fields: map<string, Value>, lastName: string)

  function AddPart(b: Building, i: nat, part: Node, v: Value): Building {
    if v.Composite? then b.(fields := b.fields + v.fields)
    else if !v.Nothing? then
      if b.lastName != "" then Building(b.fields[b.lastName := v], "")
      else b.(fields := b.fields[NatToString(i) := v])
    else if part.Expected? && part.text != "" && IsLetter(part.text[0]) then b.(lastName := part.text)
    else b
  }

  function Finish(b: Building): Value {
    if b.fields == map[] && b.lastName != "" then Text(b.lastName) else Composite(b.fields)
  }

  /** One keyword was renamed in the standard; the old one is accepted for the new one. */
  predicate Matches(token: string, expected: string) {
    token == expected || (token == "ACCESS" && expected == "MAX-ACCESS")
  }

  function Parse(g: Grammar, ctx: Context, d: Depth, node: Node, toks: seq<string>): (r: Parsed)
    requires NodeOk(g.ids, node)
    ensures Accounted(d, r) && |r.rest| <= |toks|
    decreases 2 * Budget(g.ids, d), node, 1, 0
  {
    match node
    case Expected(text) =>
      if toks != [] && Matches(toks[0], text) then Parsed(Ok(Nothing), toks[1..], d, multiset{})
      else Parsed(Fail, toks, d, multiset{})
    case NotType => Parsed(Fail, toks, d, multiset{})
    case Macro(fields, notation) =>
      if notation.None? then Parsed(Fail, toks, d, multiset{})
      else Parse(g, [fields] + ctx, d, notation.value, toks)
    case Choice(_) => ParseChoice(g, ctx, d, node, 0, toks)
    case _ =>
      var entered := d + multiset{node.id};
      if entered[node.id] > LIMIT then Parsed(Fail, toks, entered, multiset{node.id})
      else
        BudgetEnter(g.ids, d, node.id);
        var r := ParseEntered(g, ctx, entered, node, toks);
        r.(depth := r.depth - multiset{node.id})
  }

  /** A sequence or reference below its limit. A sequence that fails takes nothing. */
  function ParseEntered(g: Grammar, ctx: Context, d: Depth, node: Node, toks: seq<string>): (r: Parsed)
    requires NodeOk(g.ids, node) && (node.Sequence? || node.Reference?)
    ensures Accounted(d, r) && |r.rest| <= |toks|
    decreases 2 * Budget(g.ids, d) + 1, node, 3, 0
  {
    if node.Sequence? then
      var inner := if node.scope.Some? then [node.scope.value] + ctx else ctx;
      var r := ParseSequence(g, inner, d, node, 0, Building(map[], ""), toks);
      if r.outcome.Fail? then r.(rest := toks) else r
    else if node.sequenceOf then ParseList(g, ctx, d, node, toks)
    else ParseOne(g, ctx, d, node, toks)
  }

  /** The parts of a sequence from the `i`th on, each on what the one before has left. */
  function ParseSequence(g: Grammar, ctx: Context, d: Depth, node: Node, i: nat, b: Building, toks: seq<string>): (r: Parsed)
    requires NodeOk(g.ids, node) && node.Sequence? && i <= |node.pattern|
    ensures Accounted(d, r) && |r.rest| <= |toks|
    decreases 2 * Budget(g.ids, d), node, 0, |node.pattern| - i
  {
    if i == |node.pattern| then Parsed(Ok(Finish(b)), toks, d, multiset{})
    else
      var r := Parse(g, ctx, d, node.pattern[i], toks);
      if r.outcome.Fail? then r
      else
        BudgetMonotone(g.ids, d, r.depth);
        var more := AddPart(b, i, node.pattern[i], r.outcome.value);
        var s := ParseSequence(g, ctx, r.depth, node, i + 1, more, r.rest);
        s.(hits := r.hits + s.hits)
  }

  /** The first of the alternatives from the `i`th on that can be read. */
  function ParseChoice(g: Grammar, ctx: Context, d: Depth, node: Node, i: nat, toks: seq<string>): (r: Parsed)
    requires NodeOk(g.ids, node) && node.Choice? && i <= |node.alternatives|
    ensures Accounted(d, r) && |r.rest| <= |toks|
    decreases 2 * Budget(g.ids, d), node, 0, |node.alternatives| - i
  {
    if i == |node.alternatives| then Parsed(Fail, toks, d, multiset{})
    else
      var r := Parse(g, ctx, d, node.alternatives[i], toks);
      if r.outcome.Ok? then r
      else
        BudgetMonotone(g.ids, d, r.depth);
        var s := ParseChoice(g, ctx, r.depth, node, i + 1, toks);
        s.(hits := r.hits + s.hits)
  }

  /** One value of the type that a reference names. */
  function ParseOne(g: Grammar, ctx: Context, d: Depth, node: Node, toks: seq<string>): (r: Parsed)
    requires NodeOk(g.ids, node) && node.Reference?
    ensures Accounted(d, r) && |r.rest| <= |toks|
    decreases 2 * Budget(g.ids, d) + 1, node, 0, 0
  {
    if IsBuiltIn(node.ident) then
      BuiltInLeaves(node.ident, toks);
      var Simple(outcome, rest) := ReadBuiltIn(node.ident, toks);
      Parsed(outcome, rest, d, multiset{})
    else
      match Find(g, ctx, node.ident)
      case None => Parsed(Fail, toks, d, multiset{})
      case Some(def) => Parse(g, ctx, d, def, toks)
  }

  /** Values separated by commas, up to a closing brace or the end. */
  function ParseList(g: Grammar, ctx: Context, d: Depth, node: Node, toks: seq<string>): (r: Parsed)
    requires NodeOk(g.ids, node) && node.Reference?
    ensures Accounted(d, r) && |r.rest| <= |toks|
    decreases 2 * Budget(g.ids, d) + 1, node, 2, 0
  {
    if toks == [] then Parsed(Fail, toks, d, multiset{})
    else if toks[0] == "}" then Parsed(Ok(Values([])), toks, d, multiset{})
    else ParseItems(g, ctx, d, node, [], toks)
  }

  function ParseItems(g: Grammar, ctx: Context, d: Depth, node: Node, values: seq<Value>, toks: seq<string>): (r: Parsed)
    requires NodeOk(g.ids, node) && node.Reference?
    ensures Accounted(d, r) && |r.rest| <= |toks|
    decreases 2 * Budget(g.ids, d) + 1, node, 1, |toks|
  {
    if toks == [] then Parsed(Ok(Values(values)), toks, d, multiset{})
    else
      var r := ParseOne(g, ctx, d, node, toks);
      if r.outcome.Fail? then r
      else
        var more := if r.outcome.value.Nothing? then values else values + [r.outcome.value];
        if r.rest != [] && r.rest[0] == "}" then r.(outcome := Ok(Values(more)))
        else if r.rest == [] || r.rest[0] != "," then r.(outcome := Fail)
        else
          BudgetMonotone(g.ids, d, r.depth);
          var s := ParseItems(g, ctx, r.depth, node, more, r.rest[1..]);
          s.(hits := r.hits + s.hits)
  }
}
