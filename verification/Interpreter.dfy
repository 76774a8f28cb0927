/** The interpreter of macro grammars as it runs: on readers, projections and a shared table of counts. */
module Interpreter {
  import opened Basics
  import opened Blocks
  import opened Grammar
  import opened Parsing
  import opened Readers
  import opened Tokens

  /** How often each definition is being read at the moment. */
  class RecursionCounts {
    var count: map<nat, nat>

    ghost predicate Are(d: Depth)
      reads this
    {
      forall id: nat :: d[id] == if id in count then count[id] else 0
    }

    constructor ()
      ensures Are(multiset{})
    {
      count := map[];
    }

    method Inc(id: nat, ghost d: Depth) returns (n: nat)
      requires Are(d)
      modifies this
      ensures Are(d + multiset{id}) && n == (d + multiset{id})[id]
    {
      count := count[id := (if id in count then count[id] else 0) + 1];
      return count[id];
    }

    method Dec(id: nat, ghost d: Depth)
      requires Are(d) && id in d
      modifies this
      ensures Are(d - multiset{id})
    {
      count := count[id := count[id] - 1];
    }
  }

  // ---------------------------------------------------------------- built-in types

  method ReadOidElement(list: List) returns (element: Option<string>)
    requires list.elements != []
    modifies list
    ensures (element, list.elements) == NextElement(old(list.elements))
  {
    ghost var block := list.elements;
    element := Pop(OfList(list));
    if LookAhead(OfList(list), 0) == Some("(") {
      var inner := ReadBlock(OfList(list), "(", ")");
      element := if inner.None? || inner.value == [] then None else Some(inner.value[0]);
    }
  }

  method ReadOidElements(block: seq<string>) returns (elements: Option<seq<string>>)
    ensures elements == OidElements([], block)
  {
    var list := new List(block);
    var read: seq<string> := [];
    while !IsEOF(OfList(list))
      invariant OidElements(read, list.elements) == OidElements([], block)
      decreases |list.elements|
    {
      var element := ReadOidElement(list);
      if element.None? {
        return None;
      }
      read := read + [element.value];
    }
    return Some(read);
  }

  method ReadOidValue(s: Reader) returns (outcome: Outcome)
    requires Valid(s)
    modifies Top(s)
    ensures Valid(s) && Under(s) == old(Under(s))
    ensures Simple(outcome, Remaining(s)) == ReadOid(old(Remaining(s)))
  {
    var peek := LookAhead(s, 0);
    if peek.None? {
      return Fail;
    }
    if peek.value == "{" {
      var block := ReadBlock(s, "{", "}");
      if block.None? {
        return Fail;
      }
      StackAllocated(s);
      var elements := ReadOidElements(block.value);
      return if elements.Some? then Ok(ObjectId(elements.value)) else Fail;
    }
    var _ := Pop(s);
    return Ok(ObjectId([peek.value]));
  }

  method ReadConstantValue(s: Reader) returns (outcome: Outcome)
    requires Valid(s)
    modifies Top(s)
    ensures Valid(s) && Under(s) == old(Under(s))
    ensures Simple(outcome, Remaining(s)) == ReadConstant(old(Remaining(s)))
  {
    var peek := LookAhead(s, 0);
    if peek.None? {
      return Fail;
    }
    if peek.value == "{" {
      var block := ReadBlock(s, "{", "}");
      return if block.Some? then Ok(Constant(block.value)) else Fail;
    }
    var _ := Pop(s);
    return Ok(Constant([peek.value]));
  }

  method ReadTextValue(s: Reader) returns (outcome: Outcome)
    requires Valid(s)
    modifies Top(s)
    ensures Valid(s) && Under(s) == old(Under(s))
    ensures Simple(outcome, Remaining(s)) == ReadText(old(Remaining(s)))
  {
    var tok := Pop(s);
    return if tok.Some? && TypeOf(tok.value) == StringToken then Ok(Text(tok.value)) else Fail;
  }

  method ReadTagging(s: Reader) returns (ok: bool)
    requires Valid(s)
    modifies Top(s)
    ensures Valid(s) && Under(s) == old(Under(s))
    ensures SkipTagging(old(Remaining(s))).block.Some? <==> ok
    ensures Remaining(s) == SkipTagging(old(Remaining(s))).rest
  {
    var peek := LookAhead(s, 0);
    if peek != Some("[") {
      return peek.Some?;
    }
    var envelope := ReadBlock(s, "[", "]");
    if envelope.None? {
      return false;
    }
    peek := LookAhead(s, 0);
    if peek == Some("IMPLICIT") || peek == Some("EXPLICIT") {
      var _ := Pop(s);
      peek := LookAhead(s, 0);
    }
    return peek.Some?;
  }

  method ReadTypeConstraint(ident: string, sequenceOf: bool, s: Reader) returns (outcome: Outcome)
    requires Valid(s)
    modifies Top(s)
    ensures Valid(s) && Under(s) == old(Under(s))
    ensures Simple(outcome, Remaining(s)) == ReadConstraint(ident, sequenceOf, old(Remaining(s)))
  {
    var peek := LookAhead(s, 0);
    if peek.None? {
      return Fail;
    }
    var closer := Closer(peek.value);
    if closer.None? {
      return Ok(TypeRef(ident, sequenceOf, None));
    }
    var block := ReadBlock(s, peek.value, closer.value);
    return if block.Some? then Ok(TypeRef(ident, sequenceOf, block)) else Fail;
  }

  method ReadTypeRefValue(s: Reader) returns (outcome: Outcome)
    requires Valid(s)
    modifies Top(s)
    ensures Valid(s) && Under(s) == old(Under(s))
    ensures Simple(outcome, Remaining(s)) == ReadTypeRef(old(Remaining(s)))
  {
    var ok := ReadTagging(s);
    if !ok {
      return Fail;
    }
    var peek := LookAhead(s, 0);
    if TypeOf(peek.value) != Ident {
      return Fail;
    }
    var ident := Pop(s);
    if ident.value == "SEQUENCE OF" {
      ident := Pop(s);
      if ident.None? {
        return Fail;
      }
      outcome := ReadTypeConstraint(ident.value, true, s);
    } else {
      outcome := ReadTypeConstraint(ident.value, false, s);
    }
  }

  method ReadBuiltInValue(ident: string, s: Reader) returns (outcome: Outcome)
    requires Valid(s)
    modifies Top(s)
    ensures Valid(s) && Under(s) == old(Under(s))
    ensures Simple(outcome, Remaining(s)) == ReadBuiltIn(ident, old(Remaining(s)))
  {
    if ident == "OBJECT IDENTIFIER" {
      outcome := ReadOidValue(s);
    } else if ident == "IA5String" {
      outcome := ReadTextValue(s);
    } else if ident == "value" {
      outcome := ReadConstantValue(s);
    } else if ident == "empty" {
      outcome := Ok(Nothing);
    } else {
      outcome := ReadTypeRefValue(s);
    }
  }

  // ---------------------------------------------------------------- the interpreter

  /** The table of counts is none of the readers. */
  lemma {:induction false} CountsApart(counts: RecursionCounts, r: Reader)
    ensures counts !in Footprint(r) && forall o :: o in Footprint(r) ==> allocated(o)
    decreases Level(r)
  {
    if r.OfProjection? && Level(r.projection.reader) < r.projection.level {
      CountsApart(counts, r.projection.reader);
    }
  }

  /** Counting leaves every reader as it was. */
  method Enter(counts: RecursionCounts, id: nat, ghost d: Depth, s: Reader) returns (n: nat)
    requires Valid(s) && counts.Are(d)
    modifies counts
    ensures counts.Are(d + multiset{id}) && n == (d + multiset{id})[id]
    ensures Valid(s) && Views(s) == old(Views(s))
  {
    CountsApart(counts, s);
    n := counts.Inc(id, d);
  }

  method Leave(counts: RecursionCounts, id: nat, ghost d: Depth, s: Reader)
    requires Valid(s) && counts.Are(d) && id in d
    modifies counts
    ensures counts.Are(d - multiset{id})
    ensures Valid(s) && Views(s) == old(Views(s))
  {
    CountsApart(counts, s);
    counts.Dec(id, d);
  }

  /** What reading from `s` has to do: what the pure parser `r` says, and nothing below `s` changes. */
  twostate predicate Follows(r: Parsed, outcome: Outcome, counts: RecursionCounts, s: Reader)
    requires old(Valid(s))
    reads counts, Footprint(s)
  {
    && Valid(s) && Under(s) == old(Under(s)) && Remaining(s) == r.rest
    && counts.Are(r.depth) && outcome == r.outcome
  }

  method ReadValue(g: Grammar, ctx: Context, counts: RecursionCounts, ghost d: Depth, node: Node, s: Reader)
    returns (outcome: Outcome)
    requires NodeOk(g.ids, node) && Valid(s) && counts.Are(d)
    modifies counts, Top(s)
    ensures Follows(Parse(g, ctx, d, node, old(Remaining(s))), outcome, counts, s)
    decreases 2 * Budget(g.ids, d), node, 1, 0
  {
    CountsApart(counts, s);
    match node {
      case Expected(text) =>
        var peek := LookAhead(s, 0);
        if peek.None? || !Matches(peek.value, text) {
          return Fail;
        }
        var _ := Pop(s);
        return Ok(Nothing);
      case NotType =>
        return Fail;
      case Macro(fields, notation) =>
        if notation.None? {
          return Fail;
        }
        outcome := ReadValue(g, [fields] + ctx, counts, d, notation.value, s);
      case Choice(_) =>
        outcome := ReadChoice(g, ctx, counts, d, node, s);
      case _ =>
        outcome := ReadCounted(g, ctx, counts, d, node, s);
    }
  }

  method ReadCounted(g: Grammar, ctx: Context, counts: RecursionCounts, ghost d: Depth, node: Node, s: Reader)
    returns (outcome: Outcome)
    requires NodeOk(g.ids, node) && Valid(s) && counts.Are(d)
    requires node.Sequence? || node.Reference?
    modifies counts, Top(s)
    ensures Follows(Parse(g, ctx, d, node, old(Remaining(s))), outcome, counts, s)
    decreases 2 * Budget(g.ids, d), node, 0, 0
  {
    ghost var entered := d + multiset{node.id};
    var n := Enter(counts, node.id, d, s);
    if n > LIMIT {
      return Fail;
    }
    BudgetEnter(g.ids, d, node.id);
    ghost var r := ParseEntered(g, ctx, entered, node, Remaining(s));
    assert Parse(g, ctx, d, node, Remaining(s)) == r.(depth := r.depth - multiset{node.id});
    if node.Sequence? {
      outcome := ReadSequence(g, ctx, counts, entered, node, s);
    } else if node.sequenceOf {
      outcome := ReadList(g, ctx, counts, entered, node, s);
    } else {
      outcome := ReadOne(g, ctx, counts, entered, node, s);
    }
    Leave(counts, node.id, r.depth, s);
  }

  /** Takes what has been read ahead; the counts stay what they are. */
  method CommitRead(tmp: Projection, counts: RecursionCounts, ghost d: Depth)
    requires Valid(OfProjection(tmp)) && counts.Are(d)
    modifies tmp, Top(tmp.reader)
    ensures Valid(tmp.reader) && Under(tmp.reader) == old(Under(tmp.reader))
    ensures Remaining(tmp.reader) == old(Remaining(OfProjection(tmp))) && counts.Are(d)
  {
    CountsApart(counts, OfProjection(tmp));
    CountsApart(counts, tmp.reader);
    Commit(tmp);
    assert Views(tmp.reader) == [old(Remaining(OfProjection(tmp)))] + old(Under(tmp.reader));
  }

  /** The parts of a sequence are read ahead, and taken from `s` only when all of them are there. */
  method ReadSequence(g: Grammar, ctx: Context, counts: RecursionCounts, ghost d: Depth, node: Node, s: Reader)
    returns (outcome: Outcome)
    requires NodeOk(g.ids, node) && node.Sequence? && Valid(s) && counts.Are(d)
    modifies counts, Top(s)
    ensures Follows(ParseEntered(g, ctx, d, node, old(Remaining(s))), outcome, counts, s)
    decreases 2 * Budget(g.ids, d) + 1, node, 3, 0
  {
    var inner := if node.scope.Some? then [node.scope.value] + ctx else ctx;
    ghost var r := ParseSequence(g, inner, d, node, 0, Building(map[], ""), Remaining(s));
    var tmp := NewProjection(s);
    CountsApart(counts, OfProjection(tmp));
    outcome := ReadParts(g, inner, counts, d, node, OfProjection(tmp));
    assert Valid(s) && Views(s) == old(Views(s));
    if outcome.Fail? {
      return;
    }
    CommitRead(tmp, counts, r.depth);
  }

  /** A sequence fails with its first part that cannot be read, and goes on behind every other. */
  lemma PartStep(g: Grammar, ctx: Context, d: Depth, node: Node, i: nat, b: Building, toks: seq<string>, whole: Parsed)
    requires NodeOk(g.ids, node) && node.Sequence? && i < |node.pattern|
    requires Agrees(ParseSequence(g, ctx, d, node, i, b, toks), whole)
    ensures var part := Parse(g, ctx, d, node.pattern[i], toks);
            && (part.outcome.Fail? ==> Agrees(part, whole))
            && (part.outcome.Ok? ==>
                  Agrees(ParseSequence(g, ctx, part.depth, node, i + 1, AddPart(b, i, node.pattern[i], part.outcome.value), part.rest), whole))
  {
  }

  /** Reads one part, and adds what it gives. */
  method ReadPart(g: Grammar, ctx: Context, counts: RecursionCounts, ghost d: Depth, node: Node, i: nat, b: Building, tmp: Reader,
                  ghost whole: Parsed)
    returns (ok: bool, more: Building, ghost later: Depth)
    requires NodeOk(g.ids, node) && node.Sequence? && i < |node.pattern| && Valid(tmp) && counts.Are(d)
    requires Agrees(ParseSequence(g, ctx, d, node, i, b, Remaining(tmp)), whole)
    modifies counts, Top(tmp)
    ensures Valid(tmp) && Under(tmp) == old(Under(tmp)) && counts.Are(later) && d <= later
    ensures !ok ==> whole.outcome.Fail? && Remaining(tmp) == whole.rest && later == whole.depth
    ensures ok ==> Agrees(ParseSequence(g, ctx, later, node, i + 1, more, Remaining(tmp)), whole)
    decreases 2 * Budget(g.ids, d), node, 0, 0
  {
    later := Parse(g, ctx, d, node.pattern[i], Remaining(tmp)).depth;
    PartStep(g, ctx, d, node, i, b, Remaining(tmp), whole);
    var outcome := ReadValue(g, ctx, counts, d, node.pattern[i], tmp);
    ok := outcome.Ok?;
    more := if ok then AddPart(b, i, node.pattern[i], outcome.value) else b;
  }

  method ReadParts(g: Grammar, ctx: Context, counts: RecursionCounts, ghost d: Depth, node: Node, tmp: Reader)
    returns (outcome: Outcome)
    requires NodeOk(g.ids, node) && node.Sequence? && Valid(tmp) && counts.Are(d)
    modifies counts, Top(tmp)
    ensures Follows(ParseSequence(g, ctx, d, node, 0, Building(map[], ""), old(Remaining(tmp))), outcome, counts, tmp)
    decreases 2 * Budget(g.ids, d), node, 1, 0
  {
    var b := Building(map[], "");
    ghost var whole := ParseSequence(g, ctx, d, node, 0, b, Remaining(tmp));
    ghost var now := d;
    for i := 0 to |node.pattern|
      invariant Valid(tmp) && counts.Are(now) && Under(tmp) == old(Under(tmp)) && d <= now
      invariant Agrees(ParseSequence(g, ctx, now, node, i, b, Remaining(tmp)), whole)
    {
      BudgetMonotone(g.ids, d, now);
      var ok;
      ok, b, now := ReadPart(g, ctx, counts, now, node, i, b, tmp, whole);
      if !ok {
        return Fail;
      }
    }
    return Ok(Finish(b));
  }

  /** Equal but for the hits, of which a loop has already seen some. */
  ghost predicate Agrees(r: Parsed, whole: Parsed) {
    r.(hits := multiset{}) == whole.(hits := multiset{})
  }

  /** Reads ahead, and takes what has been read from `s` if that succeeds. */
  method ReadAlternative(g: Grammar, ctx: Context, counts: RecursionCounts, ghost d: Depth, node: Node, s: Reader)
    returns (outcome: Outcome)
    requires NodeOk(g.ids, node) && Valid(s) && counts.Are(d)
    modifies counts, Top(s)
    ensures var r := Parse(g, ctx, d, node, old(Remaining(s)));
            Follows(if r.outcome.Ok? then r else r.(rest := old(Remaining(s))), outcome, counts, s)
    decreases 2 * Budget(g.ids, d), node, 2, 0
  {
    ghost var r := Parse(g, ctx, d, node, Remaining(s));
    var tmp := NewProjection(s);
    CountsApart(counts, OfProjection(tmp));
    outcome := ReadValue(g, ctx, counts, d, node, OfProjection(tmp));
    assert Valid(s) && Views(s) == old(Views(s));
    if outcome.Fail? {
      return;
    }
    CommitRead(tmp, counts, r.depth);
  }

  /** A choice ends with the first alternative that can be read, and goes on from the counts that the others have left. */
  lemma ChoiceStep(g: Grammar, ctx: Context, d: Depth, node: Node, i: nat, toks: seq<string>, whole: Parsed)
    requires NodeOk(g.ids, node) && node.Choice? && i < |node.alternatives|
    requires Agrees(ParseChoice(g, ctx, d, node, i, toks), whole)
    ensures var part := Parse(g, ctx, d, node.alternatives[i], toks);
            Agrees(if part.outcome.Ok? then part else ParseChoice(g, ctx, part.depth, node, i + 1, toks), whole)
  {
  }

  method ReadChoice(g: Grammar, ctx: Context, counts: RecursionCounts, ghost d: Depth, node: Node, s: Reader)
    returns (outcome: Outcome)
    requires NodeOk(g.ids, node) && node.Choice? && Valid(s) && counts.Are(d)
    modifies counts, Top(s)
    ensures Follows(ParseChoice(g, ctx, d, node, 0, old(Remaining(s))), outcome, counts, s)
    decreases 2 * Budget(g.ids, d), node, 0, 0
  {
    ghost var toks, under := Remaining(s), Under(s);
    ghost var whole := ParseChoice(g, ctx, d, node, 0, toks);
    ghost var now := d;
    var i := 0;
    while i < |node.alternatives|
      invariant i <= |node.alternatives| && d <= now
      invariant Valid(s) && counts.Are(now) && Under(s) == under && Remaining(s) == toks
      invariant Agrees(ParseChoice(g, ctx, now, node, i, toks), whole)
    {
      BudgetMonotone(g.ids, d, now);
      ghost var part := Parse(g, ctx, now, node.alternatives[i], toks);
      outcome := ReadAlternative(g, ctx, counts, now, node.alternatives[i], s);
      ChoiceStep(g, ctx, now, node, i, toks, whole);
      if outcome.Ok? {
        return;
      }
      now := part.depth;
      i := i + 1;
    }
    return Fail;
  }

  method ReadOne(g: Grammar, ctx: Context, counts: RecursionCounts, ghost d: Depth, node: Node, s: Reader)
    returns (outcome: Outcome)
    requires NodeOk(g.ids, node) && node.Reference? && Valid(s) && counts.Are(d)
    modifies counts, Top(s)
    ensures Follows(ParseOne(g, ctx, d, node, old(Remaining(s))), outcome, counts, s)
    decreases 2 * Budget(g.ids, d) + 1, node, 0, 0
  {
    CountsApart(counts, s);
    if IsBuiltIn(node.ident) {
      outcome := ReadBuiltInValue(node.ident, s);
    } else {
      var def := Find(g, ctx, node.ident);
      if def.None? {
        return Fail;
      }
      outcome := ReadValue(g, ctx, counts, d, def.value, s);
    }
  }

  /** A list fails with its first value that cannot be read, ends with a closing brace, and goes on behind a comma. */
  lemma ItemStep(g: Grammar, ctx: Context, d: Depth, node: Node, values: seq<Value>, toks: seq<string>, whole: Parsed)
    requires NodeOk(g.ids, node) && node.Reference? && toks != [] && Agrees(ParseItems(g, ctx, d, node, values, toks), whole)
    ensures var part := ParseOne(g, ctx, d, node, toks);
            && (part.outcome.Fail? ==> Agrees(part, whole))
            && (part.outcome.Ok? ==>
                  var more := if part.outcome.value.Nothing? then values else values + [part.outcome.value];
                  if part.rest != [] && part.rest[0] == "}" then Agrees(part.(outcome := Ok(Values(more))), whole)
                  else if part.rest == [] || part.rest[0] != "," then Agrees(part.(outcome := Fail), whole)
                  else Agrees(ParseItems(g, ctx, part.depth, node, more, part.rest[1..]), whole))
  {
  }

  /** Reads one value of a list, and the comma behind it; `going` when there is one. */
  method ReadItem(g: Grammar, ctx: Context, counts: RecursionCounts, ghost d: Depth, node: Node, values: seq<Value>, s: Reader,
                  ghost whole: Parsed)
    returns (outcome: Outcome, more: seq<Value>, going: bool, ghost later: Depth)
    requires NodeOk(g.ids, node) && node.Reference? && Valid(s) && counts.Are(d) && Remaining(s) != []
    requires Agrees(ParseItems(g, ctx, d, node, values, Remaining(s)), whole)
    modifies counts, Top(s)
    ensures Valid(s) && Under(s) == old(Under(s)) && counts.Are(later) && d <= later
    ensures !going ==> outcome == whole.outcome && Remaining(s) == whole.rest && later == whole.depth
    ensures going ==> Agrees(ParseItems(g, ctx, later, node, more, Remaining(s)), whole)
    ensures going ==> |Remaining(s)| < |old(Remaining(s))|
    decreases 2 * Budget(g.ids, d) + 1, node, 1, 0
  {
    CountsApart(counts, s);
    ghost var part := ParseOne(g, ctx, d, node, Remaining(s));
    ItemStep(g, ctx, d, node, values, Remaining(s), whole);
    outcome := ReadOne(g, ctx, counts, d, node, s);
    more, going, later := values, false, part.depth;
    if outcome.Fail? {
      return;
    }
    if !outcome.value.Nothing? {
      more := values + [outcome.value];
    }
    var next := LookAhead(s, 0);
    outcome := if next == Some("}") then Ok(Values(more)) else Fail;
    if next == Some(",") {
      going := true;
      var _ := Pop(s);
    }
  }

  method ReadList(g: Grammar, ctx: Context, counts: RecursionCounts, ghost d: Depth, node: Node, s: Reader)
    returns (outcome: Outcome)
    requires NodeOk(g.ids, node) && node.Reference? && Valid(s) && counts.Are(d)
    modifies counts, Top(s)
    ensures Follows(ParseList(g, ctx, d, node, old(Remaining(s))), outcome, counts, s)
    decreases 2 * Budget(g.ids, d) + 1, node, 2, 0
  {
    ghost var whole := ParseList(g, ctx, d, node, Remaining(s));
    var peek := LookAhead(s, 0);
    if peek.None? {
      return Fail;
    }
    if peek.value == "}" {
      return Ok(Values([]));
    }
    var values := [];
    ghost var now := d;
    while !IsEOF(s)
      invariant Valid(s) && counts.Are(now) && Under(s) == old(Under(s)) && d <= now
      invariant Agrees(ParseItems(g, ctx, now, node, values, Remaining(s)), whole)
      decreases |Remaining(s)|
    {
      BudgetMonotone(g.ids, d, now);
      var going;
      outcome, values, going, now := ReadItem(g, ctx, counts, now, node, values, s, whole);
      if !going {
        return;
      }
    }
    return Ok(Values(values));
  }
}
