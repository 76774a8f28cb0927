/** Macro grammars and the values that they read, as functions of the tokens that are left. */
module Grammar {
  import opened Basics
  import opened Blocks
  import opened Tokens

  datatype Value =
    | Nothing
    | Composite(fields: map<string, Value>)
    | Text(text: string)
    | ObjectId(elements: seq<string>)
    | Constant(elements: seq<string>)
    | TypeRef(ident: string, sequenceOf: bool, constraint: Option<seq<string>>)
    | Values(list: seq<Value>)

  /**
   * What values are read by. Sequences and references carry the identity by which recursion into
   * them is counted; a sequence and a macro also carry the scope that names inside them see first.
   */
  datatype Node =
    | Sequence(id: nat, scope: Option<nat>, pattern: seq<Node>)
    | Choice(alternatives: seq<Node>)
    | Reference(id: nat, ident: string, sequenceOf: bool)
    | Expected(text: string)
    | Macro(fields: nat, notation: Option<Node>)
    | NotType

  /** What is defined in which scope. */
  datatype Rules = Rules(scopes: seq<map<string, Node>>, ids: nat)

  /** The identities below a node are bounded. */
  predicate NodeOk(ids: nat, node: Node) {
    match node
    case Sequence(id, _, pattern) => id < ids && forall i :: 0 <= i < |pattern| ==> NodeOk(ids, pattern[i])
    case Choice(alternatives) => forall i :: 0 <= i < |alternatives| ==> NodeOk(ids, alternatives[i])
    case Reference(id, _, _) => id < ids
    case Macro(_, notation) => notation.Some? ==> NodeOk(ids, notation.value)
    case _ => true
  }

  /** A finite grammar: only finitely many definitions are counted. */
  type Grammar = g: Rules |
    forall s, name :: 0 <= s < |g.scopes| && name in g.scopes[s] ==> NodeOk(g.ids, g.scopes[s][name])
    witness Rules([], 0)

  /** The scopes that a name is looked up in, innermost first; a number without a scope defines nothing. */
  type Context = seq<nat>

  function Find(g: Grammar, ctx: Context, name: string): (found: Option<Node>)
    ensures found.Some? ==> NodeOk(g.ids, found.value)
  {
    if ctx == [] then None
    else if ctx[0] < |g.scopes| && name in g.scopes[ctx[0]] then Some(g.scopes[ctx[0]][name])
    else Find(g, ctx[1..], name)
  }

  predicate Defines(g: Grammar, scope: nat, name: string) {
    scope < |g.scopes| && name in g.scopes[scope]
  }

  /** A name means what the first scope that has it says. */
  lemma {:induction false} FindsInnermost(g: Grammar, ctx: Context, name: string)
    ensures Find(g, ctx, name) == None <==> forall i :: 0 <= i < |ctx| ==> !Defines(g, ctx[i], name)
    ensures forall i :: 0 <= i < |ctx| && Defines(g, ctx[i], name) && (forall j :: 0 <= j < i ==> !Defines(g, ctx[j], name)) ==>
              Find(g, ctx, name) == Some(g.scopes[ctx[i]][name])
  {
    if ctx != [] && !Defines(g, ctx[0], name) {
      var outer := ctx[1..];
      FindsInnermost(g, outer, name);
      assert forall i :: 0 < i < |ctx| ==> ctx[i] == outer[i - 1];
      assert forall i :: 0 <= i < |outer| ==> outer[i] == ctx[i + 1];
    }
  }

  // ---------------------------------------------------------------- recursion counts

  const LIMIT := 100

  /** How often each definition is being read at the moment. */
  type Depth = multiset<nat>

  /** How many more times the definitions below `n` can be entered together. */
  function Budget(n: nat, d: Depth): nat {
    if n == 0 then 0
    else Budget(n - 1, d) + if d[n - 1] < LIMIT then LIMIT - d[n - 1] else 0
  }

  lemma {:induction false} BudgetMonotone(n: nat, d: Depth, later: Depth)
    requires d <= later
    ensures Budget(n, later) <= Budget(n, d)
  {
    if n > 0 {
      BudgetMonotone(n - 1, d, later);
    }
  }

  lemma {:induction false} BudgetEnter(n: nat, d: Depth, id: nat)
    requires id < n && d[id] < LIMIT
    ensures Budget(n, d + multiset{id}) < Budget(n, d)
  {
    if id == n - 1 {
      BudgetMonotone(n - 1, d, d + multiset{id});
    } else {
      BudgetEnter(n - 1, d, id);
    }
  }

  // ---------------------------------------------------------------- built-in types

  datatype Outcome = Fail | Ok(value: Value)

  /** What reading gives, and what is left to read afterwards. */
  datatype Simple = Simple(outcome: Outcome, rest: seq<string>)

  /** The first element of an OID block; `name(number)` counts as its number. */
  function NextElement(block: seq<string>): (r: (Option<string>, seq<string>))
    requires block != []
    ensures |r.1| < |block|
  {
    if |block| > 1 && block[1] == "(" then
      BlockShrinks(block[1..], "(", ")");
      var BlockResult(inner, rest) := BlockOf(block[1..], "(", ")");
      (if inner.None? || inner.value == [] then None else Some(inner.value[0]), rest)
    else (Some(block[0]), block[1..])
  }

  function OidElements(read: seq<string>, block: seq<string>): Option<seq<string>>
    decreases |block|
  {
    if block == [] then Some(read)
    else
      var (element, rest) := NextElement(block);
      if element.None? then None else OidElements(read + [element.value], rest)
  }

  function ReadOid(toks: seq<string>): Simple {
    if toks == [] then Simple(Fail, toks)
    else if toks[0] != "{" then Simple(Ok(ObjectId([toks[0]])), toks[1..])
    else
      var BlockResult(block, rest) := BlockOf(toks, "{", "}");
      if block.None? then Simple(Fail, rest)
      else
        match OidElements([], block.value)
        case Some(elements) => Simple(Ok(ObjectId(elements)), rest)
        case None => Simple(Fail, rest)
  }

  function ReadConstant(toks: seq<string>): Simple {
    if toks == [] then Simple(Fail, toks)
    else if toks[0] != "{" then Simple(Ok(Constant([toks[0]])), toks[1..])
    else
      var BlockResult(block, rest) := BlockOf(toks, "{", "}");
      Simple(if block.Some? then Ok(Constant(block.value)) else Fail, rest)
  }

  function ReadText(toks: seq<string>): Simple {
    if toks == [] then Simple(Fail, toks)
    else Simple(if TypeOf(toks[0]) == StringToken then Ok(Text(toks[0])) else Fail, toks[1..])
  }

  /** The tagging in front of a type. */
  function SkipTagging(toks: seq<string>): (r: BlockResult)
    ensures r.block.Some? ==> r.rest != []
  {
    if toks == [] then BlockResult(None, toks)
    else if toks[0] != "[" then BlockResult(Some([]), toks)
    else
      var BlockResult(block, rest) := BlockOf(toks, "[", "]");
      if block.None? || rest == [] then BlockResult(None, rest)
      else if rest[0] == "IMPLICIT" || rest[0] == "EXPLICIT" then
        if |rest| == 1 then BlockResult(None, []) else BlockResult(block, rest[1..])
      else BlockResult(block, rest)
  }

  function Closer(opener: string): Option<string> {
    if opener == "{" then Some("}")
    else if opener == "(" then Some(")")
    else if opener == "[" then Some("]")
    else None
  }

  function ReadTypeRef(toks: seq<string>): Simple {
    var BlockResult(tagging, rest) := SkipTagging(toks);
    if tagging.None? || TypeOf(rest[0]) != Ident then Simple(Fail, rest)
    else if rest[0] != "SEQUENCE OF" then ReadConstraint(rest[0], false, rest[1..])
    else if |rest| == 1 then Simple(Fail, [])
    else ReadConstraint(rest[1], true, rest[2..])
  }

  /** The bracketed constraint after the name of a type, if there is one; something has to follow the name. */
  function ReadConstraint(ident: string, sequenceOf: bool, toks: seq<string>): Simple {
    if toks == [] then Simple(Fail, toks)
    else
      match Closer(toks[0])
      case None => Simple(Ok(TypeRef(ident, sequenceOf, None)), toks)
      case Some(closer) =>
        var BlockResult(block, rest) := BlockOf(toks, toks[0], closer);
        Simple(if block.Some? then Ok(TypeRef(ident, sequenceOf, block)) else Fail, rest)
  }

  /** The types that are read without looking anything up. */
  predicate IsBuiltIn(ident: string) {
    ident in {"OBJECT IDENTIFIER", "IA5String", "value", "identifier", "type", "empty"}
  }

  function ReadBuiltIn(ident: string, toks: seq<string>): (r: Simple)
  {
    if ident == "OBJECT IDENTIFIER" then ReadOid(toks)
    else if ident == "IA5String" then ReadText(toks)
    else if ident == "value" then ReadConstant(toks)
    else if ident == "empty" then Simple(Ok(Nothing), toks)
    else ReadTypeRef(toks)
  }

  /** `rest` is what is left of `toks` when some tokens have been taken from the front. */
  predicate Leaves(toks: seq<string>, rest: seq<string>) {
    |rest| <= |toks| && rest == toks[|toks| - |rest|..]
  }

  lemma BlockLeaves(toks: seq<string>, start: string, end: string)
    ensures Leaves(toks, BlockOf(toks, start, end).rest)
  {
    BlockShrinks(toks, start, end);
  }

  lemma LeavesTransitive(a: seq<string>, b: seq<string>, c: seq<string>)
    requires Leaves(a, b) && Leaves(b, c)
    ensures Leaves(a, c)
  {
  }

  lemma TaggingLeaves(toks: seq<string>)
    ensures Leaves(toks, SkipTagging(toks).rest)
  {
    BlockLeaves(toks, "[", "]");
    var rest := BlockOf(toks, "[", "]").rest;
    if rest != [] {
      LeavesTransitive(toks, rest, rest[1..]);
    }
  }

  lemma ConstraintLeaves(ident: string, sequenceOf: bool, toks: seq<string>)
    ensures Leaves(toks, ReadConstraint(ident, sequenceOf, toks).rest)
  {
    if toks != [] && Closer(toks[0]).Some? {
      BlockLeaves(toks, toks[0], Closer(toks[0]).value);
    }
  }

  lemma TypeRefLeaves(toks: seq<string>)
    ensures Leaves(toks, ReadTypeRef(toks).rest)
  {
    TaggingLeaves(toks);
    var BlockResult(tagging, rest) := SkipTagging(toks);
    if tagging.Some? && TypeOf(rest[0]) == Ident {
      var n := if rest[0] == "SEQUENCE OF" then 2 else 1;
      if n <= |rest| {
        ConstraintLeaves(rest[n - 1], n == 2, rest[n..]);
        LeavesTransitive(rest, rest[n..], ReadConstraint(rest[n - 1], n == 2, rest[n..]).rest);
        LeavesTransitive(toks, rest, ReadConstraint(rest[n - 1], n == 2, rest[n..]).rest);
      }
    }
  }

  lemma BracedLeaves(toks: seq<string>)
    ensures Leaves(toks, ReadOid(toks).rest) && Leaves(toks, ReadConstant(toks).rest)
  {
    BlockLeaves(toks, "{", "}");
  }

  /** Built-in types are read off the front. */
  lemma BuiltInLeaves(ident: string, toks: seq<string>)
    ensures Leaves(toks, ReadBuiltIn(ident, toks).rest)
  {
    if ident == "OBJECT IDENTIFIER" || ident == "value" {
      BracedLeaves(toks);
    } else if ident != "IA5String" && ident != "empty" {
      TypeRefLeaves(toks);
    }
  }
}
