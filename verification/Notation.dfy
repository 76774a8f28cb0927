/** Which tokens the built-in types are read from. */
module Notation {
  import opened Basics
  import opened Blocks
  import opened Tokens
  import opened Grammar
  import opened Parsing

  // ---------------------------------------------------------------- object identifiers

  /** A token, or a token with something in parentheses behind it, the first token of which counts. */
  datatype Item = Item(name: string, inner: Option<seq<string>>)

  function PrintItem(item: Item): seq<string> {
    if item.inner.Some? then [item.name] + (["("] + item.inner.value + [")"]) else [item.name]
  }

  function PrintItems(items: seq<Item>): seq<string> {
    if items == [] then [] else PrintItem(items[0]) + PrintItems(items[1..])
  }

  ghost function Meaning(items: seq<Item>): seq<string>
    requires Items(items)
  {
    if items == [] then []
    else [if items[0].inner.Some? then items[0].inner.value[0] else items[0].name] + Meaning(items[1..])
  }

  /** Parentheses are balanced and not empty, and open behind a name only. */
  ghost predicate Items(items: seq<Item>) {
    items != [] ==>
      && (items[0].inner.Some? ==> items[0].inner.value != [] && Balanced(items[0].inner.value, "(", ")"))
      && (items[0].inner.None? && |items| > 1 ==> items[1].name != "(")
      && Items(items[1..])
  }

  lemma ItemIsNext(item: Item, later: seq<string>)
    requires item.inner.Some? ==> item.inner.value != [] && Balanced(item.inner.value, "(", ")")
    requires item.inner.None? && later != [] ==> later[0] != "("
    ensures NextElement(PrintItem(item) + later) ==
            (Some(if item.inner.Some? then item.inner.value[0] else item.name), later)
  {
    var block := PrintItem(item) + later;
    if item.inner.Some? {
      var inner := item.inner.value;
      assert block[1..] == ["("] + inner + [")"] + later;
      BalancedIsRead(block[1..], "(", ")", inner, later);
    } else {
      assert block[1..] == later;
    }
  }

  lemma PrintStarts(items: seq<Item>)
    ensures if items == [] then PrintItems(items) == [] else PrintItems(items) != [] && PrintItems(items)[0] == items[0].name
  {
  }

  lemma {:induction false} ItemsAreRead(read: seq<string>, items: seq<Item>)
    requires Items(items)
    ensures OidElements(read, PrintItems(items)) == Some(read + Meaning(items))
    decreases |items|
  {
    if items == [] {
      assert read + [] == read;
      return;
    }
    var later := PrintItems(items[1..]);
    PrintStarts(items[1..]);
    ItemIsNext(items[0], later);
    var e := if items[0].inner.Some? then items[0].inner.value[0] else items[0].name;
    ItemsAreRead(read + [e], items[1..]);
    assert read + [e] + Meaning(items[1..]) == read + Meaning(items);
  }

  /** An element that can be read is printed. */
  lemma NextIsItem(block: seq<string>) returns (item: Item)
    requires block != [] && NextElement(block).0.Some?
    ensures var (element, rest) := NextElement(block);
            && block == PrintItem(item) + rest
            && (item.inner.Some? ==> item.inner.value != [] && Balanced(item.inner.value, "(", ")") && element.value == item.inner.value[0])
            && (item.inner.None? ==> element.value == item.name && (rest != [] ==> rest[0] != "("))
  {
    if |block| > 1 && block[1] == "(" {
      var BlockResult(inner, rest) := BlockOf(block[1..], "(", ")");
      ReadIsBalanced(block[1..], "(", ")", inner.value, rest);
      item := Item(block[0], inner);
      assert block == [block[0]] + block[1..];
    } else {
      item := Item(block[0], None);
    }
  }

  lemma {:induction false} OnlyItemsAreRead(read: seq<string>, block: seq<string>) returns (items: seq<Item>)
    requires OidElements(read, block).Some?
    ensures Items(items) && block == PrintItems(items) && OidElements(read, block) == Some(read + Meaning(items))
    decreases |block|
  {
    items := [];
    if block == [] {
      assert read + [] == read;
      return;
    }
    var item := NextIsItem(block);
    var (element, rest) := NextElement(block);
    var later := OnlyItemsAreRead(read + [element.value], rest);
    items := [item] + later;
    PrintStarts(later);
    assert items[1..] == later;
    assert read + [element.value] + Meaning(later) == read + Meaning(items);
  }

  /** An object identifier: one token other than a brace, or braces with elements between them. */
  lemma OidIff(toks: seq<string>, elements: seq<string>, rest: seq<string>)
    ensures ReadBuiltIn("OBJECT IDENTIFIER", toks) == Simple(Ok(ObjectId(elements)), rest) <==>
            || (|elements| == 1 && elements[0] != "{" && toks == elements + rest)
            || (exists items :: Items(items) && Meaning(items) == elements && Balanced(PrintItems(items), "{", "}")
                                && toks == ["{"] + PrintItems(items) + ["}"] + rest)
  {
    if ReadBuiltIn("OBJECT IDENTIFIER", toks) == Simple(Ok(ObjectId(elements)), rest) {
      if toks[0] != "{" {
        assert toks == [toks[0]] + toks[1..];
      } else {
        var block := BlockOf(toks, "{", "}").block.value;
        ReadIsBalanced(toks, "{", "}", block, rest);
        var items := OnlyItemsAreRead([], block);
        assert [] + Meaning(items) == Meaning(items);
      }
    }
    if |elements| == 1 && elements[0] != "{" && toks == elements + rest {
      assert toks[0] == elements[0] && toks[1..] == rest && elements == [toks[0]];
    }
    if items :| Items(items) && Meaning(items) == elements && Balanced(PrintItems(items), "{", "}")
                && toks == ["{"] + PrintItems(items) + ["}"] + rest {
      BalancedIsRead(toks, "{", "}", PrintItems(items), rest);
      ItemsAreRead([], items);
      assert [] + Meaning(items) == Meaning(items);
    }
  }

  // ---------------------------------------------------------------- constants, texts, nothing

  /** A constant: one token other than a brace, or braces with anything balanced between them. */
  lemma ConstantIff(toks: seq<string>, elements: seq<string>, rest: seq<string>)
    ensures ReadBuiltIn("value", toks) == Simple(Ok(Constant(elements)), rest) <==>
            || (|elements| == 1 && elements[0] != "{" && toks == elements + rest)
            || (Balanced(elements, "{", "}") && toks == ["{"] + elements + ["}"] + rest)
  {
    if ReadBuiltIn("value", toks) == Simple(Ok(Constant(elements)), rest) {
      if toks[0] != "{" {
        assert toks == [toks[0]] + toks[1..];
      } else {
        ReadIsBalanced(toks, "{", "}", elements, rest);
      }
    }
    if |elements| == 1 && elements[0] != "{" && toks == elements + rest {
      assert toks[0] == elements[0] && toks[1..] == rest && elements == [toks[0]];
    }
    if Balanced(elements, "{", "}") && toks == ["{"] + elements + ["}"] + rest {
      BalancedIsRead(toks, "{", "}", elements, rest);
    }
  }

  /** A text: one token that starts with a quote. */
  lemma TextIff(toks: seq<string>, text: string, rest: seq<string>)
    ensures ReadBuiltIn("IA5String", toks) == Simple(Ok(Text(text)), rest) <==>
            toks == [text] + rest && text != "" && (text[0] == '"' || text[0] == '\'')
  {
    if toks != [] {
      assert toks == [toks[0]] + toks[1..];
    }
  }

  lemma EmptyReadsNothing(toks: seq<string>)
    ensures ReadBuiltIn("empty", toks) == Simple(Ok(Nothing), toks)
  {
  }

  /** The names that the interpreter knows itself. */
  lemma BuiltInIff(ident: string)
    ensures IsBuiltIn(ident) <==>
            || ident == "OBJECT IDENTIFIER" || ident == "IA5String" || ident == "value"
            || ident == "identifier" || ident == "type" || ident == "empty"
  {
  }

  // ---------------------------------------------------------------- types

  /** Brackets in front of a type, and a keyword between them and the type. */
  datatype Tagging = Untagged | Tagged(inside: seq<string>, keyword: Option<string>)

  function PrintTagging(t: Tagging): seq<string> {
    match t
    case Untagged => []
    case Tagged(inside, keyword) => ["["] + inside + ["]"] + (if keyword.Some? then [keyword.value] else [])
  }

  predicate IsOpener(text: string) {
    text == "{" || text == "(" || text == "["
  }

  datatype Bracketed = Bracketed(opener: string, closer: string, inside: seq<string>)

  predicate ArePair(opener: string, closer: string) {
    (opener == "{" && closer == "}") || (opener == "(" && closer == ")") || (opener == "[" && closer == "]")
  }

  function PrintConstraint(c: Option<Bracketed>): seq<string> {
    if c.None? then [] else [c.value.opener] + c.value.inside + [c.value.closer]
  }

  datatype TypeText = TypeText(tagging: Tagging, sequenceOf: bool, ident: string, constraint: Option<Bracketed>)

  function PrintName(t: TypeText): seq<string> {
    if t.sequenceOf then ["SEQUENCE OF", t.ident] else [t.ident]
  }

  function PrintType(t: TypeText): seq<string> {
    PrintTagging(t.tagging) + (PrintName(t) + PrintConstraint(t.constraint))
  }

  /** What a type looks like in front of `rest`, which cannot be empty where a constraint could follow. */
  ghost predicate IsType(t: TypeText, rest: seq<string>) {
    && (t.tagging.Tagged? ==>
          && Balanced(t.tagging.inside, "[", "]")
          && (if t.tagging.keyword.Some? then t.tagging.keyword.value == "IMPLICIT" || t.tagging.keyword.value == "EXPLICIT"
              else PrintName(t)[0] != "IMPLICIT" && PrintName(t)[0] != "EXPLICIT"))
    && (t.sequenceOf || (TypeOf(t.ident) == Ident && t.ident != "SEQUENCE OF"))
    && (if t.constraint.Some? then
          ArePair(t.constraint.value.opener, t.constraint.value.closer)
          && Balanced(t.constraint.value.inside, t.constraint.value.opener, t.constraint.value.closer)
        else rest != [] && !IsOpener(rest[0]))
  }

  function ConstraintOf(t: TypeText): Option<seq<string>> {
    if t.constraint.Some? then Some(t.constraint.value.inside) else None
  }

  lemma NameIsIdent(t: TypeText, rest: seq<string>)
    requires IsType(t, rest)
    ensures TypeOf(PrintName(t)[0]) == Ident && PrintName(t)[0] != "["
  {
  }

  lemma TaggingIsSkipped(t: Tagging, toks: seq<string>)
    requires toks != [] && toks[0] != "["
    requires t.Tagged? ==> Balanced(t.inside, "[", "]")
    requires t.Tagged? && t.keyword.Some? ==> t.keyword.value == "IMPLICIT" || t.keyword.value == "EXPLICIT"
    requires t.Tagged? && t.keyword.None? ==> toks[0] != "IMPLICIT" && toks[0] != "EXPLICIT"
    ensures SkipTagging(PrintTagging(t) + toks).block.Some? && SkipTagging(PrintTagging(t) + toks).rest == toks
  {
    if t.Untagged? {
      assert PrintTagging(t) + toks == toks;
    } else {
      var behind := (if t.keyword.Some? then [t.keyword.value] else []) + toks;
      assert PrintTagging(t) + toks == ["["] + t.inside + ["]"] + behind;
      BalancedIsRead(PrintTagging(t) + toks, "[", "]", t.inside, behind);
      assert t.keyword.Some? ==> behind[1..] == toks;
    }
  }

  lemma ConstraintIsRead(ident: string, sequenceOf: bool, c: Option<Bracketed>, rest: seq<string>)
    requires c.Some? ==> ArePair(c.value.opener, c.value.closer) && Balanced(c.value.inside, c.value.opener, c.value.closer)
    requires c.None? ==> rest != [] && !IsOpener(rest[0])
    ensures ReadConstraint(ident, sequenceOf, PrintConstraint(c) + rest) ==
            Simple(Ok(TypeRef(ident, sequenceOf, if c.Some? then Some(c.value.inside) else None)), rest)
  {
    var toks := PrintConstraint(c) + rest;
    if c.Some? {
      BalancedIsRead(toks, c.value.opener, c.value.closer, c.value.inside, rest);
    } else {
      assert toks == rest;
    }
  }

  /** What is printed as a type is read as one. */
  lemma TypeIsRead(ident: string, t: TypeText, rest: seq<string>)
    requires (ident == "type" || ident == "identifier") && IsType(t, rest)
    ensures ReadBuiltIn(ident, PrintType(t) + rest) == Simple(Ok(TypeRef(t.ident, t.sequenceOf, ConstraintOf(t))), rest)
  {
    var behind := PrintConstraint(t.constraint) + rest;
    var named := PrintName(t) + behind;
    NameIsIdent(t, rest);
    PutTogether(t, named, behind, rest);
    TaggingIsSkipped(t.tagging, named);
    NamedIsRead(t, behind);
    BehindTagging(PrintTagging(t.tagging) + named, named, if t.sequenceOf then 2 else 1);
    ConstraintIsRead(t.ident, t.sequenceOf, t.constraint, rest);
  }

  lemma BehindTagging(toks: seq<string>, named: seq<string>, n: nat)
    requires SkipTagging(toks).block.Some? && SkipTagging(toks).rest == named && named != [] && TypeOf(named[0]) == Ident
    requires n == (if named[0] == "SEQUENCE OF" then 2 else 1) && n <= |named|
    ensures ReadTypeRef(toks) == ReadConstraint(named[n - 1], n == 2, named[n..])
  {
  }

  lemma NamedIsRead(t: TypeText, behind: seq<string>)
    requires t.sequenceOf || t.ident != "SEQUENCE OF"
    ensures var named, n := PrintName(t) + behind, if t.sequenceOf then 2 else 1;
            && n <= |named| && named[n - 1] == t.ident && named[n..] == behind && (named[0] == "SEQUENCE OF" <==> t.sequenceOf)
            && named[0] == PrintName(t)[0]
  {
  }

  lemma TaggedText(inside: seq<string>, keyword: Option<string>, behind: seq<string>)
    ensures PrintTagging(Tagged(inside, keyword)) + behind ==
            ["["] + inside + ["]"] + ((if keyword.Some? then [keyword.value] else []) + behind)
  {
  }

  lemma TaggingOf(toks: seq<string>) returns (t: Tagging)
    requires SkipTagging(toks).block.Some?
    ensures toks == PrintTagging(t) + SkipTagging(toks).rest
    ensures t.Tagged? ==> Balanced(t.inside, "[", "]")
    ensures t.Tagged? && t.keyword.Some? ==> t.keyword.value == "IMPLICIT" || t.keyword.value == "EXPLICIT"
    ensures t.Tagged? && t.keyword.None? ==> SkipTagging(toks).rest[0] != "IMPLICIT" && SkipTagging(toks).rest[0] != "EXPLICIT"
  {
    if toks[0] != "[" {
      return Untagged;
    }
    var BlockResult(block, rest) := BlockOf(toks, "[", "]");
    ReadIsBalanced(toks, "[", "]", block.value, rest);
    var keyword := if rest[0] == "IMPLICIT" || rest[0] == "EXPLICIT" then Some(rest[0]) else None;
    t := Tagged(block.value, keyword);
    var behind := SkipTagging(toks).rest;
    TaggedText(block.value, keyword, behind);
    assert rest == (if keyword.Some? then [keyword.value] else []) + behind;
  }

  lemma ConstraintOfRest(ident: string, sequenceOf: bool, toks: seq<string>) returns (c: Option<Bracketed>)
    requires ReadConstraint(ident, sequenceOf, toks).outcome.Ok?
    ensures var r := ReadConstraint(ident, sequenceOf, toks);
            && toks == PrintConstraint(c) + r.rest
            && r.outcome == Ok(TypeRef(ident, sequenceOf, if c.Some? then Some(c.value.inside) else None))
            && (c.Some? ==> ArePair(c.value.opener, c.value.closer) && Balanced(c.value.inside, c.value.opener, c.value.closer))
            && (c.None? ==> r.rest != [] && !IsOpener(r.rest[0]))
  {
    if Closer(toks[0]).None? {
      return None;
    }
    var closer := Closer(toks[0]).value;
    var BlockResult(block, rest) := BlockOf(toks, toks[0], closer);
    ReadIsBalanced(toks, toks[0], closer, block.value, rest);
    c := Some(Bracketed(toks[0], closer, block.value));
  }

  lemma TypeRefSteps(toks: seq<string>) returns (named: seq<string>, n: nat)
    requires ReadTypeRef(toks).outcome.Ok?
    ensures SkipTagging(toks).block.Some? && named == SkipTagging(toks).rest && named != [] && TypeOf(named[0]) == Ident
    ensures n == (if named[0] == "SEQUENCE OF" then 2 else 1) && n <= |named|
    ensures ReadTypeRef(toks) == ReadConstraint(named[n - 1], n == 2, named[n..])
  {
    named := SkipTagging(toks).rest;
    n := if named[0] == "SEQUENCE OF" then 2 else 1;
  }

  lemma PutTogether(t: TypeText, named: seq<string>, behind: seq<string>, rest: seq<string>)
    requires named == PrintName(t) + behind && behind == PrintConstraint(t.constraint) + rest
    ensures PrintTagging(t.tagging) + named == PrintType(t) + rest
    ensures named != [] && PrintName(t)[0] == named[0]
  {
  }

  lemma SplitName(named: seq<string>, n: nat)
    requires n <= |named| && 1 <= n <= 2
    ensures n == 1 ==> named == [named[0]] + named[1..]
    ensures n == 2 ==> named == [named[0], named[1]] + named[2..]
  {
  }

  /** Nothing else is. */
  lemma OnlyTypesAreRead(ident: string, toks: seq<string>) returns (t: TypeText)
    requires (ident == "type" || ident == "identifier") && ReadBuiltIn(ident, toks).outcome.Ok?
    ensures var r := ReadBuiltIn(ident, toks);
            && IsType(t, r.rest) && toks == PrintType(t) + r.rest
            && r.outcome == Ok(TypeRef(t.ident, t.sequenceOf, ConstraintOf(t)))
  {
    assert ReadBuiltIn(ident, toks) == ReadTypeRef(toks);
    var named, n := TypeRefSteps(toks);
    var tagging := TaggingOf(toks);
    var c := ConstraintOfRest(named[n - 1], n == 2, named[n..]);
    t := TypeText(tagging, n == 2, named[n - 1], c);
    SplitName(named, n);
    PutTogether(t, named, named[n..], ReadTypeRef(toks).rest);
  }

  // ---------------------------------------------------------------- tokens, limits and scopes

  /** An expected token is itself; ACCESS also does for MAX-ACCESS. */
  lemma ExpectedIff(g: Grammar, ctx: Context, d: Depth, text: string, toks: seq<string>)
    ensures var r := Parse(g, ctx, d, Expected(text), toks);
            && (r.outcome.Ok? <==> toks != [] && (toks[0] == text || (toks[0] == "ACCESS" && text == "MAX-ACCESS")))
            && (r.outcome.Ok? ==> r == Parsed(Ok(Nothing), toks[1..], d, multiset{}))
            && (r.outcome.Fail? ==> r == Parsed(Fail, toks, d, multiset{}))
  {
  }

  /** A definition can be entered a hundred times, and not once more. */
  lemma HundredDeep(g: Grammar, ctx: Context, d: Depth, node: Node, toks: seq<string>)
    requires NodeOk(g.ids, node) && (node.Sequence? || node.Reference?)
    ensures d[node.id] >= 100 ==> Parse(g, ctx, d, node, toks) == Parsed(Fail, toks, d + multiset{node.id}, multiset{node.id})
    ensures d[node.id] < 100 && node == Reference(node.id, "empty", false) ==>
              Parse(g, ctx, d, node, toks) == Parsed(Ok(Nothing), toks, d, multiset{})
  {
    if d[node.id] < 100 && node == Reference(node.id, "empty", false) {
      var entered := d + multiset{node.id};
      assert ParseOne(g, ctx, entered, node, toks) == Parsed(Ok(Nothing), toks, entered, multiset{});
      assert entered - multiset{node.id} == d;
    }
  }

  lemma ReferenceReads(g: Grammar, ctx: Context, d: Depth, id: nat, name: string, toks: seq<string>)
    requires id < g.ids && d[id] < 100 && !IsBuiltIn(name) && Find(g, ctx, name).Some?
    ensures var r := Parse(g, ctx, d, Reference(id, name, false), toks);
            var own := Parse(g, ctx, d + multiset{id}, Find(g, ctx, name).value, toks);
            r.outcome == own.outcome && r.rest == own.rest && r.hits == own.hits
  {
    var node, entered := Reference(id, name, false), d + multiset{id};
    BudgetEnter(g.ids, d, id);
    assert ParseEntered(g, ctx, entered, node, toks) == ParseOne(g, ctx, entered, node, toks);
  }

  lemma InnermostIs(g: Grammar, ctx: Context, scope: nat, name: string)
    requires Defines(g, scope, name)
    ensures Find(g, [scope] + ctx, name) == Some(g.scopes[scope][name])
  {
  }

  /** A name in the notation of a macro means what the macro itself defines. */
  lemma OwnNamesFirst(g: Grammar, ctx: Context, d: Depth, fields: nat, id: nat, name: string, toks: seq<string>)
    requires id < g.ids && d[id] < 100 && !IsBuiltIn(name) && Defines(g, fields, name)
    ensures var r := Parse(g, ctx, d, Macro(fields, Some(Reference(id, name, false))), toks);
            var own := Parse(g, [fields] + ctx, d + multiset{id}, g.scopes[fields][name], toks);
            r.outcome == own.outcome && r.rest == own.rest && r.hits == own.hits
  {
    InnermostIs(g, ctx, fields, name);
    ReferenceReads(g, [fields] + ctx, d, id, name, toks);
  }
}
