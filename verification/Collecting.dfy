/** What a sequence collects from the values of its parts. */
module Collecting {
  import opened Basics
  import opened Grammar
  import opened Parsing
  import Decimals

  /** A value that takes a key of its own: neither empty nor composite. */
  predicate Plain(values: seq<Value>, j: nat) {
    j < |values| && !values[j].Nothing? && !values[j].Composite?
  }

  /** An expected token that starts with a letter, read as such. */
  predicate Keyword(pattern: seq<Node>, values: seq<Value>, k: nat) {
    && k < |values| <= |pattern| && values[k].Nothing? && pattern[k].Expected? && pattern[k].text != ""
    && ('a' <= pattern[k].text[0] <= 'z' || 'A' <= pattern[k].text[0] <= 'Z')
  }

  /** In front of part `j`, the `k`th part is the last keyword, and has no value yet. */
  ghost predicate Pending(pattern: seq<Node>, values: seq<Value>, k: nat, j: nat) {
    && k < j && Keyword(pattern, values, k)
    && forall t :: k < t < j ==> !Keyword(pattern, values, t) && !Plain(values, t)
  }

  /** The key of a plain value: the keyword that has none yet, or else its index. */
  ghost predicate HasKey(pattern: seq<Node>, values: seq<Value>, j: nat, key: string) {
    || (exists k: nat :: Pending(pattern, values, k, j) && pattern[k].text == key)
    || (key == NatToString(j) && forall k: nat :: !Pending(pattern, values, k, j))
  }

  /** Part `j` gives `key` a value. */
  ghost predicate Sets(pattern: seq<Node>, values: seq<Value>, j: nat, key: string) {
    && j < |values|
    && if values[j].Composite? then key in values[j].fields else Plain(values, j) && HasKey(pattern, values, j, key)
  }

  ghost predicate SetsLast(pattern: seq<Node>, values: seq<Value>, j: nat, key: string) {
    Sets(pattern, values, j, key) && forall l: nat :: j < l ==> !Sets(pattern, values, l, key)
  }

  /** The value that part `j` gives `key`. */
  ghost function Given(v: Value, key: string): Value {
    if v.Composite? && key in v.fields then v.fields[key] else v
  }

  /** The fields are those that some part sets, each as the last of these parts sets it. */
  ghost predicate Fields(pattern: seq<Node>, values: seq<Value>, fields: map<string, Value>) {
    && (forall key :: key in fields ==> exists j: nat :: SetsLast(pattern, values, j, key))
    && (forall key, j: nat {:trigger SetsLast(pattern, values, j, key)} :: SetsLast(pattern, values, j, key) ==>
          key in fields && fields[key] == Given(values[j], key))
  }

  ghost predicate NothingSet(pattern: seq<Node>, values: seq<Value>) {
    forall key, j: nat :: !Sets(pattern, values, j, key)
  }

  /**
   * What a sequence gives: the fields that its parts set; or, when they set none, the keyword that is
   * left without a value, if there is one.
   */
  ghost predicate Collects(pattern: seq<Node>, values: seq<Value>, v: Value) {
    if NothingSet(pattern, values) && exists k: nat :: Pending(pattern, values, k, |values|) then
      exists k: nat :: Pending(pattern, values, k, |values|) && v == Text(pattern[k].text)
    else
      v.Composite? && Fields(pattern, values, v.fields)
  }

  /** The parts added one after the other. */
  function Added(pattern: seq<Node>, values: seq<Value>): Building
    requires |values| <= |pattern|
  {
    if values == [] then Building(map[], "")
    else
      var n := |values| - 1;
      AddPart(Added(pattern, values[..n]), n, pattern[n], values[n])
  }

  // ---------------------------------------------------------------- one more value

  lemma PendingMore(pattern: seq<Node>, values: seq<Value>, v: Value, k: nat, j: nat)
    requires |values| < |pattern| && j <= |values|
    ensures Pending(pattern, values + [v], k, j) <==> Pending(pattern, values, k, j)
  {
    var more := values + [v];
    assert forall t: nat :: t < j ==> more[t] == values[t];
    assert forall t: nat :: t < j ==> (Keyword(pattern, more, t) <==> Keyword(pattern, values, t));
    assert forall t: nat :: t < j ==> (Plain(more, t) <==> Plain(values, t));
  }

  /** One more value does not change what the earlier ones set. */
  lemma SetsMore(pattern: seq<Node>, values: seq<Value>, v: Value, j: nat, key: string)
    requires |values| < |pattern| && j < |values|
    ensures Sets(pattern, values + [v], j, key) <==> Sets(pattern, values, j, key)
  {
    forall k: nat
      ensures Pending(pattern, values + [v], k, j) <==> Pending(pattern, values, k, j)
    {
      PendingMore(pattern, values, v, k, j);
    }
    assert (values + [v])[j] == values[j];
  }

  /** What is pending behind one more value. */
  lemma PendingBehind(pattern: seq<Node>, values: seq<Value>, v: Value, k: nat)
    requires |values| < |pattern|
    ensures var n, more := |values|, values + [v];
            Pending(pattern, more, k, n + 1) <==>
              if Keyword(pattern, more, n) then k == n
              else !Plain(more, n) && Pending(pattern, values, k, n)
  {
    var n, more := |values|, values + [v];
    PendingMore(pattern, values, v, k, n);
  }

  /** The keyword that is left, if any. */
  ghost predicate Left(pattern: seq<Node>, values: seq<Value>, lastName: string) {
    if lastName == "" then forall k: nat :: !Pending(pattern, values, k, |values|)
    else exists k: nat :: Pending(pattern, values, k, |values|) && pattern[k].text == lastName
  }

  lemma OnePending(pattern: seq<Node>, values: seq<Value>, j: nat, a: nat, b: nat)
    requires Pending(pattern, values, a, j) && Pending(pattern, values, b, j)
    ensures a == b
  {
  }

  lemma LeftStep(pattern: seq<Node>, values: seq<Value>, v: Value, b: Building)
    requires |values| < |pattern| && Left(pattern, values, b.lastName)
    ensures Left(pattern, values + [v], AddPart(b, |values|, pattern[|values|], v).lastName)
  {
    var n, more := |values|, values + [v];
    forall k: nat
      ensures Pending(pattern, more, k, |more|) <==>
              if Keyword(pattern, more, n) then k == n else !Plain(more, n) && Pending(pattern, values, k, n)
    {
      PendingBehind(pattern, values, v, k);
    }
    assert more[n] == v;
    var later := AddPart(b, n, pattern[n], v);
    if later.lastName == "" {
      return;
    }
    if Keyword(pattern, more, n) {
      assert Pending(pattern, more, n, |more|);
    } else {
      var k: nat :| Pending(pattern, values, k, n) && pattern[k].text == b.lastName;
      assert Pending(pattern, more, k, |more|);
    }
  }

  /** The key of a plain value behind the others. */
  lemma KeyStep(pattern: seq<Node>, values: seq<Value>, v: Value, lastName: string, key: string)
    requires |values| < |pattern| && Left(pattern, values, lastName)
    ensures HasKey(pattern, values + [v], |values|, key) <==> key == if lastName != "" then lastName else NatToString(|values|)
  {
    var n, more := |values|, values + [v];
    forall k: nat
      ensures Pending(pattern, more, k, n) <==> Pending(pattern, values, k, n)
    {
      PendingMore(pattern, values, v, k, n);
    }
    if lastName != "" {
      var k: nat :| Pending(pattern, values, k, n) && pattern[k].text == lastName;
      forall l: nat | Pending(pattern, more, l, n)
        ensures l == k
      {
        OnePending(pattern, values, n, k, l);
      }
      assert Pending(pattern, more, k, n);
    }
  }

  /** The last part sets what it sets, and the others what they set before, unless it does. */
  lemma SetsLastStep(pattern: seq<Node>, values: seq<Value>, v: Value, j: nat, key: string)
    requires |values| < |pattern|
    ensures var n, more := |values|, values + [v];
            SetsLast(pattern, more, j, key) <==>
              if j == n then Sets(pattern, more, n, key) else SetsLast(pattern, values, j, key) && !Sets(pattern, more, n, key)
  {
    var n, more := |values|, values + [v];
    forall l: nat | l < n
      ensures Sets(pattern, more, l, key) <==> Sets(pattern, values, l, key)
    {
      SetsMore(pattern, values, v, l, key);
    }
  }

  lemma FieldsStep(pattern: seq<Node>, values: seq<Value>, v: Value, b: Building)
    requires |values| < |pattern| && Left(pattern, values, b.lastName) && Fields(pattern, values, b.fields)
    ensures Fields(pattern, values + [v], AddPart(b, |values|, pattern[|values|], v).fields)
  {
    var n, more := |values|, values + [v];
    var fields := AddPart(b, n, pattern[n], v).fields;
    forall key
      ensures Sets(pattern, more, n, key) <==>
              if v.Composite? then key in v.fields
              else !v.Nothing? && key == if b.lastName != "" then b.lastName else NatToString(n)
    {
      KeyStep(pattern, values, v, b.lastName, key);
    }
    forall key, j: nat
      ensures SetsLast(pattern, more, j, key) <==>
              if j == n then Sets(pattern, more, n, key) else SetsLast(pattern, values, j, key) && !Sets(pattern, more, n, key)
    {
      SetsLastStep(pattern, values, v, j, key);
    }
    forall key | key in fields
      ensures exists j: nat :: SetsLast(pattern, more, j, key)
    {
      if Sets(pattern, more, n, key) {
        assert SetsLast(pattern, more, n, key);
      } else {
        var j: nat :| SetsLast(pattern, values, j, key);
        assert SetsLast(pattern, more, j, key);
      }
    }
    forall key, j: nat | SetsLast(pattern, more, j, key)
      ensures key in fields && fields[key] == Given(more[j], key)
    {
      if j < n {
        assert more[j] == values[j];
      }
    }
  }

  /** The parts added one after the other are what the fields and the last keyword should be. */
  lemma {:induction false} AddedIs(pattern: seq<Node>, values: seq<Value>)
    requires |values| <= |pattern|
    ensures Left(pattern, values, Added(pattern, values).lastName) && Fields(pattern, values, Added(pattern, values).fields)
  {
    if values != [] {
      var n := |values| - 1;
      var front := values[..n];
      AddedIs(pattern, front);
      assert values == front + [values[n]];
      LeftStep(pattern, front, values[n], Added(pattern, front));
      FieldsStep(pattern, front, values[n], Added(pattern, front));
    }
  }

  /** So a sequence gives just what it should collect. */
  lemma FinishCollects(pattern: seq<Node>, values: seq<Value>)
    requires |values| == |pattern|
    ensures Collects(pattern, values, Finish(Added(pattern, values)))
  {
    var b := Added(pattern, values);
    AddedIs(pattern, values);
    if b.fields == map[] {
      NoFields(pattern, values);
    } else {
      var key :| key in b.fields;
      var j: nat :| SetsLast(pattern, values, j, key);
      assert Sets(pattern, values, j, key);
    }
  }

  lemma NoFields(pattern: seq<Node>, values: seq<Value>)
    requires Fields(pattern, values, map[])
    ensures NothingSet(pattern, values)
  {
    if key, j: nat :| Sets(pattern, values, j, key) {
      LastSets(pattern, values, j, key);
    }
  }

  lemma {:induction false} LastSets(pattern: seq<Node>, values: seq<Value>, j: nat, key: string)
    requires Sets(pattern, values, j, key)
    ensures exists l: nat :: SetsLast(pattern, values, l, key)
    decreases |values| - j
  {
    if !SetsLast(pattern, values, j, key) {
      var l: nat :| j < l && Sets(pattern, values, l, key);
      LastSets(pattern, values, l, key);
    }
  }

  // ---------------------------------------------------------------- what the interpreter collects

  /** The parts of a sequence from the `i`th on, read one after the other, give these values. */
  ghost predicate Consecutive(g: Grammar, ctx: Context, d: Depth, node: Node, i: nat, toks: seq<string>, values: seq<Value>, rest: seq<string>)
    requires NodeOk(g.ids, node) && node.Sequence? && i <= |node.pattern|
    decreases |node.pattern| - i
  {
    if i == |node.pattern| || values == [] then i == |node.pattern| && values == [] && rest == toks
    else
      var r := Parse(g, ctx, d, node.pattern[i], toks);
      r.outcome == Ok(values[0]) && Consecutive(g, ctx, r.depth, node, i + 1, r.rest, values[1..], rest)
  }

  lemma AddedMore(pattern: seq<Node>, done: seq<Value>, v: Value)
    requires |done| < |pattern|
    ensures Added(pattern, done + [v]) == AddPart(Added(pattern, done), |done|, pattern[|done|], v)
  {
    assert (done + [v])[..|done|] == done;
  }

  lemma ConsecutiveMore(g: Grammar, ctx: Context, d: Depth, node: Node, i: nat, toks: seq<string>, v: Value, later: seq<Value>, rest: seq<string>)
    requires NodeOk(g.ids, node) && node.Sequence? && i < |node.pattern|
    requires var r := Parse(g, ctx, d, node.pattern[i], toks);
             r.outcome == Ok(v) && Consecutive(g, ctx, r.depth, node, i + 1, r.rest, later, rest)
    ensures Consecutive(g, ctx, d, node, i, toks, [v] + later, rest)
  {
    assert ([v] + later)[1..] == later;
  }

  lemma InBetween(done: seq<Value>, v: Value, later: seq<Value>)
    ensures done + [v] + later == done + ([v] + later)
  {
  }

  lemma {:induction false} PartsAreAdded(g: Grammar, ctx: Context, d: Depth, node: Node, done: seq<Value>, toks: seq<string>)
    returns (values: seq<Value>)
    requires NodeOk(g.ids, node) && node.Sequence? && |done| <= |node.pattern|
    requires ParseSequence(g, ctx, d, node, |done|, Added(node.pattern, done), toks).outcome.Ok?
    ensures var r := ParseSequence(g, ctx, d, node, |done|, Added(node.pattern, done), toks);
            && |done| + |values| == |node.pattern| && r.outcome == Ok(Finish(Added(node.pattern, done + values)))
            && Consecutive(g, ctx, d, node, |done|, toks, values, r.rest)
    decreases |node.pattern| - |done|
  {
    values := [];
    if |done| == |node.pattern| {
      assert done + [] == done;
      return;
    }
    var r := Parse(g, ctx, d, node.pattern[|done|], toks);
    var v := r.outcome.value;
    AddedMore(node.pattern, done, v);
    var later := PartsAreAdded(g, ctx, r.depth, node, done + [v], r.rest);
    values := [v] + later;
    InBetween(done, v, later);
    ConsecutiveMore(g, ctx, d, node, |done|, toks, v, later,
                    ParseSequence(g, ctx, d, node, |done|, Added(node.pattern, done), toks).rest);
  }

  /** A sequence that is read gives what its parts, read one after the other in its own scope, are to be collected to. */
  lemma SequenceCollects(g: Grammar, ctx: Context, d: Depth, node: Node, toks: seq<string>) returns (values: seq<Value>)
    requires NodeOk(g.ids, node) && node.Sequence? && Parse(g, ctx, d, node, toks).outcome.Ok?
    ensures var r := Parse(g, ctx, d, node, toks);
            var inner := if node.scope.Some? then [node.scope.value] + ctx else ctx;
            && |values| == |node.pattern| && Collects(node.pattern, values, r.outcome.value)
            && Consecutive(g, inner, d + multiset{node.id}, node, 0, toks, values, r.rest)
  {
    var inner := if node.scope.Some? then [node.scope.value] + ctx else ctx;
    values := PartsAreAdded(g, inner, d + multiset{node.id}, node, [], toks);
    assert [] + values == values;
    FinishCollects(node.pattern, values);
  }
}
