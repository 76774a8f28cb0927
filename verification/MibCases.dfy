/** Modules on which compilation depends on the order of visiting, or does more than one pass can. */
module MibCases {
  import opened Basics
  import opened MibResolve
  import opened MibCompile
  import opened MibPasses
  import opened MibLevels

  ghost predicate Fresh(env: Modules, memo: Memo) {
    memo.Keys == Objects(env) && forall o :: o in memo ==> memo[o] == []
  }

  // ---------------------------------------------------------------- giving up too soon

  /**
   * Module A imports `b2` and defines `p ::= { 1 }`, `a1 ::= { p 1 }` and `a2 ::= { b2 1 }`;
   * module B imports `a1` and defines `q ::= { a1 5 }` and `b2 ::= { q 2 }`.
   */
  function MutualModules(p: Object, a1: Object, a2: Object, q: Object, b2: Object): Modules {
    map[
      BUILTIN := Scope(map[], map[]),
      "A" := Scope(map["b2" := "B"], map["p" := ObjectDef(p), "a1" := ObjectDef(a1), "a2" := ObjectDef(a2)]),
      "B" := Scope(map["a1" := "A"], map["q" := ObjectDef(q), "b2" := ObjectDef(b2)])
    ]
  }

  ghost predicate MutualCase(p: Object, a1: Object, a2: Object, q: Object, b2: Object, rank: Object -> nat) {
    && p.elements == [Number(1)] && a1.elements == [Name("p"), Number(1)] && a2.elements == [Name("b2"), Number(1)]
    && q.elements == [Name("a1"), Number(5)] && b2.elements == [Name("q"), Number(2)]
    && rank(p) < rank(a1) < rank(q) < rank(b2) < rank(a2)
  }

  lemma MutualLookups(p: Object, a1: Object, a2: Object, q: Object, b2: Object)
    ensures var env := MutualModules(p, a1, a2, q, b2);
            && Objects(env) == {p, a1, a2, q, b2}
            && Lookup(env, "A", "p") == Some(("A", ObjectDef(p))) && Lookup(env, "B", "p") == None
            && Lookup(env, "A", "a1") == Some(("A", ObjectDef(a1))) == Lookup(env, "B", "a1")
            && Lookup(env, "A", "q") == None && Lookup(env, "B", "q") == Some(("B", ObjectDef(q)))
            && Lookup(env, "A", "b2") == Some(("B", ObjectDef(b2))) == Lookup(env, "B", "b2")
            && forall name :: Lookup(env, BUILTIN, name) == None
  {
    var env := MutualModules(p, a1, a2, q, b2);
    var a, b := env["A"].definitions, env["B"].definitions;
    assert "p" in a && "a1" in a && "a2" in a && "q" in b && "b2" in b;
    assert {p, a1, a2, q, b2} <= Objects(env);
  }

  lemma MutualResolves(p: Object, a1: Object, a2: Object, q: Object, b2: Object, rank: Object -> nat, m: string, o: Object)
    requires MutualCase(p, a1, a2, q, b2, rank) && Owns(MutualModules(p, a1, a2, q, b2), m, o)
    ensures ResolvesAt(MutualModules(p, a1, a2, q, b2), rank, m, o)
  {
    var env := MutualModules(p, a1, a2, q, b2);
    MutualLookups(p, a1, a2, q, b2);
    var key :| key in env[m].definitions && env[m].definitions[key] == ObjectDef(o);
    if m == "A" {
      assert o == p || o == a1 || o == a2;
    } else {
      assert o == q || o == b2;
    }
  }

  lemma MutualAgrees(p: Object, a1: Object, a2: Object, q: Object, b2: Object, a: string, b: string, e: string)
    requires var env := MutualModules(p, a1, a2, q, b2); a in env && b in env
    requires e in {"p", "a1", "q", "b2"}
    ensures Agree(MutualModules(p, a1, a2, q, b2), a, b, e)
  {
    MutualLookups(p, a1, a2, q, b2);
    if a == b || a == BUILTIN || b == BUILTIN {
      return;
    }
    assert (a == "A" && b == "B") || (a == "B" && b == "A");
  }

  lemma MutualIsLexical(p: Object, a1: Object, a2: Object, q: Object, b2: Object, rank: Object -> nat)
    requires MutualCase(p, a1, a2, q, b2, rank)
    ensures Lexical(MutualModules(p, a1, a2, q, b2), rank)
  {
    var env := MutualModules(p, a1, a2, q, b2);
    MutualLookups(p, a1, a2, q, b2);
    forall m, o | m in env && o in Objects(env) && Owns(env, m, o)
      ensures ResolvesAt(env, rank, m, o)
    {
      MutualResolves(p, a1, a2, q, b2, rank, m, o);
    }
    forall a, b, o, e | a in env && b in env && o in Objects(env) && Name(e) in o.elements
      ensures Agree(env, a, b, e)
    {
      MutualAgrees(p, a1, a2, q, b2, a, b, e);
    }
  }

  /** A definition with one name and one number behind it. */
  lemma NameAndNumber(env: Modules, rank: Object -> nat, root: string, memo: Memo, o: Object, name: string, n: int64)
    requires root in env && o.elements == [Name(name), Number(n)] && !Known(memo, o)
    ensures var r := CompileName(env, rank, root, memo, o, name);
            Compile(env, rank, root, memo, o) ==
            if r.oid.None? then r else Compiled(Some(r.oid.value + [n]), r.memo[o := r.oid.value + [n]])
  {
    var first := CompilePrefix(env, rank, root, memo, o, 0);
    assert CompilePrefix(env, rank, root, memo, o, 1) == CompileName(env, rank, root, memo, o, name);
  }

  lemma NumberAlone(env: Modules, rank: Object -> nat, root: string, memo: Memo, o: Object, n: int64)
    requires root in env && o.elements == [Number(n)] && !Known(memo, o)
    ensures Compile(env, rank, root, memo, o) == Compiled(Some([n]), memo[o := [n]])
  {
    assert CompilePrefix(env, rank, root, memo, o, 0) == Compiled(Some([]), memo);
    assert [] + [n] == [n];
  }

  /** What module A gets done before it fails at `a2`, whose names it does not see. */
  function HalfWay(memo: Memo, p: Object, a1: Object): Memo {
    memo[p := [1]][a1 := [1, 1]]
  }

  function Whole(memo: Memo, p: Object, a1: Object, q: Object, b2: Object): Memo {
    HalfWay(memo, p, a1)[q := [1, 1, 5]][b2 := [1, 1, 5, 2]]
  }

  lemma FirstOfA(p: Object, a1: Object, a2: Object, q: Object, b2: Object, rank: Object -> nat, memo: Memo)
    requires MutualCase(p, a1, a2, q, b2, rank) && Fresh(MutualModules(p, a1, a2, q, b2), memo)
    ensures var env := MutualModules(p, a1, a2, q, b2);
            && Compile(env, rank, "A", memo, p) == Compiled(Some([1]), memo[p := [1]])
            && Compile(env, rank, "A", memo[p := [1]], a1) == Compiled(Some([1, 1]), HalfWay(memo, p, a1))
  {
    var env := MutualModules(p, a1, a2, q, b2);
    MutualLookups(p, a1, a2, q, b2);
    NumberAlone(env, rank, "A", memo, p, 1);
    NameAndNumber(env, rank, "A", memo[p := [1]], a1, "p", 1);
    assert [1] + [1] == [1, 1];
  }

  /** As long as `b2` is not memoised, A cannot compile `a2`. */
  lemma LastOfA(p: Object, a1: Object, a2: Object, q: Object, b2: Object, rank: Object -> nat, memo: Memo)
    requires MutualCase(p, a1, a2, q, b2, rank) && !Known(memo, a2) && !Known(memo, b2)
    ensures Compile(MutualModules(p, a1, a2, q, b2), rank, "A", memo, a2) == Compiled(None, memo)
  {
    var env := MutualModules(p, a1, a2, q, b2);
    MutualLookups(p, a1, a2, q, b2);
    NameAndNumber(env, rank, "A", memo, a2, "b2", 1);
    NameAndNumber(env, rank, "A", memo, b2, "q", 2);
  }

  /** As long as `a1` is not memoised, B cannot compile `q`. */
  lemma FirstOfB(p: Object, a1: Object, a2: Object, q: Object, b2: Object, rank: Object -> nat, memo: Memo)
    requires MutualCase(p, a1, a2, q, b2, rank) && !Known(memo, q) && !Known(memo, a1)
    ensures Compile(MutualModules(p, a1, a2, q, b2), rank, "B", memo, q) == Compiled(None, memo)
  {
    var env := MutualModules(p, a1, a2, q, b2);
    MutualLookups(p, a1, a2, q, b2);
    NameAndNumber(env, rank, "B", memo, q, "a1", 5);
    NameAndNumber(env, rank, "B", memo, a1, "p", 1);
  }

  /** What is memoised in the end, object by object. */
  lemma WholeAt(p: Object, a1: Object, a2: Object, q: Object, b2: Object, rank: Object -> nat, memo: Memo)
    requires MutualCase(p, a1, a2, q, b2, rank) && Fresh(MutualModules(p, a1, a2, q, b2), memo)
    ensures var half, whole := HalfWay(memo, p, a1), Whole(memo, p, a1, q, b2);
            && half.Keys == whole.Keys == {p, a1, a2, q, b2}
            && half[p] == whole[p] == [1] && half[a1] == whole[a1] == [1, 1]
            && half[q] == half[b2] == half[a2] == whole[a2] == []
            && whole[q] == [1, 1, 5] && whole[b2] == [1, 1, 5, 2]
  {
    assert Objects(MutualModules(p, a1, a2, q, b2)) == {p, a1, a2, q, b2} by { MutualLookups(p, a1, a2, q, b2); }
    assert p != a1 && p != q && p != b2 && p != a2 && a1 != q && a1 != b2 && a1 != a2 && q != b2 && q != a2 && b2 != a2;
  }

  lemma AllOfB(p: Object, a1: Object, a2: Object, q: Object, b2: Object, rank: Object -> nat, memo: Memo)
    requires MutualCase(p, a1, a2, q, b2, rank) && Fresh(MutualModules(p, a1, a2, q, b2), memo)
    ensures var env, half := MutualModules(p, a1, a2, q, b2), HalfWay(memo, p, a1);
            && Compile(env, rank, "B", half, q) == Compiled(Some([1, 1, 5]), half[q := [1, 1, 5]])
            && Compile(env, rank, "B", half[q := [1, 1, 5]], b2) == Compiled(Some([1, 1, 5, 2]), Whole(memo, p, a1, q, b2))
  {
    var env, half := MutualModules(p, a1, a2, q, b2), HalfWay(memo, p, a1);
    MutualLookups(p, a1, a2, q, b2);
    WholeAt(p, a1, a2, q, b2, rank, memo);
    NameAndNumber(env, rank, "B", half, q, "a1", 5);
    assert [1, 1] + [5] == [1, 1, 5];
    NameAndNumber(env, rank, "B", half[q := [1, 1, 5]], b2, "q", 2);
    assert [1, 1, 5] + [2] == [1, 1, 5, 2];
  }

  lemma RestOfA(p: Object, a1: Object, a2: Object, q: Object, b2: Object, rank: Object -> nat, memo: Memo)
    requires MutualCase(p, a1, a2, q, b2, rank) && Fresh(MutualModules(p, a1, a2, q, b2), memo)
    ensures var env, whole := MutualModules(p, a1, a2, q, b2), Whole(memo, p, a1, q, b2);
            && Compile(env, rank, "A", whole, p) == Compiled(Some([1]), whole)
            && Compile(env, rank, "A", whole, a1) == Compiled(Some([1, 1]), whole)
            && Compile(env, rank, "A", whole, a2).oid == Some([1, 1, 5, 2, 1])
  {
    var env, whole := MutualModules(p, a1, a2, q, b2), Whole(memo, p, a1, q, b2);
    MutualLookups(p, a1, a2, q, b2);
    WholeAt(p, a1, a2, q, b2, rank, memo);
    NameAndNumber(env, rank, "A", whole, a2, "b2", 1);
    assert [1, 1, 5, 2] + [1] == [1, 1, 5, 2, 1];
  }

  // the orders in which A and B are visited

  const ALL_OF_A := ["p", "a1", "a2"]
  const ALL_OF_B := ["q", "b2"]

  lemma VisitOne(env: Modules, rank: Object -> nat, m: string, memo: Memo, key: string)
    requires m in env && key in env[m].definitions
    ensures Visit(env, rank, m, memo, [key]) == Define(env, rank, m, memo, env[m].definitions[key])
    ensures Visit(env, rank, m, memo, [key][..0]) == (true, memo)
  {
    VisitOn(env, rank, m, memo, [], key);
    assert [] + [key] == [key];
  }

  /** A fails at once when it starts with `a2`, and B when it starts with `q`. */
  lemma FailAtOnce(p: Object, a1: Object, a2: Object, q: Object, b2: Object, rank: Object -> nat, memo: Memo)
    requires MutualCase(p, a1, a2, q, b2, rank) && Fresh(MutualModules(p, a1, a2, q, b2), memo)
    ensures var env := MutualModules(p, a1, a2, q, b2);
            && Attempts(env, rank, "A", memo, ["a2"]) && Visit(env, rank, "A", memo, ["a2"]) == (false, memo)
            && Attempts(env, rank, "B", memo, ["q"]) && Visit(env, rank, "B", memo, ["q"]) == (false, memo)
  {
    var env := MutualModules(p, a1, a2, q, b2);
    VisitOne(env, rank, "A", memo, "a2");
    VisitOne(env, rank, "B", memo, "q");
    LastOfA(p, a1, a2, q, b2, rank, memo);
    FirstOfB(p, a1, a2, q, b2, rank, memo);
  }

  /** A memoises `p` and `a1` before it fails when it visits them first. */
  lemma FailHalfWay(p: Object, a1: Object, a2: Object, q: Object, b2: Object, rank: Object -> nat, memo: Memo)
    requires MutualCase(p, a1, a2, q, b2, rank) && Fresh(MutualModules(p, a1, a2, q, b2), memo)
    ensures var env := MutualModules(p, a1, a2, q, b2);
            Attempts(env, rank, "A", memo, ALL_OF_A) && Visit(env, rank, "A", memo, ALL_OF_A) == (false, HalfWay(memo, p, a1))
  {
    var env := MutualModules(p, a1, a2, q, b2);
    WholeAt(p, a1, a2, q, b2, rank, memo);
    FirstOfA(p, a1, a2, q, b2, rank, memo);
    LastOfA(p, a1, a2, q, b2, rank, HalfWay(memo, p, a1));
    VisitOne(env, rank, "A", memo, "p");
    VisitOn(env, rank, "A", memo, ["p"], "a1");
    VisitOn(env, rank, "A", memo, ["p", "a1"], "a2");
    assert ["p"] + ["a1"] == ["p", "a1"] && ["p", "a1"] + ["a2"] == ALL_OF_A && ALL_OF_A[..2] == ["p", "a1"];
  }

  /** After that B compiles. */
  lemma ThenB(p: Object, a1: Object, a2: Object, q: Object, b2: Object, rank: Object -> nat, memo: Memo)
    requires MutualCase(p, a1, a2, q, b2, rank) && Fresh(MutualModules(p, a1, a2, q, b2), memo)
    ensures var env, half, whole := MutualModules(p, a1, a2, q, b2), HalfWay(memo, p, a1), Whole(memo, p, a1, q, b2);
            Attempts(env, rank, "B", half, ALL_OF_B) && Visit(env, rank, "B", half, ALL_OF_B) == (true, whole)
  {
    var env, half := MutualModules(p, a1, a2, q, b2), HalfWay(memo, p, a1);
    AllOfB(p, a1, a2, q, b2, rank, memo);
    VisitOne(env, rank, "B", half, "q");
    VisitOn(env, rank, "B", half, ["q"], "b2");
    assert ["q"] + ["b2"] == ALL_OF_B;
  }

  /** And after that A does. */
  lemma ThenA(p: Object, a1: Object, a2: Object, q: Object, b2: Object, rank: Object -> nat, memo: Memo)
    requires MutualCase(p, a1, a2, q, b2, rank) && Fresh(MutualModules(p, a1, a2, q, b2), memo)
    ensures var env, whole := MutualModules(p, a1, a2, q, b2), Whole(memo, p, a1, q, b2);
            Attempts(env, rank, "A", whole, ALL_OF_A) && Visit(env, rank, "A", whole, ALL_OF_A).0
  {
    var env, whole := MutualModules(p, a1, a2, q, b2), Whole(memo, p, a1, q, b2);
    RestOfA(p, a1, a2, q, b2, rank, memo);
    VisitOne(env, rank, "A", whole, "p");
    VisitOn(env, rank, "A", whole, ["p"], "a1");
    VisitOn(env, rank, "A", whole, ["p", "a1"], "a2");
    assert ["p"] + ["a1"] == ["p", "a1"] && ["p", "a1"] + ["a2"] == ALL_OF_A;
  }

  // passes over modules that are named one by one

  lemma Appended<T>(a: T, b: T, c: T)
    ensures [] + [a] == [a] && [a] + [b] == [a, b] && [a, b] + [c] == [a, b, c]
  {
  }

  lemma BuiltinFirst(env: Modules, rank: Object -> nat, memo: Memo)
    requires env[BUILTIN].definitions == map[]
    ensures Passes(env, rank, memo, [BUILTIN], [[]], [], memo)
  {
    PassMore(env, rank, memo, [], [], [], memo, BUILTIN, []);
    assert [] + [BUILTIN] == [BUILTIN];
  }

  /** A first pass that visits B before A, and in A starts with `a2`: nothing but the built-in module compiles. */
  lemma WastedPass(p: Object, a1: Object, a2: Object, q: Object, b2: Object, rank: Object -> nat, memo: Memo)
    requires MutualCase(p, a1, a2, q, b2, rank) && Fresh(MutualModules(p, a1, a2, q, b2), memo)
    ensures Passes(MutualModules(p, a1, a2, q, b2), rank, memo, [BUILTIN, "B", "A"], [[], ["q"], ["a2"]], ["B", "A"], memo)
  {
    var env := MutualModules(p, a1, a2, q, b2);
    Appended(BUILTIN, "B", "A");
    Appended([], ["q"], ["a2"]);
    Appended("B", "A", "");
    FailAtOnce(p, a1, a2, q, b2, rank, memo);
    BuiltinFirst(env, rank, memo);
    PassMore(env, rank, memo, [BUILTIN], [[]], [], memo, "B", ["q"]);
    PassMore(env, rank, memo, [BUILTIN, "B"], [[], ["q"]], ["B"], memo, "A", ["a2"]);
  }

  /** A second pass in which A gets to `p` and `a1` before it fails: no module compiles. */
  lemma UselessPass(p: Object, a1: Object, a2: Object, q: Object, b2: Object, rank: Object -> nat, memo: Memo)
    requires MutualCase(p, a1, a2, q, b2, rank) && Fresh(MutualModules(p, a1, a2, q, b2), memo)
    ensures Passes(MutualModules(p, a1, a2, q, b2), rank, memo, ["B", "A"], [["q"], ALL_OF_A], ["B", "A"], HalfWay(memo, p, a1))
  {
    var env := MutualModules(p, a1, a2, q, b2);
    Appended("B", "A", "");
    Appended(["q"], ALL_OF_A, []);
    FailAtOnce(p, a1, a2, q, b2, rank, memo);
    FailHalfWay(p, a1, a2, q, b2, rank, memo);
    PassMore(env, rank, memo, [], [], [], memo, "B", ["q"]);
    PassMore(env, rank, memo, ["B"], [["q"]], ["B"], memo, "A", ALL_OF_A);
  }

  lemma TwoPasses(env: Modules, rank: Object -> nat, memo: Memo, compile: seq<string>,
                  first: seq<seq<string>>, left: seq<string>, mid: Memo, second: seq<seq<string>>, pending: seq<string>, later: Memo)
    requires Passes(env, rank, memo, compile, first, left, mid) && Passes(env, rank, mid, left, second, pending, later)
    requires compile != [] && left != [] && |left| < |compile|
    ensures RunsTo(env, rank, memo, compile, [first, second], State(pending, later, |pending| < |left|))
  {
    Appended(first, second, second);
    RunMore(env, rank, memo, compile, [], State(compile, memo, true), first, left, mid);
    RunMore(env, rank, memo, compile, [first], State(left, mid, true), second, pending, later);
  }

  /**
   * B before A, and A from `a2` on in the first pass: the second pass compiles none and compilation
   * gives up, although B evaluates by then.
   */
  lemma GivesUpTooSoon(p: Object, a1: Object, a2: Object, q: Object, b2: Object, rank: Object -> nat, memo: Memo)
    requires MutualCase(p, a1, a2, q, b2, rank) && Fresh(MutualModules(p, a1, a2, q, b2), memo)
    ensures var env, compile := MutualModules(p, a1, a2, q, b2), [BUILTIN, "B", "A"];
            var passes := [[[], ["q"], ["a2"]], [["q"], ALL_OF_A]];
            && Lexical(env, rank) && !Fails(env, rank, HalfWay(memo, p, a1), "B")
            && RunsTo(env, rank, memo, compile, passes, State(["B", "A"], HalfWay(memo, p, a1), false))
  {
    var env := MutualModules(p, a1, a2, q, b2);
    MutualIsLexical(p, a1, a2, q, b2, rank);
    WastedPass(p, a1, a2, q, b2, rank, memo);
    UselessPass(p, a1, a2, q, b2, rank, memo);
    TwoPasses(env, rank, memo, [BUILTIN, "B", "A"], [[], ["q"], ["a2"]], ["B", "A"], memo,
              [["q"], ALL_OF_A], ["B", "A"], HalfWay(memo, p, a1));
    ThenB(p, a1, a2, q, b2, rank, memo);
    WholeAt(p, a1, a2, q, b2, rank, memo);
    MutualLookups(p, a1, a2, q, b2);
    AttemptIff(env, rank, "B", HalfWay(memo, p, a1), ALL_OF_B);
  }

  lemma LuckyPass(p: Object, a1: Object, a2: Object, q: Object, b2: Object, rank: Object -> nat, memo: Memo)
    requires MutualCase(p, a1, a2, q, b2, rank) && Fresh(MutualModules(p, a1, a2, q, b2), memo)
    ensures Passes(MutualModules(p, a1, a2, q, b2), rank, memo, [BUILTIN, "A", "B"], [[], ALL_OF_A, ALL_OF_B], ["A"],
                   Whole(memo, p, a1, q, b2))
  {
    var env := MutualModules(p, a1, a2, q, b2);
    Appended(BUILTIN, "A", "B");
    Appended([], ALL_OF_A, ALL_OF_B);
    Appended("A", "", "");
    FailHalfWay(p, a1, a2, q, b2, rank, memo);
    ThenB(p, a1, a2, q, b2, rank, memo);
    BuiltinFirst(env, rank, memo);
    PassMore(env, rank, memo, [BUILTIN], [[]], [], memo, "A", ALL_OF_A);
    PassMore(env, rank, memo, [BUILTIN, "A"], [[], ALL_OF_A], ["A"], HalfWay(memo, p, a1), "B", ALL_OF_B);
  }

  lemma LastPass(p: Object, a1: Object, a2: Object, q: Object, b2: Object, rank: Object -> nat, memo: Memo) returns (later: Memo)
    requires MutualCase(p, a1, a2, q, b2, rank) && Fresh(MutualModules(p, a1, a2, q, b2), memo)
    ensures Passes(MutualModules(p, a1, a2, q, b2), rank, Whole(memo, p, a1, q, b2), ["A"], [ALL_OF_A], [], later)
  {
    var env, whole := MutualModules(p, a1, a2, q, b2), Whole(memo, p, a1, q, b2);
    Appended("A", "", "");
    Appended(ALL_OF_A, [], []);
    ThenA(p, a1, a2, q, b2, rank, memo);
    PassMore(env, rank, whole, [], [], [], whole, "A", ALL_OF_A);
    later := Visit(env, rank, "A", whole, ALL_OF_A).1;
  }

  /** A before B, and A from `p` on: the same modules compile in two passes. */
  lemma OtherOrderCompiles(p: Object, a1: Object, a2: Object, q: Object, b2: Object, rank: Object -> nat, memo: Memo)
    requires MutualCase(p, a1, a2, q, b2, rank) && Fresh(MutualModules(p, a1, a2, q, b2), memo)
    ensures var env, compile := MutualModules(p, a1, a2, q, b2), [BUILTIN, "A", "B"];
            var passes := [[[], ALL_OF_A, ALL_OF_B], [ALL_OF_A]];
            exists later :: RunsTo(env, rank, memo, compile, passes, State([], later, true))
  {
    LuckyPass(p, a1, a2, q, b2, rank, memo);
    var later := LastPass(p, a1, a2, q, b2, rank, memo);
    TwoPasses(MutualModules(p, a1, a2, q, b2), rank, memo, [BUILTIN, "A", "B"], [[], ALL_OF_A, ALL_OF_B], ["A"],
              Whole(memo, p, a1, q, b2), [ALL_OF_A], [], later);
  }

  // ---------------------------------------------------------------- what a second pass adds

  /**
   * Module L defines `w ::= { }` and `x ::= { w }`; module A imports `x` alone and defines `o ::= { x 5 }`;
   * module C imports `o`, `x` and `w` and defines `c ::= { o 1 }`.
   */
  function LateModules(w: Object, x: Object, o: Object, c: Object): Modules {
    map[
      BUILTIN := Scope(map[], map[]),
      "L" := Scope(map[], map["w" := ObjectDef(w), "x" := ObjectDef(x)]),
      "A" := Scope(map["x" := "L"], map["o" := ObjectDef(o)]),
      "C" := Scope(map["o" := "A", "x" := "L", "w" := "L"], map["c" := ObjectDef(c)])
    ]
  }

  ghost predicate LateCase(w: Object, x: Object, o: Object, c: Object, rank: Object -> nat, level: string -> nat) {
    && w.elements == [] && x.elements == [Name("w")] && o.elements == [Name("x"), Number(5)] && c.elements == [Name("o"), Number(1)]
    && rank(w) < rank(x) < rank(o) < rank(c)
    && level(BUILTIN) < level("L") < level("A") < level("C")
  }

  lemma LateLookups(w: Object, x: Object, o: Object, c: Object)
    ensures var env := LateModules(w, x, o, c);
            && Objects(env) == {w, x, o, c}
            && Lookup(env, "L", "w") == Some(("L", ObjectDef(w))) == Lookup(env, "C", "w") && Lookup(env, "A", "w") == None
            && Lookup(env, "L", "x") == Some(("L", ObjectDef(x))) == Lookup(env, "A", "x") == Lookup(env, "C", "x")
            && Lookup(env, "A", "o") == Some(("A", ObjectDef(o))) == Lookup(env, "C", "o") && Lookup(env, "L", "o") == None
            && (forall name :: Lookup(env, BUILTIN, name) == None)
  {
    var env := LateModules(w, x, o, c);
    var l, a, d := env["L"].definitions, env["A"].definitions, env["C"].definitions;
    assert "w" in l && "x" in l && "o" in a && "c" in d;
    assert {w, x, o, c} <= Objects(env);
  }

  lemma LateOwners(w: Object, x: Object, o: Object, c: Object, m: string, y: Object)
    ensures Owns(LateModules(w, x, o, c), m, y) <==> (m == "L" && (y == w || y == x)) || (m == "A" && y == o) || (m == "C" && y == c)
  {
    var env := LateModules(w, x, o, c);
    var l, a, d := env["L"].definitions, env["A"].definitions, env["C"].definitions;
    assert l["w"] == ObjectDef(w) && l["x"] == ObjectDef(x) && a["o"] == ObjectDef(o) && d["c"] == ObjectDef(c);
  }

  lemma LateAgrees(w: Object, x: Object, o: Object, c: Object, rank: Object -> nat, level: string -> nat,
                   a: string, b: string, y: Object, e: string)
    requires LateCase(w, x, o, c, rank, level)
    requires var env := LateModules(w, x, o, c); a in env && b in env && y in Objects(env) && Name(e) in y.elements
    ensures Agree(LateModules(w, x, o, c), a, b, e)
  {
    LateLookups(w, x, o, c);
    assert e == "w" || e == "x" || e == "o";
    assert a == BUILTIN || a == "L" || a == "A" || a == "C";
    assert b == BUILTIN || b == "L" || b == "A" || b == "C";
  }

  lemma LateResolves(w: Object, x: Object, o: Object, c: Object, rank: Object -> nat, level: string -> nat, m: string, y: Object)
    requires LateCase(w, x, o, c, rank, level) && Owns(LateModules(w, x, o, c), m, y)
    ensures ResolvesAt(LateModules(w, x, o, c), rank, m, y)
  {
    LateLookups(w, x, o, c);
    LateOwners(w, x, o, c, m, y);
  }

  lemma LateOwnedOnce(w: Object, x: Object, o: Object, c: Object, rank: Object -> nat, level: string -> nat)
    requires LateCase(w, x, o, c, rank, level)
    ensures OwnedOnce(LateModules(w, x, o, c)) && ImportsAcyclic(LateModules(w, x, o, c), level)
  {
    var env := LateModules(w, x, o, c);
    forall a, b, y | a in env && b in env && y in Objects(env) && Owns(env, a, y) && Owns(env, b, y)
      ensures a == b
    {
      LateOwners(w, x, o, c, a, y);
      LateOwners(w, x, o, c, b, y);
    }
  }

  lemma LateIsLexical(w: Object, x: Object, o: Object, c: Object, rank: Object -> nat, level: string -> nat)
    requires LateCase(w, x, o, c, rank, level)
    ensures Lexical(LateModules(w, x, o, c), rank)
  {
    var env := LateModules(w, x, o, c);
    forall m, y | m in env && y in Objects(env) && Owns(env, m, y)
      ensures ResolvesAt(env, rank, m, y)
    {
      LateResolves(w, x, o, c, rank, level, m, y);
    }
    forall a, b, y, e | a in env && b in env && y in Objects(env) && Name(e) in y.elements
      ensures Agree(env, a, b, e)
    {
      LateAgrees(w, x, o, c, rank, level, a, b, y, e);
    }
  }

  /** The OIDs of `w` and `x` are empty. */
  lemma LateDenotes(w: Object, x: Object, o: Object, c: Object, rank: Object -> nat, level: string -> nat)
    requires LateCase(w, x, o, c, rank, level)
    ensures var env := LateModules(w, x, o, c);
            && Lexical(env, rank) && Owns(env, "L", w) && Owns(env, "L", x)
            && Denote(env, rank, "L", w) == [] && Denote(env, rank, "L", x) == []
  {
    var env := LateModules(w, x, o, c);
    LateIsLexical(w, x, o, c, rank, level);
    assert Lookup(env, "L", "w") == Some(("L", ObjectDef(w))) by { LateLookups(w, x, o, c); }
    LateOwners(w, x, o, c, "L", w);
    LateOwners(w, x, o, c, "L", x);
    assert LastName(w.elements) == 0 && w.elements[..0] == [] && TrailingNumbers(w.elements) == [];
    assert DenoteBase(env, rank, "L", w, []) == [];
    assert Denote(env, rank, "L", w) == [];
    assert x.elements[..1] == x.elements;
    DenoteOneMore(env, rank, "L", x, 1);
  }

  /** A does not see what `x` needs. */
  lemma LateIsNotVisible(w: Object, x: Object, o: Object, c: Object, rank: Object -> nat, level: string -> nat)
    requires LateCase(w, x, o, c, rank, level)
    ensures var env := LateModules(w, x, o, c);
            Lexical(env, rank) && !AllReachable(env, rank, "A")
  {
    var env := LateModules(w, x, o, c);
    LateDenotes(w, x, o, c, rank, level);
    LateOwners(w, x, o, c, "A", o);
    LateLookups(w, x, o, c);
    assert x.elements[0].Name? && o.elements[0].Name?;
    assert !Reachable(env, rank, "A", x);
    assert !Reachable(env, rank, "A", o);
  }

  /** A definition that is one name. */
  lemma NameAlone(env: Modules, rank: Object -> nat, root: string, memo: Memo, o: Object, name: string)
    requires root in env && o.elements == [Name(name)] && !Known(memo, o)
    ensures var r := CompileName(env, rank, root, memo, o, name);
            Compile(env, rank, root, memo, o) == if r.oid.None? then r else r.(memo := r.memo[o := r.oid.value])
  {
    var first := CompilePrefix(env, rank, root, memo, o, 0);
  }

  /** L and C see what `x` needs, and memoise nothing for it. */
  lemma EmptyHere(w: Object, x: Object, o: Object, c: Object, rank: Object -> nat, level: string -> nat, memo: Memo, root: string)
    requires LateCase(w, x, o, c, rank, level) && w in memo && x in memo && memo[w] == [] && memo[x] == []
    requires root == "L" || root == "C"
    ensures Compile(LateModules(w, x, o, c), rank, root, memo, w) == Compiled(Some([]), memo)
    ensures Compile(LateModules(w, x, o, c), rank, root, memo, x) == Compiled(Some([]), memo)
  {
    var env := LateModules(w, x, o, c);
    LateLookups(w, x, o, c);
    assert memo[w := []] == memo && memo[x := []] == memo;
    NameAlone(env, rank, root, memo, x, "w");
  }

  lemma LStays(w: Object, x: Object, o: Object, c: Object, rank: Object -> nat, level: string -> nat, memo: Memo)
    requires LateCase(w, x, o, c, rank, level) && Fresh(LateModules(w, x, o, c), memo)
    ensures var env := LateModules(w, x, o, c);
            Attempts(env, rank, "L", memo, ["w", "x"]) && Visit(env, rank, "L", memo, ["w", "x"]) == (true, memo)
  {
    var env := LateModules(w, x, o, c);
    LateLookups(w, x, o, c);
    EmptyHere(w, x, o, c, rank, level, memo, "L");
    VisitOne(env, rank, "L", memo, "w");
    VisitOn(env, rank, "L", memo, ["w"], "x");
    assert ["w"] + ["x"] == ["w", "x"];
  }

  lemma AFails(w: Object, x: Object, o: Object, c: Object, rank: Object -> nat, level: string -> nat, memo: Memo)
    requires LateCase(w, x, o, c, rank, level) && Fresh(LateModules(w, x, o, c), memo)
    ensures var env := LateModules(w, x, o, c);
            Attempts(env, rank, "A", memo, ["o"]) && Visit(env, rank, "A", memo, ["o"]) == (false, memo)
  {
    var env := LateModules(w, x, o, c);
    LateLookups(w, x, o, c);
    NameAlone(env, rank, "A", memo, x, "w");
    NameAndNumber(env, rank, "A", memo, o, "x", 5);
    VisitOne(env, rank, "A", memo, "o");
  }

  function Late(memo: Memo, o: Object, c: Object): Memo {
    memo[o := [5]][c := [5, 1]]
  }

  /** C memoises the object that A could not compile, */
  lemma CCompiles(w: Object, x: Object, o: Object, c: Object, rank: Object -> nat, level: string -> nat, memo: Memo)
    requires LateCase(w, x, o, c, rank, level) && Fresh(LateModules(w, x, o, c), memo)
    ensures var env := LateModules(w, x, o, c);
            Attempts(env, rank, "C", memo, ["c"]) && Visit(env, rank, "C", memo, ["c"]) == (true, Late(memo, o, c))
  {
    var env := LateModules(w, x, o, c);
    LateLookups(w, x, o, c);
    EmptyHere(w, x, o, c, rank, level, memo, "C");
    NameAndNumber(env, rank, "C", memo, o, "x", 5);
    assert [] + [5] == [5];
    NameAndNumber(env, rank, "C", memo, c, "o", 1);
    assert [5] + [1] == [5, 1];
    VisitOne(env, rank, "C", memo, "c");
  }

  /** and after that A compiles. */
  lemma ACompiles(w: Object, x: Object, o: Object, c: Object, rank: Object -> nat, level: string -> nat, memo: Memo)
    requires LateCase(w, x, o, c, rank, level) && Fresh(LateModules(w, x, o, c), memo)
    ensures Passes(LateModules(w, x, o, c), rank, Late(memo, o, c), ["A"], [["o"]], [], Late(memo, o, c))
  {
    var env, late := LateModules(w, x, o, c), Late(memo, o, c);
    VisitOne(env, rank, "A", late, "o");
    Appended("A", "", "");
    Appended(["o"], [], []);
    PassMore(env, rank, late, [], [], [], late, "A", ["o"]);
  }

  lemma LatePass(w: Object, x: Object, o: Object, c: Object, rank: Object -> nat, level: string -> nat, memo: Memo)
    requires LateCase(w, x, o, c, rank, level) && Fresh(LateModules(w, x, o, c), memo)
    ensures Passes(LateModules(w, x, o, c), rank, memo, [BUILTIN, "L", "A"] + ["C"], [[], ["w", "x"], ["o"]] + [["c"]], ["A"], Late(memo, o, c))
  {
    var env := LateModules(w, x, o, c);
    Appended(BUILTIN, "L", "A");
    Appended([], ["w", "x"], ["o"]);
    Appended("A", "", "");
    LStays(w, x, o, c, rank, level, memo);
    AFails(w, x, o, c, rank, level, memo);
    CCompiles(w, x, o, c, rank, level, memo);
    BuiltinFirst(env, rank, memo);
    PassMore(env, rank, memo, [BUILTIN], [[]], [], memo, "L", ["w", "x"]);
    PassMore(env, rank, memo, [BUILTIN, "L"], [[], ["w", "x"]], [], memo, "A", ["o"]);
    PassMore(env, rank, memo, [BUILTIN, "L", "A"], [[], ["w", "x"], ["o"]], ["A"], memo, "C", ["c"]);
  }

  lemma LateOrder(w: Object, x: Object, o: Object, c: Object, rank: Object -> nat, level: string -> nat)
    requires LateCase(w, x, o, c, rank, level)
    ensures InLevelOrder(LateModules(w, x, o, c), level, [BUILTIN, "L", "A"] + ["C"])
  {
    var env, compile := LateModules(w, x, o, c), [BUILTIN, "L", "A"] + ["C"];
    assert compile == [BUILTIN, "L", "A", "C"];
    assert compile[..1] == [BUILTIN] && compile[..2] == [BUILTIN, "L"] && compile[..3] == [BUILTIN, "L", "A"];
  }

  /** No single pass in level order compiles everything, whatever the orders of keys. */
  lemma OnePassIsNotEnough(w: Object, x: Object, o: Object, c: Object, rank: Object -> nat, level: string -> nat, memo: Memo,
                           orders: seq<seq<string>>)
    requires LateCase(w, x, o, c, rank, level) && Fresh(LateModules(w, x, o, c), memo) && |orders| == 4
    requires AreModules(LateModules(w, x, o, c), [BUILTIN, "L", "A"] + ["C"])
    requires Orders(LateModules(w, x, o, c), rank, memo, [BUILTIN, "L", "A"] + ["C"], orders)
    ensures Pass(LateModules(w, x, o, c), rank, memo, [BUILTIN, "L", "A"] + ["C"], orders).0 != []
  {
    var env, compile := LateModules(w, x, o, c), [BUILTIN, "L", "A"] + ["C"];
    LateOwnedOnce(w, x, o, c, rank, level);
    LateIsNotVisible(w, x, o, c, rank, level);
    LateOrder(w, x, o, c, rank, level);
    assert forall m :: m in env ==> m in compile;
    OnePassIff(env, rank, level, memo, compile, orders);
  }

  /**
   * Every pass in level order has to fail at A, and yet the second one compiles it: C has memoised
   * what A does not see. So being compilable is more than compilation in several passes needs.
   */
  lemma LaterPassesDoMore(w: Object, x: Object, o: Object, c: Object, rank: Object -> nat, level: string -> nat, memo: Memo)
    requires LateCase(w, x, o, c, rank, level) && Fresh(LateModules(w, x, o, c), memo)
    ensures var env, compile := LateModules(w, x, o, c), [BUILTIN, "L", "A"] + ["C"];
            var passes := [[[], ["w", "x"], ["o"]] + [["c"]], [["o"]]];
            && Lexical(env, rank) && !Compilable(env, rank, level)
            && RunsTo(env, rank, memo, compile, passes, State([], Late(memo, o, c), true))
  {
    LateIsNotVisible(w, x, o, c, rank, level);
    LatePass(w, x, o, c, rank, level, memo);
    ACompiles(w, x, o, c, rank, level, memo);
    TwoPasses(LateModules(w, x, o, c), rank, memo, [BUILTIN, "L", "A"] + ["C"], [[], ["w", "x"], ["o"]] + [["c"]], ["A"],
              Late(memo, o, c), [["o"]], [], Late(memo, o, c));
  }
}
