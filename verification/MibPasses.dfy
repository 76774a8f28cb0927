/** Passes over the modules: when they end, what they leave, and when giving up is right. */
module MibPasses {
  import opened Basics
  import opened MibResolve
  import opened MibCompile

  // ---------------------------------------------------------------- one pass

  ghost predicate AreModules(env: Modules, names: seq<string>) {
    forall m :: m in names ==> m in env
  }

  /** One pass over some modules, each with its keys in an order: those that fail, and the memo that is left. */
  ghost function Pass(env: Modules, rank: Object -> nat, memo: Memo, compile: seq<string>, orders: seq<seq<string>>): (r: (seq<string>, Memo))
    requires AreModules(env, compile) && |orders| == |compile|
    ensures |r.0| <= |compile| && AreModules(env, r.0) && (|r.0| == |compile| ==> r.0 == compile)
    decreases |compile|
  {
    if compile == [] then ([], memo)
    else
      var n := |compile| - 1;
      var (failed, mid) := Pass(env, rank, memo, compile[..n], orders[..n]);
      var (ok, later) := Visit(env, rank, compile[n], mid, orders[n]);
      (if ok then failed else failed + [compile[n]], later)
  }

  /** The orders are those of a pass: each one is that of an attempt. */
  ghost predicate Orders(env: Modules, rank: Object -> nat, memo: Memo, compile: seq<string>, orders: seq<seq<string>>)
    requires AreModules(env, compile) && |orders| == |compile|
    decreases |compile|
  {
    compile != [] ==>
      var n := |compile| - 1;
      && Orders(env, rank, memo, compile[..n], orders[..n])
      && Attempts(env, rank, compile[n], Pass(env, rank, memo, compile[..n], orders[..n]).1, orders[n])
  }

  /** One more module in a pass. */
  lemma PassOn(env: Modules, rank: Object -> nat, memo: Memo, compile: seq<string>, orders: seq<seq<string>>, m: string, keys: seq<string>)
    requires AreModules(env, compile) && |orders| == |compile| && m in env
    ensures var (failed, mid) := Pass(env, rank, memo, compile, orders);
            var (ok, later) := Visit(env, rank, m, mid, keys);
            && Pass(env, rank, memo, compile + [m], orders + [keys]) == (if ok then failed else failed + [m], later)
            && (Orders(env, rank, memo, compile + [m], orders + [keys]) <==>
                  Orders(env, rank, memo, compile, orders) && Attempts(env, rank, m, mid, keys))
  {
    assert (compile + [m])[..|compile|] == compile && (orders + [keys])[..|orders|] == orders;
  }

  /** What a pass leaves. */
  ghost predicate Passes(env: Modules, rank: Object -> nat, memo: Memo, compile: seq<string>, orders: seq<seq<string>>,
                         failed: seq<string>, later: Memo) {
    && AreModules(env, compile) && |orders| == |compile|
    && Orders(env, rank, memo, compile, orders) && Pass(env, rank, memo, compile, orders) == (failed, later)
  }

  lemma PassMore(env: Modules, rank: Object -> nat, memo: Memo, compile: seq<string>, orders: seq<seq<string>>,
                 failed: seq<string>, mid: Memo, m: string, keys: seq<string>)
    requires Passes(env, rank, memo, compile, orders, failed, mid) && m in env && Attempts(env, rank, m, mid, keys)
    ensures var (ok, later) := Visit(env, rank, m, mid, keys);
            Passes(env, rank, memo, compile + [m], orders + [keys], if ok then failed else failed + [m], later)
  {
    PassOn(env, rank, memo, compile, orders, m, keys);
  }

  /** In every order a pass has the effect that the compilation of its modules adds up to. */
  lemma {:induction false} PassIsStep(env: Modules, rank: Object -> nat, level: string -> nat, memo: Memo, compile: seq<string>, orders: seq<seq<string>>)
    requires AreModules(env, compile) && |orders| == |compile| && memo.Keys == Objects(env)
    requires Orders(env, rank, memo, compile, orders)
    ensures var (failed, later) := Pass(env, rank, memo, compile, orders);
            later.Keys == memo.Keys && PassStep(env, rank, level, memo, later, compile, failed)
    decreases |compile|
  {
    if compile == [] {
      return;
    }
    var n := |compile| - 1;
    PassIsStep(env, rank, level, memo, compile[..n], orders[..n]);
    var (failed, mid) := Pass(env, rank, memo, compile[..n], orders[..n]);
    AttemptIff(env, rank, compile[n], mid, orders[n]);
    var (ok, later) := Visit(env, rank, compile[n], mid, orders[n]);
    ModuleStepHolds(env, rank, level, compile[n], mid, later, ok);
    PassGoesOn(env, rank, level, memo, mid, later, compile[..n], failed, compile[n], ok);
    assert compile == compile[..n] + [compile[n]];
  }

  // ---------------------------------------------------------------- all passes

  /** What is left after some passes: modules, memo, and whether the last pass has compiled any. */
  datatype State = State(pending: seq<string>, memo: Memo, going: bool)

  /** Passes that compilation makes: it goes on while modules are left and the last pass has compiled some. */
  ghost predicate Run(env: Modules, rank: Object -> nat, memo: Memo, compile: seq<string>, passes: seq<seq<seq<string>>>)
    requires AreModules(env, compile)
    decreases |passes|, 0
  {
    passes != [] ==>
      var n := |passes| - 1;
      && Run(env, rank, memo, compile, passes[..n])
      && var s := After(env, rank, memo, compile, passes[..n]);
      && s.going && s.pending != [] && |passes[n]| == |s.pending|
      && Orders(env, rank, s.memo, s.pending, passes[n])
  }

  ghost function After(env: Modules, rank: Object -> nat, memo: Memo, compile: seq<string>, passes: seq<seq<seq<string>>>): (s: State)
    requires AreModules(env, compile) && Run(env, rank, memo, compile, passes)
    ensures AreModules(env, s.pending)
    decreases |passes|, 1
  {
    if passes == [] then State(compile, memo, true)
    else
      var n := |passes| - 1;
      var s := After(env, rank, memo, compile, passes[..n]);
      var (failed, later) := Pass(env, rank, s.memo, s.pending, passes[n]);
      State(failed, later, |failed| < |s.pending|)
  }

  /** One more pass. */
  lemma RunOn(env: Modules, rank: Object -> nat, memo: Memo, compile: seq<string>, passes: seq<seq<seq<string>>>, orders: seq<seq<string>>)
    requires AreModules(env, compile) && Run(env, rank, memo, compile, passes)
    requires var s := After(env, rank, memo, compile, passes);
             s.going && s.pending != [] && |orders| == |s.pending| && Orders(env, rank, s.memo, s.pending, orders)
    ensures Run(env, rank, memo, compile, passes + [orders])
    ensures var s := After(env, rank, memo, compile, passes);
            var (failed, later) := Pass(env, rank, s.memo, s.pending, orders);
            After(env, rank, memo, compile, passes + [orders]) == State(failed, later, |failed| < |s.pending|)
  {
    assert (passes + [orders])[..|passes|] == passes;
  }

  /** What some passes lead to. */
  ghost predicate RunsTo(env: Modules, rank: Object -> nat, memo: Memo, compile: seq<string>, passes: seq<seq<seq<string>>>, s: State) {
    && AreModules(env, compile) && Run(env, rank, memo, compile, passes)
    && After(env, rank, memo, compile, passes) == s
  }

  lemma RunMore(env: Modules, rank: Object -> nat, memo: Memo, compile: seq<string>, passes: seq<seq<seq<string>>>, s: State,
                orders: seq<seq<string>>, failed: seq<string>, later: Memo)
    requires RunsTo(env, rank, memo, compile, passes, s) && s.going && s.pending != []
    requires Passes(env, rank, s.memo, s.pending, orders, failed, later)
    ensures RunsTo(env, rank, memo, compile, passes + [orders], State(failed, later, |failed| < |s.pending|))
  {
    RunOn(env, rank, memo, compile, passes, orders);
  }

  /**
   * Whatever the orders, what is memoised stays right and finished modules stay finished; and in a
   * compilable database every pass compiles some module, so that there are no more passes than modules.
   */
  lemma {:induction false} RunIsRight(env: Modules, rank: Object -> nat, level: string -> nat, memo: Memo, compile: seq<string>,
                                      passes: seq<seq<seq<string>>>)
    requires AreModules(env, compile) && memo.Keys == Objects(env) && Run(env, rank, memo, compile, passes)
    ensures var s := After(env, rank, memo, compile, passes);
            && s.memo.Keys == memo.Keys && Grows(memo, s.memo)
            && (Progress(env, rank, memo, compile) ==>
                  && Progress(env, rank, s.memo, s.pending)
                  && (Compilable(env, rank, level) ==> s.going && |passes| + |s.pending| <= |compile|))
    decreases |passes|
  {
    if passes == [] {
      return;
    }
    var n := |passes| - 1;
    RunIsRight(env, rank, level, memo, compile, passes[..n]);
    var s := After(env, rank, memo, compile, passes[..n]);
    PassIsStep(env, rank, level, s.memo, s.pending, passes[n]);
    if Progress(env, rank, memo, compile) {
      var (failed, later) := Pass(env, rank, s.memo, s.pending, passes[n]);
      PassProgress(env, rank, level, s.memo, later, s.pending, failed);
    }
  }

  /** When compilation gives up, its last pass has compiled nothing, and so none of its modules could be compiled before it. */
  lemma GivesUpStuck(env: Modules, rank: Object -> nat, level: string -> nat, memo: Memo, compile: seq<string>, passes: seq<seq<seq<string>>>)
    requires AreModules(env, compile) && memo.Keys == Objects(env) && Run(env, rank, memo, compile, passes)
    requires !After(env, rank, memo, compile, passes).going
    ensures passes != []
    ensures var s, last := After(env, rank, memo, compile, passes), After(env, rank, memo, compile, passes[..|passes| - 1]);
            && s.pending == last.pending != [] && Grows(memo, last.memo) && Grows(last.memo, s.memo)
            && (forall m :: m in s.pending ==> Fails(env, rank, last.memo, m))
            && (Progress(env, rank, memo, compile) ==> Stuck(env, rank, last.memo, s.pending))
            && (s.memo == last.memo ==> forall m :: m in s.pending ==> Fails(env, rank, s.memo, m))
  {
    var n := |passes| - 1;
    RunIsRight(env, rank, level, memo, compile, passes[..n]);
    var last := After(env, rank, memo, compile, passes[..n]);
    PassIsStep(env, rank, level, last.memo, last.pending, passes[n]);
  }

  /**
   * What compilation of all modules ends with, when what was memoised before is right: everything
   * is memoised as it is meant, or the last pass began with a memo, `last`, on which no pending
   * module evaluates; and a compilable database is done after at most as many passes as it has modules.
   */
  ghost predicate Concluded(env: Modules, rank: Object -> nat, level: string -> nat, memo: Memo, last: Memo, s: State,
                            passCount: nat, moduleCount: nat) {
    Lexical(env, rank) && Sound(env, rank, memo) ==>
      && Sound(env, rank, s.memo)
      && (if s.pending == [] then forall m :: m in env ==> Done(env, rank, s.memo, m)
          else Grows(memo, last) && Grows(last, s.memo) && Stuck(env, rank, last, s.pending))
      && (Compilable(env, rank, level) ==> s.pending == [] && passCount <= moduleCount)
  }

  lemma RunConcludes(env: Modules, rank: Object -> nat, level: string -> nat, memo: Memo, compile: seq<string>,
                     passes: seq<seq<seq<string>>>, s: State)
    returns (last: Memo)
    requires memo.Keys == Objects(env) && RunsTo(env, rank, memo, compile, passes, s)
    requires (forall m :: m in env ==> m in compile) && (s.pending == [] || !s.going)
    ensures passes != [] ==> last == After(env, rank, memo, compile, passes[..|passes| - 1]).memo
    ensures Concluded(env, rank, level, memo, last, s, |passes|, |compile|)
  {
    RunIsRight(env, rank, level, memo, compile, passes);
    last := if passes == [] then memo else After(env, rank, memo, compile, passes[..|passes| - 1]).memo;
    if s.pending != [] {
      GivesUpStuck(env, rank, level, memo, compile, passes);
    }
  }

  // ---------------------------------------------------------------- when giving up is right

  /**
   * The memo from after the last pass decides. None of the pending modules evaluates on it exactly
   * when none of them would compile next, in any order of its keys.
   */
  lemma RightToGiveUpIff(env: Modules, rank: Object -> nat, memo: Memo, pending: seq<string>)
    requires AreModules(env, pending) && memo.Keys == Objects(env)
    ensures (forall m :: m in pending ==> Fails(env, rank, memo, m)) <==>
            (forall m, keys :: m in pending && Attempts(env, rank, m, memo, keys) ==> !Visit(env, rank, m, memo, keys).0)
  {
    forall m, keys | m in pending && Attempts(env, rank, m, memo, keys)
      ensures Visit(env, rank, m, memo, keys).0 <==> !Fails(env, rank, memo, m)
    {
      AttemptIff(env, rank, m, memo, keys);
    }
    forall m | m in pending && !Fails(env, rank, memo, m)
      ensures exists keys :: Attempts(env, rank, m, memo, keys) && Visit(env, rank, m, memo, keys).0
    {
      var keys := SomeAttempt(env, rank, m, memo);
      AttemptIff(env, rank, m, memo, keys);
    }
  }

  /** A module that evaluates compiles in every pass that is made, wherever it stands in the pass. */
  lemma AnotherPassCompiles(env: Modules, rank: Object -> nat, memo: Memo, compile: seq<string>, orders: seq<seq<string>>, m: string)
    requires AreModules(env, compile) && |orders| == |compile| && memo.Keys == Objects(env)
    requires Orders(env, rank, memo, compile, orders) && !Fails(env, rank, memo, m)
    ensures m !in Pass(env, rank, memo, compile, orders).0
  {
    PassIsStep(env, rank, _ => 0, memo, compile, orders);
  }

  /** Nothing that a pending module sees could still be memoised, and none of them evaluates. */
  ghost predicate Settled(env: Modules, rank: Object -> nat, memo: Memo, pending: seq<string>)
    requires AreModules(env, pending)
  {
    forall m :: m in pending ==>
      && Fails(env, rank, memo, m)
      && forall x :: x in memo && memo[x] == [] && Seen(env, m, x) ==> Eval(env, rank, m, memo, x).GetOr([]) == []
  }

  /** Then giving up is final: no pass in any order compiles any of them or memoises anything. */
  lemma {:induction false} SettledIsFinal(env: Modules, rank: Object -> nat, memo: Memo, pending: seq<string>, compile: seq<string>, orders: seq<seq<string>>)
    requires AreModules(env, pending) && memo.Keys == Objects(env) && Settled(env, rank, memo, pending)
    requires |orders| == |compile| && forall m :: m in compile ==> m in pending
    requires Orders(env, rank, memo, compile, orders)
    ensures Pass(env, rank, memo, compile, orders) == (compile, memo)
    decreases |compile|
  {
    if compile == [] {
      return;
    }
    var n := |compile| - 1;
    SettledIsFinal(env, rank, memo, pending, compile[..n], orders[..n]);
    var m := compile[n];
    AttemptIff(env, rank, m, memo, orders[n]);
    var (ok, later) := Visit(env, rank, m, memo, orders[n]);
    forall x | x in memo
      ensures later[x] == memo[x]
    {
    }
    assert later == memo && compile == compile[..n] + [m];
  }
}
