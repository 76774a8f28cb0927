/** A single pass in the order of imports, and what later passes can do beyond it. */
module MibLevels {
  import opened Basics
  import opened MibResolve
  import opened MibCompile
  import opened MibPasses

  /** Every object is defined by one module only. */
  ghost predicate OwnedOnce(env: Modules) {
    forall a, b, o {:trigger Owns(env, a, o), Owns(env, b, o)} ::
      a in env && b in env && o in Objects(env) && Owns(env, a, o) && Owns(env, b, o) ==> a == b
  }

  /** Every module comes after all modules of lower level. */
  ghost predicate InLevelOrder(env: Modules, level: string -> nat, compile: seq<string>) {
    && AreModules(env, compile) && Distinct(compile)
    && forall i, m :: 0 <= i < |compile| && m in env && level(m) < level(compile[i]) ==> m in compile[..i]
  }

  lemma FrontInLevelOrder(env: Modules, level: string -> nat, compile: seq<string>)
    requires InLevelOrder(env, level, compile) && compile != []
    ensures InLevelOrder(env, level, compile[..|compile| - 1]) && compile[|compile| - 1] !in compile[..|compile| - 1]
    ensures compile == compile[..|compile| - 1] + [compile[|compile| - 1]]
  {
    var front := compile[..|compile| - 1];
    forall i, m | 0 <= i < |front| && m in env && level(m) < level(front[i])
      ensures m in front[..i]
    {
      assert front[..i] == compile[..i] && front[i] == compile[i];
    }
  }

  /** A module sees its own objects and those of modules of lower level. */
  lemma SeenIsBelow(env: Modules, level: string -> nat, root: string, x: Object) returns (home: string)
    requires root in env && ImportsAcyclic(env, level) && Seen(env, root, x)
    ensures Owns(env, home, x) && x in Objects(env) && (home == root || level(home) < level(root))
  {
    var name :| Finds(env, root, name, x);
    LookupFindsOwned(env, root, name);
    home := Lookup(env, root, name).value.0;
  }

  /** Only objects of the given modules have been memoised. */
  ghost predicate KnownWithin(env: Modules, memo: Memo, modules: seq<string>) {
    forall m, x {:trigger Owns(env, m, x), memo[x]} :: m in env && x in memo && memo[x] != [] && Owns(env, m, x) ==> m in modules
  }

  lemma KnownAfterAttempt(env: Modules, level: string -> nat, compile: seq<string>, memo: Memo, later: Memo)
    requires InLevelOrder(env, level, compile) && compile != [] && ImportsAcyclic(env, level) && OwnedOnce(env)
    requires KnownWithin(env, memo, compile[..|compile| - 1]) && Changes(env, compile[|compile| - 1], memo, later)
    ensures KnownWithin(env, later, compile)
  {
    var n := |compile| - 1;
    forall m, x | m in env && x in later && later[x] != [] && Owns(env, m, x)
      ensures m in compile
    {
      if later[x] == memo[x] {
        assert m in compile[..n];
      } else {
        var home := SeenIsBelow(env, level, compile[n], x);
        assert home == m;
      }
    }
  }

  ghost predicate Visible(env: Modules, rank: Object -> nat, m: string)
    requires m in env && Resolves(env, rank)
  {
    TypesKnown(env, m) && AllReachable(env, rank, m)
  }

  lemma NextInLevelOrder(env: Modules, rank: Object -> nat, level: string -> nat, memo: Memo, front: seq<string>, m: string)
    requires Lexical(env, rank) && ImportsAcyclic(env, level) && InLevelOrder(env, level, front + [m])
    requires memo.Keys == Objects(env) && Sound(env, rank, memo) && KnownWithin(env, memo, front)
    requires forall k :: k in front ==> Done(env, rank, memo, k)
    ensures !Fails(env, rank, memo, m) <==> Visible(env, rank, m)
  {
    var compile := front + [m];
    assert compile[..|front|] == front && compile[|front|] == m;
    FrontInLevelOrder(env, level, compile);
    assert LowerDone(env, rank, level, memo, m);
    forall o | o in Objects(env) && Owns(env, m, o)
      ensures !Known(memo, o)
    {
    }
    ModuleCompilesIff(env, rank, level, m, memo);
  }

  /** What a pass in level order has done so far. */
  ghost predicate LevelState(env: Modules, rank: Object -> nat, compile: seq<string>, failed: seq<string>, memo: Memo)
    requires Resolves(env, rank) && AreModules(env, compile)
  {
    && memo.Keys == Objects(env) && Sound(env, rank, memo) && KnownWithin(env, memo, compile)
    && (failed == [] ==> forall m :: m in compile ==> Done(env, rank, memo, m))
    && (failed == [] <==> forall m :: m in compile ==> Visible(env, rank, m))
  }

  lemma LevelStep(env: Modules, rank: Object -> nat, level: string -> nat, front: seq<string>, failed: seq<string>, memo: Memo,
                  m: string, keys: seq<string>)
    requires Lexical(env, rank) && ImportsAcyclic(env, level) && OwnedOnce(env) && InLevelOrder(env, level, front + [m])
    requires AreModules(env, front) && LevelState(env, rank, front, failed, memo)
    requires m in env && Attempts(env, rank, m, memo, keys)
    ensures var (ok, later) := Visit(env, rank, m, memo, keys);
            LevelState(env, rank, front + [m], if ok then failed else failed + [m], later)
  {
    var compile := front + [m];
    AttemptIff(env, rank, m, memo, keys);
    var (ok, later) := Visit(env, rank, m, memo, keys);
    assert compile[..|compile| - 1] == front;
    ExtendsKeepsSound(env, rank, m, memo, later);
    KnownAfterAttempt(env, level, compile, memo, later);
    if failed != [] {
      return;
    }
    NextInLevelOrder(env, rank, level, memo, front, m);
    if ok {
      ProcessedIsDone(env, rank, m, memo, later);
    }
  }

  /**
   * In level order and from a fresh memo, one pass compiles all of its modules exactly when each of
   * them sees what it needs.
   */
  lemma {:induction false} LevelPassIff(env: Modules, rank: Object -> nat, level: string -> nat, memo: Memo,
                                        compile: seq<string>, orders: seq<seq<string>>)
    requires Lexical(env, rank) && ImportsAcyclic(env, level) && OwnedOnce(env) && InLevelOrder(env, level, compile)
    requires memo.Keys == Objects(env) && (forall o :: o in memo ==> memo[o] == [])
    requires |orders| == |compile| && Orders(env, rank, memo, compile, orders)
    ensures var (failed, later) := Pass(env, rank, memo, compile, orders); LevelState(env, rank, compile, failed, later)
    decreases |compile|
  {
    if compile == [] {
      return;
    }
    var n := |compile| - 1;
    FrontInLevelOrder(env, level, compile);
    LevelPassIff(env, rank, level, memo, compile[..n], orders[..n]);
    var (failed, mid) := Pass(env, rank, memo, compile[..n], orders[..n]);
    LevelStep(env, rank, level, compile[..n], failed, mid, compile[n], orders[n]);
  }

  /** For the whole database: one pass in level order from a fresh memo compiles everything exactly when it is compilable. */
  lemma OnePassIff(env: Modules, rank: Object -> nat, level: string -> nat, memo: Memo, compile: seq<string>, orders: seq<seq<string>>)
    requires Lexical(env, rank) && ImportsAcyclic(env, level) && OwnedOnce(env) && InLevelOrder(env, level, compile)
    requires forall m :: m in env ==> m in compile
    requires memo.Keys == Objects(env) && (forall o :: o in memo ==> memo[o] == [])
    requires |orders| == |compile| && Orders(env, rank, memo, compile, orders)
    ensures Pass(env, rank, memo, compile, orders).0 == [] <==> Compilable(env, rank, level)
  {
    LevelPassIff(env, rank, level, memo, compile, orders);
  }
}
