/** The compilation of modules as a function of the orders in which maps are visited. */
module MibCompile {
  import opened Basics
  import opened MibResolve

  // ---------------------------------------------------------------- one object

  /** The OID that compilation gives, and the memo that it leaves behind even when it fails. */
  datatype Compiled = Compiled(oid: Option<OID>, memo: Memo)

  ghost function Compile(env: Modules, rank: Object -> nat, root: string, memo: Memo, o: Object): Compiled
    requires root in env
    decreases rank(o), |o.elements| + 2
  {
    if Known(memo, o) then Compiled(Some(memo[o]), memo)
    else
      var r := CompilePrefix(env, rank, root, memo, o, |o.elements|);
      if r.oid.None? then r else r.(memo := r.memo[o := r.oid.value])
  }

  ghost function CompilePrefix(env: Modules, rank: Object -> nat, root: string, memo: Memo, o: Object, k: nat): Compiled
    requires root in env && k <= |o.elements|
    decreases rank(o), k + 1
  {
    if k == 0 then Compiled(Some([]), memo)
    else
      var r := CompilePrefix(env, rank, root, memo, o, k - 1);
      if r.oid.None? then r
      else
        match o.elements[k - 1]
        case Number(n) => r.(oid := Some(r.oid.value + [n]))
        case Iso => r.(oid := Some([1]))
        case Name(name) => CompileName(env, rank, root, r.memo, o, name)
  }

  ghost function CompileName(env: Modules, rank: Object -> nat, root: string, memo: Memo, o: Object, name: string): Compiled
    requires root in env
    decreases rank(o), 0
  {
    match Lookup(env, root, name)
    case Some((_, ObjectDef(target))) =>
      if rank(target) < rank(o) then Compile(env, rank, root, memo, target) else Compiled(None, memo)
    case _ => Compiled(None, memo)
  }

  lemma {:induction false} PrefixStops(env: Modules, rank: Object -> nat, root: string, memo: Memo, o: Object, j: nat, k: nat)
    requires root in env && j <= k <= |o.elements| && CompilePrefix(env, rank, root, memo, o, j).oid.None?
    ensures CompilePrefix(env, rank, root, memo, o, k) == CompilePrefix(env, rank, root, memo, o, j)
    decreases k
  {
    if j < k {
      PrefixStops(env, rank, root, memo, o, j, k - 1);
    }
  }

  ghost predicate Finds(env: Modules, root: string, name: string, x: Object)
    requires root in env
  {
    match Lookup(env, root, name)
    case Some((_, ObjectDef(target))) => target == x
    case _ => false
  }

  /** Some name leads from `root` to `x`. */
  ghost predicate Seen(env: Modules, root: string, x: Object)
    requires root in env
  {
    exists name :: Finds(env, root, name, x)
  }

  /** Only objects that `root` sees have been memoised. */
  ghost predicate Changes(env: Modules, root: string, memo: Memo, later: Memo)
    requires root in env
  {
    later.Keys == memo.Keys && forall x {:trigger later[x]} :: x in memo ==> later[x] == memo[x] || Seen(env, root, x)
  }

  /** Compilation gives what the memo from before says, and memoises only what that memo evaluates to. */
  lemma {:induction false} CompileIsEval(env: Modules, rank: Object -> nat, root: string, memo: Memo, o: Object)
    requires root in env && o in Objects(env) && memo.Keys == Objects(env)
    ensures var r := Compile(env, rank, root, memo, o);
            && r.oid == Eval(env, rank, root, memo, o)
            && Extends(env, rank, root, memo, r.memo)
            && (Seen(env, root, o) ==> Changes(env, root, memo, r.memo))
    decreases rank(o), |o.elements| + 2
  {
    if !Known(memo, o) {
      PrefixIsEval(env, rank, root, memo, o, |o.elements|);
    }
  }

  lemma {:induction false} PrefixIsEval(env: Modules, rank: Object -> nat, root: string, memo: Memo, o: Object, k: nat)
    requires root in env && k <= |o.elements| && memo.Keys == Objects(env)
    ensures var r := CompilePrefix(env, rank, root, memo, o, k);
            && r.oid == EvalPrefix(env, rank, root, memo, o, k)
            && Extends(env, rank, root, memo, r.memo) && Changes(env, root, memo, r.memo)
    decreases rank(o), k + 1
  {
    if k == 0 {
      return;
    }
    PrefixIsEval(env, rank, root, memo, o, k - 1);
    var r := CompilePrefix(env, rank, root, memo, o, k - 1);
    if r.oid.None? {
      return;
    }
    EvalPrefixNext(env, rank, root, memo, o, k - 1);
    var e := o.elements[k - 1];
    if e.Name? {
      EvalNameStable(env, rank, root, memo, r.memo, o, e.name);
      NameIsEval(env, rank, root, r.memo, o, e.name);
      ExtendsTransitive(env, rank, root, memo, r.memo, CompileName(env, rank, root, r.memo, o, e.name).memo);
    }
  }

  lemma {:induction false} NameIsEval(env: Modules, rank: Object -> nat, root: string, memo: Memo, o: Object, name: string)
    requires root in env && memo.Keys == Objects(env)
    ensures var r := CompileName(env, rank, root, memo, o, name);
            && r.oid == EvalName(env, rank, root, memo, o, name)
            && Extends(env, rank, root, memo, r.memo) && Changes(env, root, memo, r.memo)
    decreases rank(o), 0
  {
    LookupFindsOwned(env, root, name);
    match Lookup(env, root, name)
    case Some((_, ObjectDef(target))) =>
      if rank(target) < rank(o) {
        assert Finds(env, root, name, target);
        CompileIsEval(env, rank, root, memo, target);
      }
    case _ =>
  }

  // ---------------------------------------------------------------- one module

  /** Compiling a definition: those that are not objects compile to themselves or fail for good. */
  ghost function Define(env: Modules, rank: Object -> nat, root: string, memo: Memo, def: Definition): (bool, Memo)
    requires root in env
  {
    match def
    case ObjectDef(o) =>
      var r := Compile(env, rank, root, memo, o);
      (r.oid.Some?, r.memo)
    case TypeDef(ident) => (ident in SIMPLE_TYPE_NAMES, memo)
    case Other => (true, memo)
  }

  ghost predicate AreKeys(env: Modules, m: string, keys: seq<string>) {
    m in env && forall k :: k in keys ==> k in env[m].definitions
  }

  /** Compiling the definitions under some keys of module `m`, up to the first failure. */
  ghost function Visit(env: Modules, rank: Object -> nat, m: string, memo: Memo, keys: seq<string>): (bool, Memo)
    requires m in env
    decreases |keys|
  {
    if keys == [] then (true, memo)
    else
      var n := |keys| - 1;
      var (ok, mid) := Visit(env, rank, m, memo, keys[..n]);
      if ok && keys[n] in env[m].definitions then Define(env, rank, m, mid, env[m].definitions[keys[n]]) else (false, mid)
  }

  lemma VisitOn(env: Modules, rank: Object -> nat, m: string, memo: Memo, keys: seq<string>, key: string)
    requires m in env && key in env[m].definitions
    ensures var (ok, mid) := Visit(env, rank, m, memo, keys);
            Visit(env, rank, m, memo, keys + [key]) ==
            if ok then Define(env, rank, m, mid, env[m].definitions[key]) else (false, mid)
  {
    assert (keys + [key])[..|keys|] == keys;
  }

  predicate Distinct(keys: seq<string>) {
    forall i, j :: 0 <= i < j < |keys| ==> keys[i] != keys[j]
  }

  /** An attempt at module `m`: each key at most once, all of them on success and up to the failing one otherwise. */
  ghost predicate Attempts(env: Modules, rank: Object -> nat, m: string, memo: Memo, keys: seq<string>) {
    && AreKeys(env, m, keys) && Distinct(keys)
    && (if Visit(env, rank, m, memo, keys).0 then forall k :: k in env[m].definitions ==> k in keys
        else keys != [] && Visit(env, rank, m, memo, keys[..|keys| - 1]).0)
  }

  /** All keys so far have been compiled. */
  ghost predicate AttemptsSoFar(env: Modules, rank: Object -> nat, m: string, memo: Memo, keys: seq<string>, mid: Memo) {
    AreKeys(env, m, keys) && Distinct(keys) && Visit(env, rank, m, memo, keys) == (true, mid)
  }

  /** An attempt and how it ends. */
  ghost predicate Attempted(env: Modules, rank: Object -> nat, m: string, memo: Memo, keys: seq<string>, ok: bool, later: Memo) {
    Attempts(env, rank, m, memo, keys) && Visit(env, rank, m, memo, keys) == (ok, later)
  }

  lemma AttemptGoesOn(env: Modules, rank: Object -> nat, m: string, memo: Memo, keys: seq<string>, mid: Memo, key: string)
    requires AttemptsSoFar(env, rank, m, memo, keys, mid) && key in env[m].definitions && key !in keys
    ensures var (ok, later) := Define(env, rank, m, mid, env[m].definitions[key]);
            && (ok ==> AttemptsSoFar(env, rank, m, memo, keys + [key], later))
            && (!ok ==> Attempted(env, rank, m, memo, keys + [key], false, later))
  {
    VisitOn(env, rank, m, memo, keys, key);
    assert (keys + [key])[..|keys|] == keys;
  }

  /** The definition can be compiled from this memo. */
  ghost predicate Compiles(env: Modules, rank: Object -> nat, m: string, memo: Memo, def: Definition)
    requires m in env
  {
    match def
    case ObjectDef(o) => Eval(env, rank, m, memo, o).Some?
    case TypeDef(ident) => ident in SIMPLE_TYPE_NAMES
    case Other => true
  }

  lemma DefineIs(env: Modules, rank: Object -> nat, m: string, before: Memo, memo: Memo, key: string)
    requires m in env && key in env[m].definitions && memo.Keys == Objects(env) && Extends(env, rank, m, before, memo)
    ensures var (ok, later) := Define(env, rank, m, memo, env[m].definitions[key]);
            && Extends(env, rank, m, memo, later) && Changes(env, m, memo, later)
            && (ok <==> Compiles(env, rank, m, before, env[m].definitions[key]))
            && (ok ==> Processed(env, rank, m, before, later, env[m].definitions[key]))
  {
    match env[m].definitions[key]
    case ObjectDef(o) =>
      assert Finds(env, m, key, o);
      CompileIsEval(env, rank, m, memo, o);
      EvalStable(env, rank, m, before, memo, o);
      var later := Compile(env, rank, m, memo, o).memo;
      ExtendsTransitive(env, rank, m, before, memo, later);
      EvalStable(env, rank, m, before, later, o);
    case _ =>
  }

  /** Whatever the order, the outcome is decided by the memo from before. */
  lemma {:induction false} VisitIs(env: Modules, rank: Object -> nat, m: string, memo: Memo, keys: seq<string>)
    requires AreKeys(env, m, keys) && memo.Keys == Objects(env)
    ensures var (ok, later) := Visit(env, rank, m, memo, keys);
            && Extends(env, rank, m, memo, later) && Changes(env, m, memo, later)
            && (ok <==> forall k :: k in keys ==> Compiles(env, rank, m, memo, env[m].definitions[k]))
            && (ok ==> AllProcessed(env, rank, m, memo, later, set k | k in keys))
    decreases |keys|
  {
    if keys == [] {
      return;
    }
    var n := |keys| - 1;
    var front, last := keys[..n], keys[n];
    VisitIs(env, rank, m, memo, front);
    var (ok, mid) := Visit(env, rank, m, memo, front);
    assert keys == front + [last];
    if !ok {
      return;
    }
    DefineIs(env, rank, m, memo, mid, last);
    var (good, later) := Define(env, rank, m, mid, env[m].definitions[last]);
    ExtendsTransitive(env, rank, m, memo, mid, later);
    ProcessedStays(env, rank, m, memo, mid, later, set k | k in front);
  }

  lemma FailsIff(env: Modules, rank: Object -> nat, m: string, memo: Memo)
    requires m in env
    ensures Fails(env, rank, memo, m) <==>
            exists k :: k in env[m].definitions && !Compiles(env, rank, m, memo, env[m].definitions[k])
  {
    if TypesKnown(env, m) && !AllEvaluate(env, rank, m, memo) {
      var o :| o in Objects(env) && Owns(env, m, o) && Eval(env, rank, m, memo, o).None?;
      var k :| k in env[m].definitions && env[m].definitions[k] == ObjectDef(o);
      assert !Compiles(env, rank, m, memo, env[m].definitions[k]);
    }
    if k :| k in env[m].definitions && !Compiles(env, rank, m, memo, env[m].definitions[k]) {
      if env[m].definitions[k].ObjectDef? {
        assert Owns(env, m, env[m].definitions[k].obj);
      }
    }
  }

  /** In every order an attempt at a module succeeds exactly when all of its objects evaluate and its types are known. */
  lemma AttemptIff(env: Modules, rank: Object -> nat, m: string, memo: Memo, keys: seq<string>)
    requires Attempts(env, rank, m, memo, keys) && memo.Keys == Objects(env)
    ensures var (ok, later) := Visit(env, rank, m, memo, keys);
            && (ok <==> !Fails(env, rank, memo, m))
            && Extends(env, rank, m, memo, later) && Changes(env, m, memo, later)
            && (ok ==> AllProcessed(env, rank, m, memo, later, env[m].definitions.Keys))
  {
    VisitIs(env, rank, m, memo, keys);
    FailsIff(env, rank, m, memo);
    if Visit(env, rank, m, memo, keys).0 {
      assert (set k | k in keys) == env[m].definitions.Keys;
    }
  }

  /** There is an order to attempt any module in. */
  lemma {:induction false} AnyOrder(keys: set<string>) returns (order: seq<string>)
    ensures Distinct(order) && forall k :: k in order <==> k in keys
  {
    order := [];
    if keys != {} {
      var k :| k in keys;
      var rest := AnyOrder(keys - {k});
      order := [k] + rest;
    }
  }

  lemma SomeAttempt(env: Modules, rank: Object -> nat, m: string, memo: Memo) returns (keys: seq<string>)
    requires m in env && memo.Keys == Objects(env) && !Fails(env, rank, memo, m)
    ensures Attempts(env, rank, m, memo, keys)
  {
    keys := AnyOrder(env[m].definitions.Keys);
    VisitIs(env, rank, m, memo, keys);
    FailsIff(env, rank, m, memo);
  }
}
