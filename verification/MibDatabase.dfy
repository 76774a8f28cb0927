/** The modules of a MIB database on the heap: lookup, compilation in passes, and the OID index. */
module MibDatabase {
  import opened Basics
  import Decimals
  import opened MibResolve
  import opened MibCompile
  import opened MibPasses
  import opened OidIndex

  ghost function MemoOf(objects: set<Object>): Memo
    reads objects`compiled
  {
    map o | o in objects :: o.compiled
  }

  /** The memo as it is when `o`, whose OID is being put together, counts as not compiled. */
  ghost function MemoWithout(objects: set<Object>, o: Object): Memo
    reads (objects - {o})`compiled
  {
    map x | x in objects :: if x == o then [] else x.compiled
  }

  lemma MemoOfUncompiled(objects: set<Object>, o: Object)
    requires o.compiled == []
    ensures MemoOf(objects) == MemoWithout(objects, o)
  {
  }

  /** The first `i` elements of `o` have been added up; `before` is the memo from before `o` was begun. */
  ghost predicate Partial(env: Modules, rank: Object -> nat, root: string, before: Memo, o: Object, i: nat)
    requires root in env && i <= |o.elements|
    reads o, Objects(env)`compiled
  {
    CompilePrefix(env, rank, root, before, o, i) == Compiled(Some(o.compiled), MemoWithout(Objects(env), o))
  }

  lemma PartialIsWhole(env: Modules, rank: Object -> nat, root: string, before: Memo, o: Object)
    requires root in env && o in Objects(env) && !Known(before, o)
    requires Partial(env, rank, root, before, o, |o.elements|)
    ensures Compile(env, rank, root, before, o) == Compiled(Some(o.compiled), MemoOf(Objects(env)))
  {
    assert MemoWithout(Objects(env), o)[o := o.compiled] == MemoOf(Objects(env));
  }

  lemma PartialAtStart(env: Modules, rank: Object -> nat, root: string, o: Object)
    requires root in env && o in Objects(env) && o.compiled == []
    ensures Partial(env, rank, root, MemoOf(Objects(env)), o, 0)
  {
    MemoOfUncompiled(Objects(env), o);
  }

  class Module {
    const database: Database
    const name: string
    var imports: map<string, string>
    var definitions: map<string, Definition>

    constructor (database: Database, name: string, imports: map<string, string>, definitions: map<string, Definition>)
      ensures this.database == database && this.name == name
      ensures this.imports == imports && this.definitions == definitions
    {
      this.database := database;
      this.name := name;
      this.imports := imports;
      this.definitions := definitions;
    }

    ghost function Tables(): Scope
      reads this
    {
      Scope(imports, definitions)
    }

    /** `env` is a snapshot of the database that this module belongs to. */
    ghost predicate Sees(env: Modules)
      reads this, database`modules, database.modules.Values
    {
      database.Shows(env) && database.Holds(this)
    }

    /** A definition is stored under its key again; all of them compile to themselves. */
    method Store(key: string, def: Definition, ghost env: Modules)
      requires Sees(env) && key in definitions && definitions[key] == def
      modifies this`definitions
      ensures Sees(env) && definitions == old(definitions)
    {
      definitions := definitions[key := def];
      assert definitions == old(definitions);
      assert database.Env() == old(database.Env());
    }

    method LookupName(item: string, ghost env: Modules) returns (found: Option<(Definition, Module)>)
      requires Sees(env)
      ensures match Lookup(env, name, item)
              case None => found == None
              case Some((home, def)) => home in database.modules && found == Some((def, database.modules[home]))
      ensures item in definitions ==> found == Some((definitions[item], this))
      ensures item !in definitions && item in imports && imports[item] != "" ==>
        && (imports[item] !in database.modules ==> found == None)
        && (imports[item] in database.modules && item in database.modules[imports[item]].definitions ==>
              found == Some((database.modules[imports[item]].definitions[item], database.modules[imports[item]])))
      ensures item !in definitions
              && (item in imports && imports[item] != "" ==>
                    imports[item] in database.modules && item !in database.modules[imports[item]].definitions) ==>
        "<builtin>" in database.modules
        && var builtin := database.modules["<builtin>"];
           found == if item in builtin.definitions then Some((builtin.definitions[item], builtin)) else None
    {
      if item in definitions {
        return Some((definitions[item], this));
      }
      var other := database.modules[BUILTIN];
      if item in imports && imports[item] != "" {
        if imports[item] !in database.modules {
          return None;
        }
        other := database.modules[imports[item]];
      }
      if item in other.definitions {
        return Some((other.definitions[item], other));
      }
      other := database.modules[BUILTIN];
      if item in other.definitions {
        return Some((other.definitions[item], other));
      }
      return None;
    }
  }

  function BuiltinDefinitions(iso: Object): map<string, Definition> {
    (map name | name in SIMPLE_TYPE_NAMES :: TypeDef(name))
      ["iso" := ObjectDef(iso)]["OBJECT-TYPE" := Other]["TRAP-TYPE" := Other]
  }

  lemma BuiltinByName(iso: Object)
    ensures BuiltinDefinitions(iso) == map["iso" := ObjectDef(iso),
      "OBJECT-TYPE" := Other, "TRAP-TYPE" := Other, "INTEGER" := TypeDef("INTEGER"),
      "OCTET STRING" := TypeDef("OCTET STRING"), "SEQUENCE" := TypeDef("SEQUENCE"),
      "SEQUENCE OF" := TypeDef("SEQUENCE OF"), "CHOICE" := TypeDef("CHOICE"),
      "OBJECT IDENTIFIER" := TypeDef("OBJECT IDENTIFIER"), "IA5String" := TypeDef("IA5String")]
  {
  }

  lemma OneIsNumber(elements: seq<Element>)
    requires MadeFrom(elements, ["1"])
    ensures elements == [Number(1)]
  {
    Decimals.PrintedStands(1);
    ClassifyIff("1", Number(1));
    ClassifyIff("1", elements[0]);
  }

  class Database {
    var modules: map<string, Module>
    var definitions: map<string, Definition>
    const root: OidBranch<Object>

    /** A database that knows no module but the built-in one, with `iso` and the types and macros. */
    constructor ()
      ensures Valid() && modules.Keys == {"<builtin>"} && modules["<builtin>"].imports == map[]
      ensures exists iso: Object :: fresh(iso) && iso.elements == [Number(1)] && iso.compiled == []
                                    && modules["<builtin>"].definitions == map["iso" := ObjectDef(iso),
                                         "OBJECT-TYPE" := Other, "TRAP-TYPE" := Other, "INTEGER" := TypeDef("INTEGER"),
                                         "OCTET STRING" := TypeDef("OCTET STRING"), "SEQUENCE" := TypeDef("SEQUENCE"),
                                         "SEQUENCE OF" := TypeDef("SEQUENCE OF"), "CHOICE" := TypeDef("CHOICE"),
                                         "OBJECT IDENTIFIER" := TypeDef("OBJECT IDENTIFIER"), "IA5String" := TypeDef("IA5String")]
      ensures fresh(root.Repr) && root.Valid() && forall path :: root.Get(path) == None
    {
      root := new OidBranch<Object>();
      definitions := map[];
      new;
      var iso := new Object("", ["1"]);
      OneIsNumber(iso.elements);
      BuiltinByName(iso);
      var builtin := new Module(this, BUILTIN, map[], BuiltinDefinitions(iso));
      modules := map[BUILTIN := builtin];
    }

    ghost predicate Valid()
      reads this`modules, modules.Values
    {
      && BUILTIN in modules
      && forall m :: m in modules ==> modules[m].name == m && modules[m].database == this
    }

    ghost predicate Holds(m: Module)
      reads this`modules
    {
      m.name in modules && modules[m.name] == m
    }

    ghost function Env(): Modules
      requires Valid()
      reads this`modules, modules.Values
    {
      map m | m in modules :: modules[m].Tables()
    }

    /** `env` is a snapshot of the modules. */
    ghost predicate Shows(env: Modules)
      reads this`modules, modules.Values
    {
      Valid() && env == Env()
    }
  }

  /** Looks a name of `o` up in the scope of `root` and compiles what it finds. */
  method CompileReference(name: string, o: Object, root: Module, ghost env: Modules, ghost rank: Object -> nat)
    returns (oid: Option<OID>)
    requires root.Sees(env)
    requires Acyclic(env, rank) && o in Objects(env) && Name(name) in o.elements
    modifies (set x | x in Objects(env) && rank(x) < rank(o))`compiled
    ensures Compiled(oid, MemoOf(Objects(env))) == CompileName(env, rank, root.name, old(MemoOf(Objects(env))), o, name)
    decreases rank(o), 0
  {
    assert Descends(env, rank, root.name, o, name);
    var found := root.LookupName(name, env);
    if found.None? {
      return None;
    }
    var (def, _) := found.value;
    if !def.ObjectDef? {
      return None;
    }
    LookupFindsOwned(env, root.name, name);
    var ok := CompileObject(def.obj, root, env, rank);
    return if ok then Some(def.obj.compiled) else None;
  }

  /** Adds element `i`, which discards the OID so far when it is not a number. */
  method CompileElement(o: Object, i: nat, root: Module, ghost env: Modules, ghost rank: Object -> nat, ghost before: Memo)
    returns (ok: bool)
    requires root.Sees(env) && Acyclic(env, rank) && o in Objects(env)
    requires i < |o.elements| && Partial(env, rank, root.name, before, o, i)
    modifies (set x | x in Objects(env) && rank(x) <= rank(o))`compiled
    ensures ok ==> Partial(env, rank, root.name, before, o, i + 1)
    ensures !ok ==> o.compiled == []
    ensures !ok ==> CompilePrefix(env, rank, root.name, before, o, i + 1) == Compiled(None, MemoOf(Objects(env)))
    decreases rank(o), 1
  {
    var element := o.elements[i];
    if element.Number? {
      o.compiled := o.compiled + [element.n];
      assert MemoWithout(Objects(env), o) == old(MemoWithout(Objects(env), o));
      return true;
    }
    o.compiled := [];
    if element.Iso? {
      o.compiled := o.compiled + [1];
      assert o.compiled == [1] && MemoWithout(Objects(env), o) == old(MemoWithout(Objects(env), o));
      return true;
    }
    MemoOfUncompiled(Objects(env), o);
    var oid := CompileReference(element.name, o, root, env, rank);
    if oid.None? {
      return false;
    }
    MemoOfUncompiled(Objects(env), o);
    o.compiled := o.compiled + oid.value;
    assert o.compiled == oid.value;
    return true;
  }

  /** Compiles one object in the scope of `root`. */
  method CompileObject(o: Object, root: Module, ghost env: Modules, ghost rank: Object -> nat) returns (ok: bool)
    requires root.Sees(env) && Acyclic(env, rank) && o in Objects(env)
    modifies (set x | x in Objects(env) && rank(x) <= rank(o))`compiled
    ensures Compiled(if ok then Some(o.compiled) else None, MemoOf(Objects(env))) ==
            Compile(env, rank, root.name, old(MemoOf(Objects(env))), o)
    ensures !ok ==> o.compiled == []
    decreases rank(o), 2
  {
    ghost var before := MemoOf(Objects(env));
    if |o.compiled| > 0 {
      return true;
    }
    PartialAtStart(env, rank, root.name, o);
    var i := 0;
    while i < |o.elements|
      invariant 0 <= i <= |o.elements|
      invariant Partial(env, rank, root.name, before, o, i)
    {
      ok := CompileElement(o, i, root, env, rank, before);
      if !ok {
        PrefixStops(env, rank, root.name, before, o, i + 1, |o.elements|);
        return;
      }
      i := i + 1;
    }
    PartialIsWhole(env, rank, root.name, before, o);
    return true;
  }

  /** Compiles one definition; those that are not objects compile to themselves or fail for good. */
  method CompileDefinition(def: Definition, root: Module, ghost env: Modules, ghost rank: Object -> nat) returns (ok: bool)
    requires root.Sees(env) && Acyclic(env, rank)
    requires def.ObjectDef? ==> def.obj in Objects(env)
    modifies Objects(env)`compiled
    ensures (ok, MemoOf(Objects(env))) == Define(env, rank, root.name, old(MemoOf(Objects(env))), def)
  {
    match def
    case ObjectDef(o) =>
      ok := CompileObject(o, root, env, rank);
    case TypeDef(ident) =>
      ok := ident in SIMPLE_TYPE_NAMES;
    case Other =>
      ok := true;
  }

  /** Compiles the definitions of a module, in the order of `keys`, up to the first failure. */
  method CompileModule(root: Module, ghost env: Modules, ghost rank: Object -> nat) returns (ok: bool, ghost keys: seq<string>)
    requires root.Sees(env) && Acyclic(env, rank)
    modifies root`definitions, Objects(env)`compiled
    ensures root.Sees(env) && root.definitions == old(root.definitions)
    ensures Attempted(env, rank, root.name, old(MemoOf(Objects(env))), keys, ok, MemoOf(Objects(env)))
    ensures ok <==> TypesKnown(env, root.name) && AllEvaluate(env, rank, root.name, old(MemoOf(Objects(env))))
  {
    ghost var before := MemoOf(Objects(env));
    var rest := root.definitions.Keys;
    keys := [];
    while rest != {}
      invariant root.Sees(env) && root.definitions == old(root.definitions)
      invariant AttemptsSoFar(env, rank, root.name, before, keys, MemoOf(Objects(env)))
      invariant forall k :: k in root.definitions <==> k in rest || k in keys
      invariant forall k :: k in rest ==> k !in keys
      decreases rest
    {
      var key :| key in rest;
      var def := root.definitions[key];
      assert env[root.name].definitions[key] == def;
      AttemptGoesOn(env, rank, root.name, before, keys, MemoOf(Objects(env)), key);
      ok := CompileDefinition(def, root, env, rank);
      keys := keys + [key];
      if !ok {
        AttemptIff(env, rank, root.name, before, keys);
        return;
      }
      root.Store(key, def, env);
      rest := rest - {key};
    }
    AttemptIff(env, rank, root.name, before, keys);
    return true, keys;
  }

  lemma OneMore(names: seq<string>, i: nat)
    requires i < |names|
    ensures names[..i + 1] == names[..i] + [names[i]]
  {
  }

  /** One pass over the pending modules; those that fail are left for the next pass. */
  method CompilePass(db: Database, compile: seq<string>, ghost env: Modules, ghost rank: Object -> nat)
    returns (failed: seq<string>, successCount: nat, ghost orders: seq<seq<string>>)
    requires db.Shows(env) && Acyclic(env, rank) && AreModules(env, compile)
    modifies db.modules.Values`definitions, Objects(env)`compiled
    ensures db.Shows(env) && |failed| + successCount == |compile|
    ensures Passes(env, rank, old(MemoOf(Objects(env))), compile, orders, failed, MemoOf(Objects(env)))
  {
    ghost var start := MemoOf(Objects(env));
    failed, successCount, orders := [], 0, [];
    for i := 0 to |compile|
      invariant db.Shows(env)
      invariant |failed| + successCount == i
      invariant Passes(env, rank, start, compile[..i], orders, failed, MemoOf(Objects(env)))
    {
      assert compile[i] in compile;
      var root := db.modules[compile[i]];
      assert root in db.modules.Values;
      ghost var mid := MemoOf(Objects(env));
      var ok, keys := CompileModule(root, env, rank);
      PassMore(env, rank, start, compile[..i], orders, failed, mid, compile[i], keys);
      OneMore(compile, i);
      orders := orders + [keys];
      if ok {
        successCount := successCount + 1;
      } else {
        failed := failed + [compile[i]];
      }
    }
    assert compile[..|compile|] == compile;
  }

  /** The next pass of a run from the memo `start`. */
  method CompileNext(db: Database, pending: seq<string>, ghost env: Modules, ghost rank: Object -> nat,
                     ghost start: Memo, ghost compile: seq<string>, ghost passes: seq<seq<seq<string>>>, ghost s: State)
    returns (failed: seq<string>, successCount: nat, ghost more: seq<seq<seq<string>>>, ghost next: State)
    requires db.Shows(env) && Acyclic(env, rank) && RunsTo(env, rank, start, compile, passes, s)
    requires s == State(pending, MemoOf(Objects(env)), true) && pending != []
    modifies db.modules.Values`definitions, Objects(env)`compiled
    ensures db.Shows(env) && |failed| + successCount == |pending| && |more| == |passes| + 1
    ensures next == State(failed, MemoOf(Objects(env)), successCount > 0) && RunsTo(env, rank, start, compile, more, next)
  {
    ghost var orders;
    failed, successCount, orders := CompilePass(db, pending, env, rank);
    RunMore(env, rank, start, compile, passes, s, orders, failed, MemoOf(Objects(env)));
    more, next := passes + [orders], State(failed, MemoOf(Objects(env)), successCount > 0);
  }

  /** Passes over the pending modules until none is left or a pass compiles nothing. */
  method CompileInPasses(db: Database, compile: seq<string>, ghost env: Modules, ghost rank: Object -> nat)
    returns (ok: bool, passCount: nat, ghost passes: seq<seq<seq<string>>>, ghost s: State)
    requires db.Shows(env) && Acyclic(env, rank) && AreModules(env, compile)
    modifies db.modules.Values`definitions, Objects(env)`compiled
    ensures db.Shows(env) && passCount == |passes|
    ensures RunsTo(env, rank, old(MemoOf(Objects(env))), compile, passes, s) && MemoOf(Objects(env)) == s.memo
    ensures if ok then s.pending == [] else s.pending != [] && !s.going
  {
    ghost var start := MemoOf(Objects(env));
    passes, s := [], State(compile, start, true);
    var pending := compile;
    var successCount: nat, errors: nat := 1, 0;
    passCount := 0;
    while successCount > 0
      invariant db.Shows(env)
      invariant RunsTo(env, rank, start, compile, passes, s) && passCount == |passes|
      invariant s == State(pending, MemoOf(Objects(env)), successCount > 0)
      invariant successCount == 0 ==> errors == |pending| > 0
      decreases |pending|, successCount
    {
      errors := 0;
      if |pending| == 0 {
        break;
      }
      passCount := passCount + 1;
      var failed;
      failed, successCount, passes, s := CompileNext(db, pending, env, rank, start, compile, passes, s);
      errors := |failed|;
      pending := failed;
    }
    ok := errors == 0;
  }

  /**
   * Compiles all modules, in any order. Whatever is memoised is the meaning of its object; a
   * compilable database is done after at most as many passes as it has modules; and when
   * compilation gives up, its last pass began with a memo, `last`, on which none of the pending
   * modules could be compiled.
   */
  method CompileValues(db: Database, ghost env: Modules, ghost rank: Object -> nat, ghost level: string -> nat)
    returns (ok: bool, passCount: nat, ghost compile: seq<string>, ghost passes: seq<seq<seq<string>>>, ghost s: State, ghost last: Memo)
    requires db.Shows(env) && Acyclic(env, rank)
    modifies db.modules.Values`definitions, Objects(env)`compiled
    ensures db.Shows(env)
    ensures |compile| == |db.modules| && (forall m :: m in env ==> m in compile) && passCount == |passes|
    ensures RunsTo(env, rank, old(MemoOf(Objects(env))), compile, passes, s) && MemoOf(Objects(env)) == s.memo
    ensures if ok then s.pending == [] else s.pending != [] && !s.going
    ensures Concluded(env, rank, level, old(MemoOf(Objects(env))), last, s, passCount, |db.modules|)
  {
    ghost var start := MemoOf(Objects(env));
    var names := KeyList(db.modules.Keys);
    compile := names;
    ok, passCount, passes, s := CompileInPasses(db, names, env, rank);
    last := RunConcludes(env, rank, level, start, compile, passes, s);
  }

  /** The keys of a map, in any order. */
  method KeyList(keys: set<string>) returns (list: seq<string>)
    ensures |list| == |keys| && forall k :: k in keys <==> k in list
  {
    list := [];
    var rest := keys;
    while rest != {}
      invariant rest <= keys && |list| + |rest| == |keys|
      invariant forall k :: k in keys <==> k in list || k in rest
    {
      var key :| key in rest;
      list, rest := list + [key], rest - {key};
    }
  }

  // ---------------------------------------------------------------- the index

  /** What an index leads to. */
  ghost function Entries(root: OidBranch<Object>): imap<OID, Object>
    requires root.Valid()
    reads root, root.Repr
  {
    imap path: OID | root.Get(path).Some? :: root.Get(path).value
  }

  ghost predicate Same(a: imap<OID, Object>, b: imap<OID, Object>, path: OID) {
    (path in a <==> path in b) && (path in a ==> a[path] == b[path])
  }

  /** A path leads to one of the objects, which has that path for its OID. */
  ghost predicate Leads(entries: imap<OID, Object>, objects: set<Object>, memo: Memo, path: OID) {
    path in entries && entries[path] in objects && entries[path] in memo && memo[entries[path]] == path
  }

  /**
   * The objects have been added under their OIDs to the entries `before`: every OID of one of them
   * leads to an object that has it, and every other path leads where it did.
   */
  ghost predicate Indexes(entries: imap<OID, Object>, objects: set<Object>, memo: Memo, before: imap<OID, Object>) {
    && (forall o :: o in objects ==> o in memo && Leads(entries, objects, memo, memo[o]))
    && (forall path :: Leads(entries, objects, memo, path) || Same(entries, before, path))
  }

  lemma NothingIndexed(entries: imap<OID, Object>, memo: Memo)
    ensures Indexes(entries, {}, memo, entries)
  {
    assert forall path :: Same(entries, entries, path);
  }

  lemma IndexesOneMore(entries: imap<OID, Object>, objects: set<Object>, memo: Memo, before: imap<OID, Object>, o: Object)
    requires Indexes(entries, objects, memo, before) && o in memo
    ensures Indexes(entries[memo[o] := o], objects + {o}, memo, before)
  {
    var more, all := entries[memo[o] := o], objects + {o};
    forall x | x in all
      ensures x in memo && Leads(more, all, memo, memo[x])
    {
      assert x in objects ==> Leads(entries, objects, memo, memo[x]);
    }
    forall path
      ensures Leads(more, all, memo, path) || Same(more, before, path)
    {
      assert Leads(entries, objects, memo, path) || Same(entries, before, path);
    }
  }

  ghost predicate Apart(objects: set<Object>, repr: set<object>) {
    forall o :: o in objects ==> o !in repr
  }

  ghost predicate Matches(memo: Memo, objects: set<Object>)
    reads objects`compiled
  {
    forall o :: o in objects ==> o in memo && memo[o] == o.compiled
  }

  ghost function ObjectsUnder(definitions: map<string, Definition>): set<Object> {
    set key | key in definitions && definitions[key].ObjectDef? :: definitions[key].obj
  }

  lemma ObjectsUnderRest(definitions: map<string, Definition>, key: string)
    requires key in definitions
    ensures ObjectsUnder(definitions) ==
            ObjectsUnder(definitions - {key}) + (if definitions[key].ObjectDef? then {definitions[key].obj} else {})
  {
    var rest := definitions - {key};
    assert forall k :: k in definitions <==> k == key || k in rest;
  }

  /** Registers one definition, unless it is not an object. */
  method IndexDefinition(db: Database, name: string, def: Definition)
    requires db.root.Valid() && db !in db.root.Repr && (def.ObjectDef? ==> def.obj !in db.root.Repr)
    modifies db`definitions, db.root.Repr
    ensures db.root.Valid() && fresh(db.root.Repr - old(db.root.Repr))
    ensures Entries(db.root) ==
            if def.ObjectDef? then old(Entries(db.root))[def.obj.compiled := def.obj] else old(Entries(db.root))
    ensures db.definitions == old(db.definitions)[name := def]
  {
    db.definitions := db.definitions[name := def];
    if def.ObjectDef? {
      db.root.AddDefinition(def.obj.compiled, def.obj);
    }
  }

  /** Registers the definitions of a module, in any order. */
  method IndexModule(db: Database, definitions: map<string, Definition>, ghost indexed: set<Object>, ghost memo: Memo,
                     ghost before: imap<OID, Object>)
    requires db.root.Valid() && db !in db.root.Repr && Indexes(Entries(db.root), indexed, memo, before)
    requires Apart(ObjectsUnder(definitions), db.root.Repr) && Matches(memo, ObjectsUnder(definitions))
    modifies db`definitions, db.root.Repr
    ensures db.root.Valid() && fresh(db.root.Repr - old(db.root.Repr))
    ensures Indexes(Entries(db.root), indexed + ObjectsUnder(definitions), memo, before)
  {
    ghost var all := indexed + ObjectsUnder(definitions);
    ghost var sofar := indexed;
    var rest := definitions;
    while rest != map[]
      invariant db.root.Valid() && fresh(db.root.Repr - old(db.root.Repr))
      invariant Indexes(Entries(db.root), sofar, memo, before)
      invariant ObjectsUnder(rest) <= ObjectsUnder(definitions) && sofar + ObjectsUnder(rest) == all
      decreases rest.Keys
    {
      label Before:
      var key :| key in rest;
      var def := rest[key];
      ObjectsUnderRest(rest, key);
      ghost var entries := Entries(db.root);
      if def.ObjectDef? {
        assert def.obj in ObjectsUnder(definitions);
        IndexesOneMore(entries, sofar, memo, before, def.obj);
        sofar := sofar + {def.obj};
      }
      IndexDefinition(db, key, def);
      rest := rest - {key};
      forall x | x in db.root.Repr && x !in old(db.root.Repr)
        ensures fresh(x)
      {
        assert x !in old@Before(db.root.Repr) ==> fresh@Before(x);
      }
    }
    assert sofar + ObjectsUnder(rest) == sofar;
  }

  /** All objects of some modules. */
  ghost function ObjectsOf(env: Modules, names: set<string>): set<Object> {
    set m, key | m in names && m in env && key in env[m].definitions && env[m].definitions[key].ObjectDef?
      :: env[m].definitions[key].obj
  }

  lemma ObjectsOfMore(env: Modules, done: set<string>, name: string)
    requires name in env
    ensures var added := ObjectsUnder(env[name].definitions);
            ObjectsOf(env, done + {name}) == ObjectsOf(env, done) + added && added <= Objects(env)
    ensures ObjectsOf(env, done) <= Objects(env) == ObjectsOf(env, env.Keys)
  {
  }

  /** The tree of the index shares nothing with the modules and their objects. */
  ghost predicate Separate(db: Database, env: Modules)
    reads db, db.root
  {
    db !in db.root.Repr && db.modules.Values !! db.root.Repr && Apart(Objects(env), db.root.Repr)
  }

  /** Registers the definitions of one module. */
  method IndexNamed(db: Database, name: string, ghost env: Modules, ghost done: set<string>, ghost memo: Memo,
                    ghost before: imap<OID, Object>)
    requires db.Shows(env) && name in env && Separate(db, env) && Matches(memo, Objects(env))
    requires db.root.Valid() && Indexes(Entries(db.root), ObjectsOf(env, done), memo, before)
    modifies db`definitions, db.root.Repr
    ensures db.Shows(env) && Separate(db, env) && Matches(memo, Objects(env))
    ensures db.root.Valid() && fresh(db.root.Repr - old(db.root.Repr))
    ensures Indexes(Entries(db.root), ObjectsOf(env, done + {name}), memo, before)
  {
    var m := db.modules[name];
    assert m in db.modules.Values;
    assert m.Tables() == env[name];
    ObjectsOfMore(env, done, name);
    IndexModule(db, m.definitions, ObjectsOf(env, done), memo, before);
  }

  /** Fills the index, module by module in any order. */
  method IndexDefinitions(db: Database, ghost env: Modules, ghost memo: Memo)
    requires db.Shows(env) && Separate(db, env) && Matches(memo, Objects(env)) && db.root.Valid()
    modifies db`definitions, db.root.Repr
    ensures db.Shows(env) && Matches(memo, Objects(env)) && db.root.Valid()
    ensures Indexes(Entries(db.root), Objects(env), memo, old(Entries(db.root)))
  {
    ghost var before := Entries(db.root);
    db.definitions := map[];
    var rest := db.modules.Keys;
    ghost var done := {};
    assert ObjectsOf(env, done) == {};
    while rest != {}
      invariant db.Shows(env) && Separate(db, env) && Matches(memo, Objects(env))
      invariant db.root.Valid() && fresh(db.root.Repr - old(db.root.Repr))
      invariant rest + done == db.modules.Keys
      invariant Indexes(Entries(db.root), ObjectsOf(env, done), memo, before)
      decreases rest
    {
      label Before:
      var name :| name in rest;
      IndexNamed(db, name, env, done, memo, before);
      rest, done := rest - {name}, done + {name};
      forall x | x in db.root.Repr && x !in old(db.root.Repr)
        ensures fresh(x)
      {
        assert x !in old@Before(db.root.Repr) ==> fresh@Before(x);
      }
    }
    ObjectsOfMore(env, done, BUILTIN);
    assert done == env.Keys;
  }

  ghost predicate IndexIs(db: Database, env: Modules, entries: imap<OID, Object>)
    reads db, db.root, db.root.Repr
  {
    Separate(db, env) && db.root.Valid() && Entries(db.root) == entries
  }

  /** Compilation does not touch the index. */
  method CompileBesideIndex(db: Database, ghost env: Modules, ghost rank: Object -> nat, ghost level: string -> nat,
                            ghost entries: imap<OID, Object>)
    returns (ok: bool, ghost memo: Memo)
    requires db.Shows(env) && Acyclic(env, rank) && IndexIs(db, env, entries)
    modifies db.modules.Values`definitions, Objects(env)`compiled
    ensures db.Shows(env) && IndexIs(db, env, entries) && memo.Keys == Objects(env) && Matches(memo, Objects(env))
    ensures CompilesAll(env, rank, level, old(MemoOf(Objects(env))), memo, ok)
  {
    var passCount;
    ghost var compile, passes, s, last;
    ok, passCount, compile, passes, s, last := CompileValues(db, env, rank, level);
    memo := MemoOf(Objects(env));
  }

  /** What a compilation of the whole database guarantees when what was memoised before it is right. */
  ghost predicate CompilesAll(env: Modules, rank: Object -> nat, level: string -> nat, before: Memo, memo: Memo, ok: bool) {
    && (Lexical(env, rank) && Sound(env, rank, before) && ok ==> forall m :: m in env ==> Done(env, rank, memo, m))
    && (Compilable(env, rank, level) && Sound(env, rank, before) ==> ok)
  }

  /**
   * Compiles and indexes what has been read, also when some of it has been compiled and indexed
   * before; on failure the index stays as it was.
   */
  method CreateIndex(db: Database, ghost env: Modules, ghost rank: Object -> nat, ghost level: string -> nat)
    returns (ok: bool, ghost memo: Memo)
    requires db.Shows(env) && Acyclic(env, rank) && Separate(db, env) && db.root.Valid()
    modifies db`definitions, db.root.Repr, db.modules.Values`definitions, Objects(env)`compiled
    ensures db.Shows(env) && db.root.Valid() && memo.Keys == Objects(env) && Matches(memo, Objects(env))
    ensures Indexes(Entries(db.root), if ok then Objects(env) else {}, memo, old(Entries(db.root)))
    ensures CompilesAll(env, rank, level, old(MemoOf(Objects(env))), memo, ok)
  {
    ghost var entries := Entries(db.root);
    ok, memo := CompileBesideIndex(db, env, rank, level, entries);
    if !ok {
      NothingIndexed(entries, memo);
      return;
    }
    IndexDefinitions(db, env, memo);
  }

  ghost predicate DistinctOids(objects: set<Object>, memo: Memo)
    requires objects <= memo.Keys
  {
    forall x, y :: x in objects && y in objects && memo[x] == memo[y] ==> x == y
  }

  /** With distinct OIDs the index is determined: no order of filling it makes a difference. */
  lemma IndexIsExact(entries: imap<OID, Object>, objects: set<Object>, memo: Memo, before: imap<OID, Object>, path: OID, o: Object)
    requires objects <= memo.Keys && Indexes(entries, objects, memo, before) && DistinctOids(objects, memo)
    ensures path in entries && entries[path] == o <==>
            || (o in objects && memo[o] == path)
            || (path in before && before[path] == o && forall x :: x in objects ==> memo[x] != path)
  {
    if x :| x in objects && memo[x] == path {
      assert Leads(entries, objects, memo, memo[x]);
    }
    assert Leads(entries, objects, memo, path) || Same(entries, before, path);
  }

  lemma SplitBehind(front: OID, suffix: OID, k: nat)
    requires k <= |front + suffix|
    ensures (front + suffix)[..|front|] == front && (front + suffix)[..k] + (front + suffix)[k..] == front + suffix
    ensures |front| <= k ==> front <= (front + suffix)[..k]
  {
  }

  lemma FindsBehind(root: OidBranch<Object>, front: OID, suffix: OID)
    requires root.Valid() && root.Get(front).Some?
    ensures var query := front + suffix;
            var (branch, tail) := root.FindOID(query);
            var path := query[..|query| - |tail|];
            front <= path && path + tail == query && branch.def.Some? && branch.def == root.Get(path)
  {
    var query := front + suffix;
    var (branch, tail) := root.FindOID(query);
    var k := |query| - |tail|;
    SplitBehind(front, suffix, k);
    assert |front| <= k;
    assert root.At(query[..k]) == branch;
  }

  /**
   * Looking up an OID that extends that of an object leads to an entry at least as close to it: an
   * object with just that OID, or what was there before.
   */
  lemma FindsNearest(root: OidBranch<Object>, objects: set<Object>, memo: Memo, before: imap<OID, Object>, o: Object, suffix: OID)
    requires root.Valid() && objects <= memo.Keys && Indexes(Entries(root), objects, memo, before) && o in objects
    ensures var query := memo[o] + suffix;
            var (branch, tail) := root.FindOID(query);
            var path := query[..|query| - |tail|];
            && memo[o] <= path && path + tail == query && branch.def.Some?
            && ((branch.def.value in objects && memo[branch.def.value] == path)
                || (path in before && branch.def.value == before[path]))
  {
    assert Leads(Entries(root), objects, memo, memo[o]);
    FindsBehind(root, memo[o], suffix);
    var query := memo[o] + suffix;
    var path := query[..|query| - |root.FindOID(query).1|];
    assert Leads(Entries(root), objects, memo, path) || Same(Entries(root), before, path);
  }

  /** Looking up the OID of an object finds that object, when no other object has the same OID. */
  lemma FindsItself(root: OidBranch<Object>, objects: set<Object>, memo: Memo, before: imap<OID, Object>, o: Object)
    requires root.Valid() && objects <= memo.Keys && Indexes(Entries(root), objects, memo, before)
    requires o in objects && DistinctOids(objects, memo)
    ensures var (branch, tail) := root.FindOID(memo[o]); branch.def == Some(o) && tail == []
  {
    var (branch, tail) := root.FindOID(memo[o]);
    assert memo[o][..|memo[o]|] == memo[o] && Leads(Entries(root), objects, memo, memo[o]);
    assert branch.def == root.Get(memo[o][..|memo[o]| - |tail|]);
  }
}
