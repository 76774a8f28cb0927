/** Names, scopes and the value of an OID definition, as functions of a snapshot of the modules. */
module MibResolve {
  import opened Basics
  import Decimals

  const BUILTIN := "<builtin>"

  /** One element of a definition `name ::= { element ... }`. */
  datatype Element = Number(n: int64) | Iso | Name(name: string)

  /** How compilation reads the text of an element. */
  function Classify(text: string): Element {
    match Atoi(text)
    case Some(n) => Number(n)
    case None => if text == "iso" then Iso else Name(text)
  }

  /** What a text says: the number that it stands for, `iso`, or any other name. */
  ghost predicate Says(text: string, e: Element) {
    match e
    case Number(n) => Decimals.Stands(text, n)
    case Iso => text == "iso"
    case Name(name) => name == text && text != "iso" && forall n: int64 :: !Decimals.Stands(text, n)
  }

  /** Every text is read as what it says, and it says one thing only. */
  lemma ClassifyIff(text: string, e: Element)
    ensures Classify(text) == e <==> Says(text, e)
  {
    forall n: int64
      ensures Atoi(text) == Some(n) <==> Decimals.Stands(text, n)
    {
      Decimals.AtoiIff(text, n);
    }
    if text == "iso" && Atoi(text).Some? {
      Decimals.StandsIsDigits(text, Atoi(text).value);
    }
  }

  ghost predicate MadeFrom(elements: seq<Element>, texts: seq<string>) {
    |elements| == |texts| && forall i :: 0 <= i < |texts| ==> Says(texts[i], elements[i])
  }

  /** An OBJECT IDENTIFIER definition and its memoised OID. */
  class Object {
    const name: string
    const elements: seq<Element>
    var compiled: OID

    constructor (name: string, texts: seq<string>)
      ensures this.name == name && compiled == []
      ensures MadeFrom(elements, texts)
    {
      this.name := name;
      this.elements := seq(|texts|, i requires 0 <= i < |texts| => Classify(texts[i]));
      this.compiled := [];
      forall i | 0 <= i < |texts|
        ensures Says(texts[i], Classify(texts[i]))
      {
        ClassifyIff(texts[i], Classify(texts[i]));
      }
    }
  }

  /** What a module can define. `Other` stands for the definitions that always compile to themselves. */
  datatype Definition = ObjectDef(obj: Object) | TypeDef(ident: string) | Other

  /** The two tables of a module that name lookup reads. */
  datatype Scope = Scope(imports: map<string, string>, definitions: map<string, Definition>)

  /** All modules by name. The built-in module is always among them. */
  type Modules = m: map<string, Scope> | BUILTIN in m witness map[BUILTIN := Scope(map[], map[])]

  /** Where a name seen from module `m` is defined, and as what. */
  function Lookup(env: Modules, m: string, name: string): Option<(string, Definition)>
    requires m in env
  {
    if name in env[m].definitions then Some((m, env[m].definitions[name]))
    else
      var from := if name in env[m].imports && env[m].imports[name] != "" then env[m].imports[name] else BUILTIN;
      if from !in env then None
      else if name in env[from].definitions then Some((from, env[from].definitions[name]))
      else if name in env[BUILTIN].definitions then Some((BUILTIN, env[BUILTIN].definitions[name]))
      else None
  }

  ghost predicate Imports(env: Modules, m: string, name: string, from: string)
    requires m in env
  {
    name in env[m].imports && env[m].imports[name] == from && from != ""
  }

  /**
   * Own definitions win. Then what the module that the name is imported from defines, and a module
   * that is not there hides even the built-in definition. The built-in module comes last.
   */
  lemma LookupOrder(env: Modules, m: string, name: string)
    requires m in env
    ensures name in env[m].definitions ==> Lookup(env, m, name) == Some((m, env[m].definitions[name]))
    ensures forall from {:trigger Imports(env, m, name, from)} :: name !in env[m].definitions && Imports(env, m, name, from) ==>
              && (from !in env ==> Lookup(env, m, name) == None)
              && (from in env && name in env[from].definitions ==> Lookup(env, m, name) == Some((from, env[from].definitions[name])))
    ensures name !in env[m].definitions
            && (forall from :: Imports(env, m, name, from) ==> from in env && name !in env[from].definitions) ==>
              Lookup(env, m, name) ==
              if name in env["<builtin>"].definitions then Some(("<builtin>", env["<builtin>"].definitions[name])) else None
  {
    if name in env[m].imports {
      var _ := Imports(env, m, name, env[m].imports[name]);
    }
  }

  ghost function Objects(env: Modules): set<Object> {
    set m, key | m in env && key in env[m].definitions && env[m].definitions[key].ObjectDef?
      :: env[m].definitions[key].obj
  }

  // ---------------------------------------------------------------- what the code computes

  type Memo = map<Object, OID>

  ghost predicate Known(memo: Memo, o: Object) {
    o in memo && memo[o] != []
  }

  /** Following a name from any scope decreases `rank`: no chain of definitions is a cycle. */
  ghost predicate Acyclic(env: Modules, rank: Object -> nat) {
    forall o, r, e {:trigger Descends(env, rank, r, o, e)} ::
      o in Objects(env) && r in env && Name(e) in o.elements ==> Descends(env, rank, r, o, e)
  }

  ghost predicate Descends(env: Modules, rank: Object -> nat, r: string, o: Object, e: string)
    requires r in env
  {
    match Lookup(env, r, e)
    case Some((_, ObjectDef(target))) => rank(target) < rank(o)
    case _ => true
  }

  /** The OID of `o` when every name is looked up in the scope of `root`, whoever defines `o`. */
  ghost function Eval(env: Modules, rank: Object -> nat, root: string, memo: Memo, o: Object): Option<OID>
    requires root in env
    decreases rank(o), |o.elements| + 2
  {
    if Known(memo, o) then Some(memo[o])
    else EvalPrefix(env, rank, root, memo, o, |o.elements|)
  }

  /** The OID after the first `k` elements; a name discards what was there before it. */
  ghost function EvalPrefix(env: Modules, rank: Object -> nat, root: string, memo: Memo, o: Object, k: nat): Option<OID>
    requires root in env && k <= |o.elements|
    decreases rank(o), k + 1
  {
    if k == 0 then Some([])
    else
      var before := EvalPrefix(env, rank, root, memo, o, k - 1);
      if before.None? then None
      else
        match o.elements[k - 1]
        case Number(n) => Some(before.value + [n])
        case Iso => Some([1])
        case Name(name) => EvalName(env, rank, root, memo, o, name)
  }

  /** The OID of the object that a name of `o` leads to. */
  ghost function EvalName(env: Modules, rank: Object -> nat, root: string, memo: Memo, o: Object, name: string): Option<OID>
    requires root in env
    decreases rank(o), 0
  {
    match Lookup(env, root, name)
    case Some((_, ObjectDef(target))) =>
      if rank(target) < rank(o) then Eval(env, rank, root, memo, target) else None
    case _ => None
  }

  lemma EvalPrefixNext(env: Modules, rank: Object -> nat, root: string, memo: Memo, o: Object, k: nat)
    requires root in env && k < |o.elements| && EvalPrefix(env, rank, root, memo, o, k).Some?
    ensures EvalPrefix(env, rank, root, memo, o, k + 1) ==
            var e := o.elements[k];
            if e.Name? then EvalName(env, rank, root, memo, o, e.name)
            else if e.Iso? then Some([1])
            else Some(EvalPrefix(env, rank, root, memo, o, k).value + [e.n])
  {
  }

  /** `later` is `memo` with some missing entries filled in with what `root` evaluates them to. */
  ghost predicate Extends(env: Modules, rank: Object -> nat, root: string, memo: Memo, later: Memo)
    requires root in env
  {
    && later.Keys == memo.Keys
    && forall o {:trigger later[o]} :: o in memo ==>
      || later[o] == memo[o]
      || (memo[o] == [] && Eval(env, rank, root, memo, o) == Some(later[o]))
  }

  /** Memoising changes no result: what is resolvable, and to what, does not depend on the visiting order. */
  lemma {:induction false} EvalStable(env: Modules, rank: Object -> nat, root: string, memo: Memo, later: Memo, o: Object)
    requires root in env && Extends(env, rank, root, memo, later)
    ensures Eval(env, rank, root, later, o) == Eval(env, rank, root, memo, o)
    decreases rank(o), |o.elements| + 2
  {
    if !Known(later, o) {
      EvalPrefixStable(env, rank, root, memo, later, o, |o.elements|);
    }
  }

  lemma {:induction false} EvalPrefixStable(env: Modules, rank: Object -> nat, root: string, memo: Memo, later: Memo, o: Object, k: nat)
    requires root in env && k <= |o.elements| && Extends(env, rank, root, memo, later)
    ensures EvalPrefix(env, rank, root, later, o, k) == EvalPrefix(env, rank, root, memo, o, k)
    decreases rank(o), k + 1
  {
    if k > 0 {
      EvalPrefixStable(env, rank, root, memo, later, o, k - 1);
      match o.elements[k - 1]
      case Name(name) => EvalNameStable(env, rank, root, memo, later, o, name);
      case _ =>
    }
  }

  lemma {:induction false} EvalNameStable(env: Modules, rank: Object -> nat, root: string, memo: Memo, later: Memo,
                                          o: Object, name: string)
    requires root in env && Extends(env, rank, root, memo, later)
    ensures EvalName(env, rank, root, later, o, name) == EvalName(env, rank, root, memo, o, name)
    decreases rank(o), 0
  {
    match Lookup(env, root, name)
    case Some((_, ObjectDef(target))) =>
      if rank(target) < rank(o) {
        EvalStable(env, rank, root, memo, later, target);
      }
    case _ =>
  }

  lemma ExtendsTransitive(env: Modules, rank: Object -> nat, root: string, a: Memo, b: Memo, c: Memo)
    requires root in env && Extends(env, rank, root, a, b) && Extends(env, rank, root, b, c)
    ensures Extends(env, rank, root, a, c)
  {
    forall o | o in a
      ensures c[o] == a[o] || (a[o] == [] && Eval(env, rank, root, a, o) == Some(c[o]))
    {
      EvalStable(env, rank, root, a, b, o);
    }
  }

  lemma LookupFindsOwned(env: Modules, root: string, name: string)
    requires root in env
    ensures match Lookup(env, root, name)
            case Some((home, ObjectDef(target))) => Owns(env, home, target) && target in Objects(env)
            case _ => true
  {
  }

  // ---------------------------------------------------------------- what the definitions mean

  ghost predicate Owns(env: Modules, m: string, o: Object) {
    m in env && ObjectDef(o) in env[m].definitions.Values
  }

  /** Every name resolves, in the scope of the module that wrote it, to an object of lower rank. */
  ghost predicate Resolves(env: Modules, rank: Object -> nat) {
    forall m, o {:trigger ResolvesAt(env, rank, m, o)} ::
      m in env && o in Objects(env) && Owns(env, m, o) ==> ResolvesAt(env, rank, m, o)
  }

  ghost predicate ResolvesAt(env: Modules, rank: Object -> nat, m: string, o: Object)
    requires m in env
  {
    forall e :: Name(e) in o.elements ==>
      match Lookup(env, m, e)
      case Some((_, ObjectDef(target))) => rank(target) < rank(o)
      case _ => false
  }

  lemma OwnedObject(env: Modules, m: string, o: Object)
    requires Owns(env, m, o)
    ensures o in Objects(env)
  {
    var key :| key in env[m].definitions && env[m].definitions[key] == ObjectDef(o);
  }

  /** The length of the longest prefix that does not end in a number. */
  function LastName(es: seq<Element>): (k: nat)
    ensures k <= |es|
    ensures k > 0 ==> !es[k - 1].Number?
    ensures forall i :: k <= i < |es| ==> es[i].Number?
  {
    if es == [] || !es[|es| - 1].Number? then |es| else LastName(es[..|es| - 1])
  }

  /** The numbers after the last element that is not a number. */
  function TrailingNumbers(es: seq<Element>): OID {
    if es == [] || !es[|es| - 1].Number? then []
    else TrailingNumbers(es[..|es| - 1]) + [es[|es| - 1].n]
  }

  /**
   * The OID that `o` denotes in its own module `m`: that of the last name among its elements,
   * looked up lexically, followed by the numbers after it.
   */
  ghost function Denote(env: Modules, rank: Object -> nat, m: string, o: Object): OID
    requires Resolves(env, rank) && Owns(env, m, o)
    decreases rank(o), 1
  {
    DenoteElements(env, rank, m, o, o.elements)
  }

  ghost function DenoteElements(env: Modules, rank: Object -> nat, m: string, o: Object, es: seq<Element>): OID
    requires Resolves(env, rank) && Owns(env, m, o) && es <= o.elements
    decreases rank(o), 0, 1
  {
    var k := LastName(es);
    DenoteBase(env, rank, m, o, es[..k]) + TrailingNumbers(es)
  }

  /** The OID that the last of some elements stands for, when it is not a number. */
  ghost function DenoteBase(env: Modules, rank: Object -> nat, m: string, o: Object, es: seq<Element>): OID
    requires Resolves(env, rank) && Owns(env, m, o) && es <= o.elements
    decreases rank(o), 0, 0
  {
    if es == [] then []
    else
      var e := es[|es| - 1];
      if e.Name? then
        OwnedObject(env, m, o);
        assert e in o.elements && ResolvesAt(env, rank, m, o);
        var (home, def) := Lookup(env, m, e.name).value;
        Denote(env, rank, home, def.obj)
      else [1]
  }

  /** No name used in an element list denotes different things in two scopes that both see it. */
  ghost predicate NoShadowing(env: Modules) {
    forall a, b, o, e {:trigger Agree(env, a, b, e), o.elements} ::
      a in env && b in env && o in Objects(env) && Name(e) in o.elements ==> Agree(env, a, b, e)
  }

  ghost predicate Agree(env: Modules, a: string, b: string, e: string)
    requires a in env && b in env
  {
    Lookup(env, a, e).Some? && Lookup(env, b, e).Some? ==> Lookup(env, a, e) == Lookup(env, b, e)
  }

  /** Every memoised OID is the denotation of its object. */
  ghost predicate Sound(env: Modules, rank: Object -> nat, memo: Memo)
    requires Resolves(env, rank)
  {
    forall m, o :: m in env && o in memo && Owns(env, m, o) ==> memo[o] == [] || memo[o] == Denote(env, rank, m, o)
  }

  lemma AcyclicIfResolves(env: Modules, rank: Object -> nat)
    requires Resolves(env, rank) && NoShadowing(env)
    ensures Acyclic(env, rank)
  {
    forall o, r, e | o in Objects(env) && r in env && Name(e) in o.elements
      ensures Descends(env, rank, r, o, e)
    {
      var m, key :| m in env && key in env[m].definitions && env[m].definitions[key] == ObjectDef(o);
      assert Owns(env, m, o);
      assert ResolvesAt(env, rank, m, o);
      assert Agree(env, r, m, e);
    }
  }

  /** The closed form, one more element at a time. */
  lemma DenoteOneMore(env: Modules, rank: Object -> nat, m: string, o: Object, k: nat)
    requires Resolves(env, rank) && Owns(env, m, o) && 0 < k <= |o.elements|
    ensures DenoteElements(env, rank, m, o, o.elements[..k]) ==
            var e := o.elements[k - 1];
            if e.Number? then DenoteElements(env, rank, m, o, o.elements[..k - 1]) + [e.n]
            else DenoteBase(env, rank, m, o, o.elements[..k])
  {
    var es, front := o.elements[..k], o.elements[..k - 1];
    assert es[|es| - 1] == o.elements[k - 1] && es[..|es| - 1] == front;
    assert es[..k] == es && front[..LastName(front)] == es[..LastName(front)];
  }

  /** A name that is visible from `root` stands for what it denotes where it was written. */
  lemma NameAgrees(env: Modules, rank: Object -> nat, root: string, m: string, o: Object, k: nat, home: string, target: Object)
    requires root in env && Resolves(env, rank) && NoShadowing(env) && Owns(env, m, o)
    requires 0 < k <= |o.elements| && o.elements[k - 1].Name?
    requires Lookup(env, root, o.elements[k - 1].name) == Some((home, ObjectDef(target)))
    ensures Owns(env, home, target)
    ensures DenoteElements(env, rank, m, o, o.elements[..k]) == Denote(env, rank, home, target)
  {
    OwnedObject(env, m, o);
    var e := o.elements[k - 1];
    assert e in o.elements && ResolvesAt(env, rank, m, o);
    assert Agree(env, root, m, e.name);
    DenoteOneMore(env, rank, m, o, k);
  }

  /** Resolution in the importer's scope can fail, but never finds anything but the lexical meaning. */
  lemma {:induction false} EvalIsDenotation(env: Modules, rank: Object -> nat, root: string, memo: Memo, m: string, o: Object)
    requires root in env && Resolves(env, rank) && NoShadowing(env) && Sound(env, rank, memo) && Owns(env, m, o)
    ensures var v := Eval(env, rank, root, memo, o); v.None? || v.value == Denote(env, rank, m, o)
    decreases rank(o), |o.elements| + 2
  {
    if !Known(memo, o) {
      EvalPrefixIsDenotation(env, rank, root, memo, m, o, |o.elements|);
      assert o.elements[..|o.elements|] == o.elements;
    }
  }

  lemma {:induction false} EvalPrefixIsDenotation(env: Modules, rank: Object -> nat, root: string, memo: Memo,
                                                  m: string, o: Object, k: nat)
    requires root in env && Resolves(env, rank) && NoShadowing(env) && Sound(env, rank, memo) && Owns(env, m, o)
    requires k <= |o.elements|
    ensures var v := EvalPrefix(env, rank, root, memo, o, k);
            v.None? || v.value == DenoteElements(env, rank, m, o, o.elements[..k])
    decreases rank(o), k + 1
  {
    if k > 0 && EvalPrefix(env, rank, root, memo, o, k).Some? {
      EvalPrefixNext(env, rank, root, memo, o, k - 1);
      var e := o.elements[k - 1];
      if e.Name? {
        var (home, def) := Lookup(env, root, e.name).value;
        NameAgrees(env, rank, root, m, o, k, home, def.obj);
        EvalIsDenotation(env, rank, root, memo, home, def.obj);
      } else {
        EvalPrefixIsDenotation(env, rank, root, memo, m, o, k - 1);
        DenoteOneMore(env, rank, m, o, k);
      }
    }
  }

  // ---------------------------------------------------------------- when a module compiles

  /** Modules import only from modules of lower level, and the built-in module has the lowest. */
  ghost predicate ImportsAcyclic(env: Modules, level: string -> nat) {
    forall m :: m in env ==>
      && (m != BUILTIN ==> level(BUILTIN) < level(m))
      && forall item :: item in env[m].imports && env[m].imports[item] in env ==> level(env[m].imports[item]) < level(m)
  }

  /** All objects of a module are memoised. */
  ghost predicate Done(env: Modules, rank: Object -> nat, memo: Memo, m: string)
    requires Resolves(env, rank)
  {
    forall o :: o in Objects(env) && Owns(env, m, o) ==> o in memo && memo[o] == Denote(env, rank, m, o)
  }

  ghost predicate LowerDone(env: Modules, rank: Object -> nat, level: string -> nat, memo: Memo, root: string)
    requires Resolves(env, rank)
  {
    forall m :: m in env && level(m) < level(root) ==> Done(env, rank, memo, m)
  }

  /**
   * `root` can see every name that it would have to look up to evaluate `o` once the modules it
   * imports from are done. A name with a nonempty OID is memoised by then; one with an empty OID
   * never is, so its own names have to be visible too.
   */
  ghost predicate Reachable(env: Modules, rank: Object -> nat, root: string, o: Object)
    requires root in env && Resolves(env, rank)
    decreases rank(o)
  {
    forall i :: 0 <= i < |o.elements| && o.elements[i].Name? ==>
      match Lookup(env, root, o.elements[i].name)
      case Some((home, ObjectDef(target))) =>
        && rank(target) < rank(o)
        && Owns(env, home, target)
        && (Denote(env, rank, home, target) == [] ==> Reachable(env, rank, root, target))
      case _ => false
  }

  ghost predicate AllReachable(env: Modules, rank: Object -> nat, root: string)
    requires root in env && Resolves(env, rank)
  {
    forall o :: o in Objects(env) && Owns(env, root, o) ==> Reachable(env, rank, root, o)
  }

  ghost predicate AllEvaluate(env: Modules, rank: Object -> nat, root: string, memo: Memo)
    requires root in env
  {
    forall o :: o in Objects(env) && Owns(env, root, o) ==> Eval(env, rank, root, memo, o).Some?
  }

  lemma EvalPrefixMonotone(env: Modules, rank: Object -> nat, root: string, memo: Memo, o: Object, j: nat, k: nat)
    requires root in env && j <= k <= |o.elements|
    ensures EvalPrefix(env, rank, root, memo, o, k).Some? ==> EvalPrefix(env, rank, root, memo, o, j).Some?
    decreases k
  {
    if j < k {
      EvalPrefixMonotone(env, rank, root, memo, o, j, k - 1);
    }
  }

  lemma {:induction false} ReachableEvaluates(env: Modules, rank: Object -> nat, level: string -> nat, root: string,
                                              memo: Memo, o: Object)
    requires root in env && Resolves(env, rank) && ImportsAcyclic(env, level)
    requires LowerDone(env, rank, level, memo, root) && AllReachable(env, rank, root)
    requires Reachable(env, rank, root, o)
    ensures Eval(env, rank, root, memo, o).Some?
    decreases rank(o), |o.elements| + 2
  {
    if !Known(memo, o) {
      ReachablePrefixEvaluates(env, rank, level, root, memo, o, |o.elements|);
    }
  }

  lemma {:induction false} ReachablePrefixEvaluates(env: Modules, rank: Object -> nat, level: string -> nat, root: string,
                                                    memo: Memo, o: Object, k: nat)
    requires root in env && Resolves(env, rank) && ImportsAcyclic(env, level)
    requires LowerDone(env, rank, level, memo, root) && AllReachable(env, rank, root)
    requires Reachable(env, rank, root, o) && k <= |o.elements|
    ensures EvalPrefix(env, rank, root, memo, o, k).Some?
    decreases rank(o), k + 1
  {
    if k > 0 {
      ReachablePrefixEvaluates(env, rank, level, root, memo, o, k - 1);
      EvalPrefixNext(env, rank, root, memo, o, k - 1);
      var e := o.elements[k - 1];
      if e.Name? {
        var (home, def) := Lookup(env, root, e.name).value;
        LookupFindsOwned(env, root, e.name);
        if home != root && Denote(env, rank, home, def.obj) != [] {
          assert Done(env, rank, memo, home);
        } else {
          ReachableEvaluates(env, rank, level, root, memo, def.obj);
        }
      }
    }
  }

  /** An object that is not memoised evaluates only if all that it needs is visible. */
  lemma {:induction false} EvaluatesOnlyIfReachable(env: Modules, rank: Object -> nat, root: string, memo: Memo,
                                                    m: string, o: Object)
    requires root in env && Resolves(env, rank) && NoShadowing(env) && Sound(env, rank, memo) && Owns(env, m, o)
    requires !Known(memo, o) && Eval(env, rank, root, memo, o).Some?
    ensures Reachable(env, rank, root, o)
    decreases rank(o)
  {
    forall i | 0 <= i < |o.elements| && o.elements[i].Name?
      ensures match Lookup(env, root, o.elements[i].name)
              case Some((home, ObjectDef(target))) =>
                && rank(target) < rank(o)
                && Owns(env, home, target)
                && (Denote(env, rank, home, target) == [] ==> Reachable(env, rank, root, target))
              case _ => false
    {
      EvalPrefixMonotone(env, rank, root, memo, o, i + 1, |o.elements|);
      var (home, def) := Lookup(env, root, o.elements[i].name).value;
      var target := def.obj;
      if Denote(env, rank, home, target) == [] {
        EvalIsDenotation(env, rank, root, memo, home, target);
        assert !Known(memo, target);
        EvaluatesOnlyIfReachable(env, rank, root, memo, home, target);
      }
    }
  }

  /**
   * Once the modules below it are done, a module that has nothing memoised yet compiles exactly
   * when every name that it needs is visible from it.
   */
  lemma ModuleCompilesIff(env: Modules, rank: Object -> nat, level: string -> nat, root: string, memo: Memo)
    requires root in env && Resolves(env, rank) && NoShadowing(env) && ImportsAcyclic(env, level)
    requires Sound(env, rank, memo) && LowerDone(env, rank, level, memo, root)
    requires forall o :: o in Objects(env) && Owns(env, root, o) ==> !Known(memo, o)
    ensures AllEvaluate(env, rank, root, memo) <==> AllReachable(env, rank, root)
  {
    if AllReachable(env, rank, root) {
      forall o | o in Objects(env) && Owns(env, root, o)
        ensures Eval(env, rank, root, memo, o).Some?
      {
        ReachableEvaluates(env, rank, level, root, memo, o);
      }
    }
    if AllEvaluate(env, rank, root, memo) {
      forall o | o in Objects(env) && Owns(env, root, o)
        ensures Reachable(env, rank, root, o)
      {
        EvaluatesOnlyIfReachable(env, rank, root, memo, root, o);
      }
    }
  }

  lemma {:induction false} NonemptyDenotes(env: Modules, rank: Object -> nat, m: string, o: Object)
    requires Resolves(env, rank) && Owns(env, m, o)
    requires forall x :: x in Objects(env) ==> x.elements != []
    ensures Denote(env, rank, m, o) != []
    decreases rank(o)
  {
    OwnedObject(env, m, o);
    var n := |o.elements|;
    assert o.elements[..n] == o.elements;
    DenoteOneMore(env, rank, m, o, n);
    var e := o.elements[n - 1];
    if e.Name? {
      assert e in o.elements && ResolvesAt(env, rank, m, o);
      var (home, def) := Lookup(env, m, e.name).value;
      NonemptyDenotes(env, rank, home, def.obj);
    }
  }

  /** No element list being empty is enough for every module to see what it needs. */
  lemma NonemptyIsReachable(env: Modules, rank: Object -> nat, root: string)
    requires root in env && Resolves(env, rank)
    requires forall x :: x in Objects(env) ==> x.elements != []
    ensures AllReachable(env, rank, root)
  {
    forall o | o in Objects(env) && Owns(env, root, o)
      ensures Reachable(env, rank, root, o)
    {
      assert ResolvesAt(env, rank, root, o);
      forall i | 0 <= i < |o.elements| && o.elements[i].Name?
        ensures match Lookup(env, root, o.elements[i].name)
                case Some((home, ObjectDef(target))) =>
                  rank(target) < rank(o) && Owns(env, home, target) && Denote(env, rank, home, target) != []
                case _ => false
      {
        assert o.elements[i] in o.elements;
        var (home, def) := Lookup(env, root, o.elements[i].name).value;
        NonemptyDenotes(env, rank, home, def.obj);
      }
    }
  }

  // ---------------------------------------------------------------- passes over the modules

  /** The hypotheses under which names mean the same from everywhere. */
  ghost predicate Lexical(env: Modules, rank: Object -> nat) {
    Resolves(env, rank) && NoShadowing(env)
  }

  const SIMPLE_TYPE_NAMES: set<string> :=
    {"INTEGER", "OCTET STRING", "SEQUENCE", "SEQUENCE OF", "CHOICE", "OBJECT IDENTIFIER", "IA5String"}

  ghost predicate TypesKnown(env: Modules, m: string)
    requires m in env
  {
    forall key :: key in env[m].definitions && env[m].definitions[key].TypeDef? ==>
      env[m].definitions[key].ident in SIMPLE_TYPE_NAMES
  }

  /** The database can be compiled, whatever the order: each module only needs what is below it. */
  ghost predicate Compilable(env: Modules, rank: Object -> nat, level: string -> nat) {
    && Lexical(env, rank)
    && ImportsAcyclic(env, level)
    && forall m :: m in env ==> TypesKnown(env, m) && AllReachable(env, rank, m)
  }

  /** Soundness is kept, and what is done stays done. */
  ghost predicate Advances(env: Modules, rank: Object -> nat, memo: Memo, later: Memo)
    requires Resolves(env, rank)
  {
    && Sound(env, rank, later)
    && forall m :: Done(env, rank, memo, m) ==> Done(env, rank, later, m)
  }

  lemma ExtendsKeepsSound(env: Modules, rank: Object -> nat, root: string, memo: Memo, later: Memo)
    requires root in env && Lexical(env, rank) && Extends(env, rank, root, memo, later) && Sound(env, rank, memo)
    ensures Advances(env, rank, memo, later)
  {
    forall m, o | m in env && o in memo && Owns(env, m, o)
      ensures later[o] == [] || later[o] == Denote(env, rank, m, o)
      ensures memo[o] == Denote(env, rank, m, o) ==> later[o] == memo[o]
    {
      EvalIsDenotation(env, rank, root, memo, m, o);
    }
  }

  ghost predicate Processed(env: Modules, rank: Object -> nat, root: string, before: Memo, memo: Memo, def: Definition)
    requires root in env
  {
    match def
    case ObjectDef(o) => o in memo && Eval(env, rank, root, before, o) == Some(memo[o])
    case TypeDef(ident) => ident in SIMPLE_TYPE_NAMES
    case Other => true
  }

  ghost predicate AllProcessed(env: Modules, rank: Object -> nat, root: string, before: Memo, memo: Memo, keys: set<string>)
    requires root in env
  {
    forall key :: key in keys && key in env[root].definitions ==>
      Processed(env, rank, root, before, memo, env[root].definitions[key])
  }

  /** What has been compiled stays as it is while the rest of the module is compiled. */
  lemma ProcessedStays(env: Modules, rank: Object -> nat, root: string, before: Memo, memo: Memo, later: Memo, keys: set<string>)
    requires root in env && Extends(env, rank, root, before, memo) && Extends(env, rank, root, memo, later)
    requires AllProcessed(env, rank, root, before, memo, keys)
    ensures AllProcessed(env, rank, root, before, later, keys)
  {
    forall key | key in keys && key in env[root].definitions && env[root].definitions[key].ObjectDef?
      ensures Processed(env, rank, root, before, later, env[root].definitions[key])
    {
      EvalStable(env, rank, root, before, memo, env[root].definitions[key].obj);
    }
  }

  /** A module all of whose definitions compiled is done. */
  lemma ProcessedIsDone(env: Modules, rank: Object -> nat, root: string, before: Memo, memo: Memo)
    requires root in env && Lexical(env, rank) && Sound(env, rank, before)
    requires AllProcessed(env, rank, root, before, memo, env[root].definitions.Keys)
    ensures Done(env, rank, memo, root)
  {
    forall o | o in Objects(env) && Owns(env, root, o)
      ensures o in memo && memo[o] == Denote(env, rank, root, o)
    {
      var key :| key in env[root].definitions && env[root].definitions[key] == ObjectDef(o);
      assert Processed(env, rank, root, before, memo, env[root].definitions[key]);
      EvalIsDenotation(env, rank, root, before, root, o);
    }
  }

  // ---------------------------------------------------------------- memos that grow

  /** What is memoised stays as it is. */
  ghost predicate Grows(memo: Memo, later: Memo) {
    later.Keys == memo.Keys && forall o {:trigger later[o]} :: o in memo && memo[o] != [] ==> later[o] == memo[o]
  }

  /** Whatever can be resolved can still be resolved when more is memoised, by whichever module. */
  lemma {:induction false} EvalGrows(env: Modules, rank: Object -> nat, root: string, memo: Memo, later: Memo, o: Object)
    requires root in env && Grows(memo, later) && Eval(env, rank, root, memo, o).Some?
    ensures Eval(env, rank, root, later, o).Some?
    decreases rank(o), |o.elements| + 2
  {
    if !Known(later, o) {
      EvalPrefixGrows(env, rank, root, memo, later, o, |o.elements|);
    }
  }

  lemma {:induction false} EvalPrefixGrows(env: Modules, rank: Object -> nat, root: string, memo: Memo, later: Memo, o: Object, k: nat)
    requires root in env && k <= |o.elements| && Grows(memo, later) && EvalPrefix(env, rank, root, memo, o, k).Some?
    ensures EvalPrefix(env, rank, root, later, o, k).Some?
    decreases rank(o), k + 1
  {
    if k > 0 {
      EvalPrefixGrows(env, rank, root, memo, later, o, k - 1);
      EvalPrefixNext(env, rank, root, memo, o, k - 1);
      EvalPrefixNext(env, rank, root, later, o, k - 1);
      if o.elements[k - 1].Name? {
        var (_, def) := Lookup(env, root, o.elements[k - 1].name).value;
        EvalGrows(env, rank, root, memo, later, def.obj);
      }
    }
  }

  ghost predicate Fails(env: Modules, rank: Object -> nat, memo: Memo, m: string) {
    m in env && !(TypesKnown(env, m) && AllEvaluate(env, rank, m, memo))
  }

  lemma FailsEarlier(env: Modules, rank: Object -> nat, memo: Memo, later: Memo, m: string)
    requires Grows(memo, later) && Fails(env, rank, later, m)
    ensures Fails(env, rank, memo, m)
  {
    if AllEvaluate(env, rank, m, memo) {
      forall o | o in Objects(env) && Owns(env, m, o)
        ensures Eval(env, rank, m, later, o).Some?
      {
        EvalGrows(env, rank, m, memo, later, o);
      }
    }
  }

  /** All finished modules are memoised, and on this memo none of the pending ones can be compiled. */
  ghost predicate Stuck(env: Modules, rank: Object -> nat, memo: Memo, pending: seq<string>) {
    pending != [] && Progress(env, rank, memo, pending) && forall m :: m in pending ==> Fails(env, rank, memo, m)
  }

  // ---------------------------------------------------------------- the effect of a pass

  /** What one call to compile module `m`, successful or not, does to the memo. */
  ghost predicate ModuleStep(env: Modules, rank: Object -> nat, level: string -> nat, memo: Memo, later: Memo, m: string, ok: bool) {
    && (Lexical(env, rank) && Sound(env, rank, memo) ==>
      Advances(env, rank, memo, later) && (ok ==> Done(env, rank, later, m)))
    && (Compilable(env, rank, level) && LowerDone(env, rank, level, memo, m) ==> ok)
    && Grows(memo, later) && (!ok ==> Fails(env, rank, memo, m))
  }

  lemma ModuleStepHolds(env: Modules, rank: Object -> nat, level: string -> nat, root: string, memo: Memo, later: Memo, ok: bool)
    requires root in env && Extends(env, rank, root, memo, later)
    requires ok <==> TypesKnown(env, root) && AllEvaluate(env, rank, root, memo)
    requires ok ==> AllProcessed(env, rank, root, memo, later, env[root].definitions.Keys)
    ensures ModuleStep(env, rank, level, memo, later, root, ok)
  {
    if Lexical(env, rank) && Sound(env, rank, memo) {
      ExtendsKeepsSound(env, rank, root, memo, later);
      if ok {
        ProcessedIsDone(env, rank, root, memo, later);
      }
    }
    if Compilable(env, rank, level) && LowerDone(env, rank, level, memo, root) {
      LowestCompiles(env, rank, level, memo, root);
    }
  }

  /** What a pass over the modules `compile` does; `failed` are those left for the next pass. */
  ghost predicate PassStep(env: Modules, rank: Object -> nat, level: string -> nat, memo: Memo, later: Memo,
                           compile: seq<string>, failed: seq<string>) {
    && Grows(memo, later)
    && (forall m :: m in failed ==> m in compile && Fails(env, rank, memo, m))
    && (Lexical(env, rank) && Sound(env, rank, memo) ==>
      && Advances(env, rank, memo, later)
      && (forall m :: m in compile && m !in failed ==> Done(env, rank, later, m))
      && (Compilable(env, rank, level) ==> forall m :: m in failed ==> !LowerDone(env, rank, level, memo, m)))
  }

  lemma PassGoesOn(env: Modules, rank: Object -> nat, level: string -> nat, start: Memo, memo: Memo, later: Memo,
                   compile: seq<string>, failed: seq<string>, m: string, ok: bool)
    requires PassStep(env, rank, level, start, memo, compile, failed)
    requires ModuleStep(env, rank, level, memo, later, m, ok)
    ensures PassStep(env, rank, level, start, later, compile + [m], if ok then failed else failed + [m])
  {
    if !ok {
      FailsEarlier(env, rank, start, memo, m);
    }
  }

  lemma {:induction false} LowestLevel(compile: seq<string>, level: string -> nat) returns (lowest: string)
    requires compile != []
    ensures lowest in compile && forall m :: m in compile ==> level(lowest) <= level(m)
  {
    lowest := compile[0];
    if |compile| > 1 {
      var other := LowestLevel(compile[1..], level);
      assert forall m :: m in compile ==> m == compile[0] || m in compile[1..];
      if level(other) < level(lowest) {
        lowest := other;
      }
    }
  }

  /** All modules that are not pending are done, and what is memoised is right. */
  ghost predicate Progress(env: Modules, rank: Object -> nat, memo: Memo, pending: seq<string>) {
    Lexical(env, rank) && Sound(env, rank, memo) && forall m :: m in env && m !in pending ==> Done(env, rank, memo, m)
  }

  /**
   * A pass keeps that, and in a compilable database it compiles at least one pending module. One
   * that compiles none began with a memo on which none could be compiled; on the memo that it
   * leaves, some may.
   */
  lemma PassProgress(env: Modules, rank: Object -> nat, level: string -> nat, memo: Memo, later: Memo,
                     compile: seq<string>, failed: seq<string>)
    requires compile != [] && Progress(env, rank, memo, compile) && PassStep(env, rank, level, memo, later, compile, failed)
    requires forall m :: m in compile ==> m in env
    ensures Progress(env, rank, later, failed)
    ensures Compilable(env, rank, level) ==> exists m :: m in compile && m !in failed
    ensures failed == compile ==> Stuck(env, rank, memo, compile)
  {
    if Compilable(env, rank, level) {
      var lowest := LowestLevel(compile, level);
      assert LowerDone(env, rank, level, memo, lowest);
    }
  }

  /** In every pass, a pending module of lowest level compiles. */
  lemma LowestCompiles(env: Modules, rank: Object -> nat, level: string -> nat, memo: Memo, root: string)
    requires root in env && Compilable(env, rank, level) && LowerDone(env, rank, level, memo, root)
    ensures AllEvaluate(env, rank, root, memo) && TypesKnown(env, root)
  {
    forall o | o in Objects(env) && Owns(env, root, o)
      ensures Eval(env, rank, root, memo, o).Some?
    {
      ReachableEvaluates(env, rank, level, root, memo, o);
    }
  }

  // ---------------------------------------------------------------- empty OIDs

  /** Module A defines `y ::= { }` and `x ::= { y }`; module B imports `x` alone and defines `b ::= { x }`. */
  function EmptyOidModules(y: Object, x: Object, b: Object): Modules {
    map[
      BUILTIN := Scope(map[], map[]),
      "A" := Scope(map[], map["y" := ObjectDef(y), "x" := ObjectDef(x)]),
      "B" := Scope(map["x" := "A"], map["b" := ObjectDef(b)])
    ]
  }

  ghost predicate EmptyOidCase(y: Object, x: Object, b: Object, rank: Object -> nat) {
    && y.elements == [] && x.elements == [Name("y")] && b.elements == [Name("x")]
    && rank(y) < rank(x) < rank(b)
  }

  lemma EmptyOidIsLexical(y: Object, x: Object, b: Object, rank: Object -> nat)
    requires EmptyOidCase(y, x, b, rank)
    ensures var env := EmptyOidModules(y, x, b);
            Lexical(env, rank) && Owns(env, "A", y) && Owns(env, "A", x) && Owns(env, "B", b)
  {
    var env := EmptyOidModules(y, x, b);
    assert Owns(env, "A", x) by { assert "x" in env["A"].definitions; }
    assert Owns(env, "A", y) by { assert "y" in env["A"].definitions; }
    assert Owns(env, "B", b) by { assert "b" in env["B"].definitions; }
    assert Lookup(env, "A", "y") == Some(("A", ObjectDef(y)));
    assert Lookup(env, "B", "x") == Some(("A", ObjectDef(x)));
  }

  /**
   * Acyclic definitions, acyclic imports, names that all resolve and no shadowing are not enough:
   * an empty OID is not memoised, so B has to look `y` up itself, and cannot, in any pass.
   */
  lemma EmptyOidNeverCompiles(y: Object, x: Object, b: Object, rank: Object -> nat, level: string -> nat, memo: Memo)
    requires EmptyOidCase(y, x, b, rank) && level(BUILTIN) < level("A") < level("B")
    ensures var env := EmptyOidModules(y, x, b);
            && Lexical(env, rank) && ImportsAcyclic(env, level)
            && (Sound(env, rank, memo) ==> !AllEvaluate(env, rank, "B", memo))
  {
    var env := EmptyOidModules(y, x, b);
    EmptyOidIsLexical(y, x, b, rank);
    OwnedObject(env, "B", b);
    if Sound(env, rank, memo) {
      assert LastName(y.elements) == 0 && y.elements[..0] == [] && TrailingNumbers(y.elements) == [];
      assert DenoteBase(env, rank, "A", y, []) == [];
      assert Denote(env, rank, "A", y) == [];
      assert x.elements[..1] == x.elements && b.elements[..1] == b.elements;
      DenoteOneMore(env, rank, "A", x, 1);
      DenoteOneMore(env, rank, "B", b, 1);
      assert !Known(memo, x) && !Known(memo, b);
      assert EvalName(env, rank, "B", memo, x, "y") == None;
      EvalPrefixNext(env, rank, "B", memo, x, 0);
      assert Eval(env, rank, "B", memo, x) == None;
      assert Lookup(env, "B", "x") == Some(("A", ObjectDef(x)));
      EvalPrefixNext(env, rank, "B", memo, b, 0);
    }
  }
}
