/** The OID that the texts of a definition denote. */
module MibTexts {
  import opened Basics
  import opened MibResolve
  import opened Decimals

  ghost predicate IsNumber(text: string) {
    exists n: int64 :: Stands(text, n)
  }

  /** From the `k`th text on, the texts are these numbers, and the text before them is none. */
  ghost predicate EndsWith(texts: seq<string>, k: nat, ns: OID) {
    && |texts| == k + |ns|
    && (forall i :: 0 <= i < |ns| ==> Stands(texts[k + i], ns[i]))
    && (k > 0 ==> !IsNumber(texts[k - 1]))
  }

  /** All texts of a definition end like this. */
  lemma {:induction false} AllEndWith(texts: seq<string>) returns (k: nat, ns: OID)
    ensures EndsWith(texts, k, ns)
  {
    k, ns := |texts|, [];
    if texts != [] {
      var last := |texts| - 1;
      if IsNumber(texts[last]) {
        var n: int64 :| Stands(texts[last], n);
        var front := texts[..last];
        var numbers;
        k, numbers := AllEndWith(front);
        ns := numbers + [n];
      }
    }
  }

  lemma {:induction false} NumbersBehind(es: seq<Element>, k: nat, ns: OID)
    requires |es| == k + |ns| && (k > 0 ==> !es[k - 1].Number?)
    requires forall i :: 0 <= i < |ns| ==> es[k + i] == Number(ns[i])
    ensures LastName(es) == k && TrailingNumbers(es) == ns
    decreases |ns|
  {
    if ns != [] {
      var n := |ns| - 1;
      var front := es[..k + n];
      assert es[k + n] == Number(ns[n]) && ns == ns[..n] + [ns[n]];
      forall i | 0 <= i < n
        ensures front[k + i] == Number(ns[..n][i])
      {
        assert front[k + i] == es[k + i];
      }
      NumbersBehind(front, k, ns[..n]);
    }
  }

  lemma ElementsBehind(es: seq<Element>, texts: seq<string>, k: nat, ns: OID)
    requires MadeFrom(es, texts) && EndsWith(texts, k, ns)
    ensures LastName(es) == k && TrailingNumbers(es) == ns
    ensures k > 0 ==> es[k - 1] == if texts[k - 1] == "iso" then Iso else Name(texts[k - 1])
  {
    forall i | 0 <= i < |ns|
      ensures es[k + i] == Number(ns[i])
    {
      ClassifyIff(texts[k + i], es[k + i]);
      ClassifyIff(texts[k + i], Number(ns[i]));
    }
    if k > 0 {
      assert Says(texts[k - 1], es[k - 1]);
    }
    NumbersBehind(es, k, ns);
  }

  /**
   * An object made from texts denotes the numbers at the end of them, behind what the last text that
   * is no number stands for: 1 for `iso`, and otherwise the OID of the object that it names.
   */
  lemma TextsDenote(env: Modules, rank: Object -> nat, m: string, o: Object, texts: seq<string>, k: nat, ns: OID)
    requires Resolves(env, rank) && Owns(env, m, o) && MadeFrom(o.elements, texts) && EndsWith(texts, k, ns)
    ensures k == 0 ==> Denote(env, rank, m, o) == ns
    ensures k > 0 && texts[k - 1] == "iso" ==> Denote(env, rank, m, o) == [1] + ns
    ensures k > 0 && texts[k - 1] != "iso" ==>
      match Lookup(env, m, texts[k - 1])
      case Some((home, ObjectDef(target))) => Owns(env, home, target) && Denote(env, rank, m, o) == Denote(env, rank, home, target) + ns
      case _ => false
  {
    ElementsBehind(o.elements, texts, k, ns);
    var base := DenoteBase(env, rank, m, o, o.elements[..k]);
    assert Denote(env, rank, m, o) == DenoteElements(env, rank, m, o, o.elements) == base + ns;
    if k == 0 {
      assert o.elements[..k] == [] && base == [] && [] + ns == ns;
      return;
    }
    assert o.elements[..k][k - 1] == o.elements[k - 1] && o.elements[k - 1] in o.elements;
    OwnedObject(env, m, o);
    assert ResolvesAt(env, rank, m, o);
    LookupFindsOwned(env, m, texts[k - 1]);
  }
}
