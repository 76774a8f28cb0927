/** The OID index: a trie with parent links, filled in place and queried by longest prefix. */
module OidIndex {
  import opened Basics

  class OidBranch<D> {
    var parent: OidBranch?<D>
    var def: Option<D>
    var children: map<int64, OidBranch<D>>
    ghost var Repr: set<object>

    /** A tree: subtrees are disjoint and every child's parent link is its holder. */
    ghost predicate Valid()
      reads this, Repr
      decreases Repr
    {
      && this in Repr
      && (forall k :: k in children ==>
        && children[k] in Repr
        && children[k].Repr <= Repr
        && this !in children[k].Repr
        && children[k].parent == this
        && children[k].Valid())
      && (forall k, l :: k in children && l in children && k != l ==> children[k].Repr !! children[l].Repr)
    }

    /** The definition registered under a path, if any: the finite map that the trie stands for. */
    ghost function Get(path: OID): Option<D>
      requires Valid()
      reads this, Repr
      decreases path
    {
      if path == [] then def
      else
        var k := path[0];
        if k in children then children[k].Get(path[1..])
      else None
    }

    /** The branch at the end of a path, if that path exists. */
    ghost function At(path: OID): (b: OidBranch?<D>)
      requires Valid()
      reads this, Repr
      ensures b != null ==> b in Repr && b.Valid() && b.def == Get(path)
      ensures b == null ==> Get(path) == None
      decreases path
    {
      if path == [] then this
      else
        var k := path[0];
        if k in children then children[k].At(path[1..])
      else null
    }

    constructor ()
      ensures Valid() && fresh(Repr) && parent == null
      ensures forall path :: Get(path) == None
    {
      parent := null;
      def := None;
      children := map[];
      Repr := {this};
    }

    constructor Child(holder: OidBranch<D>)
      ensures Valid() && Repr == {this} && parent == holder
      ensures forall path :: Get(path) == None
    {
      parent := holder;
      def := None;
      children := map[];
      Repr := {this};
    }

    /** Adds an empty branch under `key`, which registers nothing. */
    method LinkChild(key: int64)
      requires Valid() && key !in children
      modifies this
      ensures Valid() && fresh(Repr - old(Repr)) && parent == old(parent) && key in children
      ensures forall path :: Get(path) == old(Get(path))
    {
      var child := new OidBranch<D>.Child(this);
      children := children[key := child];
      Repr := Repr + child.Repr;
      assert Valid();
      assert forall path: OID :: path != [] && path[0] == key ==> Get(path) == child.Get(path[1..]);
    }

    /** Registers a path that starts with an existing child. */
    method AddBelow(key: int64, tail: OID, d: D)
      requires Valid() && key in children
      modifies Repr
      ensures Valid() && fresh(Repr - old(Repr)) && parent == old(parent)
      ensures forall path :: Get(path) == if path == [key] + tail then Some(d) else old(Get(path))
      decreases |tail|, 2
    {
      var child := children[key];
      child.AddDefinition(tail, d);
      Repr := Repr + child.Repr;
      forall k | k in children && k != key
        ensures unchanged(children[k], children[k].Repr)
      {
      }
      assert Valid();
      forall path: OID
        ensures Get(path) == if path == [key] + tail then Some(d) else old(Get(path))
      {
        if path != [] {
          assert path == [path[0]] + path[1..];
        }
      }
    }

    /** Map update: `oid` now leads to `d`, and every other path leads where it did. */
    method AddDefinition(oid: OID, d: D)
      requires Valid()
      modifies Repr
      ensures Valid() && fresh(Repr - old(Repr)) && parent == old(parent)
      ensures forall path :: Get(path) == if path == oid then Some(d) else old(Get(path))
      decreases |oid|, 1
    {
      if |oid| == 0 {
        def := Some(d);
        return;
      }
      if oid[0] !in children {
        LinkChild(oid[0]);
      }
      AddBelow(oid[0], oid[1..], d);
      assert oid == [oid[0]] + oid[1..];
    }

    /** `k` elements of `oid` is the longest prefix that is registered, or none is and `k` is 0. */
    ghost predicate LongestRegistered(oid: OID, k: nat)
      requires Valid() && k <= |oid|
      reads this, Repr
    {
      && (k > 0 ==> Get(oid[..k]).Some?)
      && (forall j :: k < j <= |oid| ==> Get(oid[..j]) == None)
    }

    function FindOID(oid: OID): (r: (OidBranch<D>, OID))
      requires Valid()
      reads this, Repr
      ensures |r.1| <= |oid| && r.1 == oid[|oid| - |r.1|..]
      ensures At(oid[..|oid| - |r.1|]) == r.0
      ensures LongestRegistered(oid, |oid| - |r.1|)
      decreases |oid|
    {
      if |oid| == 0 then (this, oid)
      else
        var key := oid[0];
        if key !in children then
          assert forall j :: 0 < j <= |oid| ==> oid[..j][0] == key;
          (this, oid)
        else
          assert forall j :: 0 < j <= |oid| ==> oid[..j][0] == key && oid[..j][1..] == oid[1..][..j - 1];
          var (branch, tail) := children[key].FindOID(oid[1..]);
          assert forall j :: 0 < j <= |oid| ==> Get(oid[..j]) == children[key].Get(oid[1..][..j - 1]);
          if branch.def.None? then (this, oid) else (branch, tail)
    }

    /** The definitions of the direct children that have one, in increasing order of their arcs. */
    method ChildValues() returns (values: seq<D>, ghost arcs: seq<int64>)
      requires Valid()
      ensures Increasing(arcs) && |values| == |arcs|
      ensures forall k :: k in arcs <==> Get([k]).Some?
      ensures forall i :: 0 <= i < |arcs| ==> Get([arcs[i]]) == Some(values[i])
    {
      var sorted := SortedKeys(children.Keys);
      values, arcs := [], [];
      for i := 0 to |sorted|
        invariant Increasing(arcs) && |values| == |arcs|
        invariant forall k :: k in arcs <==> k in sorted[..i] && Get([k]).Some?
        invariant forall j :: 0 <= j < |arcs| ==> Get([arcs[j]]) == Some(values[j])
      {
        var key := sorted[i];
        var child := children[key];
        assert Get([key]) == child.Get([]);
        assert sorted[..i + 1] == sorted[..i] + [key];
        if child.def.Some? {
          forall j | 0 <= j < |arcs|
            ensures arcs[j] < key
          {
            assert arcs[j] in arcs;
          }
          values, arcs := values + [child.def.value], arcs + [key];
        }
      }
      assert sorted[..|sorted|] == sorted;
    }
  }

  predicate Increasing(keys: seq<int64>) {
    forall i, j :: 0 <= i < j < |keys| ==> keys[i] < keys[j]
  }

  /** `sorted` has exactly the given keys, in increasing order. */
  predicate Lists(sorted: seq<int64>, keys: set<int64>) {
    Increasing(sorted) && (forall k :: k in sorted ==> k in keys) && forall k :: k in keys ==> k in sorted
  }

  /** There is only one such list, so that the order of a map makes no difference. */
  lemma {:induction false} ListIsUnique(a: seq<int64>, b: seq<int64>, keys: set<int64>)
    requires Lists(a, keys) && Lists(b, keys)
    ensures a == b
  {
    assert forall i :: 0 <= i < |a| ==> a[i] in b;
    assert forall i :: 0 <= i < |b| ==> b[i] in a;
    if a != [] {
      var x, y := a[0], b[0];
      ListTail(a, keys);
      ListTail(b, keys);
      ListIsUnique(a[1..], b[1..], keys - {x});
      assert a == [x] + a[1..] && b == [y] + b[1..];
    }
  }

  lemma ListTail(a: seq<int64>, keys: set<int64>)
    requires Lists(a, keys) && a != []
    ensures Lists(a[1..], keys - {a[0]}) && Least(a[0], keys)
  {
    forall k | k in keys - {a[0]}
      ensures k in a[1..]
    {
      var i :| 0 <= i < |a| && a[i] == k;
      assert a[1..][i - 1] == k;
    }
    forall k | k in a[1..]
      ensures k in keys - {a[0]}
    {
      var i :| 0 <= i < |a[1..]| && a[1..][i] == k;
      assert a[i + 1] == k;
    }
  }

  /** The keys of a map, sorted. */
  method SortedKeys(keys: set<int64>) returns (sorted: seq<int64>)
    ensures Lists(sorted, keys)
  {
    sorted := [];
    var rest := keys;
    while rest != {}
      invariant forall k :: k in keys <==> k in sorted || k in rest
      invariant rest <= keys
      invariant Increasing(sorted) && forall k, r :: k in sorted && r in rest ==> k < r
    {
      ghost var least := HasLeast(rest);
      var key :| key in rest && forall other :: other in rest ==> key <= other;
      assert forall i :: 0 <= i < |sorted| ==> sorted[i] in sorted;
      sorted, rest := sorted + [key], rest - {key};
    }
  }

  predicate Least(x: int64, s: set<int64>) {
    x in s && forall other :: other in s ==> x <= other
  }

  lemma {:induction false} HasLeast(s: set<int64>) returns (least: int64)
    requires s != {}
    ensures Least(least, s)
  {
    least :| least in s;
    var others := s - {least};
    assert forall x :: x in s ==> x == least || x in others;
    if others != {} {
      var candidate := HasLeast(others);
      if candidate < least {
        least := candidate;
      }
    }
  }
}
