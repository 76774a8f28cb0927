/** Enumerations in the constraint of a type: names with their numbers in brackets. */
module Enums {
  import opened Basics
  import opened Blocks
  import opened Readers
  import opened Tokens
  import Decimals

  type Names = map<int64, string>

  datatype Entry = Entry(name: string, number: int64)

  /** The number that a block consists of. */
  function NumberIn(block: seq<string>): Option<int64> {
    if |block| == 1 && TypeOf(block[0]) == NumberToken then Atoi(block[0]) else None
  }

  /** A number is a decimal text without a plus sign. */
  lemma NumberIff(block: seq<string>, n: int64)
    ensures NumberIn(block) == Some(n) <==> |block| == 1 && Decimals.Stands(block[0], n) && block[0][0] != '+'
  {
    if |block| == 1 {
      KindIff(block[0]);
      Decimals.AtoiIff(block[0], n);
      if Atoi(block[0]).Some? {
        AtoiText(block[0]);
      }
    }
  }

  lemma AtoiText(text: string)
    requires Atoi(text).Some?
    ensures text != "" && (text[0] == '+' || text[0] == '-' || '0' <= text[0] <= '9')
    ensures text[0] == '-' ==> |text| > 1 && '0' <= text[1] <= '9'
  {
    Decimals.AtoiOnlyIf(text);
    Decimals.StandsIsDigits(text, Atoi(text).value);
  }

  lemma NameIff(text: string)
    ensures IsName(text) <==> text != "" && ('a' <= text[0] <= 'z' || 'A' <= text[0] <= 'Z' || text[0] == '_')
  {
    KindIff(text);
  }

  predicate IsName(text: string) {
    TypeOf(text) == Ident
  }

  /** The entry at the front, together with the comma that may follow it. */
  function NextEntry(toks: seq<string>): (r: (Option<Entry>, seq<string>))
    requires toks != []
    ensures |r.1| < |toks|
  {
    if !IsName(toks[0]) then (None, toks[1..])
    else
      BlockShrinks(toks[1..], "(", ")");
      var BlockResult(block, rest) := BlockOf(toks[1..], "(", ")");
      var n := if block.None? then None else NumberIn(block.value);
      if n.None? then (None, rest)
      else (Some(Entry(toks[0], n.value)), if rest != [] && rest[0] == "," then rest[1..] else rest)
  }

  /** What the rest of a constraint adds to the names found so far; None when it is no enumeration. */
  function EnumsFrom(found: Names, toks: seq<string>): Option<Names>
    decreases |toks|
  {
    if toks == [] then Some(found)
    else
      var (entry, rest) := NextEntry(toks);
      if entry.None? then None else EnumsFrom(found[entry.value.number := entry.value.name], rest)
  }

  method ReadEntry(copy: Reader) returns (entry: Option<Entry>)
    requires Valid(copy) && Remaining(copy) != []
    modifies Top(copy)
    ensures Valid(copy) && Under(copy) == old(Under(copy))
    ensures entry == NextEntry(old(Remaining(copy))).0
    ensures entry.Some? ==> Remaining(copy) == NextEntry(old(Remaining(copy))).1
  {
    var name := Pop(copy);
    if !IsName(name.value) {
      return None;
    }
    var block := ReadBlock(copy, "(", ")");
    if block.None? {
      return None;
    }
    var n := NumberIn(block.value);
    if n.None? {
      return None;
    }
    if LookAhead(copy, 0) == Some(",") {
      var _ := Pop(copy);
    }
    return Some(Entry(name.value, n.value));
  }

  /** The constraint is read through a projection, so that it is there to be read again. */
  method CompileEnums(constraint: List) returns (names: Option<Names>)
    ensures names == EnumsFrom(map[], constraint.elements)
  {
    var p := NewProjection(OfList(constraint));
    var copy := OfProjection(p);
    var found: Names := map[];
    while !IsEOF(copy)
      invariant fresh(p) && p.reader == OfList(constraint) && Valid(copy)
      invariant EnumsFrom(found, Remaining(copy)) == EnumsFrom(map[], constraint.elements)
      decreases |Remaining(copy)|
    {
      var entry := ReadEntry(copy);
      if entry.None? {
        return None;
      }
      found := found[entry.value.number := entry.value.name];
    }
    return Some(found);
  }

  // ---------------------------------------------------------------- printed enumerations

  datatype AnyItem = Item(name: string, number: string, comma: bool)

  predicate Printable(item: AnyItem) {
    IsName(item.name) && NumberIn([item.number]).Some?
  }

  /** `name(number)`, with a comma behind it or without. */
  type Item = i: AnyItem | Printable(i) witness Item("a", "0", false)

  function Tail(item: Item, later: seq<string>): seq<string> {
    if item.comma then [","] + later else later
  }

  function Printed(items: seq<Item>): seq<string> {
    if items == [] then []
    else [items[0].name] + (["(", items[0].number, ")"] + Tail(items[0], Printed(items[1..])))
  }

  function EntryOf(item: Item): Entry {
    Entry(item.name, NumberIn([item.number]).value)
  }

  /** Of several names for a number the last one counts. */
  function Entries(found: Names, items: seq<Item>): Names
    decreases |items|
  {
    if items == [] then found
    else Entries(found[EntryOf(items[0]).number := items[0].name], items[1..])
  }

  lemma NumberIsBlock(number: string, rest: seq<string>)
    requires NumberIn([number]).Some?
    ensures BlockOf(["(", number, ")"] + rest, "(", ")") == BlockResult(Some([number]), rest)
  {
    assert [number][..0] == [] && [number][..1] == [number];
    assert number != "(" && number != ")";
    assert Depth([], "(", ")") == 0 && Depth([number], "(", ")") == 0;
    assert ["("] + [number] + [")"] + rest == ["(", number, ")"] + rest;
    BalancedIsRead(["(", number, ")"] + rest, "(", ")", [number], rest);
  }

  lemma PrintedStartsWithName(items: seq<Item>)
    ensures Printed(items) == [] || Printed(items)[0] != ","
  {
  }

  lemma NextPrinted(item: Item, later: seq<string>)
    requires later == [] || later[0] != ","
    ensures NextEntry([item.name] + (["(", item.number, ")"] + Tail(item, later))) == (Some(EntryOf(item)), later)
  {
    NumberIsBlock(item.number, Tail(item, later));
    assert ([item.name] + (["(", item.number, ")"] + Tail(item, later)))[1..] == ["(", item.number, ")"] + Tail(item, later);
  }

  /** Whatever is printed is read back, with commas or without. */
  lemma {:induction false} PrintedIsRead(found: Names, items: seq<Item>)
    ensures EnumsFrom(found, Printed(items)) == Some(Entries(found, items))
    decreases |items|
  {
    if items != [] {
      PrintedStartsWithName(items[1..]);
      NextPrinted(items[0], Printed(items[1..]));
      PrintedIsRead(found[EntryOf(items[0]).number := items[0].name], items[1..]);
    }
  }

  /** An entry that can be read is printed. */
  lemma EntryIsPrinted(toks: seq<string>) returns (item: Item)
    requires toks != [] && NextEntry(toks).0.Some?
    ensures toks == [item.name] + (["(", item.number, ")"] + Tail(item, NextEntry(toks).1))
    ensures NextEntry(toks).0 == Some(EntryOf(item))
  {
    var BlockResult(block, rest) := BlockOf(toks[1..], "(", ")");
    ReadIsBalanced(toks[1..], "(", ")", block.value, rest);
    var number := block.value[0];
    assert block.value == [number];
    item := Item(toks[0], number, rest != [] && rest[0] == ",");
    assert rest == Tail(item, NextEntry(toks).1);
    assert ["("] + [number] + [")"] + rest == ["(", number, ")"] + rest;
  }

  /** Nothing else is an enumeration. */
  lemma {:induction false} OnlyPrintedIsRead(found: Names, toks: seq<string>) returns (items: seq<Item>)
    requires EnumsFrom(found, toks).Some?
    ensures toks == Printed(items) && EnumsFrom(found, toks) == Some(Entries(found, items))
    decreases |toks|
  {
    if toks == [] {
      return [];
    }
    var item := EntryIsPrinted(toks);
    var later := OnlyPrintedIsRead(found[EntryOf(item).number := item.name], NextEntry(toks).1);
    items := [item] + later;
    assert items[1..] == later;
  }

  lemma ItoaIsNumber(n: int64)
    ensures NumberIn([Itoa(n)]) == Some(n)
  {
    AtoiOfItoa(n);
  }

  function ListItem(entry: Entry, comma: bool): (item: Item)
    requires IsName(entry.name)
    ensures EntryOf(item) == entry
  {
    ItoaIsNumber(entry.number);
    Item(entry.name, Itoa(entry.number), comma)
  }

  /** Named numbers, separated by commas. */
  function Listing(names: seq<Entry>): seq<Item>
    requires forall i :: 0 <= i < |names| ==> IsName(names[i].name)
  {
    if names == [] then [] else [ListItem(names[0], |names| > 1)] + Listing(names[1..])
  }

  function Assign(found: Names, names: seq<Entry>): Names
    decreases |names|
  {
    if names == [] then found else Assign(found[names[0].number := names[0].name], names[1..])
  }

  lemma {:induction false} ListingIsAssigned(found: Names, names: seq<Entry>)
    requires forall i :: 0 <= i < |names| ==> IsName(names[i].name)
    ensures Entries(found, Listing(names)) == Assign(found, names)
    decreases |names|
  {
    if names != [] {
      assert Listing(names)[1..] == Listing(names[1..]);
      ListingIsAssigned(found[names[0].number := names[0].name], names[1..]);
    }
  }

  ghost predicate HasNumber(names: seq<Entry>, n: int64) {
    exists i :: 0 <= i < |names| && names[i].number == n
  }

  lemma HasNumberRest(names: seq<Entry>, n: int64)
    requires names != []
    ensures HasNumber(names, n) <==> names[0].number == n || HasNumber(names[1..], n)
  {
    if i :| 0 <= i < |names| && names[i].number == n {
      assert i > 0 ==> names[1..][i - 1] == names[i];
    }
    if i :| 0 <= i < |names[1..]| && names[1..][i].number == n {
      assert names[i + 1] == names[1..][i];
    }
  }

  lemma {:induction false} NumbersAreNamed(found: Names, names: seq<Entry>, n: int64)
    ensures n in Assign(found, names) <==> n in found || HasNumber(names, n)
    ensures n in found && !HasNumber(names, n) ==> Assign(found, names)[n] == found[n]
    decreases |names|
  {
    if names != [] {
      HasNumberRest(names, n);
      NumbersAreNamed(found[names[0].number := names[0].name], names[1..], n);
    }
  }

  ghost predicate IsLast(names: seq<Entry>, i: nat, n: int64) {
    i < |names| && names[i].number == n && forall j :: i < j < |names| ==> names[j].number != n
  }

  lemma IsLastRest(names: seq<Entry>, i: nat, n: int64)
    requires IsLast(names, i, n)
    ensures if i == 0 then !HasNumber(names[1..], n) else IsLast(names[1..], i - 1, n)
  {
    assert forall j :: 0 <= j < |names[1..]| ==> names[1..][j] == names[j + 1];
  }

  lemma {:induction false} LastIsName(found: Names, names: seq<Entry>, i: nat, n: int64)
    requires IsLast(names, i, n)
    ensures n in Assign(found, names) && Assign(found, names)[n] == names[i].name
    decreases |names|
  {
    var more := found[names[0].number := names[0].name];
    IsLastRest(names, i, n);
    NumbersAreNamed(more, names[1..], n);
    if i > 0 {
      LastIsName(more, names[1..], i - 1, n);
    }
  }

  /** Every number has the name of the last entry with that number, and no other number has one. */
  lemma LastNameCounts(found: Names, names: seq<Entry>, n: int64)
    ensures n in Assign(found, names) <==> n in found || HasNumber(names, n)
    ensures forall i: nat :: IsLast(names, i, n) ==> n in Assign(found, names) && Assign(found, names)[n] == names[i].name
    ensures n in found && !HasNumber(names, n) ==> Assign(found, names)[n] == found[n]
  {
    NumbersAreNamed(found, names, n);
    forall i: nat | IsLast(names, i, n)
      ensures n in Assign(found, names) && Assign(found, names)[n] == names[i].name
    {
      LastIsName(found, names, i, n);
    }
  }

  /** A printed listing is recovered: `LastNameCounts` says which number gets which name. */
  lemma ListingIsRecovered(names: seq<Entry>)
    requires forall i :: 0 <= i < |names| ==> IsName(names[i].name)
    ensures EnumsFrom(map[], Printed(Listing(names))) == Some(Assign(map[], names))
  {
    PrintedIsRead(map[], Listing(names));
    ListingIsAssigned(map[], names);
  }
}
