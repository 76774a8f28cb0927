/**
 * Token readers: lists, and projections that read ahead of another reader. The scanner answers like
 * a list of its remaining tokens, so a list stands for it at the bottom of a stack of projections.
 */
module Readers {
  import opened Basics
  import opened Blocks

  class List {
    var elements: seq<string>

    constructor (elements: seq<string>)
      ensures this.elements == elements
    {
      this.elements := elements;
    }

    function Length(): nat
      reads this
    {
      |elements|
    }

    method RemoveIndex(n: nat) returns (ok: bool)
      modifies this
      ensures ok <==> n < |old(elements)|
      ensures elements == if ok then old(elements)[..n] + old(elements)[n + 1..] else old(elements)
    {
      if n >= |elements| {
        return false;
      }
      elements := elements[..n] + elements[n + 1..];
      return true;
    }

    method AppendTokens(tokens: seq<string>)
      modifies this
      ensures elements == old(elements) + tokens
    {
      elements := elements + tokens;
    }
  }

  /** What can be read from: the implementations that a Go interface value stands for. */
  datatype Reader = OfList(list: List) | OfProjection(projection: Projection)

  class Projection {
    const reader: Reader
    var offset: nat
    ghost const level: nat

    constructor (reader: Reader)
      ensures this.reader == reader && offset == 0 && level == Level(reader) + 1
    {
      this.reader := reader;
      this.offset := 0;
      this.level := Level(reader) + 1;
    }
  }

  // ---------------------------------------------------------------- stacks of readers

  /** How many projections lie above the list at the bottom. */
  ghost function Level(r: Reader): nat {
    match r
    case OfProjection(p) => p.level
    case OfList(_) => 0
  }

  /** The readers of a stack. */
  ghost function Footprint(r: Reader): set<object>
    decreases Level(r)
  {
    match r
    case OfProjection(p) => {p} + if Level(p.reader) < p.level then Footprint(p.reader) else {}
    case OfList(l) => {l}
  }

  lemma {:induction false} StackAllocated(r: Reader)
    ensures forall o :: o in Footprint(r) ==> allocated(o)
    decreases Level(r)
  {
    if r.OfProjection? && Level(r.projection.reader) < r.projection.level {
      StackAllocated(r.projection.reader);
    }
  }

  /** The object that keeps the position of a reader. */
  function Top(r: Reader): object {
    match r
    case OfList(list) => list
    case OfProjection(projection) => projection
  }

  ghost predicate Valid(r: Reader)
    reads Footprint(r)
    decreases Level(r), 0
  {
    match r
    case OfList(_) => true
    case OfProjection(p) =>
      && Level(p.reader) < p.level
      && p !in Footprint(p.reader)
      && Valid(p.reader)
      && p.offset <= |Remaining(p.reader)|
  }

  /** The tokens that are still to come from a reader. */
  ghost function Remaining(r: Reader): seq<string>
    requires Valid(r)
    reads Footprint(r)
    decreases Level(r), 1
  {
    match r
    case OfList(l) => l.elements
    case OfProjection(p) => Remaining(p.reader)[p.offset..]
  }

  /** What every reader of a stack still has to come, from the top to the bottom. */
  ghost function Views(r: Reader): (views: seq<seq<string>>)
    requires Valid(r)
    reads Footprint(r)
    ensures views != [] && views[0] == Remaining(r)
    decreases Level(r)
  {
    match r
    case OfProjection(p) => [Remaining(r)] + Views(p.reader)
    case OfList(_) => [Remaining(r)]
  }

  /** What the readers below the top one still have to come. */
  ghost function Under(r: Reader): seq<seq<string>>
    requires Valid(r)
    reads Footprint(r)
  {
    Views(r)[1..]
  }

  // ---------------------------------------------------------------- reading

  function LookAhead(r: Reader, n: nat): (token: Option<string>)
    requires Valid(r)
    reads Footprint(r)
    ensures token == if n < |Remaining(r)| then Some(Remaining(r)[n]) else None
    decreases Level(r)
  {
    match r
    case OfList(l) => if n < |l.elements| then Some(l.elements[n]) else None
    case OfProjection(p) => LookAhead(p.reader, p.offset + n)
  }

  predicate IsEOF(r: Reader)
    requires Valid(r)
    reads Footprint(r)
    ensures IsEOF(r) <==> Remaining(r) == []
  {
    LookAhead(r, 0).None?
  }

  /** A reader that reads ahead of another one. */
  method NewProjection(reader: Reader) returns (p: Projection)
    requires Valid(reader)
    ensures fresh(p) && p.reader == reader && p.offset == 0
    ensures Valid(OfProjection(p)) && Remaining(OfProjection(p)) == Remaining(reader)
    ensures Under(OfProjection(p)) == Views(reader) == old(Views(reader))
  {
    StackAllocated(reader);
    p := new Projection(reader);
    assert p !in Footprint(reader);
  }

  /** Taking a token moves the top reader only. */
  method Pop(r: Reader) returns (token: Option<string>)
    requires Valid(r)
    modifies Top(r)
    ensures Valid(r) && Under(r) == old(Under(r))
    ensures token == if old(Remaining(r)) == [] then None else Some(old(Remaining(r))[0])
    ensures Remaining(r) == if old(Remaining(r)) == [] then [] else old(Remaining(r))[1..]
  {
    token := LookAhead(r, 0);
    if token.None? {
      return;
    }
    match r
    case OfList(l) =>
      var _ := l.RemoveIndex(0);
    case OfProjection(p) =>
      p.offset := p.offset + 1;
      assert Valid(p.reader) && Remaining(p.reader) == old(Remaining(p.reader)) && Views(p.reader) == old(Views(p.reader));
  }

  method CommitOne(p: Projection)
    requires Valid(OfProjection(p)) && p.offset > 0
    modifies p, Top(p.reader)
    ensures Valid(OfProjection(p)) && p.offset == old(p.offset) - 1
    ensures Remaining(OfProjection(p)) == old(Remaining(OfProjection(p))) && Under(p.reader) == old(Under(p.reader))
  {
    var _ := Pop(p.reader);
    label Popped:
    p.offset := p.offset - 1;
    assert Valid(p.reader) && Views(p.reader) == old@Popped(Views(p.reader));
    assert Remaining(p.reader) == old(Remaining(p.reader))[1..];
  }

  /** Takes from the reader below what this projection has read; its own view stays what it was. */
  method Commit(p: Projection)
    requires Valid(OfProjection(p))
    modifies p, Top(p.reader)
    ensures Valid(OfProjection(p)) && p.offset == 0
    ensures Remaining(OfProjection(p)) == old(Remaining(OfProjection(p)))
    ensures Views(p.reader) == [old(Remaining(OfProjection(p)))] + old(Under(p.reader))
  {
    while p.offset > 0
      invariant Valid(OfProjection(p))
      invariant Remaining(OfProjection(p)) == old(Remaining(OfProjection(p)))
      invariant Under(p.reader) == old(Under(p.reader))
    {
      CommitOne(p);
    }
    assert Views(p.reader) == [Views(p.reader)[0]] + Under(p.reader);
  }

  // ---------------------------------------------------------------- blocks

  method ReadBlock(r: Reader, start: string, end: string) returns (block: Option<seq<string>>)
    requires Valid(r)
    modifies Top(r)
    ensures Valid(r) && Under(r) == old(Under(r))
    ensures BlockResult(block, Remaining(r)) == BlockOf(old(Remaining(r)), start, end)
  {
    if LookAhead(r, 0) != Some(start) {
      return None;
    }
    var level: int, elements: seq<string> := 0, [];
    while true
      invariant Valid(r) && Under(r) == old(Under(r))
      invariant BlockFrom(elements, level, Remaining(r), start, end) == BlockOf(old(Remaining(r)), start, end)
      decreases |Remaining(r)|
    {
      var tok := Pop(r);
      if tok.None? {
        return None;
      }
      elements := elements + [tok.value];
      if tok.value == start {
        level := level + 1;
      } else if tok.value == end {
        level := level - 1;
        if level == 0 {
          return Some(Inside(elements));
        }
      }
    }
  }

  /**
   * The same on a list, where one token can count both as opening and as closing: then the block
   * ends with the token that opens it, and cutting off both brackets is out of range.
   */
  method ReadListBlock(list: List, start: string, end: string) returns (block: Option<seq<string>>, panics: bool)
    modifies list
    ensures panics <==> start == end && old(list.elements) != [] && old(list.elements)[0] == start
    ensures panics ==> block == None && list.elements == old(list.elements)[1..]
    ensures !panics ==> BlockResult(block, list.elements) == BlockOf(old(list.elements), start, end)
  {
    if |list.elements| == 0 || list.elements[0] != start {
      return None, false;
    }
    var level: int, elements: seq<string> := 0, [];
    while |list.elements| > 0
      invariant if elements == [] then level == 0 && list.elements == old(list.elements) else start != end && level > 0
      invariant BlockFrom(elements, level, list.elements, start, end) == BlockOf(old(list.elements), start, end)
      decreases |list.elements|
    {
      var tok := list.elements[0];
      ghost var left := list.elements[1..];
      var _ := list.RemoveIndex(0);
      assert list.elements == left;
      elements := elements + [tok];
      if tok == start {
        level := level + 1;
      }
      if tok == end {
        level := level - 1;
        if level == 0 {
          if |elements| < 2 {
            return None, true;
          }
          return Some(elements[1..|elements| - 1]), false;
        }
      }
    }
    return None, false;
  }

  method ReadUntil(r: Reader, end: string) returns (block: Option<seq<string>>)
    requires Valid(r)
    modifies Top(r)
    ensures Valid(r) && Under(r) == old(Under(r))
    ensures BlockResult(block, Remaining(r)) == UntilResult(old(Remaining(r)), end)
  {
    ghost var tokens := Remaining(r);
    var elements: seq<string> := [];
    PrependNothing(UntilResult(tokens, end));
    while true
      invariant Valid(r) && Under(r) == old(Under(r))
      invariant Prepend(elements, UntilResult(Remaining(r), end)) == UntilResult(tokens, end)
      decreases |Remaining(r)|
    {
      var tok := Pop(r);
      if tok.None? {
        return None;
      }
      if tok.value == end {
        assert elements + [] == elements;
        return Some(elements);
      }
      PrependTwice(elements, [tok.value], UntilResult(Remaining(r), end));
      elements := elements + [tok.value];
    }
  }
}
