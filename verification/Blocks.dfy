/** Bracketed blocks at the front of a token sequence. */
module Blocks {
  import opened Basics

  /** How much deeper the nesting is after some tokens. A token that is both brackets counts as opening. */
  function Depth(tokens: seq<string>, start: string, end: string): int {
    if tokens == [] then 0
    else
      var last := tokens[|tokens| - 1];
      Depth(tokens[..|tokens| - 1], start, end) + (if last == start then 1 else if last == end then -1 else 0)
  }

  /** What reading a block gives, and what is left to read afterwards. */
  datatype BlockResult = BlockResult(block: Option<seq<string>>, rest: seq<string>)

  function Inside(tokens: seq<string>): seq<string> {
    if |tokens| >= 2 then tokens[1..|tokens| - 1] else []
  }

  /** Reads on until a closing bracket brings `level` back to 0. */
  function BlockFrom(read: seq<string>, level: int, rest: seq<string>, start: string, end: string): BlockResult
    decreases |rest|
  {
    if rest == [] then BlockResult(None, [])
    else if rest[0] == start then BlockFrom(read + [rest[0]], level + 1, rest[1..], start, end)
    else if rest[0] != end then BlockFrom(read + [rest[0]], level, rest[1..], start, end)
    else if level != 1 then BlockFrom(read + [rest[0]], level - 1, rest[1..], start, end)
    else BlockResult(Some(Inside(read + [rest[0]])), rest[1..])
  }

  function BlockOf(tokens: seq<string>, start: string, end: string): BlockResult {
    if tokens == [] || tokens[0] != start then BlockResult(None, tokens)
    else BlockFrom([], 0, tokens, start, end)
  }

  lemma {:induction false} BlockFromShrinks(read: seq<string>, level: int, rest: seq<string>, start: string, end: string)
    ensures var r := BlockFrom(read, level, rest, start, end);
            |r.rest| <= |rest| && r.rest == rest[|rest| - |r.rest|..] && (r.block.Some? ==> |r.rest| < |rest|)
    decreases |rest|
  {
    if rest != [] && (rest[0] == start || rest[0] != end || level != 1) {
      var next := if rest[0] == start then level + 1 else if rest[0] != end then level else level - 1;
      BlockFromShrinks(read + [rest[0]], next, rest[1..], start, end);
    }
  }

  /** A block is read off the front. */
  lemma BlockShrinks(tokens: seq<string>, start: string, end: string)
    ensures var r := BlockOf(tokens, start, end);
            |r.rest| <= |tokens| && r.rest == tokens[|tokens| - |r.rest|..] && (r.block.Some? ==> |r.rest| < |tokens|)
  {
    BlockFromShrinks([], 0, tokens, start, end);
  }

  /** Reading stops at the first closing bracket that brings the depth back to 0. */
  ghost predicate StopsAt(read: seq<string>, used: seq<string>, start: string, end: string, r: BlockResult) {
    && (forall j :: 0 <= j < |used| ==> Depth(read + used[..j], start, end) > 0)
    && (match r.block
        case Some(block) =>
          && used != [] && used[|used| - 1] == end
          && Depth(read + used, start, end) == 0 && block == Inside(read + used)
        case None => r.rest == [] && Depth(read + used, start, end) > 0)
  }

  lemma {:induction false} BlockEndsAtFirstReturn(read: seq<string>, rest: seq<string>, start: string, end: string)
    returns (used: seq<string>)
    requires start != end && Depth(read, start, end) > 0
    ensures var r := BlockFrom(read, Depth(read, start, end), rest, start, end);
            rest == used + r.rest && StopsAt(read, used, start, end, r)
    decreases |rest|
  {
    assert read + [] == read;
    if rest == [] {
      return [];
    }
    var more := read + [rest[0]];
    assert more[..|read|] == read;
    if Depth(more, start, end) > 0 {
      var later := BlockEndsAtFirstReturn(more, rest[1..], start, end);
      used := [rest[0]] + later;
      assert read + used == more + later;
      forall j | 0 <= j < |used|
        ensures Depth(read + used[..j], start, end) > 0
      {
        assert j > 0 ==> read + used[..j] == more + later[..j - 1];
      }
    } else {
      used := [rest[0]];
    }
  }

  /** All prefixes are at depth 0 or more, and the whole is at depth 0. */
  ghost predicate Balanced(tokens: seq<string>, start: string, end: string) {
    Depth(tokens, start, end) == 0 && forall j :: 0 <= j <= |tokens| ==> Depth(tokens[..j], start, end) >= 0
  }

  lemma {:induction false} DepthOfConcat(a: seq<string>, b: seq<string>, start: string, end: string)
    ensures Depth(a + b, start, end) == Depth(a, start, end) + Depth(b, start, end)
  {
    if b == [] {
      assert a + b == a;
    } else {
      assert (a + b)[..|a + b| - 1] == a + b[..|b| - 1];
      DepthOfConcat(a, b[..|b| - 1], start, end);
    }
  }

  /** Behind the opening bracket, the depth is that of the block plus one. */
  lemma DepthBehind(start: string, end: string, block: seq<string>)
    requires start != end
    ensures Depth([start] + block, start, end) == 1 + Depth(block, start, end)
  {
    assert [start][..0] == [];
    DepthOfConcat([start], block, start, end);
  }

  lemma Opened(tokens: seq<string>, start: string, end: string)
    requires start != end && tokens != [] && tokens[0] == start
    ensures Depth([start], start, end) == 1 && tokens == [start] + tokens[1..]
    ensures BlockOf(tokens, start, end) == BlockFrom([start], 1, tokens[1..], start, end)
  {
    assert [start][..0] == [] && [] + [tokens[0]] == [start];
  }

  /** Reading a block succeeds exactly on an opening bracket, a balanced block, its closing bracket and a rest. */
  lemma BlockIsBalanced(tokens: seq<string>, start: string, end: string, block: seq<string>, rest: seq<string>)
    requires start != end
    ensures BlockOf(tokens, start, end) == BlockResult(Some(block), rest) <==>
            tokens == [start] + block + [end] + rest && Balanced(block, start, end)
  {
    if BlockOf(tokens, start, end) == BlockResult(Some(block), rest) {
      ReadIsBalanced(tokens, start, end, block, rest);
    }
    if tokens == [start] + block + [end] + rest && Balanced(block, start, end) {
      BalancedIsRead(tokens, start, end, block, rest);
    }
  }

  lemma ReadIsBalanced(tokens: seq<string>, start: string, end: string, block: seq<string>, rest: seq<string>)
    requires start != end && BlockOf(tokens, start, end) == BlockResult(Some(block), rest)
    ensures tokens == [start] + block + [end] + rest && Balanced(block, start, end)
  {
    Opened(tokens, start, end);
    var used := BlockEndsAtFirstReturn([start], tokens[1..], start, end);
    assert [start] + used == [start] + block + [end] && used == block + [end];
    forall j | 0 <= j <= |block|
      ensures Depth(block[..j], start, end) == Depth([start] + used[..j], start, end) - 1
    {
      assert used[..j] == block[..j];
      DepthBehind(start, end, block[..j]);
    }
    assert block[..|block|] == block && used[..|block|] == block;
    assert ([start] + used)[..|used|] == [start] + block;
  }

  /** Conversely, reading goes on for as long as the depth is positive. */
  lemma {:induction false} ReadsUpToReturn(read: seq<string>, used: seq<string>, rest: seq<string>, start: string, end: string)
    requires start != end && used != [] && Depth(read + used, start, end) == 0
    requires forall j :: 0 <= j < |used| ==> Depth(read + used[..j], start, end) > 0
    ensures BlockFrom(read, Depth(read, start, end), used + rest, start, end) == BlockResult(Some(Inside(read + used)), rest)
    decreases |used|
  {
    var more, later := read + [used[0]], used[1..];
    assert used[..0] == [] && read + [] == read && more[..|read|] == read;
    assert used == [used[0]] + later && (used + rest)[1..] == later + rest;
    if later == [] {
      assert more == read + used && later + rest == rest;
    } else {
      assert used[..1] == [used[0]];
      assert more + later == read + used;
      forall j | 0 <= j < |later|
        ensures Depth(more + later[..j], start, end) > 0
      {
        assert more + later[..j] == read + used[..j + 1];
      }
      ReadsUpToReturn(more, later, rest, start, end);
    }
  }

  lemma BalancedIsRead(tokens: seq<string>, start: string, end: string, block: seq<string>, rest: seq<string>)
    requires start != end && tokens == [start] + block + [end] + rest && Balanced(block, start, end)
    ensures BlockOf(tokens, start, end) == BlockResult(Some(block), rest)
  {
    Opened(tokens, start, end);
    var whole := block + [end];
    assert tokens[1..] == whole + rest;
    forall j | 0 <= j < |whole|
      ensures Depth([start] + whole[..j], start, end) > 0
    {
      assert whole[..j] == block[..j];
      DepthBehind(start, end, block[..j]);
    }
    assert block[..|block|] == block;
    DepthBehind(start, end, block);
    assert ([start] + whole)[..|whole|] == [start] + block;
    ReadsUpToReturn([start], whole, rest, start, end);
    assert Inside([start] + whole) == block;
  }

  /** No block can be read exactly when the first token does not open one or nothing closes it. */
  lemma NoBlock(tokens: seq<string>, start: string, end: string)
    requires start != end
    ensures BlockOf(tokens, start, end).block == None <==>
            tokens == [] || tokens[0] != start
            || forall j :: 0 < j <= |tokens| ==> Depth(tokens[..j], start, end) > 0
  {
    if tokens != [] && tokens[0] == start {
      Opened(tokens, start, end);
      var used := BlockEndsAtFirstReturn([start], tokens[1..], start, end);
      var n := |used| + 1;
      assert tokens[..n] == [start] + used && used[..|used|] == used;
      forall j | 0 < j <= n
        ensures tokens[..j] == [start] + used[..j - 1]
      {
      }
    }
  }

  /** Everything before the first `end`, and what follows it; reading runs to the end when there is none. */
  function UntilResult(tokens: seq<string>, end: string): BlockResult {
    if tokens == [] then BlockResult(None, [])
    else if tokens[0] == end then BlockResult(Some([]), tokens[1..])
    else Prepend([tokens[0]], UntilResult(tokens[1..], end))
  }

  function Prepend(tokens: seq<string>, later: BlockResult): BlockResult {
    BlockResult(if later.block.Some? then Some(tokens + later.block.value) else None, later.rest)
  }

  lemma {:induction false} UntilFindsFirst(before: seq<string>, end: string, rest: seq<string>)
    requires end !in before
    ensures UntilResult(before + [end] + rest, end) == BlockResult(Some(before), rest)
  {
    var tokens := before + [end] + rest;
    if before == [] {
      assert tokens[1..] == rest;
    } else {
      UntilFindsFirst(before[1..], end, rest);
      assert tokens[1..] == before[1..] + [end] + rest;
      assert tokens[0] == before[0] && before[0] in before && before == [before[0]] + before[1..];
    }
  }

  lemma PrependNothing(later: BlockResult)
    ensures Prepend([], later) == later
  {
    assert later.block.Some? ==> [] + later.block.value == later.block.value;
  }

  lemma PrependTwice(a: seq<string>, b: seq<string>, later: BlockResult)
    ensures Prepend(a, Prepend(b, later)) == Prepend(a + b, later)
  {
    assert later.block.Some? ==> a + (b + later.block.value) == (a + b) + later.block.value;
  }
}
