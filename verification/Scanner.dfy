/** The token scanner: a queue that is filled on demand and joins words in place. */
module MibScanner {
  import opened Basics
  import opened Tokens

  // ---------------------------------------------------------------- eager joining, the reference

  predicate Joins(front: seq<string>, text: string) {
    front != [] && front[|front| - 1] + " " + text in SPECIAL_TOKENS
  }

  /** Adds one token to the end of a token list, joining it to the last one if they are a special pair. */
  function Add(front: seq<string>, text: string): seq<string> {
    if Joins(front, text) then front[..|front| - 1] + [front[|front| - 1] + " " + text]
    else front + [text]
  }

  /** Joins a whole stream onto what is there, from left to right. */
  function Join(front: seq<string>, raw: seq<string>): seq<string>
    decreases raw
  {
    if raw == [] then front else Join(Add(front, raw[0]), raw[1..])
  }

  function Kept(raw: seq<string>, skip: set<TokenType>): seq<string> {
    if raw == [] then []
    else if TypeOf(raw[0]) in skip then Kept(raw[1..], skip)
    else [raw[0]] + Kept(raw[1..], skip)
  }

  /** The tokens of a whole input. */
  function Tokenize(raw: seq<string>, skip: set<TokenType>): seq<string> {
    Join([], Kept(raw, skip))
  }

  /** Joining only ever changes the last token. */
  lemma {:induction false} JoinKeepsFront(front: seq<string>, raw: seq<string>)
    ensures |front| <= |Join(front, raw)|
    ensures forall i :: 0 <= i < |front| - 1 ==> Join(front, raw)[i] == front[i]
    decreases raw
  {
    if raw != [] {
      JoinKeepsFront(Add(front, raw[0]), raw[1..]);
    }
  }

  /** The first token can be taken away beforehand when there is a second, or nothing is left to join. */
  lemma {:induction false} JoinDropsFirst(front: seq<string>, raw: seq<string>)
    requires |front| >= 2 || (|front| == 1 && raw == [])
    ensures Join(front, raw) == [front[0]] + Join(front[1..], raw)
    decreases raw
  {
    if raw != [] {
      assert front[1..][|front| - 2] == front[|front| - 1];
      assert Add(front, raw[0])[1..] == Add(front[1..], raw[0]);
      assert Add(front, raw[0])[0] == front[0];
      JoinDropsFirst(Add(front, raw[0]), raw[1..]);
    }
  }

  // ---------------------------------------------------------------- the lazy queue

  class Token {
    var value: string

    constructor (value: string)
      ensures this.value == value
    {
      this.value := value;
    }
  }

  class Scanner {
    var inner: seq<string>
    var queue: seq<Token>
    const skip: set<TokenType>
    ghost var handed: map<Token, string>
    ghost var Repr: set<object>

    /** Tokens that have been given out still have the text that they had then. */
    ghost predicate Valid()
      reads this, Repr
    {
      && this in Repr
      && (forall t :: t in queue ==> t in Repr)
      && (forall i, j :: 0 <= i < j < |queue| ==> queue[i] != queue[j])
      && (forall t :: t in handed ==> t in Repr && t.value == handed[t])
      && (inner != [] && queue != [] ==> queue[|queue| - 1] !in handed)
    }

    ghost function Queued(): (texts: seq<string>)
      requires Valid()
      reads this, Repr
      ensures |texts| == |queue|
    {
      seq(|queue|, i requires 0 <= i < |queue| && queue[i] in Repr reads this, Repr => queue[i].value)
    }

    /** All tokens that are still to come. */
    ghost function Remaining(): seq<string>
      requires Valid()
      reads this, Repr
    {
      Join(Queued(), Kept(inner, skip))
    }

    constructor (raw: seq<string>, skip: set<TokenType>)
      ensures Valid() && fresh(Repr) && Remaining() == Tokenize(raw, skip)
      ensures handed == map[]
    {
      inner := raw;
      queue := [];
      this.skip := skip;
      handed := map[];
      Repr := {this};
    }

    /** Takes the next text from the splitter, joining it to the last token of the queue if it belongs there. */
    method Take()
      requires Valid() && inner != []
      modifies Repr
      ensures Valid() && fresh(Repr - old(Repr)) && handed == old(handed)
      ensures Remaining() == old(Remaining()) && inner == old(inner)[1..] && old(queue) <= queue
    {
      var text := inner[0];
      ghost var texts := Queued();
      inner := inner[1..];
      assert Queued() == texts;
      if TypeOf(text) in skip {
        return;
      }
      var last := |queue| - 1;
      if last >= 0 && queue[last].value + " " + text in SPECIAL_TOKENS {
        queue[last].value := queue[last].value + " " + text;
      } else {
        var token := new Token(text);
        queue := queue + [token];
        Repr := Repr + {token};
      }
      assert Queued() == Add(texts, text);
    }

    /** Fills the queue up to `wanted`, but at least 16, tokens if there are that many. */
    method RefillQueue(wanted: nat)
      requires Valid()
      modifies Repr
      ensures Valid() && fresh(Repr - old(Repr)) && Remaining() == old(Remaining()) && handed == old(handed)
      ensures (|queue| >= wanted && |queue| >= 16) || inner == []
      ensures old(queue) <= queue
    {
      var desired := if wanted > 16 then wanted else 16;
      while |queue| < desired
        invariant Valid() && fresh(Repr - old(Repr)) && Remaining() == old(Remaining()) && handed == old(handed)
        invariant old(queue) <= queue
        decreases inner
      {
        if inner == [] {
          break;
        }
        Take();
      }
    }

    method LookAhead(n: nat) returns (token: Option<Token>)
      requires Valid()
      modifies Repr
      ensures Valid() && fresh(Repr - old(Repr)) && Remaining() == old(Remaining())
      ensures token.Some? <==> n < |Remaining()|
      ensures token.Some? ==> token.value.value == Remaining()[n] && handed == old(handed)[token.value := Remaining()[n]]
      ensures token.Some? ==> n < |queue| && queue[n] == token.value && (n + 1 < |queue| || inner == [])
      ensures token.None? ==> handed == old(handed)
    {
      RefillQueue(n + 2);
      JoinKeepsFront(Queued(), Kept(inner, skip));
      if n >= |queue| {
        return None;
      }
      ghost var texts := Queued();
      handed := handed[queue[n] := queue[n].value];
      assert Queued() == texts;
      return Some(queue[n]);
    }

    method Pop() returns (token: Option<Token>)
      requires Valid()
      modifies Repr
      ensures Valid() && fresh(Repr - old(Repr))
      ensures token.Some? <==> old(Remaining()) != []
      ensures token.Some? ==> token.value.value == old(Remaining())[0] && Remaining() == old(Remaining())[1..]
                              && handed == old(handed)[token.value := old(Remaining())[0]]
      ensures token.None? ==> Remaining() == old(Remaining()) && handed == old(handed)
    {
      token := LookAhead(0);
      if token.Some? {
        RemoveFirst();
      }
    }

    method RemoveFirst()
      requires Valid() && (|queue| >= 2 || (|queue| == 1 && inner == []))
      modifies this
      ensures Valid() && Repr == old(Repr) && handed == old(handed)
      ensures old(Remaining()) != [] && Remaining() == old(Remaining())[1..]
    {
      JoinDropsFirst(Queued(), Kept(inner, skip));
      ghost var texts := Queued();
      queue := queue[1..];
      assert Queued() == texts[1..];
    }

    method IsEOF() returns (eof: bool)
      requires Valid()
      modifies Repr
      ensures Valid() && fresh(Repr - old(Repr)) && Remaining() == old(Remaining()) && handed == old(handed)
      ensures eof <==> Remaining() == []
    {
      RefillQueue(1);
      JoinKeepsFront(Queued(), Kept(inner, skip));
      return |queue| == 0;
    }
  }
}
